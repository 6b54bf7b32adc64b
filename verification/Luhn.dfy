/** `validators::luhn` against the check formula of ISO/IEC 7812-1 Annex B. */
module Luhn {
  import opened Utf8

  newtype u16 = x: int | 0 <= x < 0x1_0000

  const LUHN_DOUBLE: seq<u16> := [0, 2, 4, 6, 8, 1, 3, 5, 7, 9]

  function Digits(s: bytes): (r: bytes)
    ensures forall k :: 0 <= k < |r| ==> IsDigit(r[k])
  {
    assert forall b <- Filter(s, IsDigit) :: IsDigit(b);
    Filter(s, IsDigit)
  }

  /** The sum of the decimal digits of a number below 20. */
  function DigitSum(n: int): int
  {
    if n < 10 then n else 1 + (n - 10)
  }

  /** The contribution of one digit: itself, or the digit sum of its double. */
  function Weighted(b: byte, doubled: bool): (w: int)
    ensures IsDigit(b) ==> 0 <= w <= 9
  {
    if doubled then DigitSum(2 * (b - 0x30)) else b - 0x30
  }

  /** Annex B: counting from the right-hand check digit, every second digit is doubled. */
  function AnnexBSum(ds: bytes): int
  {
    if ds == [] then 0 else Weighted(ds[0], |ds| % 2 == 0) + AnnexBSum(ds[1..])
  }

  /** 13 to 19 digits whose Annex B sum ends in zero. */
  predicate Accepts(s: bytes)
  {
    13 <= |Digits(s)| <= 19 && AnnexBSum(Digits(s)) % 10 == 0
  }

  method Check(s: bytes) returns (ok: bool)
    ensures ok == Accepts(s)
  {
    hide Filter, AnnexBSum;
    var digits := new u16[19];
    var len := 0;
    for i := 0 to |s|
      invariant len <= 19 && len == |Digits(s[..i])|
      invariant forall k :: 0 <= k < len ==> digits[k] as int + 0x30 == Digits(s[..i])[k]
    {
      FilterStep(s, i, IsDigit);
      if IsDigit(s[i]) {
        if len >= 19 {
          return false;
        }
        digits[len] := (s[i] - 0x30) as u16;
        len := len + 1;
      }
    }
    assert s[..|s|] == s;
    if len < 13 {
      return false;
    }
    var sum := SumFromRight(digits, len, Digits(s));
    ok := sum % 10 == 0;
  }

  /** The second loop: add up from the right, doubling every other digit by table. */
  method SumFromRight(digits: array<u16>, len: nat, ghost ds: bytes) returns (sum: u16)
    requires len == |ds| <= digits.Length == 19
    requires forall k :: 0 <= k < len ==> IsDigit(ds[k]) && digits[k] as int + 0x30 == ds[k]
    ensures sum as int == AnnexBSum(ds)
  {
    sum := 0;
    var double := false;
    for k := 0 to len
      invariant double == (k % 2 == 1)
      invariant sum as int == AnnexBSum(ds[len - k..])
      invariant sum as int <= 9 * k
    {
      SumStep(ds, k);
      var d := digits[len - 1 - k];
      assert IsDigit(ds[len - 1 - k]) && d as int + 0x30 == ds[len - 1 - k];
      sum := sum + if double then LUHN_DOUBLE[d] else d;
      double := !double;
    }
    assert ds[0..] == ds;
  }

  lemma SumStep(ds: bytes, k: nat)
    requires k < |ds|
    ensures AnnexBSum(ds[|ds| - (k + 1)..])
         == Weighted(ds[|ds| - 1 - k], k % 2 == 1) + AnnexBSum(ds[|ds| - k..])
  {
    var t := ds[|ds| - (k + 1)..];
    assert t[1..] == ds[|ds| - k..];
  }

  /** Changing one digit changes the sum by the difference of the two contributions. */
  lemma {:induction false} SumUpdate(ds: bytes, k: nat, x: byte)
    requires k < |ds|
    ensures var p := (|ds| - k) % 2 == 0;
            AnnexBSum(ds[k := x]) - AnnexBSum(ds) == Weighted(x, p) - Weighted(ds[k], p)
  {
    if k == 0 {
      assert ds[k := x][1..] == ds[1..];
    } else {
      assert ds[k := x][1..] == ds[1..][k - 1 := x];
      SumUpdate(ds[1..], k - 1, x);
    }
  }

  lemma SmallShift(m: int, n: int)
    requires m % 10 == 0 && -10 < n - m < 10
    ensures n % 10 == 0 <==> m == n
  {
  }

  lemma WeightInjective(a: byte, b: byte, doubled: bool)
    requires IsDigit(a) && IsDigit(b) && a != b
    ensures 0 != Weighted(a, doubled) - Weighted(b, doubled)
  {
  }

  /** Every single-digit change of an accepted number is rejected. */
  lemma SubstitutionDetected(s: bytes, i: nat, x: byte)
    requires Accepts(s)
    requires i < |s| && IsDigit(s[i]) && IsDigit(x) && x != s[i]
    ensures !Accepts(s[i := x])
  {
    hide Filter, AnnexBSum, Weighted;
    var k := |Filter(s[..i], IsDigit)|;
    FilterUpdate(s, i, x, IsDigit);
    SumUpdate(Digits(s), k, x);
    WeightInjective(x, s[i], (|Digits(s)| - k) % 2 == 0);
    SmallShift(AnnexBSum(Digits(s)), AnnexBSum(Digits(s)[k := x]));
  }

  /** Exchanging two different neighbouring digits, whatever separators stand between
      them, is detected except for 0 with 9, which never is. */
  lemma TranspositionDetected(s: bytes, i: nat, j: nat)
    requires Accepts(s)
    requires i < j < |s| && IsDigit(s[i]) && IsDigit(s[j]) && s[i] != s[j]
    requires forall m :: i < m < j ==> !IsDigit(s[m])
    ensures Accepts(Swap(s, i, j)) <==> {s[i], s[j]} == {0x30, 0x39}
  {
    var ds := Digits(s);
    var k := FilterSwap(s, i, j, IsDigit);
    SumSwap(ds, k);
    SwapWeights(s[i], s[j], (|ds| - k) % 2 == 0);
    SmallShift(AnnexBSum(ds), AnnexBSum(Swap(ds, k, k + 1)));
  }

  /** The shift of the sum when neighbours `a`, `b` change places; `p` says whether the
      left one is doubled. */
  function SwapShift(a: byte, b: byte, p: bool): int
  {
    Weighted(b, p) - Weighted(a, p) + Weighted(a, !p) - Weighted(b, !p)
  }

  lemma SumSwap(ds: bytes, k: nat)
    requires k + 1 < |ds|
    ensures AnnexBSum(Swap(ds, k, k + 1)) - AnnexBSum(ds)
         == SwapShift(ds[k], ds[k + 1], (|ds| - k) % 2 == 0)
  {
    hide AnnexBSum, Weighted;
    SumUpdate(ds, k, ds[k + 1]);
    SumUpdate(ds[k := ds[k + 1]], k + 1, ds[k]);
    assert (|ds| - k) % 2 == 0 <==> (|ds| - (k + 1)) % 2 != 0;
  }

  lemma SwapWeights(a: byte, b: byte, p: bool)
    requires IsDigit(a) && IsDigit(b) && a != b
    ensures var shift := SwapShift(a, b, p);
            -10 < shift < 10 && (shift == 0 <==> {a, b} == {0x30, 0x39})
  {
    var shift := SwapShift(a, b, p);
    assert -10 < shift < 10 && (shift == 0 <==> (a == 0x30 && b == 0x39) || (a == 0x39 && b == 0x30));
    if {a, b} == {0x30, 0x39} {
      assert a in {0x30, 0x39} && b in {0x30, 0x39};
    }
  }

  /** The check digit that completes a prefix. */
  function CheckDigit(s: bytes): (x: byte)
    ensures IsDigit(x)
  {
    0x30 + (10 - AnnexBSum(Digits(s) + [0x30]) % 10) % 10
  }

  /** Every prefix of 12 to 18 digits is completed by exactly one digit. */
  lemma CheckDigitUnique(s: bytes, y: byte)
    requires 12 <= |Digits(s)| <= 18 && IsDigit(y)
    ensures Accepts(s + [y]) <==> y == CheckDigit(s)
  {
    var ds := Digits(s);
    FilterAppend(s, [y], IsDigit);
    assert Digits(s + [y]) == ds + [y] == (ds + [0x30])[|ds| := y];
    SumUpdate(ds + [0x30], |ds|, y);
    Complement(AnnexBSum(ds + [0x30]), y - 0x30);
  }

  lemma Complement(m: int, d: int)
    requires 0 <= d < 10
    ensures (m + d) % 10 == 0 <==> d == (10 - m % 10) % 10
  {
  }

  // ----- the sum, from the standard's wording

  /** The sum of the digits of a number. */
  function CrossSum(n: nat): nat { if n < 10 then n else CrossSum(n / 10) + n % 10 }

  function Numeral(b: byte): nat { if IsDigit(b) then b as int - 0x30 else 0 }

  /** Pairs from the right: the check digit as it is, the digit before it doubled. */
  function PairSum(ds: bytes): nat
  {
    var n := |ds|;
    if n == 0 then 0
    else if n == 1 then Numeral(ds[0])
    else PairSum(ds[..n - 2]) + CrossSum(2 * Numeral(ds[n - 2])) + Numeral(ds[n - 1])
  }

  /** The table holds the digit sums of the doubles. */
  lemma TableHoldsCrossSums(d: nat)
    requires d <= 9
    ensures LUHN_DOUBLE[d] as int == CrossSum(2 * d) == DigitSum(2 * d)
  {
  }

  lemma {:induction false} LastPair(ds: bytes)
    requires |ds| >= 2
    ensures var n := |ds|;
      AnnexBSum(ds) == AnnexBSum(ds[..n - 2]) + Weighted(ds[n - 2], true) + Weighted(ds[n - 1], false)
  {
    hide Weighted;
    var n := |ds|;
    if n == 2 {
      assert ds[1..][1..] == [] && ds[..0] == [];
      assert AnnexBSum(ds[1..]) == Weighted(ds[1], false) + AnnexBSum(ds[1..][1..]);
    } else {
      assert ds[1..][..n - 3] == ds[..n - 2][1..];
      LastPair(ds[1..]);
    }
  }

  /** The two ways of adding up agree. */
  lemma {:induction false} SumsAgree(ds: bytes)
    requires forall k :: 0 <= k < |ds| ==> IsDigit(ds[k])
    ensures AnnexBSum(ds) == PairSum(ds)
  {
    var n := |ds|;
    if n == 1 {
      assert ds[1..] == [];
    } else if n >= 2 {
      LastPair(ds);
      SumsAgree(ds[..n - 2]);
      TableHoldsCrossSums(ds[n - 2] - 0x30);
    }
  }

  /** Acceptance in those terms, for every string. */
  lemma AcceptsExact(s: bytes)
    ensures Accepts(s) <==> 13 <= |Digits(s)| <= 19 && PairSum(Digits(s)) % 10 == 0
  {
    SumsAgree(Digits(s));
  }

  lemma {:induction false} RepeatedSum(ds: bytes, b: byte)
    requires (b == 0x30 || b == 0x31) && forall k :: 0 <= k < |ds| ==> ds[k] == b
    ensures AnnexBSum(ds) == if b == 0x30 then 0 else |ds| / 2 * 3 + |ds| % 2
  {
    if ds != [] {
      RepeatedSum(ds[1..], b);
    }
  }

  /** Of strings of zeros exactly those of 13 to 19 are accepted. */
  lemma ZerosAccepted(ds: bytes)
    requires forall k :: 0 <= k < |ds| ==> ds[k] == 0x30
    ensures Accepts(ds) <==> 13 <= |ds| <= 19
  {
    FilterAll(ds, IsDigit);
    RepeatedSum(ds, 0x30);
  }

  /** The published number 4111 1111 1111 1111 is accepted, and ending in another digit it is
      not. */
  lemma PublishedNumber(ds: bytes, last: byte)
    requires |ds| == 15 && ds[0] == 0x34 && (forall k :: 1 <= k < 15 ==> ds[k] == 0x31) && IsDigit(last)
    ensures Accepts(ds + [last]) <==> last == 0x31
  {
    var s := ds + [0x31];
    FilterAll(s, IsDigit);
    RepeatedSum(s[1..], 0x31);
    if last != 0x31 {
      assert ds + [last] == s[15 := last];
      SubstitutionDetected(s, 15, last);
    }
  }
}
