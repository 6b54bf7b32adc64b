/** `validators::iban` against the pure system MOD 97-10 of ISO/IEC 7064, which checks
    the unbounded integer spelled by the rearranged, letter-expanded characters. */
module Iban {
  import opened Utf8

  newtype u32 = x: int | 0 <= x < 0x1_0000_0000

  predicate IsIbanChar(b: byte) { IsDigit(b) || IsUpper(b) }

  /** Both digits or both uppercase letters. */
  predicate SameKind(a: byte, b: byte)
  {
    (IsDigit(a) && IsDigit(b)) || (IsUpper(a) && IsUpper(b))
  }

  /** The value of a character: 0 to 9, then A = 10 up to Z = 35. */
  function Value(b: byte): int { if IsDigit(b) then b - 0x30 else b - 0x41 + 10 }

  /** The decimal digits that a string spells, two for each letter. */
  function Expand(c: bytes): seq<int>
  {
    if c == [] then []
    else (if IsDigit(c[0]) then [Value(c[0])] else [Value(c[0]) / 10, Value(c[0]) % 10]) + Expand(c[1..])
  }

  function Decimal(ds: seq<int>): int
  {
    if ds == [] then 0 else 10 * Decimal(ds[..|ds| - 1]) + ds[|ds| - 1]
  }

  function Spelled(c: bytes): int { Decimal(Expand(c)) }

  function Compact(s: bytes): bytes { Filter(s, IsAlnum) }

  /** The first four characters moved to the end. */
  function Rearranged(c: bytes): bytes
    requires |c| >= 4
  {
    c[4..] + c[..4]
  }

  predicate Accepts(s: bytes)
  {
    var c := Compact(s);
    && |c| >= 15
    && (forall k :: 0 <= k < |c| ==> IsIbanChar(c[k]))
    && Spelled(Rearranged(c)) % 97 == 1
  }

  /** Only the compact form counts. */
  lemma SeparatorsIrrelevant(r: bytes, s: bytes)
    requires Compact(r) == Compact(s)
    ensures Accepts(r) <==> Accepts(s)
  {
  }

  method Check(s: bytes) returns (ok: bool)
    ensures ok == Accepts(s)
  {
    var compact := Compact(s);
    if |compact| < 15 {
      return false;
    }
    var rearranged := compact[4..] + compact[..4];
    var remainder: u32 := 0;
    for i := 0 to |rearranged|
      invariant forall k :: 0 <= k < i ==> IsIbanChar(rearranged[k])
      invariant remainder as int == Spelled(rearranged[..i]) % 97
    {
      var b := rearranged[i];
      SpelledStep(rearranged, i);
      if IsDigit(b) {
        remainder := (remainder * 10 + (b - 0x30) as u32) % 97;
      } else if IsUpper(b) {
        remainder := (remainder * 100 + ((b - 0x41) as u32 + 10)) % 97;
      } else {
        RearrangedChars(compact);
        return false;
      }
    }
    RearrangedChars(compact);
    assert rearranged[..|rearranged|] == rearranged;
    ok := remainder == 1;
  }

  lemma RearrangedChars(c: bytes)
    requires |c| >= 4
    ensures (forall k :: 0 <= k < |c| ==> IsIbanChar(c[k]))
       <==> (forall k :: 0 <= k < |c| ==> IsIbanChar(Rearranged(c)[k]))
  {
    var r := Rearranged(c);
    assert forall k :: 0 <= k < |c| ==> c[k] == if k < 4 then r[|c| - 4 + k] else r[k - 4];
  }

  // ----- the number spelled by a concatenation

  function Pow10(n: nat): int { if n == 0 then 1 else 10 * Pow10(n - 1) }

  lemma Regroup(x: int, y: int)
    ensures 10 * (x * y) == x * (10 * y)
  {
  }

  lemma {:induction false} DecimalAppend(a: seq<int>, b: seq<int>)
    ensures Decimal(a + b) == Decimal(a) * Pow10(|b|) + Decimal(b)
  {
    if b == [] {
      assert a + b == a;
    } else {
      var b', n := b[..|b| - 1], |b| - 1;
      assert (a + b)[..|a + b| - 1] == a + b';
      DecimalAppend(a, b');
      Regroup(Decimal(a), Pow10(n));
    }
  }

  lemma {:induction false} ExpandAppend(a: bytes, b: bytes)
    ensures Expand(a + b) == Expand(a) + Expand(b)
  {
    if a == [] {
      assert a + b == b;
    } else {
      assert (a + b)[1..] == a[1..] + b;
      ExpandAppend(a[1..], b);
    }
  }

  lemma SpelledAppend(a: bytes, b: bytes)
    ensures Spelled(a + b) == Spelled(a) * Pow10(|Expand(b)|) + Spelled(b)
  {
    ExpandAppend(a, b);
    DecimalAppend(Expand(a), Expand(b));
  }

  lemma SpelledChar(b: byte)
    ensures Spelled([b]) == Value(b)
    ensures |Expand([b])| == if IsDigit(b) then 1 else 2
  {
    assert [b][1..] == [];
    if !IsDigit(b) {
      var ds := [Value(b) / 10, Value(b) % 10];
      assert Expand([b]) == ds && ds[..1][..0] == [];
      assert Decimal(ds[..1]) == Value(b) / 10;
    } else {
      var ds := [Value(b)];
      assert Expand([b]) == ds && ds[..|ds| - 1] == [];
      assert Decimal(ds) == Value(b);
    }
  }

  lemma SpelledStep(r: bytes, i: nat)
    requires i < |r|
    ensures Spelled(r[..i + 1]) % 97
         == (Spelled(r[..i]) % 97 * (if IsDigit(r[i]) then 10 else 100) + Value(r[i])) % 97
  {
    assert r[..i + 1] == r[..i] + [r[i]];
    SpelledAppend(r[..i], [r[i]]);
    SpelledChar(r[i]);
    assert Pow10(1) == 10 && Pow10(2) == 100;
    ScaledRemainder(Spelled(r[..i]), if IsDigit(r[i]) then 10 else 100, Value(r[i]));
  }

  lemma ScaledRemainder(n: int, w: int, x: int)
    requires w == 10 || w == 100
    ensures (n * w + x) % 97 == (n % 97 * w + x) % 97
  {
    var q, r := n / 97, n % 97;
    assert n == 97 * q + r;
    if w == 10 {
      ModShift(r * 10 + x, 10 * q);
    } else {
      ModShift(r * 100 + x, 100 * q);
    }
  }

  lemma ModShift(a: int, k: int)
    ensures (a + 97 * k) % 97 == a % 97
  {
  }

  // ----- error detection

  /** Multiplying by a power of ten neither makes nor destroys divisibility by 97. */
  lemma {:induction false} Pow10Coprime(d: int, n: nat)
    ensures (d * Pow10(n)) % 97 == 0 <==> d % 97 == 0
  {
    if n > 0 {
      Pow10Coprime(d, n - 1);
      var y := d * Pow10(n - 1);
      assert d * Pow10(n) == 10 * y;
      TenCoprime(y);
    }
  }

  lemma TenCoprime(y: int)
    ensures (10 * y) % 97 == 0 <==> y % 97 == 0
  {
  }

  lemma PrefixShift(a: bytes, m: bytes, m': bytes)
    requires |Expand(m)| == |Expand(m')|
    ensures Spelled(a + m') - Spelled(a + m) == Spelled(m') - Spelled(m)
  {
    SpelledAppend(a, m);
    SpelledAppend(a, m');
  }

  lemma SuffixShift(x: bytes, x': bytes, b: bytes)
    ensures Spelled(x' + b) - Spelled(x + b) == (Spelled(x') - Spelled(x)) * Pow10(|Expand(b)|)
  {
    SpelledAppend(x, b);
    SpelledAppend(x', b);
  }

  /** Replacing a stretch by one of the same expanded width keeps the remainder exactly
      when the two stretches spell numbers congruent modulo 97. */
  lemma SameWidth(a: bytes, m: bytes, m': bytes, b: bytes)
    requires |Expand(m)| == |Expand(m')|
    ensures Spelled(a + m + b) % 97 == Spelled(a + m' + b) % 97
       <==> (Spelled(m') - Spelled(m)) % 97 == 0
  {
    hide Spelled, Expand, Pow10;
    PrefixShift(a, m, m');
    SuffixShift(a + m, a + m', b);
    Congruent(Spelled(a + m + b), Spelled(a + m' + b));
    Pow10Coprime(Spelled(m') - Spelled(m), |Expand(b)|);
  }

  lemma Congruent(x: int, y: int)
    ensures x % 97 == y % 97 <==> (y - x) % 97 == 0
  {
  }

  /** Where the rearrangement puts position `k`. */
  function Place(n: nat, k: nat): (p: nat)
    requires 4 <= n && k < n
    ensures p < n
  {
    if k < 4 then n - 4 + k else k - 4
  }

  lemma PlacedUpdate(c: bytes, k: nat, x: byte)
    requires 4 <= |c| && k < |c|
    ensures var r, p := Rearranged(c), Place(|c|, k);
      Rearranged(c[k := x]) == r[..p] + [x] + r[p + 1..] && r == r[..p] + [c[k]] + r[p + 1..]
  {
  }

  /** Replacing a digit by another digit, or an uppercase letter by another, in an
      accepted string always makes it rejected. */
  lemma SubstitutionDetected(s: bytes, i: nat, x: byte)
    requires Accepts(s)
    requires i < |s| && SameKind(s[i], x) && x != s[i]
    ensures !Accepts(s[i := x])
  {
    var c, k := Compact(s), |Filter(s[..i], IsAlnum)|;
    FilterUpdate(s, i, x, IsAlnum);
    CompactSubstitution(c, k, x);
  }

  lemma CompactSubstitution(c: bytes, k: nat, x: byte)
    requires 4 <= |c| && k < |c| && SameKind(c[k], x) && x != c[k]
    ensures Spelled(Rearranged(c)) % 97 != Spelled(Rearranged(c[k := x])) % 97
  {
    PlacedUpdate(c, k, x);
    var r, p := Rearranged(c), Place(|c|, k);
    SpelledChar(c[k]);
    SpelledChar(x);
    SameWidth(r[..p], [c[k]], [x], r[p + 1..]);
  }

  /** The letter/digit pairs B-1, M-2 and X-3: the two characters spell congruent
      numbers in either order. */
  predicate Blind(a: byte, b: byte)
  {
    || (a == 0x42 && b == 0x31)
    || (a == 0x4D && b == 0x32)
    || (a == 0x58 && b == 0x33)
  }

  /** Exchanging two different neighbouring characters, whatever separators stand between
      them, goes undetected exactly for the blind pairs; at compact positions 3 and 4, which
      the rearrangement moves to opposite ends, exactly under the condition `AcrossEnds`. */
  lemma TranspositionDetected(s: bytes, i: nat, j: nat)
    requires Accepts(s)
    requires i < j < |s| && IsAlnum(s[i]) && IsAlnum(s[j]) && s[i] != s[j]
    requires forall m :: i < m < j ==> !IsAlnum(s[m])
    ensures Accepts(Swap(s, i, j)) <==>
      if |Compact(s[..i])| == 3 then AcrossEnds(Compact(s)) else Blind(s[i], s[j]) || Blind(s[j], s[i])
  {
    hide Filter, Spelled, AcrossEnds;
    var k := FilterSwap(s, i, j, IsAlnum);
    var c := Compact(s);
    assert IsIbanChar(c[k]) && IsIbanChar(c[k + 1]);
    SwapKeepsChars(c, k);
    if k == 3 {
      EndsTransposition(c);
    } else {
      CompactTransposition(c, k);
    }
  }

  lemma SwapKeepsChars(c: bytes, k: nat)
    requires k + 1 < |c| && forall m :: 0 <= m < |c| ==> IsIbanChar(c[m])
    ensures var r := Swap(c, k, k + 1); forall m :: 0 <= m < |c| ==> IsIbanChar(r[m])
  {
  }

  lemma PlacedSwap(c: bytes, k: nat)
    requires 4 <= |c| && k + 1 < |c| && k != 3
    ensures var r, p := Rearranged(c), Place(|c|, k);
      && p + 1 < |c|
      && r == r[..p] + [c[k], c[k + 1]] + r[p + 2..]
      && Rearranged(Swap(c, k, k + 1)) == r[..p] + [c[k + 1], c[k]] + r[p + 2..]
  {
  }

  lemma CompactTransposition(c: bytes, k: nat)
    requires 4 <= |c| && k + 1 < |c| && k != 3
    requires IsIbanChar(c[k]) && IsIbanChar(c[k + 1]) && c[k] != c[k + 1]
    ensures Spelled(Rearranged(c)) % 97 == Spelled(Rearranged(Swap(c, k, k + 1))) % 97
       <==> Blind(c[k], c[k + 1]) || Blind(c[k + 1], c[k])
  {
    PlacedSwap(c, k);
    var r, p, a, b := Rearranged(c), Place(|c|, k), c[k], c[k + 1];
    SpelledPair(a, b);
    SpelledPair(b, a);
    SameWidth(r[..p], [a, b], [b, a], r[p + 2..]);
    PairShift(a, b);
  }

  function PairValue(a: byte, b: byte): int
  {
    (if IsDigit(b) then 10 else 100) * Value(a) + Value(b)
  }

  lemma SpelledPair(a: byte, b: byte)
    ensures Spelled([a, b]) == PairValue(a, b)
    ensures |Expand([a, b])| == (if IsDigit(a) then 1 else 2) + (if IsDigit(b) then 1 else 2)
  {
    assert [a, b] == [a] + [b];
    SpelledAppend([a], [b]);
    ExpandAppend([a], [b]);
    SpelledChar(a);
    SpelledChar(b);
    assert Pow10(1) == 10 && Pow10(2) == 100;
  }

  lemma PairShift(a: byte, b: byte)
    requires IsIbanChar(a) && IsIbanChar(b) && a != b
    ensures (PairValue(b, a) - PairValue(a, b)) % 97 == 0 <==> Blind(a, b) || Blind(b, a)
  {
    if SameKind(a, b) {
      EqualKinds(b - a);
    } else if IsDigit(a) {
      MixedKinds(Value(a), Value(b));
    } else {
      MixedKinds(Value(b), Value(a));
      Congruent(PairValue(a, b), PairValue(b, a));
      Congruent(PairValue(b, a), PairValue(a, b));
    }
  }

  lemma EqualKinds(e: int)
    requires -25 <= e <= 25 && e != 0
    ensures (99 * e) % 97 != 0
    ensures e < 10 && e > -10 ==> (9 * e) % 97 != 0
  {
    assert (99 * e) % 97 == (2 * e) % 97;
  }

  lemma MixedKinds(d: int, l: int)
    requires 0 <= d <= 9 && 10 <= l <= 35
    ensures ((10 * l + d) - (100 * d + l)) % 97 == 0 <==> l == 11 * d
  {
    var e := l - 11 * d;
    assert 10 * l + d - (100 * d + l) == 9 * e;
  }

  // ----- the swap across the ends

  function Width(b: byte): nat { if IsDigit(b) then 1 else 2 }

  /** The expanded width of what stands between compact positions 4 and 3 once the
      characters are rearranged. */
  function Between(c: bytes): nat
    requires |c| >= 5
  {
    |Expand(c[5..] + c[..3])|
  }

  /** What the swap adds, up to factors that are powers of ten. */
  function EndsShift(c: bytes): int
    requires |c| >= 5
  {
    var a, b := c[3], c[4];
    (Value(a) - Value(b)) * Pow10(Between(c) + Width(a) + Width(b))
    - (Value(a) - 1) * Pow10(Width(b)) + (Value(b) - 1) * Pow10(Width(a))
  }

  /** The two characters and the width between them decide. */
  predicate AcrossEnds(c: bytes)
    requires |c| >= 5
  {
    EndsShift(c) % 97 == 0
  }

  lemma {:induction false} Pow10Add(m: nat, n: nat)
    ensures Pow10(m + n) == Pow10(m) * Pow10(n)
  {
    if n > 0 {
      Pow10Add(m, n - 1);
      Regroup(Pow10(m), Pow10(n - 1));
    }
  }

  lemma SpelledEnds(x: byte, m: bytes, y: byte)
    ensures Spelled([x] + m + [y])
         == Value(x) * Pow10(|Expand(m)| + Width(y)) + Spelled(m) * Pow10(Width(y)) + Value(y)
  {
    hide Spelled, Expand, Pow10, Value;
    assert [x] + m + [y] == [x] + (m + [y]);
    SpelledAppend([x], m + [y]);
    SpelledAppend(m, [y]);
    ExpandAppend(m, [y]);
    SpelledChar(x);
    SpelledChar(y);
  }

  /** `p`, `u`, `w` are the powers of ten for what stands between, for `a` and for `b`. */
  lemma EndsAlgebra(va: int, vb: int, p: int, u: int, w: int, s: int)
    requires (u == 10 || u == 100) && (w == 10 || w == 100)
    ensures (va * (p * w) + s * w + vb - 1) * u
         == (vb * (p * u) + s * u + va - 1) * w + ((va - vb) * (p * u * w) - (va - 1) * w + (vb - 1) * u)
  {
    var x, y := va * p, vb * p;
    Regroup3(va, p, w);
    Regroup3(vb, p, u);
    Regroup3(va - vb, p, u * w);
    assert p * u * w == p * (u * w) && (va - vb) * p == x - y;
  }

  lemma Regroup3(x: int, y: int, z: int)
    ensures x * (y * z) == x * y * z
  {
  }

  /** The numbers before and after, from the weights of the two characters. */
  lemma EndsWeights(c: bytes)
    requires |c| >= 5
    ensures (Spelled(Rearranged(Swap(c, 3, 4))) - 1) * Pow10(Width(c[3]))
         == (Spelled(Rearranged(c)) - 1) * Pow10(Width(c[4])) + EndsShift(c)
  {
    var a, b, m := c[3], c[4], c[5..] + c[..3];
    assert Rearranged(c) == [b] + m + [a];
    assert Rearranged(Swap(c, 3, 4)) == [a] + m + [b];
    TenOrHundred(a);
    TenOrHundred(b);
    hide Spelled, Expand, Pow10, Value, Width;
    SpelledEnds(b, m, a);
    SpelledEnds(a, m, b);
    Pow10Add(Between(c), Width(a));
    Pow10Add(Between(c), Width(b));
    Pow10Add(Between(c) + Width(a), Width(b));
    EndsAlgebra(Value(a), Value(b), Pow10(Between(c)), Pow10(Width(a)), Pow10(Width(b)), Spelled(m));
  }

  lemma UnitShift(n: int, n': int, i: nat, j: nat, e: int)
    requires n % 97 == 1 && (n' - 1) * Pow10(i) == (n - 1) * Pow10(j) + e
    ensures n' % 97 == 1 <==> e % 97 == 0
  {
    hide Pow10;
    Pow10Coprime(n' - 1, i);
    Pow10Coprime(n - 1, j);
    OneAbove(n);
    OneAbove(n');
    AddMultiple((n - 1) * Pow10(j), (n' - 1) * Pow10(i), e);
  }

  lemma OneAbove(n: int)
    ensures n % 97 == 1 <==> (n - 1) % 97 == 0
  {
  }

  lemma EndsTransposition(c: bytes)
    requires |c| >= 5 && Spelled(Rearranged(c)) % 97 == 1
    ensures Spelled(Rearranged(Swap(c, 3, 4))) % 97 == 1 <==> AcrossEnds(c)
  {
    hide Spelled, Pow10, Width, EndsShift, Rearranged;
    EndsWeights(c);
    UnitShift(Spelled(Rearranged(c)), Spelled(Rearranged(Swap(c, 3, 4))), Width(c[3]), Width(c[4]), EndsShift(c));
  }

  lemma SmallPowers()
    ensures Pow10(0) == 1 && Pow10(1) == 10 && Pow10(2) == 100 && Pow10(3) == 1000
  {
  }

  lemma TenOrHundred(b: byte)
    ensures Pow10(Width(b)) == if IsDigit(b) then 10 else 100
  {
    SmallPowers();
  }

  lemma AddMultiple(x: int, y: int, e: int)
    requires x % 97 == 0 && y == x + e
    ensures y % 97 == 0 <==> e % 97 == 0
  {
  }

  // ----- the order of ten

  lemma UnitFactor(x: int, y: int)
    requires y % 97 == 1
    ensures x * y % 97 == x % 97
  {
    var q := y / 97;
    assert x * y == x + 97 * (x * q);
    ModShift(x, x * q);
  }

  lemma {:induction false} UnitPower(n: nat, k: nat)
    requires Pow10(n) % 97 == 1
    ensures Pow10(n * k) % 97 == 1
  {
    if k > 0 {
      UnitPower(n, k - 1);
      assert n * k == n * (k - 1) + n;
      Pow10Add(n * (k - 1), n);
      UnitFactor(Pow10(n * (k - 1)), Pow10(n));
    }
  }

  lemma Doubled(n: nat, r: int)
    requires Pow10(n) % 97 == r
    ensures Pow10(2 * n) % 97 == r * r % 97
  {
    Pow10Add(n, n);
    var q := Pow10(n) / 97;
    assert (97 * q + r) * (97 * q + r) == r * r + 97 * (97 * q * q + 2 * q * r);
    ModShift(r * r, 97 * q * q + 2 * q * r);
  }

  lemma ThirtyTwo()
    ensures Pow10(32) % 97 == 61 && Pow10(64) % 97 == 35
  {
    hide Pow10;
    SmallPowers();
    Doubled(1, 10);
    Doubled(2, 3);
    Doubled(4, 9);
    Doubled(8, 81);
    Doubled(16, 62);
    Doubled(32, 61);
  }

  lemma FortyEight()
    ensures Pow10(48) % 97 == 96 && Pow10(96) % 97 == 1
  {
    hide Pow10;
    SmallPowers();
    Doubled(3, 30);
    Doubled(6, 27);
    Doubled(12, 50);
    Doubled(24, 75);
    Doubled(48, 96);
  }

  /** After 48 steps the remainder is minus one, so only an even number of such stretches
      brings it back to one. */
  lemma {:induction false} HalfTurns(m: nat)
    ensures Pow10(48 * m) % 97 == if m % 2 == 0 then 1 else 96
  {
    hide Pow10;
    if m > 1 {
      HalfTurns(m - 2);
      FortyEight();
      Pow10Add(48 * (m - 2), 96);
      UnitFactor(Pow10(48 * (m - 2)), Pow10(96));
    } else if m == 1 {
      FortyEight();
    } else {
      SmallPowers();
    }
  }

  lemma EvenQuotient(n: nat, k: nat, m: nat)
    requires Pow10(n) % 97 == 1 && n * k == 48 * m
    ensures m % 2 == 0
  {
    UnitPower(n, k);
    HalfTurns(m);
  }

  lemma OneMoreFactor(n: nat, p: nat)
    requires p == 1 || p == 2 || p == 4 || p == 8 || p == 16
    requires Pow10(n) % 97 == 1 && n % p == 0
    ensures n % (2 * p) == 0
  {
    hide Pow10;
    var m := n / p;
    EvenQuotient(n, 48 / p, m);
    assert n == p * (2 * (m / 2));
  }

  lemma ThirdTurns(n: nat)
    requires Pow10(n) % 97 == 1
    ensures n % 3 == 0
  {
    hide Pow10;
    UnitPower(n, 32);
    ThirtyTwo();
    FortyEight();
    var q, r := n / 3, n % 3;
    UnitPower(96, q);
    Pow10Add(32 * r, 96 * q);
    UnitFactor(Pow10(32 * r), Pow10(96 * q));
    assert n * 32 == 32 * r + 96 * q;
  }

  lemma EvenTurns(n: nat)
    requires Pow10(n) % 97 == 1
    ensures n % 32 == 0
  {
    hide Pow10;
    OneMoreFactor(n, 1);
    OneMoreFactor(n, 2);
    OneMoreFactor(n, 4);
    OneMoreFactor(n, 8);
    OneMoreFactor(n, 16);
  }

  lemma ThreeTimes32(n: nat)
    requires n % 3 == 0 && n % 32 == 0
    ensures n % 96 == 0
  {
    var q := n / 32;
    assert n == 32 * q && (32 * q) % 3 == (2 * q) % 3;
  }

  /** Ten has order 96 modulo 97. */
  lemma TenOrder(n: nat)
    ensures Pow10(n) % 97 == 1 <==> n % 96 == 0
  {
    hide Pow10;
    if n % 96 == 0 {
      var q := n / 96;
      assert n == 48 * (2 * q) && (2 * q) % 2 == 0;
      HalfTurns(2 * q);
    } else if Pow10(n) % 97 == 1 {
      ThirdTurns(n);
      EvenTurns(n);
      ThreeTimes32(n);
    }
  }

  const INVERSES: seq<int> := [0, 1, 49, 65, 73, 39, 81, 14, 85, 54, 68, 53, 89, 15, 7, 13, 91, 40, 27, 46,
                               34, 37, 75, 38, 93, 66]

  lemma Inverse(d: nat) returns (e: int)
    requires 1 <= d <= 25
    ensures (d * e) % 97 == 1
  {
    e := INVERSES[d];
  }

  /** A difference of two values of the same kind is no multiple of 97, which is prime. */
  lemma SmallFactor(d: int, x: int)
    requires -25 <= d <= 25 && d != 0
    ensures (d * x) % 97 == 0 <==> x % 97 == 0
  {
    KeepsMultiple(d, x);
    if d < 0 {
      CancelFactor(-d, x);
      assert -d * x == -(d * x);
    } else {
      CancelFactor(d, x);
    }
  }

  lemma CancelFactor(d: nat, x: int)
    requires 1 <= d <= 25
    ensures (d * x) % 97 == 0 ==> x % 97 == 0
  {
    var e := Inverse(d);
    UnitFactor(x, d * e);
    Commute3(x, d, e);
    KeepsMultiple(e, d * x);
  }

  lemma Commute3(x: int, d: int, e: int)
    ensures x * (d * e) == e * (d * x)
  {
  }

  lemma KeepsMultiple(e: int, y: int)
    ensures y % 97 == 0 ==> (e * y) % 97 == 0
  {
    if y % 97 == 0 {
      var q := y / 97;
      assert e * y == 97 * (e * q);
      ModShift(0, e * q);
    }
  }

  /** Two digits or two capitals at positions 3 and 4: the swap is undetected exactly if the
      width of all but the first of the rearranged characters is a multiple of 96. */
  lemma EndsSameKind(c: bytes)
    requires |c| >= 5 && SameKind(c[3], c[4]) && c[3] != c[4]
    ensures AcrossEnds(c) <==> (Between(c) + Width(c[3])) % 96 == 0
  {
    var a, b, w, k := Value(c[3]), Value(c[4]), Between(c), Width(c[3]);
    assert -25 <= a - b <= 25 && a != b && Width(c[4]) == k;
    hide Between, Pow10, Value, Width;
    SameShift(a, b, w, k);
  }

  lemma SameShift(a: int, b: int, w: nat, k: nat)
    requires -25 <= a - b <= 25 && a != b
    ensures ((a - b) * Pow10(w + k + k) - (a - 1) * Pow10(k) + (b - 1) * Pow10(k)) % 97 == 0 <==> (w + k) % 96 == 0
  {
    hide Pow10;
    var d, x := a - b, Pow10(w + k) - 1;
    Pow10Add(w + k, k);
    SameWeights(a, b, Pow10(w + k), Pow10(k));
    Pow10Coprime(d * x, k);
    SmallFactor(d, x);
    OneAbove(Pow10(w + k));
    TenOrder(w + k);
  }

  lemma SameWeights(a: int, b: int, p: int, u: int)
    ensures (a - b) * (p * u) - (a - 1) * u + (b - 1) * u == (a - b) * (p - 1) * u
  {
    Regroup3(a - b, p, u);
    assert (a - b) * (p - 1) == (a - b) * p - (a - b);
  }

  lemma {:induction false} ExpandBound(c: bytes)
    ensures |Expand(c)| <= 2 * |c|
  {
    if c != [] {
      ExpandBound(c[1..]);
    }
  }

  /** So up to 48 characters, well above every registered length, swapping two digits or two
      capitals is always detected, wherever they stand. */
  lemma SameKindSwapDetected(s: bytes, i: nat, j: nat)
    requires Accepts(s) && |Compact(s)| <= 48
    requires i < j < |s| && SameKind(s[i], s[j]) && s[i] != s[j]
    requires forall m :: i < m < j ==> !IsAlnum(s[m])
    ensures !Accepts(Swap(s, i, j))
  {
    hide Filter, Spelled, AcrossEnds, Expand, Accepts;
    TranspositionDetected(s, i, j);
    var k := FilterSwap(s, i, j, IsAlnum);
    var c := Compact(s);
    if k == 3 {
      EndsSameKind(c);
      ExpandBound(c[5..] + c[..3]);
    }
  }

  // ----- check digits

  function TwoDigits(n: nat): bytes
    requires n < 100
  {
    [0x30 + n / 10, 0x30 + n % 10]
  }

  /** For every country code and account part exactly one check pair from 02 to 98
      validates: 98 minus the remainder with check digits 00. */
  lemma CheckPairUnique(cc: bytes, account: bytes, n: nat)
    requires |cc| == 2 && IsUpper(cc[0]) && IsUpper(cc[1])
    requires |account| >= 11 && forall k :: 0 <= k < |account| ==> IsIbanChar(account[k])
    requires 2 <= n <= 98
    ensures Accepts(cc + TwoDigits(n) + account)
       <==> n == 98 - Spelled(account + cc + TwoDigits(0)) % 97
  {
    hide Filter, Expand, Spelled, Pow10;
    var s := cc + TwoDigits(n) + account;
    FilterAll(s, IsAlnum);
    assert Rearranged(s) == (account + cc) + TwoDigits(n);
    SpelledAppend(account + cc, TwoDigits(n));
    SpelledAppend(account + cc, TwoDigits(0));
    SpelledPair(TwoDigits(n)[0], TwoDigits(n)[1]);
    SpelledPair(0x30, 0x30);
    Complement(Spelled(account + cc) * Pow10(2), n);
  }

  lemma Complement(m: int, n: nat)
    requires 2 <= n <= 98
    ensures (m + n) % 97 == 1 <==> n == 98 - m % 97
  {
  }

  // ----- the values of the characters

  /** In the number that a string spells, the next letter or the next digit counts one more at
      its place; `A` counts ten and `0` nothing. */
  lemma NextCharacter(c: bytes, k: nat)
    requires k < |c| && IsIbanChar(c[k]) && c[k] != 0x39 && c[k] != 0x5A
    ensures Spelled(c[k := c[k] + 1]) == Spelled(c) + Pow10(|Expand(c[k + 1..])|)
  {
    var b, rest := c[k], c[k + 1..];
    assert c == c[..k] + [b] + rest && c[k := b + 1] == c[..k] + [b + 1] + rest;
    SpelledChar(b);
    SpelledChar(b + 1);
    assert Value(b + 1) == Value(b) + 1;
    hide Spelled, Expand, Pow10, Value;
    PrefixShift(c[..k], [b], [b + 1]);
    SuffixShift(c[..k] + [b], c[..k] + [b + 1], rest);
  }

  lemma FirstCharacters()
    ensures Spelled([0x41]) == 10 && Spelled([0x30]) == 0
  {
    SpelledChar(0x41);
    SpelledChar(0x30);
  }

  /** A lower-case letter anywhere, or fewer than fifteen characters, and it is rejected. */
  lemma NeverAccepted(s: bytes)
    requires |Compact(s)| < 15 || exists k :: 0 <= k < |s| && IsLower(s[k])
    ensures !Accepts(s)
  {
    if k :| 0 <= k < |s| && IsLower(s[k]) {
      FilterUpdate(s, k, s[k], IsAlnum);
    }
  }
}
