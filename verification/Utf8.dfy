/** Rust `str` values as byte sequences: RFC 3629 well-formedness, the character
    boundaries at which `&s[a..b]` does not panic, and the ASCII classes that the
    detectors test. */
module Utf8 {
  type byte = x: int | 0 <= x < 256
  type bytes = seq<byte>

  predicate IsDigit(b: byte) { 0x30 <= b <= 0x39 }
  predicate IsUpper(b: byte) { 0x41 <= b <= 0x5A }
  predicate IsLower(b: byte) { 0x61 <= b <= 0x7A }
  predicate IsAlpha(b: byte) { IsUpper(b) || IsLower(b) }
  predicate IsAlnum(b: byte) { IsAlpha(b) || IsDigit(b) }

  /** `is_ascii_alphanumeric() || == b'_'`. */
  predicate IsWord(b: byte) { IsAlnum(b) || b == 0x5F }

  /** A space or a dash. */
  predicate IsSpaceDash(b: byte) { b == 0x20 || b == 0x2D }

  /** Character classes at a position, false outside the string. */
  predicate DigitAt(v: bytes, k: int) { 0 <= k < |v| && IsDigit(v[k]) }
  predicate AlnumAt(v: bytes, k: int) { 0 <= k < |v| && IsAlnum(v[k]) }
  predicate WordAt(v: bytes, k: int) { 0 <= k < |v| && IsWord(v[k]) }

  /** The classes, character by character. */
  lemma ClassesSpelledOut(b: byte)
    ensures IsDigit(b) <==> b as char in "0123456789"
    ensures IsUpper(b) <==> b as char in "ABCDEFGHIJKLMNOPQRSTUVWXYZ"
    ensures IsLower(b) <==> b as char in "abcdefghijklmnopqrstuvwxyz"
    ensures IsAlpha(b) <==> IsUpper(b) || IsLower(b)
    ensures IsAlnum(b) <==> IsDigit(b) || IsUpper(b) || IsLower(b)
    ensures IsWord(b) <==> IsAlnum(b) || b as char == '_'
    ensures IsSpaceDash(b) <==> b as char in " -"
  {
  }

  predicate IsTail(b: byte) { 0x80 <= b <= 0xBF }

  /** Length of the well-formed character at the front of `s`, 0 if there is none
      (the UTF8-octets syntax of RFC 3629 section 4). */
  function CharLen(s: bytes): (n: nat)
    requires s != []
  {
    var b := s[0];
    if b <= 0x7F then 1
    else if 0xC2 <= b <= 0xDF && |s| >= 2 && IsTail(s[1]) then 2
    else if |s| >= 3 && IsTail(s[1]) && IsTail(s[2])
         && ( || (b == 0xE0 && s[1] >= 0xA0)
              || (0xE1 <= b <= 0xEC)
              || (b == 0xED && s[1] <= 0x9F)
              || (0xEE <= b <= 0xEF)) then 3
    else if |s| >= 4 && IsTail(s[1]) && IsTail(s[2]) && IsTail(s[3])
         && ( || (b == 0xF0 && s[1] >= 0x90)
              || (0xF1 <= b <= 0xF3)
              || (b == 0xF4 && s[1] <= 0x8F)) then 4
    else 0
  }

  predicate ValidUtf8(s: bytes)
  {
    s == [] || (0 < CharLen(s) <= |s| && ValidUtf8(s[CharLen(s)..]))
  }

  /** A Rust string. */
  type Text = s: bytes | ValidUtf8(s) witness []

  /** `str::is_char_boundary`. */
  predicate IsCharBoundary(s: bytes, i: nat)
  {
    i == 0 || i == |s| || (i < |s| && !IsTail(s[i]))
  }

  /** The first character ends at or before any later boundary, and cutting there leaves it. */
  lemma FirstChar(s: bytes, i: nat)
    requires s != [] && CharLen(s) > 0 && 0 < i <= |s| && IsCharBoundary(s, i)
    ensures CharLen(s) <= i && CharLen(s[..i]) == CharLen(s)
  {
    assert forall k :: 0 <= k < i ==> s[..i][k] == s[k];
  }

  /** Cutting well-formed UTF-8 at a character boundary leaves two well-formed halves. */
  lemma {:induction false} CutValid(s: bytes, i: nat)
    requires ValidUtf8(s) && i <= |s| && IsCharBoundary(s, i)
    ensures ValidUtf8(s[..i]) && ValidUtf8(s[i..])
    decreases |s|
  {
    hide CharLen;
    if i == 0 || i == |s| {
      assert s[..i] + s[i..] == s;
      assert s[..i] == s || s[i..] == s;
    } else {
      FirstChar(s, i);
      var n := CharLen(s);
      var t := s[n..];
      CutValid(t, i - n);
      assert s[i..] == t[i - n..];
      assert s[..i][n..] == t[..i - n];
    }
  }

  /** `&s[a..b]`: the precondition is exactly what keeps the slice from panicking. */
  function Slice(s: bytes, a: nat, b: nat): (r: bytes)
    requires ValidUtf8(s)
    requires a <= b <= |s| && IsCharBoundary(s, a) && IsCharBoundary(s, b)
    ensures r == s[a..b] && ValidUtf8(r)
  {
    CutValid(s, b);
    assert IsCharBoundary(s[..b], a);
    CutValid(s[..b], a);
    s[..b][a..]
  }

  /** The position after an ASCII byte is a character boundary. */
  lemma {:induction false} AfterAscii(s: bytes, i: nat)
    requires ValidUtf8(s) && 0 < i <= |s| && s[i - 1] <= 0x7F
    ensures IsCharBoundary(s, i)
    decreases |s|
  {
    var n := CharLen(s);
    if n < i {
      assert s[n..][i - n - 1] == s[i - 1];
      AfterAscii(s[n..], i - n);
    } else if n == i < |s| {
      assert s[n..][0] == s[i] && CharLen(s[n..]) > 0;
    }
  }

  /** The texts cut out of `s` by a list of (start, end) spans. */
  datatype Span = Span(start: nat, end: nat)

  predicate Within(s: bytes, p: Span) { p.start <= p.end <= |s| }

  function Texts(s: bytes, spans: seq<Span>): (r: seq<bytes>)
    requires forall k :: 0 <= k < |spans| ==> Within(s, spans[k])
    ensures |r| == |spans|
    ensures forall k :: 0 <= k < |r| ==> Within(s, spans[k]) && r[k] == s[spans[k].start..spans[k].end]
  {
    if spans == [] then [] else
      var q := spans[|spans| - 1];
      assert Within(s, q);
      Texts(s, spans[..|spans| - 1]) + [s[q.start..q.end]]
  }

  /** Spans from `i` on, in increasing order of their starts. */
  predicate Ascending(i: nat, r: seq<Span>)
  {
    && (forall k :: 0 <= k < |r| ==> i <= r[k].start)
    && (forall k, m :: 0 <= k < m < |r| ==> r[k].start < r[m].start)
  }

  lemma AscendingCons(i: nat, p: Span, r: seq<Span>)
    requires i <= p.start && Ascending(p.start + 1, r)
    ensures Ascending(i, [p] + r)
  {
  }

  /** Reporting one more span: what a scanning loop needs. */
  lemma PushSpan(s: bytes, done: seq<Span>, p: Span, rest: seq<Span>)
    requires (forall k :: 0 <= k < |done| ==> Within(s, done[k])) && Within(s, p)
    ensures forall k :: 0 <= k < |done + [p]| ==> Within(s, (done + [p])[k])
    ensures Texts(s, done + [p]) == Texts(s, done) + [s[p.start..p.end]]
    ensures (done + [p]) + rest == done + ([p] + rest)
  {
    assert (done + [p])[..|done|] == done;
  }

  /** The bytes of `s` that satisfy `p`, in order. */
  function Filter(s: bytes, p: byte -> bool): (r: bytes)
    ensures forall b <- r :: p(b) && b in s
    ensures |r| <= |s|
  {
    if s == [] then [] else (if p(s[0]) then [s[0]] else []) + Filter(s[1..], p)
  }

  lemma {:induction false} FilterAppend(a: bytes, b: bytes, p: byte -> bool)
    ensures Filter(a + b, p) == Filter(a, p) + Filter(b, p)
  {
    if a == [] {
      assert a + b == b;
    } else {
      hide Filter;
      assert (a + b)[1..] == a[1..] + b;
      FilterAppend(a[1..], b, p);
      FilterCons(a + b, p);
      FilterCons(a, p);
    }
  }

  lemma FilterCons(s: bytes, p: byte -> bool)
    requires s != []
    ensures Filter(s, p) == (if p(s[0]) then [s[0]] else []) + Filter(s[1..], p)
  {
  }

  /** Reading one more byte: what a loop that collects the kept bytes needs. */
  lemma FilterStep(s: bytes, i: nat, p: byte -> bool)
    requires i < |s|
    ensures Filter(s[..i + 1], p) == Filter(s[..i], p) + if p(s[i]) then [s[i]] else []
    ensures |Filter(s[..i + 1], p)| <= |Filter(s, p)|
  {
    assert s[..i + 1] == s[..i] + [s[i]];
    FilterAppend(s[..i], [s[i]], p);
    assert s == s[..i + 1] + s[i + 1..];
    FilterAppend(s[..i + 1], s[i + 1..], p);
  }

  /** The last byte of a stretch. */
  lemma FilterLast(s: bytes, a: nat, b: nat, p: byte -> bool)
    requires a < b <= |s|
    ensures Filter(s[a..b], p) == Filter(s[a..b - 1], p) + if p(s[b - 1]) then [s[b - 1]] else []
  {
    hide Filter;
    var t, n := s[a..b], b - 1 - a;
    FilterStep(t, n, p);
    assert t[..n] == s[a..b - 1];
    assert t[..n + 1] == t;
  }

  lemma {:induction false} FilterAll(s: bytes, p: byte -> bool)
    requires forall b <- s :: p(b)
    ensures Filter(s, p) == s
  {
    if s != [] {
      FilterAll(s[1..], p);
      assert s == [s[0]] + s[1..];
    }
  }

  lemma {:induction false} FilterNone(s: bytes, p: byte -> bool)
    requires forall b <- s :: !p(b)
    ensures Filter(s, p) == []
  {
    if s != [] {
      FilterNone(s[1..], p);
    }
  }

  /** A kept byte splits the filtered string where it splits `s`. */
  lemma FilterSplit(s: bytes, i: nat, p: byte -> bool)
    requires i < |s| && p(s[i])
    ensures Filter(s, p) == Filter(s[..i], p) + [s[i]] + Filter(s[i + 1..], p)
  {
    hide Filter;
    assert s == s[..i] + s[i..];
    FilterAppend(s[..i], s[i..], p);
    FilterCons(s[i..], p);
    assert s[i..][1..] == s[i + 1..];
  }

  /** Replacing one kept byte of `s` by another kept byte replaces one byte of the
      filtered string. */
  lemma FilterUpdate(s: bytes, i: nat, x: byte, p: byte -> bool)
    requires i < |s| && p(s[i]) && p(x)
    ensures |Filter(s[..i], p)| < |Filter(s, p)|
    ensures Filter(s, p)[|Filter(s[..i], p)|] == s[i]
    ensures Filter(s[i := x], p) == Filter(s, p)[|Filter(s[..i], p)| := x]
  {
    hide Filter;
    FilterSplit(s, i, p);
    FilterSplit(s[i := x], i, p);
    assert s[i := x][..i] == s[..i] && s[i := x][i + 1..] == s[i + 1..];
  }

  /** Two kept bytes with no kept byte between them are adjacent in the filtered string. */
  lemma FilterAdjacent(s: bytes, i: nat, j: nat, p: byte -> bool)
    requires i < j < |s| && p(s[i]) && p(s[j])
    requires forall k :: i < k < j ==> !p(s[k])
    ensures |Filter(s[..j], p)| == |Filter(s[..i], p)| + 1
  {
    assert s[..j] == s[..i] + ([s[i]] + s[i + 1..j]);
    FilterAppend(s[..i], [s[i]] + s[i + 1..j], p);
    FilterAppend([s[i]], s[i + 1..j], p);
    FilterNone(s[i + 1..j], p);
  }

  /** `s` with the bytes at `i` and `j` exchanged. */
  function Swap(s: bytes, i: nat, j: nat): (r: bytes)
    requires i < |s| && j < |s|
    ensures multiset(r) == multiset(s)
  {
    s[i := s[j]][j := s[i]]
  }

  /** Exchanging two kept bytes that are adjacent among the kept ones exchanges
      adjacent bytes of the filtered string. */
  lemma FilterSwap(s: bytes, i: nat, j: nat, p: byte -> bool) returns (k: nat)
    requires i < j < |s| && p(s[i]) && p(s[j])
    requires forall m :: i < m < j ==> !p(s[m])
    ensures k == |Filter(s[..i], p)| && k + 1 < |Filter(s, p)|
    ensures Filter(s, p)[k] == s[i] && Filter(s, p)[k + 1] == s[j]
    ensures Filter(Swap(s, i, j), p) == Swap(Filter(s, p), k, k + 1)
  {
    var f := Filter(s, p);
    k := |Filter(s[..i], p)|;
    var u := s[i := s[j]];
    FilterUpdate(s, i, s[j], p);
    FilterAdjacent(s, i, j, p);
    FilterUpdate(s, j, s[j], p);
    FilterAdjacent(u, i, j, p);
    assert u[..i] == s[..i];
    FilterUpdate(u, j, s[i], p);
  }

  // ----- the encoding

  /** The code points but the surrogates. */
  predicate IsScalar(c: nat) { c < 0x110000 && !(0xD800 <= c < 0xE000) }

  /** RFC 3629 section 3: one to four bytes, six bits in each but the first. */
  function Encode(c: nat): (r: bytes)
    requires IsScalar(c)
    ensures 1 <= |r| <= 4
  {
    if c < 0x80 then [c]
    else if c < 0x800 then [0xC0 + c / 0x40, 0x80 + c % 0x40]
    else if c < 0x10000 then [0xE0 + c / 0x1000, 0x80 + c / 0x40 % 0x40, 0x80 + c % 0x40]
    else [0xF0 + c / 0x40000, 0x80 + c / 0x1000 % 0x40, 0x80 + c / 0x40 % 0x40, 0x80 + c % 0x40]
  }

  function EncodeAll(cs: seq<nat>): bytes
    requires forall c <- cs :: IsScalar(c)
  {
    if cs == [] then [] else Encode(cs[0]) + EncodeAll(cs[1..])
  }

  lemma EncodedChar(c: nat, t: bytes)
    requires IsScalar(c)
    ensures CharLen(Encode(c) + t) == |Encode(c)|
  {
    var s := Encode(c) + t;
    assert forall k :: 0 <= k < |Encode(c)| ==> s[k] == Encode(c)[k];
  }

  /** The code point of a character by its length. */
  lemma DecodedChar(s: bytes) returns (c: nat)
    requires s != [] && CharLen(s) > 0
    ensures IsScalar(c) && CharLen(s) <= |s| && s[..CharLen(s)] == Encode(c)
  {
    var n := CharLen(s);
    if n == 1 {
      c := s[0];
    } else if n == 2 {
      c := Decode2(s[0], s[1]);
    } else if n == 3 {
      c := Decode3(s[0], s[1], s[2]);
    } else {
      c := Decode4(s[0], s[1], s[2], s[3]);
    }
  }

  /** Six more bits. */
  lemma SixBits(h: nat, l: nat)
    requires l < 0x40
    ensures (h * 0x40 + l) / 0x40 == h && (h * 0x40 + l) % 0x40 == l
  {
  }

  lemma TwiceSix(x: nat)
    ensures x / 0x1000 == x / 0x40 / 0x40 && x / 0x40000 == x / 0x1000 / 0x40
  {
  }

  lemma Decode2(a: byte, b: byte) returns (c: nat)
    requires 0xC2 <= a <= 0xDF && IsTail(b)
    ensures IsScalar(c) && Encode(c) == [a, b]
  {
    var x, y: int := a - 0xC0, b - 0x80;
    c := x * 0x40 + y;
    SixBits(x, y);
  }

  lemma Decode3(a: byte, b: byte, d: byte) returns (c: nat)
    requires 0xE0 <= a <= 0xEF && IsTail(b) && IsTail(d) && (a == 0xE0 ==> b >= 0xA0) && (a == 0xED ==> b <= 0x9F)
    ensures IsScalar(c) && Encode(c) == [a, b, d]
  {
    var x, y, z: int := a - 0xE0, b - 0x80, d - 0x80;
    var h := x * 0x40 + y;
    c := h * 0x40 + z;
    SixBits(x, y);
    SixBits(h, z);
    TwiceSix(c);
    assert h >= 0x20 && !(0x360 <= h < 0x380);
  }

  lemma Decode4(a: byte, b: byte, d: byte, e: byte) returns (c: nat)
    requires 0xF0 <= a <= 0xF4 && IsTail(b) && IsTail(d) && IsTail(e)
    requires (a == 0xF0 ==> b >= 0x90) && (a == 0xF4 ==> b <= 0x8F)
    ensures IsScalar(c) && Encode(c) == [a, b, d, e]
  {
    var x, y, z, w: int := a - 0xF0, b - 0x80, d - 0x80, e - 0x80;
    var h := x * 0x40 + y;
    var i := h * 0x40 + z;
    c := i * 0x40 + w;
    SixBits(x, y);
    SixBits(h, z);
    SixBits(i, w);
    TwiceSix(c);
    assert 0x10 <= h < 0x110 && 0x400 <= i < 0x4400;
    assert c / 0x40 == i && c / 0x1000 == h && c / 0x40000 == x;
  }

  lemma {:induction false} EncodedValid(cs: seq<nat>)
    requires forall c <- cs :: IsScalar(c)
    ensures ValidUtf8(EncodeAll(cs))
  {
    if cs != [] {
      EncodedValid(cs[1..]);
      EncodedChar(cs[0], EncodeAll(cs[1..]));
      hide Encode, CharLen;
      assert EncodeAll(cs)[|Encode(cs[0])|..] == EncodeAll(cs[1..]);
    }
  }

  lemma {:induction false} ValidEncoded(s: bytes) returns (cs: seq<nat>)
    requires ValidUtf8(s)
    ensures (forall c <- cs :: IsScalar(c)) && s == EncodeAll(cs)
  {
    hide Encode, CharLen, IsScalar;
    if s == [] {
      cs := [];
    } else {
      var c := DecodedChar(s);
      var n := CharLen(s);
      var rest := ValidEncoded(s[n..]);
      hide EncodeAll, ValidUtf8;
      cs := [c] + rest;
      EncodeMore(c, rest);
      assert s == s[..n] + s[n..];
    }
  }

  lemma EncodeMore(c: nat, cs: seq<nat>)
    requires IsScalar(c) && forall d <- cs :: IsScalar(d)
    ensures (forall d <- [c] + cs :: IsScalar(d)) && EncodeAll([c] + cs) == Encode(c) + EncodeAll(cs)
  {
    hide Encode;
    assert ([c] + cs)[1..] == cs;
  }

  ghost predicate IsEncoding(s: bytes, cs: seq<nat>) { (forall c <- cs :: IsScalar(c)) && s == EncodeAll(cs) }

  /** The well-formed strings are exactly the encodings of sequences of scalar values. */
  lemma ValidExact(s: bytes)
    ensures ValidUtf8(s) <==> exists cs :: IsEncoding(s, cs)
  {
    if ValidUtf8(s) {
      var cs := ValidEncoded(s);
      assert IsEncoding(s, cs);
    }
    if cs :| IsEncoding(s, cs) {
      EncodedValid(cs);
    }
  }

  /** The boundaries are exactly the positions at which both halves are well formed. */
  lemma BoundaryExact(s: bytes, i: nat)
    requires ValidUtf8(s) && i <= |s|
    ensures IsCharBoundary(s, i) <==> ValidUtf8(s[..i]) && ValidUtf8(s[i..])
  {
    if IsCharBoundary(s, i) {
      CutValid(s, i);
    } else {
      assert s[i..][0] == s[i];
    }
  }
}
