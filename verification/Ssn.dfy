/** The SSN check and the SSN detector: fixed windows of eleven bytes. */
module Ssn {
  import opened Option
  import opened Utf8

  predicate AllDigits(s: bytes) { forall k :: 0 <= k < |s| ==> IsDigit(s[k]) }

  function Number(s: bytes): (n: int)
    ensures AllDigits(s) ==> 0 <= n
  {
    if s == [] then 0 else 10 * Number(s[..|s| - 1]) + s[|s| - 1] - 0x30
  }

  /** `str::parse::<u16>`: decimal digits after an optional plus sign. */
  function ParseU16(s: bytes): Option<int>
  {
    var t := if |s| > 0 && s[0] == 0x2B then s[1..] else s;
    if t == [] || !AllDigits(t) || Number(t) >= 0x1_0000 then None else Some(Number(t))
  }

  predicate IsSeparator(b: byte) { b == 0x2D || b == 0x20 || b == 0x2E }

  /** The ranges that are assigned: no area 000, 666 or 900 and above, no group 00, no
      serial 0000. */
  predicate InRange(area: int, group: int, serial: int)
  {
    area != 0 && area != 666 && area < 900 && group != 0 && serial != 0
  }

  predicate Accepts(s: bytes)
  {
    && |s| == 11 && IsSeparator(s[3]) && s[6] == s[3]
    && var (area, group, serial) := (ParseU16(s[0..3]), ParseU16(s[4..6]), ParseU16(s[7..11]));
    && area.Some? && group.Some? && serial.Some?
    && InRange(area.value, group.value, serial.value)
  }

  method Check(s: bytes) returns (ok: bool)
    requires ValidUtf8(s)
    ensures ok == Accepts(s)
  {
    if |s| != 11 {
      return false;
    }
    var sep := s[3];
    if !(sep == 0x2D || sep == 0x20 || sep == 0x2E) {
      return false;
    }
    if s[6] != sep {
      return false;
    }
    AfterAscii(s, 4);
    AfterAscii(s, 7);
    var area := ParseU16(Slice(s, 0, 3));
    if area.None? { return false; }
    var group := ParseU16(Slice(s, 4, 6));
    if group.None? { return false; }
    var serial := ParseU16(Slice(s, 7, 11));
    if serial.None? { return false; }
    if area.value == 0 || area.value == 666 || area.value >= 900 {
      return false;
    }
    if group.value == 0 || serial.value == 0 {
      return false;
    }
    ok := true;
  }

  // ----- the check alone does not force digits

  predicate FieldsAreDigits(s: bytes)
    requires |s| == 11
  {
    AllDigits(s[0..3]) && AllDigits(s[4..6]) && AllDigits(s[7..11])
  }

  /** An accepted string is all digits between the separators exactly when no field
      begins with a plus sign. */
  lemma DigitsIffNoPlus(s: bytes)
    requires Accepts(s)
    ensures FieldsAreDigits(s) <==> s[0] != 0x2B && s[4] != 0x2B && s[7] != 0x2B
  {
    ParsedField(s[0..3]);
    ParsedField(s[4..6]);
    ParsedField(s[7..11]);
  }

  lemma ParsedField(f: bytes)
    requires f != [] && ParseU16(f).Some?
    ensures AllDigits(f) <==> f[0] != 0x2B
  {
  }

  /** "+12-34-5678" is accepted. */
  lemma PlusAccepted()
    ensures Accepts([0x2B, 0x31, 0x32, 0x2D, 0x33, 0x34, 0x2D, 0x35, 0x36, 0x37, 0x38])
  {
    var s: bytes := [0x2B, 0x31, 0x32, 0x2D, 0x33, 0x34, 0x2D, 0x35, 0x36, 0x37, 0x38];
    NumberPositive(s[1..3]);
    NumberPositive(s[4..6]);
    NumberPositive(s[7..11]);
    assert s[0..3][1..] == s[1..3];
  }

  /** Up to four digits make a number below ten thousand, positive if the first is. */
  lemma {:induction false} NumberPositive(s: bytes)
    requires AllDigits(s) && 0 < |s| <= 4
    ensures 0 <= Number(s) < (if |s| == 1 then 10 else if |s| == 2 then 100 else if |s| == 3 then 1000 else 10000)
    ensures s[0] != 0x30 ==> Number(s) > 0
  {
    if |s| > 1 {
      NumberPositive(s[..|s| - 1]);
    } else {
      assert s[..0] == [];
    }
  }

  // ----- the detector

  /** A window with the shape DDD-DD-DDDD. */
  predicate Shape(w: bytes)
  {
    |w| == 11 && FieldsAreDigits(w) && IsSeparator(w[3]) && w[6] == w[3]
  }

  /** What a window must be to be reported: shape, boundaries and ranges. */
  predicate Reportable(v: bytes, i: nat)
  {
    && i + 11 <= |v| && !WordAt(v, i - 1) && !WordAt(v, i + 11)
    && var w := v[i..i + 11];
    && Shape(w)
    && InRange(Number(w[0..3]), Number(w[4..6]), Number(w[7..11]))
  }

  /** The reportable windows from `i` on, in order. */
  function Spans(v: bytes, i: nat): (r: seq<Span>)
    ensures forall k :: 0 <= k < |r| ==> Within(v, r[k])
    decreases |v| - i
  {
    if i + 11 > |v| then []
    else if Reportable(v, i) then [Span(i, i + 11)] + Spans(v, i + 1)
    else Spans(v, i + 1)
  }

  /** With digits in every field the check is the range test. */
  lemma CheckedShape(w: bytes)
    requires Shape(w)
    ensures Accepts(w) <==> InRange(Number(w[0..3]), Number(w[4..6]), Number(w[7..11]))
  {
    ParsedDigits(w[0..3]);
    ParsedDigits(w[4..6]);
    ParsedDigits(w[7..11]);
  }

  lemma ParsedDigits(f: bytes)
    requires AllDigits(f) && 0 < |f| <= 4
    ensures ParseU16(f) == Some(Number(f))
  {
    NumberPositive(f);
  }

  /** One pass of the loop body. */
  method Probe(value: bytes, i: nat) returns (hit: bool)
    requires ValidUtf8(value) && i + 11 <= |value|
    ensures hit == Reportable(value, i)
    ensures hit ==> IsCharBoundary(value, i) && IsCharBoundary(value, i + 11)
  {
    if i > 0 && (IsAlnum(value[i - 1]) || value[i - 1] == 0x5F) {
      return false;
    }
    var end := i + 11;
    if end < |value| && (IsAlnum(value[end]) || value[end] == 0x5F) {
      return false;
    }
    var sep := value[i + 3];
    ghost var w := value[i..end];
    ShapeBytes(w);
    if IsDigit(value[i]) && IsDigit(value[i + 1]) && IsDigit(value[i + 2])
       && (sep == 0x2D || sep == 0x20 || sep == 0x2E)
       && IsDigit(value[i + 4]) && IsDigit(value[i + 5])
       && value[i + 6] == sep
       && IsDigit(value[i + 7]) && IsDigit(value[i + 8]) && IsDigit(value[i + 9]) && IsDigit(value[i + 10])
    {
      AfterAscii(value, end);
      var candidate := Slice(value, i, end);
      CheckedShape(candidate);
      hit := Check(candidate);
    } else {
      hit := false;
    }
  }

  lemma ShapeBytes(w: bytes)
    requires |w| == 11
    ensures Shape(w) <==>
      && IsDigit(w[0]) && IsDigit(w[1]) && IsDigit(w[2]) && IsSeparator(w[3])
      && IsDigit(w[4]) && IsDigit(w[5]) && w[6] == w[3]
      && IsDigit(w[7]) && IsDigit(w[8]) && IsDigit(w[9]) && IsDigit(w[10])
  {
    if FieldsAreDigits(w) {
      assert IsDigit(w[0..3][0]) && IsDigit(w[0..3][1]) && IsDigit(w[0..3][2]);
      assert IsDigit(w[4..6][0]) && IsDigit(w[4..6][1]);
      assert IsDigit(w[7..11][0]) && IsDigit(w[7..11][1]) && IsDigit(w[7..11][2]) && IsDigit(w[7..11][3]);
    }
  }

  lemma SpansStep(v: bytes, i: nat)
    ensures Spans(v, i) ==
      if i + 11 > |v| then []
      else if Reportable(v, i) then [Span(i, i + 11)] + Spans(v, i + 1)
      else Spans(v, i + 1)
  {
    hide Reportable;
  }

  method Scan(value: bytes) returns (results: seq<bytes>)
    requires ValidUtf8(value)
    ensures results == Texts(value, Spans(value, 0))
  {
    hide *;
    var len := |value|;
    SpansStep(value, 0);
    if len < 11 {
      return [];
    }
    results := [];
    ghost var done: seq<Span> := [];
    for i := 0 to len - 11 + 1
      invariant forall k :: 0 <= k < |done| ==> Within(value, done[k])
      invariant results == Texts(value, done)
      invariant done + Spans(value, i) == Spans(value, 0)
    {
      SpansStep(value, i);
      var hit := Probe(value, i);
      if hit {
        InsideText(value, i);
        PushSpan(value, done, Span(i, i + 11), Spans(value, i + 1));
        results := results + [Slice(value, i, i + 11)];
        done := done + [Span(i, i + 11)];
      }
    }
    SpansStep(value, len - 11 + 1);
  }

  lemma InsideText(v: bytes, i: nat)
    requires i + 11 <= |v|
    ensures Within(v, Span(i, i + 11))
  {
  }

  /** Exactly the reportable windows are reported. */
  lemma {:induction false} ReportsExact(v: bytes, i: nat, p: Span)
    ensures p in Spans(v, i) <==> i <= p.start && p.end == p.start + 11 && Reportable(v, p.start)
    decreases |v| - i
  {
    assert Reportable(v, p.start) ==> p.start + 11 <= |v|;
    hide Reportable;
    if i + 11 <= |v| {
      ReportsExact(v, i + 1, p);
    }
  }

  /** The reports come in increasing order. */
  lemma {:induction false} ReportsAscend(v: bytes, i: nat)
    ensures Ascending(i, Spans(v, i))
    decreases |v| - i
  {
    hide Reportable;
    if i + 11 <= |v| {
      ReportsAscend(v, i + 1);
      if Reportable(v, i) {
        AscendingCons(i, Span(i, i + 11), Spans(v, i + 1));
      }
    }
  }

  lemma WindowBytes(v: bytes, i: nat)
    requires Reportable(v, i)
    ensures IsDigit(v[i]) && IsDigit(v[i + 1]) && IsDigit(v[i + 2]) && IsSeparator(v[i + 3])
    ensures IsDigit(v[i + 4]) && IsDigit(v[i + 5]) && IsSeparator(v[i + 6])
    ensures IsDigit(v[i + 7]) && IsDigit(v[i + 8]) && IsDigit(v[i + 9]) && IsDigit(v[i + 10])
  {
    ShapeBytes(v[i..i + 11]);
  }

  /** Two different reports start at least twelve bytes apart: a second window could begin
      inside the first only after a separator, and would have a digit where it needs one. */
  lemma ReportsApart(v: bytes, p: Span, q: Span)
    requires p in Spans(v, 0) && q in Spans(v, 0) && p.start < q.start
    ensures p.start + 12 <= q.start
  {
    hide Shape, InRange, Number, Spans;
    ReportsExact(v, 0, p);
    ReportsExact(v, 0, q);
    WindowBytes(v, p.start);
    WindowBytes(v, q.start);
    assert !WordAt(v, q.start - 1) && !WordAt(v, p.start + 11);
  }

  // ----- the ranges, digit by digit

  /** Up to four digits make zero only if all of them are. */
  lemma {:induction false} NumberZero(s: bytes)
    requires AllDigits(s) && |s| <= 4
    ensures Number(s) == 0 <==> forall k :: 0 <= k < |s| ==> s[k] == 0x30
    ensures 0 <= Number(s)
  {
    if s != [] {
      NumberZero(s[..|s| - 1]);
    }
  }

  lemma AreaNumber(s: bytes)
    requires |s| == 3 && AllDigits(s)
    ensures Number(s) == 100 * (s[0] - 0x30) as int + 10 * (s[1] - 0x30) as int + (s[2] - 0x30) as int
  {
    assert s[..2][..1] == s[..1] && s[..1][..0] == [];
    assert Number(s[..1]) == s[0] - 0x30 && Number(s[..2]) == 10 * Number(s[..1]) + s[1] - 0x30;
  }

  /** A text of the shape DDD-DD-DDDD is accepted unless its area is 000 or 666 or begins with
      a nine, its group is 00, or its serial is 0000. */
  lemma RangesSpelledOut(w: bytes)
    requires |w| == 11 && w[3] as char in "- ." && w[6] == w[3]
    requires forall k :: 0 <= k < 11 && k != 3 && k != 6 ==> IsDigit(w[k])
    ensures Shape(w)
    ensures Accepts(w) <==>
      && w[0..3] != [0x30, 0x30, 0x30] && w[0..3] != [0x36, 0x36, 0x36] && w[0] != 0x39
      && w[4..6] != [0x30, 0x30] && w[7..11] != [0x30, 0x30, 0x30, 0x30]
  {
    var area, group, serial := w[0..3], w[4..6], w[7..11];
    assert area == [w[0], w[1], w[2]] && group == [w[4], w[5]] && serial == [w[7], w[8], w[9], w[10]];
    CheckedShape(w);
    AreaNumber(area);
    NumberZero(area);
    NumberZero(group);
    NumberZero(serial);
  }

  /** No text of another shape is reported. */
  lemma ReportedShape(v: bytes, p: Span)
    requires p in Spans(v, 0)
    ensures p.end == p.start + 11 <= |v|
    ensures var w := v[p.start..p.end];
      && w[3] as char in "- ." && w[6] == w[3]
      && forall k :: 0 <= k < 11 && k != 3 && k != 6 ==> IsDigit(w[k])
  {
    hide Number, Spans, Shape;
    ReportsExact(v, 0, p);
    hide Reportable, InRange;
    ShapeSpelledOut(v[p.start..p.end]);
  }

  lemma ShapeSpelledOut(w: bytes)
    requires Shape(w)
    ensures w[3] as char in "- ." && w[6] == w[3]
    ensures forall k :: 0 <= k < 11 && k != 3 && k != 6 ==> IsDigit(w[k])
  {
    ShapeBytes(w);
  }
}
