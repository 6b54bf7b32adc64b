/** The phone detector, for any validity predicate in place of the phone-number library. */
module Phone {
  import opened Option
  import opened Utf8

  predicate InTwoToNine(b: byte) { 0x32 <= b <= 0x39 }

  datatype Plan = International | Domestic

  /** The digits collected at most. */
  function Limit(plan: Plan): nat { if plan.International? then 15 else 10 }

  /** Space, dash, dot, closing and (international only) opening parenthesis. */
  predicate IsSeparator(plan: Plan, b: byte)
  {
    b == 0x20 || b == 0x2D || b == 0x2E || b == 0x29 || (plan.International? && b == 0x28)
  }

  predicate SeparatorAt(plan: Plan, v: bytes, k: int) { 0 <= k < |v| && IsSeparator(plan, v[k]) }

  /** The digits of `v[a..b]`, in order. */
  function DigitsOf(v: bytes, a: nat, b: nat): (r: bytes)
    requires a <= b <= |v|
    ensures |r| <= b - a
    decreases b
  {
    if a == b then [] else DigitsOf(v, a, b - 1) + if IsDigit(v[b - 1]) then [v[b - 1]] else []
  }

  lemma {:induction false} DigitsOfGrows(v: bytes, a: nat, b: nat, c: nat)
    requires a <= b <= c <= |v|
    ensures |DigitsOf(v, a, b)| <= |DigitsOf(v, a, c)|
    decreases c - b
  {
    if b < c {
      DigitsOfGrows(v, a, b, c - 1);
    }
  }

  /** The number of digits, the end of the last digit, and the stopping position of the
      collecting loop. */
  datatype Stop = Stop(count: nat, end: nat, at: nat)

  function Walk(plan: Plan, v: bytes, j: nat, count: nat, end: nat): (r: Stop)
    requires end <= j <= |v|
    ensures end <= r.end <= r.at <= |v|
    decreases |v| - j
  {
    if j < |v| && count < Limit(plan) then
      if IsDigit(v[j]) then Walk(plan, v, j + 1, count + 1, j + 1)
      else if IsSeparator(plan, v[j]) && count > 0 then Walk(plan, v, j + 1, count, end)
      else Stop(count, end, j)
    else Stop(count, end, j)
  }

  function ParseInternational(v: bytes, start: nat, first: nat, valid: bytes -> bool): (r: Option<Span>)
    requires start < first <= |v|
    ensures r.Some? ==> r.value.start == start && Within(v, r.value)
  {
    var w := Walk(International, v, first, 0, first);
    if !(7 <= w.count <= 15) || AlnumAt(v, w.end) || !valid(v[start..w.end]) then None
    else Some(Span(start, w.end))
  }

  /** The first position after an opening parenthesis, if there is one. */
  function AfterParen(v: bytes, start: nat): (a: nat)
    requires start < |v|
    ensures start <= a <= |v|
  {
    if v[start] == 0x28 then start + 1 else start
  }

  function ParseDomestic(v: bytes, start: nat, valid: bytes -> bool): (r: Option<Span>)
    requires start < |v|
    ensures r.Some? ==> r.value.start == start && Within(v, r.value)
  {
    var a := AfterParen(v, start);
    var w := Walk(Domestic, v, a, 0, a);
    var ds := DigitsOf(v, a, w.end);
    if |ds| != 10 || w.end - a == 10 then None
    else if !InTwoToNine(ds[0]) || !InTwoToNine(ds[3]) || AlnumAt(v, w.end) || !valid(v[start..w.end]) then None
    else Some(Span(start, w.end))
  }

  /** The loop of `parse_international`. */
  method CountDigits(value: bytes, first: nat) returns (count: nat, end: nat)
    requires first <= |value|
    ensures var w := Walk(International, value, first, 0, first); count == w.count && end == w.end
  {
    var j := first;
    count, end := 0, first;
    while j < |value| && count < 15
      invariant first <= end <= j <= |value|
      invariant Walk(International, value, j, count, end) == Walk(International, value, first, 0, first)
    {
      var b := value[j];
      if 0x30 <= b <= 0x39 {
        count := count + 1;
        j := j + 1;
        end := j;
      } else if (b == 0x20 || b == 0x2D || b == 0x2E || b == 0x28 || b == 0x29) && count > 0 {
        j := j + 1;
      } else {
        break;
      }
    }
  }

  method CollectInternational(value: bytes, start: nat, first: nat, valid: bytes -> bool) returns (r: Option<Span>)
    requires ValidUtf8(value) && start < first < |value| && IsCharBoundary(value, start)
    ensures r == ParseInternational(value, start, first, valid)
    ensures r.Some? ==> IsCharBoundary(value, r.value.end)
  {
    hide Walk;
    var count, end := CountDigits(value, first);
    if !(7 <= count <= 15) || (end < |value| && IsAlnum(value[end])) {
      return None;
    }
    WalkFrom(International, value, first);
    AfterAscii(value, end);
    r := if valid(Slice(value, start, end)) then Some(Span(start, end)) else None;
  }

  /** The loop of `parse_nanp`: digits into an array, noting whether a separator was met. */
  method CollectDigits(value: bytes, a: nat) returns (digits: array<byte>, count: nat, hasSep: bool, end: nat)
    requires a <= |value|
    ensures digits.Length == 10
    ensures var w := Walk(Domestic, value, a, 0, a);
      && count == w.count <= 10 && end == w.end
      && count == |DigitsOf(value, a, w.at)| && (hasSep <==> count < w.at - a)
      && forall k :: 0 <= k < count ==> digits[k] == DigitsOf(value, a, w.at)[k]
  {
    digits := new byte[10](_ => 0);
    var j := a;
    count, hasSep, end := 0, false, a;
    while j < |value| && count < 10
      invariant a <= end <= j <= |value| && count <= 10
      invariant Walk(Domestic, value, j, count, end) == Walk(Domestic, value, a, 0, a)
      invariant count == |DigitsOf(value, a, j)| && (hasSep <==> count < j - a)
      invariant forall k :: 0 <= k < count ==> digits[k] == DigitsOf(value, a, j)[k]
    {
      var b := value[j];
      if 0x30 <= b <= 0x39 {
        digits[count] := b;
        count := count + 1;
        j := j + 1;
        end := j;
      } else if (b == 0x29 || b == 0x2D || b == 0x2E || b == 0x20) && count > 0 {
        hasSep := true;
        j := j + 1;
      } else {
        break;
      }
    }
    assert Walk(Domestic, value, a, 0, a) == Stop(count, end, j);
  }

  method CollectDomestic(value: bytes, start: nat, valid: bytes -> bool) returns (r: Option<Span>)
    requires ValidUtf8(value) && start < |value| && IsCharBoundary(value, start)
    ensures r == ParseDomestic(value, start, valid)
    ensures r.Some? ==> IsCharBoundary(value, r.value.end)
  {
    hide Walk;
    var j := start;
    if value[j] == 0x28 {
      j := j + 1;
    }
    var digits, count, hasSep, end := CollectDigits(value, j);
    WalkFrom(Domestic, value, j);
    if count != 10 || !hasSep {
      return None;
    }
    if !(0x32 <= digits[0] <= 0x39) || !(0x32 <= digits[3] <= 0x39) {
      return None;
    }
    if end < |value| && IsAlnum(value[end]) {
      return None;
    }
    AfterAscii(value, end);
    r := if valid(Slice(value, start, end)) then Some(Span(start, end)) else None;
  }

  /** What the outer loop tries at position `i`. */
  function Parse(v: bytes, i: nat, valid: bytes -> bool): (r: Option<Span>)
    requires i < |v|
    ensures r.Some? ==> r.value.start == i && Within(v, r.value)
  {
    if AlnumAt(v, i - 1) then None
    else if v[i] == 0x2B && DigitAt(v, i + 1) then ParseInternational(v, i, i + 1, valid)
    else if v[i] == 0x30 && i + 2 < |v| && v[i + 1] == 0x30 && DigitAt(v, i + 2) then
      ParseInternational(v, i, i + 2, valid)
    else if v[i] == 0x28 || InTwoToNine(v[i]) then ParseDomestic(v, i, valid)
    else None
  }

  function Spans(v: bytes, i: nat, valid: bytes -> bool): (r: seq<Span>)
    requires i <= |v|
    ensures forall k :: 0 <= k < |r| ==> Within(v, r[k])
    decreases |v| - i
  {
    if i == |v| then []
    else match Parse(v, i, valid)
      case Some(p) => (ParsedNonEmpty(v, i, valid); [p] + Spans(v, p.end, valid))
      case None => Spans(v, i + 1, valid)
  }

  lemma ParsedNonEmpty(v: bytes, i: nat, valid: bytes -> bool)
    requires i < |v| && Parse(v, i, valid).Some?
    ensures i < Parse(v, i, valid).value.end
  {
  }

  lemma SpansStep(v: bytes, i: nat, valid: bytes -> bool)
    requires i <= |v|
    ensures Spans(v, i, valid) ==
      if i == |v| then []
      else match Parse(v, i, valid)
        case None => Spans(v, i + 1, valid)
        case Some(p) => [p] + Spans(v, p.end, valid)
  {
    hide Parse;
  }

  /** The body of the outer loop, up to the push. */
  method Probe(value: bytes, i: nat, valid: bytes -> bool) returns (parsed: Option<Span>)
    requires ValidUtf8(value) && i < |value|
    ensures parsed == Parse(value, i, valid)
    ensures parsed.Some? ==> parsed.value.start == i < parsed.value.end <= |value|
    ensures parsed.Some? ==> IsCharBoundary(value, i) && IsCharBoundary(value, parsed.value.end)
  {
    hide ParseInternational, ParseDomestic;
    parsed := None;
    if i > 0 && IsAlnum(value[i - 1]) {
      return;
    }
    var b := value[i];
    if b == 0x2B && i + 1 < |value| && IsDigit(value[i + 1]) {
      parsed := CollectInternational(value, i, i + 1, valid);
    } else if b == 0x30 && i + 2 < |value| && value[i + 1] == 0x30 && IsDigit(value[i + 2]) {
      parsed := CollectInternational(value, i, i + 2, valid);
    } else if b == 0x28 || 0x32 <= b <= 0x39 {
      parsed := CollectDomestic(value, i, valid);
    }
    if parsed.Some? {
      ParsedNonEmpty(value, i, valid);
    }
  }

  method Scan(value: bytes, valid: bytes -> bool) returns (results: seq<bytes>)
    requires ValidUtf8(value)
    ensures results == Texts(value, Spans(value, 0, valid))
  {
    hide *;
    results := [];
    ghost var done: seq<Span> := [];
    var i := 0;
    while i < |value|
      invariant i <= |value|
      invariant forall k :: 0 <= k < |done| ==> Within(value, done[k])
      invariant results == Texts(value, done)
      invariant done + Spans(value, i, valid) == Spans(value, 0, valid)
    {
      SpansStep(value, i, valid);
      var parsed := Probe(value, i, valid);
      if parsed.Some? {
        var p := parsed.value;
        PushSpan(value, done, p, Spans(value, p.end, valid));
        assert value[p.start..p.end] == Slice(value, p.start, p.end);
        results := results + [Slice(value, p.start, p.end)];
        done := done + [p];
        i := p.end;
      } else {
        i := i + 1;
      }
    }
    SpansStep(value, i, valid);
  }

  // ----- the walk

  /** Digits and separators from a digit to a digit. */
  predicate Number(plan: Plan, v: bytes, a: nat, e: nat)
  {
    && a < e <= |v| && DigitAt(v, a) && DigitAt(v, e - 1)
    && forall k :: a <= k < e ==> DigitAt(v, k) || SeparatorAt(plan, v, k)
  }

  /** The first position from `e` on that holds no separator. */
  function SkipSeparators(plan: Plan, v: bytes, e: nat): (f: nat)
    requires e <= |v|
    ensures e <= f <= |v| && !SeparatorAt(plan, v, f)
    ensures forall k :: e <= k < f ==> SeparatorAt(plan, v, k)
    decreases |v| - e
  {
    if SeparatorAt(plan, v, e) then SkipSeparators(plan, v, e + 1) else e
  }

  /** The number cannot go on after `e`: it is full, or only separators follow before
      something that is neither separator nor digit. */
  predicate Exhausted(plan: Plan, v: bytes, a: nat, e: nat)
    requires a <= e <= |v|
  {
    |DigitsOf(v, a, e)| == Limit(plan) || !DigitAt(v, SkipSeparators(plan, v, e))
  }

  lemma {:induction false} DigitsOfSeparators(plan: Plan, v: bytes, a: nat, e: nat, j: nat)
    requires a <= e <= j <= |v| && forall k :: e <= k < j ==> SeparatorAt(plan, v, k)
    ensures DigitsOf(v, a, j) == DigitsOf(v, a, e)
    decreases j
  {
    if e < j {
      assert SeparatorAt(plan, v, j - 1);
      DigitsOfSeparators(plan, v, a, e, j - 1);
    }
  }

  /** Halfway through the walk: `count` digits up to `end`, then separators up to `j`. */
  predicate Progress(plan: Plan, v: bytes, a: nat, j: nat, count: nat, end: nat)
  {
    && a <= end <= j <= |v| && count == |DigitsOf(v, a, end)| <= Limit(plan)
    && (if count == 0 then a == end == j else Number(plan, v, a, end))
    && (forall k :: end <= k < j ==> SeparatorAt(plan, v, k))
    && (count == Limit(plan) ==> j == end)
  }

  /** Where the walk stops: after nothing, or after a number that cannot go on. */
  predicate Arrived(plan: Plan, v: bytes, a: nat, w: Stop)
  {
    && a <= w.end <= |v| && w.count == |DigitsOf(v, a, w.end)| <= Limit(plan)
    && (if w.count == 0 then w.end == a && !DigitAt(v, a)
        else Number(plan, v, a, w.end) && Exhausted(plan, v, a, w.end))
    && (w.count == Limit(plan) ==> w.at == w.end)
  }

  lemma {:induction false} WalkShape(plan: Plan, v: bytes, a: nat, j: nat, count: nat, end: nat)
    requires Progress(plan, v, a, j, count, end) && end <= j <= |v|
    ensures Arrived(plan, v, a, Walk(plan, v, j, count, end))
    decreases |v| - j
  {
    hide Progress, Arrived;
    if j < |v| && count < Limit(plan) && IsDigit(v[j]) {
      DigitStep(plan, v, a, j, count, end);
      WalkShape(plan, v, a, j + 1, count + 1, j + 1);
    } else if j < |v| && count < Limit(plan) && IsSeparator(plan, v[j]) && count > 0 {
      SeparatorStep(plan, v, a, j, count, end);
      WalkShape(plan, v, a, j + 1, count, end);
    } else {
      StopStep(plan, v, a, j, count, end);
    }
  }

  lemma DigitStep(plan: Plan, v: bytes, a: nat, j: nat, count: nat, end: nat)
    requires Progress(plan, v, a, j, count, end) && DigitAt(v, j) && count < Limit(plan)
    ensures Progress(plan, v, a, j + 1, count + 1, j + 1)
  {
    DigitsOfSeparators(plan, v, a, end, j);
  }

  lemma SeparatorStep(plan: Plan, v: bytes, a: nat, j: nat, count: nat, end: nat)
    requires Progress(plan, v, a, j, count, end) && SeparatorAt(plan, v, j) && 0 < count < Limit(plan)
    ensures Progress(plan, v, a, j + 1, count, end)
  {
  }

  lemma StopStep(plan: Plan, v: bytes, a: nat, j: nat, count: nat, end: nat)
    requires Progress(plan, v, a, j, count, end)
    requires count < Limit(plan) ==> !DigitAt(v, j) && (count > 0 ==> !SeparatorAt(plan, v, j))
    ensures Arrived(plan, v, a, Stop(count, end, j))
  {
    if 0 < count < Limit(plan) {
      SkipsTo(plan, v, end, j);
    }
  }

  lemma WalkFrom(plan: Plan, v: bytes, a: nat)
    requires a <= |v|
    ensures Arrived(plan, v, a, Walk(plan, v, a, 0, a))
  {
    WalkShape(plan, v, a, a, 0, a);
  }

  lemma SkipsTo(plan: Plan, v: bytes, e: nat, j: nat)
    requires e <= j <= |v| && !SeparatorAt(plan, v, j)
    requires forall k :: e <= k < j ==> SeparatorAt(plan, v, k)
    ensures SkipSeparators(plan, v, e) == j
  {
    var f := SkipSeparators(plan, v, e);
    assert (f < j ==> SeparatorAt(plan, v, f)) && (j < f ==> SeparatorAt(plan, v, j));
  }

  /** The walk finds the one stretch that is a number and cannot go on. */
  lemma WalkUnique(plan: Plan, v: bytes, a: nat, e: nat)
    requires Number(plan, v, a, e) && |DigitsOf(v, a, e)| <= Limit(plan) && Exhausted(plan, v, a, e)
    ensures var w := Walk(plan, v, a, 0, a); w.end == e && w.count == |DigitsOf(v, a, e)|
  {
    hide DigitsOf, Walk, SkipSeparators;
    WalkFrom(plan, v, a);
    var w := Walk(plan, v, a, 0, a);
    if w.end < e {
      OneMoreDigit(v, a, w.end, e);
      GoesOn(plan, v, a, w.end, e);
    } else if e < w.end {
      OneMoreDigit(v, a, e, w.end);
      GoesOn(plan, v, a, e, w.end);
    }
  }

  lemma OneMoreDigit(v: bytes, a: nat, b: nat, c: nat)
    requires a <= b < c <= |v| && DigitAt(v, c - 1)
    ensures |DigitsOf(v, a, b)| < |DigitsOf(v, a, c)|
  {
    DigitsOfGrows(v, a, b, c - 1);
  }

  lemma GoesOn(plan: Plan, v: bytes, a: nat, e: nat, f: nat)
    requires a <= e < f && Number(plan, v, a, f)
    ensures DigitAt(v, SkipSeparators(plan, v, e))
  {
    var s := SkipSeparators(plan, v, e);
    assert s >= f ==> SeparatorAt(plan, v, f - 1);
  }

  // ----- what is reported

  /** "+" or "00", then 7 to 15 digits with separators. */
  predicate InternationalNumber(v: bytes, p: Span)
  {
    var i, e := p.start, p.end;
    var a := if i < |v| && v[i] == 0x2B then i + 1 else i + 2;
    && i < |v| && a <= e && Number(International, v, a, e)
    && (v[i] == 0x2B || (v[i] == 0x30 && v[i + 1] == 0x30))
    && 7 <= |DigitsOf(v, a, e)| <= 15
    && Exhausted(International, v, a, e)
  }

  /** An optional opening parenthesis, then exactly ten digits with a separator between
      them, area code and exchange beginning with 2 to 9. */
  predicate DomesticNumber(v: bytes, p: Span)
  {
    && p.start < |v|
    && var a := AfterParen(v, p.start);
    && a <= p.end && Number(Domestic, v, a, p.end)
    && var ds := DigitsOf(v, a, p.end);
    && |ds| == 10 < p.end - a && InTwoToNine(ds[0]) && InTwoToNine(ds[3])
  }

  predicate Reportable(v: bytes, p: Span, valid: bytes -> bool)
  {
    && (InternationalNumber(v, p) || DomesticNumber(v, p))
    && !AlnumAt(v, p.start - 1) && !AlnumAt(v, p.end)
    && valid(v[p.start..p.end])
  }

  lemma {:induction false} FirstDigit(v: bytes, a: nat, e: nat)
    requires a < e <= |v| && DigitAt(v, a)
    ensures DigitsOf(v, a, e) != [] && DigitsOf(v, a, e)[0] == v[a]
    decreases e
  {
    if e > a + 1 {
      FirstDigit(v, a, e - 1);
    } else {
      assert DigitsOf(v, a, a) == [];
    }
  }

  /** For any validity predicate: a position yields exactly the reportable span, if any. */
  lemma ParseExact(v: bytes, i: nat, p: Span, valid: bytes -> bool)
    requires i < |v|
    ensures Parse(v, i, valid) == Some(p) <==> p.start == i && Reportable(v, p, valid)
  {
    if v[i] == 0x2B {
      InternationalExact(v, i, i + 1, p, valid);
    } else if v[i] == 0x30 && DigitAt(v, i + 1) && v[i + 1] == 0x30 {
      InternationalExact(v, i, i + 2, p, valid);
    } else if v[i] == 0x28 || InTwoToNine(v[i]) {
      DomesticExact(v, i, p, valid);
    }
    if DomesticNumber(v, p) && p.start == i {
      FirstDigit(v, AfterParen(v, i), p.end);
    }
  }

  lemma InternationalExact(v: bytes, i: nat, a: nat, p: Span, valid: bytes -> bool)
    requires i < a <= |v| && a == (if v[i] == 0x2B then i + 1 else i + 2)
    requires v[i] == 0x2B || (v[i] == 0x30 && v[i + 1] == 0x30)
    ensures DigitAt(v, a) && ParseInternational(v, i, a, valid) == Some(p)
       <==> p.start == i && InternationalNumber(v, p) && !AlnumAt(v, p.end) && valid(v[i..p.end])
  {
    WalkFrom(International, v, a);
    if p.start == i && InternationalNumber(v, p) {
      WalkUnique(International, v, a, p.end);
    }
  }

  lemma DomesticExact(v: bytes, i: nat, p: Span, valid: bytes -> bool)
    requires i < |v|
    ensures ParseDomestic(v, i, valid) == Some(p)
       <==> p.start == i && DomesticNumber(v, p) && !AlnumAt(v, p.end) && valid(v[i..p.end])
  {
    var a := AfterParen(v, i);
    WalkFrom(Domestic, v, a);
    if p.start == i && DomesticNumber(v, p) {
      WalkUnique(Domestic, v, a, p.end);
    }
  }

  predicate Covered(spans: seq<Span>, k: nat)
  {
    exists q :: q in spans && q.start < k < q.end
  }

  predicate Disjoint(i: nat, r: seq<Span>)
  {
    && (forall k :: 0 <= k < |r| ==> i <= r[k].start < r[k].end)
    && (forall k, m :: 0 <= k < m < |r| ==> r[k].end <= r[m].start)
  }

  /** Every report is reportable, and the reports are disjoint and in increasing order. */
  lemma {:induction false} ReportsSound(v: bytes, i: nat, valid: bytes -> bool)
    requires i <= |v|
    ensures forall p :: p in Spans(v, i, valid) ==> Reportable(v, p, valid)
    ensures Disjoint(i, Spans(v, i, valid))
    decreases |v| - i
  {
    hide Reportable, ParseInternational, ParseDomestic;
    if i < |v| {
      match Parse(v, i, valid)
      case Some(p) =>
        ParsedNonEmpty(v, i, valid);
        ParseExact(v, i, p, valid);
        ReportsSound(v, p.end, valid);
      case None =>
        ReportsSound(v, i + 1, valid);
    }
  }

  /** A reportable span is missed only if its start lies inside an earlier report. */
  lemma {:induction false} ReportsComplete(v: bytes, i: nat, p: Span, valid: bytes -> bool)
    requires i <= p.start && Reportable(v, p, valid)
    ensures p in Spans(v, i, valid) || Covered(Spans(v, i, valid), p.start)
    decreases |v| - i
  {
    assert p.start < |v|;
    hide Reportable, ParseInternational, ParseDomestic;
    ParseExact(v, p.start, p, valid);
    match Parse(v, i, valid)
    case Some(q) =>
      ParsedNonEmpty(v, i, valid);
      if q.end <= p.start {
        ReportsComplete(v, q.end, p, valid);
      }
    case None =>
      ReportsComplete(v, i + 1, p, valid);
  }

  /** Exactly the reportable spans are reported that do not begin inside another report. */
  lemma ReportsExact(v: bytes, p: Span, valid: bytes -> bool)
    ensures p in Spans(v, 0, valid) <==> Reportable(v, p, valid) && !Covered(Spans(v, 0, valid), p.start)
  {
    hide Reportable, Spans;
    ReportsSound(v, 0, valid);
    if Reportable(v, p, valid) {
      ReportsComplete(v, 0, p, valid);
    }
    if p in Spans(v, 0, valid) {
      NotCovered(Spans(v, 0, valid), p);
    }
  }

  lemma NotCovered(r: seq<Span>, p: Span)
    requires Disjoint(0, r) && p in r
    ensures !Covered(r, p.start)
  {
    forall q | q in r ensures !(q.start < p.start < q.end) {
      var i :| 0 <= i < |r| && r[i] == p;
      var j :| 0 <= j < |r| && r[j] == q;
      assert i == j || r[i].end <= r[j].start || r[j].end <= r[i].start;
    }
  }

  // ----- limits and separators

  lemma SeparatorsSpelledOut(plan: Plan, b: byte)
    ensures IsSeparator(plan, b) <==> b as char in if plan.International? then " -.()" else " -.)"
  {
  }

  lemma AtStart(v: bytes, p: Span, valid: bytes -> bool)
    requires p.start == 0
    ensures p in Spans(v, 0, valid) <==> Reportable(v, p, valid)
  {
    hide Reportable, Spans;
    ReportsExact(v, p, valid);
  }

  lemma {:induction false} OnlyDigits(v: bytes, a: nat, b: nat)
    requires a <= b <= |v| && forall k :: a <= k < b ==> DigitAt(v, k)
    ensures DigitsOf(v, a, b) == v[a..b]
    decreases b
  {
    if a < b {
      assert DigitAt(v, b - 1);
      OnlyDigits(v, a, b - 1);
    }
  }

  /** A plus sign and digits, on their own: 7 to 15 of them make a number. */
  lemma PlusNumber(v: bytes, valid: bytes -> bool)
    requires |v| > 1 && v[0] == 0x2B && forall k :: 1 <= k < |v| ==> DigitAt(v, k)
    ensures Span(0, |v|) in Spans(v, 0, valid) <==> 8 <= |v| <= 16 && valid(v)
  {
    var p := Span(0, |v|);
    AtStart(v, p, valid);
    OnlyDigits(v, 1, |v|);
    assert v[0..|v|] == v;
    assert SkipSeparators(International, v, |v|) == |v|;
    assert Number(International, v, 1, |v|);
    assert Exhausted(International, v, 1, |v|);
  }

  /** Three, three and four digits with one other character before and after the second group,
      and no international prefix: each must be a space, a dash, a dot or a closing parenthesis,
      and the first and second group must begin with 2 to 9. */
  lemma ThreeGroups(v: bytes, valid: bytes -> bool)
    requires GroupShape(v) && v[0] != 0x30
    ensures Span(0, 12) in Spans(v, 0, valid) <==>
      && v[3] as char in " -.)" && v[7] as char in " -.)"
      && '2' <= v[0] as char && '2' <= v[4] as char && valid(v)
  {
    var p := Span(0, 12);
    hide DigitsOf, SkipSeparators, Spans, Number, SeparatorAt;
    AtStart(v, p, valid);
    assert v[0..12] == v;
    GroupedNumber(v);
    GroupedDomestic(v);
    hide GroupShape;
    assert !InternationalNumber(v, p) && !AlnumAt(v, -1) && !AlnumAt(v, 12);
  }

  lemma GroupedDomestic(v: bytes)
    requires GroupShape(v)
    ensures DomesticNumber(v, Span(0, 12)) <==> Number(Domestic, v, 0, 12) && InTwoToNine(v[0]) && InTwoToNine(v[4])
    ensures v[0] != 0x28 && v[0] != 0x2B && v[0] as char <= '9' && v[4] as char <= '9'
  {
    hide DigitsOf, Number;
    GroupedDigits(v);
    assert AfterParen(v, 0) == 0 && DigitAt(v, 0) && DigitAt(v, 4);
  }

  predicate GroupShape(v: bytes)
  {
    && |v| == 12 && !DigitAt(v, 3) && !DigitAt(v, 7)
    && forall k :: 0 <= k < 12 && k != 3 && k != 7 ==> DigitAt(v, k)
  }

  lemma GroupedNumber(v: bytes)
    requires GroupShape(v)
    ensures Number(Domestic, v, 0, 12) <==> v[3] as char in " -.)" && v[7] as char in " -.)"
  {
    SeparatorsSpelledOut(Domestic, v[3]);
    SeparatorsSpelledOut(Domestic, v[7]);
    hide IsSeparator;
    assert DigitAt(v, 0) && DigitAt(v, 11);
  }

  lemma GroupedDigits(v: bytes)
    requires GroupShape(v)
    ensures DigitsOf(v, 0, 12) == v[0..3] + v[4..7] + v[8..12]
  {
    hide DigitsOf;
    OnlyDigits(v, 0, 3);
    OnlyDigits(v, 4, 7);
    OnlyDigits(v, 8, 12);
    OneByte(v, 0, 3);
    OneByte(v, 4, 7);
    hide GroupShape;
    DigitsOfSplit(v, 0, 8, 12);
    DigitsOfSplit(v, 0, 4, 8);
  }

  lemma OneByte(v: bytes, a: nat, b: nat)
    requires a <= b < |v| && !DigitAt(v, b)
    ensures DigitsOf(v, a, b + 1) == DigitsOf(v, a, b)
  {
  }

  lemma {:induction false} DigitsOfSplit(v: bytes, a: nat, b: nat, c: nat)
    requires a <= b <= c <= |v|
    ensures DigitsOf(v, a, c) == DigitsOf(v, a, b) + DigitsOf(v, b, c)
    decreases c
  {
    if b < c {
      DigitsOfSplit(v, a, b, c - 1);
    }
  }
}
