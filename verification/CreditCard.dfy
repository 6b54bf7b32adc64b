/** The credit-card detector: a greedy walk over digits joined by single spaces or
    dashes, gated by word boundaries and the Luhn check. */
module CreditCard {
  import opened Utf8
  import Luhn

  /** A single space or dash between two digits. */
  predicate JoinAt(v: bytes, k: int)
  {
    0 <= k < |v| && IsSpaceDash(v[k]) && DigitAt(v, k - 1) && DigitAt(v, k + 1)
  }

  predicate LinkAt(v: bytes, k: int) { DigitAt(v, k) || JoinAt(v, k) }

  /** Digits joined by single spaces or dashes. */
  predicate Run(v: bytes, a: nat, b: nat)
  {
    && a < b <= |v| && DigitAt(v, a) && DigitAt(v, b - 1)
    && forall k :: a <= k < b ==> LinkAt(v, k)
  }

  /** A run that cannot be extended on either side. */
  predicate MaximalRun(v: bytes, a: nat, b: nat)
  {
    Run(v, a, b) && !LinkAt(v, a - 1) && !LinkAt(v, b)
  }

  function DigitCount(v: bytes, a: nat, b: nat): (n: nat)
    requires a <= b <= |v|
    decreases b
  {
    if a == b then 0 else DigitCount(v, a, b - 1) + if IsDigit(v[b - 1]) then 1 else 0
  }

  lemma {:induction false} CountsDigits(v: bytes, a: nat, b: nat)
    requires a <= b <= |v|
    ensures DigitCount(v, a, b) == |Luhn.Digits(v[a..b])|
    decreases b
  {
    hide Filter;
    if a < b {
      CountsDigits(v, a, b - 1);
      FilterLast(v, a, b, IsDigit);
    }
  }

  lemma {:induction false} DigitCountGrows(v: bytes, a: nat, b: nat, c: nat)
    requires a <= b <= c <= |v|
    ensures DigitCount(v, a, b) <= DigitCount(v, a, c)
    decreases c - b
  {
    if b < c {
      DigitCountGrows(v, a, b, c - 1);
    }
  }

  /** Where the inner loop stops, from position `j` with `count` digits seen. */
  function Walk(v: bytes, j: nat, count: nat): (r: (nat, nat))
    requires j <= |v|
    ensures j <= r.0 <= |v|
    decreases |v| - j
  {
    if j < |v| && count < 19 then
      if IsDigit(v[j]) then Walk(v, j + 1, count + 1)
      else if IsSpaceDash(v[j]) && count > 0 && DigitAt(v, j + 1) then Walk(v, j + 1, count)
      else (j, count)
    else (j, count)
  }

  /** The walk from position `i` ends in a reported candidate. */
  predicate Candidate(v: bytes, i: nat)
    requires i < |v|
  {
    var (j, n) := Walk(v, i + 1, 1);
    13 <= n <= 19 && !WordAt(v, j) && Luhn.Accepts(v[i..j])
  }

  /** The spans reported by the outer loop from position `i`. */
  function Spans(v: bytes, i: nat): (r: seq<Span>)
    requires i <= |v|
    ensures forall k :: 0 <= k < |r| ==> Within(v, r[k])
    decreases |v| - i
  {
    if i == |v| then []
    else if !IsDigit(v[i]) || WordAt(v, i - 1) then Spans(v, i + 1)
    else
      var j := Walk(v, i + 1, 1).0;
      if Candidate(v, i) then [Span(i, j)] + Spans(v, j) else Spans(v, j)
  }

  /** The inner loop. */
  method WalkDigits(value: bytes, i: nat) returns (j: nat, digitCount: nat)
    requires DigitAt(value, i)
    ensures (j, digitCount) == Walk(value, i + 1, 1)
  {
    var len := |value|;
    digitCount, j := 0, i;
    while j < len && digitCount < 19
      invariant i <= j <= len && Walk(value, j, digitCount) == Walk(value, i, 0)
    {
      if IsDigit(value[j]) {
        digitCount := digitCount + 1;
        j := j + 1;
      } else if (value[j] == 0x20 || value[j] == 0x2D) && digitCount > 0 && j + 1 < len && IsDigit(value[j + 1]) {
        j := j + 1;
      } else {
        break;
      }
    }
  }

  /** The loop body at a digit with a clean left boundary: the end of the walk, and
      whether the candidate is reported. */
  method Probe(value: bytes, i: nat) returns (j: nat, hit: bool)
    requires ValidUtf8(value) && DigitAt(value, i)
    ensures i < j <= |value| && j == Walk(value, i + 1, 1).0
    ensures hit == Candidate(value, i)
    ensures hit ==> IsCharBoundary(value, i) && IsCharBoundary(value, j)
  {
    hide Walk, Luhn.Accepts;
    var digitCount;
    j, digitCount := WalkDigits(value, i);
    hit := false;
    var atBoundary := j >= |value| || !(IsAlnum(value[j]) || value[j] == 0x5F);
    if 13 <= digitCount <= 19 && atBoundary {
      WalkBoundary(value, i);
      hit := Luhn.Check(Slice(value, i, j));
    }
  }

  method Scan(value: bytes) returns (results: seq<bytes>)
    requires ValidUtf8(value)
    ensures results == Texts(value, Spans(value, 0))
  {
    var len := |value|;
    results := [];
    ghost var done: seq<Span> := [];
    var i := 0;
    while i < len
      invariant i <= len
      invariant forall k :: 0 <= k < |done| ==> Within(value, done[k])
      invariant results == Texts(value, done)
      invariant done + Spans(value, i) == Spans(value, 0)
    {
      hide Walk, Candidate, Texts, IsCharBoundary, ValidUtf8, IsDigit, IsAlnum;
      if !IsDigit(value[i]) {
        i := i + 1;
        continue;
      }
      if i > 0 && (IsAlnum(value[i - 1]) || value[i - 1] == 0x5F) {
        i := i + 1;
        continue;
      }
      var j, hit := Probe(value, i);
      if hit {
        PushSpan(value, done, Span(i, j), Spans(value, j));
        results := results + [Slice(value, i, j)];
        done := done + [Span(i, j)];
      }
      i := if j > i then j else i + 1;
    }
  }

  // ----- the walk

  /** The walk covers links only, counts the digits, ends on a digit, and stops only at
      nineteen digits or where the run ends. */
  lemma {:induction false} WalkShape(v: bytes, a: nat, j: nat, count: nat)
    requires a < j <= |v| && count == DigitCount(v, a, j) && 0 < count <= 19
    requires DigitAt(v, j - 1) && forall k :: a <= k < j ==> LinkAt(v, k)
    ensures var (e, n) := Walk(v, j, count);
      && n == DigitCount(v, a, e) && n <= 19
      && DigitAt(v, e - 1)
      && (n == 19 || !LinkAt(v, e))
      && forall k :: a <= k < e ==> LinkAt(v, k)
    decreases |v| - j
  {
    if count < 19 && DigitAt(v, j) {
      WalkShape(v, a, j + 1, count + 1);
    } else if count < 19 && JoinAt(v, j) {
      assert Walk(v, j, count) == Walk(v, j + 1, count) == Walk(v, j + 2, count + 1);
      WalkShape(v, a, j + 2, count + 1);
    } else {
      assert Walk(v, j, count) == (j, count);
    }
  }

  lemma WalkFromDigit(v: bytes, a: nat)
    requires DigitAt(v, a)
    ensures var (e, n) := Walk(v, a + 1, 1);
      Run(v, a, e) && n == DigitCount(v, a, e) <= 19 && (n == 19 || !LinkAt(v, e))
  {
    WalkShape(v, a, a + 1, 1);
  }

  lemma WalkBoundary(v: bytes, a: nat)
    requires DigitAt(v, a) && ValidUtf8(v)
    ensures var e := Walk(v, a + 1, 1).0;
      a <= e && IsCharBoundary(v, a) && IsCharBoundary(v, e)
  {
    WalkFromDigit(v, a);
    AfterAscii(v, Walk(v, a + 1, 1).0);
  }

  /** A walk never jumps over the start of a maximal run. */
  lemma WalkStopsBefore(v: bytes, i: nat, a: nat, b: nat)
    requires DigitAt(v, i) && i < a && MaximalRun(v, a, b)
    ensures Walk(v, i + 1, 1).0 <= a
  {
    WalkFromDigit(v, i);
    assert !LinkAt(v, a - 1);
  }

  // ----- what is reported

  predicate Reportable(v: bytes, p: Span)
  {
    && Run(v, p.start, p.end)
    && 13 <= DigitCount(v, p.start, p.end) <= 19
    && !WordAt(v, p.start - 1) && !WordAt(v, p.end)
    && Luhn.Accepts(v[p.start..p.end])
  }

  /** Reports that start at `i` or later, are disjoint, and come in increasing order. */
  predicate GoodReports(v: bytes, i: nat, r: seq<Span>)
  {
    && (forall k :: 0 <= k < |r| ==> i <= r[k].start && Reportable(v, r[k]))
    && (forall k, m :: 0 <= k < m < |r| ==> r[k].end <= r[m].start)
  }

  lemma MoreReports(v: bytes, p: Span, r: seq<Span>)
    requires Reportable(v, p) && GoodReports(v, p.end, r)
    ensures GoodReports(v, p.start, [p] + r)
  {
    hide Luhn.Accepts, WordAt, DigitCount;
  }

  /** Soundness: every report is a joined run of 13 to 19 digits with clean boundaries
      and a valid Luhn sum, and the reports are disjoint and in increasing order. */
  lemma {:induction false} ReportsSound(v: bytes, i: nat)
    requires i <= |v|
    ensures GoodReports(v, i, Spans(v, i))
    decreases |v| - i
  {
    hide Luhn.Accepts, Walk;
    if i < |v| {
      if !IsDigit(v[i]) || WordAt(v, i - 1) {
        ReportsSound(v, i + 1);
        assert Spans(v, i) == Spans(v, i + 1);
      } else {
        WalkFromDigit(v, i);
        var j := Walk(v, i + 1, 1).0;
        ReportsSound(v, j);
        if Reportable(v, Span(i, j)) {
          MoreReports(v, Span(i, j), Spans(v, j));
        }
      }
    }
  }

  // ----- exactly what is reported

  /** Digits and joiners from `t` up to before `s`. */
  predicate Linked(v: bytes, t: nat, s: nat) { forall k :: t <= k < s ==> LinkAt(v, k) }

  /** The digits from `t` up to before `s` fill a walk. */
  predicate Full(v: bytes, t: nat, s: nat)
    requires t <= s <= |v|
  {
    DigitCount(v, t, s) >= 19
  }

  /** A digit at which the outer loop starts a walk: no word character stands before it, and
      every earlier such digit is cut off from it or has filled its walk before it. */
  ghost predicate Entry(v: bytes, s: nat)
    decreases s
  {
    && DigitAt(v, s) && !WordAt(v, s - 1)
    && forall t: nat | t < s :: Entry(v, t) && Linked(v, t, s) ==> Full(v, t, s)
  }

  /** The walks from all entries before `i` have ended. */
  ghost predicate Passed(v: bytes, i: nat)
  {
    forall t: nat | t < i :: Entry(v, t) ==> t < |v| && Walk(v, t + 1, 1).0 <= i
  }

  lemma CountOneMore(v: bytes, a: nat, b: nat, c: nat)
    requires a <= b < c <= |v| && DigitAt(v, b)
    ensures DigitCount(v, a, b) < DigitCount(v, a, c)
  {
    DigitCountGrows(v, a, b + 1, c);
  }

  /** A walk passes a digit that it is linked with exactly if it is not full before it. */
  lemma WalkPasses(v: bytes, t: nat, s: nat)
    requires DigitAt(v, t) && DigitAt(v, s) && t < s
    ensures s < Walk(v, t + 1, 1).0 <==> Linked(v, t, s) && !Full(v, t, s)
  {
    WalkFromDigit(v, t);
    var e := Walk(v, t + 1, 1).0;
    if s < e {
      CountOneMore(v, t, s, e);
    } else if Linked(v, t, s) {
      assert LinkAt(v, e);
      DigitCountGrows(v, t, e, s);
    }
  }

  /** The loop starts a walk at `i` exactly if `i` is an entry. */
  lemma EntryHere(v: bytes, i: nat)
    requires Passed(v, i)
    ensures Entry(v, i) <==> DigitAt(v, i) && !WordAt(v, i - 1)
  {
    if DigitAt(v, i) {
      forall t: nat | t < i && Entry(v, t) && Linked(v, t, i) ensures Full(v, t, i) {
        WalkPasses(v, t, i);
      }
    }
  }

  /** No walk starts inside another. */
  lemma NoEntryInside(v: bytes, i: nat, s: nat)
    requires Entry(v, i) && i < s < Walk(v, i + 1, 1).0
    ensures !Entry(v, s)
  {
    if DigitAt(v, s) {
      WalkPasses(v, i, s);
    }
  }

  /** Where a walk ends: after nineteen digits, or at the end of the run. */
  predicate Ends(v: bytes, p: Span)
    requires p.start <= p.end <= |v|
  {
    DigitCount(v, p.start, p.end) == 19 || !LinkAt(v, p.end)
  }

  lemma EndsUnique(v: bytes, p: Span)
    requires Run(v, p.start, p.end) && DigitCount(v, p.start, p.end) <= 19 && Ends(v, p)
    ensures p.end == Walk(v, p.start + 1, 1).0
  {
    WalkFromDigit(v, p.start);
    hide Walk, DigitCount;
    var e := Walk(v, p.start + 1, 1).0;
    if e < p.end {
      assert LinkAt(v, e);
      CountOneMore(v, p.start, p.end - 1, p.end);
      DigitCountGrows(v, p.start, e, p.end - 1);
    } else if p.end < e {
      assert LinkAt(v, p.end);
      CountOneMore(v, p.start, e - 1, e);
      DigitCountGrows(v, p.start, p.end, e - 1);
    }
  }

  /** A walk reports the span that is full or cannot go on. */
  lemma CandidateExact(v: bytes, i: nat, p: Span)
    requires DigitAt(v, i) && !WordAt(v, i - 1) && p.start == i
    ensures Candidate(v, i) && p.end == Walk(v, i + 1, 1).0 <==> Reportable(v, p) && Ends(v, p)
  {
    WalkFromDigit(v, i);
    hide Luhn.Accepts, Walk, Run, DigitCount;
    if Reportable(v, p) && Ends(v, p) {
      EndsUnique(v, p);
    }
  }

  /** From any position that the outer loop comes to. */
  lemma {:induction false} SpansExact(v: bytes, i: nat, p: Span)
    requires i <= |v| && Passed(v, i)
    ensures p in Spans(v, i)
       <==> i <= p.start && Reportable(v, p) && Entry(v, p.start) && Ends(v, p)
    decreases |v| - i
  {
    hide Luhn.Accepts, Walk, Run;
    if i < |v| {
      EntryHere(v, i);
      if !Entry(v, i) {
        assert Spans(v, i) == Spans(v, i + 1);
        SpansExact(v, i + 1, p);
      } else {
        var j := Walk(v, i + 1, 1).0;
        PassedAfter(v, i);
        SpansExact(v, j, p);
        if p.start == i {
          CandidateExact(v, i, p);
        } else if i < p.start < j {
          NoEntryInside(v, i, p.start);
        }
      }
    }
  }

  lemma PassedAfter(v: bytes, i: nat)
    requires Passed(v, i) && Entry(v, i)
    ensures Passed(v, Walk(v, i + 1, 1).0)
  {
    var j := Walk(v, i + 1, 1).0;
    forall t: nat | t < j && Entry(v, t) ensures t < |v| && Walk(v, t + 1, 1).0 <= j {
      if i < t {
        NoEntryInside(v, i, t);
      }
    }
  }

  /** For every text, exactly the reportable spans are reported that begin where a walk
      starts and end where it ends. A reportable card is missed exactly if an earlier walk
      runs into it or its own walk runs beyond it. */
  lemma ReportsExact(v: bytes, p: Span)
    ensures p in Spans(v, 0) <==> Reportable(v, p) && Entry(v, p.start) && Ends(v, p)
  {
    SpansExact(v, 0, p);
  }

  predicate Overlaps(p: Span, a: nat, b: nat) { p.start < b && a < p.end }

  /** Every maximal run is reported whole if and only if it has 13 to 19 digits, clean
      boundaries and a valid Luhn sum. If it has at most nineteen digits and a clean left
      boundary, nothing else that touches it is reported. */
  lemma RunReportedWhole(v: bytes, a: nat, b: nat, p: Span)
    requires MaximalRun(v, a, b)
    ensures Span(a, b) in Spans(v, 0)
       <==> 13 <= DigitCount(v, a, b) <= 19 && !WordAt(v, a - 1) && !WordAt(v, b) && Luhn.Accepts(v[a..b])
    ensures DigitCount(v, a, b) <= 19 && !WordAt(v, a - 1) && p in Spans(v, 0) && Overlaps(p, a, b)
       ==> p == Span(a, b)
  {
    hide Luhn.Accepts, Spans;
    RunStarts(v, a, b);
    ReportsExact(v, Span(a, b));
    ReportsExact(v, p);
    if DigitCount(v, a, b) <= 19 && !WordAt(v, a - 1) && p in Spans(v, 0) && Overlaps(p, a, b) {
      WithinRun(v, a, b, p);
    }
  }

  lemma RunStarts(v: bytes, a: nat, b: nat)
    requires MaximalRun(v, a, b)
    ensures Entry(v, a) <==> !WordAt(v, a - 1)
  {
    forall t: nat | t < a ensures !Linked(v, t, a) {
      assert !LinkAt(v, a - 1);
    }
  }

  lemma WithinRun(v: bytes, a: nat, b: nat, p: Span)
    requires MaximalRun(v, a, b) && DigitCount(v, a, b) <= 19 && !WordAt(v, a - 1)
    requires Run(v, p.start, p.end) && Entry(v, p.start) && Ends(v, p) && Overlaps(p, a, b)
    ensures p == Span(a, b)
  {
    RunStarts(v, a, b);
    assert p.start < a ==> LinkAt(v, a - 1);
    assert p.end > b ==> LinkAt(v, b);
    if a < p.start {
      assert Linked(v, a, p.start);
      CountOneMore(v, a, p.start, b);
    } else if p.end < b {
      assert LinkAt(v, p.end);
      CountOneMore(v, a, b - 1, b);
      DigitCountGrows(v, a, p.end, b - 1);
    }
  }

  lemma {:induction false} AllDigits(v: bytes, a: nat, b: nat)
    requires a <= b <= |v| && forall k :: a <= k < b ==> DigitAt(v, k)
    ensures DigitCount(v, a, b) == b - a
    decreases b
  {
    if a < b {
      assert DigitAt(v, b - 1);
      AllDigits(v, a, b - 1);
    }
  }

  lemma {:induction false} CountConcat(v: bytes, a: nat, b: nat, c: nat)
    requires a <= b <= c <= |v|
    ensures DigitCount(v, a, c) == DigitCount(v, a, b) + DigitCount(v, b, c)
    decreases c
  {
    if b < c {
      CountConcat(v, a, b, c - 1);
    }
  }

  /** Cut off on the left: no letter, digit or underscore, and no joiner of a further digit. */
  predicate CleanLeft(v: bytes, a: nat)
    requires a <= |v|
  {
    a > 0 ==>
      && !IsAlnum(v[a - 1]) && v[a - 1] != 0x5F
      && ((v[a - 1] == 0x20 || v[a - 1] == 0x2D) && a > 1 ==> !IsDigit(v[a - 2]))
  }

  predicate CleanRight(v: bytes, b: nat)
    requires b <= |v|
  {
    b < |v| ==>
      && !IsAlnum(v[b]) && v[b] != 0x5F
      && ((v[b] == 0x20 || v[b] == 0x2D) && b + 1 < |v| ==> !IsDigit(v[b + 1]))
  }

  /** Detection does not depend on the grouping: a valid card of 13 to 19 digits is reported
      however single spaces (0x20) and dashes (0x2D) are spread between its digits, wherever it
      stands cut off on both sides. */
  lemma GroupingIrrelevant(card: bytes, v: bytes, a: nat, b: nat)
    requires 13 <= |card| <= 19 && (forall k :: 0 <= k < |card| ==> IsDigit(card[k])) && Luhn.Accepts(card)
    requires Grouped(v, a, b) && CleanLeft(v, a) && CleanRight(v, b) && Luhn.Digits(v[a..b]) == card
    ensures Span(a, b) in Spans(v, 0)
  {
    hide Filter, Spans, DigitCount, Luhn.AnnexBSum;
    FilterAll(card, IsDigit);
    CountsDigits(v, a, b);
    GroupedIsRun(v, a, b);
    RunReportedWhole(v, a, b, Span(a, b));
  }

  /** Digits, and between two of them at most one space or dash. */
  predicate Grouped(v: bytes, a: nat, b: nat)
  {
    && a < b <= |v| && IsDigit(v[a]) && IsDigit(v[b - 1])
    && forall k :: a <= k < b && !IsDigit(v[k]) ==>
         a < k < b - 1 && (v[k] == 0x20 || v[k] == 0x2D) && IsDigit(v[k - 1]) && IsDigit(v[k + 1])
  }

  lemma GroupedIsRun(v: bytes, a: nat, b: nat)
    requires Grouped(v, a, b) && CleanLeft(v, a) && CleanRight(v, b)
    ensures MaximalRun(v, a, b) && !WordAt(v, a - 1) && !WordAt(v, b)
  {
    forall k | a <= k < b ensures LinkAt(v, k) {
      assert IsDigit(v[k]) || (IsDigit(v[k - 1]) && IsDigit(v[k + 1]));
    }
  }

  /** A reportable span at whose end a walk ends is missed if and only if it is glued, by
      joiners alone, to an earlier walk that fewer than nineteen digits have filled. */
  lemma GluedCardMissed(v: bytes, p: Span)
    requires Reportable(v, p) && Ends(v, p)
    ensures p !in Spans(v, 0)
       <==> exists t: nat | t < p.start :: Entry(v, t) && Linked(v, t, p.start) && !Full(v, t, p.start)
  {
    hide Luhn.Accepts, Spans;
    ReportsExact(v, p);
  }

  /** Digits, a joiner, digits. */
  predicate TwoGroups(v: bytes, m: nat)
  {
    && 0 < m < |v| - 1 && IsSpaceDash(v[m])
    && (forall k :: 0 <= k < m ==> DigitAt(v, k)) && (forall k :: m < k < |v| ==> DigitAt(v, k))
  }

  lemma TwoGroupsLinked(v: bytes, m: nat)
    requires TwoGroups(v, m)
    ensures Run(v, 0, |v|) && Entry(v, 0) && DigitCount(v, 0, m + 1) == m && DigitCount(v, 0, |v|) == |v| - 1
    ensures DigitCount(v, m + 1, |v|) == |v| - m - 1
  {
    AllDigits(v, 0, m);
    AllDigits(v, m + 1, |v|);
    CountConcat(v, 0, m + 1, |v|);
    assert JoinAt(v, m);
  }

  /** Two cards with only a space or a dash between them: if the first has 13 to 18 digits,
      neither is reported, nor is anything else. */
  lemma TwoCardsMissed(c: bytes, joiner: byte, d: bytes)
    requires 13 <= |c| <= 18 && 13 <= |d| <= 19 && IsSpaceDash(joiner)
    requires (forall k :: 0 <= k < |c| ==> IsDigit(c[k])) && Luhn.Accepts(c)
    requires (forall k :: 0 <= k < |d| ==> IsDigit(d[k])) && Luhn.Accepts(d)
    ensures var v := c + [joiner] + d; Reportable(v, Span(|c| + 1, |v|)) && Spans(v, 0) == []
  {
    hide Luhn.Accepts, Spans, Entry, Ends, DigitCount;
    var v, m := c + [joiner] + d, |c|;
    assert v[m + 1..] == d && v[m + 1..] == v[m + 1..|v|];
    assert TwoGroups(v, m);
    TwoGroupsLinked(v, m);
    if Spans(v, 0) != [] {
      var p := Spans(v, 0)[0];
      ReportsExact(v, p);
      NoneInTwoGroups(v, m, p);
    }
  }

  lemma NoneInTwoGroups(v: bytes, m: nat, p: Span)
    requires TwoGroups(v, m) && m < 19 < |v| - 1
    ensures !(Reportable(v, p) && Entry(v, p.start) && Ends(v, p))
  {
    hide Luhn.Accepts, Entry, Ends, DigitCount;
    SecondNoEntry(v, m);
    if Reportable(v, p) && Entry(v, p.start) && Ends(v, p) {
      GroupStarts(v, m, p.start);
      FirstNotWhole(v, m, p);
    }
  }

  lemma GroupStarts(v: bytes, m: nat, s: nat)
    requires TwoGroups(v, m) && Entry(v, s)
    ensures s == 0 || s == m + 1
  {
    assert DigitAt(v, s) && !WordAt(v, s - 1);
    assert 0 < s != m + 1 ==> DigitAt(v, s - 1) || s - 1 == m;
  }

  lemma SecondNoEntry(v: bytes, m: nat)
    requires TwoGroups(v, m) && m < 19
    ensures !Entry(v, m + 1)
  {
    TwoGroupsLinked(v, m);
    assert Linked(v, 0, m + 1) && !Full(v, 0, m + 1);
  }

  lemma FirstNotWhole(v: bytes, m: nat, p: Span)
    requires TwoGroups(v, m) && m < 19 < |v| - 1
    requires p.start == 0 < p.end <= |v| && DigitAt(v, p.end - 1) && Ends(v, p) && !WordAt(v, p.end)
    ensures DigitCount(v, p.start, p.end) > 19
  {
    TwoGroupsLinked(v, m);
    hide DigitCount;
    assert p.end < m ==> DigitAt(v, p.end);
    assert m < p.end < |v| ==> DigitAt(v, p.end);
    assert JoinAt(v, m);
    DigitCountGrows(v, 0, m, m + 1);
  }

  /** A word character further left makes the difference: after a letter and a digit no walk
      runs into the card, and it is found. */
  lemma CardAfterWordFound(letter: byte, d: byte, joiner: byte, card: bytes)
    requires IsAlpha(letter) && IsDigit(d) && IsSpaceDash(joiner) && 13 <= |card| <= 19
    requires (forall k :: 0 <= k < |card| ==> IsDigit(card[k])) && Luhn.Accepts(card)
    ensures var v := [letter, d, joiner] + card; Span(3, |v|) in Spans(v, 0)
  {
    hide Luhn.Accepts, Spans;
    var v := [letter, d, joiner] + card;
    assert v[3..|v|] == card;
    AllDigits(v, 3, |v|);
    assert WordAt(v, 0) && WordAt(v, 1) && !DigitAt(v, 2);
    assert forall t: nat | t < 3 :: !Entry(v, t);
    assert Entry(v, 3);
    ReportsExact(v, Span(3, |v|));
  }
}
