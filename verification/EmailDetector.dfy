/** The email detector: from every at sign outwards, to the left over at most 64 local
    characters, to the right over at most 253 domain characters. */
module EmailDetector {
  import opened Option
  import opened Utf8
  import Email

  predicate LocalAt(v: bytes, k: int) { 0 <= k < |v| && Email.IsLocalChar(v[k]) }

  predicate DomainAt(v: bytes, k: int) { 0 <= k < |v| && Email.IsDomainChar(v[k]) }

  /** A dot or a hyphen. */
  predicate TrimAt(v: bytes, k: int) { 0 <= k < |v| && (v[k] == Email.DOT || v[k] == Email.HYPHEN) }

  /** The backward walk, down to `min`. */
  function Back(v: bytes, k: nat, min: nat): (r: nat)
    requires min <= k <= |v|
    ensures min <= r <= k
    ensures forall m :: r <= m < k ==> LocalAt(v, m)
    ensures r == min || !LocalAt(v, r - 1)
  {
    if k > min && LocalAt(v, k - 1) then Back(v, k - 1, min) else k
  }

  /** The forward walk, up to `max`. */
  function Forward(v: bytes, k: nat, max: nat): (r: nat)
    requires k <= max <= |v|
    ensures k <= r <= max
    ensures forall m :: k <= m < r ==> DomainAt(v, m)
    ensures r == max || !DomainAt(v, r)
    decreases max - k
  {
    if k < max && DomainAt(v, k) then Forward(v, k + 1, max) else k
  }

  /** The last walk, back over dots and hyphens. */
  function Trim(v: bytes, k: nat, min: nat): (r: nat)
    requires min <= k <= |v|
    ensures min <= r <= k
    ensures forall m :: r <= m < k ==> TrimAt(v, m)
    ensures r == min || !TrimAt(v, r - 1)
  {
    if k > min && TrimAt(v, k - 1) then Trim(v, k - 1, min) else k
  }

  function Least(at: nat): nat { if at >= 64 then at - 64 else 0 }

  function Most(v: bytes, at: nat): nat { if at + 254 <= |v| then at + 254 else |v| }

  function Candidate(v: bytes, at: nat): (r: Option<Span>)
    requires at < |v|
    ensures r.Some? ==> Within(v, r.value) && r.value.start < at < r.value.end
  {
    var start, end := Back(v, at, Least(at)), Forward(v, at + 1, Most(v, at));
    if start == at || end == at + 1 || WordAt(v, end) then None
    else Some(Span(start, Trim(v, end, at + 1)))
  }

  method WalkBack(value: bytes, at: nat, minLocal: nat) returns (localStart: nat)
    requires minLocal <= at <= |value|
    ensures localStart == Back(value, at, minLocal)
  {
    localStart := at;
    while localStart > minLocal && Email.IsLocalChar(value[localStart - 1])
      invariant minLocal <= localStart <= at
      invariant Back(value, localStart, minLocal) == Back(value, at, minLocal)
    {
      localStart := localStart - 1;
    }
  }

  method WalkForward(value: bytes, start: nat, maxDomain: nat) returns (domainEnd: nat)
    requires start <= maxDomain <= |value|
    ensures domainEnd == Forward(value, start, maxDomain)
  {
    domainEnd := start;
    while domainEnd < maxDomain && Email.IsDomainChar(value[domainEnd])
      invariant start <= domainEnd <= maxDomain
      invariant Forward(value, domainEnd, maxDomain) == Forward(value, start, maxDomain)
    {
      domainEnd := domainEnd + 1;
    }
  }

  method TrimEnd(value: bytes, end: nat, min: nat) returns (domainEnd: nat)
    requires min <= end <= |value|
    ensures domainEnd == Trim(value, end, min)
  {
    domainEnd := end;
    while domainEnd > min && (value[domainEnd - 1] == Email.DOT || value[domainEnd - 1] == Email.HYPHEN)
      invariant min <= domainEnd <= end
      invariant Trim(value, domainEnd, min) == Trim(value, end, min)
    {
      domainEnd := domainEnd - 1;
    }
  }

  method ExtractCandidate(value: bytes, at: nat) returns (r: Option<Span>)
    requires ValidUtf8(value) && at < |value| && value[at] == Email.AT
    ensures r == Candidate(value, at)
    ensures r.Some? ==> IsCharBoundary(value, r.value.start) && IsCharBoundary(value, r.value.end)
  {
    hide Back, Forward, Trim, ValidUtf8;
    var minLocal := if at >= 64 then at - 64 else 0;
    var localStart := WalkBack(value, at, minLocal);
    if localStart == at {
      return None;
    }
    var maxDomain := if at + 1 + 253 < |value| then at + 1 + 253 else |value|;
    var domainEnd := WalkForward(value, at + 1, maxDomain);
    if domainEnd == at + 1 {
      return None;
    }
    if domainEnd < |value| && (IsAlnum(value[domainEnd]) || value[domainEnd] == 0x5F) {
      return None;
    }
    domainEnd := TrimEnd(value, domainEnd, at + 1);
    r := Some(Span(localStart, domainEnd));
    CandidateBoundaries(value, at);
  }

  lemma CandidateBoundaries(v: bytes, at: nat)
    requires ValidUtf8(v) && at < |v| && v[at] == Email.AT && Candidate(v, at).Some?
    ensures var p := Candidate(v, at).value;
      IsCharBoundary(v, p.start) && IsCharBoundary(v, p.end)
  {
    hide Trim, Back, Forward, Email.IsLocalChar, Email.IsDomainChar;
    var p := Candidate(v, at).value;
    assert LocalAt(v, p.start);
    Email.AsciiOnly(v[p.start]);
    assert p.end - 1 == at || DomainAt(v, p.end - 1);
    Email.AsciiOnly(v[p.end - 1]);
    AfterAscii(v, p.end);
  }

  /** What the iterator chain yields for one position. */
  function At(v: bytes, at: nat): (r: Option<Span>)
    requires at < |v|
    ensures r.Some? ==> Within(v, r.value) && r.value.start < at < r.value.end
  {
    if v[at] != Email.AT then None
    else match Candidate(v, at)
      case None => None
      case Some(p) => if Email.Accepts(v[p.start..p.end]) then Some(p) else None
  }

  function Spans(v: bytes, i: nat): (r: seq<Span>)
    requires i <= |v|
    ensures forall k :: 0 <= k < |r| ==> Within(v, r[k])
    decreases |v| - i
  {
    if i == |v| then []
    else (match At(v, i) case None => [] case Some(p) => [p]) + Spans(v, i + 1)
  }

  lemma SpansStep(v: bytes, i: nat)
    requires i <= |v|
    ensures Spans(v, i) ==
      if i == |v| then []
      else match At(v, i)
        case None => Spans(v, i + 1)
        case Some(p) => [p] + Spans(v, i + 1)
  {
    hide At;
  }

  method Probe(value: bytes, at: nat) returns (r: Option<Span>)
    requires ValidUtf8(value) && at < |value|
    ensures r == At(value, at)
    ensures r.Some? ==> r.value.start < r.value.end <= |value|
    ensures r.Some? ==> IsCharBoundary(value, r.value.start) && IsCharBoundary(value, r.value.end)
  {
    hide Candidate, Email.Accepts;
    r := None;
    if value[at] == Email.AT {
      var candidate := ExtractCandidate(value, at);
      if candidate.Some? {
        var p := candidate.value;
        var valid := Email.Check(Slice(value, p.start, p.end));
        r := if valid then candidate else None;
      }
    }
  }

  method Scan(value: bytes) returns (results: seq<bytes>)
    requires ValidUtf8(value)
    ensures results == Texts(value, Spans(value, 0))
  {
    hide *;
    results := [];
    ghost var done: seq<Span> := [];
    for at := 0 to |value|
      invariant forall k :: 0 <= k < |done| ==> Within(value, done[k])
      invariant results == Texts(value, done)
      invariant done + Spans(value, at) == Spans(value, 0)
    {
      SpansStep(value, at);
      var found := Probe(value, at);
      if found.Some? {
        var p := found.value;
        PushSpan(value, done, p, Spans(value, at + 1));
        results := results + [Slice(value, p.start, p.end)];
        done := done + [p];
      }
    }
    SpansStep(value, |value|);
  }

  // ----- what is reported

  /** The stretch that the right-hand walk covers: domain characters from the at sign on,
      253 at most, as many as there are, and not cut off inside a word. */
  predicate DomainStretch(v: bytes, at: nat, e: nat)
  {
    && at < e <= |v| && e <= at + 254
    && (forall k :: at < k < e ==> DomainAt(v, k))
    && (e == at + 254 || !DomainAt(v, e)) && !WordAt(v, e)
  }

  /** An address around the at sign at `at`: as many local characters as there are up to
      64, then a domain that only dots and hyphens may follow. */
  ghost predicate Reportable(v: bytes, at: nat, p: Span)
  {
    && p.start < at < p.end <= |v| && v[at] == Email.AT
    && at - p.start <= 64 && (forall k :: p.start <= k < at ==> LocalAt(v, k))
    && (at - p.start == 64 || !LocalAt(v, p.start - 1))
    && (exists e :: p.end <= e && DomainStretch(v, at, e) && forall k :: p.end <= k < e ==> TrimAt(v, k))
    && Email.Accepts(v[p.start..p.end])
  }

  /** An accepted text ends in a letter. */
  lemma AcceptedEnd(s: bytes)
    requires Email.Accepts(s)
    ensures |s| > 0 && IsAlpha(s[|s| - 1])
  {
    var domain := s[Email.Find(s, Email.AT).value + 1..];
    var labels := Email.Split(domain);
    Email.JoinOfSplit(domain);
    JoinEnd(labels);
    assert domain[|domain| - 1] == s[|s| - 1];
  }

  lemma {:induction false} JoinEnd(parts: seq<bytes>)
    requires parts != [] && parts[|parts| - 1] != []
    ensures var j, last := Email.Join(parts), parts[|parts| - 1]; j != [] && j[|j| - 1] == last[|last| - 1]
  {
    if |parts| > 1 {
      JoinEnd(parts[1..]);
    }
  }

  lemma AtExact(v: bytes, at: nat, p: Span)
    requires at < |v|
    ensures At(v, at) == Some(p) <==> Reportable(v, at, p)
  {
    hide Email.Accepts, Email.IsLocalChar, Email.IsDomainChar, Back, Forward, Trim;
    if v[at] == Email.AT {
      if At(v, at) == Some(p) {
        assert DomainStretch(v, at, Forward(v, at + 1, Most(v, at)));
      }
      if Reportable(v, at, p) {
        BackUnique(v, at, p.start);
        var e :| p.end <= e && DomainStretch(v, at, e) && forall k :: p.end <= k < e ==> TrimAt(v, k);
        ForwardUnique(v, at, e);
        AcceptedEnd(v[p.start..p.end]);
        TrimUnique(v, at, e, p.end);
      }
    }
  }

  lemma BackUnique(v: bytes, at: nat, a: nat)
    requires a <= at < |v| && at - a <= 64 && forall k :: a <= k < at ==> LocalAt(v, k)
    requires at - a == 64 || !LocalAt(v, a - 1)
    ensures Back(v, at, Least(at)) == a
  {
    hide Email.IsLocalChar;
    var r := Back(v, at, Least(at));
    assert a < r ==> LocalAt(v, r - 1);
    assert r < a ==> LocalAt(v, a - 1);
  }

  lemma ForwardUnique(v: bytes, at: nat, e: nat)
    requires DomainStretch(v, at, e)
    ensures Forward(v, at + 1, Most(v, at)) == e
  {
    hide Email.IsDomainChar;
    var r := Forward(v, at + 1, Most(v, at));
    assert r < e ==> DomainAt(v, r);
    assert e < r ==> DomainAt(v, e);
  }

  lemma TrimUnique(v: bytes, at: nat, e: nat, b: nat)
    requires at < b <= e <= |v| && (forall k :: b <= k < e ==> TrimAt(v, k)) && !TrimAt(v, b - 1)
    ensures Trim(v, e, at + 1) == b
  {
    var r := Trim(v, e, at + 1);
    assert b < r ==> TrimAt(v, r - 1);
    assert r < b ==> TrimAt(v, b - 1);
  }

  /** Exactly the reportable spans are reported. */
  lemma {:induction false} ReportsExact(v: bytes, i: nat, p: Span)
    requires i <= |v|
    ensures p in Spans(v, i) <==> exists at :: i <= at && Reportable(v, at, p)
    decreases |v| - i
  {
    hide Reportable, At;
    if i < |v| {
      ReportsExact(v, i + 1, p);
      AtExact(v, i, p);
    } else {
      forall at | i <= at ensures !Reportable(v, at, p) {
        NoneBeyond(v, at, p);
      }
    }
  }

  lemma NoneBeyond(v: bytes, at: nat, p: Span)
    requires |v| <= at
    ensures !Reportable(v, at, p)
  {
  }

  /** Every report is an accepted address with no word character after it; to its left
      stands no local character unless the local part was cut at 64. */
  lemma ReportsSound(v: bytes, p: Span)
    requires p in Spans(v, 0)
    ensures Within(v, p) && Email.Accepts(v[p.start..p.end]) && !WordAt(v, p.end)
    ensures !LocalAt(v, p.start - 1) || Email.Find(v[p.start..p.end], Email.AT) == Some(64)
  {
    hide Email.Accepts, Email.IsLocalChar, Email.IsDomainChar, Email.Find, Spans;
    ReportsExact(v, 0, p);
    var at :| Reportable(v, at, p);
    var e :| p.end <= e && DomainStretch(v, at, e) && forall k :: p.end <= k < e ==> TrimAt(v, k);
    assert p.end < e ==> TrimAt(v, p.end);
    FirstAt(v, at, p);
  }

  lemma FirstAt(v: bytes, at: nat, p: Span)
    requires Reportable(v, at, p)
    ensures Email.Find(v[p.start..p.end], Email.AT) == Some(at - p.start)
  {
    hide Email.Accepts;
    var s, n := v[p.start..p.end], at - p.start;
    assert s[n] == Email.AT && Email.AT in s;
    var k := Email.Find(s, Email.AT).value;
    assert forall m :: 0 <= m < n ==> s[m] == v[p.start + m] && LocalAt(v, p.start + m);
    forall m | 0 <= m < k ensures s[m] != Email.AT {
      assert s[..k][m] == s[m];
    }
  }

  /** An accepted address that neither a domain character nor an underscore follows is
      found if and only if no local character precedes it or its local part has 64 bytes:
      at that length the walk stops, even inside a longer word. */
  lemma AddressFound(v: bytes, a: nat, b: nat)
    requires a <= b <= |v| && Email.Accepts(v[a..b])
    requires !DomainAt(v, b) && !WordAt(v, b)
    ensures Span(a, b) in Spans(v, 0) <==> !LocalAt(v, a - 1) || Email.Find(v[a..b], Email.AT) == Some(64)
  {
    hide Email.Accepts, Email.Find, LocalAt, DomainAt, WordAt, Spans, At;
    var n := AddressParts(v[a..b]);
    AddressInside(v[a..b], v, a, n);
    assert DomainStretch(v, a + n, b);
    assert !LocalAt(v, a - 1) || n == 64 ==> Reportable(v, a + n, Span(a, b));
    ReportsExact(v, 0, Span(a, b));
    if Span(a, b) in Spans(v, 0) {
      ReportsSound(v, Span(a, b));
    }
  }

  lemma AddressInside(s: bytes, v: bytes, a: nat, n: nat)
    requires a + |s| <= |v| && v[a..a + |s|] == s && n < |s|
    requires forall k :: 0 <= k < n ==> Email.IsLocalChar(s[k])
    requires forall k :: n < k < |s| ==> Email.IsDomainChar(s[k])
    ensures v[a + n] == s[n]
    ensures forall k :: a <= k < a + n ==> LocalAt(v, k)
    ensures forall k :: a + n < k < a + |s| ==> DomainAt(v, k)
  {
    hide Email.IsLocalChar, Email.IsDomainChar;
    assert forall k :: 0 <= k < |s| ==> v[a + k] == s[k];
    forall k | a <= k < a + n ensures LocalAt(v, k) {
      assert v[a + (k - a)] == s[k - a];
    }
    forall k | a + n < k < a + |s| ensures DomainAt(v, k) {
      assert v[a + (k - a)] == s[k - a];
    }
  }

  lemma AddressParts(s: bytes) returns (n: nat)
    requires Email.Accepts(s)
    ensures 0 < n <= 64 && |s| - 254 <= n < |s| - 1 && s[n] == Email.AT && Email.Find(s, Email.AT) == Some(n)
    ensures forall k :: 0 <= k < n ==> Email.IsLocalChar(s[k])
    ensures forall k :: n < k < |s| ==> Email.IsDomainChar(s[k])
  {
    hide Email.Split, Email.IsLocalChar, Email.IsDomainChar;
    n := Email.Find(s, Email.AT).value;
    var local, domain := s[..n], s[n + 1..];
    Email.DomainChars(domain);
    assert forall k :: 0 <= k < n ==> s[k] == local[k];
    assert forall k :: n < k < |s| ==> s[k] == domain[k - n - 1];
  }

  /** Starts and ends increase strictly. */
  predicate Rising(r: seq<Span>)
  {
    forall k, m :: 0 <= k < m < |r| ==> r[k].start < r[m].start && r[k].end < r[m].end
  }

  /** The reports come in increasing order of their starts and of their ends, each once: a
      report ends before the next at sign, and the next report begins after the last one. */
  lemma {:induction false} ReportsRise(v: bytes, i: nat)
    requires i <= |v|
    ensures Rising(Spans(v, i))
    decreases |v| - i
  {
    hide Reportable, At, Rising;
    SpansStep(v, i);
    if i == |v| {
      assert Rising([]) by { NoneRise(); }
    } else {
      ReportsRise(v, i + 1);
      var rest := Spans(v, i + 1);
      if At(v, i).Some? {
        var p := At(v, i).value;
        AtExact(v, i, p);
        forall m | 0 <= m < |rest| ensures p.start < rest[m].start && p.end < rest[m].end {
          ReportsExact(v, i + 1, rest[m]);
          var at :| i + 1 <= at && Reportable(v, at, rest[m]);
          Apart(v, i, p, at, rest[m]);
        }
        RisingCons(p, rest);
      }
    }
  }

  lemma NoneRise()
    ensures Rising([])
  {
  }

  lemma RisingCons(p: Span, r: seq<Span>)
    requires Rising(r) && forall m :: 0 <= m < |r| ==> p.start < r[m].start && p.end < r[m].end
    ensures Rising([p] + r)
  {
  }

  /** Neither local nor domain characters include the at sign. */
  lemma Apart(v: bytes, at: nat, p: Span, at': nat, p': Span)
    requires at < at' && Reportable(v, at, p) && Reportable(v, at', p')
    ensures p.start < p'.start && p.end < p'.end
  {
    hide Email.Accepts;
    assert !LocalAt(v, at) && !DomainAt(v, at');
    assert p'.start <= at ==> LocalAt(v, at);
    assert at' < p.end ==> DomainAt(v, at');
  }

  /** An input without a left boundary: of 65 letters before the at sign the first is cut off,
      and the address that remains is reported from inside the word. */
  lemma CutInsideWord(v: bytes)
    requires |v| == 70 && (forall k :: 0 <= k < 65 ==> v[k] == 0x61)
    requires v[65..] == [Email.AT, 0x62, Email.DOT, 0x63, 0x63]
    ensures Span(1, 70) in Spans(v, 0) && LocalAt(v, 0)
  {
    var s := v[1..70];
    var local, b, cc: bytes := v[1..65], [0x62], [0x63, 0x63];
    assert v[65..][0] == v[65] && v[66..] == v[65..][1..];
    assert s == local + [Email.AT] + (b + [Email.DOT] + cc);
    CutAddress(local);
    AddressFound(v, 1, 70);
  }

  lemma CutAddress(local: bytes)
    requires |local| == 64 && forall k :: 0 <= k < 64 ==> local[k] == 0x61
    ensures var domain: bytes := [0x62] + [Email.DOT] + [0x63, 0x63];
      var s := local + [Email.AT] + domain;
      Email.Accepts(s) && Email.Find(s, Email.AT) == Some(64)
  {
    var b, cc: bytes := [0x62], [0x63, 0x63];
    var domain := b + [Email.DOT] + cc;
    var s := local + [Email.AT] + domain;
    assert Email.Join([local]) == local && Email.Atom(local) && Email.Atoms([local]);
    assert Email.LocalPart(local);
    assert [b, cc][1..] == [cc] && Email.Join([b, cc]) == domain && Email.Labels([b, cc]);
    assert Email.Domain(domain);
    assert Email.Address(s, local, domain);
    Email.GrammarExact(s);
    Email.LocalExact(local);
    Email.DomainExact(domain);
    Email.AtOnce(s, local, domain);
  }

  /** An accepted address is found in front of dots and hyphens too, as long as no domain
      character or underscore follows them and the domain stretch has at most 253 bytes. */
  lemma AddressBeforePunctuation(v: bytes, a: nat, b: nat, e: nat)
    requires a <= b <= e <= |v| && Email.Accepts(v[a..b]) && !LocalAt(v, a - 1)
    requires forall k :: b <= k < e ==> v[k] as char in ".-"
    requires e <= a + Email.Find(v[a..b], Email.AT).value + 254 && !DomainAt(v, e) && !WordAt(v, e)
    ensures Span(a, b) in Spans(v, 0)
  {
    hide Email.Accepts, Email.Find, LocalAt, WordAt, Spans, At;
    var n := AddressParts(v[a..b]);
    AddressInside(v[a..b], v, a, n);
    assert forall k :: b <= k < e ==> TrimAt(v, k) && DomainAt(v, k);
    assert DomainStretch(v, a + n, e);
    assert Reportable(v, a + n, Span(a, b));
    ReportsExact(v, 0, Span(a, b));
  }
}
