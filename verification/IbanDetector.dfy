/** The IBAN detector: country-code pairs at word boundaries, a walk that steps over
    single spaces and dashes, and the MOD 97-10 check. */
module IbanDetector {
  import opened Option
  import opened Utf8
  import Iban

  /** IBAN lengths by country code, the two bytes of the code read as one number. */
  type Registry = int -> Option<nat>

  /** The SWIFT registry: lengths that the check accepts, all short enough for a swap of two
      digits or two capitals to be detected wherever it happens. */
  function Registered(key: int): (r: Option<nat>)
    ensures r.Some? ==> 15 <= r.value <= 34
  {
    match key
    case 0x4E4F => Some(15)
    case 0x4245 => Some(16)
    case 0x444A | 0x444B | 0x4649 | 0x464B | 0x464F | 0x474C | 0x4E4C | 0x5344 => Some(18)
    case 0x4D4B | 0x5349 => Some(19)
    case 0x4154 | 0x4545 | 0x4B5A | 0x4C54 | 0x4C55 => Some(20)
    case 0x4348 | 0x4852 | 0x4C43 | 0x4C49 | 0x4C56 => Some(21)
    case 0x4241 | 0x4247 | 0x4248 | 0x4352 | 0x4445 | 0x4742 | 0x4745 | 0x4855 | 0x4945 | 0x4D45 => Some(22)
    case 0x4145 | 0x494C | 0x4951 | 0x4F4D => Some(23)
    case 0x435A | 0x4553 | 0x4749 | 0x4D44 | 0x504B | 0x524F | 0x5341 | 0x5345 | 0x534B | 0x544E
         | 0x5641 | 0x584B => Some(24)
    case 0x4C59 | 0x5054 | 0x5356 => Some(25)
    case 0x4953 | 0x5452 => Some(26)
    case 0x4547 | 0x4652 | 0x4752 | 0x4954 | 0x4D43 | 0x4D52 => Some(27)
    case 0x4144 | 0x414C | 0x415A | 0x4259 | 0x4359 | 0x444F | 0x4754 | 0x4C42 | 0x4E49 | 0x504C
         | 0x534D | 0x534E => Some(28)
    case 0x4249 | 0x4252 | 0x4D5A | 0x5053 | 0x5141 | 0x5643 => Some(29)
    case 0x4A4F | 0x4B57 | 0x4D55 | 0x564E => Some(30)
    case 0x4D54 | 0x5343 => Some(31)
    case 0x5253 | 0x5255 => Some(33)
    case 0x5541 => Some(34)
    case _ => None
  }

  function CountryLength(registry: Registry, a: byte, b: byte): Option<nat> { registry(256 * a + b) }

  /** A single space or dash between two alphanumeric characters. */
  predicate JoinAt(v: bytes, k: int)
  {
    0 <= k < |v| && IsSpaceDash(v[k]) && AlnumAt(v, k - 1) && AlnumAt(v, k + 1)
  }

  predicate LinkAt(v: bytes, k: int) { AlnumAt(v, k) || JoinAt(v, k) }

  /** Alphanumeric characters with at most one space or dash between neighbours, none of
      them among the first four. */
  predicate Grouped(v: bytes, a: nat, b: nat)
  {
    && a + 4 <= b <= |v|
    && (forall k :: a <= k < a + 4 ==> AlnumAt(v, k))
    && AlnumAt(v, b - 1)
    && (forall k :: a <= k < b ==> LinkAt(v, k))
  }

  function AlnumCount(v: bytes, a: nat, b: nat): (n: nat)
    requires a <= b <= |v|
    decreases b
  {
    if a == b then 0 else AlnumCount(v, a, b - 1) + if IsAlnum(v[b - 1]) then 1 else 0
  }

  lemma {:induction false} CountsAlnum(v: bytes, a: nat, b: nat)
    requires a <= b <= |v|
    ensures AlnumCount(v, a, b) == |Iban.Compact(v[a..b])|
    decreases b
  {
    hide Filter;
    if a < b {
      CountsAlnum(v, a, b - 1);
      FilterLast(v, a, b, IsAlnum);
    }
  }

  lemma {:induction false} AlnumCountGrows(v: bytes, a: nat, b: nat, c: nat)
    requires a <= b <= c <= |v|
    ensures AlnumCount(v, a, b) <= AlnumCount(v, a, c)
    decreases c - b
  {
    if b < c {
      AlnumCountGrows(v, a, b, c - 1);
    }
  }

  /** Two uppercase letters with no alphanumeric character before them. */
  predicate CodeAt(v: bytes, i: nat)
  {
    i + 2 <= |v| && IsUpper(v[i]) && IsUpper(v[i + 1]) && !AlnumAt(v, i - 1)
  }

  /** Where the loop of `extract_candidate` stops. */
  function Walk(v: bytes, j: nat, count: nat, expected: nat): (r: (nat, nat))
    requires j <= |v|
    ensures j <= r.0 <= |v|
    decreases |v| - j
  {
    if j < |v| && count < expected then
      if IsAlnum(v[j]) then Walk(v, j + 1, count + 1, expected)
      else if IsSpaceDash(v[j]) && count > 2 && AlnumAt(v, j + 1) then Walk(v, j + 1, count, expected)
      else (j, count)
    else (j, count)
  }

  function Candidate(v: bytes, start: nat, expected: nat): (r: Option<Span>)
    requires start + 2 <= |v|
    ensures r.Some? ==> r.value.start == start && Within(v, r.value)
  {
    if !DigitAt(v, start + 2) || !DigitAt(v, start + 3) then None
    else
      var (j, count) := Walk(v, start + 2, 2, expected);
      if count != expected || AlnumAt(v, j) || !Iban.Accepts(v[start..j]) then None
      else Some(Span(start, j))
  }

  method ExtractCandidate(value: bytes, start: nat, expected: nat) returns (r: Option<bytes>)
    requires ValidUtf8(value) && CodeAt(value, start)
    ensures r == match Candidate(value, start, expected)
                 case None => None
                 case Some(p) => Some(value[p.start..p.end])
  {
    var j := start + 2;
    if !DigitAt(value, j) || !DigitAt(value, j + 1) {
      return None;
    }
    var alnumCount := 2;
    while j < |value| && alnumCount < expected
      invariant start + 2 <= j <= |value|
      invariant Walk(value, j, alnumCount, expected) == Walk(value, start + 2, 2, expected)
    {
      if IsAlnum(value[j]) {
        alnumCount := alnumCount + 1;
        j := j + 1;
      } else if (value[j] == 0x20 || value[j] == 0x2D) && alnumCount > 2 && AlnumAt(value, j + 1) {
        j := j + 1;
      } else {
        break;
      }
    }
    assert Walk(value, start + 2, 2, expected) == (j, alnumCount);
    if alnumCount != expected {
      return None;
    }
    if AlnumAt(value, j) {
      return None;
    }
    WalkFromCode(value, start, expected);
    AfterAscii(value, j);
    var candidate := Slice(value, start, j);
    var valid := Iban.Check(candidate);
    r := if valid then Some(candidate) else None;
  }

  function At(registry: Registry, v: bytes, i: nat): (r: Option<Span>)
    requires i + 2 <= |v|
    ensures r.Some? ==> r.value.start == i && Within(v, r.value)
  {
    if !CodeAt(v, i) then None
    else match CountryLength(registry, v[i], v[i + 1])
      case None => None
      case Some(n) => Candidate(v, i, n)
  }

  /** The reports of the iterator chain from window `i` on. */
  function Spans(registry: Registry, v: bytes, i: nat): (r: seq<Span>)
    ensures forall k :: 0 <= k < |r| ==> Within(v, r[k])
    decreases |v| - i
  {
    if i + 2 > |v| then []
    else (match At(registry, v, i) case None => [] case Some(p) => [p]) + Spans(registry, v, i + 1)
  }

  lemma SpansStep(registry: Registry, v: bytes, i: nat)
    ensures Spans(registry, v, i) ==
      if i + 2 > |v| then []
      else match At(registry, v, i)
        case None => Spans(registry, v, i + 1)
        case Some(p) => [p] + Spans(registry, v, i + 1)
  {
    hide At;
  }

  /** The filters applied to one window. */
  method Probe(registry: Registry, value: bytes, i: nat) returns (r: Option<bytes>)
    requires ValidUtf8(value) && i + 2 <= |value|
    ensures r == match At(registry, value, i)
                 case None => None
                 case Some(p) => Some(value[p.start..p.end])
  {
    r := None;
    if IsUpper(value[i]) && IsUpper(value[i + 1]) && (i == 0 || !IsAlnum(value[i - 1])) {
      var expected := CountryLength(registry, value[i], value[i + 1]);
      if expected.Some? {
        r := ExtractCandidate(value, i, expected.value);
      }
    }
  }

  method Scan(registry: Registry, value: bytes) returns (results: seq<bytes>)
    requires ValidUtf8(value)
    ensures results == Texts(value, Spans(registry, value, 0))
  {
    hide *;
    results := [];
    ghost var done: seq<Span> := [];
    var i := 0;
    while i + 2 <= |value|
      invariant forall k :: 0 <= k < |done| ==> Within(value, done[k])
      invariant results == Texts(value, done)
      invariant done + Spans(registry, value, i) == Spans(registry, value, 0)
    {
      SpansStep(registry, value, i);
      var candidate := Probe(registry, value, i);
      if candidate.Some? {
        results := results + [candidate.value];
        ghost var p := At(registry, value, i).value;
        PushSpan(value, done, p, Spans(registry, value, i + 1));
        done := done + [p];
      }
      i := i + 1;
    }
    SpansStep(registry, value, i);
  }

  // ----- the walk

  lemma {:induction false} WalkShape(v: bytes, a: nat, j: nat, count: nat, expected: nat)
    requires a < j <= |v| && count == AlnumCount(v, a, j) && 2 < count <= expected
    requires AlnumAt(v, j - 1) && forall k :: a <= k < j ==> LinkAt(v, k)
    ensures var (e, n) := Walk(v, j, count, expected);
      && n == AlnumCount(v, a, e) && n <= expected
      && AlnumAt(v, e - 1)
      && (n == expected || !LinkAt(v, e))
      && forall k :: a <= k < e ==> LinkAt(v, k)
    decreases |v| - j
  {
    if count < expected && AlnumAt(v, j) {
      WalkShape(v, a, j + 1, count + 1, expected);
    } else if count < expected && JoinAt(v, j) {
      assert Walk(v, j, count, expected) == Walk(v, j + 1, count, expected) == Walk(v, j + 2, count + 1, expected);
      WalkShape(v, a, j + 2, count + 1, expected);
    } else {
      assert Walk(v, j, count, expected) == (j, count);
    }
  }

  lemma WalkFromCode(v: bytes, a: nat, expected: nat)
    requires CodeAt(v, a) && DigitAt(v, a + 2) && DigitAt(v, a + 3)
    ensures var (e, n) := Walk(v, a + 2, 2, expected);
      && AlnumAt(v, e - 1)
      && (expected >= 4 ==> Grouped(v, a, e) && n <= expected && (n == expected || !LinkAt(v, e)))
      && n == AlnumCount(v, a, e)
  {
    assert AlnumCount(v, a, a) == 0 && AlnumCount(v, a, a + 1) == 1;
    assert AlnumCount(v, a, a + 2) == 2 && AlnumCount(v, a, a + 3) == 3;
    if expected >= 4 {
      assert Walk(v, a + 2, 2, expected) == Walk(v, a + 3, 3, expected) == Walk(v, a + 4, 4, expected);
      WalkShape(v, a, a + 4, 4, expected);
    }
  }

  /** The walk consumes exactly a grouped stretch with the expected number of characters. */
  lemma WalkTakesGroups(v: bytes, a: nat, b: nat, expected: nat)
    requires CodeAt(v, a) && DigitAt(v, a + 2) && DigitAt(v, a + 3)
    requires Grouped(v, a, b) && AlnumCount(v, a, b) == expected >= 4
    ensures Walk(v, a + 2, 2, expected) == (b, expected)
  {
    WalkFromCode(v, a, expected);
    var e := Walk(v, a + 2, 2, expected).0;
    if e < b {
      assert LinkAt(v, e);
      AlnumCountGrows(v, a, e, b - 1);
    } else if b < e {
      AlnumCountGrows(v, a, b, e - 1);
    }
  }

  // ----- what is reported

  /** A grouped string of its country's length with clean boundaries whose check digits
      validate. */
  predicate Reportable(registry: Registry, v: bytes, p: Span)
  {
    var a, b := p.start, p.end;
    && CodeAt(v, a) && DigitAt(v, a + 2) && DigitAt(v, a + 3)
    && Grouped(v, a, b) && !AlnumAt(v, b)
    && CountryLength(registry, v[a], v[a + 1]) == Some(|Iban.Compact(v[a..b])|)
    && Iban.Accepts(v[a..b])
  }

  lemma AtExact(registry: Registry, v: bytes, i: nat, p: Span)
    requires i + 2 <= |v|
    ensures At(registry, v, i) == Some(p) <==> p.start == i && Reportable(registry, v, p)
  {
    hide Filter, Iban.Spelled, Walk, JoinAt;
    if CodeAt(v, i) && CountryLength(registry, v[i], v[i + 1]).Some? && DigitAt(v, i + 2) && DigitAt(v, i + 3) {
      var n := CountryLength(registry, v[i], v[i + 1]).value;
      WalkFromCode(v, i, n);
      CountsAlnum(v, i, Walk(v, i + 2, 2, n).0);
      if p.start == i && Reportable(registry, v, p) {
        CountsAlnum(v, i, p.end);
        WalkTakesGroups(v, i, p.end, n);
      }
    }
  }

  /** Exactly the reportable spans are reported. */
  lemma {:induction false} ReportsExact(registry: Registry, v: bytes, i: nat, p: Span)
    ensures p in Spans(registry, v, i) <==> i <= p.start && Reportable(registry, v, p)
    decreases |v| - i
  {
    StartsInside(registry, v, p);
    hide Reportable, At, Spans;
    SpansStep(registry, v, i);
    if i + 2 <= |v| {
      ReportsExact(registry, v, i + 1, p);
      AtExact(registry, v, i, p);
    }
  }

  lemma StartsInside(registry: Registry, v: bytes, p: Span)
    ensures Reportable(registry, v, p) ==> p.start + 2 <= |v|
  {
    hide Grouped, Iban.Accepts, Iban.Compact;
  }

  /** The reports come in increasing order of their starts. */
  lemma {:induction false} ReportsAscend(registry: Registry, v: bytes, i: nat)
    ensures Ascending(i, Spans(registry, v, i))
    decreases |v| - i
  {
    if i + 2 <= |v| {
      ReportsAscend(registry, v, i + 1);
      var at, rest := At(registry, v, i), Spans(registry, v, i + 1);
      if at.Some? {
        AscendingCons(i, at.value, rest);
      } else {
        assert Spans(registry, v, i) == rest;
      }
    }
  }

  // ----- grouping

  /** Detection does not depend on the grouping: a valid compact IBAN of its country's
      length is reported however single spaces and dashes are spread over it after the
      first four characters, wherever it stands between non-alphanumeric neighbours. */
  lemma GroupingIrrelevant(registry: Registry, c: bytes, v: bytes, a: nat, b: nat)
    requires Iban.Compact(c) == c && Iban.Accepts(c)
    requires CountryLength(registry, c[0], c[1]) == Some(|c|)
    requires IsUpper(c[0]) && IsUpper(c[1]) && IsDigit(c[2]) && IsDigit(c[3])
    requires Grouped(v, a, b) && Iban.Compact(v[a..b]) == c
    requires !AlnumAt(v, a - 1) && !AlnumAt(v, b)
    ensures Span(a, b) in Spans(registry, v, 0)
  {
    hide Filter, Iban.Spelled;
    FirstFour(v, a, b);
    Iban.SeparatorsIrrelevant(c, v[a..b]);
    ReportsExact(registry, v, 0, Span(a, b));
  }

  lemma FirstFour(v: bytes, a: nat, b: nat)
    requires a + 4 <= b <= |v| && forall k :: a <= k < a + 4 ==> AlnumAt(v, k)
    ensures var c := Iban.Compact(v[a..b]);
      |c| >= 4 && c[0] == v[a] && c[1] == v[a + 1] && c[2] == v[a + 2] && c[3] == v[a + 3]
  {
    hide Filter;
    var r := v[a..b];
    assert r == r[..4] + r[4..];
    FilterAppend(r[..4], r[4..], IsAlnum);
    forall x | x in r[..4] ensures IsAlnum(x) {
      var k :| 0 <= k < 4 && r[..4][k] == x;
      assert AlnumAt(v, a + k);
    }
    FilterAll(r[..4], IsAlnum);
  }
}
