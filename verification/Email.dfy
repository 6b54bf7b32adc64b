/** `validators::email` against the grammar it recognises: a Dot-string of RFC 5321
    section 4.1.2, an at sign, and a host name of RFC 1035 section 2.3 labels. */
module Email {
  import opened Option
  import opened Utf8

  const AT: byte := 0x40
  const DOT: byte := 0x2E
  const HYPHEN: byte := 0x2D

  /** `is_email_local_char`: a dot or an atext character. */
  predicate IsLocalChar(b: byte)
  {
    || IsAlnum(b) || b == DOT || b == 0x21 || 0x23 <= b <= 0x27 || b == 0x2A || b == 0x2B
    || b == HYPHEN || b == 0x2F || b == 0x3D || b == 0x3F || 0x5E <= b <= 0x60 || 0x7B <= b <= 0x7E
  }

  /** The atext of RFC 5322 section 3.2.3. */
  predicate IsAtext(b: byte) { IsAlnum(b) || b as char in "!#$%&'*+-/=?^_`{|}~" }

  /** The table of the program holds those and the dot. */
  lemma LocalChars(b: byte)
    ensures IsLocalChar(b) <==> IsAtext(b) || b == DOT
    ensures !IsAtext(DOT)
  {
  }

  predicate IsDomainChar(b: byte) { IsAlnum(b) || b == HYPHEN || b == DOT }

  lemma AsciiOnly(b: byte)
    ensures IsLocalChar(b) || IsDomainChar(b) ==> b <= 0x7F
  {
  }

  // ----- the grammar

  function Join(parts: seq<bytes>): bytes
    requires parts != []
  {
    if |parts| == 1 then parts[0] else parts[0] + [DOT] + Join(parts[1..])
  }

  predicate Atom(a: bytes) { a != [] && forall k :: 0 <= k < |a| ==> IsAtext(a[k]) }

  predicate Label(l: bytes)
  {
    && 1 <= |l| <= 63 && l[0] != HYPHEN && l[|l| - 1] != HYPHEN
    && forall k :: 0 <= k < |l| ==> IsAlnum(l[k]) || l[k] == HYPHEN
  }

  predicate TopLabel(l: bytes) { |l| >= 2 && forall k :: 0 <= k < |l| ==> IsAlpha(l[k]) }

  predicate Atoms(parts: seq<bytes>) { parts != [] && forall k :: 0 <= k < |parts| ==> Atom(parts[k]) }

  predicate Labels(parts: seq<bytes>)
  {
    && |parts| >= 2 && TopLabel(parts[|parts| - 1])
    && forall k :: 0 <= k < |parts| ==> Label(parts[k])
  }

  ghost predicate LocalPart(local: bytes)
  {
    |local| <= 64 && exists atoms :: Atoms(atoms) && local == Join(atoms)
  }

  ghost predicate Domain(domain: bytes)
  {
    |domain| <= 253 && exists labels :: Labels(labels) && domain == Join(labels)
  }

  ghost predicate Address(s: bytes, local: bytes, domain: bytes)
  {
    s == local + [AT] + domain && LocalPart(local) && Domain(domain)
  }

  ghost predicate Grammar(s: bytes) { exists local, domain :: Address(s, local, domain) }

  // ----- the recogniser

  /** `str::find` for one ASCII byte. */
  function Find(s: bytes, b: byte): (r: Option<nat>)
    ensures r.Some? ==> r.value < |s| && s[r.value] == b && b !in s[..r.value]
    ensures r.None? ==> b !in s
  {
    if s == [] then None
    else if s[0] == b then Some(0)
    else match Find(s[1..], b)
      case None => None
      case Some(k) =>
        assert s[..k + 1] == [s[0]] + s[1..][..k];
        Some(k + 1)
  }

  /** `str::split('.')`. */
  function Split(s: bytes): (r: seq<bytes>)
    ensures r != []
  {
    if s == [] then [[]]
    else if s[0] == DOT then [[]] + Split(s[1..])
    else var r := Split(s[1..]); [[s[0]] + r[0]] + r[1..]
  }

  predicate DotDot(s: bytes) { exists k :: 0 <= k < |s| - 1 && s[k] == DOT == s[k + 1] }

  predicate AcceptsLocal(local: bytes)
  {
    && 1 <= |local| <= 64 && local[0] != DOT && local[|local| - 1] != DOT && !DotDot(local)
    && forall k :: 0 <= k < |local| ==> IsLocalChar(local[k])
  }

  predicate AcceptsDomain(domain: bytes)
  {
    1 <= |domain| <= 253 && Labels(Split(domain))
  }

  predicate Accepts(s: bytes)
  {
    match Find(s, AT)
    case None => false
    case Some(at) => AT !in s[at + 1..] && AcceptsLocal(s[..at]) && AcceptsDomain(s[at + 1..])
  }

  method Check(s: bytes) returns (ok: bool)
    requires ValidUtf8(s)
    ensures ok == Accepts(s)
  {
    hide IsLocalChar, Split, ValidUtf8;
    var at := Find(s, AT);
    if at.None? {
      return false;
    }
    AfterAscii(s, at.value + 1);
    var local := Slice(s, 0, at.value);
    var domain := Slice(s, at.value + 1, |s|);
    assert s[0..at.value] == s[..at.value] && s[at.value + 1..|s|] == s[at.value + 1..];
    if AT in domain {
      return false;
    }
    if local == [] || |local| > 64 {
      return false;
    }
    if local[0] == DOT || local[|local| - 1] == DOT {
      return false;
    }
    if exists k :: 0 <= k < |local| - 1 && local[k] == DOT == local[k + 1] {
      return false;
    }
    if !forall k :: 0 <= k < |local| ==> IsLocalChar(local[k]) {
      return false;
    }
    ok := CheckDomain(domain);
  }

  method CheckDomain(domain: bytes) returns (ok: bool)
    ensures ok == AcceptsDomain(domain)
  {
    hide Split;
    if domain == [] || |domain| > 253 {
      return false;
    }
    var labelCount, lastLabel: bytes := 0, [];
    var labels := Split(domain);
    for i := 0 to |labels|
      invariant labelCount == i && (i > 0 ==> lastLabel == labels[i - 1])
      invariant forall k :: 0 <= k < i ==> Label(labels[k])
    {
      var part := labels[i];
      if part == [] || |part| > 63 {
        return false;
      }
      if part[0] == HYPHEN || part[|part| - 1] == HYPHEN {
        return false;
      }
      for j := 0 to |part|
        invariant forall k :: 0 <= k < j ==> IsAlnum(part[k]) || part[k] == HYPHEN
      {
        if !(IsAlnum(part[j]) || part[j] == HYPHEN) {
          return false;
        }
      }
      lastLabel := part;
      labelCount := labelCount + 1;
    }
    if labelCount < 2 {
      return false;
    }
    if |lastLabel| < 2 {
      return false;
    }
    ok := forall k :: 0 <= k < |lastLabel| ==> IsAlpha(lastLabel[k]);
  }

  // ----- splitting and joining are inverse

  lemma {:induction false} JoinOfSplit(s: bytes)
    ensures Join(Split(s)) == s
    ensures forall k :: 0 <= k < |Split(s)| ==> DOT !in Split(s)[k]
  {
    if s != [] {
      var r := Split(s[1..]);
      JoinOfSplit(s[1..]);
      if s[0] == DOT {
        assert ([[]] + r)[1..] == r;
        assert Split(s) == [[]] + r;
      } else {
        var q := [[s[0]] + r[0]] + r[1..];
        assert Split(s) == q && q[1..] == r[1..];
        assert forall k :: 0 <= k < |r| ==> q[k] == if k == 0 then [s[0]] + r[0] else r[k];
        assert Join(q) == [s[0]] + Join(r);
      }
    }
  }

  lemma {:induction false} SplitOfJoin(parts: seq<bytes>)
    requires parts != [] && forall k :: 0 <= k < |parts| ==> DOT !in parts[k]
    ensures Split(Join(parts)) == parts
  {
    if |parts| == 1 {
      SplitPiece(parts[0], []);
      assert parts[0] + [] == parts[0] && Split([]) == [[]] && Split([])[1..] == [];
      assert parts == [parts[0]];
    } else {
      var rest := Join(parts[1..]);
      SplitOfJoin(parts[1..]);
      SplitPiece(parts[0], [DOT] + rest);
      assert ([DOT] + rest)[1..] == rest;
      assert parts[0] + ([DOT] + rest) == Join(parts);
      var r := [[]] + parts[1..];
      assert Split([DOT] + rest) == r && r[1..] == parts[1..];
      assert parts == [parts[0]] + parts[1..];
    }
  }

  /** A dotless piece goes to the first part of the split. */
  lemma {:induction false} SplitPiece(p: bytes, t: bytes)
    requires DOT !in p
    requires t == [] || t[0] == DOT
    ensures Split(t)[0] == []
    ensures Split(p + t) == [p] + Split(t)[1..]
  {
    if p == [] {
      assert p + t == t;
      assert Split(t) == [Split(t)[0]] + Split(t)[1..];
    } else {
      SplitPiece(p[1..], t);
      assert (p + t)[1..] == p[1..] + t;
      assert p == [p[0]] + p[1..];
    }
  }

  // ----- the local part

  predicate NonEmptyPieces(parts: seq<bytes>) { forall k :: 0 <= k < |parts| ==> parts[k] != [] }

  predicate UndottedEnds(s: bytes) { s != [] && s[0] != DOT && s[|s| - 1] != DOT && !DotDot(s) }

  /** No piece is empty exactly when dots neither lead, trail nor repeat. */
  lemma {:induction false} PiecesNonEmpty(s: bytes)
    ensures NonEmptyPieces(Split(s)) <==> UndottedEnds(s)
    decreases |s|
  {
    if s == [] || s[0] == DOT {
      assert Split(s)[0] == [];
    } else {
      var t := s[1..];
      var r := Split(t);
      assert Split(s) == [[s[0]] + r[0]] + r[1..];
      TailPieces(r, [s[0]] + r[0]);
      if t == [] {
        assert r[1..] == [];
        assert UndottedEnds(s);
      } else if t[0] == DOT {
        PiecesNonEmpty(t[1..]);
        assert r[1..] == Split(t[1..]);
        DotThenRest(s);
      } else {
        PiecesNonEmpty(t);
        assert r[0] != [];
        NoDotThenRest(s);
      }
    }
  }

  lemma TailPieces(r: seq<bytes>, head: bytes)
    requires r != [] && head != []
    ensures NonEmptyPieces([head] + r[1..]) <==> NonEmptyPieces(r[1..])
    ensures r[0] != [] ==> (NonEmptyPieces(r[1..]) <==> NonEmptyPieces(r))
  {
    assert forall k :: 1 <= k < |r| ==> ([head] + r[1..])[k] == r[1..][k - 1] == r[k];
  }

  lemma DotThenRest(s: bytes)
    requires |s| >= 2 && s[0] != DOT && s[1] == DOT
    ensures UndottedEnds(s) <==> UndottedEnds(s[2..])
  {
    if DotDot(s) {
      var k :| 0 <= k < |s| - 1 && s[k] == DOT == s[k + 1];
      if k >= 2 {
        assert s[2..][k - 2] == DOT == s[2..][k - 1];
      }
    }
    if DotDot(s[2..]) {
      var k :| 0 <= k < |s[2..]| - 1 && s[2..][k] == DOT == s[2..][k + 1];
      assert s[k + 2] == DOT == s[k + 3];
    }
    if |s| > 2 && s[2] == DOT {
      assert s[1] == DOT == s[1 + 1];
    }
  }

  lemma NoDotThenRest(s: bytes)
    requires |s| >= 2 && s[0] != DOT && s[1] != DOT
    ensures UndottedEnds(s) <==> UndottedEnds(s[1..])
  {
    if DotDot(s) {
      var k :| 0 <= k < |s| - 1 && s[k] == DOT == s[k + 1];
      assert s[1..][k - 1] == DOT == s[1..][k];
    }
    if DotDot(s[1..]) {
      var k :| 0 <= k < |s[1..]| - 1 && s[1..][k] == DOT == s[1..][k + 1];
      assert s[k + 1] == DOT == s[k + 2];
    }
  }

  predicate AtextPieces(parts: seq<bytes>)
  {
    forall k, m :: 0 <= k < |parts| && 0 <= m < |parts[k]| ==> IsAtext(parts[k][m])
  }

  lemma {:induction false} PiecesAtext(s: bytes)
    ensures AtextPieces(Split(s)) <==> forall k :: 0 <= k < |s| ==> IsLocalChar(s[k])
  {
    hide IsLocalChar, IsAtext;
    if s != [] {
      LocalChars(s[0]);
      var r := Split(s[1..]);
      PiecesAtext(s[1..]);
      assert (forall k :: 0 <= k < |s| ==> IsLocalChar(s[k]))
        <==> IsLocalChar(s[0]) && forall k :: 0 <= k < |s[1..]| ==> IsLocalChar(s[1..][k]);
      var q := Split(s);
      if s[0] == DOT {
        assert q == [[]] + r;
        assert forall k :: 0 <= k < |r| ==> q[k + 1] == r[k];
      } else {
        assert q == [[s[0]] + r[0]] + r[1..];
        assert forall k :: 1 <= k < |r| ==> q[k] == r[k];
        assert q[0][0] == s[0] && q[0][1..] == r[0];
        assert forall m :: 0 <= m < |r[0]| ==> q[0][m + 1] == r[0][m];
        assert AtextPieces(q) <==> IsAtext(s[0]) && AtextPieces(r);
      }
    }
  }

  lemma LocalExact(local: bytes)
    ensures AcceptsLocal(local) <==> LocalPart(local)
  {
    hide IsAtext, IsLocalChar, Split, Join;
    PiecesNonEmpty(local);
    PiecesAtext(local);
    JoinOfSplit(local);
    var pieces := Split(local);
    assert Atoms(pieces) <==> NonEmptyPieces(pieces) && AtextPieces(pieces);
    if LocalPart(local) {
      var atoms :| Atoms(atoms) && local == Join(atoms);
      forall k | 0 <= k < |atoms| ensures DOT !in atoms[k] {
        assert Atom(atoms[k]);
        LocalChars(DOT);
      }
      SplitOfJoin(atoms);
      assert forall k :: 0 <= k < |pieces| ==> Atom(pieces[k]);
    }
  }

  lemma DomainExact(domain: bytes)
    ensures AcceptsDomain(domain) <==> Domain(domain)
  {
    JoinOfSplit(domain);
    if Domain(domain) {
      var labels :| Labels(labels) && domain == Join(labels);
      assert forall k :: 0 <= k < |labels| ==> Label(labels[k]);
      SplitOfJoin(labels);
      assert Label(labels[0]);
    }
  }

  lemma {:induction false} DomainChars(domain: bytes)
    requires forall k :: 0 <= k < |Split(domain)| ==> Label(Split(domain)[k])
    ensures forall k :: 0 <= k < |domain| ==> IsDomainChar(domain[k])
  {
    JoinOfSplit(domain);
    JoinedChars(Split(domain));
  }

  lemma {:induction false} JoinedChars(parts: seq<bytes>)
    requires parts != [] && forall k :: 0 <= k < |parts| ==> Label(parts[k])
    ensures forall k :: 0 <= k < |Join(parts)| ==> IsDomainChar(Join(parts)[k])
  {
    assert Label(parts[0]);
    if |parts| > 1 {
      JoinedChars(parts[1..]);
    }
  }

  /** The recogniser accepts exactly the grammar. */
  lemma GrammarExact(s: bytes)
    ensures Accepts(s) <==> Grammar(s)
  {
    hide AcceptsLocal, AcceptsDomain, LocalPart, Domain;
    if Accepts(s) {
      var at := Find(s, AT).value;
      LocalExact(s[..at]);
      DomainExact(s[at + 1..]);
      assert s == s[..at] + [AT] + s[at + 1..];
      assert Address(s, s[..at], s[at + 1..]);
    }
    if Grammar(s) {
      var local, domain :| Address(s, local, domain);
      LocalExact(local);
      DomainExact(domain);
      AtOnce(s, local, domain);
    }
  }

  /** A local part and a domain contain no at sign, so the first one stands between them. */
  lemma AtOnce(s: bytes, local: bytes, domain: bytes)
    requires s == local + [AT] + domain && AcceptsLocal(local) && AcceptsDomain(domain)
    ensures Find(s, AT) == Some(|local|) && s[..|local|] == local && s[|local| + 1..] == domain
    ensures AT !in domain
  {
    DomainChars(domain);
    assert s[|local|] == AT;
    assert AT in s;
    var at := Find(s, AT).value;
    forall k | 0 <= k < at ensures s[k] != AT {
      assert s[..at][k] == s[k];
    }
    assert forall k :: 0 <= k < |local| ==> s[k] == local[k] && IsLocalChar(local[k]);
  }

  // ----- limits, one at a time

  /** `n` letters `a`. */
  predicate Letters(s: bytes, n: nat) { |s| == n && forall k :: 0 <= k < n ==> s[k] == 0x61 }

  /** A local part without dots: 1 to 64 letters, digits or the signs of the standard. */
  lemma OneAtom(local: bytes)
    requires DOT !in local
    ensures AcceptsLocal(local) <==> 1 <= |local| <= 64 && forall k :: 0 <= k < |local| ==>
      IsAlnum(local[k]) || local[k] as char in "!#$%&'*+-/=?^_`{|}~"
  {
    hide IsLocalChar, IsAlnum;
    forall k | 0 <= k < |local| ensures IsLocalChar(local[k]) <==> IsAtext(local[k]) {
      assert local[k] in local;
      LocalChars(local[k]);
    }
  }

  /** A domain of one label and `cc`: 1 to 63 letters, digits and hyphens, no hyphen first or
      last. */
  lemma OneLabel(l: bytes)
    requires DOT !in l
    ensures AcceptsDomain(l + [DOT] + [0x63, 0x63]) <==>
      && 1 <= |l| <= 63 && l[0] as char != '-' && l[|l| - 1] as char != '-'
      && forall k :: 0 <= k < |l| ==> IsAlnum(l[k]) || l[k] as char == '-'
  {
    var parts: seq<bytes> := [l, [0x63, 0x63]];
    assert parts[1..] == [parts[1]] && Join(parts) == l + [DOT] + [0x63, 0x63];
    SplitOfJoin(parts);
    assert Labels(parts) <==> Label(l) by {
      assert TopLabel(parts[1]) && Label(parts[1]);
    }
  }

  /** A domain of `a` and a top label: 2 to 63 letters. */
  lemma OneTopLabel(l: bytes)
    requires DOT !in l
    ensures AcceptsDomain([0x61] + [DOT] + l) <==> 2 <= |l| <= 63 && forall k :: 0 <= k < |l| ==> IsAlpha(l[k])
  {
    var parts: seq<bytes> := [[0x61], l];
    assert parts[1..] == [l] && Join(parts) == [0x61] + [DOT] + l;
    SplitOfJoin(parts);
    assert Label(parts[0]);
    assert Labels(parts) <==> TopLabel(l) && Label(l);
  }

  /** One label alone is no domain. */
  lemma TwoLabelsNeeded(l: bytes)
    requires DOT !in l
    ensures !AcceptsDomain(l)
  {
    assert Join([l]) == l;
    SplitOfJoin([l]);
  }

  /** Three labels of 63 letters and a fourth of `n`: accepted up to 253 bytes in all. */
  lemma TotalLimit(l: bytes, top: bytes, n: nat)
    requires Letters(l, 63) && Letters(top, n) && 2 <= n <= 63
    ensures var domain := l + [DOT] + (l + [DOT] + (l + [DOT] + top));
      |domain| == 192 + n && (AcceptsDomain(domain) <==> |domain| <= 253)
  {
    var parts: seq<bytes> := [l, l, l, top];
    assert parts[1..] == [l, l, top] && [l, l, top][1..] == [l, top] && [l, top][1..] == [top];
    assert Join([top]) == top && Join([l, top]) == l + [DOT] + top;
    assert Join([l, l, top]) == l + [DOT] + Join([l, top]);
    assert Join(parts) == l + [DOT] + Join([l, l, top]);
    assert DOT !in l && DOT !in top;
    SplitOfJoin(parts);
    assert Label(l) && Label(top) && TopLabel(top);
  }
}
