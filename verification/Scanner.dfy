/** `Scanner::scan`: the rule engine on every text column, the scope filter, and the
    removal of matched columns from the primary keys. */
module Scanner {
  import opened Events
  import opened Findings
  import opened Option
  import opened Utf8
  import Engine

  /** Masking of the matched text and its hash, which only label a finding. */
  datatype Labels = Labels(mask: bytes -> string, hash: bytes -> nat)

  function ToFinding(ev: ScanEvent, col: string, m: Engine.Match, l: Labels): Finding
  {
    Finding(ev.database, m.rule.id, m.rule.description, m.rule.category, m.rule.severity, ev.schemaName,
            ev.tableName, col, l.mask(m.text), l.hash(m.text), ev.primaryKeys, ev.commitLsn, m.rule.channels)
  }

  predicate InScope(ev: ScanEvent, col: string, m: Engine.Metadata)
  {
    Engine.InScope(m, ev.schemaName, ev.tableName, col)
  }

  /** The in-scope matches of one column, as findings. */
  function ScopedFindings(ev: ScanEvent, col: string, ms: seq<Engine.Match>, l: Labels): seq<Finding>
  {
    if ms == [] then []
    else
      var m := ms[|ms| - 1];
      ScopedFindings(ev, col, ms[..|ms| - 1], l) + if InScope(ev, col, m.rule) then [ToFinding(ev, col, m, l)] else []
  }

  function ColumnFindings(e: Engine.Engine, ev: ScanEvent, c: ColumnValue, l: Labels): seq<Finding>
  {
    if !IsScannableType(c.typeName) || c.value.None? then []
    else ScopedFindings(ev, c.name, Engine.Naive(e.rules, c.value.value, e.phone), l)
  }

  /** The first pass, over the first columns of an event. */
  function Collected(e: Engine.Engine, ev: ScanEvent, cols: seq<ColumnValue>, l: Labels): seq<Finding>
  {
    if cols == [] then []
    else Collected(e, ev, cols[..|cols| - 1], l) + ColumnFindings(e, ev, cols[|cols| - 1], l)
  }

  /** `retain`: the pairs whose column is not matched, in order. */
  function Retained(keys: seq<(string, bytes)>, matched: set<string>): (r: seq<(string, bytes)>)
    ensures forall kv :: kv in r <==> kv in keys && kv.0 !in matched
  {
    if keys == [] then []
    else Retained(keys[..|keys| - 1], matched) + if keys[|keys| - 1].0 in matched then [] else [keys[|keys| - 1]]
  }

  /** `at` tells of each surviving pair where it stood, and no unmatched pair is missing. */
  predicate InOrder(keys: seq<(string, bytes)>, matched: set<string>, r: seq<(string, bytes)>, at: seq<nat>)
  {
    && |at| == |r|
    && (forall k :: 0 <= k < |r| ==> at[k] < |keys| && r[k] == keys[at[k]])
    && (forall j, k :: 0 <= j < k < |at| ==> at[j] < at[k])
    && (forall i :: 0 <= i < |keys| && keys[i].0 !in matched ==> i in at)
  }

  lemma InOrderMore(keys: seq<(string, bytes)>, matched: set<string>, r: seq<(string, bytes)>, at: seq<nat>)
    requires keys != [] && InOrder(keys[..|keys| - 1], matched, r, at)
    ensures var n := |keys| - 1;
      if keys[n].0 in matched then InOrder(keys, matched, r, at) else InOrder(keys, matched, r + [keys[n]], at + [n])
  {
    var n := |keys| - 1;
    assert forall i :: 0 <= i < n ==> keys[..n][i] == keys[i];
    assert forall i :: i in at ==> i in at + [n];
    assert n in at + [n];
  }

  /** The surviving pairs keep their order. */
  lemma {:induction false} RetainedInOrder(keys: seq<(string, bytes)>, matched: set<string>) returns (at: seq<nat>)
    ensures InOrder(keys, matched, Retained(keys, matched), at)
  {
    if keys == [] {
      at := [];
    } else {
      var n := |keys| - 1;
      at := RetainedInOrder(keys[..n], matched);
      InOrderMore(keys, matched, Retained(keys[..n], matched), at);
      hide InOrder;
      if keys[n].0 !in matched {
        at := at + [n];
      } else {
        assert Retained(keys[..n], matched) + [] == Retained(keys[..n], matched);
      }
    }
  }

  function MatchedColumns(fs: seq<Finding>): set<string> { set f <- fs :: f.columnName }

  predicate StrippedOf(fs: seq<Finding>, r: seq<Finding>)
  {
    && |r| == |fs|
    && forall k :: 0 <= k < |fs| ==>
         r[k] == fs[k].(primaryKeys := Retained(fs[k].primaryKeys, MatchedColumns(fs)))
  }

  method ScanColumn(ev: ScanEvent, col: string, matches: seq<Engine.Match>, l: Labels) returns (r: seq<Finding>)
    ensures r == ScopedFindings(ev, col, matches, l)
  {
    r := [];
    for i := 0 to |matches|
      invariant r == ScopedFindings(ev, col, matches[..i], l)
    {
      assert matches[..i + 1][..i] == matches[..i];
      var m := matches[i];
      if m.rule.scope.Some? && !Engine.ScopeMatches(m.rule.scope.value, ev.schemaName, ev.tableName, col) {
        continue;
      }
      r := r + [ToFinding(ev, col, m, l)];
    }
    assert matches[..|matches|] == matches;
  }

  method Scan(ghost lib: Engine.Library, ghost cs: seq<Engine.Config>, e: Engine.Engine, ev: ScanEvent,
              l: Labels, profiling: bool) returns (findings: seq<Finding>)
    requires Engine.SetFaithful(lib) && Engine.IsCompiled(lib, cs, e)
    ensures StrippedOf(Collected(e, ev, ev.columns, l), findings)
    ensures forall f :: f in findings <==> FindingOf(lib, cs, ev, l, MatchedColumns(findings), f)
  {
    hide Engine.SetFaithful, Engine.IsCompiled, Engine.Naive, ScopedFindings, IsScannableType, FindingOf;
    hide StrippedOf, MatchedColumns, Engine.ExpectedOf;
    findings := [];
    for i := 0 to |ev.columns|
      invariant findings == Collected(e, ev, ev.columns[..i], l)
    {
      assert ev.columns[..i + 1][..i] == ev.columns[..i];
      var c := ev.columns[i];
      if !IsScannableType(c.typeName) {
        continue;
      }
      if c.value.None? {
        continue;
      }
      var matches, samples := Engine.ScanValue(lib, cs, e, c.value.value, profiling);
      var scoped := ScanColumn(ev, c.name, matches, l);
      findings := findings + scoped;
    }
    assert ev.columns[..|ev.columns|] == ev.columns;
    findings := StripKeys(findings);
    forall f ensures f in findings <==> FindingOf(lib, cs, ev, l, MatchedColumns(findings), f) {
      FindingsExact(lib, cs, e, ev, l, findings, f);
    }
  }

  /** The second pass. */
  method StripKeys(found: seq<Finding>) returns (findings: seq<Finding>)
    ensures StrippedOf(found, findings)
  {
    findings := found;
    if found != [] {
      var matched := set f <- found :: f.columnName;
      for i := 0 to |findings|
        invariant |findings| == |found|
        invariant forall k :: i <= k < |found| ==> findings[k] == found[k]
        invariant forall k :: 0 <= k < i ==>
          findings[k] == found[k].(primaryKeys := Retained(found[k].primaryKeys, matched))
      {
        findings := findings[i := findings[i].(primaryKeys := Retained(findings[i].primaryKeys, matched))];
      }
    }
  }

  // ----- what the scanner guarantees

  lemma {:induction false} ScopedKeys(ev: ScanEvent, col: string, ms: seq<Engine.Match>, l: Labels)
    ensures forall f <- ScopedFindings(ev, col, ms, l) :: f.primaryKeys == ev.primaryKeys && f.columnName == col
  {
    if ms != [] {
      ScopedKeys(ev, col, ms[..|ms| - 1], l);
    }
  }

  lemma {:induction false} CollectedKeys(e: Engine.Engine, ev: ScanEvent, cols: seq<ColumnValue>, l: Labels)
    ensures forall f <- Collected(e, ev, cols, l) :: f.primaryKeys == ev.primaryKeys
  {
    hide ScopedFindings, Engine.Naive, IsScannableType;
    if cols != [] {
      var c := cols[|cols| - 1];
      CollectedKeys(e, ev, cols[..|cols| - 1], l);
      if c.value.Some? {
        ScopedKeys(ev, c.name, Engine.Naive(e.rules, c.value.value, e.phone), l);
      }
    }
  }

  /** No finding's primary keys name a column that any finding of the event matched; every
      other key pair survives, in order. */
  lemma KeysStripped(e: Engine.Engine, ev: ScanEvent, l: Labels, findings: seq<Finding>)
    requires StrippedOf(Collected(e, ev, ev.columns, l), findings)
    ensures forall f, g, kv :: f in findings && g in findings && kv in f.primaryKeys ==> kv.0 != g.columnName
    ensures forall f <- findings :: f.primaryKeys == Retained(ev.primaryKeys, MatchedColumns(findings))
  {
    var found := Collected(e, ev, ev.columns, l);
    CollectedKeys(e, ev, ev.columns, l);
    hide Collected;
    forall c ensures c in MatchedColumns(findings) <==> c in MatchedColumns(found) {
      if c in MatchedColumns(findings) {
        var k :| 0 <= k < |findings| && findings[k].columnName == c;
        assert found[k] in found;
      }
      if c in MatchedColumns(found) {
        var k :| 0 <= k < |found| && found[k].columnName == c;
        assert findings[k] in findings;
      }
    }
    assert MatchedColumns(findings) == MatchedColumns(found);
    forall f | f in findings ensures f.primaryKeys == Retained(ev.primaryKeys, MatchedColumns(findings)) {
      var k :| 0 <= k < |findings| && findings[k] == f;
      assert found[k] in found;
    }
  }

  // ----- every finding, in terms of event and configuration

  lemma {:induction false} ScopedExact(ev: ScanEvent, col: string, ms: seq<Engine.Match>, l: Labels, f: Finding)
    ensures f in ScopedFindings(ev, col, ms, l)
       <==> exists m :: m in ms && InScope(ev, col, m.rule) && f == ToFinding(ev, col, m, l)
  {
    hide InScope, ToFinding;
    if ms != [] {
      ScopedExact(ev, col, ms[..|ms| - 1], l, f);
      assert ms == ms[..|ms| - 1] + [ms[|ms| - 1]];
    }
  }

  lemma {:induction false} CollectedExact(e: Engine.Engine, ev: ScanEvent, cols: seq<ColumnValue>, l: Labels,
                                          f: Finding)
    ensures f in Collected(e, ev, cols, l)
       <==> exists k :: 0 <= k < |cols| && f in ColumnFindings(e, ev, cols[k], l)
  {
    hide ColumnFindings;
    if cols != [] {
      CollectedExact(e, ev, cols[..|cols| - 1], l, f);
    }
  }

  /** The finding stands for a text that a rule in scope finds in a scanned column of the event,
      and says so: where it was found, by which rule, how grave it is and where it goes. */
  ghost predicate Reports(lib: Engine.Library, c: Engine.Config, ev: ScanEvent, col: ColumnValue, text: bytes,
                          l: Labels, f: Finding)
  {
    && col.typeName !in NON_TEXT_TYPES && col.value.Some?
    && Engine.Finds(lib, c, col.value.value, text) && Engine.NotListed(lib, c, text)
    && (c.meta.scope.Some? ==> Engine.ScopeMatches(c.meta.scope.value, ev.schemaName, ev.tableName, col.name))
    && f.database == ev.database && f.schemaName == ev.schemaName && f.tableName == ev.tableName
    && f.columnName == col.name && f.lsn == ev.commitLsn
    && f.ruleId == c.meta.id && f.description == c.meta.description && f.category == c.meta.category
    && f.severity == c.meta.severity && f.channels == c.meta.channels
    && f.maskedSample == l.mask(text) && f.valueHash == l.hash(text)
  }

  lemma ToFindingExact(lib: Engine.Library, c: Engine.Config, ev: ScanEvent, col: ColumnValue, m: Engine.Match,
                       l: Labels, f: Finding)
    requires col.typeName !in NON_TEXT_TYPES && col.value.Some? && f.primaryKeys == ev.primaryKeys
    ensures m.rule == c.meta && Reports(lib, c, ev, col, m.text, l, f)
       <==> Engine.Expected(lib, c, col.value.value, m) && InScope(ev, col.name, m.rule)
            && f == ToFinding(ev, col.name, m, l)
  {
    hide Engine.Finds, Engine.NotListed, Engine.ScopeMatches;
  }

  ghost predicate ReportedIn(lib: Engine.Library, cs: seq<Engine.Config>, ev: ScanEvent, col: ColumnValue, l: Labels,
                             f: Finding)
  {
    exists i, text :: 0 <= i < |cs| && Reports(lib, cs[i], ev, col, text, l, f)
  }

  lemma ColumnExact(lib: Engine.Library, cs: seq<Engine.Config>, e: Engine.Engine, ev: ScanEvent, col: ColumnValue,
                    l: Labels, f: Finding)
    requires Engine.IsCompiled(lib, cs, e) && f.primaryKeys == ev.primaryKeys
    ensures f in ColumnFindings(e, ev, col, l) <==> ReportedIn(lib, cs, ev, col, l, f)
  {
    hide Reports, Engine.Naive, Engine.Expected, InScope, ToFinding, ScopedFindings;
    if IsScannableType(col.typeName) && col.value.Some? {
      var ms := Engine.Naive(e.rules, col.value.value, e.phone);
      ScopedExact(ev, col.name, ms, l, f);
      if f in ColumnFindings(e, ev, col, l) {
        var m :| m in ms && InScope(ev, col.name, m.rule) && f == ToFinding(ev, col.name, m, l);
        Engine.ResultsExact(lib, cs, col.value.value, m);
        var i :| 0 <= i < |cs| && Engine.Expected(lib, cs[i], col.value.value, m);
        ToFindingExact(lib, cs[i], ev, col, m, l, f);
      }
      if ReportedIn(lib, cs, ev, col, l, f) {
        var i, text :| 0 <= i < |cs| && Reports(lib, cs[i], ev, col, text, l, f);
        var m := Engine.Match(cs[i].meta, text);
        ToFindingExact(lib, cs[i], ev, col, m, l, f);
        Engine.ResultsExact(lib, cs, col.value.value, m);
      }
    } else {
      NotScanned(lib, cs, ev, col, l, f);
    }
  }

  lemma NotScanned(lib: Engine.Library, cs: seq<Engine.Config>, ev: ScanEvent, col: ColumnValue, l: Labels, f: Finding)
    requires !IsScannableType(col.typeName) || col.value.None?
    ensures !ReportedIn(lib, cs, ev, col, l, f)
  {
  }

  /** A rule reports the finding in some column, and its keys are those of the event less the
      matched columns. */
  ghost predicate FindingOf(lib: Engine.Library, cs: seq<Engine.Config>, ev: ScanEvent, l: Labels, matched: set<string>,
                            f: Finding)
  {
    && f.primaryKeys == Retained(ev.primaryKeys, matched)
    && exists k :: 0 <= k < |ev.columns| && ReportedIn(lib, cs, ev, ev.columns[k], l, f.(primaryKeys := ev.primaryKeys))
  }

  /** The findings of an event are, up to the stripped keys, exactly those that the rules of the
      configuration report in its columns. */
  lemma FindingsExact(lib: Engine.Library, cs: seq<Engine.Config>, e: Engine.Engine, ev: ScanEvent, l: Labels,
                      findings: seq<Finding>, f: Finding)
    requires Engine.IsCompiled(lib, cs, e) && StrippedOf(Collected(e, ev, ev.columns, l), findings)
    ensures f in findings <==> FindingOf(lib, cs, ev, l, MatchedColumns(findings), f)
  {
    var found := Collected(e, ev, ev.columns, l);
    var g := f.(primaryKeys := ev.primaryKeys);
    KeysStripped(e, ev, l, findings);
    CollectedKeys(e, ev, ev.columns, l);
    CollectedExact(e, ev, ev.columns, l, g);
    forall k | 0 <= k < |ev.columns|
      ensures g in ColumnFindings(e, ev, ev.columns[k], l) <==> ReportedIn(lib, cs, ev, ev.columns[k], l, g)
    {
      ColumnExact(lib, cs, e, ev, ev.columns[k], l, g);
    }
    hide Engine.IsCompiled, Collected, ColumnFindings, ReportedIn, Retained;
    StrippedBack(found, findings, ev.primaryKeys, f);
  }

  /** Stripping changes the keys only, so it can be undone. */
  lemma StrippedBack(found: seq<Finding>, findings: seq<Finding>, keys: seq<(string, bytes)>, f: Finding)
    requires StrippedOf(found, findings) && forall g <- found :: g.primaryKeys == keys
    requires forall g <- findings :: g.primaryKeys == Retained(keys, MatchedColumns(findings))
    ensures f in findings <==>
      f.primaryKeys == Retained(keys, MatchedColumns(findings)) && f.(primaryKeys := keys) in found
  {
    hide Retained, MatchedColumns;
    if f in findings {
      var k :| 0 <= k < |findings| && findings[k] == f;
      assert found[k] in found && f.(primaryKeys := keys) == found[k];
    }
    if f.primaryKeys == Retained(keys, MatchedColumns(findings)) && f.(primaryKeys := keys) in found {
      var k :| 0 <= k < |found| && found[k] == f.(primaryKeys := keys);
      assert findings[k] in findings;
      assert findings[k] == f;
    }
  }

  // ----- scope

  /** Findings of matches that have been filtered by scope before. */
  function AllFindings(ev: ScanEvent, col: string, ms: seq<Engine.Match>, l: Labels): seq<Finding>
  {
    if ms == [] then []
    else AllFindings(ev, col, ms[..|ms| - 1], l) + [ToFinding(ev, col, ms[|ms| - 1], l)]
  }

  lemma {:induction false} FilteredThenAll(ev: ScanEvent, col: string, ms: seq<Engine.Match>, l: Labels)
    ensures ScopedFindings(ev, col, ms, l)
         == AllFindings(ev, col, Engine.KeepMatches(ms, m => InScope(ev, col, m)), l)
  {
    if ms != [] {
      var p := m => InScope(ev, col, m);
      FilteredThenAll(ev, col, ms[..|ms| - 1], l);
      var kept := Engine.KeepMatches(ms, p);
      if p(ms[|ms| - 1].rule) {
        assert kept[..|kept| - 1] == Engine.KeepMatches(ms[..|ms| - 1], p);
      } else {
        assert kept == Engine.KeepMatches(ms[..|ms| - 1], p);
      }
    }
  }

  /** For every event and column: scanning with all rules and filtering by scope finds what
      an engine built from the in-scope rules alone finds. */
  lemma ScopeByCompilation(lib: Engine.Library, cs: seq<Engine.Config>, e: Engine.Engine, e': Engine.Engine,
                           ev: ScanEvent, c: ColumnValue, l: Labels)
    requires Engine.IsCompiled(lib, cs, e)
    requires Engine.IsCompiled(lib, Engine.KeepConfigs(cs, m => InScope(ev, c.name, m)), e')
    requires IsScannableType(c.typeName) && c.value.Some?
    ensures ColumnFindings(e, ev, c, l)
         == AllFindings(ev, c.name, Engine.Naive(e'.rules, c.value.value, e'.phone), l)
  {
    hide Engine.IsCompiled, ScopedFindings, AllFindings, Engine.Naive, Engine.KeepConfigs;
    var p := m => InScope(ev, c.name, m);
    Engine.ScopeCommutes(lib, cs, e, e', p, c.value.value);
    FilteredThenAll(ev, c.name, Engine.Naive(e.rules, c.value.value, e.phone), l);
  }
}
