/** The rule engine: compilation into index tables, the three-phase scan, and what both
    are worth against a naive evaluation rule by rule. */
module Engine {
  import opened Findings
  import opened Option
  import opened Utf8
  import CreditCard
  import Detectors
  import Email
  import EmailDetector
  import Iban
  import IbanDetector
  import Luhn
  import Phone
  import Ssn

  // ----- configuration

  datatype RuleType = Regex | Builtin | Script

  /** A list of patterns: its raw form and whether it matches. */
  datatype Matcher = Matcher(raw: seq<string>, isMatch: string -> bool)

  datatype Scope = Scope(includeSchemas: Matcher, includeTables: Matcher, excludeTables: Matcher,
                         includeColumns: Matcher, excludeColumns: Matcher)

  predicate ScopeMatches(s: Scope, schema: string, table: string, column: string)
  {
    && (s.includeSchemas.raw == [] || s.includeSchemas.isMatch(schema))
    && (s.includeTables.raw == [] || s.includeTables.isMatch(table))
    && !s.excludeTables.isMatch(table)
    && (s.includeColumns.raw == [] || s.includeColumns.isMatch(column))
    && !s.excludeColumns.isMatch(column)
  }

  /** No table and no column both included and excluded. */
  predicate ScopeConsistent(s: Scope)
  {
    && (forall t <- s.includeTables.raw :: t !in s.excludeTables.raw)
    && (forall c <- s.includeColumns.raw :: c !in s.excludeColumns.raw)
  }

  datatype Allowlist = Allowlist(values: seq<bytes>, patterns: seq<string>)

  datatype Metadata = Metadata(id: string, description: string, category: string, severity: Severity,
                               ruleType: RuleType, scope: Option<Scope>, channels: Option<seq<string>>)

  datatype Config = Config(meta: Metadata, pattern: Option<string>, validate: Option<Detectors.Validator>,
                           builtin: Option<Detectors.Detector>, script: Option<string>,
                           allowlist: Option<Allowlist>)

  // ----- the libraries

  /** Compilers of the regular-expression and script libraries, any of which may fail, and
      the phone-number check. A regex yields its first match; a regex set the indices of
      its matching patterns; a script its matches, or none if it fails at run time. */
  datatype Library = Library(
    regex: string -> Option<bytes -> Option<Text>>,
    regexSet: seq<string> -> Option<bytes -> seq<nat>>,
    script: string -> Option<bytes -> Option<seq<bytes>>>,
    phone: bytes -> bool)

  predicate Increasing(s: seq<nat>) { forall i, j :: 0 <= i < j < |s| ==> s[i] < s[j] }

  /** The one assumption about them: the set matches pattern k exactly if the k-th regex
      finds a match, and lists the matching patterns in increasing order. */
  ghost predicate SetFaithful(lib: Library)
  {
    forall patterns: seq<string>, v: bytes ::
      lib.regexSet(patterns).Some? && (forall k :: 0 <= k < |patterns| ==> lib.regex(patterns[k]).Some?)
      ==> SetMatches(lib, patterns, lib.regexSet(patterns).value(v), v)
  }

  predicate SetMatches(lib: Library, patterns: seq<string>, indices: seq<nat>, v: bytes)
    requires forall k :: 0 <= k < |patterns| ==> lib.regex(patterns[k]).Some?
  {
    && Increasing(indices)
    && (forall k :: 0 <= k < |patterns| ==> (k in indices <==> lib.regex(patterns[k]).value(v).Some?))
    && (forall k <- indices :: k < |patterns|)
  }

  // ----- compilation

  datatype Kind =
    | RegexKind(find: bytes -> Option<Text>, validator: Option<Detectors.Validator>)
    | BuiltinKind(detector: Detectors.Detector)
    | ScriptKind(run: bytes -> Option<seq<bytes>>)

  /** A compiled allowlist: literal values and a set of patterns. */
  datatype CompiledAllowlist = CompiledAllowlist(values: set<bytes>, patterns: bytes -> seq<nat>)

  datatype Rule = Rule(meta: Metadata, kind: Kind, allowlist: Option<CompiledAllowlist>)

  datatype Error = BadScope | MissingField | BadPattern | BadScript | BadAllowlist | BadSet

  datatype Result<T> = Ok(value: T) | Err(error: Error)

  function CompileKind(lib: Library, c: Config): Result<Kind>
  {
    match c.meta.ruleType
    case Regex =>
      if c.pattern.None? then Err(MissingField)
      else if lib.regex(c.pattern.value).None? then Err(BadPattern)
      else Ok(RegexKind(lib.regex(c.pattern.value).value, c.validate))
    case Builtin =>
      if c.builtin.None? then Err(MissingField) else Ok(BuiltinKind(c.builtin.value))
    case Script =>
      if c.script.None? then Err(MissingField)
      else if lib.script(c.script.value).None? then Err(BadScript)
      else Ok(ScriptKind(lib.script(c.script.value).value))
  }

  function CompileAllowlist(lib: Library, a: Option<Allowlist>): Result<Option<CompiledAllowlist>>
  {
    match a
    case None => Ok(None)
    case Some(al) =>
      match lib.regexSet(al.patterns)
      case None => Err(BadAllowlist)
      case Some(set_) => Ok(Some(CompiledAllowlist((set x | x in al.values), set_)))
  }

  /** One rule on its own. */
  function Compile(lib: Library, c: Config): Result<Rule>
  {
    if c.meta.scope.Some? && !ScopeConsistent(c.meta.scope.value) then Err(BadScope)
    else match CompileKind(lib, c)
      case Err(e) => Err(e)
      case Ok(kind) =>
        match CompileAllowlist(lib, c.allowlist)
        case Err(e) => Err(e)
        case Ok(allowlist) => Ok(Rule(c.meta, kind, allowlist))
  }

  /** All rules in order, or the first error. */
  function CompileAll(lib: Library, cs: seq<Config>): (r: Result<seq<Rule>>)
    ensures r.Ok? ==> |r.value| == |cs|
    ensures r.Ok? ==> forall i :: 0 <= i < |cs| ==> Compile(lib, cs[i]) == Ok(r.value[i])
  {
    if cs == [] then Ok([])
    else match CompileAll(lib, cs[..|cs| - 1])
      case Err(e) => Err(e)
      case Ok(rules) =>
        match Compile(lib, cs[|cs| - 1])
        case Err(e) => Err(e)
        case Ok(rule) => Ok(rules + [rule])
  }

  /** What a rule must bring to compile: a scope without contradiction, the field of its type,
      valid for its library, and valid allowlist patterns. */
  predicate WellFormed(lib: Library, c: Config)
  {
    && (c.meta.scope.Some? ==>
          && (forall t <- c.meta.scope.value.includeTables.raw :: t !in c.meta.scope.value.excludeTables.raw)
          && (forall k <- c.meta.scope.value.includeColumns.raw :: k !in c.meta.scope.value.excludeColumns.raw))
    && (c.meta.ruleType.Regex? ==> c.pattern.Some? && lib.regex(c.pattern.value).Some?)
    && (c.meta.ruleType.Builtin? ==> c.builtin.Some?)
    && (c.meta.ruleType.Script? ==> c.script.Some? && lib.script(c.script.value).Some?)
    && (c.allowlist.Some? ==> lib.regexSet(c.allowlist.value.patterns).Some?)
  }

  /** A configuration compiles exactly if each of its rules is well formed. */
  lemma {:induction false} CompilesExactly(lib: Library, cs: seq<Config>)
    ensures CompileAll(lib, cs).Ok? <==> forall i :: 0 <= i < |cs| ==> WellFormed(lib, cs[i])
  {
    hide Compile, WellFormed;
    if cs != [] {
      CompilesExactly(lib, cs[..|cs| - 1]);
      CompilesOne(lib, cs[|cs| - 1]);
    }
  }

  lemma CompilesOne(lib: Library, c: Config)
    ensures Compile(lib, c).Ok? <==> WellFormed(lib, c)
  {
  }

  /** The positions of the rules of one type. */
  function Table(cs: seq<Config>, t: RuleType): (r: seq<nat>)
    ensures forall k :: 0 <= k < |r| ==> r[k] < |cs|
  {
    if cs == [] then []
    else Table(cs[..|cs| - 1], t) + if cs[|cs| - 1].meta.ruleType == t then [|cs| - 1] else []
  }

  function Patterns(cs: seq<Config>): seq<string>
  {
    if cs == [] then []
    else
      var c := cs[|cs| - 1];
      Patterns(cs[..|cs| - 1]) + if c.meta.ruleType.Regex? && c.pattern.Some? then [c.pattern.value] else []
  }

  datatype Engine = Engine(rules: seq<Rule>, regexSet: bytes -> seq<nat>, regexIndices: seq<nat>,
                           builtinIndices: seq<nat>, scriptIndices: seq<nat>, phone: bytes -> bool)

  /** The engine that a configuration compiles to. */
  ghost predicate IsCompiled(lib: Library, cs: seq<Config>, e: Engine)
  {
    && CompileAll(lib, cs) == Ok(e.rules)
    && lib.regexSet(Patterns(cs)) == Some(e.regexSet)
    && e.regexIndices == Table(cs, Regex)
    && e.builtinIndices == Table(cs, Builtin)
    && e.scriptIndices == Table(cs, Script)
    && e.phone == lib.phone
  }

  method New(lib: Library, configs: seq<Config>) returns (r: Result<Engine>)
    ensures r.Ok? ==> IsCompiled(lib, configs, r.value)
    ensures r.Err? ==> match CompileAll(lib, configs)
      case Err(e) => r.error == e
      case Ok(_) => r.error == BadSet && lib.regexSet(Patterns(configs)).None?
  {
    var rules: seq<Rule>, patterns: seq<string> := [], [];
    var regexIndices: seq<nat>, builtinIndices: seq<nat>, scriptIndices: seq<nat> := [], [], [];
    for i := 0 to |configs|
      invariant CompileAll(lib, configs[..i]) == Ok(rules)
      invariant patterns == Patterns(configs[..i])
      invariant regexIndices == Table(configs[..i], Regex)
      invariant builtinIndices == Table(configs[..i], Builtin)
      invariant scriptIndices == Table(configs[..i], Script)
    {
      var c := configs[i];
      assert configs[..i + 1][..i] == configs[..i];
      if c.meta.scope.Some? && !ScopeConsistent(c.meta.scope.value) {
        FirstError(lib, configs, i);
        return Err(BadScope);
      }
      var kind := CompileKind(lib, c);
      if kind.Err? {
        FirstError(lib, configs, i);
        return Err(kind.error);
      }
      match c.meta.ruleType {
        case Regex =>
          patterns := patterns + [c.pattern.value];
          regexIndices := regexIndices + [i];
        case Builtin =>
          builtinIndices := builtinIndices + [i];
        case Script =>
          scriptIndices := scriptIndices + [i];
      }
      var allowlist := CompileAllowlist(lib, c.allowlist);
      if allowlist.Err? {
        FirstError(lib, configs, i);
        return Err(allowlist.error);
      }
      rules := rules + [Rule(c.meta, kind.value, allowlist.value)];
    }
    assert configs[..|configs|] == configs;
    var regexSet := lib.regexSet(patterns);
    r := if regexSet.None? then Err(BadSet)
         else Ok(Engine(rules, regexSet.value, regexIndices, builtinIndices, scriptIndices, lib.phone));
  }

  /** The first rule that fails to compile decides the error. */
  lemma {:induction false} FirstError(lib: Library, cs: seq<Config>, i: nat)
    requires i < |cs| && CompileAll(lib, cs[..i]).Ok? && Compile(lib, cs[i]).Err?
    ensures CompileAll(lib, cs) == Err(Compile(lib, cs[i]).error)
  {
    hide Compile;
    var n := |cs| - 1;
    if i < n {
      assert cs[..n][..i] == cs[..i];
      FirstError(lib, cs[..n], i);
    }
  }

  // ----- the naive evaluation

  datatype Match = Match(rule: Metadata, text: bytes)

  predicate Allowed(r: Rule, text: bytes)
  {
    r.allowlist.Some? && (text in r.allowlist.value.values || r.allowlist.value.patterns(text) != [])
  }

  /** The texts that the allowlist does not suppress, as matches of the rule. */
  function Unsuppressed(r: Rule, texts: seq<bytes>): seq<Match>
  {
    if texts == [] then []
    else
      var t := texts[|texts| - 1];
      Unsuppressed(r, texts[..|texts| - 1]) + if Allowed(r, t) then [] else [Match(r.meta, t)]
  }

  /** What one rule finds. */
  function RuleMatches(r: Rule, v: bytes, phone: bytes -> bool): seq<Match>
  {
    match r.kind
    case RegexKind(find, validator) => (
      match find(v)
      case None => []
      case Some(text) =>
        if validator.Some? && !Detectors.Valid(validator.value, text, phone) then []
        else if Allowed(r, text) then []
        else [Match(r.meta, text)])
    case BuiltinKind(d) => Unsuppressed(r, Detectors.Reports(d, v, phone))
    case ScriptKind(run) => (
      match run(v)
      case None => []
      case Some(texts) => Unsuppressed(r, texts))
  }

  /** The matches of all rules of one type, in configuration order. */
  function Phase(rules: seq<Rule>, t: RuleType, v: bytes, phone: bytes -> bool): seq<Match>
  {
    if rules == [] then []
    else
      var r := rules[|rules| - 1];
      Phase(rules[..|rules| - 1], t, v, phone) + if r.meta.ruleType == t then RuleMatches(r, v, phone) else []
  }

  /** Regex rules, then builtin rules, then script rules. */
  function Naive(rules: seq<Rule>, v: bytes, phone: bytes -> bool): seq<Match>
  {
    Phase(rules, Regex, v, phone) + Phase(rules, Builtin, v, phone) + Phase(rules, Script, v, phone)
  }

  // ----- the results, in terms of the configuration

  /** What the validator of a regex rule demands of a text. */
  predicate Passes(validate: Option<Detectors.Validator>, text: bytes, phone: bytes -> bool)
  {
    match validate
    case None => true
    case Some(LuhnCheck) => Luhn.Accepts(text)
    case Some(SsnCheck) => Ssn.Accepts(text)
    case Some(PhoneCheck) => phone(text)
    case Some(EmailCheck) => Email.Accepts(text)
    case Some(IbanCheck) => Iban.Accepts(text)
  }

  /** The text is what a span reported by the detector covers. */
  ghost predicate Detected(d: Detectors.Detector, v: bytes, text: bytes, phone: bytes -> bool)
  {
    exists p: Span :: Within(v, p) && text == v[p.start..p.end] &&
      match d
      case CreditCardDetector => p in CreditCard.Spans(v, 0)
      case EmailDetector => p in EmailDetector.Spans(v, 0)
      case IbanDetector => p in IbanDetector.Spans(IbanDetector.Registered, v, 0)
      case PhoneDetector => p in Phone.Spans(v, 0, phone)
      case SsnDetector => p in Ssn.Spans(v, 0)
  }

  /** A regex rule finds its first match if it passes the validator, a builtin rule what its
      detector reports, a script rule what the script returns. */
  ghost predicate Finds(lib: Library, c: Config, v: bytes, text: bytes)
  {
    match c.meta.ruleType
    case Regex =>
      && c.pattern.Some? && lib.regex(c.pattern.value).Some?
      && lib.regex(c.pattern.value).value(v) == Some(text) && Passes(c.validate, text, lib.phone)
    case Builtin => c.builtin.Some? && Detected(c.builtin.value, v, text, lib.phone)
    case Script =>
      && c.script.Some? && lib.script(c.script.value).Some?
      && lib.script(c.script.value).value(v).Some? && text in lib.script(c.script.value).value(v).value
  }

  /** The allowlist holds neither the text nor a pattern that matches it. */
  predicate NotListed(lib: Library, c: Config, text: bytes)
  {
    c.allowlist.Some? ==>
      && text !in c.allowlist.value.values
      && lib.regexSet(c.allowlist.value.patterns).Some? && lib.regexSet(c.allowlist.value.patterns).value(text) == []
  }

  ghost predicate Expected(lib: Library, c: Config, v: bytes, m: Match)
  {
    m.rule == c.meta && Finds(lib, c, v, m.text) && NotListed(lib, c, m.text)
  }

  lemma {:induction false} UnsuppressedExact(r: Rule, texts: seq<bytes>, m: Match)
    ensures m in Unsuppressed(r, texts) <==> m.rule == r.meta && m.text in texts && !Allowed(r, m.text)
  {
    if texts != [] {
      UnsuppressedExact(r, texts[..|texts| - 1], m);
      assert texts == texts[..|texts| - 1] + [texts[|texts| - 1]];
    }
  }

  /** The texts keep their order. */
  lemma {:induction false} UnsuppressedInOrder(r: Rule, texts: seq<bytes>) returns (at: seq<nat>)
    ensures var ms := Unsuppressed(r, texts);
      && |at| == |ms|
      && (forall k :: 0 <= k < |ms| ==> at[k] < |texts| && ms[k] == Match(r.meta, texts[at[k]]))
      && (forall j, k :: 0 <= j < k < |at| ==> at[j] < at[k])
      && (forall i :: 0 <= i < |texts| && !Allowed(r, texts[i]) ==> i in at)
  {
    hide Allowed;
    if texts == [] {
      at := [];
    } else {
      at := UnsuppressedInOrder(r, texts[..|texts| - 1]);
      if !Allowed(r, texts[|texts| - 1]) {
        at := at + [|texts| - 1];
      }
    }
  }

  lemma ReportsExact(d: Detectors.Detector, v: bytes, text: bytes, phone: bytes -> bool)
    ensures text in Detectors.Reports(d, v, phone) <==> Detected(d, v, text, phone)
  {
    var spans := match d
      case CreditCardDetector => CreditCard.Spans(v, 0)
      case EmailDetector => EmailDetector.Spans(v, 0)
      case IbanDetector => IbanDetector.Spans(IbanDetector.Registered, v, 0)
      case PhoneDetector => Phone.Spans(v, 0, phone)
      case SsnDetector => Ssn.Spans(v, 0);
    hide CreditCard.Spans, EmailDetector.Spans, IbanDetector.Spans, Phone.Spans, Ssn.Spans, Texts;
    assert Detectors.Reports(d, v, phone) == Texts(v, spans);
    TextsExact(v, spans, text);
  }

  lemma TextsExact(v: bytes, spans: seq<Span>, text: bytes)
    requires forall k :: 0 <= k < |spans| ==> Within(v, spans[k])
    ensures text in Texts(v, spans) <==> exists p: Span :: p in spans && Within(v, p) && text == v[p.start..p.end]
  {
    hide Texts;
    if text in Texts(v, spans) {
      var k :| 0 <= k < |spans| && Texts(v, spans)[k] == text;
      assert spans[k] in spans;
    }
    if p: Span :| p in spans && Within(v, p) && text == v[p.start..p.end] {
      var k :| 0 <= k < |spans| && spans[k] == p;
      assert Texts(v, spans)[k] == text;
    }
  }

  lemma AllowedExact(lib: Library, c: Config, text: bytes)
    requires Compile(lib, c).Ok?
    ensures Allowed(Compile(lib, c).value, text) <==> !NotListed(lib, c, text)
  {
  }

  lemma RuleExact(lib: Library, c: Config, v: bytes, m: Match)
    requires Compile(lib, c).Ok?
    ensures m in RuleMatches(Compile(lib, c).value, v, lib.phone) <==> Expected(lib, c, v, m)
  {
    var r := Compile(lib, c).value;
    CompiledMeta(lib, c);
    AllowedExact(lib, c, m.text);
    CompiledScript(lib, c);
    hide Compile, Allowed, NotListed, Detected;
    match r.kind
    case RegexKind(find, validator) => PassesExact(c.validate, m.text, lib.phone);
    case BuiltinKind(d) =>
      UnsuppressedExact(r, Detectors.Reports(d, v, lib.phone), m);
      ReportsExact(d, v, m.text, lib.phone);
    case ScriptKind(run) =>
      if run(v).Some? {
        UnsuppressedExact(r, run(v).value, m);
      }
  }

  lemma PassesExact(validate: Option<Detectors.Validator>, text: bytes, phone: bytes -> bool)
    ensures Passes(validate, text, phone) <==> validate.None? || Detectors.Valid(validate.value, text, phone)
  {
  }

  lemma CompiledScript(lib: Library, c: Config)
    requires Compile(lib, c).Ok?
    ensures c.meta.ruleType.Builtin? ==> c.builtin.Some? && Compile(lib, c).value.kind == BuiltinKind(c.builtin.value)
    ensures c.meta.ruleType.Script? ==>
      && c.script.Some? && lib.script(c.script.value).Some?
      && Compile(lib, c).value.kind == ScriptKind(lib.script(c.script.value).value)
  {
  }

  lemma {:induction false} PhaseExact(lib: Library, cs: seq<Config>, t: RuleType, v: bytes, m: Match)
    requires CompileAll(lib, cs).Ok?
    ensures m in Phase(CompileAll(lib, cs).value, t, v, lib.phone)
       <==> exists i :: 0 <= i < |cs| && cs[i].meta.ruleType == t && Expected(lib, cs[i], v, m)
  {
    hide Compile, RuleMatches, Expected;
    if cs != [] {
      var n := |cs| - 1;
      PhaseExact(lib, cs[..n], t, v, m);
      CompiledMeta(lib, cs[n]);
      RuleExact(lib, cs[n], v, m);
      var rules := CompileAll(lib, cs).value;
      assert rules[..n] == CompileAll(lib, cs[..n]).value;
    }
  }

  /** Which matches there are, for every text and configuration. */
  ghost predicate ExpectedOf(lib: Library, cs: seq<Config>, v: bytes, m: Match)
  {
    exists i :: 0 <= i < |cs| && Expected(lib, cs[i], v, m)
  }

  lemma ResultsExact(lib: Library, cs: seq<Config>, v: bytes, m: Match)
    requires CompileAll(lib, cs).Ok?
    ensures m in Naive(CompileAll(lib, cs).value, v, lib.phone) <==> ExpectedOf(lib, cs, v, m)
  {
    hide Expected, Phase, CompileAll;
    PhaseExact(lib, cs, Regex, v, m);
    PhaseExact(lib, cs, Builtin, v, m);
    PhaseExact(lib, cs, Script, v, m);
    if ExpectedOf(lib, cs, v, m) {
      var i :| 0 <= i < |cs| && Expected(lib, cs[i], v, m);
      assert cs[i].meta.ruleType in {Regex, Builtin, Script};
    }
  }

  // ----- the order of the results

  function Turn(t: RuleType): nat { match t case Regex => 0 case Builtin => 1 case Script => 2 }

  /** `origin` tells of each match which configured rule it comes from: all of regex rules before
      those of builtin rules before those of script rules, and within each in the order of the
      configuration. */
  ghost predicate Ordered(lib: Library, cs: seq<Config>, v: bytes, ms: seq<Match>, origin: seq<nat>)
  {
    && |origin| == |ms|
    && (forall k :: 0 <= k < |ms| ==> origin[k] < |cs| && Expected(lib, cs[origin[k]], v, ms[k]))
    && forall j, k :: 0 <= j < k < |ms| ==>
         var s, t := Turn(ms[j].rule.ruleType), Turn(ms[k].rule.ruleType); s < t || (s == t && origin[j] <= origin[k])
  }

  /** The same for one phase. */
  ghost predicate OrderedPhase(lib: Library, cs: seq<Config>, t: RuleType, v: bytes, ms: seq<Match>, origin: seq<nat>)
  {
    && |origin| == |ms|
    && (forall k :: 0 <= k < |ms| ==>
          origin[k] < |cs| && Expected(lib, cs[origin[k]], v, ms[k]) && ms[k].rule.ruleType == t)
    && forall j, k :: 0 <= j < k < |ms| ==> origin[j] <= origin[k]
  }

  lemma {:induction false} PhaseOrdered(lib: Library, cs: seq<Config>, t: RuleType, v: bytes) returns (origin: seq<nat>)
    requires CompileAll(lib, cs).Ok?
    ensures OrderedPhase(lib, cs, t, v, Phase(CompileAll(lib, cs).value, t, v, lib.phone), origin)
  {
    hide Compile, RuleMatches, Expected;
    if cs == [] {
      origin := [];
    } else {
      var n := |cs| - 1;
      var rules := CompileAll(lib, cs).value;
      assert rules[..n] == CompileAll(lib, cs[..n]).value;
      origin := PhaseOrdered(lib, cs[..n], t, v);
      CompiledMeta(lib, cs[n]);
      if cs[n].meta.ruleType == t {
        var more := RuleMatches(rules[n], v, lib.phone);
        forall m | m in more ensures Expected(lib, cs[n], v, m) && m.rule.ruleType == t {
          RuleExact(lib, cs[n], v, m);
          ExpectedMeta(lib, cs[n], v, m);
        }
        OrderedMore(lib, cs, t, v, Phase(rules[..n], t, v, lib.phone), origin, more);
        origin := origin + seq(|more|, _ => n);
      } else {
        OrderedMore(lib, cs, t, v, Phase(rules[..n], t, v, lib.phone), origin, []);
        assert origin + seq(0, _ => n) == origin;
        assert Phase(rules[..n], t, v, lib.phone) + [] == Phase(rules[..n], t, v, lib.phone);
      }
    }
  }

  lemma OrderedMore(lib: Library, cs: seq<Config>, t: RuleType, v: bytes, ms: seq<Match>, origin: seq<nat>,
                    more: seq<Match>)
    requires cs != [] && OrderedPhase(lib, cs[..|cs| - 1], t, v, ms, origin)
    requires forall m :: m in more ==> Expected(lib, cs[|cs| - 1], v, m) && m.rule.ruleType == t
    ensures OrderedPhase(lib, cs, t, v, ms + more, origin + seq(|more|, _ => |cs| - 1))
  {
    hide Expected;
    assert forall i :: 0 <= i < |more| ==> more[i] in more;
  }

  lemma ExpectedMeta(lib: Library, c: Config, v: bytes, m: Match)
    requires Expected(lib, c, v, m)
    ensures m.rule == c.meta
  {
  }

  lemma ResultsOrdered(lib: Library, cs: seq<Config>, v: bytes) returns (origin: seq<nat>)
    requires CompileAll(lib, cs).Ok?
    ensures Ordered(lib, cs, v, Naive(CompileAll(lib, cs).value, v, lib.phone), origin)
  {
    hide Expected, Phase, CompileAll;
    var a := PhaseOrdered(lib, cs, Regex, v);
    var b := PhaseOrdered(lib, cs, Builtin, v);
    var c := PhaseOrdered(lib, cs, Script, v);
    origin := a + b + c;
  }

  // ----- the tables

  /** The matches of the rules that a table lists. */
  function Listed(rules: seq<Rule>, table: seq<nat>, v: bytes, phone: bytes -> bool): seq<Match>
    requires forall k :: 0 <= k < |table| ==> table[k] < |rules|
  {
    if table == [] then []
    else Listed(rules, table[..|table| - 1], v, phone) + RuleMatches(rules[table[|table| - 1]], v, phone)
  }

  /** The three tables are increasing, and list each rule exactly under its own type, so
      they are disjoint and cover all rules. */
  lemma {:induction false} TablesPartition(cs: seq<Config>, t: RuleType)
    ensures Increasing(Table(cs, t))
    ensures forall i :: i in Table(cs, t) <==> 0 <= i < |cs| && cs[i].meta.ruleType == t
  {
    if cs != [] {
      TablesPartition(cs[..|cs| - 1], t);
    }
  }

  lemma CompiledMeta(lib: Library, c: Config)
    requires Compile(lib, c).Ok?
    ensures Compile(lib, c).value.meta == c.meta
    ensures match c.meta.ruleType
      case Regex => c.pattern.Some? && lib.regex(c.pattern.value).Some?
                    && Compile(lib, c).value.kind == RegexKind(lib.regex(c.pattern.value).value, c.validate)
      case Builtin => Compile(lib, c).value.kind.BuiltinKind?
      case Script => Compile(lib, c).value.kind.ScriptKind?
  {
  }

  /** Going through a table is going through the rules of its type. */
  lemma {:induction false} ListedIsPhase(lib: Library, cs: seq<Config>, t: RuleType, v: bytes, phone: bytes -> bool)
    requires CompileAll(lib, cs).Ok?
    ensures Listed(CompileAll(lib, cs).value, Table(cs, t), v, phone) == Phase(CompileAll(lib, cs).value, t, v, phone)
  {
    hide Compile, RuleMatches;
    if cs != [] {
      var n := |cs| - 1;
      var rules, before := CompileAll(lib, cs).value, CompileAll(lib, cs[..n]).value;
      ListedIsPhase(lib, cs[..n], t, v, phone);
      assert rules[..n] == before;
      ListedPrefix(before, rules, Table(cs[..n], t), v, phone);
      CompiledMeta(lib, cs[n]);
      var table := Table(cs, t);
      if cs[n].meta.ruleType == t {
        assert table[..|table| - 1] == Table(cs[..n], t);
      } else {
        assert table == Table(cs[..n], t);
      }
    }
  }

  lemma {:induction false} ListedPrefix(a: seq<Rule>, b: seq<Rule>, table: seq<nat>, v: bytes, phone: bytes -> bool)
    requires |a| <= |b| && a == b[..|a|] && forall k :: 0 <= k < |table| ==> table[k] < |a|
    ensures Listed(a, table, v, phone) == Listed(b, table, v, phone)
  {
    hide RuleMatches;
    if table != [] {
      ListedPrefix(a, b, table[..|table| - 1], v, phone);
    }
  }

  /** The k-th pattern of the set belongs to the k-th rule of the regex table. */
  lemma {:induction false} PatternsOfTable(lib: Library, cs: seq<Config>)
    requires CompileAll(lib, cs).Ok?
    ensures |Patterns(cs)| == |Table(cs, Regex)|
    ensures forall k :: 0 <= k < |Patterns(cs)| ==>
      lib.regex(Patterns(cs)[k]).Some?
      && var c := cs[Table(cs, Regex)[k]]; c.meta.ruleType.Regex? && c.pattern == Some(Patterns(cs)[k])
  {
    hide Compile;
    if cs != [] {
      PatternsOfTable(lib, cs[..|cs| - 1]);
      CompiledMeta(lib, cs[|cs| - 1]);
    }
  }

  // ----- the scan

  /** A rule of the table that the set does not match finds nothing. */
  lemma UnmatchedFindsNothing(lib: Library, cs: seq<Config>, e: Engine, v: bytes, k: nat)
    requires SetFaithful(lib) && IsCompiled(lib, cs, e) && k < |e.regexIndices|
    ensures e.rules[e.regexIndices[k]].kind.RegexKind?
    ensures k in e.regexSet(v) <==> e.rules[e.regexIndices[k]].kind.find(v).Some?
    ensures k !in e.regexSet(v) ==> RuleMatches(e.rules[e.regexIndices[k]], v, e.phone) == []
  {
    hide Compile;
    PatternsOfTable(lib, cs);
    assert SetMatches(lib, Patterns(cs), e.regexSet(v), v);
    CompiledMeta(lib, cs[e.regexIndices[k]]);
  }

  lemma {:induction false} SkipUnmatched(lib: Library, cs: seq<Config>, e: Engine, v: bytes, a: nat, b: nat)
    requires SetFaithful(lib) && IsCompiled(lib, cs, e) && a <= b <= |e.regexIndices|
    requires forall k :: a <= k < b ==> k !in e.regexSet(v)
    ensures Listed(e.rules, e.regexIndices[..b], v, e.phone) == Listed(e.rules, e.regexIndices[..a], v, e.phone)
  {
    hide RuleMatches, IsCompiled, SetFaithful;
    if a < b {
      IndicesInRange(lib, cs, e);
      SkipUnmatched(lib, cs, e, v, a, b - 1);
      UnmatchedFindsNothing(lib, cs, e, v, b - 1);
      assert e.regexIndices[..b][..b - 1] == e.regexIndices[..b - 1];
    }
  }

  lemma IndicesInRange(lib: Library, cs: seq<Config>, e: Engine)
    requires IsCompiled(lib, cs, e)
    ensures forall k :: 0 <= k < |e.regexIndices| ==> e.regexIndices[k] < |e.rules|
    ensures forall k :: 0 <= k < |e.builtinIndices| ==> e.builtinIndices[k] < |e.rules|
    ensures forall k :: 0 <= k < |e.scriptIndices| ==> e.scriptIndices[k] < |e.rules|
  {
  }

  /** The indices not listed between two neighbours of an increasing list. */
  lemma GapUnlisted(indices: seq<nat>, p: nat, j: nat)
    requires Increasing(indices) && p <= |indices|
    requires (p > 0 ==> indices[p - 1] < j) && (p < |indices| ==> j < indices[p])
    ensures j !in indices
  {
    forall i | 0 <= i < |indices| ensures indices[i] != j {
    }
  }

  /** One rule of the first phase: find, validate, allowlist. */
  method MatchRegex(rule: Rule, value: bytes, phone: bytes -> bool) returns (r: seq<Match>)
    requires ValidUtf8(value) && rule.kind.RegexKind?
    ensures r == RuleMatches(rule, value, phone)
  {
    r := [];
    var found := rule.kind.find(value);
    if found.Some? {
      var text := found.value;
      if rule.kind.validator.Some? {
        var valid := Detectors.Validate(rule.kind.validator.value, text, phone);
        if !valid {
          return;
        }
      }
      if Allowed(rule, text) {
        return;
      }
      r := [Match(rule.meta, text)];
    }
  }

  /** The inner loop of the second and third phase. */
  method KeepUnsuppressed(rule: Rule, texts: seq<bytes>) returns (r: seq<Match>)
    ensures r == Unsuppressed(rule, texts)
  {
    r := [];
    for i := 0 to |texts|
      invariant r == Unsuppressed(rule, texts[..i])
    {
      assert texts[..i + 1][..i] == texts[..i];
      if Allowed(rule, texts[i]) {
        continue;
      }
      r := r + [Match(rule.meta, texts[i])];
    }
    assert texts[..|texts|] == texts;
  }

  /** Phase 1: the rules whose pattern the set matches, in order. */
  method RegexPhase(ghost lib: Library, ghost cs: seq<Config>, e: Engine, value: bytes, profiling: bool)
      returns (results: seq<Match>, samples: nat)
    requires SetFaithful(lib) && IsCompiled(lib, cs, e) && ValidUtf8(value)
    ensures results == Phase(e.rules, Regex, value, e.phone)
    ensures samples == if profiling then |e.regexSet(value)| + 1 else 0
  {
    hide *;
    var indices := e.regexSet(value);
    SetListsTable(lib, cs, e, value);
    results, samples := [], 0;
    ghost var upTo := 0;
    NothingListed(e, value);
    for p := 0 to |indices|
      invariant upTo == if p == 0 then 0 else indices[p - 1] + 1
      invariant upTo <= |e.regexIndices|
      invariant results == Listed(e.rules, e.regexIndices[..upTo], value, e.phone)
      invariant samples == if profiling then p else 0
    {
      var setIdx := indices[p];
      assert setIdx in indices;
      NextMatched(lib, cs, e, value, indices, p, upTo);
      var ruleIdx := e.regexIndices[setIdx];
      var rule := e.rules[ruleIdx];
      var found := MatchRegex(rule, value, e.phone);
      results := results + found;
      samples := if profiling then samples + 1 else samples;
      upTo := setIdx + 1;
    }
    LastMatched(lib, cs, e, value, indices, upTo);
    samples := if profiling then samples + 1 else samples;
  }

  lemma SetListsTable(lib: Library, cs: seq<Config>, e: Engine, v: bytes)
    requires SetFaithful(lib) && IsCompiled(lib, cs, e)
    ensures Increasing(e.regexSet(v)) && forall k <- e.regexSet(v) :: k < |e.regexIndices|
    ensures forall k :: 0 <= k < |e.regexIndices| ==> e.regexIndices[k] < |e.rules|
    ensures forall k :: 0 <= k < |e.regexIndices| ==> e.rules[e.regexIndices[k]].kind.RegexKind?
  {
    hide Compile, RuleMatches;
    IndicesInRange(lib, cs, e);
    PatternsOfTable(lib, cs);
    assert SetMatches(lib, Patterns(cs), e.regexSet(v), v);
    forall k | 0 <= k < |e.regexIndices| ensures e.rules[e.regexIndices[k]].kind.RegexKind? {
      UnmatchedFindsNothing(lib, cs, e, v, k);
    }
  }

  lemma NothingListed(e: Engine, v: bytes)
    ensures Listed(e.rules, e.regexIndices[..0], v, e.phone) == []
  {
  }

  /** One turn of the first phase: nothing is lost by jumping to the next matched rule. */
  lemma NextMatched(lib: Library, cs: seq<Config>, e: Engine, v: bytes, indices: seq<nat>, p: nat, upTo: nat)
    requires SetFaithful(lib) && IsCompiled(lib, cs, e) && indices == e.regexSet(v) && p < |indices|
    requires forall k <- indices :: k < |e.regexIndices|
    requires Increasing(indices) && upTo == (if p == 0 then 0 else indices[p - 1] + 1)
    requires forall k :: 0 <= k < |e.regexIndices| ==> e.regexIndices[k] < |e.rules|
    ensures indices[p] in indices && upTo <= indices[p] < |e.regexIndices|
    ensures Listed(e.rules, e.regexIndices[..indices[p] + 1], v, e.phone)
         == Listed(e.rules, e.regexIndices[..upTo], v, e.phone)
            + RuleMatches(e.rules[e.regexIndices[indices[p]]], v, e.phone)
  {
    hide RuleMatches, IsCompiled, SetFaithful;
    var k := indices[p];
    assert k in indices;
    forall j | upTo <= j < k ensures j !in indices {
      GapUnlisted(indices, p, j);
    }
    SkipUnmatched(lib, cs, e, v, upTo, k);
    assert e.regexIndices[..k + 1][..k] == e.regexIndices[..k];
  }

  /** After the last matched rule the phase is complete. */
  lemma LastMatched(lib: Library, cs: seq<Config>, e: Engine, v: bytes, indices: seq<nat>, upTo: nat)
    requires SetFaithful(lib) && IsCompiled(lib, cs, e) && indices == e.regexSet(v)
    requires Increasing(indices) && upTo == (if indices == [] then 0 else indices[|indices| - 1] + 1)
    requires upTo <= |e.regexIndices|
    requires forall k :: 0 <= k < |e.regexIndices| ==> e.regexIndices[k] < |e.rules|
    ensures Listed(e.rules, e.regexIndices[..upTo], v, e.phone) == Phase(e.rules, Regex, v, e.phone)
  {
    hide RuleMatches, SetFaithful, Compile;
    forall j | upTo <= j < |e.regexIndices| ensures j !in indices {
      GapUnlisted(indices, |indices|, j);
    }
    SkipUnmatched(lib, cs, e, v, upTo, |e.regexIndices|);
    assert e.regexIndices[..|e.regexIndices|] == e.regexIndices;
    ListedIsPhase(lib, cs, Regex, v, e.phone);
  }

  /** What a rule of the second or third phase finds, before the allowlist. */
  method Collect(rule: Rule, value: bytes, phone: bytes -> bool) returns (r: seq<Match>)
    requires ValidUtf8(value) && !rule.kind.RegexKind?
    ensures r == RuleMatches(rule, value, phone)
  {
    match rule.kind
    case BuiltinKind(detector) =>
      var texts := Detectors.Scan(detector, value, phone);
      r := KeepUnsuppressed(rule, texts);
    case ScriptKind(run) =>
      var texts := run(value);
      if texts.Some? {
        r := KeepUnsuppressed(rule, texts.value);
      } else {
        r := [];
      }
  }

  /** Phases 2 and 3: every rule of the table, in order. */
  method TablePhase(e: Engine, table: seq<nat>, value: bytes, profiling: bool)
      returns (results: seq<Match>, samples: nat)
    requires ValidUtf8(value)
    requires forall k :: 0 <= k < |table| ==> table[k] < |e.rules| && !e.rules[table[k]].kind.RegexKind?
    ensures results == Listed(e.rules, table, value, e.phone)
    ensures samples == if profiling then |table| + 1 else 0
  {
    hide RuleMatches;
    results, samples := [], 0;
    for i := 0 to |table|
      invariant results == Listed(e.rules, table[..i], value, e.phone)
      invariant samples == if profiling then i else 0
    {
      assert table[..i + 1][..i] == table[..i];
      var rule := e.rules[table[i]];
      var found := Collect(rule, value, e.phone);
      results := results + found;
      samples := if profiling then samples + 1 else samples;
    }
    assert table[..|table|] == table;
    samples := if profiling then samples + 1 else samples;
  }

  lemma TableKinds(lib: Library, cs: seq<Config>, e: Engine)
    requires IsCompiled(lib, cs, e)
    ensures forall i <- e.builtinIndices :: i < |e.rules| && e.rules[i].kind.BuiltinKind?
    ensures forall i <- e.scriptIndices :: i < |e.rules| && e.rules[i].kind.ScriptKind?
  {
    hide Compile;
    TablesPartition(cs, Builtin);
    TablesPartition(cs, Script);
    forall i | 0 <= i < |cs| ensures Compile(lib, cs[i]).Ok? {
    }
    forall i | i in e.builtinIndices ensures i < |e.rules| && e.rules[i].kind.BuiltinKind? {
      CompiledMeta(lib, cs[i]);
    }
    forall i | i in e.scriptIndices ensures i < |e.rules| && e.rules[i].kind.ScriptKind? {
      CompiledMeta(lib, cs[i]);
    }
  }

  /** The three phases return exactly the naive evaluation, profiled or not; profiling
      records one duration for each visited rule and one for each phase. */
  method ScanValue(ghost lib: Library, ghost cs: seq<Config>, e: Engine, value: bytes, profiling: bool)
      returns (results: seq<Match>, samples: nat)
    requires SetFaithful(lib) && IsCompiled(lib, cs, e) && ValidUtf8(value)
    ensures results == Naive(e.rules, value, e.phone)
    ensures forall m :: m in results <==> ExpectedOf(lib, cs, value, m)
    ensures samples ==
      if profiling then |e.regexSet(value)| + |e.builtinIndices| + |e.scriptIndices| + 3 else 0
  {
    hide RuleMatches, SetFaithful, Compile, Phase, Listed, CompileAll, Table, Patterns, ExpectedOf;
    TableKinds(lib, cs, e);
    var regex, regexSamples := RegexPhase(lib, cs, e, value, profiling);
    var builtin, builtinSamples := TablePhase(e, e.builtinIndices, value, profiling);
    var script, scriptSamples := TablePhase(e, e.scriptIndices, value, profiling);
    ListedIsPhase(lib, cs, Builtin, value, e.phone);
    ListedIsPhase(lib, cs, Script, value, e.phone);
    results := regex + builtin + script;
    forall m ensures m in results <==> ExpectedOf(lib, cs, value, m) {
      ResultsExact(lib, cs, value, m);
    }
    samples := regexSamples + builtinSamples + scriptSamples;
  }

  // ----- scope

  /** Out of scope is what an include list names otherwise, or an exclude list names. */
  lemma OutOfScope(s: Scope, schema: string, table: string, column: string)
    ensures !ScopeMatches(s, schema, table, column) <==>
      || (s.includeSchemas.raw != [] && !s.includeSchemas.isMatch(schema))
      || (s.includeTables.raw != [] && !s.includeTables.isMatch(table))
      || (s.includeColumns.raw != [] && !s.includeColumns.isMatch(column))
      || s.excludeTables.isMatch(table) || s.excludeColumns.isMatch(column)
  {
  }

  predicate InScope(m: Metadata, schema: string, table: string, column: string)
  {
    m.scope.None? || ScopeMatches(m.scope.value, schema, table, column)
  }

  function KeepMatches(ms: seq<Match>, p: Metadata -> bool): seq<Match>
  {
    if ms == [] then []
    else
      var m := ms[|ms| - 1];
      KeepMatches(ms[..|ms| - 1], p) + if p(m.rule) then [m] else []
  }

  function KeepRules(rules: seq<Rule>, p: Metadata -> bool): seq<Rule>
  {
    if rules == [] then []
    else
      var r := rules[|rules| - 1];
      KeepRules(rules[..|rules| - 1], p) + if p(r.meta) then [r] else []
  }

  function KeepConfigs(cs: seq<Config>, p: Metadata -> bool): seq<Config>
  {
    if cs == [] then []
    else
      var c := cs[|cs| - 1];
      KeepConfigs(cs[..|cs| - 1], p) + if p(c.meta) then [c] else []
  }

  lemma {:induction false} KeepAppend(a: seq<Match>, b: seq<Match>, p: Metadata -> bool)
    ensures KeepMatches(a + b, p) == KeepMatches(a, p) + KeepMatches(b, p)
  {
    if b == [] {
      assert a + b == a;
    } else {
      assert (a + b)[..|a + b| - 1] == a + b[..|b| - 1];
      KeepAppend(a, b[..|b| - 1], p);
    }
  }

  /** All matches of a rule carry its metadata, so they are kept or dropped together. */
  lemma KeepRuleMatches(r: Rule, v: bytes, phone: bytes -> bool, p: Metadata -> bool)
    ensures KeepMatches(RuleMatches(r, v, phone), p) == if p(r.meta) then RuleMatches(r, v, phone) else []
  {
    KeepAllOrNone(RuleMatches(r, v, phone), r.meta, p) by {
      match r.kind
      case RegexKind(find, validator) =>
      case BuiltinKind(d) => UnsuppressedMeta(r, Detectors.Reports(d, v, phone));
      case ScriptKind(run) =>
        if run(v).Some? {
          UnsuppressedMeta(r, run(v).value);
        }
    }
  }

  lemma {:induction false} UnsuppressedMeta(r: Rule, texts: seq<bytes>)
    ensures forall m <- Unsuppressed(r, texts) :: m.rule == r.meta
  {
    if texts != [] {
      UnsuppressedMeta(r, texts[..|texts| - 1]);
    }
  }

  lemma {:induction false} KeepAllOrNone(ms: seq<Match>, meta: Metadata, p: Metadata -> bool)
    requires forall m <- ms :: m.rule == meta
    ensures KeepMatches(ms, p) == if p(meta) then ms else []
  {
    if ms != [] {
      KeepAllOrNone(ms[..|ms| - 1], meta, p);
      assert ms == ms[..|ms| - 1] + [ms[|ms| - 1]];
    }
  }

  lemma {:induction false} KeepPhase(rules: seq<Rule>, t: RuleType, v: bytes, phone: bytes -> bool, p: Metadata -> bool)
    ensures KeepMatches(Phase(rules, t, v, phone), p) == Phase(KeepRules(rules, p), t, v, phone)
  {
    hide RuleMatches;
    if rules != [] {
      var before, r := rules[..|rules| - 1], rules[|rules| - 1];
      KeepPhase(before, t, v, phone, p);
      KeepRuleMatches(r, v, phone, p);
      KeepAppend(Phase(before, t, v, phone), if r.meta.ruleType == t then RuleMatches(r, v, phone) else [], p);
      if p(r.meta) {
        var kept := KeepRules(rules, p);
        assert kept[..|kept| - 1] == KeepRules(before, p);
      } else {
        assert KeepRules(rules, p) == KeepRules(before, p);
      }
    }
  }

  /** Compiling only the kept rules keeps the compiled rules. */
  lemma {:induction false} KeepCompiled(lib: Library, cs: seq<Config>, p: Metadata -> bool)
    requires CompileAll(lib, cs).Ok?
    ensures CompileAll(lib, KeepConfigs(cs, p)).Ok?
    ensures CompileAll(lib, KeepConfigs(cs, p)).value == KeepRules(CompileAll(lib, cs).value, p)
  {
    hide Compile;
    if cs != [] {
      var before, c := cs[..|cs| - 1], cs[|cs| - 1];
      KeepCompiled(lib, before, p);
      CompiledMeta(lib, c);
      var rules := CompileAll(lib, cs).value;
      assert rules[..|rules| - 1] == CompileAll(lib, before).value;
      if p(c.meta) {
        var kept := KeepConfigs(cs, p);
        assert kept[..|kept| - 1] == KeepConfigs(before, p);
      } else {
        assert KeepConfigs(cs, p) == KeepConfigs(before, p);
      }
    }
  }

  /** Scope commutes with compilation: filtering the matches of the full engine by scope
      gives the matches of the engine built from the in-scope rules only. */
  lemma ScopeCommutes(lib: Library, cs: seq<Config>, e: Engine, e': Engine, p: Metadata -> bool, v: bytes)
    requires IsCompiled(lib, cs, e) && IsCompiled(lib, KeepConfigs(cs, p), e')
    ensures KeepMatches(Naive(e.rules, v, e.phone), p) == Naive(e'.rules, v, e'.phone)
  {
    hide Phase, Table, Patterns, Compile;
    KeepCompiled(lib, cs, p);
    KeepPhase(e.rules, Regex, v, e.phone, p);
    KeepPhase(e.rules, Builtin, v, e.phone, p);
    KeepPhase(e.rules, Script, v, e.phone, p);
    var a, b := Phase(e.rules, Regex, v, e.phone), Phase(e.rules, Builtin, v, e.phone);
    var c := Phase(e.rules, Script, v, e.phone);
    KeepAppend(a, b, p);
    KeepAppend(a + b, c, p);
  }
}
