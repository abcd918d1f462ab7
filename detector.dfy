/**
 * The detection engine: interpolation of a single variable reference to a
 * plain string (`evalToString`), the issue-appending test rule
 * (`DetectMethodForTest`) and the detection pass (`Detect`), which runs
 * every registered rule that is not suppressed over the template and over
 * every module that is not suppressed.
 */
module Detector {
  import opened Wrappers
  import opened Values
  import opened Evaluator
  import opened Ast

  // ---------------------------------------------------------------------
  // evalToString
  // ---------------------------------------------------------------------

  /**
   * An interpolation source as the expression parser hands it over: a
   * single reference `${name}`, text without interpolation, or a string the
   * parser rejects.
   */
  datatype Expr =
    | Reference(name: string)
    | Text(text: string)
    | Malformed

  datatype EvalError =
    | ParseError
    | UnresolvedReference(name: string)
    | NotString

  /**
   * Evaluates an expression and accepts only a plain string result: a
   * reference must name a variable of the environment whose value is a
   * string; a list or a map is rejected.
   */
  function EvalToString(src: Expr, env: Env): (r: Result<string, EvalError>)
    ensures src.Malformed? ==> r == Err(ParseError)
    ensures src.Text? ==> r == Ok(src.text)
    ensures src.Reference? && src.name !in env ==> r == Err(UnresolvedReference(src.name))
    ensures src.Reference? && src.name in env ==>
      (r.Ok? <==> env[src.name].StringVar? && env[src.name].value.StringVal?)
      && (r.Ok? ==> r.value == env[src.name].value.s)
      && (r.Err? ==> r.error == NotString)
  {
    match src
    case Malformed => Err(ParseError)
    case Text(t) => Ok(t)
    case Reference(name) =>
      if name !in env then Err(UnresolvedReference(name))
      else
        match env[name]
        case StringVar(StringVal(s)) => Ok(s)
        case _ => Err(NotString)
  }

  /**
   * A reference to a variable whose last declaration with a default has a
   * string default evaluates to that string.
   */
  lemma EvalDeclaredString(docs: seq<Decoding>, i: nat, s: string)
    requires AllCoercible(docs)
    requires forall d :: 0 <= d < |docs| ==> docs[d].Decoded?
    requires i < |Declarations(docs)| && Declarations(docs)[i].default == Some(StringVal(s))
    requires forall j ::
      (i < j < |Declarations(docs)| && Declarations(docs)[j].name == Declarations(docs)[i].name)
      ==> Declarations(docs)[j].default.None?
    ensures Resolve(docs).Ok?
    ensures EvalToString(Reference(QualifiedName(Declarations(docs)[i].name)), Resolve(docs).value) == Ok(s)
  {
    ResolveLastWins(docs, i);
  }

  /**
   * A reference to a variable whose last declaration with a default has a
   * list or map default fails: the result is not a string.
   */
  lemma EvalDeclaredSlice(docs: seq<Decoding>, i: nat)
    requires AllCoercible(docs)
    requires forall d :: 0 <= d < |docs| ==> docs[d].Decoded?
    requires i < |Declarations(docs)| && Declarations(docs)[i].default.Some?
    requires Declarations(docs)[i].default.value.SliceVal?
    requires forall j ::
      (i < j < |Declarations(docs)| && Declarations(docs)[j].name == Declarations(docs)[i].name)
      ==> Declarations(docs)[j].default.None?
    ensures Resolve(docs).Ok?
    ensures EvalToString(Reference(QualifiedName(Declarations(docs)[i].name)), Resolve(docs).value)
         == Err(NotString)
  {
    ResolveLastWins(docs, i);
  }

  /**
   * A reference to a name that no declaration with a default carries fails
   * as unresolved, and resolving the documents raises no error for it.
   */
  lemma EvalUndeclared(docs: seq<Decoding>, name: string)
    requires AllCoercible(docs)
    requires forall d :: 0 <= d < |docs| ==> docs[d].Decoded?
    requires forall d, i ::
      (0 <= d < |docs| && docs[d].Decoded? && 0 <= i < |docs[d].variables|
       && docs[d].variables[i].name == name) ==> docs[d].variables[i].default.None?
    ensures Resolve(docs).Ok?
    ensures EvalToString(Reference(QualifiedName(name)), Resolve(docs).value)
         == Err(UnresolvedReference(QualifiedName(name)))
  {
    NoDefaultNeverStored(docs, name);
  }

  // ---------------------------------------------------------------------
  // Issues and rules
  // ---------------------------------------------------------------------

  /** One finding: its type, message, 1-based line and file (possibly empty). */
  datatype Issue = Issue(kind: string, message: string, line: int, file: string)

  /** The issue that the test rule reports. */
  const TestIssue := Issue("TEST", "this is test method", 1, "")

  /**
   * A registered check: the test method, or any other check, given as the
   * issues it reports for a set of parsed items and their environment.
   */
  datatype RuleMethod =
    | TestMethod
    | Plugged(check: (seq<Item>, Env) -> seq<Issue>)

  /** The registry entry: rule name -> method. */
  datatype Rule = Rule(name: string, detector: RuleMethod)

  /** Rule names and module sources that are suppressed for a run. */
  datatype Config = Config(ignoreRule: set<string>, ignoreModule: set<string>)

  /** A module called from the template: its source path, items and environment. */
  datatype Module = Module(source: string, items: seq<Item>, env: Env)

  /**
   * The state a detection pass runs on (the source's `Detector` struct): the
   * template's items and environment, the suppression config and the loaded
   * modules.
   */
  datatype Engine = Engine(items: seq<Item>, env: Env, config: Config, modules: seq<Module>)

  /** The issues that one invocation of a rule method appends. */
  function Emitted(m: RuleMethod, items: seq<Item>, env: Env): seq<Issue>
  {
    match m
    case TestMethod => [TestIssue]
    case Plugged(check) => check(items, env)
  }

  /** The test rule: appends one issue of type "TEST" at line 1, nothing else. */
  method DetectMethodForTest(issues: seq<Issue>) returns (appended: seq<Issue>)
    ensures |appended| == |issues| + 1
    ensures appended[..|issues|] == issues
    ensures appended[|issues|] == Issue("TEST", "this is test method", 1, "")
  {
    appended := issues + [Issue("TEST", "this is test method", 1, "")];
  }

  /** Invokes a rule method on one set of items, appending what it reports. */
  method Invoke(m: RuleMethod, items: seq<Item>, env: Env, issues: seq<Issue>) returns (appended: seq<Issue>)
    ensures appended == issues + Emitted(m, items, env)
  {
    match m
    case TestMethod =>
      appended := DetectMethodForTest(issues);
      assert appended == appended[..|issues|] + [appended[|issues|]];
    case Plugged(check) =>
      appended := issues + check(items, env);
  }

  // ---------------------------------------------------------------------
  // Detect
  // ---------------------------------------------------------------------

  /** The issues of one rule method over the modules, skipping suppressed sources. */
  function ModuleIssues(m: RuleMethod, modules: seq<Module>, ignored: set<string>): seq<Issue>
    decreases modules
  {
    if modules == [] then []
    else
      var last := modules[|modules| - 1];
      ModuleIssues(m, modules[..|modules| - 1], ignored)
        + (if last.source in ignored then [] else Emitted(m, last.items, last.env))
  }

  /** The issues of one rule: none when suppressed, else the template's then the modules'. */
  function RuleIssues(rule: Rule, d: Engine): seq<Issue>
  {
    if rule.name in d.config.ignoreRule then []
    else Emitted(rule.detector, d.items, d.env) + ModuleIssues(rule.detector, d.modules, d.config.ignoreModule)
  }

  /** The specification of `Detect`: every rule's issues, in registry order. */
  function RegistryIssues(rules: seq<Rule>, d: Engine): seq<Issue>
    decreases rules
  {
    if rules == [] then []
    else RegistryIssues(rules[..|rules| - 1], d) + RuleIssues(rules[|rules| - 1], d)
  }

  /** Runs one rule method over every module whose source is not suppressed. */
  method DetectModules(m: RuleMethod, modules: seq<Module>, ignored: set<string>, issues: seq<Issue>)
    returns (appended: seq<Issue>)
    ensures appended == issues + ModuleIssues(m, modules, ignored)
  {
    appended := issues;
    for i := 0 to |modules|
      invariant appended == issues + ModuleIssues(m, modules[..i], ignored)
    {
      assert modules[..i + 1][..i] == modules[..i];
      if modules[i].source !in ignored {
        appended := Invoke(m, modules[i].items, modules[i].env, appended);
      }
    }
    assert modules[..|modules|] == modules;
  }

  /** The detection pass, as a loop over the registry. */
  method Detect(d: Engine, rules: seq<Rule>) returns (issues: seq<Issue>)
    ensures issues == RegistryIssues(rules, d)
  {
    issues := [];
    for r := 0 to |rules|
      invariant issues == RegistryIssues(rules[..r], d)
    {
      assert rules[..r + 1][..r] == rules[..r];
      var rule := rules[r];
      if rule.name !in d.config.ignoreRule {
        issues := Invoke(rule.detector, d.items, d.env, issues);
        issues := DetectModules(rule.detector, d.modules, d.config.ignoreModule, issues);
      }
    }
    assert rules[..|rules|] == rules;
  }

  // ---------------------------------------------------------------------
  // What Detect promises.
  // ---------------------------------------------------------------------

  /** The rules whose name is not suppressed. */
  function EnabledRules(rules: seq<Rule>, ignored: set<string>): seq<Rule>
    decreases rules
  {
    if rules == [] then []
    else
      var last := rules[|rules| - 1];
      EnabledRules(rules[..|rules| - 1], ignored) + (if last.name in ignored then [] else [last])
  }

  /** The modules whose source is not suppressed. */
  function KeptModules(modules: seq<Module>, ignored: set<string>): seq<Module>
    decreases modules
  {
    if modules == [] then []
    else
      var last := modules[|modules| - 1];
      KeptModules(modules[..|modules| - 1], ignored) + (if last.source in ignored then [] else [last])
  }

  /** The enabled rules are exactly the registered rules whose name is not suppressed. */
  lemma {:induction false} EnabledRulesMembers(rules: seq<Rule>, ignored: set<string>, x: Rule)
    ensures x in EnabledRules(rules, ignored) <==> x in rules && x.name !in ignored
    decreases rules
  {
    if rules != [] {
      var front := rules[..|rules| - 1];
      EnabledRulesMembers(front, ignored, x);
      assert rules == front + [rules[|rules| - 1]];
    }
  }

  /** The kept modules are exactly the modules whose source is not suppressed. */
  lemma {:induction false} KeptModulesMembers(modules: seq<Module>, ignored: set<string>, x: Module)
    ensures x in KeptModules(modules, ignored) <==> x in modules && x.source !in ignored
    decreases modules
  {
    if modules != [] {
      var front := modules[..|modules| - 1];
      KeptModulesMembers(front, ignored, x);
      assert modules == front + [modules[|modules| - 1]];
    }
  }

  /** Suppressing a rule name is the same as removing those rules from the registry. */
  lemma {:induction false} SuppressedRulesRemoved(rules: seq<Rule>, d: Engine)
    ensures RegistryIssues(rules, d)
         == RegistryIssues(EnabledRules(rules, d.config.ignoreRule), d.(config := d.config.(ignoreRule := {})))
    decreases rules
  {
    if rules != [] {
      var front := rules[..|rules| - 1];
      var last := rules[|rules| - 1];
      SuppressedRulesRemoved(front, d);
      var enabled := EnabledRules(front, d.config.ignoreRule);
      if last.name !in d.config.ignoreRule {
        assert EnabledRules(rules, d.config.ignoreRule) == enabled + [last];
        assert (enabled + [last])[..|enabled + [last]| - 1] == enabled;
      } else {
        assert EnabledRules(rules, d.config.ignoreRule) == enabled + [];
        assert enabled + [] == enabled;
        assert RegistryIssues(rules, d) == RegistryIssues(front, d) + [];
      }
    }
  }

  /**
   * Suppressing a module source is the same as not loading those modules:
   * a rule never sees the items of a suppressed module.
   */
  lemma {:induction false} SuppressedModulesUnvisited(m: RuleMethod, modules: seq<Module>, ignored: set<string>)
    ensures ModuleIssues(m, modules, ignored) == ModuleIssues(m, KeptModules(modules, ignored), {})
    decreases modules
  {
    if modules != [] {
      var front := modules[..|modules| - 1];
      var last := modules[|modules| - 1];
      SuppressedModulesUnvisited(m, front, ignored);
      var kept := KeptModules(front, ignored);
      if last.source !in ignored {
        assert KeptModules(modules, ignored) == kept + [last];
        assert (kept + [last])[..|kept + [last]| - 1] == kept;
      } else {
        assert KeptModules(modules, ignored) == kept + [];
        assert kept + [] == kept;
        assert ModuleIssues(m, modules, ignored) == ModuleIssues(m, front, ignored) + [];
      }
    }
  }

  /** The number of rules whose name is not suppressed. */
  function EnabledCount(rules: seq<Rule>, ignored: set<string>): nat
    decreases rules
  {
    if rules == [] then 0
    else EnabledCount(rules[..|rules| - 1], ignored) + (if rules[|rules| - 1].name in ignored then 0 else 1)
  }

  /** The number of modules whose source is not suppressed. */
  function KeptCount(modules: seq<Module>, ignored: set<string>): nat
    decreases modules
  {
    if modules == [] then 0
    else KeptCount(modules[..|modules| - 1], ignored) + (if modules[|modules| - 1].source in ignored then 0 else 1)
  }

  /** The test method reports one issue per module that is not suppressed. */
  lemma {:induction false} TestMethodModuleIssues(modules: seq<Module>, ignored: set<string>)
    ensures |ModuleIssues(TestMethod, modules, ignored)| == KeptCount(modules, ignored)
    ensures forall x :: x in ModuleIssues(TestMethod, modules, ignored) ==> x == TestIssue
    decreases modules
  {
    if modules != [] {
      TestMethodModuleIssues(modules[..|modules| - 1], ignored);
    }
  }

  /** With a registry of test methods, every issue reported is the test issue. */
  lemma {:induction false} TestRegistryIssues(rules: seq<Rule>, d: Engine)
    requires forall i :: 0 <= i < |rules| ==> rules[i].detector == TestMethod
    ensures forall x :: x in RegistryIssues(rules, d) ==> x == TestIssue
    decreases rules
  {
    if rules != [] {
      var front := rules[..|rules| - 1];
      var last := rules[|rules| - 1];
      TestRegistryIssues(front, d);
      TestMethodModuleIssues(d.modules, d.config.ignoreModule);
      assert RegistryIssues(rules, d) == RegistryIssues(front, d) + RuleIssues(last, d);
    }
  }

  /** One more rule adds one more share of issues. */
  lemma MulSucc(c: nat, n: nat)
    ensures c * n + n == (c + 1) * n
  {
  }

  /**
   * With a registry of test methods, each rule that is not suppressed
   * reports one issue for the template and one per module that is not
   * suppressed.
   */
  lemma {:induction false} TestRegistryCount(rules: seq<Rule>, d: Engine)
    requires forall i :: 0 <= i < |rules| ==> rules[i].detector == TestMethod
    ensures |RegistryIssues(rules, d)|
         == EnabledCount(rules, d.config.ignoreRule) * (1 + KeptCount(d.modules, d.config.ignoreModule))
    decreases rules
  {
    if rules != [] {
      var front := rules[..|rules| - 1];
      var last := rules[|rules| - 1];
      var k := KeptCount(d.modules, d.config.ignoreModule);
      TestRegistryCount(front, d);
      var c := EnabledCount(front, d.config.ignoreRule);
      assert |RegistryIssues(rules, d)| == |RegistryIssues(front, d)| + |RuleIssues(last, d)|;
      if last.name !in d.config.ignoreRule {
        TestMethodModuleIssues(d.modules, d.config.ignoreModule);
        assert |RuleIssues(last, d)| == 1 + k;
        assert EnabledCount(rules, d.config.ignoreRule) == c + 1;
        MulSucc(c, 1 + k);
      }
    }
  }

}
