/**
 The transformation plan: configured rules are compiled per collection and applied to each
 document. A rule reads the original document and writes its own path, so rules on unrelated
 paths do not see each other, whatever their order.
 */
module Transform {
  import opened Wrappers
  import opened Paths
  import opened Bson
  import Condition

  type Params = map<string, Value>

  type Transformer = (Value, Document) -> Result<Value, string>

  /** One configured rule on a field. */
  datatype Rule = Rule(
    field: string,
    name: string,
    params: Params,
    when: Option<string>,
    dynamicParams: map<string, string>,
    applyForReferences: bool,
    typeOverride: Option<string>)

  datatype CollectionConfig = CollectionConfig(
    collection: string,
    when: Option<string>,
    query: Option<Value>,
    transformers: seq<Rule>)

  /** Merges parameters read off a document into the static ones. */
  type Resolver = (Document, Params) -> Result<Params, string>

  /**
   The transformer catalog and casts, as library calls that may refuse: which transformers are
   registered, what their parameters are once validated, and how they are built.
   */
  datatype Registry = Registry(
    known: string -> bool,
    validate: (string, Params) -> Result<Params, string>,
    build: (string, Params) -> Result<Transformer, string>,
    dynamicOf: (string, map<string, string>) -> Result<Resolver, string>,
    castTo: string -> Option<Value -> Result<Value, string>>)

  datatype CompiledRule = CompiledRule(
    field: string,
    gate: Document -> bool,
    cast: Option<Value -> Result<Value, string>>,
    exec: Transformer)

  datatype CollectionPlan = CollectionPlan(gate: Document -> bool, query: Option<Document>, rules: seq<CompiledRule>)

  type Plan = map<string, CollectionPlan>

  // Compiling.

  /** A condition that evaluates without hitting the lone-quote literal. */
  predicate ReadableGate(lang: Condition.Lang, when: Option<string>) {
    when.Some? ==> Condition.AllReadable(Condition.Terms(lang, when.value))
  }

  predicate ReadableEntry(lang: Condition.Lang, c: CollectionConfig) {
    ReadableGate(lang, c.when) && forall r <- c.transformers :: ReadableGate(lang, r.when)
  }

  predicate ReadableConfigs(lang: Condition.Lang, configs: seq<CollectionConfig>) {
    forall c <- configs :: ReadableEntry(lang, c)
  }

  function CompileGate(lang: Condition.Lang, when: Option<string>): Result<Document -> bool, string>
    requires ReadableGate(lang, when)
  {
    match when
    case None => Success((d: Document) => true)
    case Some(w) =>
      match Condition.Parse(w)
      case Failure(e) => Failure(e)
      case Success(_) => Success((d: Document) => Condition.Eval(lang, w, d))
  }

  function DynamicExec(reg: Registry, name: string, base: Params, resolve: Resolver): Transformer {
    (v: Value, d: Document) =>
      match resolve(d, base)
      case Failure(e) => Failure(e)
      case Success(merged) =>
        match reg.build(name, merged)
        case Failure(e) => Failure(e)
        case Success(t) => t(v, d)
  }

  /** The transformer of a rule: built once, or for each document from parameters that depend on it. */
  function CompileExec(reg: Registry, r: Rule, base: Params): Result<Transformer, string> {
    if r.dynamicParams == map[] then reg.build(r.name, base)
    else
      match reg.dynamicOf(r.name, r.dynamicParams)
      case Failure(e) => Failure(e)
      case Success(resolve) => Success(DynamicExec(reg, r.name, base, resolve))
  }

  function CompileCast(reg: Registry, t: Option<string>): Result<Option<Value -> Result<Value, string>>, string> {
    match t
    case None => Success(None)
    case Some(name) => match reg.castTo(name)
      case None => Failure("unknown type override")
      case Some(cast) => Success(Some(cast))
  }

  function CompileRule(lang: Condition.Lang, reg: Registry, r: Rule): Result<CompiledRule, string>
    requires ReadableGate(lang, r.when)
  {
    if !reg.known(r.name) then Failure("transformer not found")
    else
      match reg.validate(r.name, r.params)
      case Failure(e) => Failure(e)
      case Success(base) =>
        match CompileGate(lang, r.when)
        case Failure(e) => Failure(e)
        case Success(gate) =>
          match CompileCast(reg, r.typeOverride)
          case Failure(e) => Failure(e)
          case Success(cast) =>
            match CompileExec(reg, r, base)
            case Failure(e) => Failure(e)
            case Success(exec) => Success(CompiledRule(r.field, gate, cast, exec))
  }

  predicate Parses(when: Option<string>) {
    when.Some? ==> Condition.Parse(when.value).Success?
  }

  /** Each thing the rule names is there and accepted. */
  predicate Compilable(reg: Registry, r: Rule) {
    reg.known(r.name) && reg.validate(r.name, r.params).Success? && Parses(r.when) &&
    (r.typeOverride.Some? ==> reg.castTo(r.typeOverride.value).Some?) &&
    if r.dynamicParams == map[] then reg.build(r.name, reg.validate(r.name, r.params).value).Success?
    else reg.dynamicOf(r.name, r.dynamicParams).Success?
  }

  lemma CompilesIff(lang: Condition.Lang, reg: Registry, r: Rule)
    requires ReadableGate(lang, r.when)
    ensures CompileRule(lang, reg, r).Success? <==> Compilable(reg, r)
  {
    hide ReadableGate;
  }

  function CompileRules(lang: Condition.Lang, reg: Registry, rules: seq<Rule>): Result<seq<CompiledRule>, string>
    requires forall r <- rules :: ReadableGate(lang, r.when)
  {
    if rules == [] then Success([])
    else
      match CompileRules(lang, reg, rules[..|rules| - 1])
      case Failure(e) => Failure(e)
      case Success(compiled) =>
        match CompileRule(lang, reg, rules[|rules| - 1])
        case Failure(e) => Failure(e)
        case Success(rule) => Success(compiled + [rule])
  }

  function CompileQuery(query: Option<Value>): Result<Option<Document>, string> {
    match query
    case None => Success(None)
    case Some(Doc(d)) => Success(Some(d))
    case Some(_) => Failure("collection query must be a document")
  }

  function CompileCollection(lang: Condition.Lang, reg: Registry, c: CollectionConfig): Result<CollectionPlan, string>
    requires ReadableEntry(lang, c)
  {
    match (CompileGate(lang, c.when), CompileQuery(c.query), CompileRules(lang, reg, c.transformers))
    case (Failure(e), _, _) => Failure(e)
    case (_, Failure(e), _) => Failure(e)
    case (_, _, Failure(e)) => Failure(e)
    case (Success(gate), Success(query), Success(rules)) => Success(CollectionPlan(gate, query, rules))
  }

  /** Rules compile one by one, each in its place. */
  lemma {:induction false} CompiledInPlace(lang: Condition.Lang, reg: Registry, rules: seq<Rule>)
    requires forall r <- rules :: ReadableGate(lang, r.when)
    ensures CompileRules(lang, reg, rules).Success? <==> forall r <- rules :: Compilable(reg, r)
    ensures CompileRules(lang, reg, rules).Success? ==>
              var compiled := CompileRules(lang, reg, rules).value;
              |compiled| == |rules| &&
              forall i | 0 <= i < |rules| :: CompileRule(lang, reg, rules[i]) == Success(compiled[i])
    decreases |rules|
  {
    hide CompileRule, ReadableGate, Compilable;
    if rules != [] {
      var last := |rules| - 1;
      assert rules == rules[..last] + [rules[last]];
      CompiledInPlace(lang, reg, rules[..last]);
      CompilesIff(lang, reg, rules[last]);
    }
  }

  /** An entry compiles exactly when its condition parses, its query is a document and each of its rules compiles. */
  lemma CollectionCompilesIff(lang: Condition.Lang, reg: Registry, c: CollectionConfig)
    requires ReadableEntry(lang, c)
    ensures CompileCollection(lang, reg, c).Success? <==>
              Parses(c.when) && (c.query.Some? ==> c.query.value.Doc?) &&
              forall r <- c.transformers :: Compilable(reg, r)
  {
    hide CompileRules, Compilable;
    CompiledInPlace(lang, reg, c.transformers);
  }

  /** The entry of a collection that counts: the last one. */
  function LastOf(configs: seq<CollectionConfig>, name: string): (r: Option<CollectionConfig>)
    ensures r.Some? ==> r.value in configs && r.value.collection == name
  {
    if configs == [] then None
    else
      match LastOf(configs[1..], name)
      case Some(c) => Some(c)
      case None => if configs[0].collection == name then Some(configs[0]) else None
  }

  lemma {:induction false} LastOfMeans(configs: seq<CollectionConfig>, name: string, k: nat)
    requires k < |configs| && configs[k].collection == name
    requires forall j | k < j < |configs| :: configs[j].collection != name
    ensures LastOf(configs, name) == Some(configs[k])
  {
    if k > 0 {
      LastOfMeans(configs[1..], name, k - 1);
    }
  }

  lemma {:induction false} LastOfAppend(configs: seq<CollectionConfig>, c: CollectionConfig, name: string)
    ensures LastOf(configs + [c], name) == if c.collection == name then Some(c) else LastOf(configs, name)
  {
    if configs == [] {
      assert configs + [c] == [c] && [c][1..] == [];
    } else {
      assert (configs + [c])[1..] == configs[1..] + [c];
      LastOfAppend(configs[1..], c, name);
    }
  }

  /** Every entry compiles, and the plan has, for each collection, what its last entry compiles to. */
  ghost predicate IsPlan(lang: Condition.Lang, reg: Registry, configs: seq<CollectionConfig>, plan: Plan)
    requires ReadableConfigs(lang, configs)
  {
    (forall c <- configs :: CompileCollection(lang, reg, c).Success?) &&
    (forall name :: name in plan <==> LastOf(configs, name).Some?) &&
    (forall name <- plan | LastOf(configs, name).Some? ::
       CompileCollection(lang, reg, LastOf(configs, name).value) == Success(plan[name]))
  }

  /** One more entry takes its collection's place in the plan. */
  lemma PlanStep(lang: Condition.Lang, reg: Registry, configs: seq<CollectionConfig>, c: CollectionConfig, plan: Plan)
    requires ReadableConfigs(lang, configs) && ReadableEntry(lang, c) && IsPlan(lang, reg, configs, plan)
    requires CompileCollection(lang, reg, c).Success?
    ensures ReadableConfigs(lang, configs + [c])
    ensures IsPlan(lang, reg, configs + [c], plan[c.collection := CompileCollection(lang, reg, c).value])
  {
    hide CompileCollection, LastOf, ReadableEntry;
    var longer, wider := configs + [c], plan[c.collection := CompileCollection(lang, reg, c).value];
    forall name
      ensures LastOf(longer, name) == if c.collection == name then Some(c) else LastOf(configs, name)
    {
      LastOfAppend(configs, c, name);
    }
    assert forall name | name != c.collection && name in plan :: wider[name] == plan[name];
  }

  method Compile(lang: Condition.Lang, reg: Registry, configs: seq<CollectionConfig>) returns (r: Result<Plan, string>)
    requires ReadableConfigs(lang, configs)
    ensures r.Success? ==> IsPlan(lang, reg, configs, r.value)
    ensures r.Failure? <==> exists c <- configs :: CompileCollection(lang, reg, c).Failure?
  {
    hide CompileCollection, LastOf, ReadableEntry;
    var plan: Plan := map[];
    NoEntries();
    for i := 0 to |configs|
      invariant IsPlan(lang, reg, configs[..i], plan)
    {
      assert configs[i] in configs && configs[..i + 1] == configs[..i] + [configs[i]];
      match CompileCollection(lang, reg, configs[i]) {
        case Failure(e) => return Failure(e);
        case Success(compiled) =>
          PlanStep(lang, reg, configs[..i], configs[i], plan);
          plan := plan[configs[i].collection := compiled];
      }
    }
    assert configs[..|configs|] == configs;
    r := Success(plan);
  }

  lemma NoEntries()
    ensures forall name :: LastOf([], name) == None
  {
  }

  // Applying.

  /** What a rule makes of a document: nothing when its gate is shut, else a value to write, or an error. */
  function Produce(rule: CompiledRule, d: Document): Result<Option<Value>, string> {
    if !rule.gate(d) then Success(None)
    else
      var value := Condition.OrNull(GetPath(d, rule.field));
      var input := if rule.cast.Some? then rule.cast.value(value) else Success(value);
      match input
      case Failure(e) => Failure(e)
      case Success(v) =>
        match rule.exec(v, d)
        case Failure(e) => Failure(e)
        case Success(w) => Success(Some(w))
  }

  function Write(field: string, produced: Option<Value>, out: Document): Document {
    match produced
    case None => out
    case Some(v) => SetPath(out, field, v)
  }

  function ApplyRules(rules: seq<CompiledRule>, d: Document): Result<Document, string> {
    if rules == [] then Success(d)
    else
      var last := |rules| - 1;
      match ApplyRules(rules[..last], d)
      case Failure(e) => Failure(e)
      case Success(out) =>
        match Produce(rules[last], d)
        case Failure(e) => Failure(e)
        case Success(produced) => Success(Write(rules[last].field, produced, out))
  }

  /** A collection without an entry, or whose gate is shut, passes through. */
  function TransformOutcome(plan: Plan, collection: string, d: Document): Result<Document, string> {
    if collection !in plan || !plan[collection].gate(d) then Success(d)
    else ApplyRules(plan[collection].rules, d)
  }

  lemma {:induction false} ApplyFailsEarly(rules: seq<CompiledRule>, d: Document, n: nat)
    requires n <= |rules| && ApplyRules(rules[..n], d).Failure?
    ensures ApplyRules(rules, d) == ApplyRules(rules[..n], d)
    decreases |rules| - n
  {
    if n == |rules| {
      assert rules[..n] == rules;
    } else {
      assert rules[..n + 1][..n] == rules[..n];
      ApplyFailsEarly(rules, d, n + 1);
    }
  }

  method TransformDocument(plan: Plan, collection: string, d: Document) returns (r: Result<Document, string>)
    ensures r == TransformOutcome(plan, collection, d)
  {
    hide Produce;
    if collection !in plan {
      return Success(d);
    }
    var p := plan[collection];
    if !p.gate(d) {
      return Success(d);
    }
    var out := d;
    for i := 0 to |p.rules|
      invariant ApplyRules(p.rules[..i], d) == Success(out)
    {
      var rule := p.rules[i];
      assert p.rules[..i + 1][..i] == p.rules[..i];
      match Produce(rule, d) {
        case Failure(e) =>
          ApplyFailsEarly(p.rules, d, i + 1);
          return Failure(e);
        case Success(None) =>
        case Success(Some(v)) => out := SetPath(out, rule.field, v);
      }
    }
    assert p.rules[..|p.rules|] == p.rules;
    r := Success(out);
  }

  // What rules on unrelated paths do.

  predicate UnrelatedFields(a: string, b: string) {
    Unrelated(Split(a), Split(b))
  }

  predicate Disjoint(rules: seq<CompiledRule>) {
    forall i, j | 0 <= i < |rules| && 0 <= j < |rules| && i != j :: UnrelatedFields(rules[i].field, rules[j].field)
  }

  /** From the n-th rule on, none that runs on this document is related to the path. */
  predicate Undisturbed(rules: seq<CompiledRule>, d: Document, path: string, n: nat) {
    forall j | n <= j < |rules| :: rules[j].gate(d) ==> UnrelatedFields(rules[j].field, path)
  }

  /**
   The value at a rule's path afterwards: what it produced from the original, or the original where it
   did not run.
   */
  function Expected(rule: CompiledRule, d: Document): Option<Value>
    requires Produce(rule, d).Success?
  {
    if Produce(rule, d).value.Some? then Produce(rule, d).value else GetPath(d, rule.field)
  }

  lemma {:induction false} UntouchedPath(rules: seq<CompiledRule>, d: Document, other: string)
    requires ApplyRules(rules, d).Success? && Undisturbed(rules, d, other, 0)
    ensures GetPath(ApplyRules(rules, d).value, other) == GetPath(d, other)
    decreases |rules|
  {
    hide GetPath, SetPath, UnrelatedFields;
    if rules != [] {
      var last := |rules| - 1;
      UntouchedPath(rules[..last], d, other);
      LastRuleLeaves(rules, d, other);
    }
  }

  /** A last rule that does not run, or writes elsewhere, leaves a path as the rules before it did. */
  lemma LastRuleLeaves(rules: seq<CompiledRule>, d: Document, other: string)
    requires rules != [] && ApplyRules(rules, d).Success?
    requires rules[|rules| - 1].gate(d) ==> UnrelatedFields(rules[|rules| - 1].field, other)
    ensures ApplyRules(rules[..|rules| - 1], d).Success?
    ensures GetPath(ApplyRules(rules, d).value, other) == GetPath(ApplyRules(rules[..|rules| - 1], d).value, other)
  {
    hide GetPath, SetPath;
    var last := |rules| - 1;
    if rules[last].gate(d) {
      PathFrame(ApplyRules(rules[..last], d).value, rules[last].field, Produce(rules[last], d).value.value, other);
    }
  }

  /**
   A rule's result, computed from the original document, stands at its path: only a later rule that
   runs on the document and is related to the path could change it. Where the rule itself does not
   run, no other that does may be related.
   */
  lemma {:induction false} RuleResultStands(rules: seq<CompiledRule>, d: Document, i: nat)
    requires ApplyRules(rules, d).Success? && i < |rules|
    requires Undisturbed(rules, d, rules[i].field, if rules[i].gate(d) then i + 1 else 0)
    ensures Produce(rules[i], d).Success?
    ensures GetPath(ApplyRules(rules, d).value, rules[i].field) == Expected(rules[i], d)
    decreases |rules|
  {
    hide GetPath, SetPath, UnrelatedFields;
    var last := |rules| - 1;
    var before := rules[..last];
    if !rules[i].gate(d) {
      UntouchedPath(rules, d, rules[i].field);
    } else if i == last {
      var v := Produce(rules[last], d).value.value;
      PathLensLaws(ApplyRules(before, d).value, rules[last].field, v, v);
    } else {
      RuleResultStands(before, d, i);
      LastRuleLeaves(rules, d, rules[i].field);
    }
  }

  /** Applying the rules fails exactly when one of them does. */
  lemma {:induction false} FailsIffARuleFails(rules: seq<CompiledRule>, d: Document)
    ensures ApplyRules(rules, d).Failure? <==> exists i | 0 <= i < |rules| :: Produce(rules[i], d).Failure?
    decreases |rules|
  {
    hide Produce;
    if rules != [] {
      var last := |rules| - 1;
      FailsIffARuleFails(rules[..last], d);
      assert forall i | 0 <= i < last :: rules[..last][i] == rules[i];
    }
  }

  ghost predicate SameRules(a: seq<CompiledRule>, b: seq<CompiledRule>) {
    (forall i | 0 <= i < |a| :: exists j | 0 <= j < |b| :: b[j] == a[i]) &&
    (forall j | 0 <= j < |b| :: exists i | 0 <= i < |a| :: a[i] == b[j])
  }

  /** A path the rules are about: one of theirs, or one unrelated to all of them. */
  ghost predicate Visible(rules: seq<CompiledRule>, path: string) {
    (exists i | 0 <= i < |rules| :: rules[i].field == path) ||
    (forall i | 0 <= i < |rules| :: UnrelatedFields(rules[i].field, path))
  }

  lemma DisjointUndisturbed(rules: seq<CompiledRule>, d: Document, i: nat)
    requires Disjoint(rules) && i < |rules|
    ensures Undisturbed(rules, d, rules[i].field, if rules[i].gate(d) then i + 1 else 0)
  {
    hide UnrelatedFields;
  }

  lemma UnrelatedUndisturbed(rules: seq<CompiledRule>, d: Document, path: string)
    requires forall i | 0 <= i < |rules| :: UnrelatedFields(rules[i].field, path)
    ensures Undisturbed(rules, d, path, 0)
  {
  }

  /** Disjoint rules give the same document in any order, as seen at every path the rules are about. */
  lemma OrderDoesNotMatter(a: seq<CompiledRule>, b: seq<CompiledRule>, d: Document)
    requires Disjoint(a) && Disjoint(b) && SameRules(a, b)
    ensures ApplyRules(a, d).Success? <==> ApplyRules(b, d).Success?
    ensures ApplyRules(a, d).Success? ==>
              forall path | Visible(a, path) ::
                GetPath(ApplyRules(a, d).value, path) == GetPath(ApplyRules(b, d).value, path)
  {
    hide Produce, GetPath, ApplyRules, UnrelatedFields, Disjoint, Undisturbed;
    FailsIffARuleFails(a, d);
    FailsIffARuleFails(b, d);
    if ApplyRules(a, d).Success? {
      forall path | Visible(a, path)
        ensures GetPath(ApplyRules(a, d).value, path) == GetPath(ApplyRules(b, d).value, path)
      {
        if i :| 0 <= i < |a| && a[i].field == path {
          var j :| 0 <= j < |b| && b[j] == a[i];
          DisjointUndisturbed(a, d, i);
          DisjointUndisturbed(b, d, j);
          RuleResultStands(a, d, i);
          RuleResultStands(b, d, j);
        } else {
          UnrelatedUndisturbed(a, d, path);
          UnrelatedUndisturbed(b, d, path);
          UntouchedPath(a, d, path);
          UntouchedPath(b, d, path);
        }
      }
    }
  }
}
