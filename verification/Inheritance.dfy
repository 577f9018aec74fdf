/**
 Propagating transformations along references: a rule marked `applyForReferences` is inherited
 by every field declared as referring to the transformed one. Equal values on the two sides of
 a reference are then equal after the transformation too.
 */
module Inheritance {
  import opened Wrappers
  import opened Bson
  import opened References
  import opened Transform
  import Condition

  datatype FieldTransform = FieldTransform(
    collection: string,
    field: string,
    name: string,
    params: Params,
    applyForReferences: bool,
    inherited: bool)

  predicate PointsAt(e: Edge, src: FieldTransform) {
    e.toField == src.field && src.collection in e.TargetCollections()
  }

  predicate On(t: FieldTransform, collection: string, field: string) {
    t.collection == collection && t.field == field
  }

  predicate HasExplicit(explicit: seq<FieldTransform>, collection: string, field: string) {
    exists t <- explicit :: On(t, collection, field)
  }

  predicate AlreadyInherited(ts: seq<FieldTransform>, collection: string, field: string) {
    exists t <- ts :: On(t, collection, field) && t.inherited
  }

  predicate Adds(explicit: seq<FieldTransform>, src: FieldTransform, e: Edge, ts: seq<FieldTransform>) {
    PointsAt(e, src) && !HasExplicit(explicit, e.fromCollection, e.fromField) &&
    !AlreadyInherited(ts, e.fromCollection, e.fromField)
  }

  function InheritedFrom(src: FieldTransform, e: Edge): FieldTransform {
    FieldTransform(e.fromCollection, e.fromField, src.name, src.params, false, true)
  }

  /** What one source adds through the first `n` edges. */
  function AddEdges(explicit: seq<FieldTransform>, src: FieldTransform, edges: seq<Edge>, n: nat,
                    ts: seq<FieldTransform>): seq<FieldTransform>
    requires n <= |edges|
  {
    if n == 0 then ts
    else
      var before := AddEdges(explicit, src, edges, n - 1, ts);
      if Adds(explicit, src, edges[n - 1], before) then before + [InheritedFrom(src, edges[n - 1])] else before
  }

  /** The explicit transformations and what the first `n` of them propagate. */
  function AddSources(explicit: seq<FieldTransform>, edges: seq<Edge>, n: nat): seq<FieldTransform>
    requires n <= |explicit|
  {
    if n == 0 then explicit
    else
      var before := AddSources(explicit, edges, n - 1);
      if explicit[n - 1].applyForReferences then AddEdges(explicit, explicit[n - 1], edges, |edges|, before) else before
  }

  method ExpandInherited(explicit: seq<FieldTransform>, edges: seq<Edge>) returns (ts: seq<FieldTransform>)
    ensures ts == AddSources(explicit, edges, |explicit|)
  {
    ts := explicit;
    for i := 0 to |explicit|
      invariant ts == AddSources(explicit, edges, i)
    {
      var src := explicit[i];
      if !src.applyForReferences {
        continue;
      }
      ghost var before := ts;
      for j := 0 to |edges|
        invariant ts == AddEdges(explicit, src, edges, j, before)
      {
        if Adds(explicit, src, edges[j], ts) {
          ts := ts + [InheritedFrom(src, edges[j])];
        }
      }
    }
  }

  // What is inherited.

  /** The first propagating transformation that an edge from this field points at. */
  ghost predicate IsSource(explicit: seq<FieldTransform>, edges: seq<Edge>, collection: string, field: string, k: nat) {
    k < |explicit| && explicit[k].applyForReferences &&
    exists e <- edges :: e.fromCollection == collection && e.fromField == field && PointsAt(e, explicit[k])
  }

  ghost predicate IsFirstSource(explicit: seq<FieldTransform>, edges: seq<Edge>, collection: string, field: string,
                                k: nat) {
    IsSource(explicit, edges, collection, field, k) &&
    forall j | 0 <= j < k :: !IsSource(explicit, edges, collection, field, j)
  }

  /**
   The list starts with the explicit transformations; the rest is inherited, once per field, never on
   an explicit one.
   */
  predicate Shape(explicit: seq<FieldTransform>, ts: seq<FieldTransform>) {
    explicit <= ts &&
    (forall i | |explicit| <= i < |ts| ::
       ts[i].inherited && !ts[i].applyForReferences && !HasExplicit(explicit, ts[i].collection, ts[i].field)) &&
    (forall i, j | |explicit| <= i < j < |ts| :: !On(ts[j], ts[i].collection, ts[i].field))
  }

  predicate NoneInherited(explicit: seq<FieldTransform>) {
    forall t <- explicit :: !t.inherited
  }

  lemma AddingKeepsShape(explicit: seq<FieldTransform>, src: FieldTransform, e: Edge, ts: seq<FieldTransform>)
    requires Shape(explicit, ts) && Adds(explicit, src, e, ts)
    ensures Shape(explicit, ts + [InheritedFrom(src, e)])
  {
    hide HasExplicit;
    assert forall i | |explicit| <= i < |ts| :: ts[i] in ts && !On(ts[i], e.fromCollection, e.fromField);
  }

  lemma {:induction false} EdgesKeepShape(explicit: seq<FieldTransform>, src: FieldTransform, edges: seq<Edge>, n: nat,
                                          ts: seq<FieldTransform>)
    requires n <= |edges| && Shape(explicit, ts)
    ensures var r := AddEdges(explicit, src, edges, n, ts); Shape(explicit, r) && ts <= r
  {
    hide Shape, Adds;
    if n > 0 {
      EdgesKeepShape(explicit, src, edges, n - 1, ts);
      var before := AddEdges(explicit, src, edges, n - 1, ts);
      if Adds(explicit, src, edges[n - 1], before) {
        AddingKeepsShape(explicit, src, edges[n - 1], before);
      }
    }
  }

  lemma {:induction false} SourcesKeepShape(explicit: seq<FieldTransform>, edges: seq<Edge>, n: nat)
    requires n <= |explicit|
    ensures Shape(explicit, AddSources(explicit, edges, n))
  {
    if n > 0 {
      SourcesKeepShape(explicit, edges, n - 1);
      EdgesKeepShape(explicit, explicit[n - 1], edges, |edges|, AddSources(explicit, edges, n - 1));
    }
  }

  /**
   After some sources, a field is inherited exactly when one of them is a source of it and it has no
   rule of its own.
   */
  ghost predicate InheritsBy(explicit: seq<FieldTransform>, edges: seq<Edge>, n: nat, ts: seq<FieldTransform>,
                             c: string, f: string)
    requires n <= |explicit|
  {
    (AlreadyInherited(ts, c, f) <==>
       !HasExplicit(explicit, c, f) && exists k | 0 <= k < n :: IsSource(explicit, edges, c, f, k)) &&
    (forall t <- ts | On(t, c, f) && t.inherited ::
       exists k | 0 <= k < n ::
         IsFirstSource(explicit, edges, c, f, k) && t.name == explicit[k].name && t.params == explicit[k].params)
  }

  ghost predicate EdgeSoFar(src: FieldTransform, edges: seq<Edge>, n: nat, c: string, f: string)
    requires n <= |edges|
  {
    exists j | 0 <= j < n :: edges[j].fromCollection == c && edges[j].fromField == f && PointsAt(edges[j], src)
  }

  lemma {:induction false} EdgesInherit(explicit: seq<FieldTransform>, src: FieldTransform, edges: seq<Edge>, n: nat,
                                        ts: seq<FieldTransform>, c: string, f: string)
    requires n <= |edges|
    ensures var r := AddEdges(explicit, src, edges, n, ts);
            (AlreadyInherited(r, c, f) <==>
             AlreadyInherited(ts, c, f) || (!HasExplicit(explicit, c, f) && EdgeSoFar(src, edges, n, c, f))) &&
            (forall t <- r | On(t, c, f) && t.inherited ::
               t in ts || (!AlreadyInherited(ts, c, f) && t.name == src.name && t.params == src.params))
  {
    if n > 0 {
      EdgesInherit(explicit, src, edges, n - 1, ts, c, f);
      var before := AddEdges(explicit, src, edges, n - 1, ts);
      var e := edges[n - 1];
      var r := AddEdges(explicit, src, edges, n, ts);
      assert EdgeSoFar(src, edges, n, c, f) <==>
        EdgeSoFar(src, edges, n - 1, c, f) || (e.fromCollection == c && e.fromField == f && PointsAt(e, src));
      if Adds(explicit, src, e, before) {
        var t := InheritedFrom(src, e);
        assert r == before + [t];
        assert forall x :: x in r <==> x in before || x == t;
        assert On(t, c, f) <==> e.fromCollection == c && e.fromField == f;
      }
    }
  }

  lemma SourceIsEdge(explicit: seq<FieldTransform>, edges: seq<Edge>, c: string, f: string, k: nat)
    requires k < |explicit|
    ensures IsSource(explicit, edges, c, f, k) <==>
              explicit[k].applyForReferences && EdgeSoFar(explicit[k], edges, |edges|, c, f)
  {
  }

  lemma {:induction false} SourcesInherit(explicit: seq<FieldTransform>, edges: seq<Edge>, n: nat, c: string, f: string)
    requires n <= |explicit| && NoneInherited(explicit)
    ensures InheritsBy(explicit, edges, n, AddSources(explicit, edges, n), c, f)
  {
    hide IsSource, EdgeSoFar, HasExplicit, AddEdges, PointsAt;
    if n > 0 {
      SourcesInherit(explicit, edges, n - 1, c, f);
      SourceIsEdge(explicit, edges, c, f, n - 1);
      var before := AddSources(explicit, edges, n - 1);
      var src := explicit[n - 1];
      if src.applyForReferences {
        EdgesInherit(explicit, src, edges, |edges|, before, c, f);
      }
    }
  }

  /** Which fields inherit, in terms of rules and references: those without a rule that refer to a propagating one. */
  lemma InheritsIff(explicit: seq<FieldTransform>, edges: seq<Edge>, c: string, f: string)
    requires NoneInherited(explicit)
    ensures (exists t <- AddSources(explicit, edges, |explicit|) ::
               t.collection == c && t.field == f && t.inherited) <==>
              (!exists t <- explicit :: t.collection == c && t.field == f) &&
              exists src <- explicit, e <- edges ::
                src.applyForReferences && e.fromCollection == c && e.fromField == f && e.toField == src.field &&
                match e.target
                case Fixed(target) => target == src.collection
                case Polymorphic(cases) => exists k <- cases :: k.collection == src.collection
    ensures forall t <- AddSources(explicit, edges, |explicit|) | t.inherited && t.collection == c && t.field == f ::
              !t.applyForReferences && exists src <- explicit :: t.name == src.name && t.params == src.params
  {
    hide AddSources, Shape;
    var ts := AddSources(explicit, edges, |explicit|);
    SourcesInherit(explicit, edges, |explicit|, c, f);
    SourcesAreReferenced(explicit, edges, c, f);
    SourcesKeepShape(explicit, edges, |explicit|);
    forall t <- ts | t.inherited && t.collection == c && t.field == f
      ensures !t.applyForReferences && exists src <- explicit :: t.name == src.name && t.params == src.params
    {
      assert On(t, c, f);
      var k :| 0 <= k < |explicit| && t.name == explicit[k].name && t.params == explicit[k].params;
      assert explicit[k] in explicit;
      InheritedEnds(explicit, ts, t);
    }
    if t :| t in ts && t.collection == c && t.field == f && t.inherited {
      assert On(t, c, f);
    }
  }

  lemma InheritedEnds(explicit: seq<FieldTransform>, ts: seq<FieldTransform>, t: FieldTransform)
    requires Shape(explicit, ts) && NoneInherited(explicit) && t in ts && t.inherited
    ensures !t.applyForReferences
  {
    var i :| 0 <= i < |ts| && ts[i] == t;
    assert forall j | 0 <= j < |explicit| :: ts[j] == explicit[j] && explicit[j] in explicit;
  }

  lemma SourcesAreReferenced(explicit: seq<FieldTransform>, edges: seq<Edge>, c: string, f: string)
    ensures (exists k | 0 <= k < |explicit| :: IsSource(explicit, edges, c, f, k)) <==>
              exists src <- explicit, e <- edges ::
                src.applyForReferences && e.fromCollection == c && e.fromField == f && e.toField == src.field &&
                match e.target
                case Fixed(target) => target == src.collection
                case Polymorphic(cases) => exists k <- cases :: k.collection == src.collection
  {
    forall e <- edges, src <- explicit
      ensures PointsAt(e, src) <==>
                e.toField == src.field &&
                match e.target
                case Fixed(target) => target == src.collection
                case Polymorphic(cases) => exists k <- cases :: k.collection == src.collection
    {
      TargetsMean(e, src.collection);
    }
    if src, e :| src in explicit && e in edges && src.applyForReferences && On(InheritedFrom(src, e), c, f) &&
                 PointsAt(e, src)
    {
      var k :| 0 <= k < |explicit| && explicit[k] == src;
      assert IsSource(explicit, edges, c, f, k);
    }
  }

  // From transformations to configurations.

  function RulesOf(c: CollectionConfig): seq<FieldTransform> {
    seq(|c.transformers|, i requires 0 <= i < |c.transformers| =>
      var r := c.transformers[i];
      FieldTransform(c.collection, r.field, r.name, r.params, r.applyForReferences, false))
  }

  function Explicit(configs: seq<CollectionConfig>): seq<FieldTransform> {
    if configs == [] then [] else RulesOf(configs[0]) + Explicit(configs[1..])
  }

  function InheritedRule(t: FieldTransform): Rule {
    Rule(t.field, t.name, t.params, None, map[], false, None)
  }

  /** Push a rule on the first entry of its collection, or add an entry for it. */
  function AddRule(configs: seq<CollectionConfig>, t: FieldTransform): seq<CollectionConfig> {
    if configs == [] then [CollectionConfig(t.collection, None, None, [InheritedRule(t)])]
    else if configs[0].collection == t.collection then
      [configs[0].(transformers := configs[0].transformers + [InheritedRule(t)])] + configs[1..]
    else [configs[0]] + AddRule(configs[1..], t)
  }

  function AddInherited(configs: seq<CollectionConfig>, ts: seq<FieldTransform>): seq<CollectionConfig> {
    if ts == [] then configs
    else
      var last := |ts| - 1;
      var before := AddInherited(configs, ts[..last]);
      if ts[last].inherited then AddRule(before, ts[last]) else before
  }

  /** The configuration list with the inherited rules in it. */
  function Expanded(configs: seq<CollectionConfig>, edges: seq<Edge>): seq<CollectionConfig> {
    var explicit := Explicit(configs);
    AddInherited(configs, AddSources(explicit, edges, |explicit|))
  }

  method FindCollection(configs: seq<CollectionConfig>, name: string) returns (found: Option<nat>)
    ensures match found
            case Some(i) => i < |configs| && configs[i].collection == name &&
              forall j | 0 <= j < i :: configs[j].collection != name
            case None => forall j | 0 <= j < |configs| :: configs[j].collection != name
  {
    for i := 0 to |configs|
      invariant forall j | 0 <= j < i :: configs[j].collection != name
    {
      if configs[i].collection == name {
        return Some(i);
      }
    }
    found := None;
  }

  /** The list with the rule on its i-th entry, or on a new one at the end. */
  function Placed(configs: seq<CollectionConfig>, t: FieldTransform, i: nat): seq<CollectionConfig>
    requires i <= |configs|
  {
    if i < |configs| then configs[i := configs[i].(transformers := configs[i].transformers + [InheritedRule(t)])]
    else configs + [CollectionConfig(t.collection, None, None, [InheritedRule(t)])]
  }

  lemma PlacedBehind(configs: seq<CollectionConfig>, t: FieldTransform, i: nat)
    requires 0 < i <= |configs|
    ensures Placed(configs, t, i) == [configs[0]] + Placed(configs[1..], t, i - 1)
  {
    hide InheritedRule;
    assert configs == [configs[0]] + configs[1..];
  }

  lemma {:induction false} AddRuleAt(configs: seq<CollectionConfig>, t: FieldTransform, i: nat)
    requires i <= |configs| && forall j | 0 <= j < i :: configs[j].collection != t.collection
    requires i < |configs| ==> configs[i].collection == t.collection
    ensures AddRule(configs, t) == Placed(configs, t, i)
    decreases |configs|
  {
    if i > 0 {
      hide InheritedRule, Placed;
      assert forall j | 0 <= j < i - 1 :: configs[1..][j] == configs[j + 1];
      AddRuleAt(configs[1..], t, i - 1);
      PlacedBehind(configs, t, i);
    }
  }

  method ExpandConfigs(configs: seq<CollectionConfig>, edges: seq<Edge>) returns (out: seq<CollectionConfig>)
    ensures out == Expanded(configs, edges)
  {
    hide Explicit, AddRule, AddSources;
    var explicit := Explicit(configs);
    var ts := ExpandInherited(explicit, edges);
    out := configs;
    for k := 0 to |ts|
      invariant out == AddInherited(configs, ts[..k])
    {
      var t := ts[k];
      assert ts[..k + 1][..k] == ts[..k];
      if !t.inherited {
        continue;
      }
      var found := FindCollection(out, t.collection);
      match found {
        case Some(i) =>
          AddRuleAt(out, t, i);
          out := out[i := out[i].(transformers := out[i].transformers + [InheritedRule(t)])];
        case None =>
          AddRuleAt(out, t, |out|);
          out := out + [CollectionConfig(t.collection, None, None, [InheritedRule(t)])];
      }
    }
    assert ts[..|ts|] == ts;
  }

  // Expanding twice.

  /** An inherited transformation as it reads once it is written into the configuration. */
  function AsConfigured(t: FieldTransform): FieldTransform {
    t.(applyForReferences := false, inherited := false)
  }

  lemma RulesOfAppend(c: CollectionConfig, t: FieldTransform)
    requires c.collection == t.collection
    ensures RulesOf(c.(transformers := c.transformers + [InheritedRule(t)])) == RulesOf(c) + [AsConfigured(t)]
  {
  }

  lemma {:induction false} ExplicitAddRule(configs: seq<CollectionConfig>, t: FieldTransform, x: FieldTransform)
    ensures x in Explicit(AddRule(configs, t)) <==> x in Explicit(configs) || x == AsConfigured(t)
  {
    hide RulesOf;
    var out := AddRule(configs, t);
    if configs == [] {
      RulesOfAppend(CollectionConfig(t.collection, None, None, []), t);
      assert CollectionConfig(t.collection, None, None, []).transformers + [InheritedRule(t)] == [InheritedRule(t)];
      NoRules(t.collection);
      assert out[1..] == [];
    } else if configs[0].collection == t.collection {
      RulesOfAppend(configs[0], t);
      assert out[1..] == configs[1..];
    } else {
      ExplicitAddRule(configs[1..], t, x);
      assert out[1..] == AddRule(configs[1..], t);
    }
  }

  lemma NoRules(collection: string)
    ensures RulesOf(CollectionConfig(collection, None, None, [])) == []
  {
  }

  lemma {:induction false} ExplicitAddInherited(configs: seq<CollectionConfig>, ts: seq<FieldTransform>,
                                                x: FieldTransform)
    ensures x in Explicit(AddInherited(configs, ts)) <==>
            x in Explicit(configs) || exists t <- ts :: t.inherited && x == AsConfigured(t)
    decreases |ts|
  {
    hide Explicit, AddRule;
    if ts != [] {
      var last := |ts| - 1;
      ExplicitAddInherited(configs, ts[..last], x);
      ExplicitAddRule(AddInherited(configs, ts[..last]), ts[last], x);
      assert ts == ts[..last] + [ts[last]];
    }
  }

  lemma {:induction false} ExplicitIsNotInherited(configs: seq<CollectionConfig>)
    ensures NoneInherited(Explicit(configs))
  {
    if configs != [] {
      ExplicitIsNotInherited(configs[1..]);
    }
  }

  /** Every field that could inherit already has a rule. */
  ghost predicate Saturated(explicit: seq<FieldTransform>, edges: seq<Edge>) {
    forall src <- explicit, e <- edges | src.applyForReferences && PointsAt(e, src) ::
      HasExplicit(explicit, e.fromCollection, e.fromField)
  }

  lemma {:induction false} SaturatedAddsNoEdges(explicit: seq<FieldTransform>, src: FieldTransform, edges: seq<Edge>,
                                                n: nat)
    requires n <= |edges| && Saturated(explicit, edges) && src in explicit && src.applyForReferences
    ensures AddEdges(explicit, src, edges, n, explicit) == explicit
  {
    if n > 0 {
      SaturatedAddsNoEdges(explicit, src, edges, n - 1);
      assert edges[n - 1] in edges;
    }
  }

  lemma {:induction false} SaturatedAddsNothing(explicit: seq<FieldTransform>, edges: seq<Edge>, n: nat)
    requires n <= |explicit| && Saturated(explicit, edges)
    ensures AddSources(explicit, edges, n) == explicit
  {
    if n > 0 {
      SaturatedAddsNothing(explicit, edges, n - 1);
      if explicit[n - 1].applyForReferences {
        SaturatedAddsNoEdges(explicit, explicit[n - 1], edges, |edges|);
      }
    }
  }

  lemma {:induction false} NothingInheritedChangesNothing(configs: seq<CollectionConfig>, ts: seq<FieldTransform>)
    requires NoneInherited(ts)
    ensures AddInherited(configs, ts) == configs
    decreases |ts|
  {
    if ts != [] {
      NothingInheritedChangesNothing(configs, ts[..|ts| - 1]);
    }
  }

  lemma ExpandedIsSaturated(configs: seq<CollectionConfig>, edges: seq<Edge>)
    ensures Saturated(Explicit(Expanded(configs, edges)), edges)
  {
    hide AddSources, AddInherited, Explicit, IsSource;
    var explicit := Explicit(configs);
    var ts := AddSources(explicit, edges, |explicit|);
    var wider := Explicit(Expanded(configs, edges));
    SourcesKeepShape(explicit, edges, |explicit|);
    ExplicitIsNotInherited(configs);
    forall src <- wider, e <- edges | src.applyForReferences && PointsAt(e, src)
      ensures HasExplicit(wider, e.fromCollection, e.fromField)
    {
      var c, f := e.fromCollection, e.fromField;
      ExplicitAddInherited(configs, ts, src);
      var k :| 0 <= k < |explicit| && explicit[k] == src;
      assert IsSource(explicit, edges, c, f, k) by {
        SourceShows(explicit, edges, e, k);
      }
      SourcesInherit(explicit, edges, |explicit|, c, f);
      if t :| t in explicit && On(t, c, f) {
        ExplicitAddInherited(configs, ts, t);
      } else {
        var t :| t in ts && On(t, c, f) && t.inherited;
        ExplicitAddInherited(configs, ts, AsConfigured(t));
        assert On(AsConfigured(t), c, f);
      }
    }
  }

  lemma SourceShows(explicit: seq<FieldTransform>, edges: seq<Edge>, e: Edge, k: nat)
    requires e in edges && k < |explicit| && explicit[k].applyForReferences && PointsAt(e, explicit[k])
    ensures IsSource(explicit, edges, e.fromCollection, e.fromField, k)
  {
  }

  /** Expanding a configuration that was expanded before changes nothing. */
  lemma ExpandingTwice(configs: seq<CollectionConfig>, edges: seq<Edge>)
    ensures Expanded(Expanded(configs, edges), edges) == Expanded(configs, edges)
  {
    var once := Expanded(configs, edges);
    ExpandedIsSaturated(configs, edges);
    SaturatedAddsNothing(Explicit(once), edges, |Explicit(once)|);
    ExplicitIsNotInherited(once);
    NothingInheritedChangesNothing(once, Explicit(once));
  }

  // Explicit rules stay as they are.

  /** Entry by entry, the expansion keeps what was configured and only appends inherited rules. */
  predicate Extends(configs: seq<CollectionConfig>, out: seq<CollectionConfig>) {
    |configs| <= |out| &&
    (forall i | 0 <= i < |configs| ::
       out[i] == configs[i].(transformers := out[i].transformers) && configs[i].transformers <= out[i].transformers) &&
    (forall i | |configs| <= i < |out| :: out[i].when == None && out[i].query == None)
  }

  lemma {:induction false} AddRuleExtends(configs: seq<CollectionConfig>, t: FieldTransform)
    ensures Extends(configs, AddRule(configs, t))
  {
    hide InheritedRule;
    if configs != [] && configs[0].collection != t.collection {
      AddRuleExtends(configs[1..], t);
      var out, rest := AddRule(configs, t), AddRule(configs[1..], t);
      assert forall i | 1 <= i < |configs| :: configs[i] == configs[1..][i - 1] && out[i] == rest[i - 1];
      assert forall i | |configs| <= i < |out| :: out[i] == rest[i - 1];
    }
  }

  lemma ExtendsTransitive(a: seq<CollectionConfig>, b: seq<CollectionConfig>, c: seq<CollectionConfig>)
    requires Extends(a, b) && Extends(b, c)
    ensures Extends(a, c)
  {
    forall i | 0 <= i < |a|
      ensures c[i] == a[i].(transformers := c[i].transformers) && a[i].transformers <= c[i].transformers
    {
      assert c[i] == b[i].(transformers := c[i].transformers) && b[i] == a[i].(transformers := b[i].transformers);
    }
    forall i | |a| <= i < |c|
      ensures c[i].when == None && c[i].query == None
    {
      if i < |b| {
        assert c[i] == b[i].(transformers := c[i].transformers);
      }
    }
  }

  lemma {:induction false} ExpansionExtends(configs: seq<CollectionConfig>, ts: seq<FieldTransform>)
    ensures Extends(configs, AddInherited(configs, ts))
    decreases |ts|
  {
    hide AddRule, Extends;
    if ts == [] {
      ExtendsItself(configs);
    } else {
      ExpansionExtends(configs, ts[..|ts| - 1]);
      var before := AddInherited(configs, ts[..|ts| - 1]);
      AddRuleExtends(before, ts[|ts| - 1]);
      ExtendsTransitive(configs, before, AddRule(before, ts[|ts| - 1]));
    }
  }

  lemma ExtendsItself(configs: seq<CollectionConfig>)
    ensures Extends(configs, configs)
  {
  }

  // Compiling with references.

  lemma {:induction false} AddRuleReadable(lang: Condition.Lang, configs: seq<CollectionConfig>, t: FieldTransform)
    requires ReadableConfigs(lang, configs)
    ensures ReadableConfigs(lang, AddRule(configs, t))
  {
    hide ReadableGate;
    PlainGateReadable(lang);
    if configs != [] {
      assert configs[0] in configs && forall c <- configs[1..] :: c in configs;
      if configs[0].collection != t.collection {
        AddRuleReadable(lang, configs[1..], t);
      }
    }
  }

  lemma PlainGateReadable(lang: Condition.Lang)
    ensures ReadableGate(lang, None)
  {
  }

  lemma {:induction false} ExpansionReadable(lang: Condition.Lang, configs: seq<CollectionConfig>,
                                             ts: seq<FieldTransform>)
    requires ReadableConfigs(lang, configs)
    ensures ReadableConfigs(lang, AddInherited(configs, ts))
    decreases |ts|
  {
    hide ReadableConfigs, AddRule;
    if ts != [] {
      ExpansionReadable(lang, configs, ts[..|ts| - 1]);
      AddRuleReadable(lang, AddInherited(configs, ts[..|ts| - 1]), ts[|ts| - 1]);
    }
  }

  lemma ExpandedReadable(lang: Condition.Lang, configs: seq<CollectionConfig>, edges: seq<Edge>)
    requires ReadableConfigs(lang, configs)
    ensures ReadableConfigs(lang, Expanded(configs, edges))
  {
    ExpansionReadable(lang, configs, AddSources(Explicit(configs), edges, |Explicit(configs)|));
  }

  /** The plan of a configuration whose propagating rules are followed along the references. */
  method CompileWithReferences(lang: Condition.Lang, reg: Registry, configs: seq<CollectionConfig>, edges: seq<Edge>)
    returns (r: Result<Plan, string>)
    requires ReadableConfigs(lang, configs)
    ensures var out := Expanded(configs, edges);
            ReadableConfigs(lang, out) &&
            (r.Success? ==> IsPlan(lang, reg, out, r.value)) &&
            (r.Failure? <==> exists c <- out :: CompileCollection(lang, reg, c).Failure?)
  {
    hide Expanded, IsPlan, CompileCollection, ReadableEntry;
    ExpandedReadable(lang, configs, edges);
    var out := ExpandConfigs(configs, edges);
    r := Compile(lang, reg, out);
  }

  // The entry that counts, after the expansion.

  /** How many entries the collection has. */
  function Times(configs: seq<CollectionConfig>, name: string): nat {
    if configs == [] then 0 else (if configs[0].collection == name then 1 else 0) + Times(configs[1..], name)
  }

  /** The rules a collection inherits, in order. */
  function InheritedOn(ts: seq<FieldTransform>, name: string): seq<Rule> {
    if ts == [] then []
    else
      var last := |ts| - 1;
      InheritedOn(ts[..last], name) +
      if ts[last].inherited && ts[last].collection == name then [InheritedRule(ts[last])] else []
  }

  /** The entry that counts, or an empty one. */
  function EntryOf(configs: seq<CollectionConfig>, name: string): CollectionConfig {
    match LastOf(configs, name)
    case Some(c) => c
    case None => CollectionConfig(name, None, None, [])
  }

  lemma {:induction false} TimesNone(configs: seq<CollectionConfig>, name: string)
    ensures Times(configs, name) == 0 <==> LastOf(configs, name) == None
  {
    if configs != [] {
      TimesNone(configs[1..], name);
    }
  }

  /** A rule goes to the first entry of its collection, so the last one gets it only when there is no other. */
  lemma {:induction false} AddRuleLast(configs: seq<CollectionConfig>, t: FieldTransform, name: string)
    ensures var out, n := AddRule(configs, t), Times(configs, name);
            if name != t.collection then Times(out, name) == n && LastOf(out, name) == LastOf(configs, name)
            else
              Times(out, name) == (if n == 0 then 1 else n) &&
              LastOf(out, name) ==
                if n > 1 then LastOf(configs, name)
                else Some(EntryOf(configs, name).(transformers := EntryOf(configs, name).transformers +
                                                                  [InheritedRule(t)]))
  {
    hide InheritedRule;
    var out := AddRule(configs, t);
    if configs == [] {
      assert [] + [InheritedRule(t)] == [InheritedRule(t)];
      assert out[1..] == [];
    } else if configs[0].collection == t.collection {
      assert out[1..] == configs[1..];
      TimesNone(configs[1..], name);
    } else {
      AddRuleLast(configs[1..], t, name);
      assert out[1..] == AddRule(configs[1..], t);
      TimesNone(configs[1..], name);
    }
  }

  /** A single or missing entry gets all inherited rules; of several, the one that counts gets none. */
  lemma {:induction false} ExpandedLast(configs: seq<CollectionConfig>, ts: seq<FieldTransform>, name: string)
    ensures var out, rules := AddInherited(configs, ts), InheritedOn(ts, name);
            LastOf(out, name) ==
              (if Times(configs, name) > 1 || rules == [] then LastOf(configs, name)
               else Some(EntryOf(configs, name).(transformers := EntryOf(configs, name).transformers + rules))) &&
            Times(out, name) == if Times(configs, name) == 0 && rules != [] then 1 else Times(configs, name)
    decreases |ts|
  {
    hide AddRule, Times, InheritedRule;
    if ts != [] {
      var last := |ts| - 1;
      var before, rules := AddInherited(configs, ts[..last]), InheritedOn(ts[..last], name);
      ExpandedLast(configs, ts[..last], name);
      TimesNone(configs, name);
      assert rules + [] == rules;
      if ts[last].inherited {
        AddRuleLast(before, ts[last], name);
        var own := EntryOf(configs, name).transformers;
        assert own + (rules + [InheritedRule(ts[last])]) == (own + rules) + [InheritedRule(ts[last])];
        assert rules == [] ==> rules + [InheritedRule(ts[last])] == [InheritedRule(ts[last])];
      }
    }
  }

  lemma {:induction false} InheritedIsOn(ts: seq<FieldTransform>, t: FieldTransform)
    requires t in ts && t.inherited
    ensures InheritedRule(t) in InheritedOn(ts, t.collection)
    decreases |ts|
  {
    hide InheritedRule;
    var last := |ts| - 1;
    if t != ts[last] {
      assert t in ts[..last];
      InheritedIsOn(ts[..last], t);
    }
  }

  /** Of a collection with several entries, the plan is that of the last as configured, without any inherited rule. */
  lemma RepeatedEntryIsMissed(lang: Condition.Lang, reg: Registry, configs: seq<CollectionConfig>, edges: seq<Edge>,
                              plan: Plan, name: string)
    requires ReadableConfigs(lang, Expanded(configs, edges)) && IsPlan(lang, reg, Expanded(configs, edges), plan)
    requires Times(configs, name) > 1
    ensures LastOf(configs, name).Some? && LastOf(configs, name).value in Expanded(configs, edges) && name in plan
    ensures CompileCollection(lang, reg, LastOf(configs, name).value) == Success(plan[name])
  {
    hide CompileCollection, AddSources, Explicit, ReadableEntry, LastOf;
    ExpandedLast(configs, AddSources(Explicit(configs), edges, |Explicit(configs)|), name);
    TimesNone(configs, name);
  }

  // What the plan makes of one field.

  /** The condition, if any, holds for the document. */
  predicate Open(lang: Condition.Lang, when: Option<string>, d: Document)
    requires ReadableGate(lang, when)
  {
    when.Some? ==> Condition.Eval(lang, when.value, d)
  }

  /** Neither its parameters nor its type are adapted to the document; it may still have a condition. */
  predicate Plain(r: Rule) {
    r.dynamicParams == map[] && r.typeOverride == None
  }

  /** What a rule without dynamic parameters runs. */
  ghost predicate Builds(reg: Registry, name: string, params: Params, t: Transformer) {
    reg.known(name) && reg.validate(name, params).Success? &&
    reg.build(name, reg.validate(name, params).value) == Success(t)
  }

  /** The transformer looks at the value alone. */
  ghost predicate ValueOnly(t: Transformer) {
    forall v: Value, d: Document, e: Document :: t(v, d) == t(v, e)
  }

  /** No other rule of the entry that runs on the document is related to this one's field. */
  predicate Alone(lang: Condition.Lang, c: CollectionConfig, r: Rule, d: Document)
    requires ReadableEntry(lang, c)
  {
    Open(lang, c.when, d) ==>
      forall q <- c.transformers | q != r :: Open(lang, q.when, d) ==> UnrelatedFields(q.field, r.field)
  }

  /** The entry runs no rule on the document that is related to the field. */
  predicate PassesBy(lang: Condition.Lang, c: CollectionConfig, field: string, d: Document)
    requires ReadableEntry(lang, c)
  {
    Open(lang, c.when, d) ==>
      forall q <- c.transformers :: Open(lang, q.when, d) ==> UnrelatedFields(q.field, field)
  }

  /** The entry and the rule are both open to the document. */
  predicate Runs(lang: Condition.Lang, c: CollectionConfig, r: Rule, d: Document)
    requires ReadableGate(lang, c.when) && ReadableGate(lang, r.when)
  {
    Open(lang, c.when, d) && Open(lang, r.when, d)
  }

  /** The field of the document as the plan leaves it. */
  function Afterwards(plan: Plan, collection: string, d: Document, field: string): Option<Value>
    requires TransformOutcome(plan, collection, d).Success?
  {
    GetPath(TransformOutcome(plan, collection, d).value, field)
  }

  lemma CompiledGates(lang: Condition.Lang, reg: Registry, c: CollectionConfig, d: Document)
    requires ReadableEntry(lang, c) && CompileCollection(lang, reg, c).Success?
    ensures var p := CompileCollection(lang, reg, c).value;
            p.query == (if c.query.Some? && c.query.value.Doc? then Some(c.query.value.doc) else None) &&
            p.gate(d) == Open(lang, c.when, d) && |p.rules| == |c.transformers| &&
            forall i | 0 <= i < |p.rules| ::
              var q := c.transformers[i];
              CompileRule(lang, reg, q) == Success(p.rules[i]) && p.rules[i].field == q.field &&
              p.rules[i].gate(d) == Open(lang, q.when, d)
  {
    hide CompileRules, ReadableGate;
    CompiledInPlace(lang, reg, c.transformers);
  }

  /** An entry that passes a field by leaves it as it is. */
  lemma PassedFieldStays(lang: Condition.Lang, reg: Registry, c: CollectionConfig, plan: Plan, field: string,
                         d: Document)
    requires ReadableEntry(lang, c) && PassesBy(lang, c, field, d)
    requires c.collection in plan ==> CompileCollection(lang, reg, c) == Success(plan[c.collection])
    requires TransformOutcome(plan, c.collection, d).Success?
    ensures Afterwards(plan, c.collection, d, field) == GetPath(d, field)
  {
    hide ApplyRules, CompileCollection, CompileRule, ReadableEntry, Open, UnrelatedFields, GetPath;
    if c.collection in plan && plan[c.collection].gate(d) {
      CompiledGates(lang, reg, c, d);
      UntouchedPath(plan[c.collection].rules, d, field);
    }
  }

  lemma {:induction false} LastIndex(rules: seq<Rule>, r: Rule) returns (i: nat)
    requires r in rules
    ensures i < |rules| && rules[i] == r && forall j | i < j < |rules| :: rules[j] != r
  {
    i := |rules| - 1;
    if rules[i] != r {
      assert rules == rules[..i] + [rules[i]];
      i := LastIndex(rules[..i], r);
    }
  }

  /**
   What an entry makes of a field that one of its rules is about: the transformer's result where entry
   and rule are open, and the field as it was elsewhere.
   */
  lemma FieldAfterwards(lang: Condition.Lang, reg: Registry, c: CollectionConfig, plan: Plan, r: Rule, t: Transformer,
                        d: Document)
    requires ReadableEntry(lang, c) && r in c.transformers && Plain(r) && Alone(lang, c, r, d)
    requires c.collection in plan && CompileCollection(lang, reg, c) == Success(plan[c.collection])
    requires Builds(reg, r.name, r.params, t) && TransformOutcome(plan, c.collection, d).Success?
    ensures var before, after := GetPath(d, r.field), Afterwards(plan, c.collection, d, r.field);
            if Runs(lang, c, r, d) then
              t(Condition.OrNull(before), d).Success? && after == Some(t(Condition.OrNull(before), d).value)
            else after == before
  {
    hide ApplyRules, CompileCollection, ReadableGate, Open, UnrelatedFields, GetPath;
    var rules := plan[c.collection].rules;
    if Runs(lang, c, r, d) {
      CompiledGates(lang, reg, c, d);
      var i := LastIndex(c.transformers, r);
      assert forall j | i < j < |rules| :: c.transformers[j] in c.transformers;
      RuleResultStands(rules, d, i);
    } else {
      PassedFieldStays(lang, reg, c, plan, r.field, d);
    }
  }

  // The result of one configured rule, with its cast and its parameters.

  /** What is done to the value first: the configured type's cast, or nothing. */
  ghost predicate CastIs(reg: Registry, r: Rule, cast: Value -> Result<Value, string>) {
    match r.typeOverride
    case None => forall v :: cast(v) == Success(v)
    case Some(name) => reg.castTo(name) == Some(cast)
  }

  /** The transformer that runs on this document: built from the static parameters, or from those read off it. */
  ghost predicate BuiltFor(reg: Registry, r: Rule, d: Document, t: Transformer) {
    reg.known(r.name) && reg.validate(r.name, r.params).Success? &&
    var base := reg.validate(r.name, r.params).value;
    if r.dynamicParams == map[] then reg.build(r.name, base) == Success(t)
    else
      reg.dynamicOf(r.name, r.dynamicParams).Success? &&
      var resolve := reg.dynamicOf(r.name, r.dynamicParams).value;
      resolve(d, base).Success? && reg.build(r.name, resolve(d, base).value) == Success(t)
  }

  /** The parameters cannot be read off this document, or no transformer can be built from them. */
  ghost predicate NotBuiltFor(reg: Registry, r: Rule, d: Document, e: string) {
    r.dynamicParams != map[] && reg.validate(r.name, r.params).Success? &&
    reg.dynamicOf(r.name, r.dynamicParams).Success? &&
    var base, resolve := reg.validate(r.name, r.params).value, reg.dynamicOf(r.name, r.dynamicParams).value;
    resolve(d, base) == Failure(e) ||
    (resolve(d, base).Success? && reg.build(r.name, resolve(d, base).value) == Failure(e))
  }

  lemma RuleProduces(lang: Condition.Lang, reg: Registry, r: Rule, cast: Value -> Result<Value, string>, t: Transformer,
                     d: Document)
    requires ReadableGate(lang, r.when) && CompileRule(lang, reg, r).Success? && CastIs(reg, r, cast)
    requires Open(lang, r.when, d)
    ensures var input := cast(Condition.OrNull(GetPath(d, r.field)));
            var out := Produce(CompileRule(lang, reg, r).value, d);
            if input.Failure? then out == Failure(input.error)
            else
              (BuiltFor(reg, r, d, t) ==>
                 if t(input.value, d).Success? then out == Success(Some(t(input.value, d).value))
                 else out == Failure(t(input.value, d).error)) &&
              (forall e | NotBuiltFor(reg, r, d, e) :: out == Failure(e))
  {
    hide ReadableGate, GetPath;
  }

  /**
   Where a rule runs on a document that is transformed, its field holds what the transformer makes
   of the cast value: the transformer built for this very document, the cast of the configured type.
   */
  lemma RuleAfterwards(lang: Condition.Lang, reg: Registry, c: CollectionConfig, plan: Plan, r: Rule,
                       cast: Value -> Result<Value, string>, t: Transformer, d: Document)
    requires ReadableEntry(lang, c) && r in c.transformers && Alone(lang, c, r, d) && Runs(lang, c, r, d)
    requires c.collection in plan && CompileCollection(lang, reg, c) == Success(plan[c.collection])
    requires CastIs(reg, r, cast) && BuiltFor(reg, r, d, t) && TransformOutcome(plan, c.collection, d).Success?
    ensures var input := cast(Condition.OrNull(GetPath(d, r.field)));
            input.Success? && t(input.value, d).Success? &&
            Afterwards(plan, c.collection, d, r.field) == Some(t(input.value, d).value)
  {
    hide ApplyRules, CompileCollection, CompileRule, Produce, ReadableGate, Open, UnrelatedFields, GetPath, CastIs;
    hide BuiltFor, NotBuiltFor;
    var rules := plan[c.collection].rules;
    CompiledGates(lang, reg, c, d);
    var i := LastIndex(c.transformers, r);
    assert forall j | i < j < |rules| :: c.transformers[j] in c.transformers;
    RuleResultStands(rules, d, i);
    RuleProduces(lang, reg, r, cast, t, d);
  }

  /** A collection with one rule: the document is the old one with the result written, or the first error on the way. */
  lemma OneRuleOutcome(lang: Condition.Lang, reg: Registry, c: CollectionConfig, plan: Plan, r: Rule,
                       cast: Value -> Result<Value, string>, t: Transformer, d: Document)
    requires ReadableEntry(lang, c) && c.transformers == [r] && CastIs(reg, r, cast)
    requires c.collection in plan && CompileCollection(lang, reg, c) == Success(plan[c.collection])
    ensures var out, input := TransformOutcome(plan, c.collection, d), cast(Condition.OrNull(GetPath(d, r.field)));
            if !Runs(lang, c, r, d) then out == Success(d)
            else if input.Failure? then out == Failure(input.error)
            else
              (BuiltFor(reg, r, d, t) ==>
                 if t(input.value, d).Success? then out == Success(SetPath(d, r.field, t(input.value, d).value))
                 else out == Failure(t(input.value, d).error)) &&
              (forall e | NotBuiltFor(reg, r, d, e) :: out == Failure(e))
  {
    hide CompileCollection, CompileRule, ReadableGate, Open, GetPath, SetPath, CastIs, BuiltFor, NotBuiltFor, Produce;
    CompiledGates(lang, reg, c, d);
    var rules := plan[c.collection].rules;
    assert rules[..0] == [] && rules[..1] == rules && ApplyRules(rules[..0], d) == Success(d);
    if Runs(lang, c, r, d) {
      RuleProduces(lang, reg, r, cast, t, d);
    } else if plan[c.collection].gate(d) {
      ShutRuleProduces(rules[0], d);
    }
  }

  lemma ShutRuleProduces(rule: CompiledRule, d: Document)
    requires !rule.gate(d)
    ensures Produce(rule, d) == Success(None)
  {
  }

  /** With several rules, a document fails exactly when one of them alone would, with the first such error. */
  lemma FailsWithFirst(lang: Condition.Lang, reg: Registry, c: CollectionConfig, plan: Plan, d: Document)
    requires ReadableEntry(lang, c)
    requires c.collection in plan && CompileCollection(lang, reg, c) == Success(plan[c.collection])
    requires Open(lang, c.when, d)
    ensures var rules := plan[c.collection].rules;
            |rules| == |c.transformers| &&
            match TransformOutcome(plan, c.collection, d)
            case Success(_) => forall i | 0 <= i < |rules| :: ApplyRules([rules[i]], d).Success?
            case Failure(e) => exists i | 0 <= i < |rules| ::
              ApplyRules([rules[i]], d) == Failure(e) && forall j | 0 <= j < i :: ApplyRules([rules[j]], d).Success?
  {
    hide CompileCollection, CompileRule, ReadableGate, Produce;
    CompiledGates(lang, reg, c, d);
    FirstErrorCounts(plan[c.collection].rules, d);
  }

  lemma {:induction false} FirstErrorCounts(rules: seq<CompiledRule>, d: Document)
    ensures match ApplyRules(rules, d)
            case Success(_) => forall i | 0 <= i < |rules| :: ApplyRules([rules[i]], d).Success?
            case Failure(e) => exists i | 0 <= i < |rules| ::
              ApplyRules([rules[i]], d) == Failure(e) && forall j | 0 <= j < i :: ApplyRules([rules[j]], d).Success?
    decreases |rules|
  {
    hide Produce;
    if rules != [] {
      var last := |rules| - 1;
      FirstErrorCounts(rules[..last], d);
      assert forall i | 0 <= i < last :: rules[..last][i] == rules[i];
      assert [rules[last]][..0] == [];
      assert ApplyRules([], d) == Success(d);
      if ApplyRules(rules[..last], d).Success? && ApplyRules(rules, d).Failure? {
        assert ApplyRules([rules[last]], d) == ApplyRules(rules, d);
      }
    }
  }

  // Consistency across a reference.

  /** The rule a referring field inherits. */
  function CopyFor(e: Edge, r: Rule): Rule {
    Rule(e.fromField, r.name, r.params, None, map[], false, None)
  }

  /** The referring field has no rule of its own, and the first it could inherit from runs what this rule runs. */
  ghost predicate FirstSourceIs(configs: seq<CollectionConfig>, edges: seq<Edge>, e: Edge, r: Rule) {
    var explicit := Explicit(configs);
    !HasExplicit(explicit, e.fromCollection, e.fromField) &&
    forall k: nat | IsFirstSource(explicit, edges, e.fromCollection, e.fromField, k) ::
      explicit[k].name == r.name && explicit[k].params == r.params
  }

  /** And there is one to inherit from. */
  ghost predicate Inherits(configs: seq<CollectionConfig>, edges: seq<Edge>, e: Edge, r: Rule) {
    FirstSourceIs(configs, edges, e, r) &&
    exists k: nat :: IsSource(Explicit(configs), edges, e.fromCollection, e.fromField, k)
  }

  /** A configured rule on the field that the reference points at. */
  predicate Targets(configs: seq<CollectionConfig>, edges: seq<Edge>, c: CollectionConfig, r: Rule, e: Edge) {
    c in configs && r in c.transformers && Plain(r) &&
    e in edges && e.toField == r.field && c.collection in e.TargetCollections()
  }

  /** The same, where the rule propagates and no other transformer comes before it. */
  ghost predicate Propagates(configs: seq<CollectionConfig>, edges: seq<Edge>, c: CollectionConfig, r: Rule, e: Edge) {
    Targets(configs, edges, c, r, e) && r.applyForReferences && FirstSourceIs(configs, edges, e, r)
  }

  lemma {:induction false} RuleIsExplicit(configs: seq<CollectionConfig>, c: CollectionConfig, r: Rule) returns (k: nat)
    requires c in configs && r in c.transformers
    ensures k < |Explicit(configs)|
    ensures Explicit(configs)[k] == FieldTransform(c.collection, r.field, r.name, r.params, r.applyForReferences, false)
  {
    var first, rest := RulesOf(configs[0]), Explicit(configs[1..]);
    if c == configs[0] {
      k :| 0 <= k < |c.transformers| && c.transformers[k] == r;
      assert (first + rest)[k] == first[k];
    } else {
      var j := RuleIsExplicit(configs[1..], c, r);
      k := |first| + j;
      assert (first + rest)[k] == rest[j];
    }
  }

  lemma PropagatingIsInherited(configs: seq<CollectionConfig>, edges: seq<Edge>, c: CollectionConfig, r: Rule, e: Edge)
    requires Propagates(configs, edges, c, r, e)
    ensures Inherits(configs, edges, e, r)
  {
    hide Explicit, FirstSourceIs;
    var k := RuleIsExplicit(configs, c, r);
    SourceShows(Explicit(configs), edges, e, k);
  }

  /** The referring field inherits a plain copy of the rule. */
  lemma CopyIsInherited(configs: seq<CollectionConfig>, edges: seq<Edge>, e: Edge, r: Rule)
    requires Inherits(configs, edges, e, r)
    ensures var explicit := Explicit(configs);
            CopyFor(e, r) in InheritedOn(AddSources(explicit, edges, |explicit|), e.fromCollection)
  {
    hide AddSources, Explicit, InheritedOn;
    var explicit := Explicit(configs);
    var ts := AddSources(explicit, edges, |explicit|);
    ExplicitIsNotInherited(configs);
    SourcesInherit(explicit, edges, |explicit|, e.fromCollection, e.fromField);
    var t :| t in ts && On(t, e.fromCollection, e.fromField) && t.inherited;
    InheritedIsOn(ts, t);
    assert InheritedRule(t) == CopyFor(e, r);
  }

  /** After the expansion the copy is in the entry that counts for the referring collection, if it had at most one. */
  lemma ReferrerCarries(configs: seq<CollectionConfig>, edges: seq<Edge>, e: Edge, r: Rule)
    requires Inherits(configs, edges, e, r) && Times(configs, e.fromCollection) <= 1
    ensures var out := LastOf(Expanded(configs, edges), e.fromCollection);
            out.Some? && CopyFor(e, r) in out.value.transformers &&
            out.value.when == EntryOf(configs, e.fromCollection).when
  {
    hide AddSources, AddInherited, Explicit, Inherits, LastOf, Times;
    CopyIsInherited(configs, edges, e, r);
    ExpandedLast(configs, AddSources(Explicit(configs), edges, |Explicit(configs)|), e.fromCollection);
  }

  /** And a configured rule of the entry that counts is still there. */
  lemma TargetCarries(configs: seq<CollectionConfig>, edges: seq<Edge>, c: CollectionConfig, r: Rule)
    requires LastOf(configs, c.collection) == Some(c) && r in c.transformers
    ensures var out := LastOf(Expanded(configs, edges), c.collection);
            out.Some? && r in out.value.transformers && out.value.when == c.when
  {
    hide AddSources, AddInherited, Explicit, LastOf, Times;
    ExpandedLast(configs, AddSources(Explicit(configs), edges, |Explicit(configs)|), c.collection);
  }

  /** The transformer does not change the value, which is there. */
  ghost predicate KeepsValue(t: Transformer, before: Option<Value>, d: Document) {
    before.Some? && t(before.value, d) == Success(before.value)
  }

  /** A configuration with declared references, and the plan it compiles to. */
  datatype Compilation = Compilation(
    lang: Condition.Lang,
    reg: Registry,
    configs: seq<CollectionConfig>,
    edges: seq<Edge>,
    plan: Plan)
  {
    ghost predicate Valid() {
      ReadableConfigs(lang, configs) && ReadableConfigs(lang, Expanded(configs, edges)) &&
      IsPlan(lang, reg, Expanded(configs, edges), plan)
    }

    /** A collection's entry once the inherited rules are in. */
    ghost function Entry(name: string): (c: CollectionConfig)
      requires Valid()
      ensures ReadableEntry(lang, c) && c.collection == name
      ensures if LastOf(Expanded(configs, edges), name).Some? then
                name in plan && CompileCollection(lang, reg, c) == Success(plan[name])
              else name !in plan
    {
      PlainGateReadable(lang);
      EntryOf(Expanded(configs, edges), name)
    }

    /** The gate of a collection, as configured, is open to the document. */
    ghost predicate Admits(name: string, d: Document)
      requires Valid()
    {
      PlainGateReadable(lang);
      Open(lang, EntryOf(configs, name).when, d)
    }

    ghost predicate BothTransform(e: Edge, c: CollectionConfig, x: Document, y: Document) {
      TransformOutcome(plan, c.collection, x).Success? && TransformOutcome(plan, e.fromCollection, y).Success?
    }
  }

  /**
   When one side of a reference runs a rule and the other passes its field by, whichever they are, the
   values stay equal exactly when the rule is shut to the document or does not change the value.
   */
  lemma PassedReferenceStaysIff(k: Compilation, name: string, r: Rule, t: Transformer, x: Document, other: string,
                                field: string, y: Document)
    requires k.Valid() && Plain(r) && Builds(k.reg, r.name, r.params, t)
    requires r in k.Entry(name).transformers && Alone(k.lang, k.Entry(name), r, x)
    requires PassesBy(k.lang, k.Entry(other), field, y)
    requires TransformOutcome(k.plan, name, x).Success? && TransformOutcome(k.plan, other, y).Success?
    requires GetPath(x, r.field) == GetPath(y, field)
    ensures Afterwards(k.plan, name, x, r.field) == Afterwards(k.plan, other, y, field) <==>
            !Runs(k.lang, k.Entry(name), r, x) || KeepsValue(t, GetPath(x, r.field), x)
  {
    hide CompileCollection, ReadableGate, Open, PassesBy, Alone, Builds, GetPath, TransformOutcome, IsPlan, Expanded;
    hide Plain;
    FieldAfterwards(k.lang, k.reg, k.Entry(name), k.plan, r, t, x);
    PassedFieldStays(k.lang, k.reg, k.Entry(other), k.plan, field, y);
  }

  /** What becomes of a field's value if the transformer runs on it, or does not. */
  function Through(runs: bool, t: Transformer, before: Option<Value>, d: Document): Option<Value> {
    if runs && t(Condition.OrNull(before), d).Success? then Some(t(Condition.OrNull(before), d).value) else before
  }

  /**
   Where the referring field inherits some rule `s`, not necessarily the one on its target, the two
   sides end as their own gates and transformers make them, from the value they shared.
   */
  lemma SidesAfterwards(k: Compilation, c: CollectionConfig, r: Rule, t: Transformer, e: Edge, s: Rule, u: Transformer,
                        x: Document, y: Document)
    requires k.Valid() && Targets(k.configs, k.edges, c, r, e) && LastOf(k.configs, c.collection) == Some(c)
    requires Inherits(k.configs, k.edges, e, s) && Times(k.configs, e.fromCollection) <= 1
    requires Builds(k.reg, r.name, r.params, t) && Builds(k.reg, s.name, s.params, u)
    requires Alone(k.lang, k.Entry(c.collection), r, x)
    requires Alone(k.lang, k.Entry(e.fromCollection), CopyFor(e, s), y)
    requires k.BothTransform(e, c, x, y) && GetPath(x, r.field) == GetPath(y, e.fromField)
    ensures var before := GetPath(x, r.field);
            Afterwards(k.plan, c.collection, x, r.field) == Through(Runs(k.lang, c, r, x), t, before, x) &&
            Afterwards(k.plan, e.fromCollection, y, e.fromField) ==
              Through(k.Admits(e.fromCollection, y), u, before, y)
    ensures Runs(k.lang, c, r, x) ==> t(Condition.OrNull(GetPath(x, r.field)), x).Success?
    ensures k.Admits(e.fromCollection, y) ==> u(Condition.OrNull(GetPath(x, r.field)), y).Success?
  {
    hide CompileCollection, ReadableGate, Alone, Builds, GetPath, TransformOutcome, IsPlan, Expanded, Times, LastOf;
    hide Inherits;
    TargetCarries(k.configs, k.edges, c, r);
    ReferrerCarries(k.configs, k.edges, e, s);
    FieldAfterwards(k.lang, k.reg, k.Entry(c.collection), k.plan, r, t, x);
    FieldAfterwards(k.lang, k.reg, k.Entry(e.fromCollection), k.plan, CopyFor(e, s), u, y);
  }

  /**
   The values on the two sides of a reference, equal before, are equal after the transformation if and
   only if the gates on both sides are open or shut alike, or the transformer does not change the
   value. The referring collection has one entry or none.
   */
  lemma ReferenceStaysIff(k: Compilation, c: CollectionConfig, r: Rule, e: Edge, t: Transformer, x: Document,
                          y: Document)
    requires k.Valid() && Propagates(k.configs, k.edges, c, r, e) && LastOf(k.configs, c.collection) == Some(c)
    requires Builds(k.reg, r.name, r.params, t) && ValueOnly(t) && Times(k.configs, e.fromCollection) <= 1
    requires Alone(k.lang, k.Entry(c.collection), r, x)
    requires Alone(k.lang, k.Entry(e.fromCollection), CopyFor(e, r), y)
    requires k.BothTransform(e, c, x, y) && GetPath(x, r.field) == GetPath(y, e.fromField)
    ensures Afterwards(k.plan, c.collection, x, r.field) == Afterwards(k.plan, e.fromCollection, y, e.fromField) <==>
            (Runs(k.lang, c, r, x) <==> k.Admits(e.fromCollection, y)) || KeepsValue(t, GetPath(x, r.field), x)
  {
    var before := Condition.OrNull(GetPath(x, r.field));
    assert t(before, x) == t(before, y);
    hide CompileCollection, ReadableGate, Alone, Builds, GetPath, Afterwards, IsPlan, Expanded, ValueOnly, Times;
    hide LastOf, Inherits, FirstSourceIs;
    PropagatingIsInherited(k.configs, k.edges, c, r, e);
    SidesAfterwards(k, c, r, t, e, r, t, x, y);
  }

  /**
   A reference whose target's rule is not the one its field inherits, as a polymorphic reference may
   have: with open gates the sides stay equal exactly when both transformers give the value the same.
   */
  lemma TwoSourcesStayIff(k: Compilation, c: CollectionConfig, r: Rule, t: Transformer, e: Edge, s: Rule,
                          u: Transformer, x: Document, y: Document)
    requires k.Valid() && Targets(k.configs, k.edges, c, r, e) && LastOf(k.configs, c.collection) == Some(c)
    requires Inherits(k.configs, k.edges, e, s) && Times(k.configs, e.fromCollection) <= 1
    requires Builds(k.reg, r.name, r.params, t) && Builds(k.reg, s.name, s.params, u)
    requires Alone(k.lang, k.Entry(c.collection), r, x) && Runs(k.lang, c, r, x)
    requires Alone(k.lang, k.Entry(e.fromCollection), CopyFor(e, s), y) && k.Admits(e.fromCollection, y)
    requires k.BothTransform(e, c, x, y) && GetPath(x, r.field) == GetPath(y, e.fromField)
    ensures Afterwards(k.plan, c.collection, x, r.field) == Afterwards(k.plan, e.fromCollection, y, e.fromField) <==>
            t(Condition.OrNull(GetPath(x, r.field)), x) == u(Condition.OrNull(GetPath(x, r.field)), y)
  {
    hide CompileCollection, ReadableGate, Alone, Builds, GetPath, Afterwards, IsPlan, Expanded, Times, LastOf, Inherits;
    SidesAfterwards(k, c, r, t, e, s, u, x, y);
  }

  /** Without conditions on the two sides, values that are equal across the reference stay equal. */
  lemma ReferencesStayConsistent(k: Compilation, c: CollectionConfig, r: Rule, e: Edge, t: Transformer, x: Document,
                                 y: Document)
    requires k.Valid() && Propagates(k.configs, k.edges, c, r, e) && LastOf(k.configs, c.collection) == Some(c)
    requires Builds(k.reg, r.name, r.params, t) && ValueOnly(t) && Times(k.configs, e.fromCollection) <= 1
    requires c.when == None && r.when == None && EntryOf(k.configs, e.fromCollection).when == None
    requires Alone(k.lang, k.Entry(c.collection), r, x)
    requires Alone(k.lang, k.Entry(e.fromCollection), CopyFor(e, r), y)
    requires k.BothTransform(e, c, x, y) && GetPath(x, r.field) == GetPath(y, e.fromField)
    ensures Afterwards(k.plan, c.collection, x, r.field) == Afterwards(k.plan, e.fromCollection, y, e.fromField)
  {
    hide Afterwards, Alone, Builds, GetPath, ValueOnly, Times, LastOf, Propagates;
    ReferenceStaysIff(k, c, r, e, t, x, y);
  }

  /**
   Where the referring collection has several entries and the last does not touch the field, the sides
   stay equal exactly when the rule is shut to the document or does not change the value.
   */
  lemma RepeatedReferrerStaysIff(k: Compilation, c: CollectionConfig, r: Rule, e: Edge, t: Transformer, x: Document,
                                 y: Document)
    requires k.Valid() && Propagates(k.configs, k.edges, c, r, e) && LastOf(k.configs, c.collection) == Some(c)
    requires Builds(k.reg, r.name, r.params, t) && Times(k.configs, e.fromCollection) > 1
    requires Alone(k.lang, k.Entry(c.collection), r, x)
    requires ReadableEntry(k.lang, EntryOf(k.configs, e.fromCollection)) &&
             PassesBy(k.lang, EntryOf(k.configs, e.fromCollection), e.fromField, y)
    requires k.BothTransform(e, c, x, y) && GetPath(x, r.field) == GetPath(y, e.fromField)
    ensures Afterwards(k.plan, c.collection, x, r.field) == Afterwards(k.plan, e.fromCollection, y, e.fromField) <==>
            !Runs(k.lang, c, r, x) || KeepsValue(t, GetPath(x, r.field), x)
  {
    hide CompileCollection, ReadableGate, Alone, PassesBy, Builds, GetPath, TransformOutcome, IsPlan, AddSources;
    hide Explicit, LastOf, Inherits, AddInherited, Afterwards, Times;
    var explicit := Explicit(k.configs);
    TargetCarries(k.configs, k.edges, c, r);
    ExpandedLast(k.configs, AddSources(explicit, k.edges, |explicit|), e.fromCollection);
    PassedReferenceStaysIff(k, c.collection, r, t, x, e.fromCollection, e.fromField, y);
  }

  /**
   Where a later entry replaces the one with the rule and does not touch the field, only the referring
   side is transformed: the sides stay equal exactly when its gate is shut or the value does not change.
   */
  lemma ReplacedRuleStaysIff(k: Compilation, c: CollectionConfig, r: Rule, e: Edge, t: Transformer, x: Document,
                             y: Document)
    requires k.Valid() && Propagates(k.configs, k.edges, c, r, e) && Times(k.configs, e.fromCollection) <= 1
    requires Builds(k.reg, r.name, r.params, t)
    requires PassesBy(k.lang, k.Entry(c.collection), r.field, x)
    requires Alone(k.lang, k.Entry(e.fromCollection), CopyFor(e, r), y)
    requires k.BothTransform(e, c, x, y) && GetPath(x, r.field) == GetPath(y, e.fromField)
    ensures Afterwards(k.plan, c.collection, x, r.field) == Afterwards(k.plan, e.fromCollection, y, e.fromField) <==>
            !k.Admits(e.fromCollection, y) || KeepsValue(t, GetPath(y, e.fromField), y)
  {
    hide CompileCollection, ReadableGate, Alone, PassesBy, Builds, GetPath, TransformOutcome, IsPlan, Expanded;
    hide LastOf, Inherits, Afterwards, Times;
    PropagatingIsInherited(k.configs, k.edges, c, r, e);
    ReferrerCarries(k.configs, k.edges, e, r);
    PassedReferenceStaysIff(k, e.fromCollection, CopyFor(e, r), t, y, c.collection, r.field, x);
  }

  // Two such inputs.

  /** The plan, when every entry compiles. */
  ghost function PlanOf(lang: Condition.Lang, reg: Registry, configs: seq<CollectionConfig>): (plan: Plan)
    requires ReadableConfigs(lang, configs) && forall c <- configs :: CompileCollection(lang, reg, c).Success?
    ensures IsPlan(lang, reg, configs, plan)
  {
    hide CompileCollection, ReadableEntry;
    NamesAreFinite(configs);
    map name | name in (set c <- configs :: c.collection) && LastOf(configs, name).Some? ::
      CompileCollection(lang, reg, LastOf(configs, name).value).value
  }

  lemma NamesAreFinite(configs: seq<CollectionConfig>)
    ensures forall name :: LastOf(configs, name).Some? <==> exists c <- configs :: c.collection == name
  {
    forall name
      ensures LastOf(configs, name).Some? <==> exists c <- configs :: c.collection == name
    {
      Present(configs, name);
    }
  }

  lemma {:induction false} Present(configs: seq<CollectionConfig>, name: string)
    ensures LastOf(configs, name).Some? <==> exists c <- configs :: c.collection == name
  {
    if configs != [] {
      Present(configs[1..], name);
      assert forall c <- configs :: c == configs[0] || c in configs[1..];
      assert configs[0] in configs && forall c <- configs[1..] :: c in configs;
    }
  }

  /** A catalog whose only transformer writes the same text over every value. */
  const WIPE: Transformer := (v, d) => Success(Str("wiped"))

  const WIPING: Registry := Registry(
    name => true,
    (name, params) => Success(params),
    (name, params) => Success(WIPE),
    (name, params) => Failure("no dynamic parameters"),
    name => None)

  const WIPE_ID := Rule("_id", "wipe", map[], None, map[], true, None)

  const USERS := CollectionConfig("users", None, None, [WIPE_ID])

  const ORDER_OF_USER := Edge("orders", "user", "_id", false, Target.Fixed("users"))

  function Orders(when: Option<string>): CollectionConfig {
    CollectionConfig("orders", when, None, [])
  }

  /** What a user's `_id` propagates in both examples: users and orders, with one more entry for orders or none. */
  lemma ExampleInherits(when: Option<string>, more: seq<CollectionConfig>) returns (t: FieldTransform)
    requires more == [] || more == [Orders(None)]
    ensures var configs := [USERS, Orders(when)] + more;
            Explicit(configs) == RulesOf(USERS) &&
            AddSources(RulesOf(USERS), [ORDER_OF_USER], 1) == RulesOf(USERS) + [t] &&
            t.inherited && t.collection == "orders" && InheritedRule(t) == CopyFor(ORDER_OF_USER, WIPE_ID)
  {
    var configs, later, edges := [USERS, Orders(when)] + more, [Orders(when)] + more, [ORDER_OF_USER];
    assert configs[1..] == later && later[1..] == more;
    assert RulesOf(Orders(when)) == [] && RulesOf(Orders(None)) == [];
    assert Explicit(more) == [] && Explicit(later) == RulesOf(Orders(when)) + Explicit(more);
    var source := FieldTransform("users", "_id", "wipe", map[], true, false);
    assert RulesOf(USERS) == [source];
    t := InheritedFrom(source, ORDER_OF_USER);
    assert AddEdges([source], source, edges, 0, [source]) == [source];
    assert AddSources([source], edges, 0) == [source];
    assert PointsAt(ORDER_OF_USER, source);
  }

  lemma ExampleExpands(when: Option<string>, more: seq<CollectionConfig>)
    requires more == [] || more == [Orders(None)]
    ensures var configs, edges := [USERS, Orders(when)] + more, [ORDER_OF_USER];
            Expanded(configs, edges) ==
              [USERS, Orders(when).(transformers := [CopyFor(ORDER_OF_USER, WIPE_ID)])] + more &&
            Propagates(configs, edges, USERS, WIPE_ID, ORDER_OF_USER)
  {
    var configs, later := [USERS, Orders(when)] + more, [Orders(when)] + more;
    var rules := RulesOf(USERS);
    var t := ExampleInherits(when, more);
    hide Explicit, AddSources;
    assert configs[1..] == later && later[1..] == more;
    assert (rules + [t])[..1] == rules && rules[..0] == [];
    assert AddInherited(configs, rules) == configs;
    assert [] + [InheritedRule(t)] == [InheritedRule(t)];
    AddRuleAt(later, t, 0);
    assert WIPE_ID in USERS.transformers && USERS in configs;
  }

  /** The plan of an example compiles, and both documents are transformed: the user's `_id` is wiped. */
  lemma ExamplePlan(lang: Condition.Lang, when: Option<string>, more: seq<CollectionConfig>) returns (k: Compilation)
    requires ReadableGate(lang, when) && Parses(when) && (more == [] || more == [Orders(None)])
    ensures k.configs == [USERS, Orders(when)] + more && k.edges == [ORDER_OF_USER] && k.reg == WIPING && k.lang == lang
    ensures k.Valid() && LastOf(Expanded(k.configs, k.edges), "users") == Some(USERS)
  {
    var configs, edges := [USERS, Orders(when)] + more, [ORDER_OF_USER];
    var out := Expanded(configs, edges);
    ExampleExpands(when, more);
    assert ReadableEntry(lang, USERS) && ReadableEntry(lang, Orders(when)) && ReadableEntry(lang, Orders(None));
    forall c <- out
      ensures ReadableEntry(lang, c) && CompileCollection(lang, WIPING, c).Success?
    {
      assert forall r <- c.transformers :: Compilable(WIPING, r);
      CollectionCompilesIff(lang, WIPING, c);
    }
    k := Compilation(lang, WIPING, configs, edges, PlanOf(lang, WIPING, out));
    LastOfMeans(out, "users", 0);
  }

  /**
   With two entries for `orders`, or one whose condition shuts out the order, the user's `_id` is
   wiped and the order still holds the old one.
   */
  lemma OrderKeepsOldId(lang: Condition.Lang, when: Option<string>, more: seq<CollectionConfig>, id: Value)
    requires ReadableGate(lang, when) && Parses(when) && id != Str("wiped")
    requires more == [Orders(None)] || (more == [] && !Open(lang, when, Single("user", id)))
    ensures exists k: Compilation ::
              k.configs == [USERS, Orders(when)] + more && k.edges == [ORDER_OF_USER] && k.Valid() &&
              Propagates(k.configs, k.edges, USERS, WIPE_ID, ORDER_OF_USER) &&
              var user, order := Single("_id", id), Single("user", id);
              k.BothTransform(ORDER_OF_USER, USERS, user, order) &&
              Afterwards(k.plan, "users", user, "_id") == Some(Str("wiped")) &&
              Afterwards(k.plan, "orders", order, "user") == Some(id)
  {
    var k := ExamplePlan(lang, when, more);
    ExampleExpands(when, more);
    LastOfMeans(Expanded(k.configs, k.edges), "orders", if more == [] then 1 else 2);
    hide Expanded, CompileCollection, IsPlan, Open, GetPath, TransformOutcome, Propagates, Explicit, Parses;
    UserIsWiped(k, id);
    OrderStays(k, id);
  }

  lemma OrderStays(k: Compilation, id: Value)
    requires k.Valid() && k.reg == WIPING
    requires var c := k.Entry("orders"); c.transformers == [] || !Open(k.lang, c.when, Single("user", id))
    ensures TransformOutcome(k.plan, "orders", Single("user", id)).Success?
    ensures Afterwards(k.plan, "orders", Single("user", id), "user") == Some(id)
  {
    var order, c := Single("user", id), k.Entry("orders");
    if "orders" in k.plan {
      CompiledGates(k.lang, WIPING, c, order);
    }
    PassedFieldStays(k.lang, WIPING, c, k.plan, "user", order);
    PlainKey(order, "user");
  }

  lemma UserIsWiped(k: Compilation, id: Value)
    requires k.Valid() && k.reg == WIPING && LastOf(Expanded(k.configs, k.edges), "users") == Some(USERS)
    ensures TransformOutcome(k.plan, "users", Single("_id", id)).Success?
    ensures Afterwards(k.plan, "users", Single("_id", id), "_id") == Some(Str("wiped"))
  {
    var user := Single("_id", id);
    assert k.Entry("users") == USERS;
    CompiledGates(k.lang, WIPING, USERS, user);
    FailsIffARuleFails(k.plan["users"].rules, user);
    FieldAfterwards(k.lang, WIPING, USERS, k.plan, WIPE_ID, WIPE, user);
  }
}
