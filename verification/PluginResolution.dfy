/** Binding the requirements of a package's plugins to providers, and planning the order
    in which the plugins run. */
module PluginResolution {
  import opened Sequences
  import opened Wrappers
  import opened Scheduling

  datatype Phase = GeneratePhase | PostPhase

  /** A contract: the identity of its payload type, and its stable name. */
  datatype Contract = Contract(typeId: nat, name: string)

  datatype Requirement = Requirement(contract: Contract, provider: Option<nat>, optional: bool)

  datatype Plugin = Plugin(id: nat, phase: Phase, supplies: seq<Contract>, needs: seq<Requirement>)

  datatype ResolveError =
    | DuplicateInstance
    | DeclaredTwice
    | IncompatibleContract
    | UnregisteredHandle
    | HandleDoesNotProvide
    | NoProvider
    | AmbiguousProvider
    | RequiredTwice
    | GenerateNeedsPost
    | DependencyCycle(plugins: set<nat>)

  /** For each required contract the instance that provides it, if any. */
  type Bindings = map<nat, Option<nat>>

  datatype Plan = Plan(order: seq<nat>, bindings: seq<Bindings>)

  // ----- specification

  predicate Provides(plugin: Plugin, typeId: nat) {
    exists c :: c in plugin.supplies && c.typeId == typeId
  }

  /** The plugins that provide a contract, in order. */
  function Candidates(plugins: seq<Plugin>, typeId: nat): (found: seq<nat>)
    ensures forall i: nat :: i in found <==> i < |plugins| && Provides(plugins[i], typeId)
    ensures forall a, b :: 0 <= a < b < |found| ==> found[a] < found[b]
  {
    if plugins == [] then []
    else
      var n := |plugins| - 1;
      var front := Candidates(plugins[..n], typeId);
      assert forall a :: 0 <= a < |front| ==> front[a] in front;
      if Provides(plugins[n], typeId) then front + [n] else front
  }

  predicate DistinctTypes(contracts: seq<Contract>) {
    forall i, j :: 0 <= i < j < |contracts| ==> contracts[i].typeId != contracts[j].typeId
  }

  predicate DistinctNeeds(needs: seq<Requirement>) {
    forall i, j :: 0 <= i < j < |needs| ==> needs[i].contract.typeId != needs[j].contract.typeId
  }

  predicate DistinctInstances(plugins: seq<Plugin>) {
    forall i, j :: 0 <= i < j < |plugins| ==> plugins[i].id != plugins[j].id
  }

  /** The contracts a plugin mentions: those it provides, then those it requires. */
  function Mentions(plugin: Plugin): seq<Contract> {
    plugin.supplies + seq(|plugin.needs|, i requires 0 <= i < |plugin.needs| => plugin.needs[i].contract)
  }

  /** A stable name stands for one payload type throughout the package. */
  predicate CompatibleNames(plugins: seq<Plugin>) {
    forall p, q :: p in plugins && q in plugins ==>
      forall c, d :: c in Mentions(p) && d in Mentions(q) && c.name == d.name ==> c.typeId == d.typeId
  }

  /** The plugin a requirement is bound to: none when it is optional and nothing provides it. */
  ghost predicate BoundTo(plugins: seq<Plugin>, need: Requirement, selected: Option<nat>) {
    var typeId := need.contract.typeId;
    && (selected.Some? ==> selected.value < |plugins| && Provides(plugins[selected.value], typeId))
    && (need.provider.Some? ==> selected.Some? && plugins[selected.value].id == need.provider.value)
    && (need.provider.None? && selected.Some? ==>
      forall i: nat :: i < |plugins| && Provides(plugins[i], typeId) ==> i == selected.value)
    && (selected.None? ==> need.optional && forall i :: 0 <= i < |plugins| ==> !Provides(plugins[i], typeId))
  }

  predicate PhaseAllows(plugins: seq<Plugin>, consumer: nat, selected: Option<nat>)
    requires consumer < |plugins| && (selected.Some? ==> selected.value < |plugins|)
  {
    selected.Some? ==> plugins[consumer].phase.PostPhase? || plugins[selected.value].phase.GeneratePhase?
  }

  ghost predicate Satisfiable(plugins: seq<Plugin>, consumer: nat, need: Requirement)
    requires consumer < |plugins|
  {
    exists selected :: BoundTo(plugins, need, selected) && PhaseAllows(plugins, consumer, selected)
  }

  ghost predicate CanBind(plugins: seq<Plugin>, i: nat)
    requires i < |plugins|
  {
    DistinctNeeds(plugins[i].needs) && forall need :: need in plugins[i].needs ==> Satisfiable(plugins, i, need)
  }

  ghost predicate Bindable(plugins: seq<Plugin>) {
    && DistinctInstances(plugins)
    && (forall p :: p in plugins ==> DistinctTypes(p.supplies))
    && CompatibleNames(plugins)
    && (forall i :: 0 <= i < |plugins| ==> CanBind(plugins, i))
  }

  /** `d` provides something that `i` requires. */
  ghost predicate BindsTo(plugins: seq<Plugin>, i: nat, d: nat) {
    i < |plugins| && exists need :: need in plugins[i].needs && BoundTo(plugins, need, Some(d))
  }

  /** The dependencies by contracts alone. */
  ghost predicate BindingEdges(plugins: seq<Plugin>, deps: Graph) {
    && |deps| == |plugins|
    && forall i: nat, d: nat :: i < |deps| ==> (d in deps[i] <==> BindsTo(plugins, i, d))
  }

  /** A post plugin also depends on every generation plugin. */
  function WithPhases(plugins: seq<Plugin>, deps: Graph): Graph
    requires |deps| == |plugins|
  {
    var generate := set j: nat | j < |plugins| && plugins[j].phase.GeneratePhase?;
    seq(|deps|, i requires 0 <= i < |deps| =>
      if plugins[i].phase.PostPhase? then deps[i] + generate else deps[i])
  }

  // ----- the phase boundary

  predicate AllowedEdge(plugins: seq<Plugin>, i: nat, d: nat) {
    i < |plugins| && d < |plugins| && (plugins[i].phase.GeneratePhase? ==> plugins[d].phase.GeneratePhase?)
  }

  ghost predicate RespectsPhases(plugins: seq<Plugin>, deps: Graph) {
    && |deps| == |plugins|
    && forall i: nat, d: nat :: i < |deps| && d in deps[i] ==> AllowedEdge(plugins, i, d)
  }

  /** Along a walk the phase only ever steps back from post to generation. */
  lemma {:induction false} PhaseNeverReturns(plugins: seq<Plugin>, deps: Graph, walk: seq<nat>, a: nat, b: nat)
    requires RespectsPhases(plugins, deps) && Walk(WithPhases(plugins, deps), walk)
    requires a <= b < |walk| && plugins[walk[a]].phase.GeneratePhase?
    ensures plugins[walk[b]].phase.GeneratePhase?
    decreases b
  {
    if a < b {
      PhaseNeverReturns(plugins, deps, walk, a, b - 1);
      assert walk[(b - 1) + 1] in WithPhases(plugins, deps)[walk[b - 1]];
      assert walk[b] in deps[walk[b - 1]];
    }
  }

  lemma SubWalk(deps: Graph, walk: seq<nat>, a: nat, b: nat)
    requires Walk(deps, walk) && a <= b <= |walk|
    ensures Walk(deps, walk[a..b])
  {
    var part := walk[a..b];
    forall j | 0 <= j < |part| - 1 ensures part[j + 1] in deps[part[j]] {
      assert walk[(a + j) + 1] in deps[walk[a + j]];
    }
  }

  /** The phase boundary creates no cycle of its own: with it the graph is acyclic exactly if
      the contracts alone are. */
  lemma PhasesAddNoCycle(plugins: seq<Plugin>, deps: Graph)
    requires RespectsPhases(plugins, deps)
    ensures Acyclic(WithPhases(plugins, deps)) <==> Acyclic(deps)
  {
    var full := WithPhases(plugins, deps);
    if !Acyclic(deps) {
      var i :| 0 <= i < |deps| && ReachesCycle(deps, i);
      var walk :| Walk(deps, walk) && walk != [] && walk[0] == i && Repeats(walk);
      assert Walk(full, walk);
      assert ReachesCycle(full, i);
    }
    if !Acyclic(full) {
      var i :| 0 <= i < |full| && ReachesCycle(full, i);
      var walk :| Walk(full, walk) && walk != [] && walk[0] == i && Repeats(walk);
      var a, b :| 0 <= a < b < |walk| && walk[a] == walk[b];
      SubWalk(full, walk, a, b + 1);
      CycleHasOnePhase(plugins, deps, walk[a..b + 1]);
      assert ReachesCycle(deps, walk[a]);
    }
  }

  lemma CycleHasOnePhase(plugins: seq<Plugin>, deps: Graph, cycle: seq<nat>)
    requires RespectsPhases(plugins, deps) && Walk(WithPhases(plugins, deps), cycle)
    requires |cycle| > 1 && cycle[0] == cycle[|cycle| - 1]
    ensures Walk(deps, cycle) && Repeats(cycle)
  {
    forall j | 0 <= j < |cycle| - 1 ensures cycle[j + 1] in deps[cycle[j]] {
      assert cycle[j + 1] in WithPhases(plugins, deps)[cycle[j]];
      if plugins[cycle[j]].phase.PostPhase? && plugins[cycle[j + 1]].phase.GeneratePhase? {
        PhaseNeverReturns(plugins, deps, cycle, j + 1, |cycle| - 1);
        PhaseNeverReturns(plugins, deps, cycle, 0, j);
      }
    }
  }

  /** Every generation plugin comes before every post plugin. */
  ghost predicate PhasesInOrder(plugins: seq<Plugin>, order: seq<nat>) {
    forall a, b :: 0 <= a < b < |order| && order[a] < |plugins| && order[b] < |plugins| ==>
      plugins[order[a]].phase.PostPhase? ==> plugins[order[b]].phase.PostPhase?
  }

  lemma OrderedPhases(plugins: seq<Plugin>, deps: Graph, order: seq<nat>)
    requires |deps| == |plugins| && IsOrder(WithPhases(plugins, deps), order)
    ensures PhasesInOrder(plugins, order)
  {
    forall a, b | 0 <= a < b < |order| && plugins[order[a]].phase.PostPhase?
      ensures plugins[order[b]].phase.PostPhase?
    {
      assert order[b] !in order[..a];
    }
  }

  // ----- resolution, as it is carried out

  method CheckSupplies(supplies: seq<Contract>) returns (distinct: bool)
    ensures distinct <==> DistinctTypes(supplies)
  {
    var seen: set<nat> := {};
    for k := 0 to |supplies|
      invariant forall typeId :: typeId in seen <==> exists j :: 0 <= j < k && supplies[j].typeId == typeId
      invariant DistinctTypes(supplies[..k])
    {
      if supplies[k].typeId in seen {
        return false;
      }
      seen := seen + {supplies[k].typeId};
    }
    assert supplies[..|supplies|] == supplies;
    distinct := true;
  }

  method CheckInstances(plugins: seq<Plugin>) returns (r: Result<map<nat, nat>, ResolveError>)
    ensures r.Ok? <==> DistinctInstances(plugins) && forall p :: p in plugins ==> DistinctTypes(p.supplies)
    ensures r.Err? ==> !r.error.DependencyCycle?
    ensures r.Ok? ==> forall id :: id in r.value <==> exists i :: 0 <= i < |plugins| && plugins[i].id == id
    ensures r.Ok? ==> forall id :: id in r.value ==> r.value[id] < |plugins| && plugins[r.value[id]].id == id
  {
    hide DistinctTypes;
    var instances: map<nat, nat> := map[];
    for i := 0 to |plugins|
      invariant forall j, k :: 0 <= j < k < i ==> plugins[j].id != plugins[k].id
      invariant forall j :: 0 <= j < i ==> DistinctTypes(plugins[j].supplies)
      invariant forall j :: 0 <= j < i ==> plugins[j].id in instances
      invariant forall id :: id in instances ==> instances[id] < i && plugins[instances[id]].id == id
    {
      if plugins[i].id in instances {
        return Err(DuplicateInstance);
      }
      instances := instances[plugins[i].id := i];
      var distinct := CheckSupplies(plugins[i].supplies);
      if !distinct {
        assert plugins[i] in plugins;
        return Err(DeclaredTwice);
      }
    }
    r := Ok(instances);
  }

  /** The contracts of the first plugins, in the order they are looked at. */
  function AllMentions(plugins: seq<Plugin>): (all: seq<Contract>)
    ensures forall c :: c in all <==> exists p :: p in plugins && c in Mentions(p)
  {
    if plugins == [] then []
    else AllMentions(plugins[..|plugins| - 1]) + Mentions(plugins[|plugins| - 1])
  }

  predicate Compatible(contracts: seq<Contract>) {
    forall i, j :: 0 <= i < |contracts| && 0 <= j < |contracts| && contracts[i].name == contracts[j].name ==>
      contracts[i].typeId == contracts[j].typeId
  }

  lemma CompatibleAll(plugins: seq<Plugin>)
    ensures Compatible(AllMentions(plugins)) <==> CompatibleNames(plugins)
  {
    var all := AllMentions(plugins);
    if Compatible(all) {
      forall p, q, c, d | p in plugins && q in plugins && c in Mentions(p) && d in Mentions(q) && c.name == d.name
        ensures c.typeId == d.typeId
      {
        assert c in all && d in all;
      }
    }
    if CompatibleNames(plugins) {
      forall i, j | 0 <= i < |all| && 0 <= j < |all| && all[i].name == all[j].name
        ensures all[i].typeId == all[j].typeId
      {
        assert all[i] in all && all[j] in all;
      }
    }
  }

  method CheckNames(plugins: seq<Plugin>) returns (ok: bool)
    ensures ok <==> CompatibleNames(plugins)
  {
    CompatibleAll(plugins);
    var contracts := AllMentions(plugins);
    var identities: map<string, nat> := map[];
    for i := 0 to |contracts|
      invariant forall j :: 0 <= j < i ==> contracts[j].name in identities && identities[contracts[j].name] == contracts[j].typeId
      invariant forall name :: name in identities ==> exists j :: 0 <= j < i && contracts[j].name == name
    {
      var Contract(typeId, name) := contracts[i];
      if name in identities {
        if identities[name] != typeId {
          return false;
        }
      } else {
        identities := identities[name := typeId];
      }
    }
    ok := true;
  }

  method Select(plugins: seq<Plugin>, instances: map<nat, nat>, need: Requirement) returns (r: Result<Option<nat>, ResolveError>)
    requires DistinctInstances(plugins)
    requires forall id :: id in instances <==> exists i :: 0 <= i < |plugins| && plugins[i].id == id
    requires forall id :: id in instances ==> instances[id] < |plugins| && plugins[instances[id]].id == id
    ensures r.Ok? ==> forall selected :: BoundTo(plugins, need, selected) <==> selected == r.value
    ensures r.Err? ==> forall selected :: !BoundTo(plugins, need, selected)
    ensures r.Err? ==> !r.error.DependencyCycle?
  {
    var candidates := Candidates(plugins, need.contract.typeId);
    if need.provider.Some? {
      if need.provider.value !in instances {
        return Err(UnregisteredHandle);
      }
      var selected := instances[need.provider.value];
      if selected !in candidates {
        return Err(HandleDoesNotProvide);
      }
      return Ok(Some(selected));
    }
    if |candidates| == 0 {
      return if need.optional then Ok(None) else Err(NoProvider);
    }
    assert candidates[0] in candidates;
    if |candidates| == 1 {
      return Ok(Some(candidates[0]));
    }
    assert candidates[1] in candidates && candidates[0] != candidates[1];
    r := Err(AmbiguousProvider);
  }

  /** The bindings of a plugin record, for each contract it requires, who provides it. */
  ghost predicate BindingsOf(plugins: seq<Plugin>, i: nat, bindings: Bindings)
    requires i < |plugins|
  {
    && (forall typeId :: typeId in bindings <==> exists need :: need in plugins[i].needs && need.contract.typeId == typeId)
    && forall need :: need in plugins[i].needs ==> Recorded(plugins, need, bindings)
  }

  function InstanceOf(plugins: seq<Plugin>, selected: Option<nat>): Option<nat> {
    if selected.Some? && selected.value < |plugins| then Some(plugins[selected.value].id) else None
  }

  ghost predicate Recorded(plugins: seq<Plugin>, need: Requirement, bindings: Bindings) {
    && need.contract.typeId in bindings
    && exists selected: Option<nat> ::
      BoundTo(plugins, need, selected) && bindings[need.contract.typeId] == InstanceOf(plugins, selected)
  }

  method Bind(plugins: seq<Plugin>, instances: map<nat, nat>, i: nat) returns (r: Result<(Bindings, set<nat>), ResolveError>)
    requires i < |plugins| && DistinctInstances(plugins)
    requires forall id :: id in instances <==> exists i :: 0 <= i < |plugins| && plugins[i].id == id
    requires forall id :: id in instances ==> instances[id] < |plugins| && plugins[instances[id]].id == id
    ensures r.Ok? <==> CanBind(plugins, i)
    ensures r.Ok? ==> BindingsOf(plugins, i, r.value.0)
    ensures r.Ok? ==> forall d: nat :: d in r.value.1 <==> BindsTo(plugins, i, d)
    ensures r.Ok? ==> forall d: nat :: d in r.value.1 ==> AllowedEdge(plugins, i, d)
    ensures r.Err? ==> !r.error.DependencyCycle?
  {
    hide BoundTo, Satisfiable, Recorded, BindingsOf, BindsTo, DistinctInstances;
    var needs := plugins[i].needs;
    var bound: Bindings := map[];
    var dependencies: set<nat> := {};
    for k := 0 to |needs|
      invariant DistinctNeeds(needs[..k])
      invariant forall j :: 0 <= j < k ==> Satisfiable(plugins, i, needs[j])
      invariant forall typeId :: typeId in bound <==> exists j :: 0 <= j < k && needs[j].contract.typeId == typeId
      invariant forall j :: 0 <= j < k ==> Recorded(plugins, needs[j], bound)
      invariant forall d :: d in dependencies <==> exists j :: 0 <= j < k && BoundTo(plugins, needs[j], Some(d))
      invariant forall d :: d in dependencies ==> AllowedEdge(plugins, i, d)
    {
      var need := needs[k];
      var selected := Select(plugins, instances, need);
      if selected.Err? {
        Unsatisfiable(plugins, i, need);
        return Err(selected.error);
      }
      SatisfiableExactly(plugins, i, need, selected.value);
      if need.contract.typeId in bound {
        return Err(RequiredTwice);
      }
      forall j | 0 <= j < k
        ensures Recorded(plugins, needs[j], bound[need.contract.typeId := InstanceOf(plugins, selected.value)])
      {
        KeepRecorded(plugins, needs[j], bound, need.contract.typeId, InstanceOf(plugins, selected.value));
      }
      bound := bound[need.contract.typeId := InstanceOf(plugins, selected.value)];
      NowRecorded(plugins, need, bound, selected.value);
      if selected.value.Some? {
        if plugins[i].phase.GeneratePhase? && plugins[selected.value.value].phase.PostPhase? {
          return Err(GenerateNeedsPost);
        }
        dependencies := dependencies + {selected.value.value};
      }
    }
    BindingsDone(plugins, i, bound, dependencies);
    r := Ok((bound, dependencies));
  }

  lemma Unsatisfiable(plugins: seq<Plugin>, i: nat, need: Requirement)
    requires i < |plugins| && forall selected :: !BoundTo(plugins, need, selected)
    ensures !Satisfiable(plugins, i, need)
  {
    hide BoundTo;
  }

  lemma SatisfiableExactly(plugins: seq<Plugin>, i: nat, need: Requirement, bound: Option<nat>)
    requires i < |plugins| && forall selected :: BoundTo(plugins, need, selected) <==> selected == bound
    ensures BoundTo(plugins, need, bound)
    ensures bound.Some? ==> bound.value < |plugins|
    ensures Satisfiable(plugins, i, need) <==> PhaseAllows(plugins, i, bound)
  {
    assert BoundTo(plugins, need, bound);
  }

  lemma KeepRecorded(plugins: seq<Plugin>, need: Requirement, bound: Bindings, typeId: nat, value: Option<nat>)
    requires Recorded(plugins, need, bound) && typeId !in bound
    ensures Recorded(plugins, need, bound[typeId := value])
  {
    hide BoundTo, InstanceOf;
  }

  lemma NowRecorded(plugins: seq<Plugin>, need: Requirement, bound: Bindings, selected: Option<nat>)
    requires BoundTo(plugins, need, selected)
    requires need.contract.typeId in bound && bound[need.contract.typeId] == InstanceOf(plugins, selected)
    ensures Recorded(plugins, need, bound)
  {
    hide BoundTo, InstanceOf;
  }

  lemma BindingsDone(plugins: seq<Plugin>, i: nat, bound: Bindings, dependencies: set<nat>)
    requires i < |plugins|
    requires forall typeId :: typeId in bound <==>
      exists j :: 0 <= j < |plugins[i].needs| && plugins[i].needs[j].contract.typeId == typeId
    requires forall j :: 0 <= j < |plugins[i].needs| ==> Recorded(plugins, plugins[i].needs[j], bound)
    requires forall d :: d in dependencies <==>
      exists j :: 0 <= j < |plugins[i].needs| && BoundTo(plugins, plugins[i].needs[j], Some(d))
    ensures BindingsOf(plugins, i, bound)
    ensures forall d :: d in dependencies <==> BindsTo(plugins, i, d)
    ensures forall need :: need in plugins[i].needs ==> exists j :: 0 <= j < |plugins[i].needs| && plugins[i].needs[j] == need
    ensures plugins[i].needs[..|plugins[i].needs|] == plugins[i].needs
  {
    hide BoundTo, Recorded;
    var needs := plugins[i].needs;
    forall need | need in needs ensures Recorded(plugins, need, bound) {
      var j :| 0 <= j < |needs| && needs[j] == need;
    }
    forall typeId | typeId in bound ensures exists need :: need in needs && need.contract.typeId == typeId {
      var j :| 0 <= j < |needs| && needs[j].contract.typeId == typeId;
      assert needs[j] in needs;
    }
  }

  method BindAll(plugins: seq<Plugin>, instances: map<nat, nat>) returns (r: Result<(seq<Bindings>, Graph), ResolveError>)
    requires DistinctInstances(plugins)
    requires forall id :: id in instances <==> exists i :: 0 <= i < |plugins| && plugins[i].id == id
    requires forall id :: id in instances ==> instances[id] < |plugins| && plugins[instances[id]].id == id
    ensures r.Ok? <==> forall i :: 0 <= i < |plugins| ==> CanBind(plugins, i)
    ensures r.Ok? ==> |r.value.0| == |plugins| && forall i :: 0 <= i < |plugins| ==> BindingsOf(plugins, i, r.value.0[i])
    ensures r.Ok? ==> BindingEdges(plugins, r.value.1) && RespectsPhases(plugins, r.value.1)
    ensures r.Err? ==> !r.error.DependencyCycle?
  {
    hide Satisfiable, BindsTo, BindingsOf, DistinctInstances, DistinctNeeds;
    var bindings: seq<Bindings> := [];
    var dependencies: Graph := [];
    for i := 0 to |plugins|
      invariant |bindings| == |dependencies| == i
      invariant forall j :: 0 <= j < i ==> CanBind(plugins, j)
      invariant forall j :: 0 <= j < i ==> BindingsOf(plugins, j, bindings[j])
      invariant forall j: nat, d: nat :: j < i ==> (d in dependencies[j] <==> BindsTo(plugins, j, d))
      invariant forall j: nat, d: nat :: j < i && d in dependencies[j] ==> AllowedEdge(plugins, j, d)
    {
      var bound := Bind(plugins, instances, i);
      if bound.Err? {
        return Err(bound.error);
      }
      bindings := bindings + [bound.value.0];
      dependencies := dependencies + [bound.value.1];
    }
    r := Ok((bindings, dependencies));
  }

  /** Resolution succeeds exactly when every requirement can be bound and the contracts alone
      form no cycle. The plan is then the least order in which every plugin runs after its
      providers and every post plugin after every generation plugin. */
  method Resolve(plugins: seq<Plugin>) returns (r: Result<Plan, ResolveError>, ghost deps: Graph)
    ensures Bindable(plugins) ==> BindingEdges(plugins, deps) && RespectsPhases(plugins, deps)
    ensures r.Ok? <==> Bindable(plugins) && Acyclic(deps)
    ensures r.Ok? ==> IsOrder(WithPhases(plugins, deps), r.value.order)
    ensures r.Ok? ==> LexicographicallyLeast(WithPhases(plugins, deps), r.value.order)
    ensures r.Ok? ==> PhasesInOrder(plugins, r.value.order)
    ensures r.Ok? ==> |r.value.bindings| == |plugins|
    ensures r.Ok? ==> forall i :: 0 <= i < |plugins| ==> BindingsOf(plugins, i, r.value.bindings[i])
    ensures r.Err? ==> (r.error.DependencyCycle? <==> Bindable(plugins))
    ensures r.Err? && r.error.DependencyCycle? ==>
      r.error.plugins == set i: nat | i < |plugins| && ReachesCycle(WithPhases(plugins, deps), i)
  {
    hide CanBind, BindingsOf, BindingEdges, DistinctInstances, CompatibleNames, DistinctTypes, IsOrder,
      LexicographicallyLeast, Acyclic, PhasesInOrder, ReachesCycle;
    deps := [];
    var instances := CheckInstances(plugins);
    if instances.Err? {
      return Err(instances.error), deps;
    }
    var compatible := CheckNames(plugins);
    if !compatible {
      return Err(IncompatibleContract), deps;
    }
    var bound := BindAll(plugins, instances.value);
    if bound.Err? {
      return Err(bound.error), deps;
    }
    var (bindings, dependencies) := bound.value;
    deps := dependencies;
    PhasesAddNoCycle(plugins, deps);
    var ordered := Order(WithPhases(plugins, dependencies));
    if ordered.Err? {
      return Err(DependencyCycle(ordered.error)), deps;
    }
    OrderedPhases(plugins, deps, ordered.value);
    r := Ok(Plan(ordered.value, bindings));
  }
}
