/** Running a resolved package: each phase in turn, each plugin with the contracts its
    providers published before it. */
module PackageRun {
  import opened Wrappers
  import opened Scheduling
  import opened PluginResolution

  /** A published contract belongs to an instance and has a payload type. */
  datatype Key = Key(instance: nat, typeId: nat)

  type Contracts<P> = map<Key, P>

  /** What a plugin sees: the payload of each contract it is bound to. */
  type Inputs<P> = map<nat, Option<P>>

  datatype RunError = Unpublished | Failed

  /** What the plugins do: given its index and its inputs, a plugin publishes payloads, or
      fails. A plugin can only publish contracts it declares. */
  type Behaviour<!P> = (nat, Inputs<P>) -> Option<map<nat, P>>

  /** The providers a plugin is bound to have published. */
  ghost predicate CanRead<P>(bindings: Bindings, contracts: Contracts<P>) {
    forall typeId :: typeId in bindings && bindings[typeId].Some? ==> Key(bindings[typeId].value, typeId) in contracts
  }

  function InputsOf<P>(bindings: Bindings, contracts: Contracts<P>): Inputs<P>
    requires CanRead(bindings, contracts)
  {
    map typeId | typeId in bindings ::
      if bindings[typeId].Some? then Some(contracts[Key(bindings[typeId].value, typeId)]) else None
  }

  ghost function Keys(plugin: Plugin): set<Key> {
    set k | 0 <= k < |plugin.supplies| :: Key(plugin.id, plugin.supplies[k].typeId)
  }

  /** The keys that the plugins at these positions publish. */
  ghost predicate PublishedBy<P>(plugins: seq<Plugin>, done: seq<nat>, contracts: Contracts<P>) {
    forall key :: key in contracts <==> exists k :: 0 <= k < |done| && done[k] < |plugins| && key in Keys(plugins[done[k]])
  }

  /** A plan as resolution makes it. */
  ghost predicate Planned(plugins: seq<Plugin>, deps: Graph, plan: Plan) {
    && DistinctInstances(plugins)
    && (forall p :: p in plugins ==> DistinctTypes(p.supplies))
    && BindingEdges(plugins, deps)
    && IsOrder(WithPhases(plugins, deps), plan.order)
    && PhasesInOrder(plugins, plan.order)
    && |plan.bindings| == |plugins|
    && forall i :: 0 <= i < |plugins| ==> BindingsOf(plugins, i, plan.bindings[i])
  }

  /** Whoever a plugin is bound to has run before it, so that all its reads succeed. */
  lemma ProvidersRanBefore<P>(plugins: seq<Plugin>, deps: Graph, plan: Plan, k: nat, contracts: Contracts<P>)
    requires Planned(plugins, deps, plan) && k < |plan.order|
    requires PublishedBy(plugins, plan.order[..k], contracts)
    ensures plan.order[k] < |plugins|
    ensures CanRead(plan.bindings[plan.order[k]], contracts)
  {
    var full := WithPhases(plugins, deps);
    var i := plan.order[k];
    var bindings := plan.bindings[i];
    assert i < |full|;
    forall typeId | typeId in bindings && bindings[typeId].Some?
      ensures Key(bindings[typeId].value, typeId) in contracts
    {
      assert BindingsOf(plugins, i, bindings);
      var need :| need in plugins[i].needs && need.contract.typeId == typeId;
      assert Recorded(plugins, need, bindings);
      var selected: Option<nat> :| BoundTo(plugins, need, selected) && bindings[typeId] == InstanceOf(plugins, selected);
      var d := selected.value;
      assert BindsTo(plugins, i, d);
      assert d in deps[i] && d in full[i];
      assert d in plan.order[..k];
      var at :| 0 <= at < k && plan.order[..k][at] == d;
      var c :| c in plugins[d].supplies && c.typeId == typeId;
      var s :| 0 <= s < |plugins[d].supplies| && plugins[d].supplies[s] == c;
      assert Key(plugins[d].id, typeId) in Keys(plugins[d]);
    }
  }

  /** A plugin's keys are its own: none of them was published before it ran. */
  lemma KeysAreFresh<P>(plugins: seq<Plugin>, deps: Graph, plan: Plan, k: nat, contracts: Contracts<P>, key: Key)
    requires Planned(plugins, deps, plan) && k < |plan.order|
    requires PublishedBy(plugins, plan.order[..k], contracts)
    requires plan.order[k] < |plugins| && key in Keys(plugins[plan.order[k]])
    ensures key !in contracts
  {
    forall j | 0 <= j < k && plan.order[..k][j] < |plugins|
      ensures key !in Keys(plugins[plan.order[..k][j]])
    {
      assert plan.order[j] != plan.order[k];
    }
  }

  /** Splitting an order by phase and running the parts one after the other is running it
      as it is. */
  function InPhase(plugins: seq<Plugin>, order: seq<nat>, phase: Phase): seq<nat> {
    if order == [] then []
    else
      var last := order[|order| - 1];
      var front := InPhase(plugins, order[..|order| - 1], phase);
      if last < |plugins| && plugins[last].phase == phase then front + [last] else front
  }

  lemma {:induction false} PhasesConcatenate(plugins: seq<Plugin>, order: seq<nat>)
    requires PhasesInOrder(plugins, order) && forall k :: 0 <= k < |order| ==> order[k] < |plugins|
    ensures InPhase(plugins, order, GeneratePhase) + InPhase(plugins, order, PostPhase) == order
  {
    hide PhasesInOrder;
    if order != [] {
      var front, last := order[..|order| - 1], order[|order| - 1];
      PhasesInFront(plugins, order);
      PhasesConcatenate(plugins, front);
      assert order == front + [last];
      if plugins[last].phase.GeneratePhase? {
        NoPost(plugins, order, front);
      }
    }
  }

  lemma PhasesInFront(plugins: seq<Plugin>, order: seq<nat>)
    requires PhasesInOrder(plugins, order) && order != []
    ensures PhasesInOrder(plugins, order[..|order| - 1])
  {
  }

  lemma {:induction false} NoPost(plugins: seq<Plugin>, order: seq<nat>, front: seq<nat>)
    requires PhasesInOrder(plugins, order) && forall k :: 0 <= k < |order| ==> order[k] < |plugins|
    requires order != [] && plugins[order[|order| - 1]].phase.GeneratePhase?
    requires front <= order
    ensures InPhase(plugins, front, PostPhase) == []
  {
    if front != [] {
      NoPost(plugins, order, front[..|front| - 1]);
      assert order[|front| - 1] == front[|front| - 1];
    }
  }

  lemma InPhaseGrows(plugins: seq<Plugin>, order: seq<nat>, phase: Phase, k: nat)
    requires k <= |order|
    ensures InPhase(plugins, order[..k], phase) <= InPhase(plugins, order, phase)
  {
    if k < |order| {
      InPhaseGrows(plugins, order[..|order| - 1], phase, k);
      assert order[..|order| - 1][..k] == order[..k];
    } else {
      assert order[..k] == order;
    }
  }

  /** What a plugin publishes when it runs with these contracts; none when it fails. */
  ghost function Output<P>(plan: Plan, behaviour: Behaviour<P>, i: nat, before: Contracts<P>): Option<map<nat, P>>
    requires i < |plan.bindings| && CanRead(plan.bindings[i], before)
  {
    behaviour(i, InputsOf(plan.bindings[i], before))
  }

  /** The plugin does not fail, and publishes everything it declares. */
  ghost predicate Succeeds<P>(plugins: seq<Plugin>, plan: Plan, behaviour: Behaviour<P>, i: nat, before: Contracts<P>) {
    && i < |plugins| && i < |plan.bindings|
    && CanRead(plan.bindings[i], before)
    && Output(plan, behaviour, i, before).Some?
    && forall c :: c in plugins[i].supplies ==> c.typeId in Output(plan, behaviour, i, before).value
  }

  /** One plugin runs: it reads only contracts that are there, and adds exactly the ones it
      declares, with the payloads it published, replacing none. */
  ghost predicate Executes<P>(plugins: seq<Plugin>, plan: Plan, behaviour: Behaviour<P>, i: nat, before: Contracts<P>, after: Contracts<P>) {
    && Succeeds(plugins, plan, behaviour, i, before)
    && (forall key :: key in Keys(plugins[i]) ==> key !in before)
    && after.Keys == before.Keys + Keys(plugins[i])
    && (forall key :: key in before ==> after[key] == before[key])
    && forall c :: c in plugins[i].supplies ==>
      Key(plugins[i].id, c.typeId) in after && after[Key(plugins[i].id, c.typeId)] == Output(plan, behaviour, i, before).value[c.typeId]
  }

  /** The payloads a plugin declared are recorded under its instance. */
  method Publish<P>(plugin: Plugin, published: map<nat, P>, contracts: Contracts<P>) returns (after: Contracts<P>)
    requires forall c :: c in plugin.supplies ==> c.typeId in published
    ensures after.Keys == contracts.Keys + Keys(plugin)
    ensures forall key :: key in contracts && key !in Keys(plugin) ==> after[key] == contracts[key]
    ensures forall c :: c in plugin.supplies ==>
      Key(plugin.id, c.typeId) in after && after[Key(plugin.id, c.typeId)] == published[c.typeId]
  {
    after := contracts;
    var supplies := plugin.supplies;
    for s := 0 to |supplies|
      invariant forall key :: key in after <==> key in contracts || exists j :: 0 <= j < s && key == Key(plugin.id, supplies[j].typeId)
      invariant forall key :: key in contracts && key !in Keys(plugin) ==> after[key] == contracts[key]
      invariant forall j :: 0 <= j < s ==> var key := Key(plugin.id, supplies[j].typeId);
        key in after && after[key] == published[supplies[j].typeId]
    {
      var key := Key(plugin.id, supplies[s].typeId);
      assert key in Keys(plugin);
      after := after[key := published[supplies[s].typeId]];
    }
  }

  method Execute<P>(plugins: seq<Plugin>, plan: Plan, ghost deps: Graph, behaviour: Behaviour<P>, i: nat, ghost done: seq<nat>, contracts: Contracts<P>)
    returns (r: Result<Contracts<P>, RunError>)
    requires Planned(plugins, deps, plan) && done + [i] <= plan.order
    requires PublishedBy(plugins, done, contracts)
    ensures i < |plugins| && i < |plan.bindings| && CanRead(plan.bindings[i], contracts)
    ensures r.Ok? <==> Succeeds(plugins, plan, behaviour, i, contracts)
    ensures r.Ok? ==> Executes(plugins, plan, behaviour, i, contracts, r.value)
    ensures r.Ok? ==> PublishedBy(plugins, done + [i], r.value)
    ensures r.Err? ==> (r.error == Failed <==> Output(plan, behaviour, i, contracts).None?)
  {
    hide PublishedBy, Planned, CanRead, InputsOf, Keys;
    MayRead(plugins, deps, plan, i, done, contracts);
    var published := behaviour(i, InputsOf(plan.bindings[i], contracts));
    if published.None? {
      return Err(Failed);
    }
    var supplies := plugins[i].supplies;
    for s := 0 to |supplies|
      invariant forall j :: 0 <= j < s ==> supplies[j].typeId in published.value
    {
      if supplies[s].typeId !in published.value {
        assert supplies[s] in plugins[i].supplies;
        return Err(Unpublished);
      }
    }
    var after := Publish(plugins[i], published.value, contracts);
    PublishedNow(plugins, plan, i, done, contracts, after);
    r := Ok(after);
  }

  /** When its turn comes a plugin can read what it is bound to, and its keys are unused. */
  lemma MayRead<P>(plugins: seq<Plugin>, deps: Graph, plan: Plan, i: nat, done: seq<nat>, contracts: Contracts<P>)
    requires Planned(plugins, deps, plan) && done + [i] <= plan.order
    requires PublishedBy(plugins, done, contracts)
    ensures i < |plugins| && i < |plan.bindings| && CanRead(plan.bindings[i], contracts)
    ensures forall key :: key in Keys(plugins[i]) ==> key !in contracts
  {
    hide Planned, PublishedBy, CanRead, Keys;
    ghost var k := |done|;
    assert plan.order[k] == (done + [i])[k] == i && plan.order[..k] == done;
    ProvidersRanBefore(plugins, deps, plan, k, contracts);
    BindingsFit(plugins, deps, plan);
    forall key | key in Keys(plugins[i]) ensures key !in contracts {
      KeysAreFresh(plugins, deps, plan, k, contracts, key);
    }
  }

  lemma BindingsFit(plugins: seq<Plugin>, deps: Graph, plan: Plan)
    requires Planned(plugins, deps, plan)
    ensures |plan.bindings| == |plugins|
  {
  }

  lemma PublishedNow<P>(plugins: seq<Plugin>, plan: Plan, i: nat, done: seq<nat>, before: Contracts<P>, after: Contracts<P>)
    requires done + [i] <= plan.order && i < |plugins|
    requires PublishedBy(plugins, done, before) && after.Keys == before.Keys + Keys(plugins[i])
    ensures PublishedBy(plugins, done + [i], after)
  {
    hide PublishedBy, Keys;
    var k := |done|;
    assert plan.order[k] == (done + [i])[k] == i;
    assert plan.order[..k] == done && plan.order[..k + 1] == done + [i];
    PublishedGrows(plugins, plan.order, k, before, after);
  }

  lemma PublishedGrows<P>(plugins: seq<Plugin>, order: seq<nat>, k: nat, before: Contracts<P>, after: Contracts<P>)
    requires k < |order| && order[k] < |plugins|
    requires PublishedBy(plugins, order[..k], before)
    requires after.Keys == before.Keys + Keys(plugins[order[k]])
    ensures PublishedBy(plugins, order[..k + 1], after)
  {
    var longer := order[..k + 1];
    assert forall j :: 0 <= j < k ==> longer[j] == order[..k][j];
    forall key | key in after
      ensures exists j :: 0 <= j < |longer| && longer[j] < |plugins| && key in Keys(plugins[longer[j]])
    {
      if key in before {
        var j :| 0 <= j < k && order[..k][j] < |plugins| && key in Keys(plugins[order[..k][j]]);
        assert key in Keys(plugins[longer[j]]);
      } else {
        assert key in Keys(plugins[longer[k]]);
      }
    }
    forall key, j | 0 <= j < |longer| && longer[j] < |plugins| && key in Keys(plugins[longer[j]])
      ensures key in after
    {
      if j < k {
        assert key in Keys(plugins[order[..k][j]]);
      }
    }
  }

  /** The contracts before and after each executed plugin. */
  ghost predicate Trace<P>(plugins: seq<Plugin>, plan: Plan, behaviour: Behaviour<P>, executed: seq<nat>, states: seq<Contracts<P>>) {
    && |states| == |executed| + 1
    && states[0] == map[]
    && forall k :: 0 <= k < |executed| ==> Executes(plugins, plan, behaviour, executed[k], states[k], states[k + 1])
  }

  lemma InPhaseStep(plugins: seq<Plugin>, order: seq<nat>, phase: Phase, k: nat)
    requires k < |order| && order[k] < |plugins|
    ensures InPhase(plugins, order[..k + 1], phase) ==
      InPhase(plugins, order[..k], phase) + (if plugins[order[k]].phase == phase then [order[k]] else [])
  {
    assert order[..k + 1][..k] == order[..k];
  }

  /** What has run when a pass has come to position `k`. */
  ghost function RanUpTo(plugins: seq<Plugin>, order: seq<nat>, phase: Phase, before: seq<nat>, k: nat): seq<nat>
    requires k <= |order|
  {
    before + InPhase(plugins, order[..k], phase)
  }

  lemma RanBounds(plugins: seq<Plugin>, order: seq<nat>, phase: Phase, before: seq<nat>)
    ensures RanUpTo(plugins, order, phase, before, 0) == before
    ensures RanUpTo(plugins, order, phase, before, |order|) == before + InPhase(plugins, order, phase)
  {
    assert order[..0] == [] && order[..|order|] == order;
  }

  lemma RanStep(plugins: seq<Plugin>, order: seq<nat>, phase: Phase, before: seq<nat>, k: nat)
    requires k < |order| && order[k] < |plugins|
    requires before + InPhase(plugins, order, phase) <= order
    ensures var ran, next := RanUpTo(plugins, order, phase, before, k), RanUpTo(plugins, order, phase, before, k + 1);
      if plugins[order[k]].phase == phase then
        next == ran + [order[k]] && next <= order
      else next == ran
  {
    hide InPhase;
    InPhaseStep(plugins, order, phase, k);
    InPhaseGrows(plugins, order, phase, k + 1);
    assert RanUpTo(plugins, order, phase, before, k + 1) <= order;
  }

  lemma TraceGrows<P>(plugins: seq<Plugin>, plan: Plan, behaviour: Behaviour<P>, executed: seq<nat>, states: seq<Contracts<P>>, i: nat, after: Contracts<P>)
    requires Trace(plugins, plan, behaviour, executed, states)
    requires Executes(plugins, plan, behaviour, i, states[|executed|], after)
    ensures Trace(plugins, plan, behaviour, executed + [i], states + [after])
  {
    hide Executes;
  }

  // ----- where inputs come from

  /** What is recorded stays recorded. */
  lemma {:induction false} RecordedStays<P>(plugins: seq<Plugin>, plan: Plan, behaviour: Behaviour<P>, executed: seq<nat>, states: seq<Contracts<P>>,
                                            j: nat, k: nat, key: Key)
    requires Trace(plugins, plan, behaviour, executed, states) && j <= k < |states| && key in states[j]
    ensures key in states[k] && states[k][key] == states[j][key]
    decreases k
  {
    if j < k {
      RecordedStays(plugins, plan, behaviour, executed, states, j, k - 1, key);
      assert Executes(plugins, plan, behaviour, executed[k - 1], states[k - 1], states[k - 1 + 1]);
    }
  }

  /** The plugin at position `k` found this for a requirement. */
  ghost predicate Received<P>(plan: Plan, executed: seq<nat>, states: seq<Contracts<P>>, k: nat, typeId: nat, payload: Option<P>) {
    && k < |executed| && k < |states| && executed[k] < |plan.bindings|
    && CanRead(plan.bindings[executed[k]], states[k])
    && typeId in InputsOf(plan.bindings[executed[k]], states[k])
    && InputsOf(plan.bindings[executed[k]], states[k])[typeId] == payload
  }

  /** The plugin at position `j` published this. */
  ghost predicate Sent<P>(plan: Plan, behaviour: Behaviour<P>, executed: seq<nat>, states: seq<Contracts<P>>, j: nat, typeId: nat, payload: P) {
    && j < |executed| && j < |states| && executed[j] < |plan.bindings|
    && CanRead(plan.bindings[executed[j]], states[j])
    && Output(plan, behaviour, executed[j], states[j]).Some?
    && typeId in Output(plan, behaviour, executed[j], states[j]).value
    && Output(plan, behaviour, executed[j], states[j]).value[typeId] == payload
  }

  lemma PositionBefore(plugins: seq<Plugin>, deps: Graph, plan: Plan, k: nat, d: nat) returns (j: nat)
    requires Planned(plugins, deps, plan) && k < |plan.order| && BindsTo(plugins, plan.order[k], d)
    ensures j < k && plan.order[j] == d
  {
    var full := WithPhases(plugins, deps);
    var i := plan.order[k];
    assert i < |full| && d in deps[i] && d in full[i];
    assert d in plan.order[..k];
    j :| 0 <= j < k && plan.order[..k][j] == d;
  }

  lemma BindingOf(plugins: seq<Plugin>, deps: Graph, plan: Plan, i: nat, need: Requirement) returns (selected: Option<nat>)
    requires Planned(plugins, deps, plan) && i < |plugins| && need in plugins[i].needs
    ensures BoundTo(plugins, need, selected) && |plan.bindings| == |plugins|
    ensures need.contract.typeId in plan.bindings[i]
    ensures selected.Some? ==> selected.value < |plugins| && plan.bindings[i][need.contract.typeId] == Some(plugins[selected.value].id)
    ensures selected.None? ==> plan.bindings[i][need.contract.typeId] == None
  {
    hide IsOrder, PhasesInOrder, BindingEdges, WithPhases, DistinctInstances, DistinctTypes;
    assert BindingsOf(plugins, i, plan.bindings[i]);
    assert Recorded(plugins, need, plan.bindings[i]);
    selected :| BoundTo(plugins, need, selected) && plan.bindings[i][need.contract.typeId] == InstanceOf(plugins, selected);
  }

  /** For every requirement a plugin receives the very payload that the provider it is bound to
      published earlier in the run, or nothing when it is bound to none. */
  lemma ReceivesWhatWasSent<P>(plugins: seq<Plugin>, deps: Graph, plan: Plan, behaviour: Behaviour<P>, executed: seq<nat>, states: seq<Contracts<P>>,
                               k: nat, need: Requirement)
    requires Planned(plugins, deps, plan) && executed <= plan.order && Trace(plugins, plan, behaviour, executed, states)
    requires k < |executed| && executed[k] < |plugins| && need in plugins[executed[k]].needs
    ensures
      || (BoundTo(plugins, need, None) && Received(plan, executed, states, k, need.contract.typeId, None))
      || (exists j: nat, payload :: j < k && BoundTo(plugins, need, Some(executed[j]))
            && Sent(plan, behaviour, executed, states, j, need.contract.typeId, payload)
            && Received(plan, executed, states, k, need.contract.typeId, Some(payload)))
  {
    hide Planned, BoundTo, Keys;
    var i, typeId := executed[k], need.contract.typeId;
    var selected := BindingOf(plugins, deps, plan, i, need);
    assert Executes(plugins, plan, behaviour, i, states[k], states[k + 1]);
    if selected.None? {
      assert Received(plan, executed, states, k, typeId, None);
    } else {
      var d := selected.value;
      assert BindsTo(plugins, i, d);
      var j := PositionBefore(plugins, deps, plan, k, d);
      assert executed[j] == d;
      var key := Key(plugins[d].id, typeId);
      ProviderSends(plugins, plan, behaviour, executed, states, j, need);
      RecordedStays(plugins, plan, behaviour, executed, states, j + 1, k, key);
      assert Received(plan, executed, states, k, typeId, Some(states[k][key]));
      assert Sent(plan, behaviour, executed, states, j, typeId, states[k][key]);
    }
  }

  lemma ProviderSends<P>(plugins: seq<Plugin>, plan: Plan, behaviour: Behaviour<P>, executed: seq<nat>, states: seq<Contracts<P>>, j: nat, need: Requirement)
    requires Trace(plugins, plan, behaviour, executed, states) && j < |executed| && BoundTo(plugins, need, Some(executed[j]))
    ensures executed[j] < |plugins|
    ensures var key := Key(plugins[executed[j]].id, need.contract.typeId);
      key in states[j + 1] && Sent(plan, behaviour, executed, states, j, need.contract.typeId, states[j + 1][key])
  {
    hide InputsOf, CanRead, Keys;
    var d := executed[j];
    assert Executes(plugins, plan, behaviour, d, states[j], states[j + 1]);
    var c :| c in plugins[d].supplies && c.typeId == need.contract.typeId;
  }

  /** The next plugin of the order is the first that does not succeed. */
  ghost predicate Stopped<P>(plugins: seq<Plugin>, plan: Plan, behaviour: Behaviour<P>, executed: seq<nat>, states: seq<Contracts<P>>) {
    && |executed| < |plan.order| && |executed| < |states|
    && !Succeeds(plugins, plan, behaviour, plan.order[|executed|], states[|executed|])
  }

  /** One pass over the order: the plugins of one phase run, after those that already did. */
  method RunPhase<P>(plugins: seq<Plugin>, plan: Plan, ghost deps: Graph, behaviour: Behaviour<P>, phase: Phase,
                     contracts0: Contracts<P>, before: seq<nat>, ghost states0: seq<Contracts<P>>)
    returns (r: Result<Contracts<P>, RunError>, executed: seq<nat>, ghost states: seq<Contracts<P>>)
    requires Planned(plugins, deps, plan)
    requires before + InPhase(plugins, plan.order, phase) <= plan.order
    requires PublishedBy(plugins, before, contracts0)
    requires Trace(plugins, plan, behaviour, before, states0) && |states0| == |before| + 1 && contracts0 == states0[|before|]
    ensures executed <= plan.order && Trace(plugins, plan, behaviour, executed, states) && |states| == |executed| + 1
    ensures r.Ok? ==> executed == before + InPhase(plugins, plan.order, phase)
    ensures r.Err? ==> Stopped(plugins, plan, behaviour, executed, states)
    ensures r.Ok? ==> PublishedBy(plugins, executed, r.value) && r.value == states[|executed|]
  {
    hide PublishedBy, Executes, Succeeds, Planned, Keys, Trace, InPhase, RanUpTo;
    OrderInRange(plugins, deps, plan);
    RanBounds(plugins, plan.order, phase, before);
    var contracts := contracts0;
    executed, states := before, states0;
    for k := 0 to |plan.order|
      invariant PublishedBy(plugins, executed, contracts)
      invariant executed == RanUpTo(plugins, plan.order, phase, before, k)
      invariant Trace(plugins, plan, behaviour, executed, states)
      invariant |states| == |executed| + 1 && contracts == states[|executed|]
    {
      var i := plan.order[k];
      RanStep(plugins, plan.order, phase, before, k);
      if plugins[i].phase == phase {
        var after := Execute(plugins, plan, deps, behaviour, i, executed, contracts);
        if after.Err? {
          assert (executed + [i])[|executed|] == i;
          return Err(after.error), executed, states;
        }
        contracts := after.value;
        TraceGrows(plugins, plan, behaviour, executed, states, i, contracts);
        executed, states := executed + [i], states + [contracts];
      }
    }
    r := Ok(contracts);
  }

  lemma OrderInRange(plugins: seq<Plugin>, deps: Graph, plan: Plan)
    requires Planned(plugins, deps, plan)
    ensures forall k :: 0 <= k < |plan.order| ==> plan.order[k] < |plugins|
  {
  }

  /** Both phases together execute every plugin exactly once, in exactly the planned order;
      every read succeeds; no published contract is ever replaced. */
  method Run<P>(plugins: seq<Plugin>, plan: Plan, ghost deps: Graph, behaviour: Behaviour<P>)
    returns (r: Result<Contracts<P>, RunError>, executed: seq<nat>, ghost states: seq<Contracts<P>>)
    requires Planned(plugins, deps, plan)
    ensures executed <= plan.order
    ensures Trace(plugins, plan, behaviour, executed, states)
    ensures r.Ok? ==> executed == plan.order && r.value == states[|executed|]
    ensures r.Ok? ==> PublishedBy(plugins, plan.order, r.value)
    ensures r.Err? ==> Stopped(plugins, plan, behaviour, executed, states)
  {
    PhasesConcatenate(plugins, plan.order);
    var nothing: Contracts<P> := map[];
    r, executed, states := RunPhase(plugins, plan, deps, behaviour, GeneratePhase, nothing, [], [nothing]);
    if r.Ok? {
      r, executed, states := RunPhase(plugins, plan, deps, behaviour, PostPhase, r.value, executed, states);
    }
  }

  datatype PackageError = Unresolved(error: ResolveError) | Interrupted(cause: RunError)

  /** A package is resolved, then run as planned. It fails exactly when it cannot be resolved
      or when some plugin, with all before it having run, does not succeed. */
  method ResolveAndRun<P>(plugins: seq<Plugin>, behaviour: Behaviour<P>)
    returns (r: Result<Contracts<P>, PackageError>, executed: seq<nat>, ghost deps: Graph, ghost plan: Plan, ghost states: seq<Contracts<P>>)
    ensures (r.Err? && r.error.Unresolved?) <==> !(Bindable(plugins) && Acyclic(deps))
    ensures Bindable(plugins) && Acyclic(deps) ==> BindingEdges(plugins, deps) && IsOrder(WithPhases(plugins, deps), plan.order)
    ensures Bindable(plugins) && Acyclic(deps) ==> executed <= plan.order && Trace(plugins, plan, behaviour, executed, states)
    ensures r.Ok? ==> executed == plan.order && PublishedBy(plugins, executed, r.value) && r.value == states[|executed|]
    ensures r.Err? && r.error.Interrupted? ==> Stopped(plugins, plan, behaviour, executed, states)
    ensures r.Err? && r.error.Unresolved? ==> executed == []
  {
    hide Bindable, Acyclic, BindingEdges, IsOrder, Trace, Stopped, PublishedBy, PhasesInOrder, LexicographicallyLeast, RespectsPhases, BindingsOf;
    var resolved;
    resolved, deps := Resolve(plugins);
    plan, states, executed := Plan([], []), [map[]], [];
    if resolved.Err? {
      return Err(Unresolved(resolved.error)), executed, deps, plan, states;
    }
    plan := resolved.value;
    BindableParts(plugins);
    var outcome;
    outcome, executed, states := Run(plugins, resolved.value, deps, behaviour);
    r := if outcome.Err? then Err(Interrupted(outcome.error)) else Ok(outcome.value);
  }

  lemma BindableParts(plugins: seq<Plugin>)
    requires Bindable(plugins)
    ensures DistinctInstances(plugins) && forall p :: p in plugins ==> DistinctTypes(p.supplies)
  {
  }
}
