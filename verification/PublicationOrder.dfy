/** The order in which the public packages of a workspace are published: a depth-first walk
    of the dependencies that end up in published manifests. */
module PublicationOrder {
  import opened Wrappers
  import opened Ordering
  import opened Sequences

  // ----- workspace metadata

  datatype Kind = Normal | Build | Dev
  datatype Dependency = Dependency(name: string, path: Option<string>, kind: Kind, req: Option<string>)
  datatype Package = Package(id: string, name: string, publishable: bool, dependencies: seq<Dependency>)
  datatype Metadata = Metadata(members: seq<string>, packages: seq<Package>)

  /** The dependencies a published manifest keeps and the workspace itself provides. */
  predicate Kept(dependency: Dependency) {
    && dependency.path.Some? && dependency.path.value != ""
    && (dependency.kind != Dev || (dependency.req.Some? && dependency.req.value != "*"))
  }

  function KeptNames(dependencies: seq<Dependency>): seq<string> {
    if dependencies == [] then []
    else (if Kept(dependencies[0]) then [dependencies[0].name] else []) + KeptNames(dependencies[1..])
  }

  predicate Public(metadata: Metadata, package: Package) {
    package.id in metadata.members && package.publishable
  }

  type Packages = p: map<string, Package> | forall name :: name in p ==> p[name].name == name witness map[]

  type Graph = map<string, seq<string>>

  function GraphOf(packages: Packages): Graph {
    map name | name in packages :: KeptNames(packages[name].dependencies)
  }

  /** A published manifest of the package names this package, with a path into the workspace. */
  ghost predicate Needs(package: Package, name: string) {
    exists d :: d in package.dependencies && d.name == name && d.path.Some? && d.path.value != "" && (d.kind == Dev ==> d.req.Some? && d.req.value != "*")
  }

  lemma {:induction false} KeptNamesExactly(dependencies: seq<Dependency>, name: string)
    ensures name in KeptNames(dependencies) <==> exists d :: d in dependencies && d.name == name && Kept(d)
  {
    if dependencies != [] {
      KeptNamesExactly(dependencies[1..], name);
    }
  }

  lemma GraphExactly(packages: Packages, package: string, name: string)
    requires package in packages
    ensures name in GraphOf(packages)[package] <==> Needs(packages[package], name)
  {
    KeptNamesExactly(packages[package].dependencies, name);
  }

  // ----- walks

  ghost predicate Linked(graph: Graph, walk: seq<string>) {
    && (forall j :: 0 <= j < |walk| ==> walk[j] in graph)
    && (forall j :: 0 <= j < |walk| - 1 ==> walk[j + 1] in graph[walk[j]])
  }

  ghost predicate Reaches(graph: Graph, start: string, end: string) {
    exists walk :: Linked(graph, walk) && walk != [] && walk[0] == start && walk[|walk| - 1] == end
  }

  ghost predicate ReachedFrom(graph: Graph, roots: seq<string>, name: string) {
    exists root :: root in roots && Reaches(graph, root, name)
  }

  lemma ReachedFromMore(graph: Graph, roots: seq<string>, more: seq<string>, name: string)
    requires ReachedFrom(graph, roots, name) && forall root :: root in roots ==> root in more
    ensures ReachedFrom(graph, more, name)
  {
    hide Reaches;
    var root :| root in roots && Reaches(graph, root, name);
    assert root in more;
  }

  ghost predicate OnCycle(graph: Graph, name: string) {
    exists walk :: Linked(graph, walk) && walk != [] && walk[0] == name && name in graph[walk[|walk| - 1]]
  }

  ghost predicate CycleFree(graph: Graph) {
    forall name :: name in graph ==> !OnCycle(graph, name)
  }

  ghost predicate Missing(graph: Graph, name: string, dependency: string) {
    name in graph && dependency in graph[name] && dependency !in graph
  }

  ghost predicate SelfContained(graph: Graph) {
    forall name, dependency :: !Missing(graph, name, dependency)
  }

  /** Distinct names, each after all its dependencies. */
  ghost predicate DependenciesFirst(graph: Graph, ordered: seq<string>) {
    && (forall a, b :: 0 <= a < b < |ordered| ==> ordered[a] != ordered[b])
    && (forall k :: 0 <= k < |ordered| ==> ordered[k] in graph && forall d :: d in graph[ordered[k]] ==> d in ordered[..k])
  }

  // ----- the walk as a function

  datatype Problem = Cycle(name: string) | Unpublished(name: string, dependency: string)

  /** Prolongs the order by a name and what it needs. `stack` are the calls in progress. */
  function WithName(graph: Graph, name: string, stack: seq<string>, ordered: seq<string>): Result<seq<string>, Problem>
    requires name in graph
    decreases graph.Keys - Elements(stack), 0
  {
    if name in ordered then Ok(ordered)
    else if name in stack then Err(Cycle(name))
    else
      assert Elements(stack + [name]) == Elements(stack) + {name};
      match WithNames(graph, graph[name], stack + [name], ordered)
      case Err(problem) => Err(problem)
      case Ok(longer) => Ok(longer + [name])
  }

  function WithNames(graph: Graph, names: seq<string>, stack: seq<string>, ordered: seq<string>): Result<seq<string>, Problem>
    requires stack != []
    decreases graph.Keys - Elements(stack), 1 + |names|
  {
    if names == [] then Ok(ordered)
    else if names[0] !in graph then Err(Unpublished(stack[|stack| - 1], names[0]))
    else
      match WithName(graph, names[0], stack, ordered)
      case Err(problem) => Err(problem)
      case Ok(longer) => WithNames(graph, names[1..], stack, longer)
  }

  function WithRoots(graph: Graph, roots: seq<string>, ordered: seq<string>): Result<seq<string>, Problem>
    requires forall name :: name in roots ==> name in graph
  {
    if roots == [] then Ok(ordered)
    else
      match WithName(graph, roots[0], [], ordered)
      case Err(problem) => Err(problem)
      case Ok(longer) => WithRoots(graph, roots[1..], longer)
  }

  function Order(graph: Graph): Result<seq<string>, Problem> {
    WithRoots(graph, Sorted(graph.Keys), [])
  }

  // ----- what a successful visit keeps

  /** `after` extends `before` by names that `roots` reach, none of them in progress. */
  ghost predicate Prolongs(graph: Graph, before: seq<string>, after: seq<string>, roots: seq<string>, stack: seq<string>) {
    && before <= after
    && DependenciesFirst(graph, after)
    && (forall name :: name in roots ==> name in after)
    && (forall name :: name in after ==> name in before || (name !in stack && ReachedFrom(graph, roots, name)))
  }

  lemma {:induction false} VisitProlongs(graph: Graph, name: string, stack: seq<string>, ordered: seq<string>)
    requires name in graph && DependenciesFirst(graph, ordered) && WithName(graph, name, stack, ordered).Ok?
    ensures Prolongs(graph, ordered, WithName(graph, name, stack, ordered).value, [name], stack)
    decreases graph.Keys - Elements(stack), 0
  {
    hide Reaches, DependenciesFirst;
    if name !in ordered {
      assert Elements(stack + [name]) == Elements(stack) + {name};
      var longer := WithNames(graph, graph[name], stack + [name], ordered).value;
      VisitAllProlongs(graph, graph[name], stack + [name], ordered);
      assert name !in longer by { assert name in stack + [name]; }
      AppendNext(graph, longer, name);
      var after := longer + [name];
      forall other | other in after && other !in ordered
        ensures other !in stack && ReachedFrom(graph, [name], other)
      {
        if other == name {
          ReachesItself(graph, name);
        } else {
          assert other in longer && other !in stack + [name];
          var root :| root in graph[name] && Reaches(graph, root, other);
          ReachesThrough(graph, name, root, other);
        }
        assert name in [name];
      }
      assert name in [name] && after[|longer|] == name;
    }
  }

  lemma {:induction false} VisitAllProlongs(graph: Graph, names: seq<string>, stack: seq<string>, ordered: seq<string>)
    requires stack != [] && DependenciesFirst(graph, ordered) && WithNames(graph, names, stack, ordered).Ok?
    ensures Prolongs(graph, ordered, WithNames(graph, names, stack, ordered).value, names, stack)
    decreases graph.Keys - Elements(stack), 1 + |names|
  {
    hide Reaches, DependenciesFirst;
    if names != [] {
      var longer := WithName(graph, names[0], stack, ordered).value;
      VisitProlongs(graph, names[0], stack, ordered);
      VisitAllProlongs(graph, names[1..], stack, longer);
      ProlongsMore(graph, ordered, longer, WithNames(graph, names, stack, ordered).value, names, stack);
    }
  }

  lemma ProlongsMore(graph: Graph, before: seq<string>, between: seq<string>, after: seq<string>, names: seq<string>, stack: seq<string>)
    requires names != [] && Prolongs(graph, before, between, [names[0]], stack) && Prolongs(graph, between, after, names[1..], stack)
    ensures Prolongs(graph, before, after, names, stack)
  {
    hide Reaches, DependenciesFirst;
    assert forall name :: name in names ==> name == names[0] || name in names[1..];
    assert names[0] in [names[0]] && forall name :: name in between ==> name in after;
    forall name | name in after && name !in before
      ensures name !in stack && ReachedFrom(graph, names, name)
    {
      ReachedFromMore(graph, if name in between then [names[0]] else names[1..], names, name);
    }
  }

  lemma AppendNext(graph: Graph, ordered: seq<string>, name: string)
    requires DependenciesFirst(graph, ordered) && name in graph && name !in ordered && forall d :: d in graph[name] ==> d in ordered
    ensures DependenciesFirst(graph, ordered + [name])
  {
    var longer := ordered + [name];
    forall k | 0 <= k < |longer|
      ensures longer[k] in graph && forall d :: d in graph[longer[k]] ==> d in longer[..k]
    {
      assert longer[..k] == ordered[..k];
      assert ordered[..|ordered|] == ordered;
    }
  }

  lemma ReachesItself(graph: Graph, name: string)
    requires name in graph
    ensures Reaches(graph, name, name)
  {
    assert Linked(graph, [name]);
  }

  lemma ReachesThrough(graph: Graph, name: string, next: string, end: string)
    requires name in graph && next in graph[name] && Reaches(graph, next, end)
    ensures Reaches(graph, name, end)
  {
    var walk :| Linked(graph, walk) && walk != [] && walk[0] == next && walk[|walk| - 1] == end;
    assert Linked(graph, [name] + walk);
  }

  // ----- why a visit fails

  ghost predicate IsStack(graph: Graph, stack: seq<string>, name: string) {
    Linked(graph, stack) && (stack != [] ==> name in graph[stack[|stack| - 1]])
  }

  ghost predicate Real(graph: Graph, problem: Problem) {
    match problem
    case Cycle(name) => name in graph && OnCycle(graph, name)
    case Unpublished(name, dependency) => Missing(graph, name, dependency)
  }

  lemma {:induction false} VisitFails(graph: Graph, name: string, stack: seq<string>, ordered: seq<string>)
    requires name in graph && IsStack(graph, stack, name) && WithName(graph, name, stack, ordered).Err?
    ensures Real(graph, WithName(graph, name, stack, ordered).error)
    decreases graph.Keys - Elements(stack), 0
  {
    if name in stack {
      var start :| 0 <= start < |stack| && stack[start] == name;
      assert Linked(graph, stack[start..]);
    } else {
      assert Elements(stack + [name]) == Elements(stack) + {name};
      assert Linked(graph, stack + [name]);
      VisitAllFails(graph, graph[name], stack + [name], ordered);
    }
  }

  lemma {:induction false} VisitAllFails(graph: Graph, names: seq<string>, stack: seq<string>, ordered: seq<string>)
    requires stack != [] && Linked(graph, stack) && WithNames(graph, names, stack, ordered).Err?
    requires stack[|stack| - 1] in graph && forall name :: name in names ==> name in graph[stack[|stack| - 1]]
    ensures Real(graph, WithNames(graph, names, stack, ordered).error)
    decreases graph.Keys - Elements(stack), 1 + |names|
  {
    assert names[0] in names && forall name :: name in names[1..] ==> name in names;
    if names[0] in graph {
      if WithName(graph, names[0], stack, ordered).Err? {
        VisitFails(graph, names[0], stack, ordered);
      } else {
        VisitAllFails(graph, names[1..], stack, WithName(graph, names[0], stack, ordered).value);
      }
    }
  }

  // ----- the whole order

  /** A name precedes a smaller one only for the sake of that name or of one smaller still. */
  ghost predicate ByName(graph: Graph, ordered: seq<string>) {
    forall a, b :: 0 <= a < b < |ordered| && Less(ordered[b], ordered[a]) ==> Early(graph, ordered[b], ordered[a])
  }

  ghost predicate Early(graph: Graph, smaller: string, name: string) {
    exists root :: (root == smaller || Less(root, smaller)) && root in graph && Reaches(graph, root, name)
  }

  /** The names ordered so far are those the roots handled so far reach. */
  ghost predicate Handled(graph: Graph, done: seq<string>, ordered: seq<string>) {
    && (forall root :: root in done ==> root in ordered)
    && (forall name :: name in ordered ==> ReachedFrom(graph, done, name))
  }

  lemma {:induction false} VisitRootsSucceeds(graph: Graph, done: seq<string>, roots: seq<string>, ordered: seq<string>)
    requires forall name :: name in done + roots ==> name in graph
    requires forall name :: name in graph ==> name in done + roots
    requires Increasing(done + roots) && DependenciesFirst(graph, ordered) && ByName(graph, ordered) && Handled(graph, done, ordered)
    ensures match WithRoots(graph, roots, ordered)
      case Ok(after) => DependenciesFirst(graph, after) && ByName(graph, after) && Handled(graph, done + roots, after)
      case Err(problem) => Real(graph, problem)
    decreases |roots|
  {
    hide Reaches, ReachedFrom, DependenciesFirst, ByName, Less, Real, Prolongs, Increasing, Handled, Sorted;
    assert forall name :: name in roots ==> name in done + roots;
    if roots == [] {
      assert done + roots == done;
    } else if WithName(graph, roots[0], [], ordered).Err? {
      VisitFails(graph, roots[0], [], ordered);
    } else {
      var longer := WithName(graph, roots[0], [], ordered).value;
      VisitProlongs(graph, roots[0], [], ordered);
      NextRoot(graph, done, roots);
      StillByName(graph, done, roots[0], ordered, longer);
      NowHandled(graph, done, roots[0], ordered, longer);
      assert (done + [roots[0]]) + roots[1..] == done + roots;
      VisitRootsSucceeds(graph, done + [roots[0]], roots[1..], longer);
    }
  }

  lemma NextRoot(graph: Graph, done: seq<string>, roots: seq<string>)
    requires roots != [] && Increasing(done + roots) && forall name :: name in graph <==> name in done + roots
    ensures forall name :: name in done ==> Less(name, roots[0]) && name in graph
    ensures forall name :: name in graph && name !in done ==> name == roots[0] || Less(roots[0], name)
  {
    hide Less;
    var all := done + roots;
    assert all[|done|] == roots[0];
    forall name | name in done ensures Less(name, roots[0]) && name in graph {
      var i :| 0 <= i < |done| && done[i] == name;
      assert all[i] == name;
    }
    forall name | name in graph && name !in done ensures name == roots[0] || Less(roots[0], name) {
      var i :| 0 <= i < |all| && all[i] == name;
      if i < |done| {
        assert false;
      }
    }
  }

  lemma NowHandled(graph: Graph, done: seq<string>, root: string, before: seq<string>, after: seq<string>)
    requires Handled(graph, done, before) && Prolongs(graph, before, after, [root], [])
    ensures Handled(graph, done + [root], after) && DependenciesFirst(graph, after)
  {
    hide ReachedFrom, DependenciesFirst;
    assert root in [root] && forall name :: name in before ==> name in after;
    forall name | name in after ensures ReachedFrom(graph, done + [root], name) {
      ReachedFromMore(graph, if name in before then done else [root], done + [root], name);
    }
  }

  lemma StillByName(graph: Graph, done: seq<string>, root: string, before: seq<string>, after: seq<string>)
    requires root in graph && ByName(graph, before) && Handled(graph, done, before) && Prolongs(graph, before, after, [root], [])
    requires forall name :: name in done ==> Less(name, root) && name in graph
    requires forall name :: name in graph && name !in done ==> name == root || Less(root, name)
    ensures ByName(graph, after)
  {
    hide Reaches, DependenciesFirst, Less;
    forall a, b | 0 <= a < b < |after| && Less(after[b], after[a])
      ensures Early(graph, after[b], after[a])
    {
      if b < |before| {
        assert after[a] == before[a] && after[b] == before[b];
      } else {
        NewAt(graph, before, after, root, b);
        assert after[a] in after;
        assert ReachedFrom(graph, if after[a] in before then done else [root], after[a]);
        var r :| r in (if after[a] in before then done else [root]) && Reaches(graph, r, after[a]);
        if r != root && root != after[b] {
          LessIsTransitive(r, root, after[b]);
        }
      }
    }
  }

  lemma NewAt(graph: Graph, before: seq<string>, after: seq<string>, root: string, b: nat)
    requires Prolongs(graph, before, after, [root], []) && |before| <= b < |after|
    ensures after[b] in graph && after[b] !in before
  {
    assert forall k :: 0 <= k < |before| ==> before[k] == after[k];
  }

  lemma StartsWell(graph: Graph)
    ensures DependenciesFirst(graph, []) && ByName(graph, []) && Handled(graph, [], [])
  {
  }

  lemma OrderIsRight(graph: Graph)
    ensures match Order(graph)
      case Ok(ordered) => DependenciesFirst(graph, ordered) && ByName(graph, ordered) && forall name :: name in ordered <==> name in graph
      case Err(problem) => Real(graph, problem)
  {
    hide DependenciesFirst, ByName, Real, WithRoots;
    StartsWell(graph);
    assert [] + Sorted(graph.Keys) == Sorted(graph.Keys);
    VisitRootsSucceeds(graph, [], Sorted(graph.Keys), []);
    if Order(graph).Ok? {
      OnlyNames(graph, Order(graph).value);
    }
  }

  lemma OnlyNames(graph: Graph, ordered: seq<string>)
    requires DependenciesFirst(graph, ordered)
    ensures forall name :: name in ordered ==> name in graph
  {
  }

  lemma {:induction false} EarlierOnWalk(graph: Graph, ordered: seq<string>, walk: seq<string>, first: nat)
    requires DependenciesFirst(graph, ordered) && Linked(graph, walk) && walk != []
    requires first < |ordered| && ordered[first] == walk[0]
    ensures exists last :: 0 <= last <= first && ordered[last] == walk[|walk| - 1]
  {
    if |walk| > 1 {
      assert walk[1] in ordered[..first];
      var second :| 0 <= second < first && ordered[second] == walk[1];
      EarlierOnWalk(graph, ordered, walk[1..], second);
    }
  }

  /** A topological order of everything exists only for closed, acyclic graphs. */
  lemma OrderedMeansSound(graph: Graph, ordered: seq<string>)
    requires DependenciesFirst(graph, ordered) && forall name :: name in graph ==> name in ordered
    ensures SelfContained(graph) && CycleFree(graph)
  {
    forall name | name in graph ensures !OnCycle(graph, name) {
      if OnCycle(graph, name) {
        var walk :| Linked(graph, walk) && walk != [] && walk[0] == name && name in graph[walk[|walk| - 1]];
        var first :| 0 <= first < |ordered| && ordered[first] == name;
        EarlierOnWalk(graph, ordered, walk, first);
      }
    }
  }

  /** An order is found exactly when the graph is closed and acyclic. */
  lemma OrderExistsExactly(graph: Graph)
    ensures Order(graph).Ok? <==> SelfContained(graph) && CycleFree(graph)
  {
    hide Order, DependenciesFirst, ByName, SelfContained, CycleFree, OnCycle, Missing;
    OrderIsRight(graph);
    if Order(graph).Ok? {
      OrderedMeansSound(graph, Order(graph).value);
    } else {
      NotSound(graph, Order(graph).error);
    }
  }

  lemma NotSound(graph: Graph, problem: Problem)
    requires Real(graph, problem)
    ensures !SelfContained(graph) || !CycleFree(graph)
  {
  }

  // ----- the walk as it is written

  function Names(packages: seq<Package>): seq<string> {
    seq(|packages|, i requires 0 <= i < |packages| => packages[i].name)
  }

  class Publisher {
    const packages: Packages
    var visiting: set<string>
    var visited: set<string>
    var ordered: seq<Package>

    /** `visiting` holds exactly the names of the calls in progress. */
    ghost predicate Valid(stack: seq<string>)
      reads this
    {
      && visiting == Elements(stack)
      && visited == Elements(Names(ordered))
      && forall package :: package in ordered ==> package.name in packages && packages[package.name] == package
    }

    constructor (packages: Packages)
      ensures this.packages == packages
      ensures Valid([]) && ordered == []
    {
      this.packages := packages;
      visiting, visited, ordered := {}, {}, [];
    }

    /** Exactly the calls in progress are removed and added again, the order only grows. */
    method Visit(name: string, ghost stack: seq<string>) returns (problem: Option<Problem>)
      requires Valid(stack) && name in packages
      modifies this
      ensures match WithName(GraphOf(packages), name, stack, Names(old(ordered)))
        case Ok(names) => problem.None? && Valid(stack) && Names(ordered) == names
        case Err(found) => problem == Some(found)
      decreases packages.Keys - Elements(stack)
    {
      hide Kept, KeptNames, WithName, WithNames;
      NameStep(GraphOf(packages), name, stack, Names(ordered));
      if name in visited {
        return None;
      }
      if name in visiting {
        return Some(Cycle(name));
      }
      visiting := visiting + {name};
      ghost var calls, start := stack + [name], Names(ordered);
      ghost var graph := GraphOf(packages);
      assert Elements(calls) == Elements(stack) + {name};
      var dependencies := packages[name].dependencies;
      assert dependencies[0..] == dependencies;
      NoneKept(dependencies);
      for i := 0 to |dependencies|
        invariant Valid(calls)
        invariant WithNames(graph, KeptNames(dependencies[i..]), calls, Names(ordered)) == WithNames(graph, KeptNames(dependencies), calls, start)
      {
        var dependency := dependencies[i];
        KeptStep(dependencies, i);
        NamesStep(graph, dependency.name, KeptNames(dependencies[i + 1..]), calls, Names(ordered));
        if Kept(dependency) {
          if dependency.name !in packages {
            return Some(Unpublished(name, dependency.name));
          }
          problem := Visit(dependency.name, calls);
          if problem.Some? {
            return;
          }
        }
      }
      ghost var before := ordered;
      NoNames(graph, calls, Names(ordered));
      visiting := visiting - {name};
      visited := visited + {name};
      ordered := ordered + [packages[name]];
      problem := None;
      Appended(before, packages[name]);
    }
  }

  lemma KeptStep(dependencies: seq<Dependency>, i: nat)
    requires i < |dependencies|
    ensures KeptNames(dependencies[i..]) == (if Kept(dependencies[i]) then [dependencies[i].name] else []) + KeptNames(dependencies[i + 1..])
  {
    assert dependencies[i..][1..] == dependencies[i + 1..];
  }

  lemma NoNames(graph: Graph, stack: seq<string>, ordered: seq<string>)
    requires stack != []
    ensures WithNames(graph, [], stack, ordered) == Ok(ordered)
  {
  }

  lemma NoneKept(dependencies: seq<Dependency>)
    ensures KeptNames(dependencies[|dependencies|..]) == []
  {
  }

  lemma NameStep(graph: Graph, name: string, stack: seq<string>, ordered: seq<string>)
    requires name in graph
    ensures WithName(graph, name, stack, ordered) ==
      if name in ordered then Ok(ordered)
      else if name in stack then Err(Cycle(name))
      else if WithNames(graph, graph[name], stack + [name], ordered).Err? then WithNames(graph, graph[name], stack + [name], ordered)
      else Ok(WithNames(graph, graph[name], stack + [name], ordered).value + [name])
  {
  }

  lemma NamesStep(graph: Graph, name: string, rest: seq<string>, stack: seq<string>, ordered: seq<string>)
    requires stack != []
    ensures [] + rest == rest
    ensures WithNames(graph, [name] + rest, stack, ordered) ==
      if name !in graph then Err(Unpublished(stack[|stack| - 1], name))
      else if WithName(graph, name, stack, ordered).Err? then WithName(graph, name, stack, ordered)
      else WithNames(graph, rest, stack, WithName(graph, name, stack, ordered).value)
  {
    assert ([name] + rest)[1..] == rest;
  }

  lemma Appended(ordered: seq<Package>, package: Package)
    ensures Names(ordered + [package]) == Names(ordered) + [package.name]
    ensures Elements(Names(ordered + [package])) == Elements(Names(ordered)) + {package.name}
  {
    assert Names(ordered + [package]) == Names(ordered) + [package.name];
  }

  // ----- the public packages

  /** The public packages by name; of several with one name, the last. */
  function Selected(metadata: Metadata, packages: seq<Package>): Packages {
    if packages == [] then map[]
    else
      var n := |packages| - 1;
      var earlier, last := Selected(metadata, packages[..n]), packages[n];
      if Public(metadata, last) then earlier[last.name := last] else earlier
  }

  function PublicPackages(metadata: Metadata): Packages {
    Selected(metadata, metadata.packages)
  }

  /** The packages in the order in which they are published, or the reason why there is none. */
  method FindOrder(metadata: Metadata) returns (result: Result<seq<Package>, Problem>)
    ensures var public := PublicPackages(metadata);
      match Order(GraphOf(public))
      case Ok(names) => result.Ok? && Names(result.value) == names && forall package :: package in result.value ==> package in public.Values
      case Err(problem) => result == Err(problem)
    ensures var public := PublicPackages(metadata); var graph := GraphOf(public);
      && (result.Ok? <==> SelfContained(graph) && CycleFree(graph))
      && (result.Ok? ==> DependenciesFirst(graph, Names(result.value)) && ByName(graph, Names(result.value)))
      && (result.Ok? ==> forall package :: package in result.value <==> package in public.Values)
      && (result.Err? ==> Real(graph, result.error))
    ensures result.Ok? ==> ComesAfterNeeds(result.value)
  {
    hide DependenciesFirst, ByName, Real, SelfContained, CycleFree;
    hide WithRoots, Sorted, WithName;
    var packages: Packages := map[];
    for i := 0 to |metadata.packages|
      invariant packages == Selected(metadata, metadata.packages[..i])
    {
      assert metadata.packages[..i + 1][..i] == metadata.packages[..i];
      if Public(metadata, metadata.packages[i]) {
        packages := packages[metadata.packages[i].name := metadata.packages[i]];
      }
    }
    assert metadata.packages[..|metadata.packages|] == metadata.packages;
    var publisher := new Publisher(packages);
    var roots := Sorted(packages.Keys);
    ghost var graph := GraphOf(packages);
    assert roots[0..] == roots && graph.Keys == packages.Keys && Names([]) == [];
    OrderIsRight(graph);
    OrderExistsExactly(graph);
    for i := 0 to |roots|
      invariant publisher.packages == packages && publisher.Valid([])
      invariant fresh(publisher)
      invariant WithRoots(graph, roots[i..], Names(publisher.ordered)) == Order(graph)
    {
      RootsStep(graph, roots, i, Names(publisher.ordered));
      var problem := publisher.Visit(roots[i], []);
      if problem.Some? {
        return Err(problem.value);
      }
    }
    NoRoots(graph, roots, Names(publisher.ordered));
    Everything(packages, publisher.ordered);
    AfterNeeds(packages, publisher.ordered);
    return Ok(publisher.ordered);
  }

  /** Every package comes after the ones it needs. */
  ghost predicate ComesAfterNeeds(ordered: seq<Package>) {
    forall k, name :: 0 <= k < |ordered| && Needs(ordered[k], name) ==> exists j :: 0 <= j < k && ordered[j].name == name
  }

  lemma AfterNeeds(packages: Packages, ordered: seq<Package>)
    requires DependenciesFirst(GraphOf(packages), Names(ordered))
    requires forall package :: package in ordered ==> package.name in packages && packages[package.name] == package
    ensures ComesAfterNeeds(ordered)
  {
    hide Needs, KeptNames;
    forall k, name | 0 <= k < |ordered| && Needs(ordered[k], name) ensures exists j :: 0 <= j < k && ordered[j].name == name {
      GraphExactly(packages, ordered[k].name, name);
      assert Names(ordered)[k] == ordered[k].name && name in Names(ordered)[..k];
    }
  }

  lemma Everything(packages: Packages, ordered: seq<Package>)
    requires forall package :: package in ordered ==> package.name in packages && packages[package.name] == package
    requires forall name :: name in packages ==> name in Names(ordered)
    ensures forall package :: package in ordered <==> package in packages.Values
  {
    forall package | package in packages.Values ensures package in ordered {
      assert package.name in Names(ordered);
    }
  }

  lemma RootsStep(graph: Graph, roots: seq<string>, i: nat, ordered: seq<string>)
    requires i < |roots| && forall name :: name in roots ==> name in graph
    ensures roots[i] in graph
    ensures WithRoots(graph, roots[i..], ordered) ==
      if WithName(graph, roots[i], [], ordered).Err? then WithName(graph, roots[i], [], ordered)
      else WithRoots(graph, roots[i + 1..], WithName(graph, roots[i], [], ordered).value)
  {
    assert roots[i..][1..] == roots[i + 1..];
  }

  lemma NoRoots(graph: Graph, roots: seq<string>, ordered: seq<string>)
    ensures WithRoots(graph, roots[|roots|..], ordered) == Ok(ordered)
  {
  }

  ghost predicate UniqueNames(metadata: Metadata) {
    forall p, q :: p in metadata.packages && q in metadata.packages && Public(metadata, p) && Public(metadata, q) && p.name == q.name ==> p == q
  }

  lemma {:induction false} SelectedExactly(metadata: Metadata, packages: seq<Package>)
    requires UniqueNames(metadata) && forall package :: package in packages ==> package in metadata.packages
    ensures forall package :: package in Selected(metadata, packages).Values <==> package in packages && package.id in metadata.members && package.publishable
  {
    forall package
      ensures package in Selected(metadata, packages).Values <==> package in packages && package.id in metadata.members && package.publishable
    {
      SelectedName(metadata, packages, package.name);
    }
  }

  ghost predicate IsPublic(metadata: Metadata, packages: seq<Package>, package: Package) {
    package in packages && package.id in metadata.members && package.publishable
  }

  /** Under a name the public package of that name is selected, when there is one. */
  lemma {:induction false} SelectedName(metadata: Metadata, packages: seq<Package>, name: string)
    requires UniqueNames(metadata) && forall package :: package in packages ==> package in metadata.packages
    ensures name in Selected(metadata, packages) ==> IsPublic(metadata, packages, Selected(metadata, packages)[name])
    ensures forall package :: IsPublic(metadata, packages, package) && package.name == name ==>
      name in Selected(metadata, packages) && Selected(metadata, packages)[name] == package
  {
    if packages != [] {
      var n := |packages| - 1;
      SelectedName(metadata, packages[..n], name);
      assert forall package :: package in packages <==> package in packages[..n] || package == packages[n];
    }
  }

  /** The order in which the metadata lists members and packages plays no part. */
  lemma MetadataOrderIsIrrelevant(a: Metadata, b: Metadata)
    requires UniqueNames(a)
    requires forall id :: id in a.members <==> id in b.members
    requires forall package :: package in a.packages <==> package in b.packages
    ensures Order(GraphOf(PublicPackages(a))) == Order(GraphOf(PublicPackages(b)))
  {
    hide Order;
    SelectedExactly(a, a.packages);
    SelectedExactly(b, b.packages);
    SamePackages(PublicPackages(a), PublicPackages(b));
  }

  lemma SamePackages(a: Packages, b: Packages)
    requires forall package :: package in a.Values <==> package in b.Values
    ensures a == b
  {
    forall name | name in a ensures name in b && b[name] == a[name] {
      assert a[name] in b.Values;
    }
    forall name | name in b ensures name in a {
      assert b[name] in a.Values;
    }
  }
}
