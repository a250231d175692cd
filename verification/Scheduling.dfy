/** Ordering a dependency graph: again and again, the first vertex whose dependencies are
    complete. Vertices are numbered; `deps[i]` are the vertices that must precede `i`. */
module Scheduling {
  import opened Sequences
  import opened Wrappers

  type Graph = seq<set<nat>>

  predicate Closed(deps: Graph) {
    forall i :: 0 <= i < |deps| ==> forall d :: d in deps[i] ==> d < |deps|
  }

  // ----- walks

  /** Every vertex of a walk is followed by one of its dependencies. */
  ghost predicate Walk(deps: Graph, walk: seq<nat>) {
    && (forall j :: 0 <= j < |walk| ==> walk[j] < |deps|)
    && (forall j :: 0 <= j < |walk| - 1 ==> walk[j + 1] in deps[walk[j]])
  }

  /** A dependency cycle can be reached from this vertex. */
  ghost predicate ReachesCycle(deps: Graph, i: nat) {
    exists walk :: Walk(deps, walk) && walk != [] && walk[0] == i && Repeats(walk)
  }

  ghost predicate Acyclic(deps: Graph) {
    forall i :: 0 <= i < |deps| ==> !ReachesCycle(deps, i)
  }

  // ----- orders

  ghost predicate Distinct(order: seq<nat>) {
    forall a, b :: 0 <= a < b < |order| ==> order[a] != order[b]
  }

  ghost predicate Topological(deps: Graph, order: seq<nat>) {
    forall k :: 0 <= k < |order| ==> order[k] < |deps| && forall d :: d in deps[order[k]] ==> d in order[..k]
  }

  /** A permutation of the vertices with every vertex after its dependencies. */
  ghost predicate IsOrder(deps: Graph, order: seq<nat>) {
    Distinct(order) && Topological(deps, order) && forall i: nat :: i < |deps| ==> i in order
  }

  /** A vertex that may come next. */
  predicate Ready(deps: Graph, completed: set<nat>, i: nat)
  {
    i < |deps| && i !in completed && deps[i] <= completed
  }

  /** Every choice is the least one possible. */
  ghost predicate Greedy(deps: Graph, order: seq<nat>) {
    forall k :: 0 <= k < |order| ==>
      && Ready(deps, Elements(order[..k]), order[k])
      && forall i: nat :: Ready(deps, Elements(order[..k]), i) ==> order[k] <= i
  }

  ghost predicate LexicographicallyLeast(deps: Graph, order: seq<nat>) {
    forall other :: IsOrder(deps, other) ==> other == order || Before(order, other)
  }

  /** The first difference between two orders favours the first one. */
  ghost predicate Before(order: seq<nat>, other: seq<nat>) {
    exists k :: 0 <= k < |order| && k < |other| && order[..k] == other[..k] && order[k] < other[k]
  }

  lemma GreedyIsOrdered(deps: Graph, order: seq<nat>)
    requires Greedy(deps, order)
    ensures Distinct(order) && Topological(deps, order)
  {
    forall a, b | 0 <= a < b < |order| ensures order[a] != order[b] {
      assert order[..b][a] == order[a];
      assert order[a] in Elements(order[..b]);
      assert Ready(deps, Elements(order[..b]), order[b]);
    }
    forall k | 0 <= k < |order|
      ensures order[k] < |deps| && forall d :: d in deps[order[k]] ==> d in order[..k]
    {
      assert Ready(deps, Elements(order[..k]), order[k]);
    }
  }

  lemma {:induction false} FirstDifference(a: seq<nat>, b: seq<nat>) returns (k: nat)
    ensures k <= |a| && k <= |b| && a[..k] == b[..k]
    ensures k < |a| && k < |b| ==> a[k] != b[k]
    ensures k == |a| || k == |b| || a[k] != b[k]
  {
    k := 0;
    while k < |a| && k < |b| && a[k] == b[k]
      invariant k <= |a| && k <= |b| && a[..k] == b[..k]
    {
      k := k + 1;
    }
  }

  lemma SameLength(deps: Graph, order: seq<nat>, other: seq<nat>)
    requires IsOrder(deps, order) && IsOrder(deps, other)
    ensures |order| == |other|
  {
    DistinctLength(order);
    DistinctLength(other);
    assert Elements(order) == Elements(other);
  }

  lemma DistinctLength(order: seq<nat>)
    requires Distinct(order)
    ensures |order| == |Elements(order)|
  {
    if order != [] {
      var front, last := order[..|order| - 1], order[|order| - 1];
      DistinctLength(front);
      assert order == front + [last];
      assert Elements(order) == Elements(front) + {last};
      assert last !in Elements(front);
    }
  }

  /** Among all orders of the graph the greedy one comes first. */
  lemma GreedyIsLeast(deps: Graph, order: seq<nat>)
    requires Greedy(deps, order) && IsOrder(deps, order)
    ensures LexicographicallyLeast(deps, order)
  {
    forall other | IsOrder(deps, other)
      ensures other == order || Before(order, other)
    {
      var k := FirstDifference(order, other);
      SameLength(deps, order, other);
      if k < |order| {
        NextIsReady(deps, other, k);
        assert Ready(deps, Elements(order[..k]), other[k]);
      } else {
        assert order == order[..k] && other == other[..k];
      }
    }
  }

  lemma NextIsReady(deps: Graph, order: seq<nat>, k: nat)
    requires IsOrder(deps, order) && k < |order|
    ensures Ready(deps, Elements(order[..k]), order[k])
  {
  }

  // ----- what is left when nothing is ready

  /** Following dependencies inside an order leads ever closer to its start. */
  lemma {:induction false} WalkDescends(deps: Graph, order: seq<nat>, walk: seq<nat>, at: nat)
    requires Topological(deps, order) && Walk(deps, walk) && walk != []
    requires at < |order| && order[at] == walk[0]
    ensures |walk| <= at + 1
    decreases at
  {
    if |walk| > 1 {
      assert walk[0 + 1] in deps[walk[0]];
      var next :| 0 <= next < at && order[..at][next] == walk[1];
      var rest := walk[1..];
      forall j | 0 <= j < |rest| - 1 ensures rest[j + 1] in deps[rest[j]] {
        assert walk[(j + 1) + 1] in deps[walk[j + 1]];
      }
      WalkDescends(deps, order, rest, next);
    }
  }

  lemma PumpCycle(deps: Graph, walk: seq<nat>, n: nat) returns (longer: seq<nat>)
    requires Walk(deps, walk) && walk != [] && Repeats(walk)
    ensures Walk(deps, longer) && |longer| > n && longer[0] == walk[0] && Repeats(longer)
    decreases n
  {
    if |walk| > n {
      longer := walk;
    } else {
      var shorter := PumpCycle(deps, walk, n - 1);
      var a, b :| 0 <= a < b < |shorter| && shorter[a] == shorter[b];
      longer := shorter[..b] + shorter[a..];
      forall j | 0 <= j < |longer| - 1 ensures longer[j + 1] in deps[longer[j]] {
        if j + 1 < b {
          assert shorter[j + 1] in deps[shorter[j]];
        } else if j + 1 == b {
          assert shorter[j + 1] in deps[shorter[j]];
        } else {
          assert shorter[(j - b + a) + 1] in deps[shorter[j - b + a]];
        }
      }
      assert longer[a] == longer[b];
    }
  }

  /** No ordered vertex reaches a cycle. */
  lemma OrderedIsAcyclic(deps: Graph, order: seq<nat>, i: nat)
    requires Topological(deps, order) && i in order
    ensures !ReachesCycle(deps, i)
  {
    if ReachesCycle(deps, i) {
      var walk :| Walk(deps, walk) && walk != [] && walk[0] == i && Repeats(walk);
      var at :| 0 <= at < |order| && order[at] == i;
      var longer := PumpCycle(deps, walk, at + 1);
      WalkDescends(deps, order, longer, at);
    }
  }

  ghost predicate StuckOn(deps: Graph, stuck: set<nat>, j: nat) {
    j < |deps| && exists d :: d in deps[j] && d in stuck
  }

  /** When every vertex of a set has a dependency in it, each of them reaches a cycle. */
  lemma StuckReachesCycle(deps: Graph, stuck: set<nat>, i: nat)
    requires i in stuck && forall j :: j in stuck ==> StuckOn(deps, stuck, j)
    ensures ReachesCycle(deps, i)
  {
    hide StuckOn;
    var walk := WalkInside(deps, stuck, i, |stuck| + 1);
    if !Repeats(walk) {
      DistinctLength(walk);
      SubsetSize(Elements(walk), stuck);
    }
  }

  lemma StuckIsVertex(deps: Graph, stuck: set<nat>, j: nat)
    requires StuckOn(deps, stuck, j)
    ensures j < |deps|
  {
  }

  lemma NextStuck(deps: Graph, stuck: set<nat>, j: nat) returns (d: nat)
    requires StuckOn(deps, stuck, j)
    ensures j < |deps| && d in deps[j] && d in stuck
  {
    d :| d in deps[j] && d in stuck;
  }

  lemma {:induction false} WalkInside(deps: Graph, stuck: set<nat>, i: nat, n: nat) returns (walk: seq<nat>)
    requires i in stuck && forall j :: j in stuck ==> StuckOn(deps, stuck, j)
    ensures Walk(deps, walk) && |walk| == n + 1 && walk[0] == i
    ensures forall j :: 0 <= j < |walk| ==> walk[j] in stuck
  {
    hide StuckOn;
    if n == 0 {
      StuckIsVertex(deps, stuck, i);
      walk := [i];
    } else {
      var shorter := WalkInside(deps, stuck, i, n - 1);
      var d := NextStuck(deps, stuck, shorter[n - 1]);
      StuckIsVertex(deps, stuck, d);
      walk := shorter + [d];
    }
  }

  lemma SubsetSize(a: set<nat>, b: set<nat>)
    requires a <= b
    ensures |a| <= |b|
  {
    assert b == a + (b - a);
  }

  // ----- the loop

  method FirstReady(deps: Graph, completed: set<nat>) returns (next: Option<nat>)
    ensures next.Some? ==> Ready(deps, completed, next.value)
    ensures next.Some? ==> forall i: nat :: Ready(deps, completed, i) ==> next.value <= i
    ensures next.None? ==> forall i: nat :: !Ready(deps, completed, i)
  {
    for i := 0 to |deps|
      invariant forall j: nat :: j < i ==> !Ready(deps, completed, j)
    {
      if i !in completed && deps[i] <= completed {
        return Some(i);
      }
    }
    next := None;
  }

  /** The order succeeds exactly on acyclic graphs, with the least order there is. On failure
      it reports exactly the vertices from which a cycle can be reached. */
  method Order(deps: Graph) returns (r: Result<seq<nat>, set<nat>>)
    requires Closed(deps)
    ensures r.Ok? <==> Acyclic(deps)
    ensures r.Ok? ==> IsOrder(deps, r.value) && LexicographicallyLeast(deps, r.value)
    ensures r.Err? ==> r.error == set i: nat | i < |deps| && ReachesCycle(deps, i)
  {
    var order: seq<nat> := [];
    var completed: set<nat> := {};
    while |order| < |deps|
      invariant Greedy(deps, order)
      invariant completed == Elements(order)
      decreases |deps| - |order|
    {
      var next := FirstReady(deps, completed);
      if next.None? {
        var stuck := set i: nat | i < |deps| && i !in completed;
        Stuck(deps, order, stuck);
        return Err(stuck);
      }
      GreedyGrows(deps, order, next.value);
      completed := completed + {next.value};
      order := order + [next.value];
    }
    Complete(deps, order);
    r := Ok(order);
  }

  lemma GreedyGrows(deps: Graph, order: seq<nat>, next: nat)
    requires Greedy(deps, order) && Ready(deps, Elements(order), next)
    requires forall i: nat :: Ready(deps, Elements(order), i) ==> next <= i
    ensures Greedy(deps, order + [next])
    ensures Elements(order + [next]) == Elements(order) + {next}
  {
    var longer := order + [next];
    forall k | 0 <= k < |longer|
      ensures Ready(deps, Elements(longer[..k]), longer[k])
      ensures forall i: nat :: Ready(deps, Elements(longer[..k]), i) ==> longer[k] <= i
    {
      assert longer[..k] == order[..k];
      if k == |order| {
        assert order[..k] == order;
      }
    }
  }

  lemma Stuck(deps: Graph, order: seq<nat>, stuck: set<nat>)
    requires Closed(deps) && Greedy(deps, order) && |order| < |deps|
    requires forall i: nat :: !Ready(deps, Elements(order), i)
    requires stuck == set i: nat | i < |deps| && i !in Elements(order)
    ensures stuck == set i: nat | i < |deps| && ReachesCycle(deps, i)
    ensures !Acyclic(deps)
  {
    GreedyIsOrdered(deps, order);
    forall j | j in stuck ensures StuckOn(deps, stuck, j) {
      assert !Ready(deps, Elements(order), j);
    }
    hide StuckOn;
    forall i: nat | i < |deps| ensures i in stuck <==> ReachesCycle(deps, i) {
      if i in stuck {
        StuckReachesCycle(deps, stuck, i);
      } else {
        OrderedIsAcyclic(deps, order, i);
      }
    }
    assert stuck != {} by {
      DistinctLength(order);
      if stuck == {} {
        forall i: nat | i < |deps| ensures i in Elements(order) {
          assert i !in stuck;
        }
        SubsetSize(Below(|deps|), Elements(order));
      }
    }
  }

  ghost function Below(n: nat): (below: set<nat>)
    ensures forall i: nat :: i in below <==> i < n
    ensures |below| == n
  {
    if n == 0 then {} else Below(n - 1) + {n - 1}
  }

  lemma Complete(deps: Graph, order: seq<nat>)
    requires Greedy(deps, order) && |order| >= |deps|
    ensures IsOrder(deps, order) && LexicographicallyLeast(deps, order) && Acyclic(deps)
  {
    GreedyIsOrdered(deps, order);
    DistinctLength(order);
    var all := Below(|deps|);
    assert Elements(order) <= all;
    SubsetIsWhole(Elements(order), all);
    forall i: nat | i < |deps| ensures i in order {
      assert i in all;
    }
    GreedyIsLeast(deps, order);
    forall i | 0 <= i < |deps| ensures !ReachesCycle(deps, i) {
      OrderedIsAcyclic(deps, order, i);
    }
  }

  lemma SubsetIsWhole(a: set<nat>, b: set<nat>)
    requires a <= b && |a| >= |b|
    ensures a == b
  {
    assert b == a + (b - a);
  }
}
