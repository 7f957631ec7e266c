/** Topological Sorter: Kahn's algorithm with a FIFO frontier over the
    dependency graph (`topological_sort` in dependency_sort.py). It emits
    dependents before the libraries they depend on, and reports a cycle when
    fewer keys come out than the graph holds. */
module Sorter {
  import opened Seqs
  import opened Graphs

  /** The sorted key list, or the source's "Cycle detected" ValueError. */
  datatype SortResult = Sorted(order: seq<string>) | CycleDetected

  /** Lines 78-81: count, for every key, the edges that end at it. Edges that end
      outside the keys would raise a KeyError there, so the graph must have none. */
  method CountInDegrees(g: Graph) returns (inDegree: map<string, int>)
    requires Valid(g) && NoDangling(g)
    ensures inDegree.Keys == g.edges.Keys
    ensures forall v :: v in inDegree ==> inDegree[v] == InDegree(g, v)
  {
    inDegree := map v | v in g.edges :: 0;
    var i := 0;
    while i < |g.nodes|
      invariant 0 <= i <= |g.nodes|
      invariant inDegree.Keys == g.edges.Keys
      invariant forall v :: v in inDegree ==> inDegree[v] == multiset(Targets(g, g.nodes[..i], []))[v]
    {
      assert g.nodes[i] in Elems(g.nodes);
      inDegree := AddTargets(g.edges[g.nodes[i]], inDegree);
      TargetsStep(g, g.nodes, i, []);
      i := i + 1;
    }
    assert g.nodes[..i] == g.nodes;
  }

  /** Lines 80-81: one key's edge list adds one to the count of each edge's target. */
  method AddTargets(deps: seq<string>, inDegree0: map<string, int>) returns (inDegree: map<string, int>)
    requires forall v :: v in deps ==> v in inDegree0
    ensures inDegree.Keys == inDegree0.Keys
    ensures forall v :: v in inDegree ==> inDegree[v] == inDegree0[v] + multiset(deps)[v]
  {
    inDegree := inDegree0;
    var j := 0;
    while j < |deps|
      invariant 0 <= j <= |deps|
      invariant inDegree.Keys == inDegree0.Keys
      invariant forall v :: v in inDegree ==> inDegree[v] == inDegree0[v] + multiset(deps[..j])[v]
    {
      var dep := deps[j];
      assert deps[..j + 1] == deps[..j] + [dep];
      inDegree := inDegree[dep := inDegree[dep] + 1];
      j := j + 1;
    }
    assert deps[..j] == deps;
  }

  function HasNoIncoming(g: Graph): string -> bool {
    v => InDegree(g, v) == 0
  }

  /** The keys that no edge ends at, in key order: the frontier Kahn's algorithm starts from. */
  function Sources(g: Graph): seq<string> {
    Filter(g.nodes, HasNoIncoming(g))
  }

  /** A key is in Sources exactly when no edge at all ends at it. */
  lemma SourcesMembership(g: Graph, v: string)
    requires Valid(g)
    ensures v in Sources(g) <==> v in g.edges && forall u :: !Edge(g, u, v)
  {
    FilterMembership(g.nodes, HasNoIncoming(g), v);
    TargetsMembership(g, g.nodes, [], v);
    assert v in g.nodes <==> v in Elems(g.nodes);
    if u :| Edge(g, u, v) {
      assert u in Elems(g.nodes);
    }
  }

  function IsZeroIn(inDegree: map<string, int>): string -> bool {
    v => v in inDegree && inDegree[v] == 0
  }

  /** The edges still to be counted against `v` once the keys in `done` are emitted. */
  function Pending(g: Graph, done: seq<string>, v: string): nat {
    multiset(Targets(g, g.nodes, done))[v]
  }

  /** Pending counts of every key once the keys in `done` are emitted. */
  function PendingCounts(g: Graph, done: seq<string>): map<string, int> {
    map v | v in g.edges :: Pending(g, done, v)
  }

  /** The targets of `deps`, in edge order, whose count reaches zero as the
      edges are taken off `count` one at a time: the keys lines 90-93 append to
      the queue for one emitted key. */
  function Released(deps: seq<string>, count: map<string, int>): seq<string> {
    if deps == [] then []
    else
      var j := |deps| - 1;
      var v := deps[j];
      Released(deps[..j], count) + (if v in count && count[v] == multiset(deps)[v] then [v] else [])
  }

  lemma ReleasedStep(deps: seq<string>, j: nat, count: map<string, int>)
    requires j < |deps|
    ensures Released(deps[..j + 1], count) == Released(deps[..j], count)
      + (if deps[j] in count && count[deps[j]] == multiset(deps[..j + 1])[deps[j]] then [deps[j]] else [])
  {
    assert deps[..j + 1][..j] == deps[..j];
  }

  /** The state of lines 90-93 after the edges in `done` are taken off: each
      count dropped by its edges among them, and the queue gained the released
      targets in edge order. */
  predicate Releasing(done: seq<string>, inDegree0: map<string, int>, queue0: seq<string>,
                      inDegree: map<string, int>, queue: seq<string>) {
    && inDegree.Keys == inDegree0.Keys
    && (forall v :: v in inDegree ==> inDegree[v] == inDegree0[v] - multiset(done)[v])
    && queue == queue0 + Released(done, inDegree0)
  }

  /** Lines 91-93 for one edge: its target loses one count, and is queued
      exactly when that count reaches zero. */
  lemma ReleaseStep(done: seq<string>, dep: string, done': seq<string>, inDegree0: map<string, int>,
                    queue0: seq<string>, inDegree: map<string, int>, queue: seq<string>)
    requires Releasing(done, inDegree0, queue0, inDegree, queue)
    requires dep in inDegree0 && done' == done + [dep]
    ensures var inDegree' := inDegree[dep := inDegree[dep] - 1];
      Releasing(done', inDegree0, queue0, inDegree', if inDegree'[dep] == 0 then queue + [dep] else queue)
  {
    assert done'[..|done|] == done;
    AppendAssoc(queue0, Released(done, inDegree0), [dep]);
  }

  /** A key is released exactly when it is a target and its count is positive
      and no more than the number of edges that end at it. */
  lemma {:induction false} ReleasedMembership(deps: seq<string>, count: map<string, int>, x: string)
    ensures x in Released(deps, count) <==> x in count && 0 < count[x] <= multiset(deps)[x]
  {
    if deps != [] {
      var j := |deps| - 1;
      assert deps == deps[..j] + [deps[j]];
      ReleasedMembership(deps[..j], count, x);
    }
  }

  /** Each key is released at most once. */
  lemma {:induction false} ReleasedDistinct(deps: seq<string>, count: map<string, int>)
    ensures Distinct(Released(deps, count))
  {
    if deps != [] {
      var j := |deps| - 1;
      var v := deps[j];
      assert deps == deps[..j] + [v];
      ReleasedDistinct(deps[..j], count);
      ReleasedMembership(deps[..j], count, v);
    }
  }

  /** Released reads the counts of the targets only. */
  lemma {:induction false} ReleasedCongruent(deps: seq<string>, c1: map<string, int>, c2: map<string, int>)
    requires forall v :: v in deps ==> v in c1 && v in c2 && c1[v] == c2[v]
    ensures Released(deps, c1) == Released(deps, c2)
  {
    if deps != [] {
      var j := |deps| - 1;
      assert forall v :: v in deps[..j] ==> v in deps;
      ReleasedCongruent(deps[..j], c1, c2);
    }
  }

  /** The FIFO discovery sequence after the keys `emitted` have been popped in
      that order: the keys no edge ends at, in key order, then, for each emitted
      key in turn, the keys it released, in edge order. While the loop runs, the
      emitted keys followed by the queue are exactly this sequence. */
  function Discovered(g: Graph, emitted: seq<string>): seq<string> {
    if emitted == [] then Sources(g)
    else
      var i := |emitted| - 1;
      var u := emitted[i];
      Discovered(g, emitted[..i])
        + (if u in g.edges then Released(g.edges[u], PendingCounts(g, emitted[..i])) else [])
  }

  /** Lines 90-93: take the edges of one emitted key off the in-degree counts,
      and queue, in edge order, every target whose count reaches zero. */
  method ReleaseTargets(g: Graph, sorted: seq<string>, deps: seq<string>,
                        inDegree0: map<string, int>, queue0: seq<string>)
    returns (inDegree: map<string, int>, queue: seq<string>)
    requires inDegree0.Keys == g.edges.Keys
    requires forall v :: v in deps ==> v in g.edges && v !in sorted
    requires forall v :: v in g.edges && v !in sorted ==> inDegree0[v] >= multiset(deps)[v]
    requires Distinct(sorted + queue0)
    requires forall v :: v in queue0 <==> v in g.edges && v !in sorted && inDegree0[v] == 0
    ensures inDegree.Keys == g.edges.Keys
    ensures forall v :: v in inDegree ==> inDegree[v] == inDegree0[v] - multiset(deps)[v]
    ensures queue == queue0 + Released(deps, inDegree0) && Distinct(sorted + queue)
    ensures forall v :: v in queue <==> v in g.edges && v !in sorted && inDegree[v] == 0
  {
    inDegree, queue := inDegree0, queue0;
    var j := 0;
    assert deps[..0] == [];
    while j < |deps|
      invariant 0 <= j <= |deps|
      invariant Releasing(deps[..j], inDegree0, queue0, inDegree, queue)
    {
      var dep := deps[j];
      TakeSnoc(deps, j);
      assert dep in inDegree0;
      ReleaseStep(deps[..j], dep, deps[..j + 1], inDegree0, queue0, inDegree, queue);
      inDegree := inDegree[dep := inDegree[dep] - 1];
      if inDegree[dep] == 0 {
        queue := queue + [dep];
      }
      j := j + 1;
    }
    assert deps[..j] == deps;
    ReleasedQueue(g, sorted, deps, inDegree0, queue0);
  }

  /** After lines 90-93 the queue, the waiting keys followed by the released
      ones, holds each key once and exactly the keys not emitted whose count
      is now zero. */
  lemma ReleasedQueue(g: Graph, sorted: seq<string>, deps: seq<string>,
                      inDegree0: map<string, int>, queue0: seq<string>)
    requires inDegree0.Keys == g.edges.Keys
    requires forall v :: v in deps ==> v in g.edges && v !in sorted
    requires forall v :: v in g.edges && v !in sorted ==> inDegree0[v] >= multiset(deps)[v]
    requires Distinct(sorted + queue0)
    requires forall v :: v in queue0 <==> v in g.edges && v !in sorted && inDegree0[v] == 0
    ensures Distinct(sorted + (queue0 + Released(deps, inDegree0)))
    ensures forall v :: v in queue0 + Released(deps, inDegree0) <==>
      v in g.edges && v !in sorted && inDegree0[v] - multiset(deps)[v] == 0
  {
    var released := Released(deps, inDegree0);
    forall v
      ensures v in released <==> v in inDegree0 && 0 < inDegree0[v] <= multiset(deps)[v]
    {
      ReleasedMembership(deps, inDegree0, v);
    }
    ReleasedDistinct(deps, inDegree0);
    DistinctConcat(sorted + queue0, released);
    AppendAssoc(sorted, queue0, released);
  }

  /** Every emitted key comes after every key with an edge to it. */
  ghost predicate PredecessorsFirst(g: Graph, sorted: seq<string>) {
    forall k, u :: 0 <= k < |sorted| && Edge(g, u, sorted[k]) ==> u in sorted[..k]
  }

  /** What holds each time the loop of lines 86-93 tests its queue: the counts
      and queue agree (KahnCounts), and the emitted keys followed by the queue
      are the FIFO discovery sequence. */
  ghost predicate KahnInvariant(g: Graph, sorted: seq<string>, queue: seq<string>, inDegree: map<string, int>) {
    KahnCounts(g, sorted, queue, inDegree) && sorted + queue == Discovered(g, sorted)
  }

  /** Every key is emitted or queued at most once, the counts are the edges
      still to come from keys not emitted, the queue holds exactly the keys not
      emitted whose count is zero, and emitted keys follow their predecessors. */
  ghost predicate KahnCounts(g: Graph, sorted: seq<string>, queue: seq<string>, inDegree: map<string, int>) {
    && inDegree.Keys == g.edges.Keys
    && Distinct(sorted + queue)
    && (forall x :: x in sorted + queue ==> x in g.edges)
    && (forall v :: v in g.edges && v !in sorted ==> inDegree[v] == Pending(g, sorted, v))
    && (forall v :: v in queue <==> v in g.edges && v !in sorted && inDegree[v] == 0)
    && PredecessorsFirst(g, sorted)
  }

  /** Lines 78-84: the counts and the first queue establish the invariant. */
  lemma KahnStart(g: Graph, inDegree: map<string, int>, queue: seq<string>)
    requires Valid(g)
    requires inDegree.Keys == g.edges.Keys
    requires forall v :: v in inDegree ==> inDegree[v] == InDegree(g, v)
    requires queue == Filter(g.nodes, IsZeroIn(inDegree))
    ensures KahnInvariant(g, [], queue, inDegree)
  {
    FilterCongruent(g.nodes, IsZeroIn(inDegree), HasNoIncoming(g));
    FilterDistinct(g.nodes, IsZeroIn(inDegree));
    forall v
      ensures v in queue <==> v in g.edges && inDegree[v] == 0
    {
      FilterMembership(g.nodes, IsZeroIn(inDegree), v);
      assert v in g.nodes <==> v in Elems(g.nodes);
    }
    assert [] + queue == queue;
    assert Discovered(g, []) == Sources(g) == queue;
  }

  /** Lines 87-88: popping the head of the queue and emitting it keeps every key
      once, emits it after all its predecessors, and leaves its edges, all to keys
      not emitted, as the only difference between the counts and what is pending. */
  lemma KahnPop(g: Graph, sorted: seq<string>, queue: seq<string>,
                 inDegree: map<string, int>, lib: string)
    requires Valid(g) && NoDangling(g) && KahnCounts(g, sorted, queue, inDegree)
    requires queue != [] && lib == queue[0]
    ensures lib in g.edges && lib !in sorted
    ensures (sorted + [lib]) + queue[1..] == sorted + queue
    ensures PredecessorsFirst(g, sorted + [lib])
    ensures forall v :: v in g.edges[lib] ==> v in g.edges && v !in sorted + [lib]
    ensures forall v :: v in g.edges && v !in sorted + [lib] ==>
      inDegree[v] == Pending(g, sorted + [lib], v) + multiset(g.edges[lib])[v]
    ensures forall v :: v in queue[1..] <==> v in g.edges && v !in sorted + [lib] && inDegree[v] == 0
    ensures forall v :: v in g.edges[lib] ==> v in inDegree && inDegree[v] == Pending(g, sorted, v)
  {
    var sorted', queue' := sorted + [lib], queue[1..];
    assert lib in g.nodes by {
      assert lib in Elems(g.nodes);
    }
    assert lib !in sorted by {
      assert (sorted + queue)[|sorted|] == lib;
    }
    assert sorted' + queue' == sorted + queue;
    forall v
      ensures v in queue' <==> v in queue && v != lib
    {
      assert queue == [lib] + queue';
      if v in queue' {
        var k :| 0 <= k < |queue'| && queue'[k] == v;
        assert (sorted + queue)[|sorted|] == lib;
        assert (sorted + queue)[|sorted| + 1 + k] == v;
      }
    }
    // No key still waiting has an edge to lib, lib included.
    forall u | Edge(g, u, lib)
      ensures u in sorted
    {
      TargetsMembership(g, g.nodes, sorted, lib);
      assert u in Elems(g.nodes);
    }
    forall k, u | 0 <= k < |sorted'| && Edge(g, u, sorted'[k])
      ensures u in sorted'[..k]
    {
      if k < |sorted| {
        assert sorted'[..k] == sorted[..k];
      } else {
        assert sorted'[..k] == sorted;
      }
    }
    // lib comes after its predecessors, so none of its targets is emitted yet.
    forall k | 0 <= k < |sorted|
      ensures !Edge(g, lib, sorted[k])
    {
      assert lib !in sorted[..k];
    }
    forall v | v in g.edges[lib]
      ensures v in g.edges && v !in sorted'
    {
      assert Edge(g, lib, v);
    }
    TargetsRemove(g, g.nodes, sorted, lib);
  }

  /** Lines 89-93: once the emitted key's edges are taken off the counts and the
      released keys queued, the invariant holds again. */
  lemma KahnPush(g: Graph, sorted: seq<string>, queue: seq<string>,
                 inDegree0: map<string, int>, inDegree: map<string, int>, lib: string)
    requires lib in g.edges && inDegree0.Keys == g.edges.Keys
    requires sorted + queue == Discovered(g, sorted)
    requires PredecessorsFirst(g, sorted)
    requires forall v :: v in g.edges && v !in sorted ==>
      inDegree0[v] == Pending(g, sorted, v) + multiset(g.edges[lib])[v]
    requires inDegree.Keys == g.edges.Keys
    requires forall v :: v in g.edges && v !in sorted ==> inDegree[v] == inDegree0[v] - multiset(g.edges[lib])[v]
    requires Distinct(sorted + queue)
    requires forall v :: v in queue <==> v in g.edges && v !in sorted && inDegree[v] == 0
    requires forall x :: x in sorted ==> x in g.edges
    ensures KahnInvariant(g, sorted, queue, inDegree)
  {
  }

  /** Lines 87-93 on the discovery sequence: popping `lib` and appending what it
      releases extends the discovery sequence by exactly those keys. */
  lemma DiscoveredStep(g: Graph, before: seq<string>, lib: string, waiting: seq<string>,
                       count: map<string, int>)
    requires lib in g.edges
    requires (before + [lib]) + waiting == Discovered(g, before)
    requires forall v :: v in g.edges[lib] ==> v in g.edges && v in count && count[v] == Pending(g, before, v)
    ensures (before + [lib]) + (waiting + Released(g.edges[lib], count)) == Discovered(g, before + [lib])
  {
    var emitted := before + [lib];
    assert emitted[..|emitted| - 1] == before;
    ReleasedCongruent(g.edges[lib], count, PendingCounts(g, before));
    AppendAssoc(before + [lib], waiting, Released(g.edges[lib], count));
  }

  /** `topological_sort`. On success every key comes out exactly once, each
      dependent before each of its dependencies, in FIFO discovery order: the
      keys no edge ends at in key order, then the keys each emitted key
      releases, in edge order (FifoOrderUnique: no other order is both). The
      cycle error is raised exactly when the graph has a cycle, a self-loop
      included. */
  method TopologicalSort(g: Graph) returns (r: SortResult)
    requires Valid(g) && NoDangling(g)
    ensures r.Sorted? <==> !HasCycle(g)
    ensures r.Sorted? ==> IsTopologicalOrder(g, r.order)
    ensures r.Sorted? ==> r.order == Discovered(g, r.order)
    ensures r.Sorted? ==> Sources(g) <= r.order
  {
    var inDegree := CountInDegrees(g);
    var queue := Filter(g.nodes, IsZeroIn(inDegree));
    KahnStart(g, inDegree, queue);
    var sorted: seq<string> := [];

    while queue != []
      invariant KahnInvariant(g, sorted, queue, inDegree)
      decreases g.edges.Keys - Elems(sorted)
    {
      var lib := queue[0];
      KahnPop(g, sorted, queue, inDegree, lib);
      ElemsSnoc(sorted, lib);
      assert forall x :: x in sorted + [lib] ==> x in g.edges by {
        assert forall x :: x in sorted ==> x in sorted + queue;
      }
      ghost var before := sorted;
      sorted, queue := sorted + [lib], queue[1..];
      ghost var inDegree0, waiting := inDegree, queue;
      inDegree, queue := ReleaseTargets(g, sorted, g.edges[lib], inDegree, queue);
      DiscoveredStep(g, before, lib, waiting, inDegree0);
      KahnPush(g, sorted, queue, inDegree0, inDegree, lib);
    }

    assert sorted + queue == sorted;
    if |sorted| != |g.nodes| {
      StuckMeansCycle(g, sorted);
      r := CycleDetected;
    } else {
      AllEmittedIsTopological(g, sorted);
      DiscoveredPrefix(g, sorted, 0);
      assert sorted[..0] == [];
      r := Sorted(sorted);
    }
  }

  /** When Kahn's loop stops short, every key not emitted still has an edge
      from another key not emitted, so the graph has a cycle. */
  lemma StuckMeansCycle(g: Graph, sorted: seq<string>)
    requires Valid(g) && Distinct(sorted) && Elems(sorted) <= g.edges.Keys
    requires |sorted| != |g.nodes|
    requires forall v :: v in g.edges && v !in sorted ==> Pending(g, sorted, v) != 0
    ensures HasCycle(g)
  {
    DistinctCardinality(sorted);
    DistinctCardinality(g.nodes);
    var region := g.edges.Keys - Elems(sorted);
    assert Elems(sorted) != g.edges.Keys;
    var v :| v in g.edges.Keys && v !in Elems(sorted);
    assert v in region;
    forall x | x in region
      ensures HasPredecessorIn(g, region, x)
    {
      TargetsMembership(g, g.nodes, sorted, x);
      var u :| u in g.nodes && u !in sorted && Edge(g, u, x);
      assert u in Elems(g.nodes);
    }
    PredecessorClosedHasCycle(g, region, v);
  }

  /** When Kahn's loop emits as many keys as the graph has, the output is a
      topological order, and so the graph has no cycle. */
  lemma AllEmittedIsTopological(g: Graph, sorted: seq<string>)
    requires Valid(g) && Distinct(sorted) && Elems(sorted) <= g.edges.Keys
    requires |sorted| == |g.nodes|
    requires PredecessorsFirst(g, sorted)
    ensures IsTopologicalOrder(g, sorted)
    ensures !HasCycle(g)
  {
    DistinctCardinality(sorted);
    DistinctCardinality(g.nodes);
    SubsetSameSize(Elems(sorted), g.edges.Keys);
    SameElementsPermutation(sorted, g.nodes);
    forall i, j | 0 <= i < |sorted| && 0 <= j < |sorted| && Edge(g, sorted[i], sorted[j])
      ensures i < j
    {
      var k :| 0 <= k < j && sorted[k] == sorted[i];
    }
    TopologicalOrderIsAcyclic(g, sorted);
  }

  /** One more popped key extends the discovery sequence by what it releases. */
  lemma DiscoveredSnoc(g: Graph, emitted: seq<string>, u: string)
    ensures Discovered(g, emitted + [u])
         == Discovered(g, emitted) + (if u in g.edges then Released(g.edges[u], PendingCounts(g, emitted)) else [])
  {
    assert (emitted + [u])[..|emitted|] == emitted;
  }

  /** Each discovery sequence extends those of the shorter emission prefixes. */
  lemma {:induction false} DiscoveredPrefix(g: Graph, emitted: seq<string>, k: nat)
    requires k <= |emitted|
    ensures Discovered(g, emitted[..k]) <= Discovered(g, emitted)
    decreases |emitted|
  {
    if k < |emitted| {
      var i := |emitted| - 1;
      assert emitted[..i][..k] == emitted[..k];
      DiscoveredPrefix(g, emitted[..i], k);
    } else {
      assert emitted[..k] == emitted;
    }
  }

  /** A key discovered after the first k keys are emitted was released by an
      edge from one of the later emitted keys. */
  lemma {:induction false} DiscoveredFrom(g: Graph, emitted: seq<string>, k: nat, x: string)
    requires k <= |emitted| && x in Discovered(g, emitted)
    ensures x in Discovered(g, emitted[..k]) || exists j :: k <= j < |emitted| && Edge(g, emitted[j], x)
    decreases |emitted|
  {
    if k == |emitted| {
      assert emitted[..k] == emitted;
    } else {
      var i := |emitted| - 1;
      var init := emitted[..i];
      if x in Discovered(g, init) {
        DiscoveredFrom(g, init, k, x);
        assert init[..k] == emitted[..k];
        if j :| k <= j < i && Edge(g, init[j], x) {
          assert init[j] == emitted[j];
        }
      } else {
        var u := emitted[i];
        ReleasedMembership(g.edges[u], PendingCounts(g, init), x);
        assert Edge(g, emitted[i], x);
      }
    }
  }

  /** In a topological order that is its own discovery sequence, the keys
      discovered after emitting the first k keys already include the k-th. */
  lemma DiscoveryAhead(g: Graph, order: seq<string>, k: nat)
    requires IsTopologicalOrder(g, order) && order == Discovered(g, order) && k < |order|
    ensures k < |Discovered(g, order[..k])|
  {
    var found := Discovered(g, order[..k]);
    DiscoveredPrefix(g, order, k);
    DiscoveredFrom(g, order, k, order[k]);
    assert !exists j :: k <= j < |order| && Edge(g, order[j], order[k]);
    var m :| 0 <= m < |found| && found[m] == order[k];
    assert order[m] == order[k];
  }

  lemma {:induction false} FifoPrefixesAgree(g: Graph, o1: seq<string>, o2: seq<string>, k: nat)
    requires IsTopologicalOrder(g, o1) && o1 == Discovered(g, o1)
    requires IsTopologicalOrder(g, o2) && o2 == Discovered(g, o2)
    requires |o1| == |o2| && k <= |o1|
    ensures o1[..k] == o2[..k]
  {
    if k > 0 {
      FifoPrefixesAgree(g, o1, o2, k - 1);
      DiscoveryAhead(g, o1, k - 1);
      DiscoveredPrefix(g, o1, k - 1);
      DiscoveredPrefix(g, o2, k - 1);
      TakeSnoc(o1, k - 1);
      TakeSnoc(o2, k - 1);
    }
  }

  /** At most one topological order of a graph is its own FIFO discovery
      sequence, so TopologicalSort's contract fixes its output. */
  lemma FifoOrderUnique(g: Graph, o1: seq<string>, o2: seq<string>)
    requires IsTopologicalOrder(g, o1) && o1 == Discovered(g, o1)
    requires IsTopologicalOrder(g, o2) && o2 == Discovered(g, o2)
    ensures o1 == o2
  {
    assert |o1| == |multiset(o1)| == |multiset(o2)| == |o2|;
    FifoPrefixesAgree(g, o1, o2, |o1|);
    assert o1[..|o1|] == o1 && o2[..|o2|] == o2;
  }
}
