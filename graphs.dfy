/** The dependency graph as a value: the keys of the source's
    `defaultdict(list)` in insertion order, and each key's edge list. An edge
    u -> v means "u depends on v". This module also defines what a cycle and a
    topological order are, and counts incoming edges. */
module Graphs {
  import opened Seqs

  datatype Graph = Graph(nodes: seq<string>, edges: map<string, seq<string>>)

  /** The keys are listed once each, and they are exactly the dictionary's keys. */
  predicate Valid(g: Graph) {
    Distinct(g.nodes) && g.edges.Keys == Elems(g.nodes)
  }

  predicate Edge(g: Graph, u: string, v: string) {
    u in g.edges && v in g.edges[u]
  }

  /** Every edge ends at a key of the graph. */
  predicate NoDangling(g: Graph) {
    forall u, v :: u in g.edges && v in g.edges[u] ==> v in g.edges
  }

  /** `graph[key].extend(values)` on a `defaultdict(list)`: a key seen for the
      first time is added last, with an empty list, before the extension. */
  function Extend(g: Graph, key: string, values: seq<string>): (r: Graph)
    requires Valid(g)
    ensures Valid(r)
    ensures r.nodes == if key in g.edges then g.nodes else g.nodes + [key]
    ensures r.edges == g.edges[key := (if key in g.edges then g.edges[key] else []) + values]
  {
    if key in g.edges then
      Graph(g.nodes, g.edges[key := g.edges[key] + values])
    else
      assert Elems(g.nodes + [key]) == Elems(g.nodes) + {key};
      assert [] + values == values;
      Graph(g.nodes + [key], g.edges[key := values])
  }

  /** A closed walk along edges; [a, a] is a self-loop. */
  predicate IsCycle(g: Graph, c: seq<string>) {
    |c| >= 2 && c[0] == c[|c| - 1] && forall i :: 0 <= i < |c| - 1 ==> Edge(g, c[i], c[i + 1])
  }

  ghost predicate HasCycle(g: Graph) {
    exists c :: IsCycle(g, c)
  }

  /** `order` lists every key exactly once, and every edge u -> v has u before v:
      dependents come before what they depend on. */
  predicate IsTopologicalOrder(g: Graph, order: seq<string>) {
    && Distinct(order)
    && multiset(order) == multiset(g.nodes)
    && forall i, j :: 0 <= i < |order| && 0 <= j < |order| && Edge(g, order[i], order[j]) ==> i < j
  }

  /** The targets of all edges leaving the keys in `us` that are not in `done`,
      each edge counted once. */
  function Targets(g: Graph, us: seq<string>, done: seq<string>): seq<string> {
    if us == [] then []
    else
      var u := us[|us| - 1];
      Targets(g, us[..|us| - 1], done) + (if u in done || u !in g.edges then [] else g.edges[u])
  }

  /** Extending the key list by one key extends the targets by that key's edges. */
  lemma TargetsStep(g: Graph, us: seq<string>, i: nat, done: seq<string>)
    requires i < |us|
    ensures Targets(g, us[..i + 1], done)
         == Targets(g, us[..i], done) + (if us[i] in done || us[i] !in g.edges then [] else g.edges[us[i]])
  {
    assert us[..i + 1][..i] == us[..i];
  }

  /** The number of edges, counted with multiplicity, that end at `v`. */
  function InDegree(g: Graph, v: string): nat {
    multiset(Targets(g, g.nodes, []))[v]
  }

  lemma {:induction false} TargetsMembership(g: Graph, us: seq<string>, done: seq<string>, v: string)
    ensures v in Targets(g, us, done) <==> exists u :: u in us && u !in done && Edge(g, u, v)
  {
    if us != [] {
      var init, last := us[..|us| - 1], us[|us| - 1];
      assert us == init + [last];
      TargetsMembership(g, init, done, v);
      if last !in done && Edge(g, last, v) {
        assert v in Targets(g, us, done);
      }
    }
  }

  /** A key that is not in `us` does not change the targets of `us` when marked done. */
  lemma {:induction false} TargetsIgnoreOthers(g: Graph, us: seq<string>, done: seq<string>, lib: string)
    requires lib !in us
    ensures Targets(g, us, done + [lib]) == Targets(g, us, done)
  {
    if us != [] {
      var init := us[..|us| - 1];
      assert us == init + [us[|us| - 1]];
      TargetsIgnoreOthers(g, init, done, lib);
    }
  }

  /** Marking one key done removes exactly its edges from the pending targets. */
  lemma {:induction false} TargetsRemove(g: Graph, us: seq<string>, done: seq<string>, lib: string)
    requires Distinct(us) && lib in us && lib !in done && lib in g.edges
    ensures multiset(Targets(g, us, done)) == multiset(Targets(g, us, done + [lib])) + multiset(g.edges[lib])
  {
    var init, last := us[..|us| - 1], us[|us| - 1];
    assert us == init + [last];
    assert Distinct(init);
    if last == lib {
      assert lib !in init;
      TargetsIgnoreOthers(g, init, done, lib);
    } else {
      TargetsRemove(g, init, done, lib);
    }
  }

  ghost function IndexOf(s: seq<string>, x: string): (k: nat)
    requires x in s
    ensures k < |s| && s[k] == x
  {
    var k :| 0 <= k < |s| && s[k] == x; k
  }

  /** A topological order holds every key. */
  lemma KeysInOrder(g: Graph, order: seq<string>, x: string)
    requires Valid(g) && IsTopologicalOrder(g, order) && x in g.edges
    ensures x in order
  {
    assert x in Elems(g.nodes);
    assert multiset(g.nodes)[x] > 0;
  }

  /** Along a cycle, positions in a topological order strictly increase. */
  lemma {:induction false} CycleClimbs(g: Graph, order: seq<string>, c: seq<string>, k: nat)
    requires Valid(g) && IsTopologicalOrder(g, order) && IsCycle(g, c)
    requires 1 <= k < |c|
    ensures c[0] in order && c[k] in order && IndexOf(order, c[0]) < IndexOf(order, c[k])
  {
    assert Edge(g, c[k - 1], c[k]);
    assert c[k] in g.edges by {
      if k < |c| - 1 {
        assert Edge(g, c[k], c[k + 1]);
      } else {
        assert Edge(g, c[0], c[1]);
      }
    }
    KeysInOrder(g, order, c[k - 1]);
    KeysInOrder(g, order, c[k]);
    var i, j := IndexOf(order, c[k - 1]), IndexOf(order, c[k]);
    assert Edge(g, order[i], order[j]);
    if k > 1 {
      CycleClimbs(g, order, c, k - 1);
    }
  }

  /** A graph that has a topological order has no cycle. */
  lemma TopologicalOrderIsAcyclic(g: Graph, order: seq<string>)
    requires Valid(g) && IsTopologicalOrder(g, order)
    ensures !HasCycle(g)
  {
    forall c | IsCycle(g, c)
      ensures false
    {
      CycleClimbs(g, order, c, |c| - 1);
    }
  }

  /** Some key of `region` has an edge to `x`. */
  ghost predicate HasPredecessorIn(g: Graph, region: set<string>, x: string) {
    exists u :: u in region && Edge(g, u, x)
  }

  /** Consecutive keys of `w` are joined by edges. */
  predicate IsPath(g: Graph, w: seq<string>) {
    forall i :: 0 <= i < |w| - 1 ==> Edge(g, w[i], w[i + 1])
  }

  lemma PrependToPath(g: Graph, w: seq<string>, u: string)
    requires |w| >= 1 && IsPath(g, w) && Edge(g, u, w[0])
    ensures IsPath(g, [u] + w)
  {
  }

  /** A path that reaches back to one of its own keys closes a cycle. */
  lemma ClosePath(g: Graph, w: seq<string>, u: string, k: nat)
    requires k < |w| && w[k] == u && IsPath(g, w) && Edge(g, u, w[0])
    ensures HasCycle(g)
  {
    PrependToPath(g, w[..k + 1], u);
    assert IsCycle(g, [u] + w[..k + 1]);
  }

  /** If every key of a set has a predecessor inside the set, and a path runs
      inside the set, the graph has a cycle: keep walking backwards from `w[0]`
      until a key repeats. */
  lemma {:induction false} PredecessorWalk(g: Graph, region: set<string>, w: seq<string>)
    requires |w| >= 1 && Elems(w) <= region && IsPath(g, w)
    requires forall x :: x in region ==> HasPredecessorIn(g, region, x)
    ensures HasCycle(g)
    decreases region - Elems(w)
  {
    assert w[0] in Elems(w);
    assert HasPredecessorIn(g, region, w[0]);
    var u :| u in region && Edge(g, u, w[0]);
    if u in w {
      var k :| 0 <= k < |w| && w[k] == u;
      ClosePath(g, w, u, k);
    } else {
      var w' := [u] + w;
      var rest := region - Elems(w);
      assert u in rest;
      assert Elems(w') == Elems(w) + {u};
      assert region - Elems(w') == rest - {u};
      PrependToPath(g, w, u);
      assert Elems(w') <= region;
      PredecessorWalk(g, region, w');
    }
  }

  /** A non-empty set of keys each of which has a predecessor inside the set
      contains a cycle. */
  lemma PredecessorClosedHasCycle(g: Graph, region: set<string>, v: string)
    requires v in region
    requires forall x :: x in region ==> HasPredecessorIn(g, region, x)
    ensures HasCycle(g)
  {
    assert Elems([v]) == {v};
    PredecessorWalk(g, region, [v]);
  }
}
