/** Worked examples: small directories run through the graph builder and the
    sorter, showing the ordering convention (dependents before what they
    depend on) and the cycle error. Names are kept symbolic, so each example
    holds for every choice of them. */
module Scenarios {
  import opened Seqs
  import opened Inventory
  import opened Readelf
  import opened Graphs
  import opened Builder
  import opened Sorter

  /** A directory with the library file `lib` and the symlink `link -> lib`. */
  function SymlinkListing(lib: string, link: string): seq<Entry> {
    [Entry(lib, false, ""), Entry(link, true, lib)]
  }

  /** When both names are libraries, only the symlink is linked into the
      inventory, so it becomes the first key and the file the second. */
  lemma SymlinkListingKeys(lib: string, link: string)
    requires lib != link && IsSharedLibrary(lib) && IsSharedLibrary(link)
    ensures DistinctNames(SymlinkListing(lib, link))
    ensures Available(SymlinkListing(lib, link)) == {lib, link}
    ensures KeyOrder(SymlinkListing(lib, link)) == [link, lib]
  {
    var listing := SymlinkListing(lib, link);
    assert Names(listing) == [lib, link];
    SymlinkListingLibraries(lib, link);
    var available := Available(listing);
    assert available == {lib, link};
    SymlinkListingLinked(lib, link);
    var linked := Names([Entry(link, true, lib)]);
    assert linked == [link] && Elems(linked) == {link};
    RemainingLibraries(lib, link);
    assert KeyOrder(listing) == [link] + [lib];
  }

  /** Both names of the listing are library names. */
  lemma SymlinkListingLibraries(lib: string, link: string)
    requires IsSharedLibrary(lib) && IsSharedLibrary(link)
    ensures LibraryNames(SymlinkListing(lib, link)) == [lib, link]
  {
    var listing := SymlinkListing(lib, link);
    var file, symlink := listing[0], listing[1];
    assert listing == [file] + [symlink] && [file] == [] + [file];
    FilterSnoc([], file, IsLibraryEntry);
    FilterSnoc([file], symlink, IsLibraryEntry);
  }

  /** Only the symlink points into the inventory. */
  lemma SymlinkListingLinked(lib: string, link: string)
    ensures Filter(SymlinkListing(lib, link), LinksInto({lib, link})) == [Entry(link, true, lib)]
  {
  }

  /** The file is the one library not already a key. */
  lemma RemainingLibraries(lib: string, link: string)
    requires lib != link
    ensures Filter([lib, link], NotIn({link})) == [lib]
  {
  }

  /** A graph of two keys with an edge from the first to the second has exactly
      one topological order: the first key, then the second. */
  lemma TwoKeyOrder(g: Graph, order: seq<string>, a: string, b: string)
    requires g.nodes == [a, b] && Edge(g, a, b)
    requires IsTopologicalOrder(g, order)
    ensures order == [a, b]
  {
  }

  /** The graph with the one edge `a -> b` is acyclic, and `a`, `b` is its only
      topological order. */
  lemma ChainOrder(g: Graph, a: string, b: string)
    requires a != b && g == Graph([a, b], map[a := [b], b := []])
    ensures !HasCycle(g)
    ensures forall order :: IsTopologicalOrder(g, order) ==> order == [a, b]
  {
    assert IsTopologicalOrder(g, [a, b]);
    TopologicalOrderIsAcyclic(g, [a, b]);
    forall order | IsTopologicalOrder(g, order)
      ensures order == [a, b]
    {
      TwoKeyOrder(g, order, a, b);
    }
  }

  /** `base.so` and the symlink `base.so.<version>` to it, neither with NEEDED
      entries: one edge from the symlink to its target, and the symlink comes
      out first. */
  method SymlinkOnly(base: string, version: string) returns (g: Graph, r: SortResult)
    ensures var lib, link := base + ".so", base + ".so." + version;
      g == Graph([link, lib], map[link := [lib], lib := []]) && r == Sorted([link, lib])
  {
    var lib, link := base + ".so", base + ".so." + version;
    VersionedNamesAreLibraries(base, version);
    assert |link| > |lib|;
    var listing := SymlinkListing(lib, link);
    var readelf := (n: string) => Output([]);
    SymlinkListingKeys(lib, link);
    g := BuildDependencyGraph(listing, readelf);
    var file, symlink := listing[0], listing[1];
    assert g.edges[link] == EntryEdges(symlink, Available(listing), readelf) == [lib];
    assert g.edges[lib] == EntryEdges(file, Available(listing), readelf) == [];
    assert g.edges == map[link := [lib], lib := []];
    ChainOrder(g, link, lib);
    r := TopologicalSort(g);
  }

  /** `a` lists `b` as NEEDED: `a` comes out before `b`. */
  method SingleDependency(a: string, b: string) returns (r: SortResult)
    requires a != b
    ensures r == Sorted([a, b])
  {
    var g := Graph([a, b], map[a := [b], b := []]);
    ChainOrder(g, a, b);
    r := TopologicalSort(g);
  }

  /** `a` lists `b` and then `c` as NEEDED. */
  function FanOutGraph(a: string, b: string, c: string): Graph {
    Graph([a, b, c], map[a := [b, c], b := [], c := []])
  }

  lemma FanOutCounts(a: string, b: string, c: string)
    requires a != b && a != c && b != c
    ensures Targets(FanOutGraph(a, b, c), [a, b, c], []) == [b, c]
  {
    var g := FanOutGraph(a, b, c);
    var nodes := [a, b, c];
    assert nodes[..1] == [a] && nodes[..2] == [a, b] && nodes[..3] == nodes;
    assert [a][..0] == [];
    assert Targets(g, [a], []) == [b, c];
    TargetsStep(g, nodes, 1, []);
    TargetsStep(g, nodes, 2, []);
  }

  /** `a` is the only key no edge ends at. */
  lemma FanOutSources(a: string, b: string, c: string)
    requires a != b && a != c && b != c
    ensures Sources(FanOutGraph(a, b, c)) == [a]
  {
    var g := FanOutGraph(a, b, c);
    FanOutCounts(a, b, c);
    assert [a, b, c] == [a, b] + [c] && [a, b] == [a] + [b] && [a] == [] + [a];
    FilterSnoc([], a, HasNoIncoming(g));
    FilterSnoc([a], b, HasNoIncoming(g));
    FilterSnoc([a, b], c, HasNoIncoming(g));
  }

  /** Emitting `a` releases `b`, then `c`. */
  lemma FanOutReleased(a: string, b: string, c: string)
    requires a != b && a != c && b != c
    ensures Released([b, c], PendingCounts(FanOutGraph(a, b, c), [])) == [b, c]
  {
    var g := FanOutGraph(a, b, c);
    FanOutCounts(a, b, c);
    var counts := PendingCounts(g, []);
    assert counts[b] == 1 && counts[c] == 1;
    ReleasedStep([b, c], 0, counts);
    ReleasedStep([b, c], 1, counts);
    assert [b, c][..0] == [] && [b, c][..2] == [b, c];
  }

  /** After popping `a`, everything is discovered. */
  lemma FanOutAfterFirst(a: string, b: string, c: string)
    requires a != b && a != c && b != c
    ensures Discovered(FanOutGraph(a, b, c), [a]) == [a, b, c]
  {
    var g := FanOutGraph(a, b, c);
    FanOutSources(a, b, c);
    FanOutReleased(a, b, c);
    DiscoveredSnoc(g, [], a);
    assert [] + [a] == [a];
    assert Discovered(g, []) == [a] && g.edges[a] == [b, c];
    assert [a] + [b, c] == [a, b, c];
  }

  /** Popping `b` releases nothing. */
  lemma FanOutAfterSecond(a: string, b: string, c: string)
    requires a != b && a != c && b != c
    ensures Discovered(FanOutGraph(a, b, c), [a, b]) == [a, b, c]
  {
    var g := FanOutGraph(a, b, c);
    FanOutAfterFirst(a, b, c);
    DiscoveredSnoc(g, [a], b);
    assert [a] + [b] == [a, b];
  }

  /** The FIFO discovery sequence of the fan-out graph is `a`, `b`, `c`. */
  lemma FanOutDiscovery(a: string, b: string, c: string)
    requires a != b && a != c && b != c
    ensures Discovered(FanOutGraph(a, b, c), [a, b, c]) == [a, b, c]
  {
    var g := FanOutGraph(a, b, c);
    FanOutAfterSecond(a, b, c);
    DiscoveredSnoc(g, [a, b], c);
    assert [a, b] + [c] == [a, b, c];
  }

  /** `a` lists `b` and then `c`: the output is `a`, `b`, `c`, the released
      keys coming out in `a`'s edge order. */
  method FanOut(a: string, b: string, c: string) returns (r: SortResult)
    requires a != b && a != c && b != c
    ensures r == Sorted([a, b, c])
  {
    var g := FanOutGraph(a, b, c);
    FanOutOrder(g, a, b, c);
    r := TopologicalSort(g);
  }

  /** The fan-out graph is acyclic, and `a`, `b`, `c` is the one topological
      order that is its own FIFO discovery sequence. */
  lemma FanOutOrder(g: Graph, a: string, b: string, c: string)
    requires a != b && a != c && b != c && g == FanOutGraph(a, b, c)
    ensures !HasCycle(g)
    ensures forall order :: IsTopologicalOrder(g, order) && order == Discovered(g, order) ==> order == [a, b, c]
  {
    var expected := [a, b, c];
    assert IsTopologicalOrder(g, expected);
    TopologicalOrderIsAcyclic(g, expected);
    FanOutDiscovery(a, b, c);
    forall order | IsTopologicalOrder(g, order) && order == Discovered(g, order)
      ensures order == expected
    {
      FifoOrderUnique(g, order, expected);
    }
  }

  /** Two libraries that each list the other as NEEDED: the sort reports the cycle. */
  method MutualDependency(a: string, b: string) returns (r: SortResult)
    requires a != b
    ensures r == CycleDetected
  {
    var g := Graph([a, b], map[a := [b], b := [a]]);
    assert IsCycle(g, [a, b, a]);
    r := TopologicalSort(g);
  }

  /** A library that lists itself as NEEDED is a cycle of one edge. */
  method SelfDependency(a: string) returns (r: SortResult)
    ensures r == CycleDetected
  {
    var g := Graph([a], map[a := [a]]);
    assert IsCycle(g, [a, a]);
    r := TopologicalSort(g);
  }
}
