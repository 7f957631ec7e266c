/** Graph Builder: the dependency graph of one directory
    (`build_dependency_graph` in dependency_sort.py). A symlink whose immediate
    target is an inventoried library depends on that target; every library
    depends on the inventoried libraries its readelf output names as NEEDED.
    Running readelf is not part of this model: its result for each library
    comes in as the function `readelf`. */
module Builder {
  import opened Seqs
  import opened Inventory
  import opened Readelf
  import opened Graphs

  /** `set(shared_libraries)` of line 57. */
  function Available(listing: seq<Entry>): set<string> {
    Elems(LibraryNames(listing))
  }

  /** A symlink entry whose immediate target is an inventoried library. */
  function LinksInto(available: set<string>): Entry -> bool {
    (e: Entry) => e.isLink && e.linkTarget in available
  }

  /** A name of the symlink map whose target is an inventoried library. */
  function TargetIn(links: SymlinkMap, available: set<string>): string -> bool {
    n => n in links.target && links.target[n] in available
  }

  function NotIn(names: set<string>): string -> bool {
    n => n !in names
  }

  /** The graph's keys in insertion order: the symlinks into the inventory in
      listing order, then the libraries not already among them, in listing order. */
  function KeyOrder(listing: seq<Entry>): seq<string> {
    var linked := Names(Filter(listing, LinksInto(Available(listing))));
    linked + Filter(LibraryNames(listing), NotIn(Elems(linked)))
  }

  /** readelf can be read for every library of the listing (see Readelf.WellFormed). */
  predicate ReadableLibraries(listing: seq<Entry>, readelf: string -> ReadelfOutput) {
    forall e :: e in listing && IsSharedLibrary(e.name) ==> WellFormed(readelf(e.name))
  }

  /** The edge list of one entry: its symlink target when that is an inventoried
      library, followed, for a library, by its dependencies. */
  function EntryEdges(e: Entry, available: set<string>, readelf: string -> ReadelfOutput): seq<string>
    requires IsSharedLibrary(e.name) ==> WellFormed(readelf(e.name))
  {
    (if e.isLink && e.linkTarget in available then [e.linkTarget] else [])
    + (if IsSharedLibrary(e.name) then Dependencies(readelf(e.name), available) else [])
  }

  /** Lines 62-64: one edge from each symlink to its target, for the targets
      that are inventoried libraries, keys added in the symlink map's order. */
  method AddSymlinkEdges(links: SymlinkMap, available: set<string>) returns (g: Graph)
    requires Distinct(links.names) && links.target.Keys == Elems(links.names)
    ensures Valid(g)
    ensures g.nodes == Filter(links.names, TargetIn(links, available))
    ensures forall k :: k in g.edges ==>
      k in links.target && links.target[k] in available && g.edges[k] == [links.target[k]]
  {
    g := Graph([], map[]);
    var i := 0;
    assert links.names[..0] == [];
    while i < |links.names|
      invariant 0 <= i <= |links.names|
      invariant SymlinksAdded(links, available, g, links.names[..i])
    {
      var symlink := links.names[i];
      assert symlink in Elems(links.names);
      var target := links.target[symlink];
      TakeSnoc(links.names, i);
      AddSymlinkStep(links, available, g, links.names[..i], symlink, links.names[..i + 1]);
      if target in available {
        g := Extend(g, symlink, [target]);
      }
      i := i + 1;
    }
    assert links.names[..i] == links.names;
  }

  /** The graph after lines 62-64 have handled the symlinks in `done`. */
  predicate SymlinksAdded(links: SymlinkMap, available: set<string>, g: Graph, done: seq<string>) {
    && Valid(g)
    && g.nodes == Filter(done, TargetIn(links, available))
    && (forall k :: k in g.edges ==>
          k in links.target && links.target[k] in available && g.edges[k] == [links.target[k]])
  }

  /** Handling one more symlink, not handled before, keeps SymlinksAdded. */
  lemma AddSymlinkStep(links: SymlinkMap, available: set<string>, g: Graph, done: seq<string>,
                       symlink: string, done': seq<string>)
    requires SymlinksAdded(links, available, g, done) && symlink !in done
    requires symlink in links.target && done' == done + [symlink]
    ensures var target := links.target[symlink];
      SymlinksAdded(links, available, if target in available then Extend(g, symlink, [target]) else g, done')
  {
    FilterSnoc(done, symlink, TargetIn(links, available));
    FilterMembership(done, TargetIn(links, available), symlink);
  }

  /** The graph after lines 67-70 have handled the libraries in `done`: those
      not yet keys were added after the keys of `g0`, and each handled library's
      list was extended by its dependencies `depsOf(lib)`. */
  ghost predicate LibrariesAdded(g0: Graph, g: Graph, done: seq<string>, depsOf: string -> seq<string>) {
    && Valid(g)
    && g.nodes == g0.nodes + Filter(done, NotIn(g0.edges.Keys))
    && (forall k :: k in g.edges <==> k in g0.edges || k in done)
    && (forall k :: k in g.edges ==>
          g.edges[k] == (if k in g0.edges then g0.edges[k] else []) + (if k in done then depsOf(k) else []))
  }

  /** Handling one more library keeps LibrariesAdded. */
  lemma AddLibraryStep(g0: Graph, g: Graph, done: seq<string>, lib: string, depsOf: string -> seq<string>,
                        deps: seq<string>, done': seq<string>)
    requires Valid(g0) && LibrariesAdded(g0, g, done, depsOf) && lib !in done
    requires deps == depsOf(lib) && done' == done + [lib]
    ensures LibrariesAdded(g0, Extend(g, lib, deps), done', depsOf)
  {
    AddLibraryKeys(g0, g, done, lib, deps);
    AddLibraryLists(g0, g, done, lib, depsOf);
  }

  /** The keys part of AddLibraryStep: a library that is no key of `g0` is added last. */
  lemma AddLibraryKeys(g0: Graph, g: Graph, done: seq<string>, lib: string, values: seq<string>)
    requires Valid(g) && lib !in done
    requires g.nodes == g0.nodes + Filter(done, NotIn(g0.edges.Keys))
    requires forall k :: k in g.edges <==> k in g0.edges || k in done
    ensures Extend(g, lib, values).nodes == g0.nodes + Filter(done + [lib], NotIn(g0.edges.Keys))
    ensures forall k :: k in Extend(g, lib, values).edges <==> k in g0.edges || k in done + [lib]
  {
    var kept := Filter(done, NotIn(g0.edges.Keys));
    FilterSnoc(done, lib, NotIn(g0.edges.Keys));
    if lib !in g.edges {
      AppendAssoc(g0.nodes, kept, [lib]);
    }
  }

  /** The edge-lists part of AddLibraryStep: only the library's own list grows. */
  lemma AddLibraryLists(g0: Graph, g: Graph, done: seq<string>, lib: string, depsOf: string -> seq<string>)
    requires Valid(g0) && LibrariesAdded(g0, g, done, depsOf) && lib !in done
    ensures var g' := Extend(g, lib, depsOf(lib));
      forall k :: k in g'.edges ==>
        g'.edges[k] == (if k in g0.edges then g0.edges[k] else [])
                       + (if k in done + [lib] then depsOf(k) else [])
  {
  }

  /** A library's dependencies, for readelf outputs that can be read. */
  ghost function LibraryDeps(readelf: string -> ReadelfOutput, available: set<string>, k: string): seq<string> {
    if WellFormed(readelf(k)) then Dependencies(readelf(k), available) else []
  }

  /** Lines 67-70: each library's list is extended by its dependencies; a
      library that is not yet a key is added after the existing keys. */
  method AddLibraryEdges(g0: Graph, libraries: seq<string>, available: set<string>,
                         readelf: string -> ReadelfOutput) returns (g: Graph)
    requires Valid(g0) && Distinct(libraries)
    requires forall lib :: lib in libraries ==> WellFormed(readelf(lib))
    ensures Valid(g)
    ensures g.nodes == g0.nodes + Filter(libraries, NotIn(g0.edges.Keys))
    ensures forall k :: k in g.edges <==> k in g0.edges || k in libraries
    ensures forall k :: k in g.edges ==>
      g.edges[k] == (if k in g0.edges then g0.edges[k] else [])
                    + (if k in libraries then Dependencies(readelf(k), available) else [])
  {
    ghost var depsOf := (k: string) => LibraryDeps(readelf, available, k);
    g := g0;
    var j := 0;
    assert libraries[..0] == [];
    while j < |libraries|
      invariant 0 <= j <= |libraries|
      invariant LibrariesAdded(g0, g, libraries[..j], depsOf)
    {
      var lib := libraries[j];
      var deps := GetDependencies(readelf(lib), available);
      TakeSnoc(libraries, j);
      assert lib !in libraries[..j];
      AddLibraryStep(g0, g, libraries[..j], lib, depsOf, deps, libraries[..j + 1]);
      g := Extend(g, lib, deps);
      j := j + 1;
    }
    assert libraries[..j] == libraries;
    forall k | k in libraries
      ensures depsOf(k) == Dependencies(readelf(k), available)
    {
    }
  }

  /** Keeping the symlink names whose target is inventoried gives, in listing
      order, the names of the symlink entries into the inventory. */
  lemma {:induction false} LinkedNamesInOrder(s: seq<Entry>, links: SymlinkMap, available: set<string>)
    requires forall e :: e in s && e.isLink ==> e.name in links.target && links.target[e.name] == e.linkTarget
    ensures Filter(Names(Filter(s, IsLinkEntry)), TargetIn(links, available))
         == Names(Filter(s, LinksInto(available)))
  {
    if s != [] {
      var i := |s| - 1;
      var init, e := s[..i], s[i];
      assert s[..i + 1] == s;
      assert e in s;
      LinkedNamesInOrder(init, links, available);
      FilterNamesStep(s, i, IsLinkEntry);
      FilterNamesStep(s, i, LinksInto(available));
      var before := Names(Filter(init, IsLinkEntry));
      if e.isLink {
        assert Names(Filter(s, IsLinkEntry)) == before + [e.name];
        FilterSnoc(before, e.name, TargetIn(links, available));
        assert TargetIn(links, available)(e.name) == LinksInto(available)(e);
      } else {
        assert Names(Filter(s, IsLinkEntry)) == before;
        assert !LinksInto(available)(e);
      }
    }
  }

  /** `build_dependency_graph`: the keys are the symlinks into the inventory
      and the libraries, in the order they were first added; a key's edges are
      its symlink target, then its dependencies; every edge ends at a key. */
  method BuildDependencyGraph(listing: seq<Entry>, readelf: string -> ReadelfOutput) returns (g: Graph)
    requires DistinctNames(listing) && ReadableLibraries(listing, readelf)
    ensures Valid(g) && NoDangling(g)
    ensures g.nodes == KeyOrder(listing)
    ensures forall e :: e in listing ==>
      (e.name in g.edges <==> LinksInto(Available(listing))(e) || IsSharedLibrary(e.name))
    ensures forall e :: e in listing && e.name in g.edges ==>
      g.edges[e.name] == EntryEdges(e, Available(listing), readelf)
  {
    var links, libraries := ResolveSymlinks(listing);
    var available := Elems(libraries);
    NamesFilterDistinct(listing, IsLinkEntry);
    NamesFilterDistinct(listing, IsLibraryEntry);
    forall lib | lib in libraries
      ensures WellFormed(readelf(lib))
    {
      NamesOfFilter(listing, IsLibraryEntry, lib);
    }
    var symlinkGraph := AddSymlinkEdges(links, available);
    g := AddLibraryEdges(symlinkGraph, libraries, available, readelf);
    LinkedNamesInOrder(listing, links, available);

    forall u, v | u in g.edges && v in g.edges[u]
      ensures v in g.edges
    {
      if u in libraries {
        DependenciesMembership(readelf(u), available, v);
      }
    }
    forall e | e in listing
      ensures e.name in g.edges <==> LinksInto(available)(e) || IsSharedLibrary(e.name)
      ensures e.name in g.edges ==> g.edges[e.name] == EntryEdges(e, available, readelf)
    {
      assert e.name in symlinkGraph.edges <==> e.name in symlinkGraph.nodes;
      FilterMembership(links.names, TargetIn(links, available), e.name);
    }
  }
}
