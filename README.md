# dependency_sort in Dafny

This project models `dependency_sort.py`. The script orders the shared
libraries of one directory by their dependencies, in four steps:

1. It takes an inventory of the directory: which names are shared libraries
   (`libfoo.so`, `libfoo.so.1.2.3`), and, for every symbolic link, its
   immediate target.
2. For each library it reads the `NEEDED` entries of `readelf -d` and keeps
   the names that are in the inventory.
3. It builds an insertion-ordered dependency graph. A symlink depends on its
   target when the target is an inventoried library. A library depends on its
   `NEEDED` libraries.
4. It sorts the graph with Kahn's algorithm and a FIFO frontier. Dependents
   come out before the libraries they depend on, and a cycle raises
   `ValueError`.

Modules:

- `Strings`: `endswith`, the substring test `t in s`, and `split` on one
  character, with `Join` as the inverse of `Split`.
- `Inventory`: `is_shared_library` and `resolve_symlinks`. A directory listing
  is a sequence of `Entry(name, isLink, linkTarget)`.
- `Readelf`: `get_dependencies`. The readelf result is a value: its output
  lines, or `Failed`.
- `Graphs`: the graph as a value (its keys in insertion order plus a map from
  key to edge list), the `defaultdict(list)` extension, cycles, topological
  orders, and edge counting.
- `Builder`: `build_dependency_graph`.
- `Sorter`: `topological_sort`.
- `Scenarios`: worked examples with symbolic names: a library and a symlink
  to it, one dependency, one key with two dependencies, and cycles of two
  keys and of one.
- `Seqs`: sequence helpers (`Filter` is a list comprehension with an `if`).

The source's Python dictionaries, lists and the deque are local variables
that its loops update. Here they are value-typed locals (`seq`, `map`, and a
key sequence with a map for an ordered dictionary) that the methods'
`while` loops reassign, one step per source statement. Each loop carries
its invariants.

Three behaviours of the code are easy to misread; the model follows the code:

- A NEEDED name is the text after the first `[` up to the next `]` *or the
  next `[`*, or to the end of the line. The code is
  `line.split("[")[1].split("]")[0]`, and `split("[")[1]` already stops at a
  second `[`. `Readelf.NeededNameIsBracketed` states this.
- The graph's keys are not only the inventoried libraries. A symlink whose
  target is an inventoried library is a key even when its own name is not a
  library name (lines 62-64). `Builder.BuildDependencyGraph` states the exact
  key set and order.
- `get_dependencies` keeps duplicate NEEDED names and their line order.

## Model

| member | source | states |
|---|---|---|
| Inventory.SharedLibraryIffSoComponent | dependency_sort.py:6-10 | a name is a shared library exactly when some occurrence of ".so" in it either ends the name or is followed by a dot |
| Inventory.VersionedNamesAreLibraries | dependency_sort.py:6-10 | `base.so` and `base.so.<version>` are shared libraries for every base and version |
| Strings.Contains | dependency_sort.py:10 | the substring test holds exactly when the pattern occurs at some index of the string |
| Strings.Split | dependency_sort.py:43 | `split` on one character gives at least one part, no part contains the separator, and joining the parts with the separator gives back the string |
| Strings.SplitFirst | dependency_sort.py:43 | the first part of a split is the text before the first separator, or the whole string when there is none |
| Inventory.ResolveSymlinks | dependency_sort.py:12-31 | the symlink map's keys are the link entries' names in listing order; every link entry maps to its own immediate target, whatever its name; a listed name is a key exactly when its entry is a link; the library list is the names that satisfy `is_shared_library`, in listing order; a listed name is in it exactly when it is a library name |
| Inventory.NamesFilterDistinct | dependency_sort.py:22 | names selected from a listing that names each file once are distinct, so the symlink map and library list hold each name once |
| Readelf.NeededNameIsBracketed | dependency_sort.py:43 | the extracted name starts right after the first `[` of the line and runs to the next `[` or `]` or the end, and contains neither bracket |
| Readelf.NeededNamesMembership | dependency_sort.py:41-43 | a name is extracted exactly when some line containing "NEEDED" carries it |
| Readelf.DependenciesMembership | dependency_sort.py:38-49 | a name is a dependency exactly when readelf succeeded, the name is inventoried, and it was extracted from a NEEDED line; a failed run gives none |
| Readelf.DependenciesCount | dependency_sort.py:41-46 | an inventoried name occurs among the dependencies as often as on NEEDED lines; duplicates are kept |
| Readelf.GetDependencies | dependency_sort.py:33-49 | the loop returns the inventoried NEEDED names in line order, and the empty list on a failed run |
| Graphs.Extend | dependency_sort.py:70 | `graph[key].extend(values)` on a `defaultdict(list)`: a new key is added last with the values, an existing key keeps its place and its list grows; keys stay distinct |
| Graphs.TopologicalOrderIsAcyclic | dependency_sort.py:95-98 | a graph with an order that lists every key once, with every edge's source before its target, has no cycle |
| Graphs.PredecessorClosedHasCycle | dependency_sort.py:95-96 | a non-empty set of keys in which every key has an edge into it from inside the set contains a cycle |
| Graphs.TargetsMembership | dependency_sort.py:79-81 | a key is among the counted edge targets exactly when a key still counted has an edge to it |
| Graphs.TargetsRemove | dependency_sort.py:90-91 | emitting a key removes exactly its own edges, with multiplicity, from the pending counts |
| Builder.AddSymlinkEdges | dependency_sort.py:61-64 | after the symlink loop, the keys are the symlinks whose target is an inventoried library, in map order, and each one's list is exactly its target |
| Builder.AddSymlinkStep | dependency_sort.py:61-64 | one more symlink keeps the loop invariant: when its target is an inventoried library it is added last, with its target as its list; otherwise the graph is unchanged |
| Builder.AddLibraryStep | dependency_sort.py:67-70 | one more library keeps the loop invariant: new keys are added after the symlink keys, and only that library's list grows, by its dependencies |
| Builder.AddLibraryKeys | dependency_sort.py:70 | extending by one library that is not a key yet appends it to the keys; otherwise the keys are unchanged |
| Builder.AddLibraryLists | dependency_sort.py:70 | extending by one library leaves every other list unchanged |
| Builder.AddLibraryEdges | dependency_sort.py:66-70 | after the library loop, the keys are the symlink keys followed by the libraries not already keys; every list is its symlink edge followed by its dependencies |
| Builder.LinkedNamesInOrder | dependency_sort.py:62-63 | the symlink names whose target is inventoried are, in order, the names of the link entries whose target is inventoried |
| Builder.BuildDependencyGraph | dependency_sort.py:51-72 | the graph has each key once and no dangling edge; its keys, in insertion order, are the symlinks into the inventory and then the remaining libraries; a listed name is a key exactly when it is a library or a symlink to one; its list is its symlink target, then its dependencies |
| Sorter.AddTargets | dependency_sort.py:80-81 | one key's edge list adds to each count the number of times that key's edges end there |
| Sorter.CountInDegrees | dependency_sort.py:78-81 | each key's count is the number of edges, counted with multiplicity, that end at it |
| Sorter.SourcesMembership | dependency_sort.py:84 | a key seeds the queue exactly when no edge ends at it |
| Sorter.KahnStart | dependency_sort.py:78-85 | the counts and the queue seeded in key order establish the loop invariant |
| Sorter.KahnPop | dependency_sort.py:87-89 | the popped key has not been emitted, all its predecessors already have, and none of its targets has been emitted |
| Sorter.ReleaseTargets | dependency_sort.py:90-93 | every count drops by the number of the emitted key's edges that end there, so the emitted keys' counts stay unchanged; the queue keeps the waiting keys in front and then gains exactly `Released`: the targets whose count reaches zero, in edge order |
| Sorter.ReleasedMembership | dependency_sort.py:90-93 | a target is released exactly when its count is positive and at most the number of the emitted key's edges that end at it |
| Sorter.ReleaseStep | dependency_sort.py:91-93 | taking one edge off lowers its target's count by one and appends the target to the queue exactly when that count reaches zero, so the counts stay the starting counts minus the edges taken off and the queue gains the released targets in edge order |
| Sorter.ReleasedDistinct | dependency_sort.py:90-93 | no target is released twice, even when the emitted key lists it more than once |
| Sorter.ReleasedQueue | dependency_sort.py:90-93 | after the release the emitted keys and the queue hold each key once, and the queue holds exactly the keys not emitted whose count is now zero |
| Sorter.DiscoveredStep | dependency_sort.py:87-93 | popping the head and appending what it releases extends the FIFO discovery sequence by exactly those keys |
| Sorter.KahnPush | dependency_sort.py:90-93 | after the release the counts and queue agree again, and the emitted keys with the queue are the discovery sequence |
| Sorter.StuckMeansCycle | dependency_sort.py:95-96 | when fewer keys come out than the graph has, the graph has a cycle |
| Sorter.AllEmittedIsTopological | dependency_sort.py:95-98 | when every key comes out, the output is a topological order and the graph has no cycle |
| Sorter.TopologicalSort | dependency_sort.py:74-98 | the cycle error is raised exactly when the graph has a cycle (a self-loop included); otherwise the output lists every key once, each dependent before each of its dependencies, and is its own FIFO discovery sequence: the keys no edge ends at in key order, then the keys each emitted key releases, in edge order |
| Sorter.DiscoveredPrefix | dependency_sort.py:84-93 | the queue only ever grows at its end: the discovery sequence after k pops is a prefix of the one after more pops |
| Sorter.DiscoveredFrom | dependency_sort.py:90-93 | a key discovered after the first k pops is the target of an edge from a key popped later |
| Sorter.DiscoveryAhead | dependency_sort.py:86-93 | in a topological order that is its own discovery sequence, the k-th key is already discovered after the first k pops |
| Sorter.FifoOrderUnique | dependency_sort.py:84-93 | at most one topological order is its own FIFO discovery sequence, so TopologicalSort's output is fully determined by the graph |
| Scenarios.SymlinkListingKeys | dependency_sort.py:57-70 | for a library file and a library-named symlink to it, the inventory holds both, and the symlink is the first key and the file the second |
| Scenarios.SymlinkOnly | dependency_sort.py:51-98 | `base.so` with the symlink `base.so.<version>` and no NEEDED entries gives exactly the edge symlink -> file, and the sort outputs the symlink, then the file |
| Scenarios.ChainOrder | dependency_sort.py:74-98 | the graph with the one edge `a -> b` has no cycle, and `a`, `b` is its only topological order |
| Scenarios.SingleDependency | dependency_sort.py:74-98 | when `a` depends on `b`, the only output is `a` then `b` |
| Scenarios.FanOutDiscovery | dependency_sort.py:84-93 | when `a` lists `b` then `c`, the discovery sequence is `a`, `b`, `c` |
| Scenarios.FanOutOrder | dependency_sort.py:74-98 | the graph `a -> [b, c]` has no cycle, and `a`, `b`, `c` is the only topological order that is its own FIFO discovery sequence |
| Scenarios.FanOut | dependency_sort.py:74-98 | when `a` lists `b` then `c`, the output is exactly `a`, `b`, `c`: released keys come out in edge order |
| Scenarios.MutualDependency | dependency_sort.py:95-96 | two keys that depend on each other raise the cycle error |
| Scenarios.SelfDependency | dependency_sort.py:95-96 | a key that depends on itself raises the cycle error |

## Left out

- Listing the directory, `os.path.islink` and `os.readlink` (lines 22-26) are filesystem I/O. The listing comes in as a sequence of entries.
- Inventory.ResolveSymlinks: requires a listing with distinct names, as a directory listing has.
- Running `readelf` (line 39) and catching `CalledProcessError` (line 47) are a foreign process call. Its result comes in as `Output(lines)` or `Failed`. Splitting the output into lines (`splitlines`) and decoding it as text are not modelled.
- Readelf.GetDependencies: requires every NEEDED line to contain a `[`. On a NEEDED line without `[` the source stops with an uncaught `IndexError` (line 43), which the model does not cover.
- Builder.BuildDependencyGraph: takes readelf's result for each library as a function of the library's name. The directory path that `os.path.join` adds (line 68) is fixed for one run. It requires every library's output to be well formed, as Readelf.GetDependencies does.
- Sorter.TopologicalSort: requires a graph with no dangling edge. On another graph the source would stop with a `KeyError` at line 81. Builder.BuildDependencyGraph proves that its graphs have none.
- Printing the diagnostic (line 48) is output only.
- `visualize_dependency_graph` (lines 100-112) renders through graphviz. It is not part of this model.
- `main` and the command line (lines 114-134) are console output and argument handling.
- Dictionary, list and deque updates are modelled as reassigned values, not objects updated in place. None of them is shared, so aliasing plays no part.
