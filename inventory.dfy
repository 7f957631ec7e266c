/** Directory Inventory: which file names count as shared libraries, and the
    symlink map and library list read off one directory listing
    (`is_shared_library` and `resolve_symlinks` in dependency_sort.py). */
module Inventory {
  import opened Seqs
  import opened Strings

  /** A name is a shared library when it ends in ".so" or has ".so." inside it,
      as in "libfoo.so" and "libfoo.so.1.2.3". */
  predicate IsSharedLibrary(name: string) {
    EndsWith(name, ".so") || Contains(name, ".so.")
  }

  /** Equivalently: some ".so" in the name is either its end or followed by a dot. */
  lemma SharedLibraryIffSoComponent(name: string)
    ensures IsSharedLibrary(name) <==>
      exists i :: OccursAt(name, ".so", i) && (i + 3 == |name| || name[i + 3] == '.')
  {
    if EndsWith(name, ".so") {
      assert OccursAt(name, ".so", |name| - 3);
    } else if Contains(name, ".so.") {
      var i :| OccursAt(name, ".so.", i);
      assert name[i..i + 3] == name[i..i + 4][..3];
      assert name[i + 3] == name[i..i + 4][3];
      assert OccursAt(name, ".so", i);
    }
    if i :| OccursAt(name, ".so", i) && (i + 3 == |name| || name[i + 3] == '.') {
      if i + 3 == |name| {
        assert EndsWith(name, ".so");
      } else {
        assert name[i..i + 4] == name[i..i + 3] + [name[i + 3]];
        assert OccursAt(name, ".so.", i);
      }
    }
  }

  /** The versioned and unversioned forms of any base name are libraries. */
  lemma VersionedNamesAreLibraries(base: string, version: string)
    ensures IsSharedLibrary(base + ".so")
    ensures IsSharedLibrary(base + ".so." + version)
  {
    var n := base + ".so." + version;
    assert n[|base|..|base| + 4] == ".so.";
    assert OccursAt(n, ".so.", |base|);
  }

  /** One directory entry: its base name, whether it is a symbolic link, and,
      for a link, its immediate (one-hop) target as stored in the link. */
  datatype Entry = Entry(name: string, isLink: bool, linkTarget: string)

  /** The insertion-ordered dictionary from symlink name to immediate target. */
  datatype SymlinkMap = SymlinkMap(names: seq<string>, target: map<string, string>)

  /** Dictionary assignment `m[name] = target`: a new key goes last, an existing
      key keeps its place and gets the new value. */
  function Put(m: SymlinkMap, name: string, target: string): SymlinkMap {
    SymlinkMap(if name in m.target then m.names else m.names + [name], m.target[name := target])
  }

  function Names(entries: seq<Entry>): (r: seq<string>)
    ensures |r| == |entries|
    ensures forall k :: 0 <= k < |entries| ==> r[k] == entries[k].name
  {
    seq(|entries|, k requires 0 <= k < |entries| => entries[k].name)
  }

  /** A directory lists each name once. */
  predicate DistinctNames(listing: seq<Entry>) {
    Distinct(Names(listing))
  }

  predicate IsLinkEntry(e: Entry) {
    e.isLink
  }

  predicate IsLibraryEntry(e: Entry) {
    IsSharedLibrary(e.name)
  }

  /** The symlink entries of a listing, in listing order. */
  function Symlinks(listing: seq<Entry>): seq<Entry> {
    Filter(listing, IsLinkEntry)
  }

  /** The names the inventory classifies as shared libraries, in listing order. */
  function LibraryNames(listing: seq<Entry>): seq<string> {
    Names(Filter(listing, IsLibraryEntry))
  }

  lemma NamesOfFilter(s: seq<Entry>, p: Entry -> bool, n: string)
    ensures n in Names(Filter(s, p)) <==> exists e :: e in s && p(e) && e.name == n
  {
    var f := Filter(s, p);
    if n in Names(f) {
      var k :| 0 <= k < |f| && Names(f)[k] == n;
      FilterMembership(s, p, f[k]);
    }
    if e :| e in s && p(e) && e.name == n {
      FilterMembership(s, p, e);
      var k :| 0 <= k < |f| && f[k] == e;
      assert Names(f)[k] == n;
    }
  }

  /** Two entries of a listing with distinct names that share a name are the same entry. */
  lemma SameNameSameEntry(listing: seq<Entry>, a: Entry, b: Entry)
    requires DistinctNames(listing)
    requires a in listing && b in listing && a.name == b.name
    ensures a == b
  {
  }

  /** Filtering one more entry of the listing extends the filtered names by at most that entry's name. */
  lemma FilterNamesStep(listing: seq<Entry>, i: nat, p: Entry -> bool)
    requires i < |listing|
    ensures Names(Filter(listing[..i + 1], p))
         == Names(Filter(listing[..i], p)) + (if p(listing[i]) then [listing[i].name] else [])
  {
    assert listing[..i + 1][..i] == listing[..i];
  }

  /** In a listing with distinct names, an entry's name is not among the names before it. */
  lemma NameNotSeenBefore(listing: seq<Entry>, i: nat, p: Entry -> bool)
    requires DistinctNames(listing) && i < |listing|
    ensures listing[i].name !in Names(Filter(listing[..i], p))
  {
    forall e | e in listing[..i]
      ensures e.name != listing[i].name
    {
      var k :| 0 <= k < i && listing[k] == e;
      assert Names(listing)[k] == e.name;
    }
    NamesOfFilter(listing[..i], p, listing[i].name);
  }

  /** `resolve_symlinks` over a listing given as a sequence of entries: every
      symlink goes into the map with its immediate target, whatever its name,
      and exactly the library names are collected, in listing order. */
  method ResolveSymlinks(listing: seq<Entry>) returns (links: SymlinkMap, libraries: seq<string>)
    requires DistinctNames(listing)
    ensures links.names == Names(Symlinks(listing))
    ensures links.target.Keys == Elems(links.names)
    ensures forall e :: e in listing && e.isLink ==> e.name in links.target && links.target[e.name] == e.linkTarget
    ensures libraries == LibraryNames(listing)
    ensures forall e :: e in listing ==> (e.name in links.target <==> e.isLink)
    ensures forall e :: e in listing ==> (e.name in libraries <==> IsSharedLibrary(e.name))
  {
    links := SymlinkMap([], map[]);
    libraries := [];
    var i := 0;
    while i < |listing|
      invariant 0 <= i <= |listing|
      invariant links.names == Names(Symlinks(listing[..i]))
      invariant links.target.Keys == Elems(links.names)
      invariant forall e :: e in listing[..i] && e.isLink ==> e.name in links.target && links.target[e.name] == e.linkTarget
      invariant libraries == LibraryNames(listing[..i])
    {
      var entry := listing[i];
      FilterNamesStep(listing, i, IsLinkEntry);
      FilterNamesStep(listing, i, IsLibraryEntry);
      assert listing[..i + 1] == listing[..i] + [entry];
      if entry.isLink {
        NameNotSeenBefore(listing, i, IsLinkEntry);
        links := Put(links, entry.name, entry.linkTarget);
      }
      if IsSharedLibrary(entry.name) {
        libraries := libraries + [entry.name];
      }
      i := i + 1;
      forall e | e in listing[..i] && e.isLink
        ensures e.name in links.target && links.target[e.name] == e.linkTarget
      {
        if e.name == entry.name {
          SameNameSameEntry(listing, e, entry);
        }
      }
    }
    assert listing[..i] == listing;
    forall e | e in listing
      ensures e.name in links.target ==> e.isLink
      ensures e.name in libraries <==> IsSharedLibrary(e.name)
    {
      NamesOfFilter(listing, IsLinkEntry, e.name);
      NamesOfFilter(listing, IsLibraryEntry, e.name);
      if e.name in links.target {
        var e' :| e' in listing && e'.isLink && e'.name == e.name;
        SameNameSameEntry(listing, e, e');
      }
    }
  }

  /** The names of any selection of a listing with distinct names are distinct. */
  lemma NamesFilterDistinct(listing: seq<Entry>, p: Entry -> bool)
    requires DistinctNames(listing)
    ensures Distinct(Names(Filter(listing, p)))
  {
    assert Distinct(listing) by {
      forall i, j | 0 <= i < j < |listing|
        ensures listing[i] != listing[j]
      {
        assert Names(listing)[i] != Names(listing)[j];
      }
    }
    FilterDistinct(listing, p);
    var f := Filter(listing, p);
    forall i, j | 0 <= i < j < |f|
      ensures Names(f)[i] != Names(f)[j]
    {
      FilterMembership(listing, p, f[i]);
      FilterMembership(listing, p, f[j]);
      if f[i].name == f[j].name {
        SameNameSameEntry(listing, f[i], f[j]);
      }
    }
  }
}
