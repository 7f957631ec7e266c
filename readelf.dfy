/** Dependency Extractor: the NEEDED entries of one library's `readelf -d`
    output, kept only when they name an inventoried library
    (`get_dependencies` in dependency_sort.py). Running readelf is not part of
    this model; its result comes in as a value. */
module Readelf {
  import opened Seqs
  import opened Strings

  /** What running `readelf -d` on one library produced: its output split into
      lines, or a failed run (the tool exited with an error). */
  datatype ReadelfOutput = Output(lines: seq<string>) | Failed

  predicate IsNeededLine(line: string) {
    Contains(line, "NEEDED")
  }

  /** Every NEEDED line has a '[' to split at; for any other line the source
      would stop with an IndexError, which this model does not cover. */
  predicate WellFormed(output: ReadelfOutput) {
    output.Output? ==> forall line :: line in output.lines && IsNeededLine(line) ==> '[' in line
  }

  /** The library name on a NEEDED line: `line.split("[")[1].split("]")[0]`. */
  function NeededName(line: string): string
    requires '[' in line
  {
    SplitFirst(line, '[');
    Split(Split(line, '[')[1], ']')[0]
  }

  /** `r` is the text that starts right after the first '[' of `line` (at index
      `i`) and runs up to the next '[' or ']', or to the end of the line. */
  predicate BracketedAt(line: string, i: int, r: string) {
    && 0 <= i < |line| && line[i] == '[' && '[' !in line[..i]
    && i + 1 + |r| <= |line| && line[i + 1..i + 1 + |r|] == r
    && '[' !in r && ']' !in r
    && (i + 1 + |r| == |line| || line[i + 1 + |r|] == '[' || line[i + 1 + |r|] == ']')
  }

  lemma NeededNameIsBracketed(line: string)
    requires '[' in line
    ensures exists i :: BracketedAt(line, i, NeededName(line))
  {
    var i, inner := FirstBracket(line);
    SplitHead(inner, ']');
    var r := Split(inner, ']')[0];
    assert r == NeededName(line);
    var rest := line[i + 1..];
    assert '[' !in r by {
      assert forall c :: c in r ==> c in inner;
    }
    SliceOfSuffix(line, i + 1, |r|);
    PrefixTake(r, inner, rest);
    assert i + 1 + |r| == |line| || line[i + 1 + |r|] == '[' || line[i + 1 + |r|] == ']' by {
      if |r| < |inner| {
        assert line[i + 1 + |r|] == inner[|r|];
      }
    }
    assert BracketedAt(line, i, r);
  }

  /** The first '[' of a line is at index `i`, and `line.split("[")[1]` is the
      text after it up to the next '[' or the end. */
  lemma FirstBracket(line: string) returns (i: nat, inner: string)
    requires '[' in line
    ensures |Split(line, '[')| >= 2 && inner == Split(line, '[')[1]
    ensures i < |line| && line[i] == '[' && '[' !in line[..i]
    ensures inner <= line[i + 1..] && '[' !in inner
    ensures |line[i + 1..]| == |inner| || line[i + 1..][|inner|] == '['
  {
    SplitFirst(line, '[');
    var parts := Split(line, '[');
    i := |parts[0]|;
    var rest := Join(parts[1..], '[');
    assert line == parts[0] + ['['] + rest;
    assert line[..i] == parts[0];
    assert line[i + 1..] == rest;
    inner := parts[1];
    assert parts[1..][0] == inner;
    JoinHead(parts[1..], '[');
  }

  /** The names on the NEEDED lines, in line order, duplicates kept. */
  function NeededNames(lines: seq<string>): seq<string>
    requires forall line :: line in lines && IsNeededLine(line) ==> '[' in line
  {
    if lines == [] then []
    else
      var last := lines[|lines| - 1];
      NeededNames(lines[..|lines| - 1]) + (if IsNeededLine(last) then [NeededName(last)] else [])
  }

  /** Membership in the inventory, as a function value for Filter. */
  function InSet(available: set<string>): string -> bool {
    n => n in available
  }

  /** A name is among the NEEDED names exactly when some NEEDED line carries it. */
  lemma {:induction false} NeededNamesMembership(lines: seq<string>, d: string)
    requires forall line :: line in lines && IsNeededLine(line) ==> '[' in line
    ensures d in NeededNames(lines) <==> exists line :: line in lines && IsNeededLine(line) && NeededName(line) == d
  {
    if lines != [] {
      var init, last := lines[..|lines| - 1], lines[|lines| - 1];
      assert lines == init + [last];
      NeededNamesMembership(init, d);
    }
  }

  /** What `get_dependencies` returns for one readelf result: nothing for a
      failed run, otherwise the NEEDED names that are inventoried, in line order. */
  function Dependencies(output: ReadelfOutput, available: set<string>): seq<string>
    requires WellFormed(output)
  {
    if output.Failed? then [] else Filter(NeededNames(output.lines), InSet(available))
  }

  /** Exactly the inventoried names found on NEEDED lines are dependencies. */
  lemma DependenciesMembership(output: ReadelfOutput, available: set<string>, d: string)
    requires WellFormed(output)
    ensures d in Dependencies(output, available) <==>
      output.Output? && d in available && d in NeededNames(output.lines)
  {
    if output.Output? {
      FilterMembership(NeededNames(output.lines), InSet(available), d);
    }
  }

  /** An inventoried name is a dependency as many times as it is NEEDED;
      duplicates are kept. */
  lemma DependenciesCount(output: ReadelfOutput, available: set<string>, d: string)
    requires WellFormed(output) && output.Output? && d in available
    ensures multiset(Dependencies(output, available))[d] == multiset(NeededNames(output.lines))[d]
  {
    FilterCount(NeededNames(output.lines), InSet(available), d);
  }

  /** `get_dependencies`, lines 38-49: on a failed run, no dependencies; otherwise
      the NEEDED names in line order, duplicates kept, restricted to `available`. */
  method GetDependencies(output: ReadelfOutput, available: set<string>) returns (deps: seq<string>)
    requires WellFormed(output)
    ensures output.Failed? ==> deps == []
    ensures deps == Dependencies(output, available)
  {
    deps := [];
    if output.Failed? {
      return;
    }
    var lines := output.lines;
    var i := 0;
    while i < |lines|
      invariant 0 <= i <= |lines|
      invariant deps == Filter(NeededNames(lines[..i]), InSet(available))
    {
      var line := lines[i];
      assert lines[..i + 1][..i] == lines[..i];
      if IsNeededLine(line) {
        var dep := NeededName(line);
        FilterSnoc(NeededNames(lines[..i]), dep, InSet(available));
        if dep in available {
          deps := deps + [dep];
        }
      } else {
        assert NeededNames(lines[..i + 1]) == NeededNames(lines[..i]);
      }
      i := i + 1;
    }
    assert lines[..i] == lines;
  }
}
