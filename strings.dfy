/** The handful of Python string operations the core relies on: `endswith`,
    the substring test `t in s`, and `split` on a one-character separator. */
module Strings {

  predicate EndsWith(s: string, suffix: string) {
    |suffix| <= |s| && s[|s| - |suffix|..] == suffix
  }

  predicate StartsWith(s: string, prefix: string) {
    |prefix| <= |s| && s[..|prefix|] == prefix
  }

  /** `t` occurs in `s` starting at index `i`. */
  predicate OccursAt(s: string, t: string, i: int) {
    0 <= i && i + |t| <= |s| && s[i..i + |t|] == t
  }

  /** Python's `t in s`: a left-to-right search for `t` inside `s`. */
  function Contains(s: string, t: string): (b: bool)
    ensures b <==> exists i :: OccursAt(s, t, i)
    decreases |s|
  {
    if StartsWith(s, t) then
      assert OccursAt(s, t, 0);
      true
    else if s == [] then
      assert forall i :: OccursAt(s, t, i) ==> i == 0 && StartsWith(s, t);
      false
    else
      var b := Contains(s[1..], t);
      assert b ==> exists i :: OccursAt(s, t, i) by {
        if b {
          var i :| OccursAt(s[1..], t, i);
          assert s[i + 1..i + 1 + |t|] == s[1..][i..i + |t|];
          assert OccursAt(s, t, i + 1);
        }
      }
      assert (exists i :: OccursAt(s, t, i)) ==> b by {
        if i :| OccursAt(s, t, i) {
          if i != 0 {
            assert s[1..][i - 1..i - 1 + |t|] == s[i..i + |t|];
            assert OccursAt(s[1..], t, i - 1);
          }
        }
      }
      b
  }

  /** The parts of `parts` glued back together with `sep` between neighbours;
      the inverse of Split. */
  function Join(parts: seq<string>, sep: char): string
    requires |parts| >= 1
  {
    if |parts| == 1 then parts[0] else parts[0] + [sep] + Join(parts[1..], sep)
  }

  /** Python's `s.split(sep)` for a one-character separator: the maximal runs of
      characters between separators, including empty runs. */
  function Split(s: string, sep: char): (parts: seq<string>)
    ensures |parts| >= 1
    ensures forall k :: 0 <= k < |parts| ==> sep !in parts[k]
    ensures Join(parts, sep) == s
    decreases |s|
  {
    if s == [] then [""]
    else if s[0] == sep then
      var rest := Split(s[1..], sep);
      assert ([""] + rest)[1..] == rest;
      assert s == [sep] + s[1..];
      [""] + rest
    else
      var rest := Split(s[1..], sep);
      var parts := [[s[0]] + rest[0]] + rest[1..];
      assert parts[1..] == rest[1..];
      assert s == [s[0]] + s[1..];
      parts
  }

  /** What Split promises pins down the first part: it is the text before the
      first separator, or the whole string when there is none. */
  lemma SplitFirst(s: string, sep: char)
    ensures var parts := Split(s, sep);
      && StartsWith(s, parts[0])
      && (if sep in s then |parts| >= 2 && s == parts[0] + [sep] + Join(parts[1..], sep)
          else parts == [s])
  {
  }

  /** The first part leads the joined string, followed by the separator or the end. */
  lemma JoinHead(parts: seq<string>, sep: char)
    requires |parts| >= 1
    ensures parts[0] <= Join(parts, sep)
    ensures |Join(parts, sep)| == |parts[0]| || Join(parts, sep)[|parts[0]|] == sep
  {
  }

  /** The first part of a split leads the string, holds no separator, and is
      followed by the separator or the end of the string. */
  lemma SplitHead(s: string, sep: char)
    ensures var head := Split(s, sep)[0];
      head <= s && sep !in head && (|head| == |s| || s[|head|] == sep)
  {
    JoinHead(Split(s, sep), sep);
  }
}
