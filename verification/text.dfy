/**
 * The string operations of JavaScript used by the ranking handler,
 * `Array.prototype.join` and `slice(-k)`, and a split at a separator that
 * serves as the inverse of `join` when reading the tweet back.
 */
module Text {

  /** `lines.join(sep)`: the lines with one separator between neighbours. */
  function Join(lines: seq<string>, sep: char): string
  {
    if |lines| == 0 then ""
    else if |lines| == 1 then lines[0]
    else lines[0] + [sep] + Join(lines[1..], sep)
  }

  /** Split at a one-character separator, as `s.split(sep)` would: never empty, "" splits to [""]. */
  function Split(s: string, sep: char): (parts: seq<string>)
    ensures 1 <= |parts|
    ensures forall i :: 0 <= i < |parts| ==> sep !in parts[i]
  {
    if |s| == 0 then [""]
    else
      var rest := Split(s[1..], sep);
      if s[0] == sep then [""] + rest
      else [[s[0]] + rest[0]] + rest[1..]
  }

  /** `s.slice(-k)` when the string has at least `k` characters: its last `k`. */
  function Tail(s: string, k: nat): (t: string)
    requires k <= |s|
    ensures |t| == k
    ensures s == s[..|s| - k] + t
  {
    s[|s| - k..]
  }

  /** A separator-free string is one piece. */
  lemma {:induction false} SplitSingle(s: string, sep: char)
    requires sep !in s
    ensures Split(s, sep) == [s]
    decreases |s|
  {
    if |s| > 0 {
      SplitSingle(s[1..], sep);
      assert [s[0]] + s[1..] == s;
    }
  }

  /** Splitting at the first separator peels off the piece before it. */
  lemma {:induction false} SplitPrefix(a: string, sep: char, rest: string)
    requires sep !in a
    ensures Split(a + [sep] + rest, sep) == [a] + Split(rest, sep)
    decreases |a|
  {
    var s := a + [sep] + rest;
    if |a| == 0 {
      assert s[1..] == rest;
    } else {
      assert s[1..] == a[1..] + [sep] + rest;
      SplitPrefix(a[1..], sep, rest);
      assert [a[0]] + a[1..] == a;
    }
  }

  /** Splitting a join of separator-free lines gives back exactly those lines. */
  lemma {:induction false} SplitJoin(lines: seq<string>, sep: char)
    requires 1 <= |lines|
    requires forall i :: 0 <= i < |lines| ==> sep !in lines[i]
    ensures Split(Join(lines, sep), sep) == lines
    decreases |lines|
  {
    if |lines| == 1 {
      SplitSingle(lines[0], sep);
    } else {
      SplitJoin(lines[1..], sep);
      SplitPrefix(lines[0], sep, Join(lines[1..], sep));
      assert [lines[0]] + lines[1..] == lines;
    }
  }
}
