/** The Python string methods the archive relies on: `str.split('.')` and
    `str.lower()`. Lowering is ASCII-only (see README). */
module StringOps {

  /** `parts` joined with `sep` between consecutive parts: the inverse of `Split`. */
  function Join(parts: seq<string>, sep: char): string
    requires |parts| >= 1
  {
    if |parts| == 1 then parts[0] else parts[0] + [sep] + Join(parts[1..], sep)
  }

  /** `s.split(sep)`: the maximal runs of `s` that do not contain `sep`, in order. */
  function Split(s: string, sep: char): (parts: seq<string>)
    ensures |parts| >= 1
    ensures forall i :: 0 <= i < |parts| ==> sep !in parts[i]
    ensures Join(parts, sep) == s
    decreases |s|
  {
    if |s| == 0 then [""]
    else
      var tail := Split(s[1..], sep);
      if s[0] == sep then [""] + tail
      else [[s[0]] + tail[0]] + tail[1..]
  }

  /** The last part of a join is a suffix of the joined string; when there
      are several parts, the separator stands right before it. */
  lemma {:induction false} JoinLast(parts: seq<string>, sep: char)
    requires |parts| >= 1
    ensures var s, last := Join(parts, sep), parts[|parts| - 1];
      && |last| <= |s|
      && s[|s| - |last|..] == last
      && (|parts| > 1 ==> |last| < |s| && s[|s| - |last| - 1] == sep)
    decreases |parts|
  {
    if |parts| > 1 {
      JoinLast(parts[1..], sep);
      var rest := Join(parts[1..], sep);
      assert Join(parts, sep) == (parts[0] + [sep]) + rest;
    }
  }

  /** A join of several parts contains the separator; a single part is its own join. */
  lemma JoinHasSep(parts: seq<string>, sep: char)
    requires |parts| >= 1
    ensures |parts| > 1 ==> sep in Join(parts, sep)
    ensures |parts| == 1 ==> Join(parts, sep) == parts[0]
  {
    if |parts| > 1 {
      assert Join(parts, sep)[|parts[0]|] == sep;
    }
  }

  /** `s.split(sep)[-1]` is the text after the last `sep` in `s`, or all of `s`
      when `sep` does not occur. */
  function LastPart(s: string, sep: char): (last: string)
    ensures sep !in last
    ensures |last| <= |s| && s[|s| - |last|..] == last
    ensures sep !in s ==> last == s
    ensures sep in s ==> |last| < |s| && s[|s| - |last| - 1] == sep
  {
    var parts := Split(s, sep);
    JoinLast(parts, sep);
    JoinHasSep(parts, sep);
    parts[|parts| - 1]
  }

  function LowerChar(c: char): char
  {
    if 'A' <= c <= 'Z' then (c as int - 'A' as int + 'a' as int) as char else c
  }

  /** `s.lower()` restricted to ASCII letters. */
  function Lower(s: string): (r: string)
    ensures |r| == |s|
    ensures forall i :: 0 <= i < |s| ==> r[i] == LowerChar(s[i])
    decreases |s|
  {
    if |s| == 0 then "" else [LowerChar(s[0])] + Lower(s[1..])
  }

  /** Lowering is idempotent, and a string without upper-case ASCII letters is its own lowering. */
  lemma LowerIdempotent(s: string)
    ensures Lower(Lower(s)) == Lower(s)
    ensures (forall i :: 0 <= i < |s| ==> !('A' <= s[i] <= 'Z')) ==> Lower(s) == s
  {
  }
}
