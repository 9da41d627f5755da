/**
 * The string operations the upload checks of main.py use: `str.lower`,
 * `str.endswith` with a tuple of suffixes, and locating the last `.` as
 * `str.rsplit('.', 1)` does.
 */
module Text {
  import opened Outcomes

  /** `str.lower` on one character; only the ASCII letters are mapped. */
  function LowerChar(c: char): char
  {
    if 'A' <= c <= 'Z' then (c as int + 32) as char else c
  }

  /** `s.lower()`, character by character. */
  function Lower(s: string): (r: string)
    ensures |r| == |s|
    ensures forall i :: 0 <= i < |s| ==> r[i] == LowerChar(s[i])
  {
    seq(|s|, i requires 0 <= i < |s| => LowerChar(s[i]))
  }

  /** `s.endswith(suffix)`. */
  predicate EndsWith(s: string, suffix: string)
  {
    |suffix| <= |s| && s[|s| - |suffix|..] == suffix
  }

  /** `s.endswith(suffixes)` for a tuple of suffixes. */
  predicate EndsWithAny(s: string, suffixes: seq<string>)
  {
    exists k :: 0 <= k < |suffixes| && EndsWith(s, suffixes[k])
  }

  /** Position of the last `.` among the first `n` characters of `s`. */
  function LastDotBelow(s: string, n: nat): (r: Option<nat>)
    requires n <= |s|
    ensures r.None? <==> forall j :: 0 <= j < n ==> s[j] != '.'
    ensures r.Some? ==> r.value < n && s[r.value] == '.'
    ensures r.Some? ==> forall j :: r.value < j < n ==> s[j] != '.'
  {
    if n == 0 then None
    else if s[n - 1] == '.' then Some(n - 1)
    else LastDotBelow(s, n - 1)
  }

  /**
   * Position of the last `.` in `s`: the split point of `s.rsplit('.', 1)`,
   * or `None` when `'.' not in s`.
   */
  function LastDot(s: string): (r: Option<nat>)
    ensures r.None? <==> '.' !in s
    ensures r.Some? ==> r.value < |s| && s[r.value] == '.'
    ensures r.Some? ==> forall j :: r.value < j < |s| ==> s[j] != '.'
  {
    LastDotBelow(s, |s|)
  }

  /** Only `.` lower-cases to `.`. */
  lemma LowerCharDot(c: char)
    ensures LowerChar(c) == '.' <==> c == '.'
  {}

  /** Lower-casing twice is lower-casing once. */
  lemma LowerIdempotent(s: string)
    ensures Lower(Lower(s)) == Lower(s)
  {}
}
