/** Character-level string operations the program relies on: `str::replace`
    with a one-character pattern and the first piece of `str::split`. */
module Strings {
  import opened Wrappers

  /** `s` with every occurrence of `from` replaced by `to`. */
  function ReplaceChar(s: string, from: char, to: char): (r: string)
    ensures |r| == |s|
    ensures forall i :: 0 <= i < |s| ==> r[i] == (if s[i] == from then to else s[i])
  {
    if s == [] then []
    else [if s[0] == from then to else s[0]] + ReplaceChar(s[1..], from, to)
  }

  /** After replacing `from` by a different character, `from` no longer occurs. */
  lemma ReplaceCharRemoves(s: string, from: char, to: char)
    requires from != to
    ensures from !in ReplaceChar(s, from, to)
  {
  }

  /** Replacing twice is the same as replacing once. */
  lemma ReplaceCharIdempotent(s: string, from: char, to: char)
    ensures ReplaceChar(ReplaceChar(s, from, to), from, to) == ReplaceChar(s, from, to)
  {
  }

  /** Index of the first occurrence of `c` in `s`, if any. */
  function IndexOf(s: string, c: char): (r: Option<nat>)
    ensures r.Some? ==> r.value < |s| && s[r.value] == c && c !in s[..r.value]
    ensures r.None? <==> c !in s
  {
    if s == [] then None
    else if s[0] == c then Some(0)
    else match IndexOf(s[1..], c)
      case None => None
      case Some(k) =>
        assert s[..k + 1] == [s[0]] + s[1..][..k];
        Some(k + 1)
  }

  /** The text of `s` before the first `c`, or all of `s` when there is no `c`:
      the first element `split(c)` yields. */
  function Before(s: string, c: char): (r: string)
    ensures c !in r
    ensures |r| <= |s| && s[..|r|] == r
    ensures |r| == |s| || s[|r|] == c
  {
    match IndexOf(s, c)
    case None => s
    case Some(k) => s[..k]
  }
}
