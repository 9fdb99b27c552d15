/** String helpers standing for PHP's `strpos(...) === 0`, `substr`, `ltrim` and `str_replace` on one character. */
module Strs {

  /** `s` holds no `c`. */
  predicate Free(s: string, c: char)
  {
    forall j :: 0 <= j < |s| ==> s[j] != c
  }

  /** `strpos($s, $prefix) === 0` for a non-empty prefix. */
  predicate StartsWith(s: string, prefix: string)
  {
    |prefix| <= |s| && s[..|prefix|] == prefix
  }

  /** `substr($s, $n)`: everything after the first `n` characters, or "" when `s` is shorter. */
  function DropPrefix(s: string, n: nat): (r: string)
    ensures n <= |s| ==> r == s[n..]
    ensures n > |s| ==> r == ""
  {
    if n <= |s| then s[n..] else ""
  }

  /** `ltrim($s, $c)`: drops every leading `c`. */
  function TrimLeft(s: string, c: char): (r: string)
    ensures |r| <= |s| && r == s[|s| - |r|..]
    ensures r == [] || r[0] != c
    ensures forall i :: 0 <= i < |s| - |r| ==> s[i] == c
  {
    if s != [] && s[0] == c then TrimLeft(s[1..], c) else s
  }

  /** `str_replace($from, $to, $s)` for one-character search and replacement strings. */
  function ReplaceChar(s: string, from: char, to: char): (r: string)
    ensures |r| == |s|
    ensures forall i :: 0 <= i < |s| ==> r[i] == if s[i] == from then to else s[i]
  {
    if s == [] then [] else [if s[0] == from then to else s[0]] + ReplaceChar(s[1..], from, to)
  }

  /** The number of leading characters other than `stop`: the longest match of `[^stop]*` at the start. */
  function RunUntil(s: string, stop: char): (n: nat)
    ensures n <= |s|
    ensures forall j :: 0 <= j < n ==> s[j] != stop
    ensures n < |s| ==> s[n] == stop
  {
    if s == [] || s[0] == stop then 0 else 1 + RunUntil(s[1..], stop)
  }
}
