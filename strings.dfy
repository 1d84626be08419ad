/** String operations the server relies on: JavaScript's `endsWith`,
    `startsWith`, `includes` and `toLowerCase`, and the joining of path
    segments with `/` followed by the `\` -> `/` replacement of server.js:51. */
module Strings {

  /** `s.endsWith(suffix)`. */
  predicate EndsWith(s: string, suffix: string) {
    |suffix| <= |s| && s[|s| - |suffix|..] == suffix
  }

  /** `s.startsWith(prefix)`. */
  predicate StartsWith(s: string, prefix: string) {
    |prefix| <= |s| && s[..|prefix|] == prefix
  }

  /** `s.includes(sub)`, computed by sliding over `s`; its contract is the
      declarative meaning: `sub` occurs at some offset of `s`. */
  function Contains(s: string, sub: string): (b: bool)
    ensures b <==> exists k :: 0 <= k <= |s| - |sub| && StartsWith(s[k..], sub)
    decreases |s|
  {
    if StartsWith(s, sub) then
      assert StartsWith(s[0..], sub);
      true
    else if |s| <= |sub| then
      assert forall k :: 0 <= k <= |s| - |sub| ==> k == 0 && s[k..] == s;
      false
    else
      var r := Contains(s[1..], sub);
      assert forall k :: 1 <= k <= |s| - |sub| ==> s[k..] == s[1..][k - 1..];
      assert r ==> exists k :: 1 <= k <= |s| - |sub| && StartsWith(s[k..], sub);
      r
  }

  /** Lower-casing of one character, restricted to `A`..`Z`. */
  function LowerChar(c: char): (d: char)
    ensures 'A' <= c <= 'Z' ==> 'a' <= d <= 'z' && d as int - c as int == 'a' as int - 'A' as int
    ensures !('A' <= c <= 'Z') ==> d == c
  {
    if 'A' <= c <= 'Z' then (c as int - 'A' as int + 'a' as int) as char else c
  }

  /** `s.toLowerCase()`, character by character. */
  function ToLower(s: string): (r: string)
    ensures |r| == |s|
    ensures forall i :: 0 <= i < |s| ==> r[i] == LowerChar(s[i])
  {
    if s == [] then [] else [LowerChar(s[0])] + ToLower(s[1..])
  }

  /** Segments joined with `/`, as `path.join` does for plain names. */
  function JoinSegments(segs: seq<string>): (r: string)
    ensures segs == [] ==> r == ""
    ensures |segs| == 1 ==> r == segs[0]
    ensures |segs| >= 1 ==> |r| >= |segs| - 1 + |segs[|segs| - 1]|
  {
    if segs == [] then ""
    else if |segs| == 1 then segs[0]
    else segs[0] + "/" + JoinSegments(segs[1..])
  }

  /** `.replace(/\\/g, '/')`: every backslash becomes a forward slash. */
  function Slashes(s: string): (r: string)
    ensures |r| == |s|
    ensures forall i :: 0 <= i < |s| ==> r[i] == if s[i] == '\\' then '/' else s[i]
    ensures '\\' !in r
  {
    if s == [] then [] else [if s[0] == '\\' then '/' else s[0]] + Slashes(s[1..])
  }

  /** The replacement works character by character, so it distributes
      over concatenation. */
  lemma SlashesAppend(a: string, b: string)
    ensures Slashes(a + b) == Slashes(a) + Slashes(b)
  {
    var l, r := Slashes(a + b), Slashes(a) + Slashes(b);
    forall i | 0 <= i < |a + b| ensures l[i] == r[i] {
      if i >= |a| { assert (a + b)[i] == b[i - |a|]; }
    }
  }

  /** Replacing a second time changes nothing. */
  lemma SlashesIdempotent(s: string)
    ensures Slashes(Slashes(s)) == Slashes(s)
  {
  }

  /** A string without upper-case letters is its own lower-case form. */
  lemma ToLowerOfLower(s: string)
    requires forall i :: 0 <= i < |s| ==> !('A' <= s[i] <= 'Z')
    ensures ToLower(s) == s
  {
  }

  /** Every character of an occurring substring occurs in the string, so
      a character missing from `s` rules `sub` out. */
  lemma ContainsNeedsChar(s: string, sub: string, c: char)
    requires c in sub && c !in s
    ensures !Contains(s, sub)
  {
  }

  /** A string without backslashes is left as it is. */
  lemma SlashesKeepsPlain(s: string)
    requires '\\' !in s
    ensures Slashes(s) == s
  {
  }
}
