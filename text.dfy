/** String normalisation shared by the client and the server: JavaScript's
    `String.prototype.trim` and the lower-casing both sides apply to words. */
module Text {

  /** The characters `trim` removes: ECMAScript WhiteSpace and LineTerminator. */
  const Spaces: set<char> := {
    '\t', '\n', '\U{000B}', '\U{000C}', '\r', ' ', '\U{00A0}', '\U{1680}',
    '\U{2000}', '\U{2001}', '\U{2002}', '\U{2003}', '\U{2004}', '\U{2005}',
    '\U{2006}', '\U{2007}', '\U{2008}', '\U{2009}', '\U{200A}',
    '\U{2028}', '\U{2029}', '\U{202F}', '\U{205F}', '\U{3000}', '\U{FEFF}'
  }

  predicate IsSpace(c: char) {
    c in Spaces
  }

  predicate AllSpace(s: string) {
    forall i :: 0 <= i < |s| ==> IsSpace(s[i])
  }

  /** The number of white-space characters `s` starts with. */
  function LeadingSpaces(s: string): (n: nat)
    ensures n <= |s|
    ensures forall i :: 0 <= i < n ==> IsSpace(s[i])
    ensures n < |s| ==> !IsSpace(s[n])
  {
    if s == [] || !IsSpace(s[0]) then 0
    else
      var n := LeadingSpaces(s[1..]);
      assert forall i :: 1 <= i < n + 1 ==> s[i] == s[1..][i - 1];
      n + 1
  }

  /** The number of white-space characters `s` ends with. */
  function TrailingSpaces(s: string): (n: nat)
    ensures n <= |s|
    ensures forall i :: |s| - n <= i < |s| ==> IsSpace(s[i])
    ensures n < |s| ==> !IsSpace(s[|s| - 1 - n])
  {
    if s == [] || !IsSpace(s[|s| - 1]) then 0
    else
      var n := TrailingSpaces(s[..|s| - 1]);
      assert forall i :: |s| - 1 - n <= i < |s| - 1 ==> s[i] == s[..|s| - 1][i];
      n + 1
  }

  /** `s.trim()`: `s` without its leading and its trailing white space. What
      is cut off on either side is all white space and what is kept starts
      and ends with a non-space, so nothing more could be cut; the result is
      empty exactly when `s` is blank. */
  function Trim(s: string): (r: string)
    ensures var lo := LeadingSpaces(s);
      && lo + |r| <= |s| && r == s[lo..lo + |r|]
      && (forall i :: lo + |r| <= i < |s| ==> IsSpace(s[i]))
    ensures r == [] || (!IsSpace(r[0]) && !IsSpace(r[|r| - 1]))
    ensures r == [] <==> AllSpace(s)
  {
    var lo := LeadingSpaces(s);
    if lo == |s| then []
    else
      var hi := |s| - TrailingSpaces(s);
      assert lo < hi by {
        assert !IsSpace(s[lo]);
      }
      assert !AllSpace(s) by {
        assert !IsSpace(s[lo]);
      }
      s[lo..hi]
  }

  /** Trimming a trimmed string changes nothing. */
  lemma TrimIdempotent(s: string)
    ensures Trim(Trim(s)) == Trim(s)
  {
  }

  /** Lower-cases one ASCII letter; every other character is kept. */
  function LowerChar(c: char): (r: char)
    ensures !('A' <= r <= 'Z')
    ensures 'A' <= c <= 'Z' ==> r as int == c as int + 32
    ensures !('A' <= c <= 'Z') ==> r == c
  {
    if 'A' <= c <= 'Z' then (c as int + 32) as char else c
  }

  /** `s.toLowerCase()` / `s.lower()`, restricted to ASCII letters. */
  function Lower(s: string): (r: string)
    ensures |r| == |s|
    ensures forall i :: 0 <= i < |s| ==> r[i] == LowerChar(s[i])
  {
    if s == [] then [] else [LowerChar(s[0])] + Lower(s[1..])
  }

  /** Lower-casing twice is lower-casing once, so a word the client has
      normalised reaches the server's own `.lower()` unchanged. */
  lemma LowerIdempotent(s: string)
    ensures Lower(Lower(s)) == Lower(s)
  {
  }

  /** What `submitWord` does to the typed text before any check. */
  function Normalise(raw: string): (r: string)
    ensures r == [] <==> AllSpace(raw)
    ensures Lower(r) == r
  {
    LowerIdempotent(Trim(raw));
    Lower(Trim(raw))
  }
}
