/**
 * The character classes the storefront's string rules depend on, restricted to
 * ASCII: the whitespace matched by the `\s` class of a JavaScript regular
 * expression, and the letters that `String.prototype.toLowerCase` changes.
 */
module Ascii {

  /**
   * Space, tab, line feed, vertical tab, form feed and carriage return. None
   * of them is a letter or the `-` that replaces a whitespace run.
   */
  predicate IsWhitespace(c: char)
    ensures IsWhitespace(c) ==> !IsUpper(c) && Lower(c) == c && c != '-'
  {
    c == ' ' || c == '\t' || c == '\n' || c == '\U{000B}' || c == '\U{000C}' || c == '\r'
  }

  predicate IsUpper(c: char) {
    'A' <= c <= 'Z'
  }

  /** The lower-case form of one character; everything but `A`-`Z` is kept. */
  function Lower(c: char): char {
    if IsUpper(c) then (c as int + 32) as char else c
  }

  /** `toLowerCase` on an ASCII string. */
  function ToLower(s: string): (r: string)
    ensures |r| == |s|
    ensures forall i :: 0 <= i < |s| ==> r[i] == Lower(s[i])
    ensures forall i :: 0 <= i < |r| ==> !IsUpper(r[i])
  {
    if s == [] then [] else [Lower(s[0])] + ToLower(s[1..])
  }

  /** Lower-casing a string that has no upper-case letter changes nothing. */
  lemma ToLowerFixesLowerCase(s: string)
    requires forall i :: 0 <= i < |s| ==> !IsUpper(s[i])
    ensures ToLower(s) == s
  {
  }

  /** Lower-casing commutes with taking a suffix. */
  lemma ToLowerSuffix(s: string, k: nat)
    requires k <= |s|
    ensures ToLower(s[k..]) == ToLower(s)[k..]
  {
  }
}
