/**
 * The string comparison the initializer relies on:
 * `String.StartsWith(prefix, StringComparison.OrdinalIgnoreCase)`,
 * with case folding restricted to the ASCII letters.
 */
module Strings {

  /** Upper-cases an ASCII letter; every other character is returned unchanged. */
  function ToUpperAscii(c: char): char
  {
    if 'a' <= c <= 'z' then (c as int - 32) as char else c
  }

  /**
   * Two characters are equal ignoring (ASCII) case: they are the same
   * character, or one is a lower-case ASCII letter and the other is its
   * upper-case form.
   */
  predicate EqualsIgnoreCase(a: char, b: char)
    ensures EqualsIgnoreCase(a, b) <==>
      a == b || ('a' <= a <= 'z' && b as int == a as int - 32) || ('a' <= b <= 'z' && a as int == b as int - 32)
  {
    ToUpperAscii(a) == ToUpperAscii(b)
  }

  /**
   * Does `s` start with `prefix`, comparing character by character after
   * case folding? A string shorter than the prefix never does.
   */
  function StartsWithIgnoreCase(s: string, prefix: string): (b: bool)
    ensures b <==> |prefix| <= |s| && forall i :: 0 <= i < |prefix| ==> EqualsIgnoreCase(s[i], prefix[i])
  {
    if prefix == [] then true
    else if s == [] then false
    else if !EqualsIgnoreCase(s[0], prefix[0]) then false
    else
      StartsWithIgnoreCase(s[1..], prefix[1..])
  }
}
