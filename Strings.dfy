/**
 This module models the part of `java.lang.String.toUpperCase()` the grouping
 relies on: an ASCII-only upper-case mapping, applied character by character.
 */
module Strings {

  predicate IsLowerAscii(c: char)
  {
    'a' <= c <= 'z'
  }

  /** True iff no character of `s` is an ASCII lower-case letter (`a` to `z`). */
  predicate IsUpperCase(s: string)
  {
    forall i :: 0 <= i < |s| ==> !IsLowerAscii(s[i])
  }

  /** Upper-cases one ASCII letter; every other character is left alone. */
  function UpperChar(c: char): (u: char)
    ensures !IsLowerAscii(u)
    ensures !IsLowerAscii(c) ==> u == c
    ensures IsLowerAscii(c) ==> 'A' <= u <= 'Z' && u as int + 32 == c as int
  {
    if IsLowerAscii(c) then (c as int - 32) as char else c
  }

  /** Upper-cases a string, keeping its length and position of every character. */
  function ToUpperCase(s: string): (r: string)
    ensures |r| == |s|
    ensures forall i :: 0 <= i < |s| ==> r[i] == UpperChar(s[i])
    ensures IsUpperCase(r)
    ensures IsUpperCase(s) ==> r == s
  {
    seq(|s|, i requires 0 <= i < |s| => UpperChar(s[i]))
  }
}
