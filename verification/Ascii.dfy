/** ASCII case folding and substrings. */
module Ascii {
  predicate IsLowerCase(c: char) { 'a' <= c <= 'z' }
  predicate IsUpperCase(c: char) { 'A' <= c <= 'Z' }
  predicate IsDigit(c: char) { '0' <= c <= '9' }
  predicate IsAlphanumeric(c: char) { IsLowerCase(c) || IsUpperCase(c) || IsDigit(c) }

  function LowerChar(c: char): char {
    if IsUpperCase(c) then (c as int + 32) as char else c
  }

  function Lower(s: string): (r: string)
    ensures |r| == |s| && forall i :: 0 <= i < |s| ==> r[i] == LowerChar(s[i])
  {
    seq(|s|, i requires 0 <= i < |s| => LowerChar(s[i]))
  }

  predicate Contains(s: string, sub: string) {
    exists i :: 0 <= i <= |s| && sub <= s[i..]
  }
}
