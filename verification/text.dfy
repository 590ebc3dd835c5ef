/**
 The character classes and case mapping the game applies to keystrokes and
 words, restricted to ASCII.
 */
module Text {

  predicate IsAlnum(c: char) {
    ('a' <= c <= 'z') || ('A' <= c <= 'Z') || ('0' <= c <= '9')
  }

  /** Upper-casing of one character: lower-case ASCII letters map to capitals, all else is kept. */
  function UpperChar(c: char): char {
    if 'a' <= c <= 'z' then (c as int - 32) as char else c
  }

  function Upper(s: string): (r: string)
    ensures |r| == |s|
    ensures forall i :: 0 <= i < |s| ==> r[i] == UpperChar(s[i])
  {
    seq(|s|, i requires 0 <= i < |s| => UpperChar(s[i]))
  }

  /** A string that upper-casing leaves unchanged. */
  predicate IsUpper(s: string) {
    forall i :: 0 <= i < |s| ==> UpperChar(s[i]) == s[i]
  }

  /**
   The keystroke filter: a non-empty string that is alphanumeric throughout,
   or exactly ";" (the only non-empty string that is a substring of ";").
   */
  predicate Accepted(key: string): (ok: bool)
    ensures ok ==> |key| > 0
    ensures |key| == 1 ==> (ok <==> IsAlnum(key[0]) || key[0] == ';')
  {
    |key| > 0 && ((forall i :: 0 <= i < |key| ==> IsAlnum(key[i])) || key == ";")
  }

  lemma UpperIsUpper(s: string)
    ensures IsUpper(Upper(s))
  {
  }

  lemma UpperOfUpper(s: string)
    requires IsUpper(s)
    ensures Upper(s) == s
  {
  }
}
