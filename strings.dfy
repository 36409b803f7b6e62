/** Python's string built-ins, as the detector uses them, on ASCII characters:
    `str.lower`, the regex classes `\s` and `\w`, `str.isdigit`, `string.punctuation`
    and the substring test `p in s`. */
module Strings {

  predicate IsUpper(c: char) { 'A' <= c <= 'Z' }

  predicate IsLower(c: char) { 'a' <= c <= 'z' }

  predicate IsLetter(c: char) { IsUpper(c) || IsLower(c) }

  /** `str.isdigit` on one character. */
  predicate IsDigit(c: char) { '0' <= c <= '9' }

  /** A character of the regex class `\w`; `\b` sits between a `\w` and a non-`\w` character. */
  predicate IsWordChar(c: char) { IsLetter(c) || IsDigit(c) || c == '_' }

  /** A character of the regex class `\s`: tab, line feed, vertical tab, form feed,
      carriage return, the four separators 0x1C-0x1F, and space. */
  predicate IsSpace(c: char) { '\t' <= c <= '\r' || '\U{1C}' <= c <= '\U{1F}' || c == ' ' }

  /** A character of `string.punctuation`, the 32 characters
      ``!"#$%&'()*+,-./:;<=>?@[\]^_`{|}~``. */
  predicate IsPunctuation(c: char)
  {
    '!' <= c <= '/' || ':' <= c <= '@' || '[' <= c <= '`' || '{' <= c <= '~'
  }

  /** `str.lower` on one character. */
  function Lower(c: char): (d: char)
    ensures !IsUpper(d)
    ensures IsLetter(d) <==> IsLetter(c)
    ensures !IsUpper(c) ==> d == c
  {
    if IsUpper(c) then (c as int + 32) as char else c
  }

  /** `str.lower`: maps every character and keeps the length. */
  function LowerStr(s: string): string
  {
    seq(|s|, i requires 0 <= i < |s| => Lower(s[i]))
  }

  predicate NoUpper(s: string)
  {
    forall j :: 0 <= j < |s| ==> !IsUpper(s[j])
  }

  lemma {:induction false} LowerStrNoUpper(s: string)
    ensures |LowerStr(s)| == |s|
    ensures NoUpper(LowerStr(s))
  {
  }

  /** Lowering is the identity on text with no upper-case letter, so lowering twice is lowering once. */
  lemma {:induction false} LowerStrIdentity(s: string)
    requires NoUpper(s)
    ensures LowerStr(s) == s
  {
  }

  lemma LowerStrIdempotent(s: string)
    ensures LowerStr(LowerStr(s)) == LowerStr(s)
  {
    LowerStrIdentity(LowerStr(s));
  }

  /** `p` occurs in `s` at index `i`. */
  predicate OccursAt(s: string, p: string, i: int)
  {
    0 <= i && i + |p| <= |s| && forall j :: 0 <= j < |p| ==> s[i + j] == p[j]
  }

  /** Python's `p in s`. */
  predicate Contains(s: string, p: string)
  {
    exists i :: 0 <= i <= |s| && OccursAt(s, p, i)
  }

  /** Some string of `ps` occurs in `s`; a regex search for the alternation of `ps`. */
  predicate ContainsAny(s: string, ps: seq<string>)
  {
    exists k :: 0 <= k < |ps| && Contains(s, ps[k])
  }

  /** A text without the first character of `p` does not contain `p`. */
  lemma MissingFirstChar(t: string, p: string)
    requires |p| > 0
    requires forall i :: 0 <= i < |t| ==> t[i] != p[0]
    ensures !Contains(t, p)
  {
    forall i | 0 <= i <= |t|
      ensures !OccursAt(t, p, i)
    {
      if i < |t| {
        assert t[i] != p[0];
      }
    }
  }
}
