/**
 * Character classes used by the regular expressions and the `str` methods of
 * the core, restricted to ASCII.
 */
module Chars {

  /** Python's `str.isspace()` and the regex class `\s`, on ASCII: tab, line
      feed, vertical tab, form feed, carriage return, the four information
      separators 0x1C-0x1F, and the space itself. */
  predicate IsSpace(c: char) {
    c == ' ' || ('\t' <= c <= '\r') || ('\U{1C}' <= c <= '\U{1F}')
  }

  predicate IsLowerLetter(c: char) { 'a' <= c <= 'z' }

  predicate IsUpperLetter(c: char) { 'A' <= c <= 'Z' }

  predicate IsDigit(c: char) { '0' <= c <= '9' }

  /** `str.lower()` on one ASCII character. */
  function LowerChar(c: char): (r: char)
    ensures IsUpperLetter(c) ==> IsLowerLetter(r) && r as int == c as int + 32
    ensures !IsUpperLetter(c) ==> r == c
  {
    if IsUpperLetter(c) then (c as int + 32) as char else c
  }

  /** The class `[_\-]`. */
  predicate IsHyphenOrUnderscore(c: char) { c == '_' || c == '-' }

  /** The class `[\s_]`. */
  predicate IsSpaceOrUnderscore(c: char) { IsSpace(c) || c == '_' }

  predicate IsHyphen(c: char) { c == '-' }

  /** The letters and digits a key or slug keeps: `a-z` and `0-9`. */
  predicate IsLowerAlnum(c: char) { IsLowerLetter(c) || IsDigit(c) }

  /** The class `[a-z0-9\s]`, whose complement `_norm_key` deletes. */
  predicate IsAlnumOrSpace(c: char) { IsLowerLetter(c) || IsDigit(c) || IsSpace(c) }

  /** The characters a normalised key is made of: `a-z`, `0-9` and the space. */
  predicate IsKeyChar(c: char) { IsLowerLetter(c) || IsDigit(c) || c == ' ' }

  /** An ASCII letter of either case, or a digit. */
  predicate IsAlnum(c: char) { IsLowerLetter(c) || IsUpperLetter(c) || IsDigit(c) }

  /** The class `[\s_\-]`: what `_norm_key` turns into word breaks. */
  predicate IsSeparator(c: char) { IsSpace(c) || IsHyphenOrUnderscore(c) }

  /** The class `[\s_\-]` again, as `slugify` sees it: what it turns into
      word breaks. */
  predicate IsSlugSeparator(c: char) { IsSpaceOrUnderscore(c) || IsHyphen(c) }

  /** The class `[a-z0-9\-]`, whose complement `slugify` deletes. */
  predicate IsSlugChar(c: char) { IsLowerLetter(c) || IsDigit(c) || c == '-' }
}
