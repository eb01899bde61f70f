/** Character classes and digit values that the lexemes of Text/Parsec/Token.js
    take from the base library (Data.Char's `isDigit`, `isHexDigit`,
    `isOctDigit`, `isAlpha`, `isSpace`, `digitToInt`, and JavaScript's
    `toLowerCase`/`toUpperCase`).  That library is not part of this model:
    the classes are the ASCII ones. */
module CharClass {

  predicate IsDigit(c: char) { '0' <= c <= '9' }

  predicate IsOctDigit(c: char) { '0' <= c <= '7' }

  predicate IsHexDigit(c: char) { IsDigit(c) || 'a' <= c <= 'f' || 'A' <= c <= 'F' }

  predicate IsUpper(c: char) { 'A' <= c <= 'Z' }

  predicate IsLower(c: char) { 'a' <= c <= 'z' }

  predicate IsAlpha(c: char) { IsUpper(c) || IsLower(c) }

  predicate IsAlphaNum(c: char) { IsAlpha(c) || IsDigit(c) }

  /** `isSpace`: blank, tab, line feed, vertical tab, form feed, carriage return. */
  predicate IsSpace(c: char) { c == ' ' || '\t' <= c <= '\r' }

  /** `digitToInt`: the value of a hexadecimal digit (either case); the base
      library throws on other characters, which `number` never passes it. */
  function DigitToInt(c: char): (d: int)
    ensures IsDigit(c) ==> 0 <= d < 10 && d == c as int - '0' as int
    ensures IsOctDigit(c) ==> d < 8
    ensures IsHexDigit(c) ==> 0 <= d < 16
    ensures 'a' <= c <= 'f' ==> d == c as int - 'a' as int + 10
    ensures 'A' <= c <= 'F' ==> d == c as int - 'A' as int + 10
  {
    if IsDigit(c) then c as int - '0' as int
    else if 'a' <= c <= 'f' then c as int - 'a' as int + 10
    else if 'A' <= c <= 'F' then c as int - 'A' as int + 10
    else 0
  }

  /** The decimal digit character for `d`. */
  function DigitChar(d: nat): (c: char)
    requires d < 10
    ensures IsDigit(c) && DigitToInt(c) == d
  {
    ('0' as int + d) as char
  }

  /** `foldl (\x d -> base * x + digitToInt d) 0 ds`: the value `number`
      computes from the digits it collected. */
  function DigitsValue(base: int, ds: string): int
  {
    if ds == [] then 0 else base * DigitsValue(base, ds[..|ds| - 1]) + DigitToInt(ds[|ds| - 1])
  }

  /** `toLowerCase` on one character (ASCII letters only). */
  function ToLower(c: char): (r: char)
    ensures IsUpper(c) ==> IsLower(r) && r as int == c as int + 32
    ensures !IsUpper(c) ==> r == c
  {
    if IsUpper(c) then (c as int + 32) as char else c
  }

  /** `toUpperCase` on one character (ASCII letters only). */
  function ToUpper(c: char): (r: char)
    ensures IsLower(c) ==> IsUpper(r) && r as int == c as int - 32
    ensures !IsLower(c) ==> r == c
  {
    if IsLower(c) then (c as int - 32) as char else c
  }

  /** `str.toLowerCase()`. */
  function LowerString(s: string): (r: string)
    ensures |r| == |s|
    ensures forall k :: 0 <= k < |s| ==> r[k] == ToLower(s[k])
  {
    seq(|s|, k requires 0 <= k < |s| => ToLower(s[k]))
  }

  /** A letter and its other case agree once lowered, and lowering is idempotent. */
  lemma CaseFold(c: char)
    ensures ToLower(ToUpper(c)) == ToLower(c) && ToLower(ToLower(c)) == ToLower(c)
    ensures IsAlpha(c) ==> ToLower(c) != ToUpper(c) && (c == ToLower(c) || c == ToUpper(c))
    ensures !IsAlpha(c) ==> ToLower(c) == c && ToUpper(c) == c
  {
  }
}
