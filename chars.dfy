/** Character classes shared by both engines and the first-stage matcher. */
module CharKinds {

  /** `char::is_ascii_digit`, and also `char::is_digit(10)`. */
  predicate IsAsciiDigit(c: char) { '0' <= c <= '9' }

  predicate IsAsciiLower(c: char) { 'a' <= c <= 'z' }

  predicate IsAsciiUpper(c: char) { 'A' <= c <= 'Z' }

  /** `char::is_ascii_alphanumeric`. */
  predicate IsAsciiAlnum(c: char) { IsAsciiDigit(c) || IsAsciiLower(c) || IsAsciiUpper(c) }

  /** `char::is_alphanumeric` (Unicode Alphabetic or Numeric). Exact on ASCII and on the
      Latin-1 supplement; characters above U+00FF are treated as not alphanumeric. */
  predicate IsAlphanumeric(c: char)
    ensures IsAsciiAlnum(c) ==> IsAlphanumeric(c)
    ensures IsAlphanumeric(c) ==> c as int < 0x100
  {
    IsAsciiAlnum(c)
    || c == 'ª' || c == 'µ' || c == 'º'
    || c == '²' || c == '³' || c == '¹'
    || ('¼' <= c <= '¾')
    || ('À' <= c <= 'ÿ' && c != '×' && c != '÷')
  }

  /** `\w`: alphanumeric or underscore. On ASCII it is exactly the set a `\w` inside
      a bracket class adds. */
  predicate IsWordChar(c: char)
    ensures c as int < 0x80 ==> (IsWordChar(c) <==> c in AsciiWordSet())
  {
    IsAlphanumeric(c) || c == '_'
  }

  lemma AsciiAlnumIsAlphanumeric(c: char)
    requires c as int < 0x80
    ensures IsAlphanumeric(c) <==> IsAsciiAlnum(c)
  {
  }

  predicate Between(lo: char, c: char, hi: char) { lo <= c <= hi }

  /** The characters from lo to hi inclusive: Rust's `(lo..=hi)`. */
  function CharRange(lo: char, hi: char): (r: set<char>)
    ensures forall c :: c in r <==> lo <= c <= hi
  {
    set c: char | Between(lo, c, hi)
  }

  /** The set `\d` adds to a bracket class. */
  function DigitSet(): (r: set<char>)
    ensures forall c :: c in r <==> IsAsciiDigit(c)
  {
    CharRange('0', '9')
  }

  /** The set `\w` adds to a bracket class: ASCII letters, digits and `_`. */
  function AsciiWordSet(): (r: set<char>)
    ensures forall c :: c in r <==> IsAsciiAlnum(c) || c == '_'
  {
    {'_'} + CharRange('0', '9') + CharRange('a', 'z') + CharRange('A', 'Z')
  }
}
