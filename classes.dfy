/**
 * The character classes the tokenizer's patterns are written with.
 *
 * The Unicode property data behind `[:alnum:]`, `[:alpha:]`, `[:lower:]`,
 * `[:Ll:]`, `[:Number:]` and `\s` is not part of the model: a value of
 * `Classes` stands for one assignment of those properties to code points, and
 * every stage is defined for all of them.  `AsciiAgrees` states the few facts
 * about ASCII characters and line separators that the Unicode data fixes.  The
 * model reads `$` as the end of the buffer and `^` as its start.  That is
 * Boost's multi-line reading for the separators listed in `AsciiAgrees`, which
 * are `\s` and so collapsed to blanks early on.  It is not for the other code
 * points Boost takes as separators, those whose low 16 bits are 0x0085, 0x2028
 * or 0x2029 (U+12028, say), which are not `\s`.
 */
module CharClasses {

  datatype Classes = Classes(
    alnum: char -> bool,   // [:alnum:]
    alpha: char -> bool,   // [:alpha:]
    lower: char -> bool,   // [:lower:]
    ll: char -> bool,      // [:Ll:], Unicode general category Ll
    number: char -> bool,  // [:Number:]
    space: char -> bool)   // \s

  predicate IsAsciiLower(c: char) { 'a' <= c <= 'z' }

  predicate IsAsciiUpper(c: char) { 'A' <= c <= 'Z' }

  predicate IsAsciiDigit(c: char) { '0' <= c <= '9' }

  /** Characters that are neither letters, digits nor white space in any Unicode version. */
  predicate IsAsciiPunct(c: char) {
    c in ".,;:!?'\"`-&|<>[]()/$#@*+=%·"
  }

  /** What the Unicode data says about ASCII letters, digits, punctuation, the blank
      and the line separators \n, \r, \f, U+0085, U+2028 and U+2029. */
  ghost predicate AsciiAgrees(u: Classes) {
    && (forall c: char | IsAsciiLower(c) ::
          u.alpha(c) && u.alnum(c) && u.lower(c) && u.ll(c) && !u.number(c) && !u.space(c))
    && (forall c: char | IsAsciiUpper(c) ::
          u.alpha(c) && u.alnum(c) && !u.lower(c) && !u.ll(c) && !u.number(c) && !u.space(c))
    && (forall c: char | IsAsciiDigit(c) ::
          !u.alpha(c) && u.alnum(c) && !u.lower(c) && !u.ll(c) && u.number(c) && !u.space(c))
    && (forall c: char | IsAsciiPunct(c) ::
          !u.alpha(c) && !u.alnum(c) && !u.lower(c) && !u.ll(c) && !u.number(c) && !u.space(c))
    && u.space(' ') && u.space('\t')
    && u.space('\n') && u.space('\r') && u.space(12 as char)
    && u.space(0x85 as char) && u.space(0x2028 as char) && u.space(0x2029 as char)
    && !u.alpha(' ') && !u.alnum(' ') && !u.lower(' ') && !u.ll(' ') && !u.number(' ')
  }

  /** `std::isspace` in the classic locale, which `boost::algorithm::trim` uses. */
  predicate IsTrimSpace(c: char) {
    c == ' ' || c == '\t' || c == '\n' || c == 11 as char || c == 12 as char || c == '\r'
  }

  /** `boost::algorithm::trim`: drops leading and trailing classic-locale white space. */
  function TrimLeft(s: seq<char>): (r: seq<char>)
    ensures |r| <= |s| && r == s[|s| - |r|..]
    ensures r != [] ==> !IsTrimSpace(r[0])
    ensures forall k | 0 <= k < |s| - |r| :: IsTrimSpace(s[k])
  {
    if s != [] && IsTrimSpace(s[0]) then TrimLeft(s[1..]) else s
  }

  function TrimRight(s: seq<char>): (r: seq<char>)
    ensures |r| <= |s| && r == s[..|r|]
    ensures r != [] ==> !IsTrimSpace(r[|r| - 1])
    ensures forall k | |r| <= k < |s| :: IsTrimSpace(s[k])
  {
    if s != [] && IsTrimSpace(s[|s| - 1]) then TrimRight(s[..|s| - 1]) else s
  }

  function Trim(s: seq<char>): (r: seq<char>)
  {
    TrimRight(TrimLeft(s))
  }
}
