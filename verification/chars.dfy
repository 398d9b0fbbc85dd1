/** A value that may be absent: a failed regular-expression attempt, a missing map entry. */
module Opt {
  datatype Option<+T> = None | Some(value: T)
}

/**
 * Characters as the content script's regular expressions see them (no `u`
 * flag, so `\d`, `\w` and `\b` are ASCII-only and case folding touches ASCII
 * letters only), and the decimal digit strings that parseInt/parseFloat read
 * and that number-to-string writes.
 */
module Chars {

  /** `\d` */
  predicate IsDigit(c: char) { '0' <= c <= '9' }

  predicate IsAsciiLetter(c: char) { 'a' <= c <= 'z' || 'A' <= c <= 'Z' }

  /** `\w` */
  predicate IsWordChar(c: char) { IsDigit(c) || IsAsciiLetter(c) || c == '_' }

  /** The characters `.` refuses to match: LF, CR, LINE SEPARATOR, PARAGRAPH SEPARATOR. */
  predicate IsLineTerminator(c: char) {
    c == '\n' || c == '\r' || c == '\U{2028}' || c == '\U{2029}'
  }

  /** `\s`: ECMAScript WhiteSpace (TAB, VT, FF, ZWNBSP and category Zs) and LineTerminator. */
  predicate IsSpace(c: char) {
    || c == '\t' || c == '\U{B}' || c == '\U{C}' || c == ' ' || c == '\U{A0}'
    || c == '\U{FEFF}' || c == '\U{1680}' || '\U{2000}' <= c <= '\U{200A}'
    || c == '\U{202F}' || c == '\U{205F}' || c == '\U{3000}'
    || IsLineTerminator(c)
  }

  /** ASCII lower-casing: String.prototype.toLowerCase on the strings the brand pattern matches. */
  function Lower(c: char): char {
    if 'A' <= c <= 'Z' then (c as int + 32) as char else c
  }

  function LowerString(s: string): (r: string)
    ensures |r| == |s|
    ensures forall k | 0 <= k < |s| :: r[k] == Lower(s[k])
  {
    if s == [] then [] else [Lower(s[0])] + LowerString(s[1..])
  }

  /** `\b` at position i of s: exactly one of the characters either side of i is a word character. */
  predicate WordAt(s: string, i: int) { 0 <= i < |s| && IsWordChar(s[i]) }

  predicate BoundaryAt(s: string, i: int) { WordAt(s, i - 1) != WordAt(s, i) }

  /** The end of the longest run of characters satisfying p that starts at i (a greedy `p*`). */
  function RunEnd(s: string, i: nat, p: char -> bool): (j: nat)
    requires i <= |s|
    ensures i <= j <= |s|
    ensures forall k | i <= k < j :: p(s[k])
    ensures j == |s| || !p(s[j])
    decreases |s| - i
  {
    if i < |s| && p(s[i]) then RunEnd(s, i + 1, p) else i
  }

  predicate AllDigits(s: string) { forall k | 0 <= k < |s| :: IsDigit(s[k]) }

  function DigitValue(c: char): nat requires IsDigit(c) { c as int - '0' as int }

  /** The value parseInt / parseFloat give a string of decimal digits. */
  function DigitsValue(ds: string): nat
    requires AllDigits(ds)
  {
    if ds == [] then 0 else DigitsValue(ds[..|ds| - 1]) * 10 + DigitValue(ds[|ds| - 1])
  }

  function DigitChar(d: nat): (c: char)
    requires d < 10
    ensures IsDigit(c) && DigitValue(c) == d
  {
    ('0' as int + d) as char
  }

  /** Number-to-string of a non-negative integer: its shortest decimal digits. */
  function NatToString(n: nat): (r: string)
    ensures |r| >= 1 && AllDigits(r)
    ensures |r| > 1 ==> r[0] != '0'
    decreases n
  {
    if n < 10 then [DigitChar(n)] else NatToString(n / 10) + [DigitChar(n % 10)]
  }

  /**
   * Number-to-string of an integer: a minus sign exactly when it is negative,
   * then the shortest digits that read back as its magnitude.
   */
  function IntToString(i: int): (r: string)
    ensures |r| >= 1 && (r[0] == '-' <==> i < 0)
    ensures var digits := if i < 0 then r[1..] else r;
      && |digits| >= 1 && AllDigits(digits) && (|digits| > 1 ==> digits[0] != '0')
      && DigitsValue(digits) == if i < 0 then -i else i
  {
    NatToStringRoundTrip(if i < 0 then -i else i);
    if i < 0 then
      var digits := NatToString(-i);
      assert ("-" + digits)[1..] == digits;
      "-" + digits
    else NatToString(i)
  }

  /** Reading back what NatToString writes gives the number again. */
  lemma {:induction false} NatToStringRoundTrip(n: nat)
    ensures DigitsValue(NatToString(n)) == n
    decreases n
  {
    if n >= 10 {
      var r := NatToString(n);
      assert r[..|r| - 1] == NatToString(n / 10);
      NatToStringRoundTrip(n / 10);
    }
  }

  /** NatToString is injective: distinct numbers render differently. */
  lemma NatToStringInjective(m: nat, n: nat)
    requires NatToString(m) == NatToString(n)
    ensures m == n
  {
    NatToStringRoundTrip(m);
    NatToStringRoundTrip(n);
  }
}
