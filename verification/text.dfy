/**
 * Character classes of Go's RE2 syntax as they are used by the redaction
 * patterns, and the greedy "longest run" scanner every matcher is built on.
 * Text is a sequence of characters (runes); Go matches UTF-8 rune by rune,
 * which agrees with this view on well-formed UTF-8.
 */
module Text {

  /** `\s` in RE2: tab, newline, form feed, carriage return, space (not vertical tab). */
  predicate IsSpace(c: char) {
    c == '\t' || c == '\n' || c == '\U{000C}' || c == '\r' || c == ' '
  }

  /** `[^\n\t\\\s]` and `[^\s\n\\]`: a flag value or a user secret. */
  predicate IsValueChar(c: char) {
    !IsSpace(c) && c != '\\'
  }

  /** `[\n\\\s]`: what may follow a flag value (blanks and line continuations). */
  predicate IsGapChar(c: char) {
    IsSpace(c) || c == '\\'
  }

  /** `[^"]` (a negated class, so it admits newlines). */
  predicate NotQuote(c: char) {
    c != '"'
  }

  /** `[^-----]`, which is the class "anything but `-`". */
  predicate NotDash(c: char) {
    c != '-'
  }

  /** `[0-9]` */
  predicate IsDigit(c: char) {
    '0' <= c <= '9'
  }

  /** `[a-z]` */
  predicate IsLower(c: char) {
    'a' <= c <= 'z'
  }

  /** `[a-z0-9-]`: the region part of an ARN. */
  predicate IsRegionChar(c: char) {
    IsLower(c) || IsDigit(c) || c == '-'
  }

  /** `[a-zA-Z0-9-]`: a user name in `--users name:secret`. */
  predicate IsUserChar(c: char) {
    IsLower(c) || ('A' <= c <= 'Z') || IsDigit(c) || c == '-'
  }

  /** `[\n\\n]`: newline, backslash or the letter n. */
  predicate IsLabelBreak(c: char) {
    c == '\n' || c == '\\' || c == 'n'
  }

  /** `.` without the s flag: anything but a newline. */
  predicate NotNewline(c: char) {
    c != '\n'
  }

  /** Every character of s[i..j] belongs to the class p. */
  ghost predicate AllIn(s: string, i: nat, j: nat, p: char -> bool)
    requires i <= j <= |s|
  {
    forall k :: i <= k < j ==> p(s[k])
  }

  /**
   * The end of the longest run of class-p characters starting at i: what a
   * greedy `p*` reaches from i.
   */
  function Run(s: string, i: nat, p: char -> bool): (j: nat)
    requires i <= |s|
    ensures i <= j <= |s|
    ensures forall k :: i <= k < j ==> p(s[k])
    ensures j == |s| || !p(s[j])
    decreases |s| - i
  {
    if i < |s| && p(s[i]) then Run(s, i + 1, p) else i
  }

  /** A run is determined by its two defining facts. */
  lemma RunIs(s: string, i: nat, p: char -> bool, j: nat)
    requires i <= j <= |s|
    requires forall k :: i <= k < j ==> p(s[k])
    requires j == |s| || !p(s[j])
    ensures Run(s, i, p) == j
  {
  }

  /** Any run of class-p characters from i ends no later than the greedy one. */
  lemma RunIsLongest(s: string, i: nat, p: char -> bool, j: nat)
    requires i <= j <= |s|
    requires forall k :: i <= k < j ==> p(s[k])
    ensures j <= Run(s, i, p)
  {
  }

  /** The literal lit occurs in s at position i. */
  predicate LitAt(s: string, i: nat, lit: string) {
    i + |lit| <= |s| && s[i..i + |lit|] == lit
  }

  /** Twelve decimal digits at s[i..i + 12] (`[0-9]{12}`). */
  predicate TwelveDigitsAt(s: string, i: nat) {
    i + 12 <= |s| && forall k :: i <= k < i + 12 ==> IsDigit(s[k])
  }
}
