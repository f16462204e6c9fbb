/** Positions in text, as `find`, `starts_with` and small patterns use them. */
module Texts {
  predicate HoldsAt(text: string, at: nat, word: string) {
    at + |word| <= |text| && text[at..at + |word|] == word
  }

  /** The first place from `at` on where `word` stands; the end of the text where it does not. */
  function FindFrom(text: string, at: nat, word: string): (k: nat)
    requires at <= |text|
    ensures at <= k <= |text| && (k < |text| ==> HoldsAt(text, k, word))
    ensures forall i :: at <= i < k ==> !HoldsAt(text, i, word)
    decreases |text| - at
  {
    if at == |text| || HoldsAt(text, at, word) then at else FindFrom(text, at + 1, word)
  }

  function IndexFrom(text: string, at: nat, c: char): (k: nat)
    requires at <= |text|
    ensures at <= k <= |text| && (k < |text| ==> text[k] == c)
    ensures forall i :: at <= i < k ==> text[i] != c
    decreases |text| - at
  {
    if at == |text| || text[at] == c then at else IndexFrom(text, at + 1, c)
  }

  /** Past everything from `at` on that satisfies `p`. */
  function SkipFrom(text: string, at: nat, p: char -> bool): (k: nat)
    requires at <= |text|
    ensures at <= k <= |text| && (k < |text| ==> !p(text[k]))
    ensures forall i :: at <= i < k ==> p(text[i])
    decreases |text| - at
  {
    if at == |text| || !p(text[at]) then at else SkipFrom(text, at + 1, p)
  }

  /** Unicode's White_Space property. */
  predicate IsWhitespace(c: char) {
    || '\t' <= c <= '\r' || c == ' ' || c == '\U{0085}' || c == '\U{00A0}' || c == '\U{1680}'
    || '\U{2000}' <= c <= '\U{200A}' || c == '\U{2028}' || c == '\U{2029}' || c == '\U{202F}'
    || c == '\U{205F}' || c == '\U{3000}'
  }

  predicate IsDigit(c: char) { '0' <= c <= '9' }

  predicate IsLetter(c: char) { 'A' <= c <= 'Z' || 'a' <= c <= 'z' }

  predicate IsHexDigit(c: char) { IsDigit(c) || 'A' <= c <= 'F' || 'a' <= c <= 'f' }

  function HexValue(c: char): (v: nat)
    requires IsHexDigit(c)
    ensures v < 16
  {
    if IsDigit(c) then c as int - '0' as int
    else if c <= 'F' then c as int - 'A' as int + 10
    else c as int - 'a' as int + 10
  }
}
