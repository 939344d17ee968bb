/** What the redactor of src/server.rs recognises, written out: three shapes of text, with the
    words, the character classes and the least lengths as literals, and no scanner.  A match is
    exactly one of these shapes, from its first character to its last. */
module SecretShapes {

  /** `c` is the lower-case letter `lower`, or its capital. */
  predicate IsLetter(c: char, lower: char) {
    c == lower || ('A' <= c <= 'Z' && c as int + 32 == lower as int)
  }

  /** `text` begins with `word`, in any case. */
  predicate Spells(text: string, word: string) {
    |word| <= |text| && forall k | 0 <= k < |word| :: IsLetter(text[k], word[k])
  }

  predicate Names(word: string) {
    || word == "api_key" || word == "api-key" || word == "apikey"
    || word == "signing_key" || word == "signing-key" || word == "signingkey"
    || word == "password" || word == "secret" || word == "token"
  }

  predicate Gap(c: char) { c in " \t" }

  predicate Separates(c: char) { c in "\"' \t\r\n:=" }

  predicate Ink(c: char) { c !in " \t\r\n" && c as int != 12 }

  predicate KeyChar(c: char) { 'A' <= c <= 'Z' || 'a' <= c <= 'z' || '0' <= c <= '9' || c in "_-.=" }

  /** From `from` to `end`, and not one character further, `text` holds only `cls`. */
  ghost predicate Stretch(text: string, from: nat, end: nat, cls: char -> bool) {
    && from <= end <= |text| && (forall k | from <= k < end :: cls(text[k]))
    && (end == |text| || !cls(text[end]))
  }

  /** `Authorization:`, blanks, `Bearer`, blanks up to `value`, and everything up to the next
      white space. */
  ghost predicate IsAuthorization(text: string, at: nat, value: nat, end: nat) {
    IsHeader(text, "authorization:", "bearer", at, value, end)
  }

  ghost predicate IsHeader(text: string, header: string, scheme: string, at: nat, value: nat, end: nat) {
    && Spells(text, header) && Stretch(text, |header|, at, Gap)
    && Spells(text[at..], scheme) && IsValue(text, at + |scheme|, value, end)
  }

  /** One blank or more from `from` up to `value`, then at least one character that is none. */
  ghost predicate IsValue(text: string, from: nat, value: nat, end: nat) {
    from < value < end && Stretch(text, from, value, Gap) && Stretch(text, value, end, Ink)
  }

  /** `Bearer`, one space and at least eight key characters. */
  ghost predicate IsBearer(text: string, end: nat) {
    7 + 8 <= end && Stretch(text, 7, end, KeyChar) && text[..7] == "Bearer "
  }

  /** One of nine words, separators up to `value`, and at least twelve key characters. */
  ghost predicate IsSecret(text: string, word: string, value: nat, end: nat) {
    && Names(word) && Spells(text, word) && |word| < value && Stretch(text, |word|, value, Separates)
    && value + 12 <= end && Stretch(text, value, end, KeyChar)
  }

  ghost predicate IsSensitive(text: string, end: nat) {
    || (exists at, value :: IsAuthorization(text, at, value, end))
    || IsBearer(text, end)
    || (exists word, value :: IsSecret(text, word, value, end))
  }
}
