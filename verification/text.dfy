/**
 * The case-insensitive substring test `back` applies to commit messages:
 * `needle.lower() in message.lower()`.
 */
module Text {

  /**
   * Lower-casing of one character. Covers the ASCII letters and the
   * Latin-1 capitals (umlauts included); `×` (U+00D7) is not a letter.
   */
  function LowerChar(c: char): char {
    if 'A' <= c <= 'Z' || ('À' <= c <= 'Þ' && c != '×') then
      (c as int + 32) as char
    else c
  }

  function Lower(s: string): string {
    seq(|s|, i requires 0 <= i < |s| => LowerChar(s[i]))
  }

  /** `needle in hay` on Python strings: some slice of `hay` equals `needle`. */
  predicate Contains(hay: string, needle: string) {
    exists i | 0 <= i <= |hay| - |needle| :: needle <= hay[i..]
  }

  /** The test `back` applies: `needle.lower() in hay.lower()`. */
  predicate MatchesIgnoringCase(hay: string, needle: string) {
    Contains(Lower(hay), Lower(needle))
  }

  /** The empty argument selects every message; every message selects itself. */
  lemma MatchesTrivially(hay: string)
    ensures MatchesIgnoringCase(hay, "")
    ensures MatchesIgnoringCase(hay, hay)
  {
    assert "" <= Lower(hay)[0..];
    assert Lower(hay) <= Lower(hay)[0..];
  }
}
