/** Occurrences of one text inside another. */
module Substrings {
  predicate OccursAt(text: string, s: string, i: nat) {
    i + |s| <= |text| && text[i..i + |s|] == s
  }

  predicate Contains(text: string, s: string) {
    exists i :: 0 <= i <= |text| && OccursAt(text, s, i)
  }
}
