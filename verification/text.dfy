/**
 The string tests the entities and the request filter rely on.
 Strings are sequences of characters; lengths count characters.
 */
module Text {

  /** Bean Validation's `@NotBlank` rejects a string whose `trim()` is empty,
      and `trim()` strips every character at or below U+0020. */
  predicate IsBlank(s: string) {
    forall i :: 0 <= i < |s| ==> s[i] <= ' '
  }

  /** `@NotBlank` together with `@Size(max = n)`. */
  predicate NonBlankAtMost(s: string, n: nat) {
    !IsBlank(s) && |s| <= n
  }

  /** `String.startsWith`. */
  predicate StartsWith(s: string, prefix: string) {
    |prefix| <= |s| && s[..|prefix|] == prefix
  }
}
