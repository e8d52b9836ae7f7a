/**
 * Concatenation of strings.
 */
module Strings {
  lemma Regroup(a: string, b: string, c: string)
    ensures (a + b) + c == a + (b + c)
  {
  }
}
