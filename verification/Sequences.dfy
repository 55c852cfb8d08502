/** Sequences of addresses or identifiers. */
module Sequences {
  /** No element occurs twice. */
  predicate Distinct(s: seq<int>) {
    forall i, j :: 0 <= i < j < |s| ==> s[i] != s[j]
  }
}
