/** Facts about sequences shared by the dictionary and the participant lists. */
module Seqs {

  /** Cutting position `i` out of a sequence: earlier elements keep their
      positions and later ones move down by one. */
  lemma Splice<T>(s: seq<T>, i: nat, a: nat)
    requires i < |s| && a < |s| - 1
    ensures |s[..i] + s[i + 1..]| == |s| - 1
    ensures (s[..i] + s[i + 1..])[a] == s[if a < i then a else a + 1]
  {
  }
}
