/** A sequence with one element taken out, the view of a list after an unlink. */
module Sequences {

  function Without<T>(s: seq<T>, i: nat): seq<T>
    requires i < |s|
  {
    s[..i] + s[i + 1..]
  }

  lemma WithoutElements<T>(s: seq<T>, i: nat)
    requires i < |s|
    ensures |Without(s, i)| == |s| - 1
    ensures forall j | 0 <= j < |s| - 1 :: Without(s, i)[j] == if j < i then s[j] else s[j + 1]
  {
  }

  lemma WithoutAt<T>(s: seq<T>, i: nat, j: nat)
    requires i < |s| && j < |s| - 1
    ensures Without(s, i)[j] == s[if j < i then j else j + 1]
  {
  }
}
