/** Facts about sequences that proofs name instead of leaving to the verifier. */
module Sequences {
  lemma Assoc<T>(a: seq<T>, b: seq<T>, c: seq<T>)
    ensures a + b + c == a + (b + c)
  {
  }

  lemma NothingAdded<T>(a: seq<T>)
    ensures a + [] == a && [] + a == a
  {
  }

  /** A concatenation, from its front. */
  lemma FirstOfConcat<T>(a: seq<T>, b: seq<T>)
    requires a != []
    ensures (a + b)[0] == a[0] && (a + b)[1..] == a[1..] + b
  {
  }

  lemma HeadAndTail<T>(a: seq<T>)
    requires a != []
    ensures [a[0]] + a[1..] == a
  {
  }

  /** A concatenation, cut where its parts meet. */
  lemma CutApart<T>(a: seq<T>, b: seq<T>)
    ensures (a + b)[..|a|] == a && (a + b)[|a|..] == b
  {
  }

  /** Element i replaced by two. */
  function Doubled<T>(xs: seq<T>, i: nat, l: T, r: T): seq<T>
    requires i < |xs|
  {
    xs[..i] + [l, r] + xs[i + 1..]
  }

  lemma DoubledAt<T>(xs: seq<T>, i: nat, l: T, r: T, j: nat)
    requires i < |xs| && j <= |xs|
    ensures |Doubled(xs, i, l, r)| == |xs| + 1
    ensures Doubled(xs, i, l, r)[j] ==
      if j < i then xs[j] else if j == i then l else if j == i + 1 then r else xs[j - 1]
  {
  }

  /** Element j of a middle part. */
  lemma InMiddle<T>(a: seq<T>, b: seq<T>, c: seq<T>, j: nat)
    requires j < |b|
    ensures (a + b + c)[|a| + j] == b[j]
  {
  }

  lemma CutInMiddle<T>(a: seq<T>, b: seq<T>, c: seq<T>, j: nat)
    requires j <= |b|
    ensures (a + b + c)[..|a| + j] == a + b[..j]
  {
  }
}
