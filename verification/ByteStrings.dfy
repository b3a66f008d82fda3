/** Byte strings and the order Go's `<` puts on them.

    Every ordered structure here compares keys with Go's string comparison, which
    is lexicographic on bytes. `Less` is that comparison.
    `Rank` embeds the order in the reals, so a proof about many keys can use
    arithmetic instead of a transitivity lemma for each triple. */
module ByteStrings {
  type byte = x: int | 0 <= x < 256
  type Str = seq<byte>

  /** Base-257 fraction of a string; always in [0, 1). */
  ghost function Rank(s: Str): (r: real)
    ensures 0.0 <= r < 1.0
  {
    if s == [] then 0.0 else (s[0] as real + 1.0 + Rank(s[1..])) / 257.0
  }

  /** Go's `a < b` on strings. */
  predicate Less(a: Str, b: Str)
    ensures Less(a, b) <==> Rank(a) < Rank(b)
    ensures a == b <==> Rank(a) == Rank(b)
  {
    if a == [] || b == [] then
      a == [] && b != []
    else if a[0] != b[0] then
      a[0] < b[0]
    else
      assert a == [a[0]] + a[1..] && b == [b[0]] + b[1..];
      Less(a[1..], b[1..])
  }

  /** The order is strict and total, whatever the strings hold. */
  lemma LessIsTotalOrder(a: Str, b: Str, c: Str)
    ensures !Less(a, a)
    ensures a != b ==> (Less(a, b) <==> !Less(b, a))
    ensures Less(a, b) && Less(b, c) ==> Less(a, c)
  {
    var _ := Less(b, a);
  }

  /** The strings agree before place i, where the first ends or has the smaller byte. */
  ghost predicate SmallerAt(a: Str, b: Str, i: nat) {
    && i <= |a| && i < |b| && (forall j :: 0 <= j < i ==> a[j] == b[j])
    && (i < |a| ==> a[i] < b[i])
  }

  /** It is lexicographic. */
  lemma {:induction false} LessIsLexicographic(a: Str, b: Str)
    ensures Less(a, b) <==> exists i: nat :: SmallerAt(a, b, i)
  {
    if a == [] || b == [] || a[0] != b[0] {
      assert Less(a, b) ==> SmallerAt(a, b, 0);
    } else {
      var c, d := a[1..], b[1..];
      LessIsLexicographic(c, d);
      forall i: nat ensures SmallerAt(c, d, i) <==> SmallerAt(a, b, i + 1) {
        SmallerOneOn(a, b, i);
      }
      if i: nat :| SmallerAt(a, b, i) {
        assert SmallerAt(c, d, i - 1);
      }
    }
  }

  lemma SmallerOneOn(a: Str, b: Str, i: nat)
    requires a != [] && b != [] && a[0] == b[0]
    ensures SmallerAt(a[1..], b[1..], i) <==> SmallerAt(a, b, i + 1)
  {
    var c, d := a[1..], b[1..];
    if SmallerAt(c, d, i) {
      forall j | 0 <= j < i + 1 ensures a[j] == b[j] {
        assert j > 0 ==> c[j - 1] == d[j - 1];
      }
    }
    if SmallerAt(a, b, i + 1) {
      assert forall j :: 0 <= j < i ==> c[j] == a[j + 1] && d[j] == b[j + 1];
    }
  }
}
