/** Rounded-up division and logarithm, for counting groups and passes. */
module CeilLogs {
  function Ceil(n: nat, d: nat): nat
    requires d > 0
  {
    (n + d - 1) / d
  }

  lemma CeilBounds(n: nat, d: nat)
    requires d > 0
    ensures n <= Ceil(n, d) * d < n + d
  {
  }

  lemma Between(a: int, b: int, d: nat)
    requires d > 0 && a * d - d < b * d < a * d + d
    ensures a == b
  {
    if a > b {
      MulMono(b + 1, a, d);
      Distribute(b, d);
    } else if b > a {
      MulMono(a + 1, b, d);
      Distribute(a, d);
    }
  }

  lemma MulMono(x: int, y: int, d: nat)
    requires x <= y
    ensures x * d <= y * d
  {
    assert (y - x) * d >= 0;
  }

  lemma Distribute(x: int, d: nat)
    ensures (x + 1) * d == x * d + d
  {
  }

  /** How many passes of width w leave one file of r. */
  function Passes(r: nat, w: nat): nat
    requires w >= 2
    decreases r
  {
    if r <= 1 then 0
    else
      CeilShrinks(r, w);
      1 + Passes(Ceil(r, w), w)
  }

  lemma CeilShrinks(r: nat, w: nat)
    requires w >= 2 && r >= 2
    ensures 1 <= Ceil(r, w) < r
  {
    CeilWithin(r, w, 0);
    CeilWithin(r, w, r - 1);
    MulMono(2, w, r - 1);
  }

  /** A pass leaves fewer files exactly when it merges two at least. */
  lemma PassesShrink(r: nat, w: nat)
    requires w >= 1 && r >= 2
    ensures Ceil(r, w) < r <==> w >= 2
  {
    if w >= 2 {
      CeilShrinks(r, w);
    }
  }

  /** How many files p passes of width w leave of r; there are no more passes once one is left. */
  function FilesLeft(r: nat, w: nat, p: nat): nat
    requires w >= 1
    decreases p
  {
    if p == 0 || r <= 1 then r else FilesLeft(Ceil(r, w), w, p - 1)
  }

  /** The passes come down to one file exactly when each merges two at least. */
  lemma EndsExactly(r: nat, w: nat)
    requires r >= 2 && w >= 1
    ensures (exists p: nat :: FilesLeft(r, w, p) == 1) <==> w >= 2
    ensures w >= 2 ==> FilesLeft(r, w, Passes(r, w)) == 1
  {
    if w >= 2 {
      PassesEnd(r, w);
    } else {
      forall p: nat ensures FilesLeft(r, w, p) != 1 {
        OneWide(r, p);
      }
    }
  }

  lemma {:induction false} PassesEnd(r: nat, w: nat)
    requires r >= 1 && w >= 2
    ensures FilesLeft(r, w, Passes(r, w)) == 1
    decreases r
  {
    if r == 1 {
    } else {
      CeilShrinks(r, w);
      PassesEnd(Ceil(r, w), w);
    }
  }

  /** One file at a time merges nothing. */
  lemma {:induction false} OneWide(r: nat, p: nat)
    ensures FilesLeft(r, 1, p) == r
  {
    if p == 0 {
    } else {
      assert Ceil(r, 1) == r;
      OneWide(r, p - 1);
    }
  }

  function Power(w: nat, p: nat): nat {
    if p == 0 then 1 else w * Power(w, p - 1)
  }

  /** The passes are the fewest p with w^p at least the number of runs. */
  lemma {:induction false} PassesAreLeast(r: nat, w: nat, p: nat)
    requires w >= 2 && r >= 1
    ensures Power(w, p) >= r <==> p >= Passes(r, w)
    decreases p
  {
    if r >= 2 && p > 0 {
      CeilShrinks(r, w);
      PassesAreLeast(Ceil(r, w), w, p - 1);
      CeilWithin(r, w, Power(w, p - 1));
    } else if r == 1 {
      PowerPositive(w, p);
    }
  }

  lemma {:induction false} PowerPositive(w: nat, p: nat)
    requires w >= 1
    ensures Power(w, p) >= 1
  {
    if p == 0 {
    } else {
      PowerPositive(w, p - 1);
      MulMono(1, w, Power(w, p - 1));
    }
  }

  lemma CeilWithin(r: nat, w: nat, m: nat)
    requires w > 0
    ensures Ceil(r, w) <= m <==> r <= w * m
  {
    CeilBounds(r, w);
    if Ceil(r, w) <= m {
      MulMono(Ceil(r, w), m, w);
    } else {
      MulMono(m + 1, Ceil(r, w), w);
      Distribute(m, w);
    }
  }
}
