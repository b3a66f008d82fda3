/** Halving an interval k times: one axis of a geohash, in exact arithmetic.

    k bits name one of 2^k cells of equal width. */
module GridAxis {
  /** The width of a cell after k halvings. */
  function Width(w: real, k: nat): real {
    if k == 0 then w else Width(w, k - 1) / 2.0
  }

  function Count(k: nat): (n: nat)
    ensures n >= 1
  {
    if k == 0 then 1 else 2 * Count(k - 1)
  }

  /** Where the cell of some bits starts. */
  function Min(lo: real, w: real, bits: seq<bool>): real {
    if bits == [] then lo
    else
      var k := |bits| - 1;
      Min(lo, w, bits[..k]) + if bits[k] then Width(w, k + 1) else 0.0
  }

  /** The number of a cell, from 0. */
  function Index(bits: seq<bool>): nat {
    if bits == [] then 0 else 2 * Index(bits[..|bits| - 1]) + if bits[|bits| - 1] then 1 else 0
  }

  /** The bits of the cell that x falls in: at the middle or above takes the upper half. */
  function Bits(lo: real, w: real, x: real, k: nat): (bits: seq<bool>)
    ensures |bits| == k
  {
    if k == 0 then []
    else
      var bits := Bits(lo, w, x, k - 1);
      bits + [x >= Min(lo, w, bits) + Width(w, k)]
  }

  /** j widths on end. */
  function Steps(j: nat, w: real): real {
    if j == 0 then 0.0 else Steps(j - 1, w) + w
  }

  lemma {:induction false} StepsHalved(j: nat, w: real)
    ensures Steps(2 * j, w / 2.0) == Steps(j, w)
  {
    if j == 0 {
    } else {
      StepsHalved(j - 1, w);
      assert Steps(2 * j, w / 2.0) == Steps(2 * j - 1, w / 2.0) + w / 2.0;
      assert Steps(2 * j - 1, w / 2.0) == Steps(2 * (j - 1), w / 2.0) + w / 2.0;
    }
  }

  lemma {:induction false} StepsApart(i: nat, j: nat, w: real)
    requires i < j && w > 0.0
    ensures Steps(i, w) + w <= Steps(j, w)
  {
    if i + 1 < j {
      StepsApart(i, j - 1, w);
    }
  }

  lemma {:induction false} StepsPositive(j: nat, w: real)
    requires w > 0.0
    ensures Steps(j, w) >= 0.0
  {
    if j == 0 {
    } else {
      StepsPositive(j - 1, w);
    }
  }

  lemma {:induction false} WidthPositive(w: real, k: nat)
    requires w > 0.0
    ensures Width(w, k) > 0.0 && Count(k) >= 1
  {
    if k == 0 {
    } else {
      WidthPositive(w, k - 1);
    }
  }

  /** The cells fill the interval. */
  lemma {:induction false} WidthsFill(w: real, k: nat)
    ensures Steps(Count(k), Width(w, k)) == w
  {
    if k == 0 {
    } else {
      WidthsFill(w, k - 1);
      StepsHalved(Count(k - 1), Width(w, k - 1));
    }
  }

  lemma {:induction false} IndexInRange(bits: seq<bool>)
    ensures Index(bits) < Count(|bits|)
  {
    if bits == [] {
    } else {
      IndexInRange(bits[..|bits| - 1]);
    }
  }

  lemma {:induction false} IndexNamesBits(a: seq<bool>, b: seq<bool>)
    requires |a| == |b| && Index(a) == Index(b)
    ensures a == b
  {
    if a == [] {
    } else {
      var k := |a| - 1;
      IndexNamesBits(a[..k], b[..k]);
      assert a == a[..k] + [a[k]] && b == b[..k] + [b[k]];
    }
  }

  /** Cells stand side by side. */
  lemma {:induction false} CellStarts(lo: real, w: real, bits: seq<bool>)
    ensures Min(lo, w, bits) == lo + Steps(Index(bits), Width(w, |bits|))
  {
    if bits == [] {
    } else {
      var k := |bits| - 1;
      CellStarts(lo, w, bits[..k]);
      StepsHalved(Index(bits[..k]), Width(w, k));
    }
  }

  /** A point of the interval falls in its own cell. */
  lemma {:induction false} FallsInside(lo: real, w: real, x: real, k: nat)
    requires w > 0.0 && lo <= x < lo + w
    ensures var m := Min(lo, w, Bits(lo, w, x, k)); m <= x < m + Width(w, k)
  {
    if k == 0 {
    } else {
      FallsInside(lo, w, x, k - 1);
      var bits := Bits(lo, w, x, k - 1);
      assert Bits(lo, w, x, k)[..k - 1] == bits;
    }
  }

  /** The end of the interval counts for the last cell. */
  lemma {:induction false} EndFallsLast(lo: real, w: real, x: real, k: nat)
    requires w > 0.0 && x >= lo + w
    ensures Index(Bits(lo, w, x, k)) == Count(k) - 1
    ensures Min(lo, w, Bits(lo, w, x, k)) + Width(w, k) == lo + w
  {
    if k == 0 {
    } else {
      EndFallsLast(lo, w, x, k - 1);
      WidthPositive(w, k);
      var bits := Bits(lo, w, x, k - 1);
      assert Bits(lo, w, x, k)[..k - 1] == bits;
    }
  }

  /** The cell a point falls in, by its number. */
  lemma FallsInCell(lo: real, w: real, x: real, k: nat, j: nat)
    requires w > 0.0 && lo <= x < lo + w
    requires Steps(j, Width(w, k)) <= x - lo < Steps(j, Width(w, k)) + Width(w, k)
    ensures Index(Bits(lo, w, x, k)) == j
  {
    var bits := Bits(lo, w, x, k);
    FallsInside(lo, w, x, k);
    CellStarts(lo, w, bits);
    WidthPositive(w, k);
    OneCell(Index(bits), j, Width(w, k), x - lo);
  }

  /** A point is in one cell only. */
  lemma OneCell(i: nat, j: nat, w: real, x: real)
    requires w > 0.0 && Steps(i, w) <= x < Steps(i, w) + w && Steps(j, w) <= x < Steps(j, w) + w
    ensures i == j
  {
    if i > j {
      StepsApart(j, i, w);
    } else if i < j {
      StepsApart(i, j, w);
    }
  }

  /** The number of the cell a point falls in, and how far into it the point is. */
  lemma CellOf(lo: real, w: real, x: real, k: nat)
    requires w > 0.0 && lo <= x <= lo + w
    ensures var i, c := Index(Bits(lo, w, x, k)), Width(w, k);
            && i < Count(k) && Steps(i, c) <= x - lo <= Steps(i, c) + c
            && (x < lo + w ==> x - lo < Steps(i, c) + c)
            && (x == lo + w ==> i == Count(k) - 1)
  {
    var bits := Bits(lo, w, x, k);
    IndexInRange(bits);
    CellStarts(lo, w, bits);
    WidthPositive(w, k);
    if x < lo + w {
      FallsInside(lo, w, x, k);
    } else {
      EndFallsLast(lo, w, x, k);
    }
  }

  /** Where the middle of cell j is. */
  function Middle(lo: real, w: real, k: nat, j: nat): real {
    lo + Steps(j, Width(w, k)) + Width(w, k) / 2.0
  }

  /** The middle of cell j is in the interval, and falls in cell j. */
  lemma MiddleFallsBack(lo: real, w: real, k: nat, j: nat)
    requires w > 0.0 && j < Count(k)
    ensures lo < Middle(lo, w, k, j) < lo + w && Index(Bits(lo, w, Middle(lo, w, k, j), k)) == j
  {
    var c := Width(w, k);
    WidthPositive(w, k);
    WidthsFill(w, k);
    StepsPositive(j, c);
    StepsApart(j, Count(k), c);
    FallsInCell(lo, w, Middle(lo, w, k, j), k, j);
  }

  /** Neighbouring cells' middles are a width apart. */
  lemma MiddleNext(lo: real, w: real, k: nat, j: nat)
    ensures Middle(lo, w, k, j + 1) == Middle(lo, w, k, j) + Width(w, k)
  {
  }

  /** A width past the last middle is the first, an interval on. */
  lemma MiddleAround(lo: real, w: real, k: nat)
    ensures Middle(lo, w, k, Count(k) - 1) + Width(w, k) == Middle(lo, w, k, 0) + w
  {
    WidthsFill(w, k);
  }

  /** The midpoint of a cell is a width of the next halving from its start. */
  lemma Midway(min: real, max: real, w: real, k: nat)
    requires max == min + Width(w, k)
    ensures (min + max) / 2.0 == min + Width(w, k + 1)
  {
  }

  lemma NextBits(lo: real, w: real, x: real, k: nat, bits: seq<bool>, b: bool)
    requires bits == Bits(lo, w, x, k) && b == (x >= Min(lo, w, bits) + Width(w, k + 1))
    ensures bits + [b] == Bits(lo, w, x, k + 1)
  {
  }
}
