/** The binary min-heap that drives a k-way merge: sift-up and sift-down on a slice. */
module MinHeap {
  datatype Item = Item(value: int, source: nat)

  function Parent(i: nat): nat
    requires i > 0
  {
    (i - 1) / 2
  }

  /** No item but perhaps the one at `but` is below its parent. */
  ghost predicate OrderedBut(h: seq<Item>, but: int) {
    forall i :: 0 < i < |h| && i != but ==> h[Parent(i)].value <= h[i].value
  }

  ghost predicate Ordered(h: seq<Item>) {
    forall i :: 0 < i < |h| ==> h[Parent(i)].value <= h[i].value
  }

  lemma {:induction false} RootIsLeast(h: seq<Item>, i: nat)
    requires Ordered(h) && i < |h|
    ensures h[0].value <= h[i].value
  {
    if i == 0 {
    } else {
      RootIsLeast(h, Parent(i));
    }
  }

  function Swapped(h: seq<Item>, i: nat, j: nat): (h': seq<Item>)
    requires i < |h| && j < |h|
    ensures |h'| == |h|
  {
    h[i := h[j]][j := h[i]]
  }

  lemma SwapPermutes(h: seq<Item>, i: nat, j: nat)
    requires i < |h| && j < |h|
    ensures multiset(Swapped(h, i, j)) == multiset(h)
  {
  }

  /** A misplaced item may still be above the grandchildren it will get. */
  ghost predicate Bridged(h: seq<Item>, j: nat) {
    forall i :: 0 < i < |h| && j > 0 && Parent(i) == j ==> h[Parent(j)].value <= h[i].value
  }

  method Up(h0: seq<Item>, j0: nat) returns (h: seq<Item>)
    requires j0 < |h0| && OrderedBut(h0, j0) && Bridged(h0, j0)
    ensures Ordered(h) && multiset(h) == multiset(h0)
  {
    h := h0;
    var j: nat := j0;
    while j > 0 && h[j].value < h[Parent(j)].value
      invariant j < |h| && |h| == |h0| && OrderedBut(h, j) && Bridged(h, j) && multiset(h) == multiset(h0)
      decreases j
    {
      UpStep(h, j);
      SwapPermutes(h, Parent(j), j);
      h := Swapped(h, Parent(j), j);
      j := Parent(j);
    }
  }

  lemma UpStep(h: seq<Item>, j: nat)
    requires 0 < j < |h| && OrderedBut(h, j) && Bridged(h, j) && h[j].value < h[Parent(j)].value
    ensures var h' := Swapped(h, Parent(j), j); OrderedBut(h', Parent(j)) && Bridged(h', Parent(j))
  {
    var p, h' := Parent(j), Swapped(h, Parent(j), j);
    forall i | 0 < i < |h'| && i != p ensures h'[Parent(i)].value <= h'[i].value {
      assert i != j ==> h[Parent(i)].value <= h[i].value;
    }
    forall i | 0 < i < |h'| && p > 0 && Parent(i) == p ensures h'[Parent(p)].value <= h'[i].value {
      assert h[Parent(p)].value <= h[p].value;
      assert i != j ==> h[p].value <= h[i].value;
    }
  }

  method Push(h0: seq<Item>, x: Item) returns (h: seq<Item>)
    requires Ordered(h0)
    ensures Ordered(h) && multiset(h) == multiset(h0) + multiset{x}
  {
    h := Up(h0 + [x], |h0|);
  }

  /** No item whose parent is not `but` is below its parent. */
  ghost predicate OrderedUnder(h: seq<Item>, but: nat) {
    && (forall i :: 0 < i < |h| && Parent(i) != but ==> h[Parent(i)].value <= h[i].value)
    && Bridged(h, but)
  }

  method Down(h0: seq<Item>) returns (h: seq<Item>)
    requires OrderedUnder(h0, 0)
    ensures Ordered(h) && multiset(h) == multiset(h0)
  {
    h := h0;
    var i := 0;
    while 2 * i + 1 < |h|
      invariant |h| == |h0| && OrderedUnder(h, i) && multiset(h) == multiset(h0)
      decreases |h| - i
    {
      var j := 2 * i + 1;
      if j + 1 < |h| && h[j + 1].value < h[j].value {
        j := j + 1;
      }
      DownStep(h, i, j);
      if h[j].value >= h[i].value {
        return;
      }
      SwapPermutes(h, i, j);
      h := Swapped(h, i, j);
      i := j;
    }
  }

  lemma DownStep(h: seq<Item>, i: nat, j: nat)
    requires 0 < j < |h| && Parent(j) == i && OrderedUnder(h, i)
    requires forall k :: 0 < k < |h| && Parent(k) == i ==> h[j].value <= h[k].value
    ensures h[j].value >= h[i].value ==> Ordered(h)
    ensures h[j].value < h[i].value ==> OrderedUnder(Swapped(h, i, j), j)
  {
    var h' := Swapped(h, i, j);
    if h[j].value < h[i].value {
      forall k | 0 < k < |h'| && Parent(k) != j ensures h'[Parent(k)].value <= h'[k].value {
        assert Parent(k) != i && k != i ==> h[Parent(k)].value <= h[k].value;
      }
      forall k | 0 < k < |h'| && Parent(k) == j ensures h'[Parent(j)].value <= h'[k].value {
        assert h[Parent(k)].value <= h[k].value;
      }
    }
  }

  /** Takes a least item out: the last one takes its place and sinks. */
  method Pop(h0: seq<Item>) returns (x: Item, h: seq<Item>)
    requires Ordered(h0) && h0 != []
    ensures x in h0 && (forall y :: y in h0 ==> x.value <= y.value)
    ensures Ordered(h) && multiset(h) == multiset(h0) - multiset{x}
  {
    forall i | 0 <= i < |h0| ensures h0[0].value <= h0[i].value {
      RootIsLeast(h0, i);
    }
    var last := |h0| - 1;
    x := h0[0];
    SwapPermutes(h0, 0, last);
    var s := Swapped(h0, 0, last);
    assert s == s[..last] + [x];
    h := s[..last];
    PopStep(h0);
    h := Down(h);
  }

  lemma PopStep(h: seq<Item>)
    requires Ordered(h) && h != []
    ensures OrderedUnder(Swapped(h, 0, |h| - 1)[..|h| - 1], 0)
  {
    var s := Swapped(h, 0, |h| - 1)[..|h| - 1];
    forall i | 0 < i < |s| && Parent(i) != 0 ensures s[Parent(i)].value <= s[i].value {
      assert h[Parent(i)].value <= h[i].value;
    }
  }
}
