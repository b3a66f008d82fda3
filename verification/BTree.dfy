/** The B+tree on the heap: nodes rewritten in place, leaves chained by `next`.
    Every method is proved to compute a function of `BPlusModel` on the value a
    node stands for. */
module BTree {
  import opened ByteStrings
  import opened BPlusModel
  import opened Sequences

  class Node {
    var leaf: bool
    var keys: seq<Str>
    var values: seq<Str>
    var children: seq<Node>
    var next: Node?

    constructor NewLeaf(keys: seq<Str>, values: seq<Str>, next: Node?)
      ensures leaf && this.keys == keys && this.values == values && this.next == next
    {
      leaf := true;
      this.keys, this.values, this.next := keys, values, next;
      children := [];
    }

    constructor NewInner(keys: seq<Str>, children: seq<Node>)
      ensures !leaf && this.keys == keys && this.children == children
    {
      leaf := false;
      this.keys, this.children := keys, children;
      values, next := [], null;
    }
  }

  /** Which nodes make up a subtree, and how they hang together. */
  datatype Shape = SLeaf(node: Node) | SInner(node: Node, kids: seq<Shape>)

  ghost function Roots(kids: seq<Shape>): (ns: seq<Node>)
    ensures |ns| == |kids| && forall i :: 0 <= i < |kids| ==> ns[i] == kids[i].node
  {
    seq(|kids|, i requires 0 <= i < |kids| => kids[i].node)
  }

  ghost function Nodes(s: Shape): (ns: set<Node>)
    ensures s.node in ns
    ensures s.SInner? ==> forall i :: 0 <= i < |s.kids| ==> Nodes(s.kids[i]) <= ns
  {
    match s
    case SLeaf(n) => {n}
    case SInner(n, kids) => {n} + set i, x | 0 <= i < |kids| && x in Nodes(kids[i]) :: x
  }

  ghost function First(s: Shape): (n: Node)
    ensures n in Nodes(s)
  {
    if s.SLeaf? || s.kids == [] then s.node else First(s.kids[0])
  }

  ghost function Last(s: Shape): (n: Node)
    ensures n in Nodes(s)
  {
    if s.SLeaf? || s.kids == [] then s.node else Last(s.kids[|s.kids| - 1])
  }

  /** No node occurs twice. */
  ghost predicate Proper(s: Shape) {
    s.SInner? ==>
      && (forall i :: 0 <= i < |s.kids| ==> Proper(s.kids[i]) && s.node !in Nodes(s.kids[i]))
      && (forall i, j :: 0 <= i < j < |s.kids| ==> Nodes(s.kids[i]) !! Nodes(s.kids[j]))
  }

  /** Pairs the parallel key and value lists of a leaf. */
  ghost function Zip(keys: seq<Str>, values: seq<Str>): (es: seq<Entry>)
    requires |keys| == |values|
    ensures |es| == |keys| && forall i :: 0 <= i < |es| ==> es[i] == Entry(keys[i], values[i])
  {
    seq(|keys|, i requires 0 <= i < |keys| => Entry(keys[i], values[i]))
  }

  /** The heap nodes of `s` represent the value `t`, and each subtree's last leaf
      is linked to the first leaf of the next subtree. */
  ghost predicate Rep(s: Shape, t: Tree)
    reads Nodes(s)
  {
    var n := s.node;
    match s
    case SLeaf(_) =>
      n.leaf && |n.keys| == |n.values| && t == Leaf(Zip(n.keys, n.values))
    case SInner(_, kids) =>
      && !n.leaf && t.Inner? && t.keys == n.keys
      && |n.children| == |n.keys| + 1 && n.children == Roots(kids)
      && |kids| == |t.kids|
      && (forall i :: 0 <= i < |kids| ==> Rep(kids[i], t.kids[i]))
      && (forall i :: 0 <= i < |kids| - 1 ==> Last(kids[i]).next == First(kids[i + 1]))
  }

  lemma {:induction false} NodesAllocated(s: Shape)
    ensures forall n :: n in Nodes(s) ==> allocated(n)
  {
    if s.SInner? {
      forall i | 0 <= i < |s.kids| ensures forall n :: n in Nodes(s.kids[i]) ==> allocated(n) {
        NodesAllocated(s.kids[i]);
      }
    }
  }

  /** Disjoint subtrees side by side below `n`, representing `ts`, each linked to
      the next and the last one to `succ`. */
  ghost predicate Family(n: Node, kids: seq<Shape>, ts: seq<Tree>, succ: Node?)
    reads Nodes(SInner(n, kids))
  {
    && 0 < |kids| == |ts| && Proper(SInner(n, kids))
    && (forall j :: 0 <= j < |kids| ==> Rep(kids[j], ts[j]))
    && (forall j :: 0 <= j < |kids| ==> Last(kids[j]).next == Successor(kids, j, succ))
  }

  /** The leaf that follows child `i`, given the leaf that follows them all. */
  ghost function Successor(kids: seq<Shape>, i: nat, succ: Node?): Node?
    requires i < |kids|
  {
    if i < |kids| - 1 then First(kids[i + 1]) else succ
  }

  lemma FamilyOfRep(n: Node, kids: seq<Shape>, t: Tree)
    requires Rep(SInner(n, kids), t) && Proper(SInner(n, kids))
    ensures Family(n, kids, t.kids, Last(SInner(n, kids)).next)
  {
  }

  lemma RepOfFamily(n: Node, kids: seq<Shape>, t: Tree, succ: Node?)
    requires t.Inner? && Family(n, kids, t.kids, succ)
    requires !n.leaf && n.keys == t.keys && n.children == Roots(kids) && |kids| == |n.keys| + 1
    ensures Rep(SInner(n, kids), t) && Last(SInner(n, kids)).next == succ
  {
  }

  /** A subtree and, when it split, its new right sibling. */
  datatype Shapes = S1(s: Shape) | S2(l: Shape, r: Shape)

  ghost function AllNodes(ss: Shapes): set<Node> {
    match ss
    case S1(s) => Nodes(s)
    case S2(l, r) => Nodes(l) + Nodes(r)
  }

  ghost function LastOf(ss: Shapes): (n: Node)
    ensures n in AllNodes(ss)
  {
    if ss.S1? then Last(ss.s) else Last(ss.r)
  }

  ghost function FirstOf(ss: Shapes): (n: Node)
    ensures n in AllNodes(ss)
  {
    if ss.S1? then First(ss.s) else First(ss.l)
  }

  ghost predicate ProperAll(ss: Shapes) {
    match ss
    case S1(s) => Proper(s)
    case S2(l, r) => Proper(l) && Proper(r) && Nodes(l) !! Nodes(r)
  }

  /** The outcome `o` of an insertion, as nodes: `n` itself, and `right` when it split. */
  ghost predicate RepOutcome(n: Node, promoted: Str, right: Node?, ss: Shapes, o: Outcome)
    reads AllNodes(ss)
  {
    match o
    case One(t) => ss.S1? && ss.s.node == n && right == null && Rep(ss.s, t)
    case Two(l, sep, r) =>
      && ss.S2? && ss.l.node == n && ss.r.node == right && promoted == sep
      && Rep(ss.l, l) && Rep(ss.r, r) && Last(ss.l).next == First(ss.r)
  }

  /** Child `i` replaced by what became of it. */
  ghost function Spliced(kids: seq<Shape>, i: nat, ss: Shapes): seq<Shape>
    requires i < |kids|
  {
    match ss
    case S1(s) => kids[i := s]
    case S2(l, r) => Doubled(kids, i, l, r)
  }

  lemma NodesOfSlice(n: Node, kids: seq<Shape>, m: Node, lo: nat, hi: nat)
    requires lo <= hi <= |kids|
    ensures Nodes(SInner(m, kids[lo..hi])) <= Nodes(SInner(n, kids)) + {m}
  {
    var part := kids[lo..hi];
    forall x | x in Nodes(SInner(m, part)) && x != m ensures x in Nodes(SInner(n, kids)) {
      var i :| 0 <= i < |part| && x in Nodes(part[i]);
      assert part[i] == kids[lo + i];
    }
  }

  /** The two halves of a split inner node share nothing. */
  lemma ProperHalves(n: Node, kids: seq<Shape>, k: nat, m: Node)
    requires Proper(SInner(n, kids)) && 0 < k < |kids| && m !in Nodes(SInner(n, kids))
    ensures var ss := S2(SInner(n, kids[..k]), SInner(m, kids[k..]));
            ProperAll(ss) && AllNodes(ss) <= Nodes(SInner(n, kids)) + {m}
  {
    NodesOfSlice(n, kids, n, 0, k);
    NodesOfSlice(n, kids, m, k, |kids|);
    HalvesDisjoint(n, kids, k, m);
  }

  lemma HalvesDisjoint(n: Node, kids: seq<Shape>, k: nat, m: Node)
    requires Proper(SInner(n, kids)) && 0 < k < |kids| && m !in Nodes(SInner(n, kids))
    ensures Nodes(SInner(n, kids[..k])) !! Nodes(SInner(m, kids[k..]))
  {
    NotInSlice(n, kids, k, m);
    forall x | x in Nodes(SInner(m, kids[k..])) ensures x !in Nodes(SInner(n, kids[..k])) {
      if x != m {
        var j := KidWith(m, kids[k..], x);
        NotInLeftHalf(n, kids, k, k + j, x);
      }
    }
  }

  lemma KidWith(n: Node, kids: seq<Shape>, x: Node) returns (j: nat)
    requires x in Nodes(SInner(n, kids)) && x != n
    ensures j < |kids| && x in Nodes(kids[j])
  {
    j :| 0 <= j < |kids| && x in Nodes(kids[j]);
  }

  lemma NotInSlice(n: Node, kids: seq<Shape>, k: nat, m: Node)
    requires k <= |kids| && m !in Nodes(SInner(n, kids))
    ensures m !in Nodes(SInner(n, kids[..k]))
  {
    NodesOfSlice(n, kids, n, 0, k);
    assert kids[..k] == kids[0..k];
  }

  lemma NotInLeftHalf(n: Node, kids: seq<Shape>, k: nat, j: nat, x: Node)
    requires Proper(SInner(n, kids)) && k <= j < |kids| && x in Nodes(kids[j])
    ensures x !in Nodes(SInner(n, kids[..k]))
  {
    forall i | 0 <= i < k ensures x !in Nodes(kids[..k][i]) {
      assert Nodes(kids[i]) !! Nodes(kids[j]);
    }
  }

  lemma EndsOfLeft(m: Node, kids: seq<Shape>, k: nat)
    requires 0 < k < |kids|
    ensures First(SInner(m, kids[..k])) == First(kids[0]) && Last(SInner(m, kids[..k])) == Last(kids[k - 1])
  {
    var part := kids[..k];
    EndsOfInner(m, part);
    assert part[0] == kids[0] && part[|part| - 1] == kids[k - 1];
  }

  lemma EndsOfRight(m: Node, kids: seq<Shape>, k: nat)
    requires 0 < k < |kids|
    ensures First(SInner(m, kids[k..])) == First(kids[k]) && Last(SInner(m, kids[k..])) == Last(kids[|kids| - 1])
  {
    var part := kids[k..];
    EndsOfInner(m, part);
    assert part[0] == kids[k] && part[|part| - 1] == kids[|kids| - 1];
  }

  lemma EndsOfInner(n: Node, kids: seq<Shape>)
    requires kids != []
    ensures First(SInner(n, kids)) == First(kids[0]) && Last(SInner(n, kids)) == Last(kids[|kids| - 1])
  {
  }

  lemma EndsOfSpliced(n: Node, kids: seq<Shape>, i: nat, ss: Shapes)
    requires i < |kids|
    ensures First(SInner(n, Spliced(kids, i, ss))) == if i == 0 then FirstOf(ss) else First(kids[0])
    ensures Last(SInner(n, Spliced(kids, i, ss))) == if i == |kids| - 1 then LastOf(ss) else Last(kids[|kids| - 1])
  {
    var kids' := Spliced(kids, i, ss);
    assert kids'[0] == if i > 0 then kids[0] else if ss.S1? then ss.s else ss.l;
    assert kids'[|kids'| - 1] == if i < |kids| - 1 then kids[|kids| - 1] else if ss.S1? then ss.s else ss.r;
  }

  /** Splicing in nodes that are new or came from the replaced child repeats nothing. */
  lemma ProperSpliced(n: Node, kids: seq<Shape>, i: nat, ss: Shapes)
    requires Proper(SInner(n, kids)) && i < |kids| && ProperAll(ss)
    requires (AllNodes(ss) - Nodes(kids[i])) !! Nodes(SInner(n, kids))
    ensures Proper(SInner(n, Spliced(kids, i, ss)))
    ensures Nodes(SInner(n, Spliced(kids, i, ss))) <= Nodes(SInner(n, kids)) + AllNodes(ss)
  {
    var kids' := Spliced(kids, i, ss);
    forall j | 0 <= j < |kids'|
      ensures Proper(kids'[j]) && n !in Nodes(kids'[j])
      ensures Nodes(kids'[j]) <= Nodes(SInner(n, kids)) + AllNodes(ss)
    {
    }
    forall j, k | 0 <= j < k < |kids'| ensures Nodes(kids'[j]) !! Nodes(kids'[k]) {
    }
  }

  lemma RootsOfHalves(kids: seq<Shape>, k: nat)
    requires k <= |kids|
    ensures Roots(kids[..k]) == Roots(kids)[..k] && Roots(kids[k..]) == Roots(kids)[k..]
  {
  }

  /** Subtrees side by side below a node with their roots make up a tree. */
  lemma RepJoined(n: Node, kids: seq<Shape>, ts: seq<Tree>)
    requires |kids| == |ts| && !n.leaf && |n.keys| + 1 == |kids| && n.children == Roots(kids)
    requires forall i :: 0 <= i < |kids| ==> Rep(kids[i], ts[i])
    requires forall i :: 0 <= i < |kids| - 1 ==> Last(kids[i]).next == First(kids[i + 1])
    ensures Rep(SInner(n, kids), Inner(n.keys, ts))
  {
  }

  /** Some of the children of a node, side by side. */
  lemma PartOfFamily(n: Node, kids: seq<Shape>, ts: seq<Tree>, succ: Node?, from: nat, end: nat)
    requires Family(n, kids, ts, succ) && from <= end <= |kids|
    ensures forall i :: 0 <= i < end - from ==> Rep(kids[from..end][i], ts[from..end][i])
    ensures forall i :: 0 <= i < end - from - 1 ==> Last(kids[from..end][i]).next == First(kids[from..end][i + 1])
  {
    forall i | 0 <= i < end - from ensures Rep(kids[from..end][i], ts[from..end][i]) {
      assert Rep(kids[from + i], ts[from + i]);
    }
    forall i | 0 <= i < end - from - 1 ensures Last(kids[from..end][i]).next == First(kids[from..end][i + 1]) {
      assert Last(kids[from + i]).next == Successor(kids, from + i, succ);
    }
  }

  /** After a split `n` represents the left half ... */
  lemma LeftHalf(n: Node, kids: seq<Shape>, ts: seq<Tree>, k: nat, succ: Node?)
    requires Family(n, kids, ts, succ) && 0 < k < |kids|
    requires !n.leaf && |n.keys| + 1 == k && n.children == Roots(kids)[..k]
    ensures Rep(SInner(n, kids[..k]), Inner(n.keys, ts[..k]))
  {
    RootsOfHalves(kids, k);
    PartOfFamily(n, kids, ts, succ, 0, k);
    assert kids[0..k] == kids[..k] && ts[0..k] == ts[..k];
    RepJoined(n, kids[..k], ts[..k]);
  }

  /** ... and the new node the right half. */
  lemma RightHalf(n: Node, m: Node, kids: seq<Shape>, ts: seq<Tree>, k: nat, succ: Node?)
    requires Family(n, kids, ts, succ) && 0 < k < |kids|
    requires !m.leaf && |m.keys| + 1 == |kids| - k && m.children == Roots(kids)[k..]
    ensures Rep(SInner(m, kids[k..]), Inner(m.keys, ts[k..]))
  {
    RootsOfHalves(kids, k);
    PartOfFamily(n, kids, ts, succ, k, |kids|);
    assert kids[k..|kids|] == kids[k..] && ts[k..|kids|] == ts[k..];
    RepJoined(m, kids[k..], ts[k..]);
  }

  /** The halves are linked to each other and to what follows. */
  lemma HalvesLinked(n: Node, m: Node, kids: seq<Shape>, ts: seq<Tree>, k: nat, succ: Node?)
    requires Family(n, kids, ts, succ) && 0 < k < |kids|
    ensures Last(SInner(n, kids[..k])).next == First(SInner(m, kids[k..]))
    ensures First(SInner(n, kids[..k])) == First(SInner(n, kids)) && Last(SInner(m, kids[k..])).next == succ
  {
    EndsOfInner(n, kids);
    EndsOfLeft(n, kids, k);
    EndsOfRight(m, kids, k);
    assert Last(kids[k - 1]).next == Successor(kids, k - 1, succ);
    assert Last(kids[|kids| - 1]).next == Successor(kids, |kids| - 1, succ);
  }

  /** The state a split leaves is the outcome `SplitInner` promises. */
  lemma SplitState(n: Node, m: Node, kids: seq<Shape>, t: Tree, k: nat, succ: Node?) returns (ss: Shapes)
    requires t.Inner? && 2 <= |t.keys| == |t.kids| - 1 && k == |t.keys| / 2 + 1
    requires Family(n, kids, t.kids, succ) && m !in Nodes(SInner(n, kids))
    requires !n.leaf && n.keys == t.keys[..k - 1] && n.children == Roots(kids)[..k]
    requires !m.leaf && m.keys == t.keys[k..] && m.children == Roots(kids)[k..]
    ensures RepOutcome(n, t.keys[k - 1], m, ss, HalvedInner(t.keys, t.kids))
    ensures ProperAll(ss) && AllNodes(ss) <= Nodes(SInner(n, kids)) + {m}
    ensures FirstOf(ss) == First(SInner(n, kids)) && LastOf(ss).next == succ
  {
    var l, r := SInner(n, kids[..k]), SInner(m, kids[k..]);
    var o := HalvedInner(t.keys, t.kids);
    ss := S2(l, r);
    assert Rep(l, o.left) by { LeftHalf(n, kids, t.kids, k, succ); }
    assert Rep(r, o.right) by { RightHalf(n, m, kids, t.kids, k, succ); }
    assert ProperAll(ss) && AllNodes(ss) <= Nodes(SInner(n, kids)) + {m} by { ProperHalves(n, kids, k, m); }
    HalvesLinked(n, m, kids, t.kids, k, succ);
  }

  lemma OthersApart(n: Node, kids: seq<Shape>, i: nat)
    requires Proper(SInner(n, kids)) && i < |kids|
    ensures n !in Nodes(kids[i]) && Nodes(kids[i]) <= Nodes(SInner(n, kids))
    ensures forall j :: 0 <= j < |kids| && j != i ==> Nodes(kids[j]) <= Nodes(SInner(n, kids)) - Nodes(kids[i])
    ensures forall j :: 0 <= j < |kids| && j != i ==> Last(kids[j]) in Nodes(SInner(n, kids)) - Nodes(kids[i])
  {
  }

  lemma RootsSpliced(kids: seq<Shape>, i: nat, ss: Shapes)
    requires i < |kids| && (if ss.S1? then ss.s.node else ss.l.node) == kids[i].node
    ensures Roots(Spliced(kids, i, ss)) ==
      if ss.S1? then Roots(kids) else Roots(kids)[..i + 1] + [ss.r.node] + Roots(kids)[i + 1..]
  {
  }

  /** The children's values after child `i` took an insertion with outcome `o`. */
  ghost function SplicedTrees(ts: seq<Tree>, i: nat, o: Outcome): seq<Tree>
    requires i < |ts|
  {
    match o
    case One(t) => ts[i := t]
    case Two(l, _, r) => Doubled(ts, i, l, r)
  }

  /** An inner node's value with its child's outcome put in, before it splits in turn. */
  ghost function Widened(t: Tree, i: nat, o: Outcome): Tree
    requires t.Inner? && i < |t.kids| == |t.keys| + 1
  {
    Inner(if o.One? then t.keys else t.keys[..i] + [o.sep] + t.keys[i..], SplicedTrees(t.kids, i, o))
  }

  /** What an inner node becomes once its child's outcome is put in. */
  ghost function Settled(t: Tree, split: bool): Outcome
    requires t.Inner? && |t.kids| == |t.keys| + 1
  {
    if split && |t.keys| >= ORDER then HalvedInner(t.keys, t.kids) else One(t)
  }

  lemma InsertedIsSettled(t: Tree, k: Str, v: Str, i: nat, o: Outcome)
    requires t.Inner? && Wf(t) && i == ChildIndex(t.keys, k) && o == Inserted(t.kids[i], k, v)
    ensures var t' := Widened(t, i, o);
            t'.Inner? && |t'.kids| == |t'.keys| + 1 && Inserted(t, k, v) == Settled(t', o.Two?)
  {
  }

  /** Child `j` after splicing: an old child with its old successor, or part of `ss`. */
  lemma SplicedAt(kids: seq<Shape>, ts: seq<Tree>, i: nat, ss: Shapes, o: Outcome, succ: Node?, j: nat)
    requires i < |kids| == |ts| && FirstOf(ss) == First(kids[i]) && (ss.S1? <==> o.One?)
    requires j < |Spliced(kids, i, ss)|
    ensures |SplicedTrees(ts, i, o)| == |Spliced(kids, i, ss)|
    ensures var kids', ts', k := Spliced(kids, i, ss), SplicedTrees(ts, i, o), if ss.S1? then 0 else 1;
            if j < i then
              kids'[j] == kids[j] && ts'[j] == ts[j] && Successor(kids', j, succ) == Successor(kids, j, succ)
            else if j > i + k then
              kids'[j] == kids[j - k] && ts'[j] == ts[j - k] &&
                  Successor(kids', j, succ) == Successor(kids, j - k, succ)
            else if ss.S1? then
              kids'[j] == ss.s && ts'[j] == o.tree && Successor(kids', j, succ) == Successor(kids, i, succ)
            else if j == i then
              kids'[j] == ss.l && ts'[j] == o.left && Successor(kids', j, succ) == First(ss.r)
            else
              kids'[j] == ss.r && ts'[j] == o.right && Successor(kids', j, succ) == Successor(kids, i, succ)
  {
    if ss.S2? {
      DoubledAt(kids, i, ss.l, ss.r, j);
      DoubledAt(ts, i, o.left, o.right, j);
      if j < |kids| {
        DoubledAt(kids, i, ss.l, ss.r, j + 1);
      }
    }
  }

  /** A family in which child `i` became `ss` and the others stayed as they were. */
  lemma FamilySpliced(n: Node, kids: seq<Shape>, ts: seq<Tree>, i: nat, promoted: Str, right: Node?, ss: Shapes,
      o: Outcome, succ: Node?)
    requires Proper(SInner(n, kids)) && i < |kids| == |ts|
    requires forall j :: 0 <= j < |kids| && j != i ==>
      Rep(kids[j], ts[j]) && Last(kids[j]).next == Successor(kids, j, succ)
    requires RepOutcome(kids[i].node, promoted, right, ss, o) && ProperAll(ss)
    requires (AllNodes(ss) - Nodes(kids[i])) !! Nodes(SInner(n, kids))
    requires FirstOf(ss) == First(kids[i]) && LastOf(ss).next == Successor(kids, i, succ)
    ensures Family(n, Spliced(kids, i, ss), SplicedTrees(ts, i, o), succ)
  {
    ProperSpliced(n, kids, i, ss);
    var kids', ts' := Spliced(kids, i, ss), SplicedTrees(ts, i, o);
    forall j | 0 <= j < |kids'|
      ensures Rep(kids'[j], ts'[j]) && Last(kids'[j]).next == Successor(kids', j, succ)
    {
      SplicedAt(kids, ts, i, ss, o, succ, j);
    }
  }

  /** What the parent of a child that took an insertion may rely on. */
  lemma AfterChild(n: Node, kids: seq<Shape>, ts: seq<Tree>, i: nat, promoted: Str, right: Node?, ss: Shapes,
      o: Outcome, succ: Node?)
    requires Proper(SInner(n, kids)) && i < |kids| == |ts|
    requires forall j :: 0 <= j < |kids| && j != i ==>
      Rep(kids[j], ts[j]) && Last(kids[j]).next == Successor(kids, j, succ)
    requires RepOutcome(kids[i].node, promoted, right, ss, o) && ProperAll(ss)
    requires (AllNodes(ss) - Nodes(kids[i])) !! Nodes(SInner(n, kids))
    requires FirstOf(ss) == First(kids[i]) && LastOf(ss).next == Successor(kids, i, succ)
    ensures var kids' := Spliced(kids, i, ss);
            && Family(n, kids', SplicedTrees(ts, i, o), succ)
            && Nodes(SInner(n, kids')) <= Nodes(SInner(n, kids)) + AllNodes(ss)
            && First(SInner(n, kids')) == First(SInner(n, kids))
            && Roots(kids') ==
              if right == null then Roots(kids) else Roots(kids)[..i + 1] + [right] + Roots(kids)[i + 1..]
  {
    FamilySpliced(n, kids, ts, i, promoted, right, ss, o, succ);
    ProperSpliced(n, kids, i, ss);
    EndsOfSpliced(n, kids, i, ss);
    RootsSpliced(kids, i, ss);
  }

  // -------------------------------------------------------------- the leaf chain

  /** The leaf nodes, left to right. */
  ghost function LeafNodes(s: Shape): seq<Node>
    decreases s, 1
  {
    match s
    case SLeaf(n) => [n]
    case SInner(n, kids) => LeafNodesAll(kids)
  }

  ghost function LeafNodesAll(kids: seq<Shape>): seq<Node>
    decreases kids, 0
  {
    if kids == [] then [] else LeafNodes(kids[0]) + LeafNodesAll(kids[1..])
  }

  /** `ns` are leaves holding `ls`, each pointing at the next. */
  ghost predicate Chain(ns: seq<Node>, ls: seq<seq<Entry>>)
    reads ns
  {
    && |ns| == |ls| > 0
    && (forall i :: 0 <= i < |ns| ==>
      ns[i].leaf && |ns[i].keys| == |ns[i].values| && ls[i] == Zip(ns[i].keys, ns[i].values))
    && (forall i :: 0 <= i < |ns| - 1 ==> ns[i].next == ns[i + 1])
  }

  /** Node j of a chain; null past its end. */
  ghost function NodeAt(ns: seq<Node>, j: nat): Node? {
    if j < |ns| then ns[j] else null
  }

  /** The links kept node by node make the whole leaf level one chain. */
  lemma {:induction false} LeavesAreChained(s: Shape, t: Tree)
    requires Rep(s, t)
    ensures Chain(LeafNodes(s), Leaves(t))
    ensures LeafNodes(s)[0] == First(s) && LeafNodes(s)[|LeafNodes(s)| - 1] == Last(s)
    decreases s, 1
  {
    if s.SInner? { KidsAreChained(s.kids, t.kids); }
  }

  lemma {:induction false} KidsAreChained(kids: seq<Shape>, ts: seq<Tree>)
    requires 0 < |kids| == |ts|
    requires forall i :: 0 <= i < |kids| ==> Rep(kids[i], ts[i])
    requires forall i :: 0 <= i < |kids| - 1 ==> Last(kids[i]).next == First(kids[i + 1])
    ensures Chain(LeafNodesAll(kids), LeavesAll(ts))
    ensures LeafNodesAll(kids)[0] == First(kids[0])
    ensures LeafNodesAll(kids)[|LeafNodesAll(kids)| - 1] == Last(kids[|kids| - 1])
    decreases kids, 0
  {
    LeavesAreChained(kids[0], ts[0]);
    if |kids| > 1 {
      KidsAreChained(kids[1..], ts[1..]);
    }
  }

  /** The leaf node a descent for `k` reaches. */
  ghost function Target(s: Shape, t: Tree, k: Str): Node
    requires Rep(s, t) && Wf(t)
    reads Nodes(s)
  {
    if s.SLeaf? then s.node
    else
      var i := ChildIndex(t.keys, k);
      Target(s.kids[i], t.kids[i], k)
  }

  lemma {:induction false} TargetIsAtLeafIndex(s: Shape, t: Tree, k: Str)
    requires Rep(s, t) && Wf(t)
    ensures LeafIndex(t, k) < |LeafNodes(s)| && LeafNodes(s)[LeafIndex(t, k)] == Target(s, t, k)
  {
    if s.SInner? {
      var i := ChildIndex(t.keys, k);
      TargetIsAtLeafIndex(s.kids[i], t.kids[i], k);
      LeafCounts(s.kids, t.kids, i);
      LeafOfChild(s.kids, i, LeafIndex(t.kids[i], k));
    }
  }

  lemma LeafOfChild(kids: seq<Shape>, i: nat, j: nat)
    requires i < |kids| && j < |LeafNodes(kids[i])|
    ensures var n := |LeafNodesAll(kids[..i])| + j;
            n < |LeafNodesAll(kids)| && LeafNodesAll(kids)[n] == LeafNodes(kids[i])[j]
  {
    var a, b, c := LeafNodesAll(kids[..i]), LeafNodes(kids[i]), LeafNodesAll(kids[i + 1..]);
    LeafNodesAround(kids, i);
    InMiddle(a, b, c, j);
  }

  /** As many leaf nodes left of child `i` as leaves in the value. */
  lemma LeafCounts(kids: seq<Shape>, ts: seq<Tree>, i: nat)
    requires i < |kids| == |ts|
    requires forall j :: 0 <= j < |kids| ==> Rep(kids[j], ts[j])
    requires forall j :: 0 <= j < |kids| - 1 ==> Last(kids[j]).next == First(kids[j + 1])
    ensures |LeafNodesAll(kids[..i])| == |LeavesAll(ts[..i])|
  {
    if i > 0 { KidsAreChained(kids[..i], ts[..i]); }
  }

  lemma {:induction false} LeafNodesAround(kids: seq<Shape>, i: nat)
    requires i < |kids|
    ensures LeafNodesAll(kids) == LeafNodesAll(kids[..i]) + LeafNodes(kids[i]) + LeafNodesAll(kids[i + 1..])
  {
    if i == 0 {
    } else {
      var rest := kids[1..];
      LeafNodesAround(rest, i - 1);
      assert kids[..i][1..] == rest[..i - 1] && kids[..i][0] == kids[0];
      assert rest[i..] == kids[i + 1..] && rest[i - 1] == kids[i];
    }
  }

  /** `k=v`, as a range scan reports a pair. */
  function Shown(e: Entry): Str { e.key + [61] + e.value }

  function ShownAll(es: seq<Entry>): (r: seq<Str>)
    ensures |r| == |es|
  {
    seq(|es|, i requires 0 <= i < |es| => Shown(es[i]))
  }

  /** What a range scan shows, as the keys and values of the map. */
  lemma RangeShows(es: seq<Entry>, m: map<Str, Str>, lo: Str, hi: Str)
    requires Represents(es, m)
    ensures var ks, out := KeysOf(InRange(es, lo, hi)), ShownAll(InRange(es, lo, hi));
            && (forall i, j :: 0 <= i < j < |ks| ==> Less(ks[i], ks[j]))
            && (forall k :: k in ks <==> k in m && !Less(k, lo) && !Less(hi, k))
            && |out| == |ks| && (forall i :: 0 <= i < |ks| ==> ks[i] in m && out[i] == ks[i] + [61] + m[ks[i]])
  {
    var part := InRange(es, lo, hi);
    InRangeRepresents(es, m, lo, hi);
    KeysAreListed(part, RangeOf(m, lo, hi));
  }

  /** Editing the parallel lists at the index found is `PutInLeaf` on the pairs. */
  lemma LeafEdit(keys: seq<Str>, values: seq<Str>, es: seq<Entry>, k: Str, v: Str)
    requires |keys| == |values| && es == Zip(keys, values)
    ensures var i := Search(keys, k);
            if i < |keys| && keys[i] == k then Zip(keys, values[i := v]) == PutInLeaf(es, k, v)
            else Zip(keys[..i] + [k] + keys[i..], values[..i] + [v] + values[i..]) == PutInLeaf(es, k, v)
  {
    SearchEntriesIsSearch(es, k);
    assert KeysOf(es) == keys;
    ZipEdit(keys, values, Search(keys, k), k, v);
  }

  lemma ZipEdit(keys: seq<Str>, values: seq<Str>, i: nat, k: Str, v: Str)
    requires i <= |keys| == |values|
    ensures i < |keys| && keys[i] == k ==> Zip(keys, values[i := v]) == Zip(keys, values)[i := Entry(k, v)]
    ensures Zip(keys[..i] + [k] + keys[i..], values[..i] + [v] + values[i..]) ==
      Zip(keys, values)[..i] + [Entry(k, v)] + Zip(keys, values)[i..]
  {
  }

  /** What a scan reports for the first j leaves. */
  function Shows(ls: seq<seq<Entry>>, j: nat, lo: Str, hi: Str): seq<Str>
    requires j <= |ls|
  {
    if j == 0 then [] else Shows(ls, j - 1, lo, hi) + ShownAll(InRange(ls[j - 1], lo, hi))
  }

  lemma {:induction false} ShowsUpto(ls: seq<seq<Entry>>, j: nat, lo: Str, hi: Str)
    requires j <= |ls|
    ensures Shows(ls, j, lo, hi) == ShownAll(InRange(Upto(ls, j), lo, hi))
  {
    if j == 0 {
    } else {
      ShowsUpto(ls, j - 1, lo, hi);
      ShownOneLeaf(Shows(ls, j - 1, lo, hi), Upto(ls, j - 1), ls[j - 1], lo, hi);
    }
  }

  lemma ShownOneLeaf(shown: seq<Str>, a: seq<Entry>, b: seq<Entry>, lo: Str, hi: Str)
    requires shown == ShownAll(InRange(a, lo, hi))
    ensures shown + ShownAll(InRange(b, lo, hi)) == ShownAll(InRange(a + b, lo, hi))
  {
    InRangeAppend(a, b, lo, hi);
    ShownAppend(InRange(a, lo, hi), InRange(b, lo, hi));
  }

  lemma ShownAppend(a: seq<Entry>, b: seq<Entry>)
    ensures ShownAll(a + b) == ShownAll(a) + ShownAll(b)
  {
  }

  lemma ShowsAll(ls: seq<seq<Entry>>, lo: Str, hi: Str)
    ensures Shows(ls, |ls|, lo, hi) == ShownAll(InRange(Concat(ls), lo, hi))
  {
    ShowsUpto(ls, |ls|, lo, hi);
    UptoAll(ls);
  }

  /** Leaves whose keys are all below the range report nothing. */
  lemma ShowsNone(ls: seq<seq<Entry>>, j: nat, lo: Str, hi: Str)
    requires j <= |ls| && Below(Upto(ls, j), lo)
    ensures Shows(ls, j, lo, hi) == []
  {
    ShowsUpto(ls, j, lo, hi);
    InRangeOutside(Upto(ls, j), lo, hi);
  }

  ghost predicate EndsIn(es: seq<Entry>, hi: Str) {
    exists i :: 0 <= i < |es| && Less(hi, es[i].key)
  }

  /** After a leaf with a key past the range there is nothing more to report. */
  lemma ShowsNoMore(ls: seq<seq<Entry>>, j: nat, lo: Str, hi: Str)
    requires j < |ls| && Sorted(Concat(ls)) && EndsIn(ls[j], hi)
    ensures Shows(ls, |ls|, lo, hi) == Shows(ls, j + 1, lo, hi)
  {
    var seen, rest := Upto(ls, j + 1), Concat(ls[j + 1..]);
    UptoIsConcat(ls, j + 1);
    ConcatCut(ls, j + 1);
    RestIsAbove(Upto(ls, j), ls[j], rest, hi);
    InRangeAppend(seen, rest, lo, hi);
    InRangeOutside(rest, lo, hi);
    NothingAdded(InRange(seen, lo, hi));
    ShowsAll(ls, lo, hi);
    ShowsUpto(ls, j + 1, lo, hi);
  }

  lemma RestIsAbove(before: seq<Entry>, es: seq<Entry>, rest: seq<Entry>, hi: Str)
    requires Sorted(before + es + rest) && EndsIn(es, hi)
    ensures Above(rest, hi)
  {
    var all := before + es + rest;
    var i :| 0 <= i < |es| && Less(hi, es[i].key);
    forall k | 0 <= k < |rest| ensures Less(hi, rest[k].key) {
      assert all[|before| + i] == es[i] && all[|before| + |es| + k] == rest[k];
    }
  }

  /** What a scan adds for one more pair of a leaf. */
  lemma ShowsOneMore(es: seq<Entry>, i: nat, lo: Str, hi: Str)
    requires i < |es|
    ensures ShownAll(InRange(es[..i + 1], lo, hi)) ==
      ShownAll(InRange(es[..i], lo, hi)) + if Within(es[i].key, lo, hi) then [Shown(es[i])] else []
  {
    assert es[..i + 1] == es[..i] + [es[i]];
    InRangeAppend(es[..i], [es[i]], lo, hi);
    assert [es[i]][1..] == [];
    ShownAppend(InRange(es[..i], lo, hi), OnlyWithin(es[i], lo, hi));
  }

  /** Past the first key above the range the rest of a leaf adds nothing. */
  lemma ShowsRestNot(es: seq<Entry>, i: nat, lo: Str, hi: Str)
    requires Sorted(es) && i < |es| && Less(hi, es[i].key)
    ensures InRange(es, lo, hi) == InRange(es[..i], lo, hi)
  {
    assert es == es[..i] + es[i..];
    InRangeAppend(es[..i], es[i..], lo, hi);
    assert Above(es[i..], hi);
    InRangeOutside(es[i..], lo, hi);
  }

  /** A leaf of a sorted chain is sorted. */
  lemma LeafIsSorted(ls: seq<seq<Entry>>, j: nat)
    requires j < |ls| && Sorted(Concat(ls))
    ensures Sorted(ls[j])
  {
    UptoIsConcat(ls, j + 1);
    ConcatCut(ls, j + 1);
    SortedParts(Upto(ls, j + 1), Concat(ls[j + 1..]));
    SortedParts(Upto(ls, j), ls[j]);
  }

  /** Two subtrees side by side below a new node. */
  lemma PairOf(n: Node, l: Shape, r: Shape)
    requires ProperAll(S2(l, r)) && n !in Nodes(l) + Nodes(r)
    ensures var s := SInner(n, [l, r]);
            && Proper(s) && Last(s) == Last(r) && Nodes(s) == {n} + Nodes(l) + Nodes(r)
            && Roots(s.kids) == [l.node, r.node]
  {
    var kids := [l, r];
    assert kids[0] == l && kids[1] == r;
  }

  /** The nodes of `s` form a whole tree: a balanced search tree holding exactly `m`. */
  ghost predicate Represented(root: Node, s: Shape, t: Tree, m: map<Str, Str>)
    reads Nodes(s)
  {
    s.node == root && Rep(s, t) && Proper(s) && Last(s).next == null && Holds(t, m)
  }

  class BPlusTree {
    var root: Node
    var size: nat
    ghost var shape: Shape
    ghost var model: Tree
    ghost var contents: map<Str, Str>

    /** The nodes represent a balanced search tree holding exactly `contents`. */
    ghost predicate Valid()
      reads this, Nodes(shape)
    {
      Represented(root, shape, model, contents) && size == |Flat(model)|
    }

    constructor ()
      ensures Valid() && fresh(Nodes(shape)) && contents == map[]
    {
      root := new Node.NewLeaf([], [], null);
      size := 0;
      contents := map[];
      model := Leaf([]);
      shape := SLeaf(root);
    }

    /** Updates the map; the tree value becomes `PutRoot` of the old one. */
    method Put(key: Str, value: Str)
      requires Valid()
      modifies this, Nodes(shape)
      ensures Valid() && forall x :: x in Nodes(shape) ==> x in old(Nodes(shape)) || fresh(x)
      ensures contents == old(contents)[key := value]
      ensures model == PutRoot(old(model), key, value)
    {
      ghost var m := contents[key := value];
      assert Holds(PutRoot(model, key, value), m) by {
        PutRootCorrect(model, contents, key, value);
      }
      ghost var s, t;
      var node;
      node, s, t := PutUnder(root, key, value, shape, model);
      SetRoot(node, s, t, m);
    }

    /** Takes a node and what it represents as the new root. */
    method SetRoot(node: Node, ghost s: Shape, ghost t: Tree, ghost m: map<Str, Str>)
      requires Represented(node, s, t, m) && size == |Flat(t)|
      modifies this
      ensures Valid() && shape == s && model == t && contents == m
    {
      NodesAllocated(s);
      root := node;
      Become(s, t, m);
    }

    /** From here on the tree stands for these. */
    ghost method Become(s: Shape, t: Tree, m: map<Str, Str>)
      requires Represented(root, s, t, m) && size == |Flat(t)|
      modifies this`shape, this`model, this`contents
      ensures Valid() && shape == s && model == t && contents == m
    {
      NodesAllocated(s);
      shape, model, contents := s, t, m;
    }

    /** `Put` below a root; the node returned is the new root. */
    method PutUnder(n: Node, key: Str, value: Str, ghost s: Shape, ghost t: Tree)
      returns (node: Node, ghost s': Shape, ghost t': Tree)
      requires s.node == n && Rep(s, t) && Proper(s) && Wf(t) && FitsRoot(t, HeightOf(t))
      modifies Nodes(s), `size
      ensures t' == PutRoot(t, key, value) && s'.node == node && Rep(s', t') && Proper(s')
      ensures Last(s').next == old(Last(s).next) && forall x :: x in Nodes(s') ==> x in Nodes(s) || fresh(x)
      ensures size == old(size) + |Flat(t')| - |Flat(t)|
    {
      ghost var o, ss := Inserted(t, key, value), S1(s);
      t' := PutRoot(t, key, value);
      assert |Flat(t')| == |Flat(t)| + Growth(t, key) by {
        PutRootFlat(t, key, value);
        GrowthIsSizeChange(t, key, value);
      }
      var promoted, right;
      promoted, right, ss := Insert(n, key, value, s, t, Last(s).next);
      if right == null {
        assert t' == o.tree && Rep(ss.s, t');
        return n, ss.s, t';
      }
      assert t' == Inner([promoted], [o.left, o.right]);
      node := NewRoot(promoted, n, right, ss.l, ss.r, o.left, o.right);
      s' := SInner(node, [ss.l, ss.r]);
      assert Rep(s', t');
    }

    /** A root over the two halves of the old one. */
    method NewRoot(promoted: Str, left: Node, right: Node, ghost ls: Shape, ghost rs: Shape, ghost l: Tree,
        ghost r: Tree)
      returns (node: Node)
      requires ls.node == left && rs.node == right && Rep(ls, l) && Rep(rs, r)
      requires ProperAll(S2(ls, rs)) && Last(ls).next == First(rs)
      ensures fresh(node) && Rep(SInner(node, [ls, rs]), Inner([promoted], [l, r]))
      ensures Proper(SInner(node, [ls, rs])) && Last(SInner(node, [ls, rs])) == Last(rs)
      ensures Nodes(SInner(node, [ls, rs])) == {node} + Nodes(ls) + Nodes(rs)
      ensures Last(rs).next == old(Last(rs).next)
    {
      NodesAllocated(ls);
      NodesAllocated(rs);
      node := new Node.NewInner([promoted], [left, right]);
      PairOf(node, ls, rs);
    }

    method Get(key: Str) returns (value: Str, found: bool)
      requires Valid()
      ensures found <==> key in contents
      ensures found ==> value == contents[key]
    {
      LookupIsMapLookup(model, contents, key);
      var n := root;
      ghost var s, t := shape, model;
      while !n.leaf
        invariant s.node == n && Rep(s, t) && Wf(t)
        invariant Lookup(t, key) == Lookup(model, key)
        decreases s
      {
        var i := ChildIndex(n.keys, key);
        n := n.children[i];
        s, t := s.kids[i], t.kids[i];
      }
      SearchEntriesIsSearch(t.entries, key);
      assert KeysOf(t.entries) == n.keys;
      var i := Search(n.keys, key);
      if i < |n.keys| && n.keys[i] == key {
        return n.values[i], true;
      }
      return [], false;
    }

    /** The number of levels, read off the leftmost path. */
    method Height() returns (h: nat)
      requires Valid()
      ensures h == HeightOf(model)
      ensures h >= 2 ==> Pow(2, h) <= |contents|
      ensures |contents| <= 3 * Pow(4, h - 1)
    {
      h := 1;
      var n := root;
      ghost var s, t := shape, model;
      while !n.leaf
        invariant s.node == n && Rep(s, t)
        invariant h + HeightOf(t) == 1 + HeightOf(model)
        decreases s
      {
        h := h + 1;
        n := n.children[0];
        s, t := s.kids[0], t.kids[0];
      }
      HeightBounds(model, contents);
    }

    /** All keys, by walking the leaf chain. */
    method Keys() returns (out: seq<Str>)
      requires Valid()
      ensures out == KeysOf(Flat(model)) && |out| == |contents|
      ensures forall i, j :: 0 <= i < j < |out| ==> Less(out[i], out[j])
      ensures forall k :: k in out <==> k in contents
    {
      KeysAreListed(Flat(model), contents);
      var n := root;
      ghost var s, t := shape, model;
      while !n.leaf
        invariant s.node == n && Rep(s, t) && First(s) == First(shape)
        decreases s
      {
        n := n.children[0];
        s, t := s.kids[0], t.kids[0];
      }
      out := KeysFrom(n, shape, model);
    }

    method KeysFrom(n: Node, ghost s: Shape, ghost t: Tree) returns (out: seq<Str>)
      requires Rep(s, t) && n == First(s) && Last(s).next == null
      ensures out == KeysOf(Flat(t))
    {
      LeavesAreChained(s, t);
      LeavesAreFlat(t);
      out := ScanKeys(n, LeafNodes(s), Leaves(t));
    }

    method ScanKeys(n: Node, ghost ns: seq<Node>, ghost ls: seq<seq<Entry>>) returns (out: seq<Str>)
      requires Chain(ns, ls) && n == ns[0] && ns[|ns| - 1].next == null
      ensures out == KeysOf(Concat(ls))
    {
      ghost var j: nat := 0;
      out := [];
      var leaf: Node? := n;
      while leaf != null
        invariant j <= |ns| && leaf == NodeAt(ns, j)
        invariant out == KeysOf(Upto(ls, j))
        decreases |ns| - j
      {
        assert leaf == ns[j] && leaf.keys == KeysOf(ls[j]);
        out := out + leaf.keys;
        leaf := leaf.next;
        j := j + 1;
      }
      UptoAll(ls);
    }

    /** All pairs with start <= key <= end, each once and in order: one descent, then
        the leaf chain. */
    method Range(start: Str, end: Str) returns (out: seq<Str>, ghost ks: seq<Str>)
      requires Valid()
      ensures forall i, j :: 0 <= i < j < |ks| ==> Less(ks[i], ks[j])
      ensures forall k :: k in ks <==> k in contents && !Less(k, start) && !Less(end, k)
      ensures |out| == |ks|
      ensures forall i :: 0 <= i < |ks| ==> ks[i] in contents && out[i] == ks[i] + [61] + contents[ks[i]]
    {
      RangeShows(Flat(model), contents, start, end);
      ks := KeysOf(InRange(Flat(model), start, end));
      var n := root;
      ghost var s, t := shape, model;
      while !n.leaf
        invariant s.node == n && Rep(s, t) && Wf(t)
        invariant Target(s, t, start) == Target(shape, model, start)
        decreases s
      {
        var i := ChildIndex(n.keys, start);
        n := n.children[i];
        s, t := s.kids[i], t.kids[i];
      }
      ghost var ns, ls := LeafNodes(shape), Leaves(model);
      assert Chain(ns, ls) && ns[|ns| - 1] == Last(shape) by {
        LeavesAreChained(shape, model);
      }
      assert Concat(ls) == Flat(model) && Sorted(Flat(model)) by {
        LeavesAreFlat(model);
      }
      TargetIsAtLeafIndex(shape, model, start);
      LeafIndexSkipsSmaller(model, start);
      UptoIsConcat(ls, LeafIndex(model, start));
      ShowsNone(ls, LeafIndex(model, start), start, end);
      ShowsAll(ls, start, end);
      out := ScanRange(n, start, end, ns, ls, LeafIndex(model, start));
    }

    method ScanRange(n: Node, start: Str, end: Str, ghost ns: seq<Node>, ghost ls: seq<seq<Entry>>, ghost first: nat)
      returns (out: seq<Str>)
      requires Chain(ns, ls) && first < |ns| && n == ns[first] && ns[|ns| - 1].next == null
      requires Sorted(Concat(ls)) && Shows(ls, first, start, end) == []
      ensures out == Shows(ls, |ls|, start, end)
    {
      ghost var j := first;
      out := [];
      var leaf: Node? := n;
      while leaf != null
        invariant Chain(ns, ls) && ns[|ns| - 1].next == null
        invariant j <= |ns| && leaf == NodeAt(ns, j)
        invariant out == Shows(ls, j, start, end)
        decreases |ns| - j
      {
        var done;
        out, done, leaf := ScanNode(leaf, start, end, out, ns, ls, j);
        if done {
          return;
        }
        j := j + 1;
      }
    }

    /** One leaf of the chain, and the next. */
    method ScanNode(leaf: Node, start: Str, end: Str, sofar: seq<Str>,
                    ghost ns: seq<Node>, ghost ls: seq<seq<Entry>>, ghost j: nat)
      returns (out: seq<Str>, done: bool, next: Node?)
      requires Chain(ns, ls) && ns[|ns| - 1].next == null && j < |ns| && leaf == NodeAt(ns, j) && Sorted(Concat(ls))
      requires sofar == Shows(ls, j, start, end)
      ensures out == Shows(ls, if done then |ls| else j + 1, start, end) && next == NodeAt(ns, j + 1)
    {
      LeafIsSorted(ls, j);
      next := leaf.next;
      out, done := ScanLeaf(leaf.keys, leaf.values, start, end, sofar, ls[j]);
      if done {
        ShowsNoMore(ls, j, start, end);
      }
    }

    /** Adds the pairs of one leaf; stops for good at the first key past `end`. */
    method ScanLeaf(keys: seq<Str>, values: seq<Str>, start: Str, end: Str, sofar: seq<Str>, ghost es: seq<Entry>)
      returns (out: seq<Str>, done: bool)
      requires |keys| == |values| && es == Zip(keys, values) && Sorted(es)
      ensures out == sofar + ShownAll(InRange(es, start, end)) && (done ==> EndsIn(es, end))
    {
      out, done := sofar, false;
      NothingAdded(sofar);
      for i := 0 to |keys|
        invariant out == sofar + ShownAll(InRange(es[..i], start, end)) && !done
      {
        var k := keys[i];
        ShowsOneMore(es, i, start, end);
        if Less(k, start) {
          continue;
        }
        if Less(end, k) {
          ShowsRestNot(es, i, start, end);
          return out, true;
        }
        Assoc(sofar, ShownAll(InRange(es[..i], start, end)), [Shown(es[i])]);
        out := out + [k + [61] + values[i]];
      }
      assert es[..|es|] == es;
    }

    /** A check of the leaf chain; on a valid tree it cannot fail. */
    method LeafChainIntact() returns (ok: bool)
      requires Valid()
      ensures ok
    {
      var keys := Keys();
      ok := true;
      var i := |keys| - 1;
      while i > 0
        invariant ok && i < |keys|
      {
        assert Less(Flat(model)[i - 1].key, Flat(model)[i].key);
        if Less(keys[i], keys[i - 1]) { ok := false; }
        i := i - 1;
      }
      ok := ok && |keys| == size;
    }

    /** `n` keeps its left half and a new right sibling takes the rest; the median key is copied up. */
    method SplitLeaf(n: Node, ghost es: seq<Entry>) returns (promoted: Str, right: Node)
      requires Rep(SLeaf(n), Leaf(es)) && |es| >= 2
      modifies n
      ensures fresh(right)
      ensures match HalvedLeaf(es)
              case Two(l, sep, r) => promoted == sep && Rep(SLeaf(n), l) && Rep(SLeaf(right), r)
              case One(_) => false
      ensures n.next == right && right.next == old(n.next)
    {
      promoted, right := CutLeaf(n);
    }

    /** The two nodes of a leaf split: the median key stays in the right one. */
    method CutLeaf(n: Node) returns (promoted: Str, right: Node)
      requires n.leaf && 2 <= |n.keys| == |n.values|
      modifies n
      ensures var mid := |old(n.keys)| / 2;
              && promoted == old(n.keys)[mid] && n.keys == old(n.keys)[..mid] && n.values == old(n.values)[..mid]
              && right.keys == old(n.keys)[mid..] && right.values == old(n.values)[mid..]
      ensures fresh(right) && right.leaf && n.leaf && n.next == right && right.next == old(n.next)
    {
      var mid := |n.keys| / 2;
      right := new Node.NewLeaf(n.keys[mid..], n.values[mid..], n.next);
      n.keys := n.keys[..mid];
      n.values := n.values[..mid];
      n.next := right;
      promoted := right.keys[0];
    }

    /** `n` keeps the left part and a new right sibling takes the rest; the median key moves up. */
    method SplitInternal(n: Node, ghost kids: seq<Shape>, ghost t: Tree, ghost succ: Node?)
      returns (promoted: Str, right: Node, ghost ss: Shapes)
      requires t.Inner? && Family(n, kids, t.kids, succ) && 2 <= |t.keys| == |kids| - 1
      requires !n.leaf && n.keys == t.keys && n.children == Roots(kids)
      modifies n
      ensures RepOutcome(n, promoted, right, ss, HalvedInner(t.keys, t.kids))
      ensures ProperAll(ss) && forall x :: x in AllNodes(ss) ==> x in Nodes(SInner(n, kids)) || fresh(x)
      ensures FirstOf(ss) == First(SInner(n, kids)) && LastOf(ss).next == succ
    {
      NodesAllocated(SInner(n, kids));
      promoted, right := CutInner(n);
      assert right !in Nodes(SInner(n, kids));
      forall i | 0 <= i < |kids|
        ensures Rep(kids[i], t.kids[i]) && Last(kids[i]).next == Successor(kids, i, succ)
      {
        assert forall x :: x in Nodes(kids[i]) ==> x in Nodes(SInner(n, kids)) && x != n && x != right;
      }
      ss := SplitState(n, right, kids, t, |t.keys| / 2 + 1, succ);
    }

    /** The two nodes of an inner split: the median key goes from both. */
    method CutInner(n: Node) returns (promoted: Str, right: Node)
      requires !n.leaf && 2 <= |n.keys| == |n.children| - 1
      modifies n
      ensures var mid := |old(n.keys)| / 2;
              && promoted == old(n.keys)[mid]
              && n.keys == old(n.keys)[..mid] && n.children == old(n.children)[..mid + 1]
              && right.keys == old(n.keys)[mid + 1..] && right.children == old(n.children)[mid + 1..]
      ensures fresh(right) && !right.leaf && !n.leaf && n.next == old(n.next)
    {
      var mid := |n.keys| / 2;
      promoted := n.keys[mid];
      right := new Node.NewInner(n.keys[mid + 1..], n.children[mid + 1..]);
      n.keys := n.keys[..mid];
      n.children := n.children[..mid + 1];
    }

    /** `n` adopts the new right sibling of its child `i`, and splits in turn when it got too wide. */
    method AdoptRight(n: Node, i: nat, sep: Str, sibling: Node, ghost kids: seq<Shape>, ghost t: Tree,
        ghost succ: Node?)
      returns (promoted: Str, right: Node?, ghost ss: Shapes)
      requires !n.leaf && i < |n.children| == |n.keys| + 1
      requires Roots(kids) == n.children[..i + 1] + [sibling] + n.children[i + 1..]
      requires t.Inner? && |t.kids| == |t.keys| + 1 && t.keys == n.keys[..i] + [sep] + n.keys[i..]
      requires Family(n, kids, t.kids, succ)
      modifies n
      ensures RepOutcome(n, promoted, right, ss, Settled(t, true))
      ensures ProperAll(ss) && forall x :: x in AllNodes(ss) ==> x in Nodes(SInner(n, kids)) || fresh(x)
      ensures FirstOf(ss) == First(SInner(n, kids)) && LastOf(ss).next == succ
    {
      NodesAllocated(SInner(n, kids));
      n.keys := n.keys[..i] + [sep] + n.keys[i..];
      n.children := n.children[..i + 1] + [sibling] + n.children[i + 1..];
      forall j | 0 <= j < |kids|
        ensures Rep(kids[j], t.kids[j]) && Last(kids[j]).next == Successor(kids, j, succ)
      {
        assert forall x :: x in Nodes(kids[j]) ==> x in Nodes(SInner(n, kids)) && x != n;
      }
      if |n.keys| < ORDER {
        RepOfFamily(n, kids, t, succ);
        return [], null, S1(SInner(n, kids));
      }
      promoted, right, ss := SplitInternal(n, kids, t, succ);
    }

    /** The leaf case: overwrite, or insert in order and split when full. */
    method InsertIntoLeaf(n: Node, key: Str, value: Str, ghost es: seq<Entry>)
      returns (promoted: Str, right: Node?, ghost ss: Shapes)
      requires Rep(SLeaf(n), Leaf(es)) && Sorted(es)
      modifies n, `size
      ensures RepOutcome(n, promoted, right, ss, Inserted(Leaf(es), key, value))
      ensures ProperAll(ss) && forall x :: x in AllNodes(ss) ==> x == n || fresh(x)
      ensures FirstOf(ss) == n && LastOf(ss).next == old(n.next)
      ensures size == old(size) + Growth(Leaf(es), key)
    {
      SearchEntriesIsSearch(es, key);
      assert KeysOf(es) == n.keys;
      var i := Search(n.keys, key);
      LeafEdit(n.keys, n.values, es, key, value);
      if i < |n.keys| && n.keys[i] == key {
        n.values := n.values[i := value];
        return [], null, S1(SLeaf(n));
      }
      n.keys := n.keys[..i] + [key] + n.keys[i..];
      n.values := n.values[..i] + [value] + n.values[i..];
      size := size + 1;
      if |n.keys| < ORDER {
        return [], null, S1(SLeaf(n));
      }
      promoted, right := SplitLeaf(n, PutInLeaf(es, key, value));
      ss := S2(SLeaf(n), SLeaf(right));
    }

    /** Returns the promoted separator and the new right sibling when `n` split. */
    method Insert(n: Node, key: Str, value: Str, ghost s: Shape, ghost t: Tree, ghost succ: Node?)
      returns (promoted: Str, right: Node?, ghost ss: Shapes)
      requires s.node == n && Rep(s, t) && Proper(s) && Wf(t) && Last(s).next == succ
      modifies Nodes(s), `size
      ensures RepOutcome(n, promoted, right, ss, Inserted(t, key, value))
      ensures ProperAll(ss) && forall x :: x in AllNodes(ss) ==> x in Nodes(s) || fresh(x)
      ensures FirstOf(ss) == First(s) && LastOf(ss).next == succ
      ensures size == old(size) + Growth(t, key)
      decreases s, 2
    {
      if n.leaf {
        promoted, right, ss := InsertIntoLeaf(n, key, value, t.entries);
      } else {
        FamilyOfRep(n, s.kids, t);
        promoted, right, ss := InsertIntoInner(n, key, value, s.kids, t, succ);
      }
    }

    /** The inner case: insert below, then adopt the child's new sibling if it split. */
    method InsertIntoInner(n: Node, key: Str, value: Str, ghost kids: seq<Shape>, ghost t: Tree, ghost succ: Node?)
      returns (promoted: Str, right: Node?, ghost ss: Shapes)
      requires t.Inner? && Wf(t) && Family(n, kids, t.kids, succ)
      requires !n.leaf && n.keys == t.keys && n.children == Roots(kids) && |kids| == |n.keys| + 1
      modifies Nodes(SInner(n, kids)), `size
      ensures RepOutcome(n, promoted, right, ss, Inserted(t, key, value))
      ensures ProperAll(ss) && forall x :: x in AllNodes(ss) ==> x in Nodes(SInner(n, kids)) || fresh(x)
      ensures FirstOf(ss) == First(SInner(n, kids)) && LastOf(ss).next == succ
      ensures size == old(size) + Growth(t, key)
      decreases SInner(n, kids), 1
    {
      var i := ChildIndex(n.keys, key);
      ghost var o := Inserted(t.kids[i], key, value);
      ghost var t' := Widened(t, i, o);
      InsertedIsSettled(t, key, value, i, o);
      OthersApart(n, kids, i);
      ghost var kids';
      promoted, right, kids' := InsertIntoChild(n.children[i], key, value, n, kids, t.kids, i, succ);
      promoted, right, ss := AdoptOutcome(n, i, promoted, right, kids', t', succ);
    }

    /** What `n` makes of its child's outcome. */
    method AdoptOutcome(n: Node, i: nat, sep: Str, sibling: Node?, ghost kids: seq<Shape>, ghost t: Tree,
        ghost succ: Node?)
      returns (promoted: Str, right: Node?, ghost ss: Shapes)
      requires !n.leaf && i < |n.children| == |n.keys| + 1 && t.Inner? && |t.kids| == |t.keys| + 1
      requires Family(n, kids, t.kids, succ)
      requires Roots(kids) ==
        if sibling == null then n.children else n.children[..i + 1] + [sibling] + n.children[i + 1..]
      requires t.keys == if sibling == null then n.keys else n.keys[..i] + [sep] + n.keys[i..]
      modifies n
      ensures RepOutcome(n, promoted, right, ss, Settled(t, sibling != null))
      ensures ProperAll(ss) && forall x :: x in AllNodes(ss) ==> x in Nodes(SInner(n, kids)) || fresh(x)
      ensures FirstOf(ss) == First(SInner(n, kids)) && LastOf(ss).next == succ
    {
      if sibling == null {
        RepOfFamily(n, kids, t, succ);
        return [], null, S1(SInner(n, kids));
      }
      promoted, right, ss := AdoptRight(n, i, sep, sibling, kids, t, succ);
    }

    /** The recursive call, and what it means for the children of `n`: they are a
        family again, child `i` updated or doubled. */
    method InsertIntoChild(child: Node, key: Str, value: Str,
                           ghost n: Node, ghost kids: seq<Shape>, ghost ts: seq<Tree>, ghost i: nat, ghost succ: Node?)
      returns (promoted: Str, right: Node?, ghost kids': seq<Shape>)
      requires Family(n, kids, ts, succ) && i < |kids| && kids[i].node == child && Wf(ts[i])
      modifies Nodes(kids[i]), `size
      ensures size == old(size) + Growth(ts[i], key)
      ensures var o := Inserted(ts[i], key, value);
              && (right == null <==> o.One?) && (o.Two? ==> promoted == o.sep)
              && Family(n, kids', SplicedTrees(ts, i, o), succ)
      ensures Roots(kids') ==
        if right == null then Roots(kids) else Roots(kids)[..i + 1] + [right] + Roots(kids)[i + 1..]
      ensures forall x :: x in Nodes(SInner(n, kids')) ==> x in Nodes(SInner(n, kids)) || fresh(x)
      ensures First(SInner(n, kids')) == First(SInner(n, kids))
      decreases kids[i], 3
    {
      NodesAllocated(SInner(n, kids));
      OthersApart(n, kids, i);
      ghost var ss;
      promoted, right, ss := Insert(child, key, value, kids[i], ts[i], Successor(kids, i, succ));
      forall j | 0 <= j < |kids| && j != i
        ensures Rep(kids[j], ts[j]) && Last(kids[j]).next == Successor(kids, j, succ)
      {
        assert Nodes(kids[j]) <= Nodes(SInner(n, kids)) - Nodes(kids[i]);
      }
      AfterChild(n, kids, ts, i, promoted, right, ss, Inserted(ts[i], key, value), succ);
      kids' := Spliced(kids, i, ss);
    }
  }
}
