/** The B+tree as a value: what an insertion computes, level by level, and why the
    result is a sorted map, balanced and well filled.

    The module `BTree` proves that the pointer code computes exactly `Inserted`;
    everything here is then a property of that code. */
module BPlusModel {
  import opened ByteStrings
  import opened Sequences

  /** The most children an inner node holds; a node splits when it gets this many keys. */
  const ORDER := 4

  datatype Entry = Entry(key: Str, value: Str)

  /** Leaves hold the entries; inner nodes hold separators and subtrees. */
  datatype Tree = Leaf(entries: seq<Entry>) | Inner(keys: seq<Str>, kids: seq<Tree>)

  /** A node after an insertion: itself, or itself plus a separator and a new right sibling. */
  datatype Outcome = One(tree: Tree) | Two(left: Tree, sep: Str, right: Tree)

  // ---------------------------------------------------------------- searching

  /** `sort.SearchStrings`: the first index whose key is not below `key`. */
  function Search(keys: seq<Str>, key: Str): (i: nat)
    ensures i <= |keys|
    ensures forall j :: 0 <= j < i ==> Less(keys[j], key)
    ensures i < |keys| ==> !Less(keys[i], key)
  {
    if keys == [] || !Less(keys[0], key) then 0 else 1 + Search(keys[1..], key)
  }

  /** The subtree to follow: a key equal to a separator goes right. */
  function ChildIndex(keys: seq<Str>, key: Str): (i: nat)
    ensures i <= |keys|
  {
    var i := Search(keys, key);
    if i < |keys| && keys[i] == key then i + 1 else i
  }

  // -------------------------------------------------- the sorted list it stores

  function KeysOf(es: seq<Entry>): (ks: seq<Str>)
    ensures |ks| == |es| && forall i :: 0 <= i < |es| ==> ks[i] == es[i].key
  {
    seq(|es|, i requires 0 <= i < |es| => es[i].key)
  }

  ghost predicate Sorted(es: seq<Entry>) {
    forall i, j :: 0 <= i < j < |es| ==> Less(es[i].key, es[j].key)
  }

  /** Every key of `a` is below every key of `b`. */
  ghost predicate Below(a: seq<Entry>, k: Str) {
    forall i :: 0 <= i < |a| ==> Less(a[i].key, k)
  }

  ghost predicate Above(a: seq<Entry>, k: Str) {
    forall i :: 0 <= i < |a| ==> Less(k, a[i].key)
  }

  ghost predicate NotBelow(a: seq<Entry>, k: Str) {
    forall i :: 0 <= i < |a| ==> !Less(a[i].key, k)
  }

  /** Reference semantics of `Put` on the sorted list: overwrite, or insert in order. */
  function Put(es: seq<Entry>, k: Str, v: Str): seq<Entry> {
    if es == [] then [Entry(k, v)]
    else if Less(es[0].key, k) then [es[0]] + Put(es[1..], k, v)
    else if es[0].key == k then [Entry(k, v)] + es[1..]
    else [Entry(k, v)] + es
  }

  /** `Search` on the keys of a leaf. */
  function SearchEntries(es: seq<Entry>, k: Str): (i: nat)
    ensures i <= |es|
  {
    if es == [] || !Less(es[0].key, k) then 0 else 1 + SearchEntries(es[1..], k)
  }

  lemma {:induction false} SearchEntriesIsSearch(es: seq<Entry>, k: Str)
    ensures SearchEntries(es, k) == Search(KeysOf(es), k)
  {
    if es != [] && Less(es[0].key, k) {
      SearchEntriesIsSearch(es[1..], k);
      assert KeysOf(es)[1..] == KeysOf(es[1..]);
    }
  }

  /** What the leaf code does: search once, then write at the index found. */
  function PutInLeaf(es: seq<Entry>, k: Str, v: Str): seq<Entry> {
    var i := SearchEntries(es, k);
    if i < |es| && es[i].key == k then es[i := Entry(k, v)]
    else es[..i] + [Entry(k, v)] + es[i..]
  }

  /** All entries of a tree, left to right. */
  function Flat(t: Tree): seq<Entry> {
    match t
    case Leaf(es) => es
    case Inner(_, kids) => FlatAll(kids)
  }

  function FlatAll(ts: seq<Tree>): seq<Entry> {
    if ts == [] then [] else Flat(ts[0]) + FlatAll(ts[1..])
  }

  /** Sorted contents, and each separator the exact minimum of its right subtree. */
  ghost predicate Wf(t: Tree) {
    match t
    case Leaf(es) => Sorted(es)
    case Inner(keys, kids) =>
      && |kids| == |keys| + 1
      && Sorted(FlatAll(kids))
      && (forall i :: 0 <= i < |kids| ==> Wf(kids[i]) && Flat(kids[i]) != [])
      && (forall i :: 0 <= i < |keys| ==> keys[i] == Flat(kids[i + 1])[0].key)
  }

  // ---------------------------------------------------------------- insertion

  function HalvedLeaf(es: seq<Entry>): Outcome
    requires |es| >= 2
  {
    var mid := |es| / 2;
    Two(Leaf(es[..mid]), es[mid].key, Leaf(es[mid..]))
  }

  function HalvedInner(keys: seq<Str>, kids: seq<Tree>): Outcome
    requires |keys| >= 2 && |kids| == |keys| + 1
  {
    var mid := |keys| / 2;
    Two(Inner(keys[..mid], kids[..mid + 1]), keys[mid], Inner(keys[mid + 1..], kids[mid + 1..]))
  }

  /** Child `i` replaced by its two halves, with the promoted separator between them. */
  function WithTwo(keys: seq<Str>, kids: seq<Tree>, i: nat, l: Tree, s: Str, r: Tree): (t: Tree)
    requires i < |kids| == |keys| + 1
    ensures t.Inner? && |t.kids| == |kids| + 1 && |t.keys| == |keys| + 1
  {
    Inner(keys[..i] + [s] + keys[i..], Doubled(kids, i, l, r))
  }

  /** What an inner node makes of its child's outcome; it may split in turn. */
  function Adopt(keys: seq<Str>, kids: seq<Tree>, i: nat, o: Outcome): Outcome
    requires i < |kids| == |keys| + 1
  {
    match o
    case One(c) => One(Inner(keys, kids[i := c]))
    case Two(l, s, r) =>
      var t := WithTwo(keys, kids, i, l, s, r);
      if |t.keys| < ORDER then One(t) else HalvedInner(t.keys, t.kids)
  }

  function Inserted(t: Tree, k: Str, v: Str): Outcome
    requires Wf(t)
  {
    match t
    case Leaf(es) =>
      var es' := PutInLeaf(es, k, v);
      if |es'| == |es| || |es'| < ORDER then One(Leaf(es')) else HalvedLeaf(es')
    case Inner(keys, kids) =>
      var i := ChildIndex(keys, k);
      Adopt(keys, kids, i, Inserted(kids[i], k, v))
  }

  // ------------------------------------------------------------ flattening facts

  lemma SortedParts(a: seq<Entry>, b: seq<Entry>)
    requires Sorted(a + b)
    ensures Sorted(a) && Sorted(b)
  {
    assert forall i :: 0 <= i < |a| ==> (a + b)[i] == a[i];
    assert forall i :: 0 <= i < |b| ==> (a + b)[|a| + i] == b[i];
  }

  lemma {:induction false} FlatAllConcat(a: seq<Tree>, b: seq<Tree>)
    ensures FlatAll(a + b) == FlatAll(a) + FlatAll(b)
  {
    if a == [] {
      NothingAdded(b);
    } else {
      FirstOfConcat(a, b);
      FlatAllConcat(a[1..], b);
      Assoc(Flat(a[0]), FlatAll(a[1..]), FlatAll(b));
    }
  }

  lemma FlatAllSingle(t: Tree)
    ensures FlatAll([t]) == Flat(t)
  {
    assert FlatAll([t][1..]) == [];
  }

  /** The entries before, in and after one subtree. */
  lemma {:induction false} FlatAllAround(ts: seq<Tree>, i: nat)
    requires i < |ts|
    ensures FlatAll(ts) == FlatAll(ts[..i]) + Flat(ts[i]) + FlatAll(ts[i + 1..])
  {
    if i == 0 {
    } else {
      var rest := ts[1..];
      FlatAllAround(rest, i - 1);
      assert ts[..i][1..] == rest[..i - 1] && ts[..i][0] == ts[0];
      assert rest[i..] == ts[i + 1..] && rest[i - 1] == ts[i];
    }
  }

  /** Routing is exact: entries left of the chosen subtree are below the key,
      entries right of it above, and the key is not below the subtree's minimum
      unless the subtree is the first. */
  lemma Routing(keys: seq<Str>, kids: seq<Tree>, k: Str, i: nat)
    requires Wf(Inner(keys, kids)) && i == ChildIndex(keys, k)
    ensures Below(FlatAll(kids[..i]), k) && Above(FlatAll(kids[i + 1..]), k)
    ensures i > 0 ==> !Less(k, Flat(kids[i])[0].key)
  {
    if i > 0 {
      LeftOfChild(keys, kids, i);
      assert !Less(k, keys[i - 1]);
      var _ := Less(keys[i - 1], k);
    }
    if i < |keys| {
      RightOfChild(keys, kids, i);
      SeparatorAbove(keys, kids, k, i);
      var c := FlatAll(kids[i + 1..]);
      forall j | 0 <= j < |c| ensures Less(k, c[j].key) {
        assert !Less(c[j].key, keys[i]);
      }
    } else {
      assert kids[i + 1..] == [];
    }
  }

  lemma LeftOfChild(keys: seq<Str>, kids: seq<Tree>, i: nat)
    requires Wf(Inner(keys, kids)) && 0 < i < |kids|
    ensures Below(FlatAll(kids[..i]), keys[i - 1])
  {
    var a, b, c := FlatAll(kids[..i]), Flat(kids[i]), FlatAll(kids[i + 1..]);
    FlatAllAround(kids, i);
    forall j | 0 <= j < |a| ensures Less(a[j].key, keys[i - 1]) {
      assert (a + b + c)[j] == a[j] && (a + b + c)[|a|] == b[0];
    }
  }

  lemma RightOfChild(keys: seq<Str>, kids: seq<Tree>, i: nat)
    requires Wf(Inner(keys, kids)) && i < |keys|
    ensures NotBelow(FlatAll(kids[i + 1..]), keys[i])
  {
    FlatAllAround(kids, i);
    var a, c := FlatAll(kids[..i]) + Flat(kids[i]), FlatAll(kids[i + 1..]);
    FirstOfRest(kids, i + 1);
    SortedParts(a, c);
    assert c[0].key == keys[i];
    forall j | 0 <= j < |c| ensures !Less(c[j].key, keys[i]) {
      assert j > 0 ==> Less(c[0].key, c[j].key);
    }
  }

  lemma FirstOfRest(kids: seq<Tree>, i: nat)
    requires i < |kids| && Flat(kids[i]) != []
    ensures FlatAll(kids[i..]) != [] && FlatAll(kids[i..])[0] == Flat(kids[i])[0]
  {
    assert kids[i..][0] == kids[i];
  }

  /** Separators ascend, so the first one not below `k` after skipping an equal one is above it. */
  lemma SeparatorAbove(keys: seq<Str>, kids: seq<Tree>, k: Str, i: nat)
    requires Wf(Inner(keys, kids)) && i == ChildIndex(keys, k) && i < |keys|
    ensures Less(k, keys[i])
  {
    var s := Search(keys, k);
    if s < i {
      SeparatorsAscend(keys, kids, s, i);
    }
  }

  lemma SeparatorsAscend(keys: seq<Str>, kids: seq<Tree>, i: nat, j: nat)
    requires Wf(Inner(keys, kids)) && i < j < |keys|
    ensures Less(keys[i], keys[j])
  {
    var all := FlatAll(kids);
    FlatAllAround(kids, i + 1);
    var a, b, c := FlatAll(kids[..i + 1]), Flat(kids[i + 1]), FlatAll(kids[i + 2..]);
    FlatAllAround(kids[i + 2..], j - i - 1);
    var d := FlatAll(kids[i + 2..][..j - i - 1]);
    assert kids[i + 2..][j - i - 1] == kids[j + 1];
    assert all[|a|] == b[0];
    assert all[|a| + |b| + |d|] == Flat(kids[j + 1])[0];
  }

  // --------------------------------------------------------- the list semantics

  lemma {:induction false} PutInLeafIsPut(es: seq<Entry>, k: Str, v: Str)
    ensures PutInLeaf(es, k, v) == Put(es, k, v)
  {
    if es != [] && Less(es[0].key, k) {
      var rest := es[1..];
      PutInLeafIsPut(rest, k, v);
      PutInLeafCons(es[0], rest, k, v);
      assert [es[0]] + rest == es;
    }
  }

  lemma PutInLeafCons(e: Entry, rest: seq<Entry>, k: Str, v: Str)
    requires Less(e.key, k)
    ensures PutInLeaf([e] + rest, k, v) == [e] + PutInLeaf(rest, k, v)
  {
    SearchCons(e, rest, k);
    EditCons(e, rest, SearchEntries(rest, k), Entry(k, v));
  }

  lemma SearchCons(e: Entry, rest: seq<Entry>, k: Str)
    requires Less(e.key, k)
    ensures SearchEntries([e] + rest, k) == 1 + SearchEntries(rest, k)
  {
    assert ([e] + rest)[1..] == rest;
  }

  lemma EditCons(e: Entry, rest: seq<Entry>, s: nat, x: Entry)
    requires s <= |rest|
    ensures var es := [e] + rest;
            && es[..s + 1] + [x] + es[s + 1..] == [e] + (rest[..s] + [x] + rest[s..])
            && (s < |rest| ==> es[s + 1] == rest[s] && es[s + 1 := x] == [e] + rest[s := x])
  {
  }

  lemma {:induction false} PutSkipsSmaller(a: seq<Entry>, b: seq<Entry>, k: Str, v: Str)
    requires Below(a, k)
    ensures Put(a + b, k, v) == a + Put(b, k, v)
  {
    if a == [] {
      NothingAdded(b);
    } else {
      assert Less(a[0].key, k);
      FirstOfConcat(a, b);
      PutSkipsSmaller(a[1..], b, k, v);
      Assoc([a[0]], a[1..], Put(b, k, v));
      HeadAndTail(a);
    }
  }

  lemma {:induction false} PutIgnoresLarger(b: seq<Entry>, c: seq<Entry>, k: Str, v: Str)
    requires Above(c, k)
    ensures Put(b + c, k, v) == Put(b, k, v) + c
  {
    if b == [] {
      NothingAdded(c);
      assert c != [] ==> Less(k, c[0].key);
    } else {
      FirstOfConcat(b, c);
      PutIgnoresLarger(b[1..], c, k, v);
      Assoc([b[0]], Put(b[1..], k, v), c);
      Assoc([Entry(k, v)], b[1..], c);
      Assoc([Entry(k, v)], b, c);
    }
  }

  /** Inserting into the middle part is inserting into the whole. */
  lemma PutInMiddle(a: seq<Entry>, b: seq<Entry>, c: seq<Entry>, k: Str, v: Str)
    requires Below(a, k) && Above(c, k)
    ensures Put(a + b + c, k, v) == a + Put(b, k, v) + c
  {
    PutIgnoresLarger(a + b, c, k, v);
    PutSkipsSmaller(a, b, k, v);
  }

  ghost predicate HasKey(es: seq<Entry>, k: Str) {
    exists i :: 0 <= i < |es| && es[i].key == k
  }

  /** `es` lists the finite map `m` in key order. */
  ghost predicate Represents(es: seq<Entry>, m: map<Str, Str>) {
    && Sorted(es)
    && (forall i :: 0 <= i < |es| ==> es[i].key in m && m[es[i].key] == es[i].value)
    && (forall k :: k in m ==> HasKey(es, k))
  }

  lemma RepresentsTail(es: seq<Entry>, m: map<Str, Str>)
    requires Represents(es, m) && es != []
    ensures Represents(es[1..], m - {es[0].key}) && Above(es[1..], es[0].key)
  {
    var m' := m - {es[0].key};
    forall k | k in m' ensures HasKey(es[1..], k) {
      assert HasKey(es, k);
      var j :| 0 <= j < |es| && es[j].key == k;
      assert es[1..][j - 1].key == k;
    }
  }

  lemma RepresentsCons(e: Entry, es: seq<Entry>, m: map<Str, Str>)
    requires Represents(es, m - {e.key}) && Above(es, e.key)
    requires e.key in m && m[e.key] == e.value
    ensures Represents([e] + es, m)
  {
    forall k | k in m ensures HasKey([e] + es, k) {
      if k == e.key {
        assert ([e] + es)[0].key == k;
      } else {
        assert k in m - {e.key} && HasKey(es, k);
        var j :| 0 <= j < |es| && es[j].key == k;
        assert ([e] + es)[j + 1].key == k;
      }
    }
  }

  /** `Put` on the list is update on the map it represents. */
  lemma {:induction false} PutIsMapUpdate(es: seq<Entry>, m: map<Str, Str>, k: Str, v: Str)
    requires Represents(es, m)
    ensures Represents(Put(es, k, v), m[k := v])
    ensures |Put(es, k, v)| == |es| + if k in m then 0 else 1
  {
    if es == [] {
      RepresentsCons(Entry(k, v), [], m[k := v]);
    } else if Less(es[0].key, k) {
      var e, rest := es[0], es[1..];
      RepresentsTail(es, m);
      PutIsMapUpdate(rest, m - {e.key}, k, v);
      PutStaysAbove(rest, k, v, e.key);
      assert (m - {e.key})[k := v] == m[k := v] - {e.key};
      RepresentsCons(e, Put(rest, k, v), m[k := v]);
    } else {
      PutAtFront(es, m, k, v);
    }
  }

  lemma PutAtFront(es: seq<Entry>, m: map<Str, Str>, k: Str, v: Str)
    requires Represents(es, m) && es != [] && !Less(es[0].key, k)
    ensures Represents(Put(es, k, v), m[k := v])
    ensures |Put(es, k, v)| == |es| + if k in m then 0 else 1
  {
    if es[0].key == k {
      RepresentsTail(es, m);
      assert m[k := v] - {k} == m - {k};
      RepresentsCons(Entry(k, v), es[1..], m[k := v]);
    } else {
      AboveMinimum(es, k);
      assert m[k := v] - {k} == m;
      RepresentsCons(Entry(k, v), es, m[k := v]);
    }
  }

  lemma AboveMinimum(es: seq<Entry>, k: Str)
    requires Sorted(es) && es != [] && Less(k, es[0].key)
    ensures Above(es, k) && !HasKey(es, k)
  {
    assert forall i :: 0 < i < |es| ==> Less(es[0].key, es[i].key);
  }

  lemma {:induction false} PutStaysAbove(es: seq<Entry>, k: Str, v: Str, lo: Str)
    requires Above(es, lo) && Less(lo, k)
    ensures Above(Put(es, k, v), lo)
  {
    if es != [] && Less(es[0].key, k) {
      PutStaysAbove(es[1..], k, v, lo);
    }
  }

  /** A finite map has one sorted listing, so what a scan returns is determined. */
  lemma {:induction false} ListingIsUnique(a: seq<Entry>, b: seq<Entry>, m: map<Str, Str>)
    requires Represents(a, m) && Represents(b, m)
    ensures a == b && |a| == |m|
    decreases |m|
  {
    if m == map[] {
      assert a == [] && b == [];
    } else {
      MinimumFirst(a, b, m);
      RepresentsTail(a, m);
      RepresentsTail(b, m);
      ListingIsUnique(a[1..], b[1..], m - {a[0].key});
    }
  }

  lemma MinimumFirst(a: seq<Entry>, b: seq<Entry>, m: map<Str, Str>)
    requires Represents(a, m) && Represents(b, m) && m != map[]
    ensures a != [] && b != [] && a[0] == b[0]
  {
    var x :| x in m;
    assert HasKey(a, x) && HasKey(b, x);
    assert HasKey(b, a[0].key) && HasKey(a, b[0].key);
    var i :| 0 <= i < |b| && b[i].key == a[0].key;
    var j :| 0 <= j < |a| && a[j].key == b[0].key;
    var _ := Less(a[0].key, b[0].key);
    assert forall l :: 0 < l < |b| ==> Less(b[0].key, b[l].key);
    assert forall l :: 0 < l < |a| ==> Less(a[0].key, a[l].key);
  }

  lemma PutKeepsMinimum(es: seq<Entry>, k: Str, v: Str)
    requires es != []
    ensures !Less(k, es[0].key) ==> Put(es, k, v)[0].key == es[0].key
  {
  }

  lemma {:induction false} PutStaysSorted(es: seq<Entry>, k: Str, v: Str)
    requires Sorted(es)
    ensures Sorted(Put(es, k, v)) && Put(es, k, v) != []
  {
    if es == [] {
    } else {
      if Less(es[0].key, k) {
        PutStaysSorted(es[1..], k, v);
        PutStaysAbove(es[1..], k, v, es[0].key);
      } else if es[0].key != k {
        AboveMinimum(es, k);
      }
    }
  }

  // ------------------------------------------------------- insertion is correct

  /** Contents of an outcome, left to right. */
  ghost function FlatOutcome(o: Outcome): seq<Entry> {
    match o
    case One(t) => Flat(t)
    case Two(l, _, r) => Flat(l) + Flat(r)
  }

  /** An outcome a parent can adopt: well-formed parts and an exact separator. */
  ghost predicate WfOutcome(o: Outcome) {
    match o
    case One(t) => Wf(t) && Flat(t) != []
    case Two(l, s, r) => Wf(l) && Wf(r) && Flat(l) != [] && Flat(r) != [] && s == Flat(r)[0].key
  }

  lemma SplitInnerCorrect(keys: seq<Str>, kids: seq<Tree>)
    requires |keys| >= 2 && Wf(Inner(keys, kids))
    ensures WfOutcome(HalvedInner(keys, kids))
    ensures FlatOutcome(HalvedInner(keys, kids)) == FlatAll(kids)
  {
    var mid := |keys| / 2;
    var l, r := kids[..mid + 1], kids[mid + 1..];
    assert kids == l + r;
    FlatAllConcat(l, r);
    SortedParts(FlatAll(l), FlatAll(r));
    assert keys[mid] == Flat(kids[mid + 1])[0].key && r[0] == kids[mid + 1];
    assert l[0] == kids[0];
  }

  /** Replacing subtree `i` of a well-formed node by a well-formed one with the
      same minimum keeps the node well-formed. */
  lemma ReplaceChild(keys: seq<Str>, kids: seq<Tree>, i: nat, c: Tree)
    requires Wf(Inner(keys, kids)) && i < |kids| && Wf(c) && Flat(c) != []
    requires i > 0 ==> Flat(c)[0].key == keys[i - 1]
    requires Sorted(FlatAll(kids[..i]) + Flat(c) + FlatAll(kids[i + 1..]))
    ensures Wf(Inner(keys, kids[i := c]))
    ensures FlatAll(kids[i := c]) == FlatAll(kids[..i]) + Flat(c) + FlatAll(kids[i + 1..])
  {
    var kids' := kids[i := c];
    FlatAllAround(kids', i);
    assert kids'[..i] == kids[..i] && kids'[i + 1..] == kids[i + 1..];
  }

  lemma FlatAllTwo(a: seq<Tree>, l: Tree, r: Tree, b: seq<Tree>)
    ensures FlatAll(a + [l, r] + b) == FlatAll(a) + (Flat(l) + Flat(r)) + FlatAll(b)
  {
    assert [l, r] == [l] + [r];
    FlatAllConcat(a + [l, r], b);
    FlatAllConcat(a, [l, r]);
    FlatAllConcat([l], [r]);
    FlatAllSingle(l);
    FlatAllSingle(r);
  }

  /** Replacing subtree `i` by two with an exact separator between them. */
  lemma ReplaceChildByTwo(keys: seq<Str>, kids: seq<Tree>, i: nat, l: Tree, s: Str, r: Tree)
    requires Wf(Inner(keys, kids)) && i < |kids| && WfOutcome(Two(l, s, r))
    requires i > 0 ==> Flat(l)[0].key == keys[i - 1]
    requires Sorted(FlatAll(kids[..i]) + (Flat(l) + Flat(r)) + FlatAll(kids[i + 1..]))
    ensures Wf(WithTwo(keys, kids, i, l, s, r))
    ensures Flat(WithTwo(keys, kids, i, l, s, r)) == FlatAll(kids[..i]) + (Flat(l) + Flat(r)) + FlatAll(kids[i + 1..])
  {
    FlatAllTwo(kids[..i], l, r, kids[i + 1..]);
    var t := WithTwo(keys, kids, i, l, s, r);
    forall j | 0 <= j < |t.kids| ensures Wf(t.kids[j]) && Flat(t.kids[j]) != [] {
      WithTwoAt(keys, kids, i, l, s, r, j);
    }
    forall j | 0 <= j < |t.keys| ensures t.keys[j] == Flat(t.kids[j + 1])[0].key {
      WithTwoAt(keys, kids, i, l, s, r, j);
      WithTwoAt(keys, kids, i, l, s, r, j + 1);
    }
  }

  lemma WithTwoAt(keys: seq<Str>, kids: seq<Tree>, i: nat, l: Tree, s: Str, r: Tree, j: nat)
    requires i < |kids| == |keys| + 1 && j <= |kids|
    ensures var t := WithTwo(keys, kids, i, l, s, r);
            && t.kids[j] == (if j < i then kids[j] else if j == i then l else if j == i + 1 then r else kids[j - 1])
            && (j < |t.keys| ==> t.keys[j] == if j < i then keys[j] else if j == i then s else keys[j - 1])
  {
    DoubledAt(kids, i, l, r, j);
  }

  /** Whatever well-formed outcome the child has, its parent keeps order and exact separators. */
  lemma AdoptCorrect(keys: seq<Str>, kids: seq<Tree>, i: nat, o: Outcome)
    requires Wf(Inner(keys, kids)) && i < |kids| && WfOutcome(o)
    requires i > 0 ==> FlatOutcome(o)[0].key == keys[i - 1]
    requires Sorted(FlatAll(kids[..i]) + FlatOutcome(o) + FlatAll(kids[i + 1..]))
    ensures WfOutcome(Adopt(keys, kids, i, o))
    ensures FlatOutcome(Adopt(keys, kids, i, o)) == FlatAll(kids[..i]) + FlatOutcome(o) + FlatAll(kids[i + 1..])
  {
    match o
    case One(c) => ReplaceChild(keys, kids, i, c);
    case Two(l, s, r) =>
      ReplaceChildByTwo(keys, kids, i, l, s, r);
      var t := WithTwo(keys, kids, i, l, s, r);
      if |t.keys| >= ORDER { SplitInnerCorrect(t.keys, t.kids); }
  }

  lemma LeafInsertIsPut(es: seq<Entry>, k: Str, v: Str)
    requires Sorted(es)
    ensures var o := Inserted(Leaf(es), k, v); WfOutcome(o) && FlatOutcome(o) == Put(es, k, v)
  {
    PutStaysSorted(es, k, v);
    PutInLeafIsPut(es, k, v);
    var es' := PutInLeaf(es, k, v);
    var mid := |es'| / 2;
    assert es'[..mid] + es'[mid..] == es';
    SortedParts(es'[..mid], es'[mid..]);
  }

  /** `insert` on a subtree is `Put` on its entries, and keeps the subtree well-formed. */
  lemma {:induction false} InsertIsPut(t: Tree, k: Str, v: Str)
    requires Wf(t)
    ensures WfOutcome(Inserted(t, k, v)) && FlatOutcome(Inserted(t, k, v)) == Put(Flat(t), k, v)
  {
    match t
    case Leaf(es) => LeafInsertIsPut(es, k, v);
    case Inner(keys, kids) =>
      var i := ChildIndex(keys, k);
      var o := Inserted(kids[i], k, v);
      InsertIsPut(kids[i], k, v);
      assert FlatAll(kids[..i]) + FlatOutcome(o) + FlatAll(kids[i + 1..]) == Put(Flat(t), k, v) by {
        Routing(keys, kids, k, i);
        FlatAllAround(kids, i);
        PutInMiddle(FlatAll(kids[..i]), Flat(kids[i]), FlatAll(kids[i + 1..]), k, v);
      }
      assert i > 0 ==> FlatOutcome(o)[0].key == keys[i - 1] by {
        Routing(keys, kids, k, i);
        PutKeepsMinimum(Flat(kids[i]), k, v);
      }
      PutStaysSorted(Flat(t), k, v);
      AdoptCorrect(keys, kids, i, o);
  }

  // ------------------------------------------------------- balance and occupancy

  /** A non-root subtree of height `h`: every leaf at depth `h`, every node at least half full. */
  ghost predicate Fits(t: Tree, h: nat) {
    match t
    case Leaf(es) => h == 1 && 2 <= |es| < ORDER
    case Inner(keys, kids) =>
      && h > 1 && 2 <= |kids| == |keys| + 1 <= ORDER
      && forall i :: 0 <= i < |kids| ==> Fits(kids[i], h - 1)
  }

  /** The whole tree: a lone leaf may hold fewer entries. */
  ghost predicate FitsRoot(t: Tree, h: nat) {
    if t.Leaf? then h == 1 && |t.entries| < ORDER else Fits(t, h)
  }

  ghost predicate FitsOutcome(o: Outcome, h: nat) {
    match o
    case One(t) => Fits(t, h)
    case Two(l, _, r) => Fits(l, h) && Fits(r, h)
  }

  /** The same of the root's outcome: a root that did not split may still be a short leaf. */
  ghost predicate FitsRootOutcome(o: Outcome, h: nat) {
    if o.One? then FitsRoot(o.tree, h) else FitsOutcome(o, h)
  }

  lemma AdoptFits(keys: seq<Str>, kids: seq<Tree>, i: nat, o: Outcome, h: nat)
    requires Fits(Inner(keys, kids), h) && i < |kids| && FitsOutcome(o, h - 1)
    ensures FitsOutcome(Adopt(keys, kids, i, o), h)
  {
    if o.Two? {
      var t := WithTwo(keys, kids, i, o.left, o.sep, o.right);
      assert forall j :: 0 <= j < |t.kids| ==> Fits(t.kids[j], h - 1);
    }
  }

  /** Splits never leave an underfull node and never change a depth. */
  lemma {:induction false} InsertKeepsBalance(t: Tree, k: Str, v: Str, h: nat)
    requires Wf(t) && FitsRoot(t, h)
    ensures FitsRootOutcome(Inserted(t, k, v), h) && (Fits(t, h) ==> FitsOutcome(Inserted(t, k, v), h))
  {
    if t.Inner? {
      var i := ChildIndex(t.keys, k);
      assert Fits(t.kids[i], h - 1);
      InsertKeepsBalance(t.kids[i], k, v, h - 1);
      AdoptFits(t.keys, t.kids, i, Inserted(t.kids[i], k, v), h);
    }
  }

  function Pow(b: nat, e: nat): nat {
    if e == 0 then 1 else b * Pow(b, e - 1)
  }

  /** A subtree of height `h` holds between 2^h and 3 * 4^(h-1) entries. */
  lemma {:induction false} FitsCount(t: Tree, h: nat)
    requires Fits(t, h)
    ensures h >= 1 && Pow(2, h) <= |Flat(t)| <= 3 * Pow(4, h - 1)
    decreases t, 1
  {
    match t
    case Leaf(es) =>
      assert Pow(2, 1) == 2 * Pow(2, 0);
    case Inner(keys, kids) =>
      FitsCountAll(kids, h - 1);
      var n, lo, hi := |kids|, Pow(2, h - 1), 3 * Pow(4, h - 2);
      assert n * lo >= 2 * lo && n * hi <= 4 * hi;
  }

  lemma {:induction false} FitsCountAll(kids: seq<Tree>, h: nat)
    requires h >= 1 && forall i :: 0 <= i < |kids| ==> Fits(kids[i], h)
    ensures |kids| * Pow(2, h) <= |FlatAll(kids)| <= |kids| * (3 * Pow(4, h - 1))
    decreases kids, 0
  {
    if kids == [] {
    } else {
      FitsCount(kids[0], h);
      FitsCountAll(kids[1..], h);
      var n, lo, hi := |kids| - 1, Pow(2, h), 3 * Pow(4, h - 1);
      assert (n + 1) * lo == n * lo + lo && (n + 1) * hi == n * hi + hi;
    }
  }

  // ---------------------------------------------------------------- whole runs

  /** `Put` on the tree: the root splitting is the only way it grows taller. */
  function PutRoot(t: Tree, k: Str, v: Str): Tree
    requires Wf(t)
  {
    match Inserted(t, k, v)
    case One(t') => t'
    case Two(l, s, r) => Inner([s], [l, r])
  }

  /** Length of the leftmost path, which is what the `Height` loop walks. */
  function HeightOf(t: Tree): (h: nat)
    ensures h >= 1
  {
    if t.Leaf? || t.kids == [] then 1 else 1 + HeightOf(t.kids[0])
  }

  lemma {:induction false} FitsHeight(t: Tree, h: nat)
    requires Fits(t, h)
    ensures h == HeightOf(t)
  {
    if t.Inner? { FitsHeight(t.kids[0], h - 1); }
  }

  /** The tree invariant: it holds exactly the map `m`, is balanced and well filled. */
  ghost predicate Holds(t: Tree, m: map<Str, Str>) {
    Wf(t) && FitsRoot(t, HeightOf(t)) && Represents(Flat(t), m)
  }

  /** The root split: the only way the tree grows taller. */
  lemma NewRoot(l: Tree, s: Str, r: Tree, h: nat)
    requires WfOutcome(Two(l, s, r)) && Sorted(Flat(l) + Flat(r)) && Fits(l, h) && Fits(r, h)
    ensures var t := Inner([s], [l, r]);
            && Wf(t) && Fits(t, h + 1) && HeightOf(t) == h + 1 && Flat(t) == Flat(l) + Flat(r)
  {
    FlatAllTwo([], l, r, []);
    assert [] + [l, r] + [] == [l, r];
    FitsHeight(l, h);
  }

  /** One `Put` updates the map; the tree gets taller exactly when its root splits. */
  lemma PutRootCorrect(t: Tree, m: map<Str, Str>, k: Str, v: Str)
    requires Holds(t, m)
    ensures Holds(PutRoot(t, k, v), m[k := v])
    ensures HeightOf(PutRoot(t, k, v)) == HeightOf(t) + if Inserted(t, k, v).Two? then 1 else 0
    ensures |Flat(PutRoot(t, k, v))| == |Flat(t)| + if k in m then 0 else 1
  {
    PutIsMapUpdate(Flat(t), m, k, v);
    PutRootFlat(t, k, v);
  }

  lemma PutRootFlat(t: Tree, k: Str, v: Str)
    requires Wf(t) && FitsRoot(t, HeightOf(t))
    ensures var t' := PutRoot(t, k, v);
            && Wf(t') && FitsRoot(t', HeightOf(t')) && Flat(t') == Put(Flat(t), k, v)
            && HeightOf(t') == HeightOf(t) + if Inserted(t, k, v).Two? then 1 else 0
  {
    var h := HeightOf(t);
    InsertIsPut(t, k, v);
    InsertKeepsBalance(t, k, v, h);
    match Inserted(t, k, v)
    case One(t') =>
      if t'.Inner? { FitsHeight(t', h); }
    case Two(l, s, r) =>
      PutStaysSorted(Flat(t), k, v);
      NewRoot(l, s, r, h);
  }

  /** Empty tree, then `ops` in order. */
  ghost predicate Reached(ops: seq<Entry>, t: Tree) {
    if ops == [] then t == Leaf([])
    else
      var last := ops[|ops| - 1];
      exists t0 :: Reached(ops[..|ops| - 1], t0) && Wf(t0) && t == PutRoot(t0, last.key, last.value)
  }

  /** What a plain map holds after the same writes. */
  function MapOf(ops: seq<Entry>): map<Str, Str> {
    if ops == [] then map[]
    else MapOf(ops[..|ops| - 1])[ops[|ops| - 1].key := ops[|ops| - 1].value]
  }

  /** After any writes the tree holds exactly their map. */
  lemma {:induction false} RunsHoldTheMap(ops: seq<Entry>, t: Tree)
    requires Reached(ops, t)
    ensures Holds(t, MapOf(ops))
  {
    if ops == [] {
    } else {
      var last := ops[|ops| - 1];
      var t0 :| Reached(ops[..|ops| - 1], t0) && Wf(t0) && t == PutRoot(t0, last.key, last.value);
      RunsHoldTheMap(ops[..|ops| - 1], t0);
      PutRootCorrect(t0, MapOf(ops[..|ops| - 1]), last.key, last.value);
    }
  }

  /** Any writes lead to a tree, and it holds their map. */
  lemma {:induction false} RunReaches(ops: seq<Entry>) returns (t: Tree)
    ensures Reached(ops, t) && Holds(t, MapOf(ops))
  {
    if ops == [] {
      t := Leaf([]);
    } else {
      var last := ops[|ops| - 1];
      var t0 := RunReaches(ops[..|ops| - 1]);
      t := PutRoot(t0, last.key, last.value);
    }
    RunsHoldTheMap(ops, t);
  }

  /** The size bounds, in terms of the map: with n keys and height h >= 2,
      2^h <= n, and n <= 3 * 4^(h-1) at any height. */
  lemma HeightBounds(t: Tree, m: map<Str, Str>)
    requires Holds(t, m)
    ensures HeightOf(t) >= 2 ==> Pow(2, HeightOf(t)) <= |m|
    ensures |m| <= 3 * Pow(4, HeightOf(t) - 1)
  {
    ListingIsUnique(Flat(t), Flat(t), m);
    if t.Inner? { FitsCount(t, HeightOf(t)); }
  }

  /** What an insertion adds to the count, decided in the leaf it reaches. */
  function Growth(t: Tree, k: Str): nat
    requires Wf(t)
  {
    match t
    case Leaf(es) =>
      var i := SearchEntries(es, k);
      if i < |es| && es[i].key == k then 0 else 1
    case Inner(keys, kids) => Growth(kids[ChildIndex(keys, k)], k)
  }

  lemma {:induction false} GrowthIsSizeChange(t: Tree, k: Str, v: Str)
    requires Wf(t)
    ensures |Put(Flat(t), k, v)| == |Flat(t)| + Growth(t, k)
  {
    match t
    case Leaf(es) => PutInLeafIsPut(es, k, v);
    case Inner(keys, kids) =>
      var i := ChildIndex(keys, k);
      GrowthIsSizeChange(kids[i], k, v);
      Routing(keys, kids, k, i);
      FlatAllAround(kids, i);
      PutInMiddle(FlatAll(kids[..i]), Flat(kids[i]), FlatAll(kids[i + 1..]), k, v);
  }

  /** The keys of a listing are the keys of its map, each once and in order. */
  lemma KeysAreListed(es: seq<Entry>, m: map<Str, Str>)
    requires Represents(es, m)
    ensures var ks := KeysOf(es);
            && |ks| == |m| && (forall i, j :: 0 <= i < j < |ks| ==> Less(ks[i], ks[j]))
            && (forall k :: k in ks <==> k in m)
  {
    ListingIsUnique(es, es, m);
    forall k | k in m ensures k in KeysOf(es) {
      assert HasKey(es, k);
      var i :| 0 <= i < |es| && es[i].key == k;
      assert KeysOf(es)[i] == k;
    }
  }

  // ---------------------------------------------------------------- point lookup

  datatype Option = None | Some(value: Str)

  /** `Get`: follow one path, then search the leaf. */
  function Lookup(t: Tree, k: Str): Option
    requires Wf(t)
  {
    match t
    case Leaf(es) =>
      var i := SearchEntries(es, k);
      if i < |es| && es[i].key == k then Some(es[i].value) else None
    case Inner(keys, kids) => Lookup(kids[ChildIndex(keys, k)], k)
  }

  lemma {:induction false} LookupIsMembership(t: Tree, k: Str)
    requires Wf(t)
    ensures match Lookup(t, k)
            case Some(v) => Entry(k, v) in Flat(t)
            case None => !HasKey(Flat(t), k)
  {
    match t
    case Leaf(es) =>
      SearchEntriesIsSearch(es, k);
      SearchSplits(es, k);
    case Inner(keys, kids) =>
      var i := ChildIndex(keys, k);
      LookupIsMembership(kids[i], k);
      Routing(keys, kids, k, i);
      FlatAllAround(kids, i);
  }

  /** The first index not below `k` is the only place `k` can be. */
  lemma SearchSplits(es: seq<Entry>, k: Str)
    requires Sorted(es)
    ensures var i := Search(KeysOf(es), k); HasKey(es, k) ==> i < |es| && es[i].key == k
  {
    var i := Search(KeysOf(es), k);
    if HasKey(es, k) {
      assert forall j :: i < j < |es| ==> Less(es[i].key, es[j].key);
      assert !Less(k, k);
    }
  }

  /** A lookup along one path answers as the map does. */
  lemma LookupIsMapLookup(t: Tree, m: map<Str, Str>, k: Str)
    requires Wf(t) && Represents(Flat(t), m)
    ensures Lookup(t, k) == if k in m then Some(m[k]) else None
  {
    LookupIsMembership(t, k);
    if k in m {
      assert HasKey(Flat(t), k);
    }
  }

  // ---------------------------------------------------------------- scanning

  /** The leaves of a tree, left to right. */
  function Leaves(t: Tree): seq<seq<Entry>> {
    match t
    case Leaf(es) => [es]
    case Inner(_, kids) => LeavesAll(kids)
  }

  function LeavesAll(ts: seq<Tree>): seq<seq<Entry>> {
    if ts == [] then [] else Leaves(ts[0]) + LeavesAll(ts[1..])
  }

  function Concat(ls: seq<seq<Entry>>): seq<Entry> {
    if ls == [] then [] else ls[0] + Concat(ls[1..])
  }

  lemma {:induction false} ConcatAppend(a: seq<seq<Entry>>, b: seq<seq<Entry>>)
    ensures Concat(a + b) == Concat(a) + Concat(b)
  {
    if a == [] {
      NothingAdded(b);
    } else {
      FirstOfConcat(a, b);
      ConcatAppend(a[1..], b);
      Assoc(a[0], Concat(a[1..]), Concat(b));
    }
  }

  lemma ConcatCut(ls: seq<seq<Entry>>, j: nat)
    requires j <= |ls|
    ensures Concat(ls) == Concat(ls[..j]) + Concat(ls[j..])
  {
    assert ls == ls[..j] + ls[j..];
    ConcatAppend(ls[..j], ls[j..]);
  }

  /** The contents of the first j leaves. */
  function Upto(ls: seq<seq<Entry>>, j: nat): seq<Entry>
    requires j <= |ls|
  {
    if j == 0 then [] else Upto(ls, j - 1) + ls[j - 1]
  }

  lemma {:induction false} UptoIsConcat(ls: seq<seq<Entry>>, j: nat)
    requires j <= |ls|
    ensures Upto(ls, j) == Concat(ls[..j])
  {
    if j == 0 {
    } else {
      UptoIsConcat(ls, j - 1);
      var part := ls[..j];
      ConcatCut(part, j - 1);
      assert part[..j - 1] == ls[..j - 1] && part[j - 1..] == [ls[j - 1]];
      ConcatOne(ls[j - 1]);
    }
  }

  lemma UptoAll(ls: seq<seq<Entry>>)
    ensures Upto(ls, |ls|) == Concat(ls)
  {
    UptoIsConcat(ls, |ls|);
    assert ls[..|ls|] == ls;
  }

  lemma ConcatOne(es: seq<Entry>)
    ensures Concat([es]) == es
  {
    assert [es][1..] == [];
  }

  /** The leaf level holds the whole contents, in order. */
  lemma {:induction false} LeavesAreFlat(t: Tree)
    ensures Concat(Leaves(t)) == Flat(t)
    decreases t, 1
  {
    match t
    case Leaf(es) => ConcatOne(es);
    case Inner(_, kids) => LeavesAllAreFlat(kids);
  }

  lemma {:induction false} LeavesAllAreFlat(ts: seq<Tree>)
    ensures Concat(LeavesAll(ts)) == FlatAll(ts)
    decreases ts, 0
  {
    if ts == [] {
    } else {
      LeavesAreFlat(ts[0]);
      LeavesAllAreFlat(ts[1..]);
      ConcatAppend(Leaves(ts[0]), LeavesAll(ts[1..]));
    }
  }

  lemma {:induction false} LeavesAllAround(ts: seq<Tree>, i: nat)
    requires i < |ts|
    ensures LeavesAll(ts) == LeavesAll(ts[..i]) + Leaves(ts[i]) + LeavesAll(ts[i + 1..])
  {
    if i == 0 {
    } else {
      var rest := ts[1..];
      LeavesAllAround(rest, i - 1);
      assert ts[..i][1..] == rest[..i - 1] && ts[..i][0] == ts[0];
      assert rest[i..] == ts[i + 1..] && rest[i - 1] == ts[i];
    }
  }

  /** How many leaves lie left of the one a descent for `k` reaches. */
  function LeafIndex(t: Tree, k: Str): nat
    requires Wf(t)
  {
    match t
    case Leaf(_) => 0
    case Inner(keys, kids) =>
      var i := ChildIndex(keys, k);
      |LeavesAll(kids[..i])| + LeafIndex(kids[i], k)
  }

  /** Leaves left of the one reached hold only smaller keys, so a scan may start there. */
  lemma {:induction false} LeafIndexSkipsSmaller(t: Tree, k: Str)
    requires Wf(t)
    ensures LeafIndex(t, k) < |Leaves(t)| && Below(Concat(Leaves(t)[..LeafIndex(t, k)]), k)
  {
    if t.Inner? {
      var keys, kids := t.keys, t.kids;
      var i := ChildIndex(keys, k);
      LeafIndexSkipsSmaller(kids[i], k);
      Routing(keys, kids, k, i);
      SkippedBefore(kids, i, LeafIndex(kids[i], k), k);
    }
  }

  /** What holds below child i holds at the parent: the leaves of the children before it
      are skipped as well. */
  lemma SkippedBefore(kids: seq<Tree>, i: nat, j: nat, k: Str)
    requires i < |kids| && Below(FlatAll(kids[..i]), k)
    requires j < |Leaves(kids[i])| && Below(Concat(Leaves(kids[i])[..j]), k)
    ensures var n := |LeavesAll(kids[..i])| + j;
            n < |LeavesAll(kids)| && Below(Concat(LeavesAll(kids)[..n]), k)
  {
    var a, b := LeavesAll(kids[..i]), Leaves(kids[i]);
    LeavesAllAround(kids, i);
    LeavesAllAreFlat(kids[..i]);
    CutInMiddle(a, b, LeavesAll(kids[i + 1..]), j);
    ConcatAppend(a, b[..j]);
  }

  predicate Within(k: Str, lo: Str, hi: Str) {
    !Less(k, lo) && !Less(hi, k)
  }

  /** The entries with lo <= key <= hi, in order. */
  function InRange(es: seq<Entry>, lo: Str, hi: Str): seq<Entry> {
    if es == [] then [] else OnlyWithin(es[0], lo, hi) + InRange(es[1..], lo, hi)
  }

  function OnlyWithin(e: Entry, lo: Str, hi: Str): seq<Entry> {
    if Within(e.key, lo, hi) then [e] else []
  }

  lemma {:induction false} InRangeAppend(a: seq<Entry>, b: seq<Entry>, lo: Str, hi: Str)
    ensures InRange(a + b, lo, hi) == InRange(a, lo, hi) + InRange(b, lo, hi)
  {
    if a == [] {
      NothingAdded(b);
    } else {
      FirstOfConcat(a, b);
      InRangeAppend(a[1..], b, lo, hi);
      Assoc(OnlyWithin(a[0], lo, hi), InRange(a[1..], lo, hi), InRange(b, lo, hi));
    }
  }

  lemma {:induction false} InRangeOutside(es: seq<Entry>, lo: Str, hi: Str)
    requires Below(es, lo) || Above(es, hi)
    ensures InRange(es, lo, hi) == []
  {
    if es == [] {
    } else {
      assert !Within(es[0].key, lo, hi);
      InRangeOutside(es[1..], lo, hi);
    }
  }

  /** The part of a map that a range scan is about. */
  ghost function RangeOf(m: map<Str, Str>, lo: Str, hi: Str): map<Str, Str> {
    map k | k in m && Within(k, lo, hi) :: m[k]
  }

  /** A range scan lists exactly that part, in order. */
  lemma InRangeRepresents(es: seq<Entry>, m: map<Str, Str>, lo: Str, hi: Str)
    requires Represents(es, m)
    ensures Represents(InRange(es, lo, hi), RangeOf(m, lo, hi))
  {
    var out, part := InRange(es, lo, hi), RangeOf(m, lo, hi);
    InRangeSorted(es, lo, hi);
    forall i | 0 <= i < |out| ensures out[i].key in part && part[out[i].key] == out[i].value {
      InRangeHas(es, lo, hi, out[i]);
    }
    forall k | k in part ensures HasKey(out, k) {
      assert HasKey(es, k);
      var i :| 0 <= i < |es| && es[i].key == k;
      InRangeHas(es, lo, hi, es[i]);
    }
  }

  lemma {:induction false} InRangeHas(es: seq<Entry>, lo: Str, hi: Str, e: Entry)
    ensures e in InRange(es, lo, hi) <==> e in es && Within(e.key, lo, hi)
  {
    if es == [] {
    } else {
      InRangeHas(es[1..], lo, hi, e);
      HeadAndTail(es);
      assert e in es <==> e == es[0] || e in es[1..];
    }
  }

  lemma {:induction false} InRangeSorted(es: seq<Entry>, lo: Str, hi: Str)
    requires Sorted(es)
    ensures Sorted(InRange(es, lo, hi))
  {
    if es == [] {
    } else {
      InRangeSorted(es[1..], lo, hi);
      InRangeAbove(es[1..], lo, hi, es[0].key);
    }
  }

  lemma {:induction false} InRangeAbove(es: seq<Entry>, lo: Str, hi: Str, k: Str)
    requires Above(es, k)
    ensures Above(InRange(es, lo, hi), k)
  {
    if es == [] {
    } else {
      assert Less(k, es[0].key);
      InRangeAbove(es[1..], lo, hi, k);
    }
  }
}
