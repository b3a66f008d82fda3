/** Merkle trees and the comparison that finds where two of them differ.

    The hash is any function to 32 bytes. "No collision" is asked only of the
    inputs hashed in the two trees compared, where it can hold. A leaf hashes its key
    and its value with one separator byte between; `MissesNothingExactly` says for
    which keys that tells leaves apart. */
module Merkle {
  import opened ByteStrings
  import opened CeilLogs
  import opened Sequences

  datatype Node = Leaf(hash: Str, key: Str) | Inner(hash: Str, left: Node, right: Node)

  datatype Option<T> = None | Some(value: T)

  type Hash = Str -> Str

  const SEPARATOR: byte := 0x1f

  // ------------------------------------------------------------------- hashing

  /** What a leaf hashes: a marker, the key, a separator, the value. */
  function LeafInput(key: Str, value: Str): Str {
    [0] + key + [SEPARATOR] + value
  }

  /** What an inner node hashes: another marker and the two hashes. */
  function InnerInput(left: Str, right: Str): Str {
    [1] + left + right
  }

  ghost predicate Sized(h: Hash) {
    forall x :: |h(x)| == 32
  }

  ghost predicate NoCollision(h: Hash, inputs: set<Str>) {
    forall x, y :: x in inputs && y in inputs && h(x) == h(y) ==> x == y
  }

  /** The first key and a separator begin the second. */
  predicate Opens(k: Str, k': Str) {
    k + [SEPARATOR] <= k'
  }

  /** No key of one side opens a key of the other: the sides' leaves cannot be confused. */
  ghost predicate NoneOpens(a: set<Str>, b: set<Str>) {
    forall k, k' :: k in a && k' in b ==> !Opens(k, k') && !Opens(k', k)
  }

  /** The hashes are those of the data. */
  ghost predicate Built(h: Hash, data: map<Str, Str>, n: Node) {
    match n
    case Leaf(hash, key) => key in data && hash == h(LeafInput(key, data[key]))
    case Inner(hash, left, right) =>
      hash == h(InnerInput(left.hash, right.hash)) && Built(h, data, left) && Built(h, data, right)
  }

  ghost function Inputs(data: map<Str, Str>, n: Node): set<Str> {
    match n
    case Leaf(_, key) => if key in data then {LeafInput(key, data[key])} else {}
    case Inner(_, left, right) => {InnerInput(left.hash, right.hash)} + Inputs(data, left) + Inputs(data, right)
  }

  /** The keys of the leaves, left to right. */
  function Collect(n: Node): (keys: seq<Str>)
    ensures keys != []
  {
    match n
    case Leaf(_, key) => [key]
    case Inner(_, left, right) => Collect(left) + Collect(right)
  }

  lemma KeyEndsAtSeparator(k: Str, v: Str, k': Str, v': Str)
    requires !Opens(k, k') && !Opens(k', k) && LeafInput(k, v) == LeafInput(k', v')
    ensures k == k' && v == v'
  {
    if |k| < |k'| {
      ShorterOpens(k, v, k', v');
    } else if |k'| < |k| {
      ShorterOpens(k', v', k, v);
    } else {
      SplitInput(k, v);
      SplitInput(k', v');
    }
  }

  lemma ShorterOpens(k: Str, v: Str, k': Str, v': Str)
    requires LeafInput(k, v) == LeafInput(k', v') && |k| < |k'|
    ensures Opens(k, k')
  {
    var b := LeafInput(k, v);
    SplitInput(k, v);
    SplitInput(k', v');
    assert k'[..|k| + 1] == b[1..2 + |k|];
  }

  lemma SplitInput(k: Str, v: Str)
    ensures var b := LeafInput(k, v);
            && |b| == 2 + |k| + |v| && b[1..1 + |k|] == k && b[1..2 + |k|] == k + [SEPARATOR] && b[2 + |k|..] == v
  {
  }

  lemma HalvesOfInput(l: Str, r: Str, l': Str, r': Str)
    requires |l| == |l'| && InnerInput(l, r) == InnerInput(l', r')
    ensures l == l' && r == r'
  {
    var b := InnerInput(l, r);
    assert l == b[1..1 + |l|] == l' && r == b[1 + |l|..] == r';
  }

  /** Two subtrees being compared: built from their data, with no collision between them. */
  ghost predicate Comparable(h: Hash, da: map<Str, Str>, x: Node, db: map<Str, Str>, y: Node) {
    && Sized(h) && Built(h, da, x) && Built(h, db, y) && NoCollision(h, Inputs(da, x) + Inputs(db, y))
  }

  lemma ComparableParts(h: Hash, da: map<Str, Str>, x: Node, db: map<Str, Str>, y: Node)
    requires Comparable(h, da, x, db, y) && x.Inner? && y.Inner?
    ensures Comparable(h, da, x.left, db, y.left) && Comparable(h, da, x.right, db, y.right)
  {
    assert forall i :: i in Inputs(da, x.left) + Inputs(db, y.left) ==> i in Inputs(da, x) + Inputs(db, y);
    assert forall i :: i in Inputs(da, x.right) + Inputs(db, y.right) ==> i in Inputs(da, x) + Inputs(db, y);
  }

  ghost predicate SameData(da: map<Str, Str>, db: map<Str, Str>, keys: seq<Str>) {
    forall k :: k in keys ==> k in da && k in db && da[k] == db[k]
  }

  /** Equal hashes: the same keys with the same values, where no leaves can be confused. */
  lemma {:induction false} EqualHashesSameData(h: Hash, da: map<Str, Str>, x: Node, db: map<Str, Str>, y: Node)
    requires Comparable(h, da, x, db, y) && NoneOpens(da.Keys, db.Keys) && x.hash == y.hash
    ensures Collect(x) == Collect(y) && SameData(da, db, Collect(x))
    decreases x
  {
    if x.Leaf? && y.Leaf? {
      assert LeafInput(x.key, da[x.key]) in Inputs(da, x) && LeafInput(y.key, db[y.key]) in Inputs(db, y);
      KeyEndsAtSeparator(x.key, da[x.key], y.key, db[y.key]);
    } else if x.Inner? && y.Inner? {
      assert InnerInput(x.left.hash, x.right.hash) in Inputs(da, x) &&
        InnerInput(y.left.hash, y.right.hash) in Inputs(db, y);
      SizedHash(h, da, x.left);
      SizedHash(h, db, y.left);
      HalvesOfInput(x.left.hash, x.right.hash, y.left.hash, y.right.hash);
      ComparableParts(h, da, x, db, y);
      EqualHashesSameData(h, da, x.left, db, y.left);
      EqualHashesSameData(h, da, x.right, db, y.right);
    } else {
      MarkersDiffer(h, da, x, db, y);
    }
  }

  lemma SizedHash(h: Hash, data: map<Str, Str>, n: Node)
    requires Sized(h) && Built(h, data, n)
    ensures |n.hash| == 32
  {
  }

  /** The hash of a leaf is never that of an inner node. */
  lemma MarkersDiffer(h: Hash, da: map<Str, Str>, x: Node, db: map<Str, Str>, y: Node)
    requires Comparable(h, da, x, db, y) && x.Leaf? != y.Leaf?
    ensures x.hash != y.hash
  {
    var i := if x.Leaf? then LeafInput(x.key, da[x.key]) else InnerInput(x.left.hash, x.right.hash);
    var j := if y.Leaf? then LeafInput(y.key, db[y.key]) else InnerInput(y.left.hash, y.right.hash);
    assert i in Inputs(da, x) && j in Inputs(db, y) && i[0] != j[0];
  }

  // ---------------------------------------------------------------- comparison

  ghost function Keys(n: Node): set<Str> {
    set k | k in Collect(n)
  }

  /** The keys the comparison of two subtrees reports. */
  ghost function Reported(x: Node, y: Node): set<Str>
    decreases x
  {
    if x.hash == y.hash then {}
    else if x.Leaf? || y.Leaf? then Keys(x) + Keys(y)
    else Reported(x.left, y.left) + Reported(x.right, y.right)
  }

  method Walk(x: Node, y: Node, seen0: set<Str>) returns (seen: set<Str>)
    ensures seen == seen0 + Reported(x, y)
    decreases x
  {
    if x.hash == y.hash {
      return seen0;
    }
    if x.Leaf? || y.Leaf? {
      var keys := Collect(x) + Collect(y);
      seen := seen0;
      for i := 0 to |keys|
        invariant seen == seen0 + set k | k in keys[..i]
      {
        assert keys[..i + 1] == keys[..i] + [keys[i]];
        seen := seen + {keys[i]};
      }
      assert keys[..|keys|] == keys;
      return;
    }
    seen := Walk(x.left, y.left, seen0);
    seen := Walk(x.right, y.right, seen);
  }

  /** No key that differs, or that only one side has, is missed. */
  lemma {:induction false} NothingMissed(h: Hash, da: map<Str, Str>, x: Node, db: map<Str, Str>, y: Node, k: Str)
    requires Comparable(h, da, x, db, y) && NoneOpens(da.Keys, db.Keys)
    requires (k in Keys(x) || k in Keys(y)) && k !in Reported(x, y)
    ensures k in Keys(x) && k in Keys(y) && k in da && k in db && da[k] == db[k]
    decreases x
  {
    if x.hash == y.hash {
      EqualHashesSameData(h, da, x, db, y);
    } else if x.Inner? && y.Inner? {
      ComparableParts(h, da, x, db, y);
      assert forall j :: j in Collect(x) <==> j in Collect(x.left) || j in Collect(x.right);
      assert forall j :: j in Collect(y) <==> j in Collect(y.left) || j in Collect(y.right);
      if k in Keys(x.left) || k in Keys(y.left) {
        NothingMissed(h, da, x.left, db, y.left, k);
      } else {
        NothingMissed(h, da, x.right, db, y.right, k);
      }
    }
  }

  /** The same form and the same keys, leaf by leaf. */
  ghost predicate SameShape(x: Node, y: Node)
    decreases x
  {
    if x.Leaf? || y.Leaf? then x.Leaf? && y.Leaf? && x.key == y.key
    else SameShape(x.left, y.left) && SameShape(x.right, y.right)
  }

  ghost predicate Differs(da: map<Str, Str>, db: map<Str, Str>, k: Str) {
    k in da && k in db && da[k] != db[k]
  }

  /** Equal hashes of one shape: the same values, whatever the keys hold, since each leaf
      meets the leaf of its own key. */
  lemma {:induction false} SameShapeSameData(h: Hash, da: map<Str, Str>, x: Node, db: map<Str, Str>, y: Node)
    requires Comparable(h, da, x, db, y) && SameShape(x, y) && x.hash == y.hash
    ensures Collect(x) == Collect(y) && SameData(da, db, Collect(x))
    decreases x
  {
    if x.Leaf? {
      assert LeafInput(x.key, da[x.key]) in Inputs(da, x) && LeafInput(y.key, db[y.key]) in Inputs(db, y);
      SplitInput(x.key, da[x.key]);
      SplitInput(y.key, db[y.key]);
    } else {
      assert InnerInput(x.left.hash, x.right.hash) in Inputs(da, x) &&
        InnerInput(y.left.hash, y.right.hash) in Inputs(db, y);
      SizedHash(h, da, x.left);
      SizedHash(h, db, y.left);
      HalvesOfInput(x.left.hash, x.right.hash, y.left.hash, y.right.hash);
      ComparableParts(h, da, x, db, y);
      SameShapeSameData(h, da, x.left, db, y.left);
      SameShapeSameData(h, da, x.right, db, y.right);
    }
  }

  /** With the same keys on both sides, exactly the differing ones are reported. */
  lemma {:induction false} SameKeysExact(h: Hash, da: map<Str, Str>, x: Node, db: map<Str, Str>, y: Node)
    requires Comparable(h, da, x, db, y) && SameShape(x, y)
    ensures Collect(x) == Collect(y)
    ensures Reported(x, y) == set k | k in Collect(x) && Differs(da, db, k)
    decreases x
  {
    if x.hash == y.hash {
      SameShapeSameData(h, da, x, db, y);
    } else if x.Inner? {
      ComparableParts(h, da, x, db, y);
      SameKeysExact(h, da, x.left, db, y.left);
      SameKeysExact(h, da, x.right, db, y.right);
    }
  }

  // ---------------------------------------------------------------------- cost

  ghost function Cost(x: Node, y: Node): nat
    decreases x
  {
    if x.hash == y.hash || x.Leaf? || y.Leaf? then 1 else 1 + Cost(x.left, y.left) + Cost(x.right, y.right)
  }

  method CountComparisons(x: Node, y: Node, count0: nat) returns (count: nat)
    ensures count == count0 + Cost(x, y)
    decreases x
  {
    count := count0 + 1;
    if x.hash == y.hash || x.Leaf? || y.Leaf? {
      return;
    }
    count := CountComparisons(x.left, y.left, count);
    count := CountComparisons(x.right, y.right, count);
  }

  /** The node that a path leads to: false goes left, true goes right. */
  ghost function At(n: Node, path: seq<bool>): Option<Node>
    decreases |path|
  {
    if path == [] then Some(n)
    else match At(n, path[..|path| - 1])
      case None => None
      case Some(m) => if m.Leaf? then None else Some(if path[|path| - 1] then m.right else m.left)
  }

  /** The two nodes of a path are compared: they are the roots, or the inner nodes before were
      compared and differ. */
  ghost predicate Met(x: Node, y: Node, path: seq<bool>)
    decreases |path|
  {
    if path == [] then true
    else
      var before := path[..|path| - 1];
      && Met(x, y, before) && At(x, path).Some? && At(y, path).Some?
      && At(x, before).value.hash != At(y, before).value.hash
  }

  lemma {:induction false} FromTheTop(n: Node, b: bool, path: seq<bool>)
    ensures At(n, [b] + path) == if n.Leaf? then None else At(if b then n.right else n.left, path)
    decreases |path|
  {
    if path == [] {
      assert [b] + path == [b] && [b][..0] == [];
      assert At(n, []) == Some(n);
    } else {
      var before := path[..|path| - 1];
      assert ([b] + path)[..|path|] == [b] + before;
      FromTheTop(n, b, before);
    }
  }

  lemma {:induction false} MetFromTheTop(x: Node, y: Node, b: bool, path: seq<bool>)
    ensures Met(x, y, [b] + path) <==>
      x.hash != y.hash && x.Inner? && y.Inner? && Met(Child(x, b), Child(y, b), path)
    decreases |path|
  {
    FromTheTop(x, b, path);
    FromTheTop(y, b, path);
    if path == [] {
      assert [b] + path == [b] && [b][..0] == [];
      assert At(x, []) == Some(x) && At(y, []) == Some(y);
    } else {
      var before := path[..|path| - 1];
      assert ([b] + path)[..|path|] == [b] + before;
      MetFromTheTop(x, y, b, before);
      FromTheTop(x, b, before);
      FromTheTop(y, b, before);
    }
  }

  ghost function Child(n: Node, b: bool): Node {
    if n.Leaf? then n else if b then n.right else n.left
  }

  /** The paths of the nodes compared. */
  ghost function Compared(x: Node, y: Node): set<seq<bool>>
    decreases x
  {
    if x.hash == y.hash || x.Leaf? || y.Leaf? then {[]}
    else {[]} + Below(false, Compared(x.left, y.left)) + Below(true, Compared(x.right, y.right))
  }

  ghost function Below(b: bool, paths: set<seq<bool>>): set<seq<bool>> {
    set p | p in paths :: [b] + p
  }

  lemma {:induction false} ComparedAreMet(x: Node, y: Node, path: seq<bool>)
    ensures path in Compared(x, y) <==> Met(x, y, path)
    decreases x
  {
    if path == [] {
    } else {
      var b, rest := path[0], path[1..];
      assert path == [b] + rest;
      MetFromTheTop(x, y, b, rest);
      if x.hash != y.hash && x.Inner? && y.Inner? {
        ComparedAreMet(Child(x, b), Child(y, b), rest);
        BelowHas(b, Compared(Child(x, b), Child(y, b)), b, rest);
        BelowHas(!b, Compared(Child(x, !b), Child(y, !b)), b, rest);
      }
    }
  }

  lemma BelowHas(c: bool, paths: set<seq<bool>>, b: bool, path: seq<bool>)
    ensures [b] + path in Below(c, paths) <==> b == c && path in paths
  {
    if [b] + path in Below(c, paths) {
      var p :| p in paths && [c] + p == [b] + path;
      assert ([c] + p)[0] == c && ([c] + p)[1..] == p && ([b] + path)[1..] == path;
    }
  }

  lemma {:induction false} BelowSize(b: bool, paths: set<seq<bool>>)
    ensures |Below(b, paths)| == |paths|
  {
    if paths == {} {
      assert Below(b, paths) == {};
    } else {
      var p :| p in paths;
      BelowSize(b, paths - {p});
      BelowHas(b, paths - {p}, b, p);
      assert Below(b, paths) == Below(b, paths - {p}) + {[b] + p};
    }
  }

  /** The count is that of the places where two nodes are compared: the root, and every place
      whose parents were compared and differ. */
  lemma {:induction false} CostCountsComparisons(x: Node, y: Node)
    ensures Cost(x, y) == |Compared(x, y)|
    ensures forall path :: path in Compared(x, y) <==> Met(x, y, path)
    decreases x
  {
    forall path ensures path in Compared(x, y) <==> Met(x, y, path) {
      ComparedAreMet(x, y, path);
    }
    if x.hash != y.hash && x.Inner? && y.Inner? {
      CostCountsComparisons(x.left, y.left);
      CostCountsComparisons(x.right, y.right);
      SizesAdd(Compared(x.left, y.left), Compared(x.right, y.right));
    }
  }

  lemma SizesAdd(a: set<seq<bool>>, b: set<seq<bool>>)
    ensures |{[]} + Below(false, a) + Below(true, b)| == 1 + |a| + |b|
  {
    BelowSize(false, a);
    BelowSize(true, b);
    forall p | p in Below(false, a) ensures p !in Below(true, b) && p != [] {
      var q :| q in a && p == [false] + q;
      assert p[0] == false;
      BelowHas(true, b, false, q);
    }
    assert [] !in Below(true, b);
    assert Below(false, a) !! Below(true, b);
  }

  function Height(n: Node): nat {
    match n
    case Leaf(_, _) => 0
    case Inner(_, left, right) => 1 + if Height(left) >= Height(right) then Height(left) else Height(right)
  }

  ghost predicate Distinct(keys: seq<Str>) {
    forall i, j :: 0 <= i < j < |keys| ==> keys[i] != keys[j]
  }

  /** Subtrees of one shape that report nothing have equal hashes. */
  lemma {:induction false} NothingReportedMeansEqual(h: Hash, da: map<Str, Str>, x: Node, db: map<Str, Str>, y: Node)
    requires Built(h, da, x) && Built(h, db, y) && SameShape(x, y) && Reported(x, y) == {}
    ensures x.hash == y.hash
    decreases x
  {
    if x.Inner? {
      if x.hash != y.hash {
        NothingReportedMeansEqual(h, da, x.left, db, y.left);
        NothingReportedMeansEqual(h, da, x.right, db, y.right);
      }
    } else {
      assert x.key in Collect(x) && x.key in Keys(x);
    }
  }

  lemma DistinctHalves(x: Node, y: Node)
    requires x.Inner? && y.Inner? && Distinct(Collect(x)) && Collect(x.left) == Collect(y.left) &&
      Collect(x.right) == Collect(y.right)
    ensures Distinct(Collect(x.left)) && Distinct(Collect(x.right)) && Keys(x.left) !! Keys(x.right)
  {
    var l, r := Collect(x.left), Collect(x.right);
    assert forall i :: 0 <= i < |l| ==> Collect(x)[i] == l[i];
    assert forall j :: 0 <= j < |r| ==> Collect(x)[|l| + j] == r[j];
    forall k | k in Keys(x.left) ensures k !in Keys(x.right) {
      var i :| 0 <= i < |l| && l[i] == k;
      forall j | 0 <= j < |r| ensures r[j] != k {
        assert Collect(x)[|l| + j] == r[j] && Collect(x)[i] == k;
      }
    }
  }

  lemma {:induction false} ReportedAreKeys(x: Node, y: Node)
    requires SameShape(x, y)
    ensures Reported(x, y) <= Keys(x) && Keys(x) == Keys(y)
    decreases x
  {
    if x.Inner? {
      ReportedAreKeys(x.left, y.left);
      ReportedAreKeys(x.right, y.right);
      assert Keys(x) == Keys(x.left) + Keys(x.right) && Keys(y) == Keys(y.left) + Keys(y.right);
    }
  }

  lemma {:induction false} SameShapeSameKeys(x: Node, y: Node)
    requires SameShape(x, y)
    ensures Collect(x) == Collect(y)
    decreases x
  {
    if x.Inner? {
      SameShapeSameKeys(x.left, y.left);
      SameShapeSameKeys(x.right, y.right);
    }
  }

  /** d times m, by adding. */
  ghost function Times(d: nat, m: nat): nat {
    if d == 0 then 0 else Times(d - 1, m) + m
  }

  lemma {:induction false} TimesIsProduct(d: nat, m: nat)
    ensures Times(d, m) == d * m
  {
    if d == 0 {
    } else {
      TimesIsProduct(d - 1, m);
      Distribute(d - 1, m);
    }
  }

  lemma {:induction false} TimesAdds(dl: nat, dr: nat, hl: nat, hr: nat, m: nat)
    requires hl <= m && hr <= m
    ensures Times(dl, hl) + Times(dr, hr) + (dl + dr) <= Times(dl + dr, m + 1)
  {
    if dl > 0 {
      TimesAdds(dl - 1, dr, hl, hr, m);
    } else if dr > 0 {
      TimesAdds(dl, dr - 1, hl, hr, m);
    }
  }

  /** The comparison looks at no more than two nodes a level for each differing key. */
  lemma {:induction false} CostIsLow(h: Hash, da: map<Str, Str>, x: Node, db: map<Str, Str>, y: Node)
    requires Built(h, da, x) && Built(h, db, y) && SameShape(x, y) && Distinct(Collect(x))
    ensures Cost(x, y) <= 1 + 2 * Times(|Reported(x, y)|, Height(x))
    decreases x
  {
    if x.hash != y.hash && x.Inner? {
      CostIsLowHalves(h, da, x, db, y);
      CostIsLow(h, da, x.left, db, y.left);
      CostIsLow(h, da, x.right, db, y.right);
      CostJoins(x, y, |Reported(x.left, y.left)|, |Reported(x.right, y.right)|);
    }
  }

  lemma CostJoins(x: Node, y: Node, dl: nat, dr: nat)
    requires x.Inner? && y.Inner? && dl + dr > 0
    requires Cost(x.left, y.left) <= 1 + 2 * Times(dl, Height(x.left))
    requires Cost(x.right, y.right) <= 1 + 2 * Times(dr, Height(x.right))
    ensures Cost(x, y) <= 1 + 2 * Times(dl + dr, Height(x))
  {
    TimesAdds(dl, dr, Height(x.left), Height(x.right), Height(x) - 1);
  }

  lemma CostIsLowHalves(h: Hash, da: map<Str, Str>, x: Node, db: map<Str, Str>, y: Node)
    requires Built(h, da, x) && Built(h, db, y) && SameShape(x, y) && Distinct(Collect(x)) && x.hash != y.hash &&
      x.Inner?
    ensures Distinct(Collect(x.left)) && Distinct(Collect(x.right))
    ensures |Reported(x, y)| == |Reported(x.left, y.left)| + |Reported(x.right, y.right)| > 0
  {
    SameShapeSameKeys(x.left, y.left);
    SameShapeSameKeys(x.right, y.right);
    DistinctHalves(x, y);
    ReportedAreKeys(x.left, y.left);
    ReportedAreKeys(x.right, y.right);
    if Reported(x, y) == {} {
      NothingReportedMeansEqual(h, da, x, db, y);
    }
  }

  // ------------------------------------------------------------------- building

  /** One level up: pairs joined, an odd node out promoted as it is. */
  function Up(h: Hash, level: seq<Node>): (r: seq<Node>)
    ensures |r| == Ceil(|level|, 2)
  {
    if |level| <= 1 then level
    else [Join(h, level[0], level[1])] + Up(h, level[2..])
  }

  function Join(h: Hash, l: Node, r: Node): Node {
    Inner(h(InnerInput(l.hash, r.hash)), l, r)
  }

  method NextLevel(h: Hash, level: seq<Node>) returns (next: seq<Node>)
    ensures next == Up(h, level)
  {
    next := [];
    var i := 0;
    while i < |level|
      invariant i <= |level| + 1 && next + (if i <= |level| then Up(h, level[i..]) else []) == Up(h, level)
    {
      ghost var before := next;
      if i + 1 == |level| {
        next := next + [level[i]];
        assert level[i..] == [level[i]];
      } else {
        next := next + [Join(h, level[i], level[i + 1])];
        UpStep(h, level, i);
        Assoc(before, [Join(h, level[i], level[i + 1])], Up(h, level[i + 2..]));
      }
      i := i + 2;
    }
    assert i == |level| ==> Up(h, level[i..]) == [];
  }

  lemma UpStep(h: Hash, level: seq<Node>, i: nat)
    requires i + 1 < |level|
    ensures Up(h, level[i..]) == [Join(h, level[i], level[i + 1])] + Up(h, level[i + 2..])
  {
    assert level[i..][2..] == level[i + 2..];
  }

  ghost function Top(h: Hash, level: seq<Node>): Node
    requires level != []
    decreases |level|
  {
    if |level| == 1 then level[0]
    else
      CeilShrinks(|level|, 2);
      Top(h, Up(h, level))
  }

  ghost function Flat(level: seq<Node>): seq<Str> {
    if level == [] then [] else Collect(level[0]) + Flat(level[1..])
  }

  lemma {:induction false} UpKeepsKeys(h: Hash, level: seq<Node>)
    ensures Flat(Up(h, level)) == Flat(level)
    decreases |level|
  {
    if |level| >= 2 {
      UpKeepsKeys(h, level[2..]);
      assert level[1..][1..] == level[2..];
      assert Flat(level) == Collect(level[0]) + (Collect(level[1]) + Flat(level[2..]));
      assert Up(h, level)[1..] == Up(h, level[2..]);
    }
  }

  lemma {:induction false} UpIsBuilt(h: Hash, data: map<Str, Str>, level: seq<Node>, m: nat)
    requires forall i :: 0 <= i < |level| ==> Built(h, data, level[i]) && Height(level[i]) <= m
    ensures forall i :: 0 <= i < |Up(h, level)| ==> Built(h, data, Up(h, level)[i]) && Height(Up(h, level)[i]) <= m + 1
    decreases |level|
  {
    if |level| >= 2 {
      UpIsBuilt(h, data, level[2..], m);
      assert Up(h, level)[1..] == Up(h, level[2..]);
      assert Built(h, data, Join(h, level[0], level[1])) && Height(Join(h, level[0], level[1])) <= m + 1;
    }
  }

  /** The top of a level has its keys, its data, and a height logarithmic in its size. */
  lemma {:induction false} TopIsBuilt(h: Hash, data: map<Str, Str>, level: seq<Node>, m: nat)
    requires level != [] && forall i :: 0 <= i < |level| ==> Built(h, data, level[i]) && Height(level[i]) <= m
    ensures Built(h, data, Top(h, level)) && Collect(Top(h, level)) == Flat(level)
    ensures Height(Top(h, level)) <= m + Passes(|level|, 2)
    decreases |level|
  {
    if |level| == 1 {
      assert level[1..] == [];
    } else {
      CeilShrinks(|level|, 2);
      UpKeepsKeys(h, level);
      UpIsBuilt(h, data, level, m);
      TopIsBuilt(h, data, Up(h, level), m + 1);
    }
  }

  lemma {:induction false} UpSameShape(h: Hash, a: seq<Node>, b: seq<Node>)
    requires |a| == |b| && forall i :: 0 <= i < |a| ==> SameShape(a[i], b[i])
    ensures forall i :: 0 <= i < |Up(h, a)| ==> SameShape(Up(h, a)[i], Up(h, b)[i])
    decreases |a|
  {
    if |a| >= 2 {
      UpSameShape(h, a[2..], b[2..]);
      assert Up(h, a)[1..] == Up(h, a[2..]) && Up(h, b)[1..] == Up(h, b[2..]);
      assert SameShape(Join(h, a[0], a[1]), Join(h, b[0], b[1]));
    }
  }

  lemma {:induction false} TopSameShape(h: Hash, a: seq<Node>, b: seq<Node>)
    requires |a| == |b| > 0 && forall i :: 0 <= i < |a| ==> SameShape(a[i], b[i])
    ensures SameShape(Top(h, a), Top(h, b))
    decreases |a|
  {
    if |a| > 1 {
      CeilShrinks(|a|, 2);
      UpSameShape(h, a, b);
      TopSameShape(h, Up(h, a), Up(h, b));
    }
  }

  // --------------------------------------------------------------- sorted keys

  ghost predicate Ascending(keys: seq<Str>) {
    forall i, j :: 0 <= i < j < |keys| ==> Less(keys[i], keys[j])
  }

  /** The keys of a set, each once, in order. */
  ghost predicate Lists(keys: seq<Str>, all: set<Str>) {
    Ascending(keys) && (forall k :: k in keys <==> k in all)
  }

  function InsertKey(k: Str, keys: seq<Str>): (r: seq<Str>)
    ensures forall x :: x in r <==> x == k || x in keys
  {
    if keys == [] || Less(k, keys[0]) then [k] + keys
    else [keys[0]] + InsertKey(k, keys[1..])
  }

  lemma {:induction false} InsertKeyAscends(k: Str, keys: seq<Str>)
    requires Ascending(keys) && k !in keys
    ensures Ascending(InsertKey(k, keys))
  {
    if keys == [] {
    } else {
      if Less(k, keys[0]) {
        assert forall j :: 0 < j < |keys| ==> Less(keys[0], keys[j]);
      } else {
        InsertKeyAscends(k, keys[1..]);
        var r := InsertKey(k, keys[1..]);
        var _ := Less(keys[0], k);
        forall j | 0 <= j < |r| ensures Less(keys[0], r[j]) {
          assert r[j] in r;
        }
      }
    }
  }

  /** The keys of a map in whatever order they come, then sorted. */
  method SortedKeys(all: set<Str>) returns (keys: seq<Str>)
    ensures Lists(keys, all)
  {
    keys := [];
    var todo := all;
    while todo != {}
      invariant todo <= all && Ascending(keys) && forall k :: k in keys <==> k in all && k !in todo
      decreases |todo|
    {
      var k :| k in todo;
      InsertKeyAscends(k, keys);
      keys := InsertKey(k, keys);
      todo := todo - {k};
    }
  }

  lemma {:induction false} OneListing(a: seq<Str>, b: seq<Str>)
    requires Ascending(a) && Ascending(b) && forall k :: k in a <==> k in b
    ensures a == b
  {
    assert b != [] ==> b[0] in b;
    if a == [] {
    } else {
      assert a[0] in b && b != [];
      assert b[0] in a;
      SmallestFirst(a, b);
      SmallestFirst(b, a);
      var _ := Less(a[0], b[0]);
      RestOf(a);
      RestOf(b);
      OneListing(a[1..], b[1..]);
    }
  }

  lemma SmallestFirst(a: seq<Str>, b: seq<Str>)
    requires Ascending(a) && a != [] && b != [] && b[0] in a
    ensures !Less(b[0], a[0])
  {
    var i :| 0 <= i < |a| && a[i] == b[0];
    assert i > 0 ==> Less(a[0], a[i]);
  }

  lemma RestOf(a: seq<Str>)
    requires Ascending(a) && a != []
    ensures Ascending(a[1..]) && forall k :: k in a[1..] <==> k in a && k != a[0]
  {
    forall k | k in a[1..] ensures k != a[0] {
      var i :| 0 <= i < |a[1..]| && a[1..][i] == k;
      assert Less(a[0], a[i + 1]);
    }
  }

  // ---------------------------------------------------------------------- trees

  ghost function Leaves(h: Hash, data: map<Str, Str>, keys: seq<Str>): seq<Node>
    requires forall k :: k in keys ==> k in data
  {
    seq(|keys|, i requires 0 <= i < |keys| => Leaf(h(LeafInput(keys[i], data[keys[i]])), keys[i]))
  }

  /** The tree of a map: its keys in order, paired up to a root. */
  ghost predicate IsTree(h: Hash, data: map<Str, Str>, root: Option<Node>) {
    match root
    case None => data == map[]
    case Some(n) => Lists(Collect(n), data.Keys) && n == Top(h, Leaves(h, data, Collect(n)))
  }

  lemma {:induction false} FlatLeaves(h: Hash, data: map<Str, Str>, keys: seq<Str>)
    requires forall k :: k in keys ==> k in data
    ensures Flat(Leaves(h, data, keys)) == keys
  {
    if keys == [] {
    } else {
      FlatLeaves(h, data, keys[1..]);
      assert Leaves(h, data, keys)[1..] == Leaves(h, data, keys[1..]);
      assert Leaves(h, data, keys)[0] == Leaf(h(LeafInput(keys[0], data[keys[0]])), keys[0]);
    }
  }

  method Build(h: Hash, data: map<Str, Str>) returns (root: Option<Node>)
    ensures IsTree(h, data, root)
  {
    if data == map[] {
      return None;
    }
    var keys := SortedKeys(data.Keys);
    var level: seq<Node> := [];
    for i := 0 to |keys|
      invariant level == Leaves(h, data, keys)[..i]
    {
      assert keys[i] in keys;
      level := level + [Leaf(h(LeafInput(keys[i], data[keys[i]])), keys[i])];
    }
    ghost var leaves := Leaves(h, data, keys);
    assert leaves[..|keys|] == leaves;
    assert keys != [] by { var k :| k in data; assert k in keys; }
    while |level| > 1
      invariant level != [] && Top(h, level) == Top(h, leaves)
      decreases |level|
    {
      CeilShrinks(|level|, 2);
      level := NextLevel(h, level);
    }
    LeavesAreBuilt(h, data, keys);
    TopIsBuilt(h, data, leaves, 0);
    FlatLeaves(h, data, keys);
    root := Some(level[0]);
  }

  lemma LeavesAreBuilt(h: Hash, data: map<Str, Str>, keys: seq<Str>)
    requires forall k :: k in keys ==> k in data
    ensures var leaves := Leaves(h, data, keys);
            |leaves| == |keys| && forall i :: 0 <= i < |leaves| ==> Built(h, data, leaves[i]) && Height(leaves[i]) <= 0
  {
    assert forall i :: 0 <= i < |keys| ==> keys[i] in keys;
  }

  lemma TreeFacts(h: Hash, data: map<Str, Str>, n: Node)
    requires IsTree(h, data, Some(n))
    ensures Built(h, data, n) && Distinct(Collect(n)) && Keys(n) == data.Keys
    ensures |Collect(n)| == |data| && Height(n) <= Passes(|data|, 2)
  {
    var keys := Collect(n);
    LeavesAreBuilt(h, data, keys);
    TopIsBuilt(h, data, Leaves(h, data, keys), 0);
    assert forall i, j :: 0 <= i < j < |keys| ==> Less(keys[i], keys[j]);
    DistinctCount(keys);
    assert Keys(n) == data.Keys && |data| == |data.Keys|;
  }

  lemma {:induction false} DistinctCount(keys: seq<Str>)
    requires Distinct(keys)
    ensures |set k | k in keys| == |keys|
  {
    if keys == [] {
      assert (set k | k in keys) == {};
    } else {
      var rest := keys[..|keys| - 1];
      DistinctCount(rest);
      assert keys == rest + [keys[|keys| - 1]];
      assert (set k | k in keys) == (set k | k in rest) + {keys[|keys| - 1]};
    }
  }

  lemma TreesOfSameKeys(h: Hash, da: map<Str, Str>, x: Node, db: map<Str, Str>, y: Node)
    requires IsTree(h, da, Some(x)) && IsTree(h, db, Some(y)) && da.Keys == db.Keys
    ensures SameShape(x, y)
  {
    var keys := Collect(x);
    OneListing(keys, Collect(y));
    assert forall i :: 0 <= i < |keys| ==> SameShape(Leaves(h, da, keys)[i], Leaves(h, db, keys)[i]);
    TopSameShape(h, Leaves(h, da, keys), Leaves(h, db, keys));
  }

  /** The hash of a leaf, and of two nodes joined. */
  lemma HashBytes(h: Hash, data: map<Str, Str>, keys: seq<Str>, i: nat)
    requires (forall k :: k in keys ==> k in data) && i < |keys|
    ensures |Leaves(h, data, keys)| == |keys|
    ensures Leaves(h, data, keys)[i].hash == h([0] + keys[i] + [0x1f] + data[keys[i]])
  {
    assert keys[i] in keys;
    assert LeafInput(keys[i], data[keys[i]]) == [0] + keys[i] + [0x1f] + data[keys[i]];
  }

  lemma JoinedHash(h: Hash, l: Node, r: Node)
    ensures Join(h, l, r).hash == h([1] + l.hash + r.hash)
  {
  }

  lemma TopOfTwo(h: Hash, level: seq<Node>)
    requires |level| == 2
    ensures Top(h, level) == Join(h, level[0], level[1])
  {
    assert level[2..] == [];
    assert Up(h, level) == [Join(h, level[0], level[1])];
  }

  /** The odd one out goes up as it is. */
  lemma TopOfThree(h: Hash, level: seq<Node>)
    requires |level| == 3
    ensures Top(h, level) == Join(h, Join(h, level[0], level[1]), level[2])
  {
    assert level[2..] == [level[2]];
    var up := [Join(h, level[0], level[1]), level[2]];
    assert Up(h, level) == up;
    TopOfTwo(h, up);
  }

  /** The roots over one, two and three keys. */
  lemma RootOfOne(h: Hash, k: Str, v: Str, n: Node)
    requires IsTree(h, map[k := v], Some(n))
    ensures n.hash == h([0] + k + [0x1f] + v)
  {
    OneListing(Collect(n), [k]);
    HashBytes(h, map[k := v], [k], 0);
  }

  lemma RootOfTwo(h: Hash, data: map<Str, Str>, a: Str, b: Str, n: Node)
    requires Less(a, b) && data.Keys == {a, b} && IsTree(h, data, Some(n))
    ensures n.hash == h([1] + h([0] + a + [0x1f] + data[a]) + h([0] + b + [0x1f] + data[b]))
  {
    var keys := [a, b];
    OneListing(Collect(n), keys);
    var level := Leaves(h, data, keys);
    HashBytes(h, data, keys, 0);
    HashBytes(h, data, keys, 1);
    TopOfTwo(h, level);
    JoinedHash(h, level[0], level[1]);
  }

  lemma RootOfThree(h: Hash, data: map<Str, Str>, a: Str, b: Str, c: Str, n: Node)
    requires Less(a, b) && Less(b, c) && data.Keys == {a, b, c} && IsTree(h, data, Some(n))
    ensures var ab := h([1] + h([0] + a + [0x1f] + data[a]) + h([0] + b + [0x1f] + data[b]));
            n.hash == h([1] + ab + h([0] + c + [0x1f] + data[c]))
  {
    var keys := [a, b, c];
    ThreeAscend(a, b, c);
    OneListing(Collect(n), keys);
    var level := Leaves(h, data, keys);
    HashBytes(h, data, keys, 0);
    HashBytes(h, data, keys, 1);
    HashBytes(h, data, keys, 2);
    TopOfThree(h, level);
    JoinedHash(h, level[0], level[1]);
    JoinedHash(h, Join(h, level[0], level[1]), level[2]);
  }

  lemma ThreeAscend(a: Str, b: Str, c: Str)
    requires Less(a, b) && Less(b, c)
    ensures Ascending([a, b, c])
  {
    LessIsTotalOrder(a, b, c);
  }

  // ------------------------------------------------------------------- the results

  /** Differs on the two sides, or is on one side only. */
  ghost predicate Disagree(da: map<Str, Str>, db: map<Str, Str>, k: Str) {
    (k in da) != (k in db) || Differs(da, db, k)
  }

  ghost predicate Collisionless(h: Hash, x: Option<Node>, da: map<Str, Str>, y: Option<Node>, db: map<Str, Str>) {
    Sized(h) && (x.Some? && y.Some? ==> NoCollision(h, Inputs(da, x.value) + Inputs(db, y.value)))
  }

  ghost function DiffOf(x: Option<Node>, y: Option<Node>): set<Str> {
    match (x, y)
    case (None, None) => {}
    case (None, Some(n)) => Keys(n)
    case (Some(n), None) => Keys(n)
    case (Some(m), Some(n)) => Reported(m, n)
  }

  method Diff(x: Option<Node>, y: Option<Node>) returns (out: seq<Str>)
    ensures Lists(out, DiffOf(x, y))
  {
    match (x, y) {
      case (None, None) =>
        out := [];
      case (None, Some(n)) =>
        out := SortedKeys(set k | k in Collect(n));
      case (Some(n), None) =>
        out := SortedKeys(set k | k in Collect(n));
      case (Some(m), Some(n)) =>
        var seen := Walk(m, n, {});
        out := SortedKeys(seen);
    }
  }

  method CompareCost(x: Option<Node>, y: Option<Node>) returns (count: nat)
    ensures count == if x.Some? && y.Some? then Cost(x.value, y.value) else if x.Some? || y.Some? then 1 else 0
  {
    match (x, y) {
      case (None, None) => count := 0;
      case (None, Some(_)) => count := 1;
      case (Some(_), None) => count := 1;
      case (Some(m), Some(n)) => count := CountComparisons(m, n, 0);
    }
  }

  /** Whatever the two maps hold, no disagreement is missed, where no leaves can be confused. */
  lemma DiffMissesNothing(h: Hash, da: map<Str, Str>, x: Option<Node>, db: map<Str, Str>, y: Option<Node>, k: Str)
    requires IsTree(h, da, x) && IsTree(h, db, y) && Collisionless(h, x, da, y, db) && NoneOpens(da.Keys, db.Keys)
    requires Disagree(da, db, k)
    ensures k in DiffOf(x, y)
  {
    if x.Some? && y.Some? {
      TreeFacts(h, da, x.value);
      TreeFacts(h, db, y.value);
      if k !in DiffOf(x, y) {
        NothingMissed(h, da, x.value, db, y.value, k);
      }
    }
  }

  /** Nothing is missed, whatever values the keys of the two sides have. */
  ghost predicate MissesNothing(h: Hash, a: set<Str>, b: set<Str>) {
    forall da, x, db, y, k ::
      IsTree(h, da, x) && IsTree(h, db, y) && da.Keys <= a && db.Keys <= b && Collisionless(h, x, da, y, db) &&
          Disagree(da, db, k)
      ==> k in DiffOf(x, y)
  }

  /** With any hash, two sides with these keys are told apart, whatever their values, exactly
      when no key of one and a separator begin a key of the other. */
  lemma MissesNothingExactly(h: Hash, a: set<Str>, b: set<Str>)
    requires Sized(h)
    ensures MissesNothing(h, a, b) <==> NoneOpens(a, b)
  {
    if NoneOpens(a, b) {
      forall da, x, db, y, k |
        IsTree(h, da, x) && IsTree(h, db, y) && da.Keys <= a && db.Keys <= b && Collisionless(h, x, da, y, db) &&
            Disagree(da, db, k)
        ensures k in DiffOf(x, y)
      {
        DiffMissesNothing(h, da, x, db, y, k);
      }
    } else {
      var k, k' :| k in a && k' in b && (Opens(k, k') || Opens(k', k));
      if Opens(k, k') {
        var da, db, x, y := HiddenBehind(h, k, k');
        assert Collisionless(h, x, da, y, db);
      } else {
        var db, da, y, x := HiddenBehind(h, k', k);
        assert Collisionless(h, x, da, y, db);
      }
    }
  }

  /** A key and one it opens: with the right values their leaves hash the same input. */
  lemma HiddenBehind(h: Hash, k: Str, k': Str)
    returns (da: map<Str, Str>, db: map<Str, Str>, x: Option<Node>, y: Option<Node>)
    requires Sized(h) && Opens(k, k')
    ensures da.Keys == {k} && db.Keys == {k'} && IsTree(h, da, x) && IsTree(h, db, y)
    ensures Collisionless(h, x, da, y, db) && Collisionless(h, y, db, x, da)
    ensures Disagree(da, db, k) && Disagree(db, da, k) && DiffOf(x, y) == DiffOf(y, x) == {}
  {
    var v := k'[|k| + 1..] + [SEPARATOR];
    da, db := map[k := v], map[k' := []];
    x, y := Some(OnlyLeaf(h, k, v)), Some(OnlyLeaf(h, k', []));
    OneLeafTree(h, k, v);
    OneLeafTree(h, k', []);
    SameInput(k, k');
  }

  lemma SameInput(k: Str, k': Str)
    requires Opens(k, k')
    ensures LeafInput(k, k'[|k| + 1..] + [SEPARATOR]) == LeafInput(k', []) && k != k'
  {
    assert k' == k + [SEPARATOR] + k'[|k| + 1..];
  }

  function OnlyLeaf(h: Hash, k: Str, v: Str): Node {
    Leaf(h(LeafInput(k, v)), k)
  }

  lemma OneLeafTree(h: Hash, k: Str, v: Str)
    ensures IsTree(h, map[k := v], Some(OnlyLeaf(h, k, v)))
    ensures Inputs(map[k := v], OnlyLeaf(h, k, v)) == {LeafInput(k, v)}
  {
    var data := map[k := v];
    assert Collect(OnlyLeaf(h, k, v)) == [k] && data.Keys == {k};
    assert Leaves(h, data, [k]) == [OnlyLeaf(h, k, v)];
  }

  /** On the same n keys exactly the d differing ones come back, for at most
      1 + 2 d ceil(log2 n) comparisons. */
  lemma DiffIsExactOnSameKeys(h: Hash, da: map<Str, Str>, x: Node, db: map<Str, Str>, y: Node)
    requires IsTree(h, da, Some(x)) && IsTree(h, db, Some(y)) && da.Keys == db.Keys
    requires Collisionless(h, Some(x), da, Some(y), db)
    ensures DiffOf(Some(x), Some(y)) == set k | k in da.Keys && Disagree(da, db, k)
    ensures Cost(x, y) <= 1 + 2 * (|DiffOf(Some(x), Some(y))| * Passes(|da|, 2))
  {
    TreeFacts(h, da, x);
    TreeFacts(h, db, y);
    TreesOfSameKeys(h, da, x, db, y);
    SameKeysExact(h, da, x, db, y);
    CostIsLow(h, da, x, db, y);
    CostInLogs(Cost(x, y), |Reported(x, y)|, Height(x), Passes(|da|, 2));
  }

  lemma CostInLogs(cost: nat, d: nat, height: nat, log: nat)
    requires cost <= 1 + 2 * Times(d, height) && height <= log
    ensures cost <= 1 + 2 * (d * log)
  {
    TimesIsProduct(d, height);
    MulMono(height, log, d);
  }
}
