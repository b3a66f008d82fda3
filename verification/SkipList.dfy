/** The memtable of the LSM engine: a skip list of mutable nodes.

    Level i is a singly linked list through `next[i]` of the nodes taller than
    i. The ghost field `order` lists the nodes by key; keys and heights never
    change, so the levels are a fact about values and only the links live on
    the heap. Heights come from a random generator: any height is allowed. */
module SkipList {
  import opened ByteStrings

  const MAX_LEVEL := 16

  /** What the memtable knows of a key: a value, or a tombstone. */
  datatype Cell = Cell(value: Str, deleted: bool)

  datatype Entry = Entry(key: Str, cell: Cell)

  /** What a lookup reports: the value, whether it was found, whether a tombstone was. */
  datatype Answer = Answer(value: Str, found: bool, tombstone: bool)

  function Consult(m: map<Str, Cell>, key: Str): Answer {
    if key !in m then Answer([], false, false)
    else if m[key].deleted then Answer([], false, true)
    else Answer(m[key].value, true, false)
  }

  /** A run: entries in strictly ascending key order. */
  ghost predicate Run(es: seq<Entry>) {
    forall i, j :: 0 <= i < j < |es| ==> Less(es[i].key, es[j].key)
  }

  ghost predicate Lists(es: seq<Entry>, m: map<Str, Cell>) {
    && (forall i :: 0 <= i < |es| ==> es[i].key in m && m[es[i].key] == es[i].cell)
    && (forall k :: k in m ==> exists i :: 0 <= i < |es| && es[i].key == k)
  }

  class SkipNode {
    const key: Str
    const height: nat
    var value: Str
    var deleted: bool
    var next: seq<SkipNode?>

    constructor (key: Str, value: Str, deleted: bool, height: nat)
      ensures this.key == key && this.height == height && this.value == value && this.deleted == deleted
      ensures next == seq(height, i => null)
    {
      this.key, this.value, this.deleted, this.height := key, value, deleted, height;
      next := seq(height, i => null);
    }
  }

  // ------------------------------------------------------------ lists of nodes

  ghost predicate Ascending(ns: seq<SkipNode>) {
    forall i, j :: 0 <= i < j < |ns| ==> Less(ns[i].key, ns[j].key)
  }

  /** How many keys of an ascending list are below `key`. */
  ghost function CountBelow(ns: seq<SkipNode>, key: Str): (c: nat)
    ensures c <= |ns|
    ensures forall i :: 0 <= i < c ==> Less(ns[i].key, key)
    ensures c < |ns| ==> !Less(ns[c].key, key)
  {
    if ns == [] || !Less(ns[0].key, key) then 0 else 1 + CountBelow(ns[1..], key)
  }

  lemma {:induction false} CountBelowIs(ns: seq<SkipNode>, key: Str, c: nat)
    requires Ascending(ns) && c <= |ns|
    requires c > 0 ==> Less(ns[c - 1].key, key)
    requires c < |ns| ==> !Less(ns[c].key, key)
    ensures CountBelow(ns, key) == c
  {
    if c == 0 {
    } else {
      assert c > 1 ==> Less(ns[0].key, ns[c - 1].key);
      CountBelowIs(ns[1..], key, c - 1);
    }
  }

  ghost predicate Contains(ns: seq<SkipNode>, key: Str) {
    exists i :: 0 <= i < |ns| && ns[i].key == key
  }

  lemma {:induction false} FoundOnlyThere(ns: seq<SkipNode>, key: Str)
    requires Ascending(ns)
    ensures var c := CountBelow(ns, key); Contains(ns, key) <==> c < |ns| && ns[c].key == key
  {
    var c := CountBelow(ns, key);
    if c < |ns| {
      var _ := Less(key, ns[c].key);
      assert forall j :: c < j < |ns| ==> Less(ns[c].key, ns[j].key);
    }
    assert !Less(key, key);
  }

  /** The node at place p of a list that starts at `head`; null past its end. */
  ghost function Spot(head: SkipNode, ns: seq<SkipNode>, p: nat): SkipNode?
    ensures p <= |ns| ==> Spot(head, ns, p) != null
  {
    if p == 0 then head else if p <= |ns| then ns[p - 1] else null
  }

  /** The node after which `key` belongs. */
  ghost function Before(head: SkipNode, ns: seq<SkipNode>, key: Str): SkipNode {
    Spot(head, ns, CountBelow(ns, key))
  }

  /** The list with `n` put in its place. */
  ghost function Inserted(ns: seq<SkipNode>, n: SkipNode): (r: seq<SkipNode>)
    ensures forall x :: x in r ==> x == n || x in ns
  {
    if ns == [] || !Less(ns[0].key, n.key) then [n] + ns else [ns[0]] + Inserted(ns[1..], n)
  }

  lemma {:induction false} InsertedAt(ns: seq<SkipNode>, n: SkipNode)
    ensures var c := CountBelow(ns, n.key); Inserted(ns, n) == ns[..c] + [n] + ns[c..]
  {
    if ns != [] && Less(ns[0].key, n.key) {
      InsertedAt(ns[1..], n);
      var c := CountBelow(ns[1..], n.key);
      assert ns[..c + 1] == [ns[0]] + ns[1..][..c] && ns[c + 1..] == ns[1..][c..];
    }
  }

  lemma {:induction false} InsertedMembers(ns: seq<SkipNode>, n: SkipNode)
    ensures n in Inserted(ns, n) && forall x :: x in ns ==> x in Inserted(ns, n)
  {
    if ns != [] && Less(ns[0].key, n.key) { InsertedMembers(ns[1..], n); }
  }

  lemma {:induction false} InsertedAscends(ns: seq<SkipNode>, n: SkipNode)
    requires Ascending(ns) && forall i :: 0 <= i < |ns| ==> ns[i].key != n.key
    ensures Ascending(Inserted(ns, n))
  {
    if ns == [] {
    } else {
      if Less(ns[0].key, n.key) {
        InsertedAscends(ns[1..], n);
        InsertedMembers(ns[1..], n);
        var rest := Inserted(ns[1..], n);
        forall j | 0 <= j < |rest| ensures Less(ns[0].key, rest[j].key) {
          assert rest[j] in rest;
        }
      } else {
        var _ := Less(n.key, ns[0].key);
        assert forall j :: 0 < j < |ns| ==> Less(ns[0].key, ns[j].key);
      }
    }
  }

  // ---------------------------------------------------------------- the levels

  /** Level i of the list: the nodes taller than i, in order. */
  ghost function Taller(ns: seq<SkipNode>, i: nat): (r: seq<SkipNode>)
    ensures forall j :: 0 <= j < |r| ==> r[j] in ns && r[j].height > i
  {
    if ns == [] then []
    else (if ns[0].height > i then [ns[0]] else []) + Taller(ns[1..], i)
  }

  lemma {:induction false} TallerMembers(ns: seq<SkipNode>, i: nat)
    ensures forall x :: x in ns && x.height > i ==> x in Taller(ns, i)
  {
    if ns != [] { TallerMembers(ns[1..], i); }
  }

  lemma {:induction false} TallerAscends(ns: seq<SkipNode>, i: nat)
    requires Ascending(ns)
    ensures Ascending(Taller(ns, i))
  {
    if ns == [] {
    } else {
      var rest := Taller(ns[1..], i);
      TallerAscends(ns[1..], i);
      forall j | 0 <= j < |rest| ensures Less(ns[0].key, rest[j].key) {
        assert rest[j] in ns[1..];
      }
    }
  }

  /** Level 0 holds every node. */
  lemma {:induction false} TallerZero(ns: seq<SkipNode>)
    requires forall x :: x in ns ==> x.height > 0
    ensures Taller(ns, 0) == ns
  {
    if ns != [] { TallerZero(ns[1..]); }
  }

  lemma {:induction false} TallerNone(ns: seq<SkipNode>, i: nat)
    requires forall x :: x in ns ==> x.height <= i
    ensures Taller(ns, i) == []
  {
    if ns != [] { TallerNone(ns[1..], i); }
  }

  /** A new node enters exactly the levels below its height, each at its place. */
  lemma {:induction false} TallerInserted(ns: seq<SkipNode>, n: SkipNode, i: nat)
    requires Ascending(ns)
    ensures Taller(Inserted(ns, n), i) ==
      if n.height > i then Inserted(Taller(ns, i), n) else Taller(ns, i)
  {
    if ns == [] || !Less(ns[0].key, n.key) {
      NoneBelowInTaller(ns, n.key, i);
      assert Inserted(ns, n)[1..] == ns;
    } else {
      TallerInserted(ns[1..], n, i);
      var t := Taller(ns[1..], i);
      assert Inserted(ns, n)[1..] == Inserted(ns[1..], n) && Inserted(ns, n)[0] == ns[0];
      if ns[0].height > i {
        assert ([ns[0]] + t)[1..] == t;
      } else {
        assert Taller(ns, i) == t;
      }
    }
  }

  lemma NoneBelowInTaller(ns: seq<SkipNode>, key: Str, i: nat)
    requires Ascending(ns) && (ns == [] || !Less(ns[0].key, key))
    ensures var t := Taller(ns, i); t == [] || !Less(t[0].key, key)
  {
    var t := Taller(ns, i);
    if t != [] {
      assert t[0] in ns;
      assert forall j :: 0 < j < |ns| ==> Less(ns[0].key, ns[j].key);
    }
  }

  /** On level i the node at place p points at the one after it. */
  ghost predicate Hop(head: SkipNode, ns: seq<SkipNode>, i: nat, p: nat)
    requires p <= |ns|
    reads head`next, ns`next
  {
    var x := Spot(head, ns, p);
    |x.next| > i && x.next[i] == Spot(head, ns, p + 1)
  }

  /** The heap links of level i spell out `ns`. */
  ghost predicate Linked(head: SkipNode, ns: seq<SkipNode>, i: nat)
    reads head`next, ns`next
  {
    forall p :: 0 <= p <= |ns| ==> Hop(head, ns, i, p)
  }

  /** One level of a search: walk right while the next key is still below. */
  method Walk(head: SkipNode, x: SkipNode, i: nat, key: Str, ghost ns: seq<SkipNode>, ghost pos: nat)
      returns (y: SkipNode)
    requires Linked(head, ns, i) && Ascending(ns)
    requires pos <= |ns| && x == Spot(head, ns, pos)
    requires pos > 0 ==> Less(x.key, key)
    ensures y == Before(head, ns, key)
  {
    y := x;
    ghost var p := pos;
    assert Hop(head, ns, i, p);
    while y.next[i] != null && Less(y.next[i].key, key)
      invariant p <= |ns| && y == Spot(head, ns, p) && Hop(head, ns, i, p)
      invariant p > 0 ==> Less(ns[p - 1].key, key)
      decreases |ns| - p
    {
      y := y.next[i];
      p := p + 1;
      assert Hop(head, ns, i, p);
    }
    CountBelowIs(ns, key, p);
  }

  /** The bytes the keys and values of `ns` take up. */
  ghost function Weight(ns: seq<SkipNode>, m: map<Str, Cell>): int {
    if ns == [] then 0 else |ns[0].key| + ValueSize(m, ns[0].key) + Weight(ns[1..], m)
  }

  ghost function ValueSize(m: map<Str, Cell>, key: Str): int {
    if key in m then |m[key].value| else 0
  }

  lemma {:induction false} WeightPositive(ns: seq<SkipNode>, m: map<Str, Cell>)
    ensures Weight(ns, m) >= 0
  {
    if ns == [] {
    } else {
      WeightPositive(ns[1..], m);
    }
  }

  lemma {:induction false} WeightElsewhere(ns: seq<SkipNode>, m: map<Str, Cell>, key: Str, cell: Cell)
    requires !Contains(ns, key)
    ensures Weight(ns, m[key := cell]) == Weight(ns, m)
  {
    if ns == [] {
    } else {
      assert forall i :: 0 <= i < |ns[1..]| ==> ns[1..][i] == ns[i + 1];
      WeightElsewhere(ns[1..], m, key, cell);
    }
  }

  lemma {:induction false} WeightReplaced(ns: seq<SkipNode>, m: map<Str, Cell>, key: Str, cell: Cell)
    requires Ascending(ns) && Contains(ns, key)
    ensures Weight(ns, m[key := cell]) == Weight(ns, m) + |cell.value| - ValueSize(m, key)
  {
    if ns[0].key == key {
      KeysDistinct(ns);
      WeightElsewhere(ns[1..], m, key, cell);
    } else {
      var i :| 0 <= i < |ns| && ns[i].key == key;
      assert ns[1..][i - 1].key == key;
      WeightReplaced(ns[1..], m, key, cell);
    }
  }

  lemma {:induction false} WeightInserted(ns: seq<SkipNode>, n: SkipNode, m: map<Str, Cell>, cell: Cell)
    requires !Contains(ns, n.key)
    ensures Weight(Inserted(ns, n), m[n.key := cell]) == Weight(ns, m) + |n.key| + |cell.value|
  {
    if ns == [] || !Less(ns[0].key, n.key) {
      assert Inserted(ns, n)[1..] == ns;
      WeightElsewhere(ns, m, n.key, cell);
    } else {
      assert forall i :: 0 <= i < |ns[1..]| ==> ns[1..][i] == ns[i + 1];
      assert ns[0].key != n.key;
      WeightInserted(ns[1..], n, m, cell);
    }
  }

  /** The nodes hold exactly the cells of `m`. */
  ghost predicate Stored(ns: seq<SkipNode>, m: map<Str, Cell>)
    reads ns`value, ns`deleted
  {
    && (forall i :: 0 <= i < |ns| ==> ns[i].key in m && m[ns[i].key] == Cell(ns[i].value, ns[i].deleted))
    && (forall k :: k in m ==> Contains(ns, k))
  }

  method Overwrite(n: SkipNode, value: Str, deleted: bool, ghost ns: seq<SkipNode>, ghost m: map<Str, Cell>)
    requires Ascending(ns) && n in ns && Stored(ns, m)
    modifies n`value, n`deleted
    ensures Stored(ns, m[n.key := Cell(value, deleted)])
  {
    KeysDistinct(ns);
    n.value, n.deleted := value, deleted;
    assert forall k :: k in m ==> Contains(ns, k);
  }

  lemma StoredInserted(ns: seq<SkipNode>, n: SkipNode, m: map<Str, Cell>)
    requires Stored(ns, m) && !Contains(ns, n.key)
    ensures Stored(Inserted(ns, n), m[n.key := Cell(n.value, n.deleted)])
  {
    var c, ns' := CountBelow(ns, n.key), Inserted(ns, n);
    InsertedAt(ns, n);
    forall k | k in m[n.key := Cell(n.value, n.deleted)] ensures Contains(ns', k) {
      if k == n.key {
        assert ns'[c].key == k;
      } else {
        var i :| 0 <= i < |ns| && ns[i].key == k;
        assert ns'[if i < c then i else i + 1].key == k;
      }
    }
    forall i | 0 <= i < |ns'| && i != c ensures ns'[i].key != n.key && ns'[i] in ns {
      assert ns'[i] == ns[if i < c then i else i - 1];
    }
  }

  lemma KeysDistinct(ns: seq<SkipNode>)
    requires Ascending(ns)
    ensures forall i, j :: 0 <= i < j < |ns| ==> ns[i].key != ns[j].key && ns[i] != ns[j]
  {
    assert forall i, j :: 0 <= i < j < |ns| ==> Less(ns[i].key, ns[j].key);
  }

  /** The list of level k once the levels below i have taken `n` in. */
  ghost function Mixed(ns: seq<SkipNode>, n: SkipNode, i: nat, k: nat): seq<SkipNode> {
    if k < i then Inserted(Taller(ns, k), n) else Taller(ns, k)
  }

  /** The lists of all levels at that point. */
  ghost function Levels(ns: seq<SkipNode>, n: SkipNode, i: nat): (ls: seq<seq<SkipNode>>)
    ensures |ls| == MAX_LEVEL && forall k :: 0 <= k < MAX_LEVEL ==> ls[k] == Mixed(ns, n, i, k)
  {
    seq(MAX_LEVEL, k requires 0 <= k < MAX_LEVEL => Mixed(ns, n, i, k))
  }

  ghost function AllOf(ls: seq<seq<SkipNode>>): (r: set<SkipNode>)
    ensures forall k, x :: 0 <= k < |ls| && x in ls[k] ==> x in r
  {
    set k, x | 0 <= k < |ls| && x in ls[k] :: x
  }

  /** The heap links of every level spell out its list. */
  ghost predicate LinkedAll(head: SkipNode, ls: seq<seq<SkipNode>>)
    reads head`next, AllOf(ls)`next
  {
    forall k :: 0 <= k < |ls| ==> Linked(head, ls[k], k)
  }

  /** Splices `n` into level i after `u`; the other levels' links stay. */
  method LinkLevel(head: SkipNode, u: SkipNode, n: SkipNode, i: nat, ghost ls: seq<seq<SkipNode>>)
    requires i < |ls| && LinkedAll(head, ls) && Ascending(ls[i]) && u == Before(head, ls[i], n.key)
    requires n != head && n !in ls[i] && head !in ls[i] && |n.next| > i
    modifies u`next, n`next
    ensures LinkedAll(head, ls[i := Inserted(ls[i], n)])
    ensures |u.next| == |old(u.next)| && |n.next| == |old(n.next)|
  {
    ghost var ns := ls[i];
    ghost var c := CountBelow(ns, n.key);
    assert Linked(head, ns, i) && Hop(head, ns, i, c);
    n.next := n.next[i := u.next[i]];
    u.next := u.next[i := n];
    forall k | 0 <= k < |ls| && k != i ensures Linked(head, ls[k], k) {
      assert old(Linked(head, ls[k], k));
      forall p | 0 <= p <= |ls[k]| ensures Hop(head, ls[k], k, p) {
        assert old(Hop(head, ls[k], k, p));
      }
    }
    forall p | 0 <= p <= |ns| && p != c ensures Hop(head, ns, i, p) {
      assert old(Hop(head, ns, i, p));
      SpotsDiffer(head, ns, p, c);
    }
    forall p | 0 <= p <= |Inserted(ns, n)| ensures Hop(head, Inserted(ns, n), i, p) {
      InsertedSpots(head, ns, n, p);
      assert p < c ==> Hop(head, ns, i, p);
      assert p > c + 1 ==> Hop(head, ns, i, p - 1);
    }
  }

  lemma SpotsDiffer(head: SkipNode, ns: seq<SkipNode>, p: nat, q: nat)
    requires Ascending(ns) && head !in ns && p <= |ns| && q <= |ns| && p != q
    ensures Spot(head, ns, p) != Spot(head, ns, q)
  {
    if p > 0 && q > 0 {
      assert Less(ns[p - 1].key, ns[q - 1].key) || Less(ns[q - 1].key, ns[p - 1].key);
    }
  }

  /** Where the nodes of a list stand once `n` is in. */
  lemma InsertedSpots(head: SkipNode, ns: seq<SkipNode>, n: SkipNode, p: nat)
    ensures var c := CountBelow(ns, n.key);
            && |Inserted(ns, n)| == |ns| + 1
            && Spot(head, Inserted(ns, n), p) ==
               (if p <= c then Spot(head, ns, p) else if p == c + 1 then n else Spot(head, ns, p - 1))
            && Spot(head, Inserted(ns, n), p + 1) ==
               (if p < c then Spot(head, ns, p + 1) else if p == c then n else Spot(head, ns, p))
  {
    InsertedAt(ns, n);
  }

  function EntryAt(n: SkipNode): Entry
    reads n
  {
    Entry(n.key, Cell(n.value, n.deleted))
  }

  method ReadOff(head: SkipNode, ghost ns: seq<SkipNode>) returns (out: seq<Entry>)
    requires Linked(head, ns, 0)
    ensures |out| == |ns| && forall i :: 0 <= i < |out| ==> out[i] == EntryAt(ns[i])
  {
    assert Hop(head, ns, 0, 0);
    var n := head.next[0];
    out := [];
    while n != null
      invariant |out| <= |ns| && n == Spot(head, ns, |out| + 1)
      invariant forall i :: 0 <= i < |out| ==> out[i] == EntryAt(ns[i])
      decreases |ns| - |out|
    {
      out := out + [EntryAt(n)];
      assert Hop(head, ns, 0, |out|);
      n := n.next[0];
    }
  }

  class Memtable {
    const head: SkipNode
    var level: nat
    var count: nat
    var bytes: int
    ghost var order: seq<SkipNode>     // the nodes in key order
    ghost var contents: map<Str, Cell>

    ghost function Nodes(): set<SkipNode>
      reads this`order
    {
      {head} + set x | x in order
    }

    ghost predicate Links()
      reads this`order, this`level, Nodes()`next
    {
      LinksOf(order)
    }

    /** `ns` are the nodes of the list, and every level links those that reach it. */
    ghost predicate LinksOf(ns: seq<SkipNode>)
      reads this`level, head`next, ns`next
    {
      && head !in ns && |head.next| == MAX_LEVEL && Ascending(ns)
      && (forall x :: x in ns ==> 0 < x.height <= level)
      && 1 <= level <= MAX_LEVEL
      && (forall x :: x in ns ==> |x.next| == x.height)
      && (forall i :: 0 <= i < MAX_LEVEL ==> LevelOk(ns, i))
    }

    /** Level i links the nodes of `ns` that reach it. */
    ghost predicate LevelOk(ns: seq<SkipNode>, i: nat)
      reads head`next, ns`next
    {
      Linked(head, Taller(ns, i), i)
    }

    ghost predicate Valid()
      reads this, Nodes()
    {
      Links() && Stored(order, contents) && count == |order| && bytes == Weight(order, contents)
    }

    constructor ()
      ensures Valid() && contents == map[] && fresh(Nodes())
    {
      head := new SkipNode([], [], false, MAX_LEVEL);
      level, count, bytes := 1, 0, 0;
      order, contents := [], map[];
    }

    /** The search from the top level down, noting the node it leaves each level from. */
    method Find(key: Str) returns (update: seq<SkipNode?>, x: SkipNode)
      requires Links()
      ensures |update| == MAX_LEVEL && x == Before(head, order, key)
      ensures forall i :: 0 <= i < level ==> update[i] == Before(head, Taller(order, i), key)
    {
      x := head;
      update := seq(MAX_LEVEL, i => null);
      AtTop(key);
      var i := level;
      while i > 0
        invariant 0 <= i <= level && |update| == MAX_LEVEL
        invariant forall j :: i <= j < level ==> update[j] == Before(head, Taller(order, j), key)
        invariant x == Before(head, Taller(order, i), key)
      {
        ghost var above := i;
        i := i - 1;
        x := SearchLevel(x, i, key, above);
        update := update[i := x];
      }
      AtBottom(x, i, key);
    }

    /** The same search, without the notes. */
    method Seek(key: Str) returns (x: SkipNode)
      requires Links()
      ensures x == Before(head, order, key)
    {
      x := head;
      AtTop(key);
      var i := level;
      while i > 0
        invariant 0 <= i <= level && x == Before(head, Taller(order, i), key)
      {
        ghost var above := i;
        i := i - 1;
        x := SearchLevel(x, i, key, above);
      }
      AtBottom(x, i, key);
    }

    /** Above the tallest node only the head remains. */
    lemma AtTop(key: Str)
      requires forall x :: x in order ==> 0 < x.height <= level
      ensures Before(head, Taller(order, level), key) == head
    {
      TallerNone(order, level);
    }

    lemma AtBottom(x: SkipNode, i: nat, key: Str)
      requires i == 0 && x == Before(head, Taller(order, i), key)
      requires forall y :: y in order ==> 0 < y.height <= level
      ensures x == Before(head, order, key)
    {
      TallerZero(order);
    }

    /** One level of the search, from where the level above was left. */
    method SearchLevel(x: SkipNode, i: nat, key: Str, ghost above: nat) returns (y: SkipNode)
      requires Links() && i < MAX_LEVEL && above == i + 1 && x == Before(head, Taller(order, above), key)
      ensures y == Before(head, Taller(order, i), key)
    {
      ghost var pos := Descend(x, i, key);
      assert LevelOk(order, i);
      y := Walk(head, x, i, key, Taller(order, i), pos);
    }

    /** The node a level was left from is on the level below too. */
    lemma Descend(x: SkipNode, i: nat, key: Str) returns (pos: nat)
      requires Links() && i < MAX_LEVEL && x == Before(head, Taller(order, i + 1), key)
      ensures var ns := Taller(order, i);
              && pos <= |ns| && x == Spot(head, ns, pos)
              && (pos > 0 ==> Less(x.key, key)) && Ascending(ns)
    {
      pos := 0;
      TallerAscends(order, i);
      if CountBelow(Taller(order, i + 1), key) > 0 {
        TallerMembers(order, i);
        var ns := Taller(order, i);
        assert x in Taller(order, i + 1);
        var q :| 0 <= q < |ns| && ns[q] == x;
        pos := q + 1;
      }
    }

    /** The node after which a search ends points at the first key not below. */
    lemma FoundAt(key: Str, x: SkipNode)
      requires Links() && x == Before(head, order, key)
      ensures |x.next| > 0 && x.next[0] == Spot(head, order, CountBelow(order, key) + 1)
      ensures Contains(order, key) <==> x.next[0] != null && x.next[0].key == key
    {
      AllLinked();
      assert Hop(head, order, 0, CountBelow(order, key));
      FoundOnlyThere(order, key);
    }

    method RandomLevel() returns (l: nat)
      ensures 1 <= l <= MAX_LEVEL && l <= 16
    {
      l := 1;
      var heads: bool := *;
      while l < MAX_LEVEL && heads
        invariant 1 <= l <= MAX_LEVEL
        decreases MAX_LEVEL - l
      {
        l := l + 1;
        heads := *;
      }
    }

    /** The node the search stops before tells the cell of the key. */
    lemma Looked(key: Str, x: SkipNode)
      requires Valid() && x == Before(head, order, key)
      ensures |x.next| > 0
      ensures var n := x.next[0];
              if n != null && n.key == key then key in contents && contents[key] == Cell(n.value, n.deleted)
              else key !in contents
    {
      FoundAt(key, x);
      var c := CountBelow(order, key);
      if Contains(order, key) {
        assert x.next[0] == order[c];
      } else {
        assert key in contents ==> Contains(order, key);
      }
    }

    method Get(key: Str) returns (a: Answer)
      requires Valid()
      ensures a == Consult(contents, key)
    {
      var x := Seek(key);
      Looked(key, x);
      var n := x.next[0];
      if n != null && n.key == key {
        if n.deleted {
          return Answer([], false, true);
        }
        return Answer(n.value, true, false);
      }
      return Answer([], false, false);
    }

    /** Level 0 read off, which is what a flush writes. */
    method Entries() returns (out: seq<Entry>)
      requires Valid()
      ensures Run(out) && Lists(out, contents) && |out| == count
    {
      AllLinked();
      out := ReadOff(head, order);
      ListingOf(out);
    }

    lemma AllLinked()
      requires Links()
      ensures Linked(head, order, 0)
    {
      assert LevelOk(order, 0);
      TallerZero(order);
    }

    lemma ListingOf(out: seq<Entry>)
      requires Ascending(order) && Stored(order, contents) && |out| == |order|
      requires forall i :: 0 <= i < |out| ==> out[i] == EntryAt(order[i])
      ensures Run(out) && Lists(out, contents)
    {
      forall k | k in contents ensures exists i :: 0 <= i < |out| && out[i].key == k {
        assert Contains(order, k);
        var i :| 0 <= i < |order| && order[i].key == k;
        assert out[i].key == k;
      }
    }

    method Put(key: Str, value: Str)
      requires Valid()
      modifies this, Nodes()
      ensures Valid() && forall x :: x in Nodes() ==> x in old(Nodes()) || fresh(x)
      ensures contents == old(contents)[key := Cell(value, false)]
    {
      Insert(key, value, false);
    }

    /** A delete leaves a tombstone, because older runs may still hold the key. */
    method Delete(key: Str)
      requires Valid()
      modifies this, Nodes()
      ensures Valid() && forall x :: x in Nodes() ==> x in old(Nodes()) || fresh(x)
      ensures contents == old(contents)[key := Cell([], true)]
    {
      Insert(key, [], true);
    }

    /** Overwrites the key's node, or links a new node of random height into every level below it. */
    method Insert(key: Str, value: Str, deleted: bool)
      requires Valid()
      modifies this, Nodes()
      ensures Valid() && forall x :: x in Nodes() ==> x in old(Nodes()) || fresh(x)
      ensures contents == old(contents)[key := Cell(value, deleted)]
    {
      var update, x := Find(key);
      FoundAt(key, x);
      var next := x.next[0];
      if next != null && next.key == key {
        Replace(next, value, deleted);
        return;
      }
      var lvl := RandomLevel();
      InsertNew(key, value, deleted, lvl, update);
    }

    method Replace(n: SkipNode, value: Str, deleted: bool)
      requires Valid() && n in order
      modifies this`bytes, this`order, this`contents, n`value, n`deleted
      ensures Valid() && order == old(order) && contents == old(contents)[n.key := Cell(value, deleted)]
    {
      WeightReplaced(order, contents, n.key, Cell(value, deleted));
      var grown := |value| - |n.value|;
      Rewrite(n, value, deleted);
      bytes := bytes + grown;
      Become(order, contents[n.key := Cell(value, deleted)]);
    }

    method Rewrite(n: SkipNode, value: Str, deleted: bool)
      requires Links() && Stored(order, contents) && n in order
      modifies n`value, n`deleted
      ensures Links() && Stored(order, contents[n.key := Cell(value, deleted)])
    {
      Overwrite(n, value, deleted, order, contents);
    }

    method InsertNew(key: Str, value: Str, deleted: bool, lvl: nat, update0: seq<SkipNode?>)
      requires Valid() && !Contains(order, key)
      requires 1 <= lvl <= MAX_LEVEL && |update0| == MAX_LEVEL
      requires forall i :: 0 <= i < level ==> update0[i] == Before(head, Taller(order, i), key)
      modifies this`level, this`count, this`bytes, this`order, this`contents, Nodes()`next
      ensures Valid() && forall x :: x in Nodes() ==> x in old(Nodes()) || fresh(x)
      ensures contents == old(contents)[key := Cell(value, deleted)]
    {
      var update := update0;
      if lvl > level {
        update := Raise(lvl, update, key);
      }
      LinkNew(key, value, deleted, lvl, update);
    }

    method LinkNew(key: Str, value: Str, deleted: bool, lvl: nat, update: seq<SkipNode?>)
      requires Valid() && !Contains(order, key)
      requires 1 <= lvl <= level && |update| == MAX_LEVEL
      requires forall i :: 0 <= i < level ==> update[i] == Before(head, Taller(order, i), key)
      modifies this`count, this`bytes, this`order, this`contents, Nodes()`next
      ensures Valid() && forall x :: x in Nodes() ==> x in old(Nodes()) || fresh(x)
      ensures contents == old(contents)[key := Cell(value, deleted)]
    {
      var n := new SkipNode(key, value, deleted, lvl);
      LinkAll(n, update);
      Adopt(n);
    }

    /** Once linked, the node is part of the table. */
    method Adopt(n: SkipNode)
      requires LinksOf(Inserted(order, n)) && !Contains(order, n.key)
      requires Stored(order, contents) && count == |order| && bytes == Weight(order, contents)
      modifies this`count, this`bytes, this`order, this`contents
      ensures Valid() && contents == old(contents)[n.key := Cell(n.value, n.deleted)]
      ensures forall x :: x in Nodes() ==> x in old(Nodes()) || x == n
    {
      StoredInserted(order, n, contents);
      InsertedSpots(head, order, n, 0);
      WeightInserted(order, n, contents, Cell(n.value, n.deleted));
      count := count + 1;
      bytes := bytes + |n.key| + |n.value|;
      Become(Inserted(order, n), contents[n.key := Cell(n.value, n.deleted)]);
    }

    /** From here on the table stands for `ns` and `m`. */
    ghost method Become(ns: seq<SkipNode>, m: map<Str, Cell>)
      requires LinksOf(ns) && Stored(ns, m) && count == |ns| && bytes == Weight(ns, m)
      modifies this`order, this`contents
      ensures Valid() && order == ns && contents == m
    {
      order, contents := ns, m;
    }

    /** The levels a taller node opens are empty, so the head precedes it there. */
    method Raise(lvl: nat, update0: seq<SkipNode?>, key: Str) returns (update: seq<SkipNode?>)
      requires Links() && level < lvl <= MAX_LEVEL == |update0|
      requires forall i :: 0 <= i < level ==> update0[i] == Before(head, Taller(order, i), key)
      modifies this`level
      ensures Links() && level == lvl && |update| == MAX_LEVEL
      ensures forall i :: 0 <= i < level ==> update[i] == Before(head, Taller(order, i), key)
    {
      update := update0;
      for i := level to lvl
        invariant |update| == MAX_LEVEL
        invariant forall j :: 0 <= j < i ==> update[j] == Before(head, Taller(order, j), key)
      {
        assert Taller(order, i) == [] by { TallerNone(order, i); }
        update := update[i := head];
      }
      level := lvl;
    }

    ghost predicate Shaped(n: SkipNode)
      reads this`order, Nodes()`next, n`next
    {
      && |head.next| == MAX_LEVEL && |n.next| == n.height
      && forall x :: x in order ==> |x.next| == x.height
    }

    /** Links a new node into every level below its height. */
    method LinkAll(n: SkipNode, update: seq<SkipNode?>)
      requires Links() && n !in order && n != head && !Contains(order, n.key)
      requires 0 < n.height <= level && |n.next| == n.height && |update| == MAX_LEVEL
      requires forall i :: 0 <= i < n.height ==> update[i] == Before(head, Taller(order, i), n.key)
      modifies Nodes()`next, n`next
      ensures LinksOf(Inserted(order, n))
    {
      ghost var ls := Levels(order, n, 0);
      assert LinkedAll(head, ls) by {
        forall k | 0 <= k < MAX_LEVEL ensures Linked(head, ls[k], k) { assert LevelOk(order, k); }
      }
      for i := 0 to n.height
        invariant Shaped(n) && |ls| == MAX_LEVEL && LinkedAll(head, ls)
        invariant forall k :: 0 <= k < MAX_LEVEL ==> ls[k] == Mixed(order, n, i, k)
      {
        TallerAscends(order, i);
        assert update[i] == head || update[i] in order;
        LinkLevel(head, update[i], n, i, ls);
        ls := ls[i := Inserted(ls[i], n)];
      }
      NowLinked(n, ls);
    }

    /** With all levels linked, the list is the old one with the node in it. */
    lemma NowLinked(n: SkipNode, ls: seq<seq<SkipNode>>)
      requires Shaped(n) && head !in order && n != head && Ascending(order) && 1 <= level <= MAX_LEVEL
      requires (forall x :: x in order ==> 0 < x.height <= level) && 0 < n.height <= level && !Contains(order, n.key)
      requires |ls| == MAX_LEVEL && LinkedAll(head, ls)
      requires forall k :: 0 <= k < MAX_LEVEL ==> ls[k] == Mixed(order, n, n.height, k)
      ensures LinksOf(Inserted(order, n))
    {
      InsertedAscends(order, n);
      forall k | 0 <= k < MAX_LEVEL ensures LevelOk(Inserted(order, n), k) {
        TallerInserted(order, n, k);
        assert Linked(head, ls[k], k);
      }
    }
  }
}
