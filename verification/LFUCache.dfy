/** The LFU cache: a ring of frequency buckets, each a doubly linked list.

    The ghost field `rows` spells the two levels out as values: the buckets in
    ring order, each with its nodes from the most to the least recently used.
    Frequencies, keys and the two sentinels of a bucket never change, so all
    that lives on the heap is the links. */
module LFUCache {
  import opened ByteStrings
  import opened LFUModel

  class LfuNode {
    const key: Str
    var value: Str
    var bucket: FreqBucket?
    var prev: LfuNode?
    var next: LfuNode?

    constructor (key: Str, value: Str)
      ensures this.key == key && this.value == value
    {
      this.key, this.value, bucket, prev, next := key, value, null, null, null;
    }
  }

  class FreqBucket {
    const freq: nat
    const head: LfuNode
    const tail: LfuNode
    var prev: FreqBucket?
    var next: FreqBucket?

    constructor (freq: nat)
      ensures this.freq == freq && fresh(head) && fresh(tail) && head != tail
      ensures Linked(Row(this, []))
    {
      this.freq, prev, next := freq, null, null;
      head := new LfuNode([], []);
      tail := new LfuNode([], []);
      new;
      head.next, tail.prev := tail, head;
      assert Hop(Row(this, []), 0);
    }
  }

  /** A bucket and its nodes, front to back. */
  datatype Row = Row(bucket: FreqBucket, nodes: seq<LfuNode>)

  // ------------------------------------------------------------- one bucket

  /** The cells of a bucket's list: head, nodes, tail. */
  ghost function Cell(r: Row, q: nat): LfuNode {
    if q == 0 then r.bucket.head else if q <= |r.nodes| then r.nodes[q - 1] else r.bucket.tail
  }

  ghost function Cells(r: Row): set<LfuNode> {
    {r.bucket.head, r.bucket.tail} + set x | x in r.nodes
  }

  lemma CellsAllocated(r: Row)
    ensures forall x :: x in Cells(r) ==> allocated(x)
  {
  }

  ghost predicate Apart(r: Row) {
    forall p, q :: 0 <= p < q <= |r.nodes| + 1 ==> Cell(r, p) != Cell(r, q)
  }

  ghost predicate Hop(r: Row, q: nat)
    reads Cells(r)`next, Cells(r)`prev
  {
    Cell(r, q).next == Cell(r, q + 1) && Cell(r, q + 1).prev == Cell(r, q)
  }

  ghost predicate Linked(r: Row)
    reads Cells(r)`next, Cells(r)`prev, r.nodes`bucket
  {
    && (forall q :: 0 <= q <= |r.nodes| ==> Hop(r, q))
    && (forall q :: 0 <= q < |r.nodes| ==> r.nodes[q].bucket == r.bucket)
  }

  ghost function Pushed(r: Row, n: LfuNode): Row {
    Row(r.bucket, [n] + r.nodes)
  }

  ghost function Without(r: Row, q: nat): Row
    requires q < |r.nodes|
  {
    Row(r.bucket, r.nodes[..q] + r.nodes[q + 1..])
  }

  lemma PushedCell(r: Row, n: LfuNode, p: nat)
    ensures Cell(Pushed(r, n), p) == if p == 0 then r.bucket.head else if p == 1 then n else Cell(r, p - 1)
  {
  }

  lemma WithoutCell(r: Row, q: nat, p: nat)
    requires q < |r.nodes|
    ensures Cell(Without(r, q), p) == if p <= q then Cell(r, p) else Cell(r, p + 1)
  {
  }

  lemma PushedApart(r: Row, n: LfuNode)
    requires Apart(r) && n !in Cells(r)
    ensures Apart(Pushed(r, n))
  {
    var r' := Pushed(r, n);
    forall p, q | 0 <= p < q <= |r'.nodes| + 1 ensures Cell(r', p) != Cell(r', q) {
      PushedCell(r, n, p);
      PushedCell(r, n, q);
      assert p != 1 && q > 1 ==> Cell(r, if p == 0 then 0 else p - 1) != Cell(r, q - 1);
    }
  }

  lemma WithoutApart(r: Row, q: nat)
    requires Apart(r) && q < |r.nodes|
    ensures Apart(Without(r, q)) && r.nodes[q] !in Cells(Without(r, q))
    ensures Cells(Without(r, q)) <= Cells(r)
  {
    var r' := Without(r, q);
    forall s, t | 0 <= s < t <= |r'.nodes| + 1 ensures Cell(r', s) != Cell(r', t) {
      WithoutCell(r, q, s);
      WithoutCell(r, q, t);
    }
    assert Cell(r, q + 1) == r.nodes[q];
    assert Cell(r, 0) == r.bucket.head && Cell(r, |r.nodes| + 1) == r.bucket.tail;
    forall t | 0 <= t < |r'.nodes| ensures r'.nodes[t] != r.nodes[q] && r'.nodes[t] in r.nodes {
      assert Cell(r', t + 1) == r'.nodes[t];
      WithoutCell(r, q, t + 1);
    }
  }

  method PushFront(b: FreqBucket, n: LfuNode, ghost r: Row)
    requires r.bucket == b && Apart(r) && Linked(r) && n !in Cells(r)
    modifies n`prev, n`next, n`bucket, Cells(r)`prev, Cells(r)`next
    ensures Linked(Pushed(r, n))
    ensures forall x: Row :: old(allocated(x)) && Cells(x) !! Cells(r) && n !in Cells(x) && old(Linked(x)) ==> Linked(x)
  {
    assert Hop(r, 0);
    n.next, n.prev := b.head.next, b.head;
    b.head.next.prev := n;
    b.head.next := n;
    n.bucket := b;
    forall q | 0 <= q <= |r.nodes| + 1 ensures Hop(Pushed(r, n), q) {
      PushedCell(r, n, q);
      PushedCell(r, n, q + 1);
      assert q > 1 ==> old(Hop(r, q - 1)) && Cell(r, q) != Cell(r, 1) && Cell(r, q - 1) != Cell(r, 0);
    }
  }

  method Remove(n: LfuNode, ghost r: Row, ghost q: nat)
    requires q < |r.nodes| && n == r.nodes[q] && Apart(r) && Linked(r)
    modifies Cells(r)`prev, Cells(r)`next
    ensures Linked(Without(r, q))
    ensures forall x: Row :: old(allocated(x)) && Cells(x) !! Cells(r) && old(Linked(x)) ==> Linked(x)
  {
    assert n == Cell(r, q + 1);
    assert Hop(r, q) && Hop(r, q + 1);
    n.prev.next := n.next;
    n.next.prev := n.prev;
    forall p | 0 <= p <= |r.nodes| - 1 ensures Hop(Without(r, q), p) {
      WithoutCell(r, q, p);
      WithoutCell(r, q, p + 1);
      assert p < q ==> old(Hop(r, p)) && Cell(r, p) != Cell(r, q) && Cell(r, p + 1) != Cell(r, q + 2);
      assert p > q ==> old(Hop(r, p + 1)) && Cell(r, p + 1) != Cell(r, q) && Cell(r, p + 2) != Cell(r, q + 2);
    }
  }

  // --------------------------------------------------------- the ring of buckets

  /** The ring: the sentinel, the buckets, and the sentinel again. */
  ghost function RingAt(s: FreqBucket, bs: seq<FreqBucket>, p: nat): FreqBucket {
    if 0 < p <= |bs| then bs[p - 1] else s
  }

  ghost predicate RingHop(s: FreqBucket, bs: seq<FreqBucket>, p: nat)
    reads s`next, s`prev, bs`next, bs`prev
  {
    RingAt(s, bs, p).next == RingAt(s, bs, p + 1) && RingAt(s, bs, p + 1).prev == RingAt(s, bs, p)
  }

  ghost predicate RingLinked(s: FreqBucket, bs: seq<FreqBucket>)
    reads s`next, s`prev, bs`next, bs`prev
  {
    forall p :: 0 <= p <= |bs| ==> RingHop(s, bs, p)
  }

  ghost predicate RingApart(s: FreqBucket, bs: seq<FreqBucket>) {
    forall p, q :: 0 <= p < q <= |bs| ==> RingAt(s, bs, p) != RingAt(s, bs, q)
  }

  ghost function With<T>(xs: seq<T>, p: nat, x: T): seq<T>
    requires p <= |xs|
  {
    xs[..p] + [x] + xs[p..]
  }

  ghost function Dropped<T>(xs: seq<T>, p: nat): seq<T>
    requires p < |xs|
  {
    xs[..p] + xs[p + 1..]
  }

  lemma OpenedAt(s: FreqBucket, bs: seq<FreqBucket>, p: nat, b: FreqBucket, q: nat)
    requires p <= |bs|
    ensures RingAt(s, With(bs, p, b), q) ==
      if q <= p then RingAt(s, bs, q) else if q == p + 1 then b else RingAt(s, bs, q - 1)
  {
  }

  lemma DroppedAt(s: FreqBucket, bs: seq<FreqBucket>, p: nat, q: nat)
    requires p < |bs|
    ensures RingAt(s, Dropped(bs, p), q) == if q <= p then RingAt(s, bs, q) else RingAt(s, bs, q + 1)
  {
  }

  lemma OpenedApart(s: FreqBucket, bs: seq<FreqBucket>, p: nat, b: FreqBucket)
    requires p <= |bs| && RingApart(s, bs) && b != s && b !in bs
    ensures RingApart(s, With(bs, p, b))
  {
    var bs' := With(bs, p, b);
    forall q, t | 0 <= q < t <= |bs'| ensures RingAt(s, bs', q) != RingAt(s, bs', t) {
      OpenedAt(s, bs, p, b, q);
      OpenedAt(s, bs, p, b, t);
      assert forall u :: 0 < u <= |bs| ==> RingAt(s, bs, u) in bs;
    }
  }

  lemma DroppedApart(s: FreqBucket, bs: seq<FreqBucket>, p: nat)
    requires p < |bs| && RingApart(s, bs)
    ensures RingApart(s, Dropped(bs, p))
  {
    var bs' := Dropped(bs, p);
    forall q, t | 0 <= q < t <= |bs'| ensures RingAt(s, bs', q) != RingAt(s, bs', t) {
      DroppedAt(s, bs, p, q);
      DroppedAt(s, bs, p, t);
    }
  }

  method InsertBucketAfter(s: FreqBucket, after: FreqBucket, freq: nat, ghost bs: seq<FreqBucket>, ghost p: nat)
      returns (b: FreqBucket)
    requires RingLinked(s, bs) && RingApart(s, bs) && p <= |bs| && after == RingAt(s, bs, p)
    modifies s`next, s`prev, bs`next, bs`prev
    ensures fresh(b) && fresh(b.head) && fresh(b.tail) && b.freq == freq
    ensures Linked(Row(b, [])) && b.head != b.tail
    ensures RingLinked(s, With(bs, p, b)) && RingApart(s, With(bs, p, b))
  {
    b := new FreqBucket(freq);
    assert RingHop(s, bs, p);
    b.prev, b.next := after, after.next;
    after.next.prev := b;
    after.next := b;
    OpenedApart(s, bs, p, b);
    forall q | 0 <= q <= |bs| + 1 ensures RingHop(s, With(bs, p, b), q) {
      OpenedAt(s, bs, p, b, q);
      OpenedAt(s, bs, p, b, q + 1);
      assert q < p ==> old(RingHop(s, bs, q)) && RingAt(s, bs, q) != RingAt(s, bs, p);
      assert q > p + 1 ==> old(RingHop(s, bs, q - 1)) && RingAt(s, bs, q - 1) != RingAt(s, bs, p);
    }
  }

  method RemoveBucket(s: FreqBucket, b: FreqBucket, ghost bs: seq<FreqBucket>, ghost p: nat)
    requires RingLinked(s, bs) && RingApart(s, bs) && p < |bs| && b == bs[p]
    modifies s`next, s`prev, bs`next, bs`prev
    ensures RingLinked(s, Dropped(bs, p)) && RingApart(s, Dropped(bs, p))
    ensures forall x: Row :: old(allocated(x)) && old(Linked(x)) ==> Linked(x)
  {
    assert b == RingAt(s, bs, p + 1);
    assert RingHop(s, bs, p) && RingHop(s, bs, p + 1);
    b.prev.next := b.next;
    b.next.prev := b.prev;
    DroppedApart(s, bs, p);
    forall q | 0 <= q <= |bs| - 1 ensures RingHop(s, Dropped(bs, p), q) {
      DroppedAt(s, bs, p, q);
      DroppedAt(s, bs, p, q + 1);
      assert q < p ==> old(RingHop(s, bs, q));
      assert q > p ==> old(RingHop(s, bs, q + 1));
    }
  }

  // ------------------------------------------------------------- all the buckets

  ghost predicate Disjoint(rows: seq<Row>) {
    && (forall i :: 0 <= i < |rows| ==> Apart(rows[i]))
    && (forall i, j :: 0 <= i < j < |rows| ==> Cells(rows[i]) !! Cells(rows[j]))
  }

  ghost function AllCells(rows: seq<Row>): set<LfuNode> {
    set r, x | r in rows && x in Cells(r) :: x
  }

  ghost predicate AllLinked(rows: seq<Row>)
    reads AllCells(rows)`next, AllCells(rows)`prev, AllCells(rows)`bucket
  {
    forall r :: r in rows ==> assert Cells(r) <= AllCells(rows); Linked(r)
  }

  /** The buckets in ring order. */
  ghost function Buckets(rows: seq<Row>): seq<FreqBucket> {
    seq(|rows|, i requires 0 <= i < |rows| => rows[i].bucket)
  }

  ghost function BucketSet(rows: seq<Row>): set<FreqBucket> {
    set b | b in Buckets(rows)
  }

  lemma CellsWithin(rows: seq<Row>, i: nat)
    requires i < |rows|
    ensures Cells(rows[i]) <= AllCells(rows)
    ensures forall x :: x in rows[i].nodes ==> x in AllCells(rows)
  {
    assert rows[i] in rows;
  }

  ghost predicate Present(rows: seq<Row>, n: LfuNode) {
    exists i :: 0 <= i < |rows| && n in rows[i].nodes
  }

  // ------------------------------------------------------- agreement with the model

  /** A bucket holds keys of its frequency, the one used last in front. */
  ghost predicate RowAgrees(r: Row, items: map<Str, Item>) {
    && (forall x :: x in r.nodes ==> x.key in items && items[x.key].freq == r.bucket.freq)
    && (forall p, q :: 0 <= p < q < |r.nodes| ==> Later(items, r.nodes[p], r.nodes[q]))
  }

  ghost predicate Later(items: map<Str, Item>, x: LfuNode, y: LfuNode) {
    x.key in items && y.key in items && items[x.key].touched > items[y.key].touched
  }

  ghost predicate Ascending(rows: seq<Row>) {
    && (forall i :: 0 <= i < |rows| ==> 1 <= rows[i].bucket.freq)
    && (forall i, j :: 0 <= i < j < |rows| ==> rows[i].bucket.freq < rows[j].bucket.freq)
  }

  ghost predicate Agrees(rows: seq<Row>, items: map<Str, Item>) {
    Ascending(rows) && forall i :: 0 <= i < |rows| ==> RowAgrees(rows[i], items)
  }

  ghost predicate NoneEmpty(rows: seq<Row>) {
    forall i :: 0 <= i < |rows| ==> rows[i].nodes != []
  }

  /** The index of the cache names exactly the nodes in the buckets. */
  ghost predicate Indexes(index: map<Str, LfuNode>, rows: seq<Row>) {
    && (forall i, x :: 0 <= i < |rows| && x in rows[i].nodes ==> x.key in index && index[x.key] == x)
    && (forall k :: k in index ==> index[k].key == k && Present(rows, index[k]))
  }

  /** The last node of the first bucket is the one an eviction must take. */
  lemma LastOfFirstIsColdest(rows: seq<Row>, items: map<Str, Item>, index: map<Str, LfuNode>)
    requires rows != [] && NoneEmpty(rows) && Agrees(rows, items) && Indexes(index, rows) && index.Keys == items.Keys
    ensures Coldest(items, rows[0].nodes[|rows[0].nodes| - 1].key)
  {
    var last := |rows[0].nodes| - 1;
    var v := rows[0].nodes[last];
    forall k | k in items && k != v.key ensures Colder(items[v.key], items[k]) {
      var x := index[k];
      assert Present(rows, x);
      var i :| 0 <= i < |rows| && x in rows[i].nodes;
      if i == 0 {
        var q :| 0 <= q < |rows[0].nodes| && rows[0].nodes[q] == x;
        assert Later(items, rows[0].nodes[q], v);
      }
    }
  }

  // ------------------------------------------------ what each rearrangement keeps

  lemma OpenedRow(rows: seq<Row>, p: nat, b: FreqBucket, i: nat)
    requires p <= |rows| && i <= |rows|
    ensures With(rows, p, Row(b, []))[i] == if i < p then rows[i] else if i == p then Row(b, []) else rows[i - 1]
  {
  }

  lemma OpenedAscends(rows: seq<Row>, p: nat, b: FreqBucket)
    requires p <= |rows| && Ascending(rows) && 1 <= b.freq
    requires (p > 0 ==> rows[p - 1].bucket.freq < b.freq) && (p < |rows| ==> b.freq < rows[p].bucket.freq)
    ensures Ascending(With(rows, p, Row(b, [])))
  {
    var rows' := With(rows, p, Row(b, []));
    assert forall i :: 0 <= i < p - 1 ==> rows[i].bucket.freq < rows[p - 1].bucket.freq;
    assert forall i :: p < i < |rows| ==> rows[p].bucket.freq < rows[i].bucket.freq;
    forall i, j | 0 <= i < j < |rows'| ensures rows'[i].bucket.freq < rows'[j].bucket.freq {
      OpenedRow(rows, p, b, i);
      OpenedRow(rows, p, b, j);
    }
  }

  lemma OpenedKeeps(rows: seq<Row>, p: nat, b: FreqBucket, items: map<Str, Item>, index: map<Str, LfuNode>)
    requires p <= |rows| && Agrees(rows, items) && Indexes(index, rows) && 1 <= b.freq
    requires (p > 0 ==> rows[p - 1].bucket.freq < b.freq) && (p < |rows| ==> b.freq < rows[p].bucket.freq)
    ensures Agrees(With(rows, p, Row(b, [])), items) && Indexes(index, With(rows, p, Row(b, [])))
  {
    var rows' := With(rows, p, Row(b, []));
    OpenedAscends(rows, p, b);
    forall i | 0 <= i < |rows'|
      ensures RowAgrees(rows'[i], items)
      ensures forall x :: x in rows'[i].nodes ==> x.key in index && index[x.key] == x
    {
      OpenedRow(rows, p, b, i);
    }
    forall k | k in index ensures Present(rows', index[k]) {
      var i :| 0 <= i < |rows| && index[k] in rows[i].nodes;
      OpenedRow(rows, p, b, if i < p then i else i + 1);
    }
  }

  lemma OpenedDisjoint(rows: seq<Row>, p: nat, b: FreqBucket)
    requires p <= |rows| && Disjoint(rows) && b.head != b.tail && b.head !in AllCells(rows) && b.tail !in AllCells(rows)
    ensures Disjoint(With(rows, p, Row(b, [])))
  {
    forall i | 0 <= i < |rows| ensures Cells(rows[i]) !! Cells(Row(b, [])) {
      CellsWithin(rows, i);
    }
  }

  lemma DroppedDisjoint(rows: seq<Row>, p: nat)
    requires p < |rows| && Disjoint(rows)
    ensures Disjoint(Dropped(rows, p))
  {
    var rows' := Dropped(rows, p);
    forall i | 0 <= i < |rows'| ensures Apart(rows'[i]) {
      assert rows'[i] == rows[if i < p then i else i + 1];
    }
    forall i, j | 0 <= i < j < |rows'| ensures Cells(rows'[i]) !! Cells(rows'[j]) {
      assert rows'[i] == rows[if i < p then i else i + 1];
      assert rows'[j] == rows[if j < p then j else j + 1];
    }
  }

  lemma DroppedKeeps(rows: seq<Row>, p: nat, items: map<Str, Item>, index: map<Str, LfuNode>)
    requires p < |rows| && rows[p].nodes == [] && Agrees(rows, items) && Indexes(index, rows)
    ensures Agrees(Dropped(rows, p), items) && Indexes(index, Dropped(rows, p))
  {
    var rows' := Dropped(rows, p);
    forall k | k in index ensures Present(rows', index[k]) {
      var i :| 0 <= i < |rows| && index[k] in rows[i].nodes;
      assert rows'[if i < p then i else i - 1] == rows[i];
    }
  }

  lemma ElsewhereAgrees(r: Row, items: map<Str, Item>, key: Str, item: Item)
    requires RowAgrees(r, items) && forall x :: x in r.nodes ==> x.key != key
    ensures RowAgrees(r, items[key := item]) && RowAgrees(r, items - {key})
  {
    forall p, q | 0 <= p < q < |r.nodes|
      ensures Later(items[key := item], r.nodes[p], r.nodes[q]) && Later(items - {key}, r.nodes[p], r.nodes[q]) {
      assert Later(items, r.nodes[p], r.nodes[q]);
    }
  }

  lemma WithoutAgrees(r: Row, q: nat, items: map<Str, Item>)
    requires q < |r.nodes| && RowAgrees(r, items)
    ensures RowAgrees(Without(r, q), items)
  {
    var r' := Without(r, q);
    forall s, t | 0 <= s < t < |r'.nodes| ensures Later(items, r'.nodes[s], r'.nodes[t]) {
      assert Later(items, r.nodes[if s < q then s else s + 1], r.nodes[if t < q then t else t + 1]);
    }
  }

  /** A node used just now belongs in front. */
  lemma FrontAgrees(r: Row, items: map<Str, Item>, n: LfuNode, item: Item)
    requires RowAgrees(r, items) && forall x :: x in r.nodes ==> x.key != n.key
    requires item.freq == r.bucket.freq && forall k :: k in items ==> items[k].touched < item.touched
    ensures RowAgrees(Pushed(r, n), items[n.key := item])
  {
    var r', items' := Pushed(r, n), items[n.key := item];
    forall p, q | 0 <= p < q < |r'.nodes| ensures Later(items', r'.nodes[p], r'.nodes[q]) {
      assert r'.nodes[q] == r.nodes[q - 1];
      assert p > 0 ==> Later(items, r.nodes[p - 1], r.nodes[q - 1]);
    }
  }

  /** A node's key is in no other bucket. */
  lemma OtherKeys(index: map<Str, LfuNode>, rows: seq<Row>, i: nat, q: nat, j: nat)
    requires Indexes(index, rows) && Disjoint(rows) && i < |rows| && q < |rows[i].nodes| && j < |rows| && j != i
    ensures forall x :: x in rows[j].nodes ==> x.key != rows[i].nodes[q].key
  {
    assert Cells(rows[i]) !! Cells(rows[j]);
    assert rows[i].nodes[q] in Cells(rows[i]);
    forall x | x in rows[j].nodes ensures x.key != rows[i].nodes[q].key {
      assert x in Cells(rows[j]);
    }
  }

  /** Nor elsewhere in its own. */
  lemma OwnKeys(index: map<Str, LfuNode>, rows: seq<Row>, i: nat, q: nat)
    requires Indexes(index, rows) && Disjoint(rows) && i < |rows| && q < |rows[i].nodes|
    ensures forall x :: x in Without(rows[i], q).nodes ==> x in rows[i].nodes && x.key != rows[i].nodes[q].key
  {
    WithoutApart(rows[i], q);
    forall x | x in Without(rows[i], q).nodes ensures x in rows[i].nodes && x.key != rows[i].nodes[q].key {
      assert x in Cells(Without(rows[i], q));
    }
  }

  lemma AgreesBy(rows: seq<Row>, rows': seq<Row>, items: map<Str, Item>)
    requires Ascending(rows) && Buckets(rows) == Buckets(rows')
    requires |rows| == |rows'| && forall i :: 0 <= i < |rows| ==> RowAgrees(rows'[i], items)
    ensures Agrees(rows', items)
  {
    forall i | 0 <= i < |rows| ensures rows[i].bucket == rows'[i].bucket {
      assert Buckets(rows)[i] == Buckets(rows')[i];
    }
  }

  /** One bucket may lose cells, or gain one that no bucket has. */
  lemma ChangedDisjoint(rows: seq<Row>, i: nat, r: Row, n: LfuNode)
    requires i < |rows| && Disjoint(rows) && Apart(r)
    requires Cells(r) <= Cells(rows[i]) || (n !in AllCells(rows) && Cells(r) <= Cells(rows[i]) + {n})
    ensures Disjoint(rows[i := r])
  {
    var rows' := rows[i := r];
    forall j | 0 <= j < |rows| && j != i ensures Cells(r) !! Cells(rows[j]) {
      CellsWithin(rows, j);
      assert j < i ==> Cells(rows[j]) !! Cells(rows[i]);
      assert i < j ==> Cells(rows[i]) !! Cells(rows[j]);
    }
    forall j, k | 0 <= j < k < |rows| ensures Cells(rows'[j]) !! Cells(rows'[k]) {
      assert Cells(rows[j]) !! Cells(rows[k]);
    }
  }

  /** Node q of bucket i, now in front of bucket j. */
  ghost function Moved(rows: seq<Row>, i: nat, q: nat, j: nat): seq<Row>
    requires i < |rows| && j < |rows| && i != j && q < |rows[i].nodes|
  {
    rows[i := Without(rows[i], q)][j := Pushed(rows[j], rows[i].nodes[q])]
  }

  lemma MovedBuckets(rows: seq<Row>, i: nat, q: nat, j: nat)
    requires i < |rows| && j < |rows| && i != j && q < |rows[i].nodes|
    ensures Buckets(Moved(rows, i, q, j)) == Buckets(rows)
  {
    var left, rows' := rows[i := Without(rows[i], q)], Moved(rows, i, q, j);
    assert forall k :: 0 <= k < |rows| ==> left[k].bucket == rows[k].bucket && rows'[k].bucket == left[k].bucket;
  }

  /** The bucket a node leaves, once its item is another. */
  lemma LeftAgrees(index: map<Str, LfuNode>, rows: seq<Row>, i: nat, q: nat, items: map<Str, Item>, item: Item)
    requires i < |rows| && q < |rows[i].nodes| && Disjoint(rows) && Indexes(index, rows) && RowAgrees(rows[i], items)
    ensures var key := rows[i].nodes[q].key;
            RowAgrees(Without(rows[i], q), items[key := item]) && RowAgrees(Without(rows[i], q), items - {key})
  {
    OwnKeys(index, rows, i, q);
    WithoutAgrees(rows[i], q, items);
    ElsewhereAgrees(Without(rows[i], q), items, rows[i].nodes[q].key, item);
  }

  lemma OthersAgree(index: map<Str, LfuNode>, rows: seq<Row>, i: nat, q: nat, items: map<Str, Item>, item: Item, j: nat)
    requires i < |rows| && q < |rows[i].nodes| && Disjoint(rows) && Indexes(index, rows)
    requires j < |rows| && j != i && RowAgrees(rows[j], items)
    ensures var key := rows[i].nodes[q].key;
            RowAgrees(rows[j], items[key := item]) && RowAgrees(rows[j], items - {key})
  {
    OtherKeys(index, rows, i, q, j);
    ElsewhereAgrees(rows[j], items, rows[i].nodes[q].key, item);
  }

  lemma TouchedItems(m: Model, key: Str, value: Str)
    requires key in m.items
    ensures Touch(m, key, value).items == m.items[key := Item(value, m.items[key].freq + 1, m.clock)]
  {
  }

  lemma MovedRowAgrees(rows: seq<Row>, i: nat, q: nat, m: Model, item: Item, index: map<Str, LfuNode>, j: nat)
    requires i + 1 < |rows| && q < |rows[i].nodes| && Sane(m) && j < |rows|
    requires item.freq == rows[i + 1].bucket.freq && item.touched == m.clock
    requires Disjoint(rows) && Agrees(rows, m.items) && Indexes(index, rows)
    ensures RowAgrees(Moved(rows, i, q, i + 1)[j], m.items[rows[i].nodes[q].key := item])
  {
    var n := rows[i].nodes[q];
    if j == i {
      LeftAgrees(index, rows, i, q, m.items, item);
    } else if j == i + 1 {
      OtherKeys(index, rows, i, q, j);
      FrontAgrees(rows[j], m.items, n, item);
    } else {
      OthersAgree(index, rows, i, q, m.items, item, j);
    }
  }

  lemma MovedRowsAgree(rows: seq<Row>, i: nat, q: nat, m: Model, item: Item, index: map<Str, LfuNode>)
    requires i + 1 < |rows| && q < |rows[i].nodes| && Sane(m)
    requires item.freq == rows[i + 1].bucket.freq && item.touched == m.clock
    requires Disjoint(rows) && Agrees(rows, m.items) && Indexes(index, rows)
    ensures Agrees(Moved(rows, i, q, i + 1), m.items[rows[i].nodes[q].key := item])
  {
    var rows', items' := Moved(rows, i, q, i + 1), m.items[rows[i].nodes[q].key := item];
    forall j | 0 <= j < |rows| ensures RowAgrees(rows'[j], items') {
      MovedRowAgrees(rows, i, q, m, item, index, j);
    }
    MovedBuckets(rows, i, q, i + 1);
    AgreesBy(rows, rows', items');
  }

  lemma MovedAgrees(rows: seq<Row>, i: nat, q: nat, m: Model, value: Str, index: map<Str, LfuNode>)
    requires i + 1 < |rows| && q < |rows[i].nodes| && Sane(m)
    requires rows[i + 1].bucket.freq == rows[i].bucket.freq + 1
    requires Disjoint(rows) && Agrees(rows, m.items) && Indexes(index, rows)
    ensures var n := rows[i].nodes[q];
            n.key in m.items && Agrees(Moved(rows, i, q, i + 1), Touch(m, n.key, value).items)
  {
    NodeIsKnown(rows, i, q, m.items);
    var key := rows[i].nodes[q].key;
    var item := Item(value, m.items[key].freq + 1, m.clock);
    MovedRowsAgree(rows, i, q, m, item, index);
    TouchedItems(m, key, value);
  }

  lemma NodeIsKnown(rows: seq<Row>, i: nat, q: nat, items: map<Str, Item>)
    requires i < |rows| && q < |rows[i].nodes| && Agrees(rows, items)
    ensures rows[i].nodes[q].key in items && items[rows[i].nodes[q].key].freq == rows[i].bucket.freq
  {
    assert RowAgrees(rows[i], items);
  }

  lemma MovedIndexes(rows: seq<Row>, i: nat, q: nat, j: nat, index: map<Str, LfuNode>)
    requires i < |rows| && j < |rows| && i != j && q < |rows[i].nodes| && Indexes(index, rows)
    ensures Indexes(index, Moved(rows, i, q, j))
  {
    var rows', n := Moved(rows, i, q, j), rows[i].nodes[q];
    assert rows'[j].nodes == [n] + rows[j].nodes;
    forall k | k in index ensures Present(rows', index[k]) {
      var x := index[k];
      var l :| 0 <= l < |rows| && x in rows[l].nodes;
      if x == n {
        assert x in rows'[j].nodes;
      } else if l == i {
        var p :| 0 <= p < |rows[i].nodes| && rows[i].nodes[p] == x;
        assert rows'[i].nodes[if p < q then p else p - 1] == x;
      } else {
        assert x in rows'[l].nodes;
      }
    }
  }

  lemma ForeignKey(index: map<Str, LfuNode>, rows: seq<Row>, key: Str, j: nat)
    requires Indexes(index, rows) && key !in index && j < |rows|
    ensures forall x :: x in rows[j].nodes ==> x.key != key
  {
  }

  /** A new key enters in front of the bucket of frequency 1. */
  lemma AdmittedAgrees(rows: seq<Row>, n: LfuNode, m: Model, index: map<Str, LfuNode>)
    requires rows != [] && rows[0].bucket.freq == 1 && Sane(m)
    requires Agrees(rows, m.items) && Indexes(index, rows) && index.Keys == m.items.Keys && n.key !in index
    ensures Agrees(rows[0 := Pushed(rows[0], n)], Admit(m, n.key, n.value).items)
  {
    var rows', item := rows[0 := Pushed(rows[0], n)], Item(n.value, 1, m.clock);
    forall j | 0 <= j < |rows| ensures RowAgrees(rows'[j], m.items[n.key := item]) {
      ForeignKey(index, rows, n.key, j);
      if j == 0 {
        FrontAgrees(rows[0], m.items, n, item);
      } else {
        ElsewhereAgrees(rows[j], m.items, n.key, item);
      }
    }
    AgreesBy(rows, rows', m.items[n.key := item]);
  }

  lemma AdmittedIndexes(rows: seq<Row>, n: LfuNode, index: map<Str, LfuNode>)
    requires rows != [] && Indexes(index, rows) && n.key !in index
    ensures Indexes(index[n.key := n], rows[0 := Pushed(rows[0], n)])
  {
    var rows', index' := rows[0 := Pushed(rows[0], n)], index[n.key := n];
    assert rows'[0].nodes == [n] + rows[0].nodes;
    forall k | k in index' ensures Present(rows', index'[k]) {
      if k == n.key {
        assert n in rows'[0].nodes;
      } else {
        var l :| 0 <= l < |rows| && index[k] in rows[l].nodes;
        assert index[k] in rows'[l].nodes;
      }
    }
  }

  /** Taking a node out forgets its key and nothing else. */
  lemma TakenAgrees(rows: seq<Row>, i: nat, q: nat, items: map<Str, Item>, index: map<Str, LfuNode>)
    requires i < |rows| && q < |rows[i].nodes| && Disjoint(rows) && Agrees(rows, items) && Indexes(index, rows)
    ensures Agrees(rows[i := Without(rows[i], q)], items - {rows[i].nodes[q].key})
  {
    var rows' := rows[i := Without(rows[i], q)];
    forall j | 0 <= j < |rows| ensures RowAgrees(rows'[j], items - {rows[i].nodes[q].key}) {
      if j == i {
        LeftAgrees(index, rows, i, q, items, Item([], 0, 0));
      } else {
        OthersAgree(index, rows, i, q, items, Item([], 0, 0), j);
      }
    }
    AgreesBy(rows, rows', items - {rows[i].nodes[q].key});
  }

  lemma TakenPresent(rows: seq<Row>, i: nat, q: nat, x: LfuNode)
    requires i < |rows| && q < |rows[i].nodes| && Present(rows, x) && x != rows[i].nodes[q]
    ensures Present(rows[i := Without(rows[i], q)], x)
  {
    var rows' := rows[i := Without(rows[i], q)];
    var l :| 0 <= l < |rows| && x in rows[l].nodes;
    if l == i {
      var p :| 0 <= p < |rows[i].nodes| && rows[i].nodes[p] == x;
      assert rows'[i].nodes[if p < q then p else p - 1] == x;
    } else {
      assert x in rows'[l].nodes;
    }
  }

  lemma TakenIndexes(rows: seq<Row>, i: nat, q: nat, index: map<Str, LfuNode>)
    requires i < |rows| && q < |rows[i].nodes| && Disjoint(rows) && Indexes(index, rows)
    ensures Indexes(index - {rows[i].nodes[q].key}, rows[i := Without(rows[i], q)])
  {
    var rows', key := rows[i := Without(rows[i], q)], rows[i].nodes[q].key;
    forall j | 0 <= j < |rows|
      ensures forall x :: x in rows'[j].nodes ==> x.key in index - {key} && index[x.key] == x
    {
      if j == i {
        OwnKeys(index, rows, i, q);
      } else {
        OtherKeys(index, rows, i, q, j);
      }
    }
    forall k | k in index - {key} ensures Present(rows', index[k]) {
      TakenPresent(rows, i, q, index[k]);
    }
  }

  lemma OpenedParts(rows: seq<Row>, p: nat, b: FreqBucket)
    requires p <= |rows|
    ensures Buckets(With(rows, p, Row(b, []))) == With(Buckets(rows), p, b)
    ensures BucketSet(With(rows, p, Row(b, []))) == BucketSet(rows) + {b}
    ensures AllCells(With(rows, p, Row(b, []))) == AllCells(rows) + {b.head, b.tail}
  {
    var rows' := With(rows, p, Row(b, []));
    assert Row(b, []) in rows' && Cells(Row(b, [])) == {b.head, b.tail};
    assert forall r :: r in rows' <==> r in rows || r == Row(b, []);
  }

  lemma DroppedParts(rows: seq<Row>, p: nat)
    requires p < |rows|
    ensures Buckets(Dropped(rows, p)) == Dropped(Buckets(rows), p)
    ensures BucketSet(Dropped(rows, p)) <= BucketSet(rows)
    ensures AllCells(Dropped(rows, p)) <= AllCells(rows)
    ensures forall r :: r in Dropped(rows, p) ==> r in rows
  {
  }

  lemma ChangedParts(rows: seq<Row>, i: nat, r: Row)
    requires i < |rows| && r.bucket == rows[i].bucket
    ensures Buckets(rows[i := r]) == Buckets(rows)
    ensures AllCells(rows[i := r]) <= AllCells(rows) + Cells(r)
  {
    assert forall x :: x in rows[i := r] ==> x == r || x in rows;
  }

  /** The rows that did not change share no cell with the one that did. */
  lemma OtherRows(rows: seq<Row>, i: nat, r: Row)
    requires i < |rows| && Disjoint(rows)
    ensures forall x :: x in rows[i := r] && x != r ==> x in rows && Cells(x) !! Cells(rows[i])
  {
    forall x | x in rows[i := r] && x != r ensures x in rows && Cells(x) !! Cells(rows[i]) {
      var j :| 0 <= j < |rows| && rows[i := r][j] == x;
      assert j < i ==> Cells(rows[j]) !! Cells(rows[i]);
      assert i < j ==> Cells(rows[i]) !! Cells(rows[j]);
    }
  }

  lemma GoneFrom(rows: seq<Row>, i: nat, q: nat)
    requires i < |rows| && q < |rows[i].nodes| && Disjoint(rows)
    ensures rows[i].nodes[q] !in AllCells(rows[i := Without(rows[i], q)])
  {
    WithoutApart(rows[i], q);
    OtherRows(rows, i, Without(rows[i], q));
    assert rows[i].nodes[q] in Cells(rows[i]);
  }

  /** The links of the whole cache: the ring of buckets and every bucket's list. */
  ghost predicate Structure(s: FreqBucket, rows: seq<Row>)
    reads s`next, s`prev, BucketSet(rows)`next, BucketSet(rows)`prev
    reads AllCells(rows)`next, AllCells(rows)`prev, AllCells(rows)`bucket
  {
    RingLinked(s, Buckets(rows)) && RingApart(s, Buckets(rows)) && Disjoint(rows) && AllLinked(rows)
  }

  /** A new bucket goes into the ring behind the p-th. */
  method OpenAfter(s: FreqBucket, after: FreqBucket, freq: nat, ghost rows: seq<Row>, ghost p: nat)
      returns (b: FreqBucket)
    requires Structure(s, rows) && p <= |rows| && after == RingAt(s, Buckets(rows), p)
    modifies s`next, s`prev, BucketSet(rows)`next, BucketSet(rows)`prev
    ensures fresh(b) && fresh(b.head) && fresh(b.tail) && b.freq == freq
    ensures Structure(s, With(rows, p, Row(b, [])))
  {
    forall r | r in rows {
      CellsAllocated(r);
    }
    b := InsertBucketAfter(s, after, freq, Buckets(rows), p);
    forall r | r in rows ensures Linked(r) {
      assert old(Linked(r));
    }
    OpenedStructure(s, rows, p, b);
  }

  lemma OpenedStructure(s: FreqBucket, rows: seq<Row>, p: nat, b: FreqBucket)
    requires p <= |rows| && Disjoint(rows) && AllLinked(rows) && Linked(Row(b, []))
    requires b.head != b.tail && b.head !in AllCells(rows) && b.tail !in AllCells(rows)
    requires RingLinked(s, With(Buckets(rows), p, b)) && RingApart(s, With(Buckets(rows), p, b))
    ensures Structure(s, With(rows, p, Row(b, [])))
  {
    OpenedDisjoint(rows, p, b);
    OpenedParts(rows, p, b);
    assert forall r :: r in With(rows, p, Row(b, [])) ==> r in rows || r == Row(b, []);
  }

  method Close(s: FreqBucket, b: FreqBucket, ghost rows: seq<Row>, ghost p: nat)
    requires Structure(s, rows) && p < |rows| && b == rows[p].bucket
    modifies s`next, s`prev, BucketSet(rows)`next, BucketSet(rows)`prev
    ensures Structure(s, Dropped(rows, p))
  {
    RemoveBucket(s, b, Buckets(rows), p);
    DroppedParts(rows, p);
    DroppedDisjoint(rows, p);
    forall r | r in Dropped(rows, p) ensures Linked(r) {
      assert old(Linked(r));
    }
  }

  /** What taking a node out leaves in place. */
  lemma TakenStructure(rows: seq<Row>, i: nat, q: nat)
    requires i < |rows| && q < |rows[i].nodes| && Disjoint(rows)
    ensures var r := Without(rows[i], q);
            && Disjoint(rows[i := r]) && Buckets(rows[i := r]) == Buckets(rows)
            && rows[i].nodes[q] !in AllCells(rows[i := r])
            && (forall x :: x in rows[i := r] && x != r ==> x in rows && Cells(x) !! Cells(rows[i]))
  {
    var r := Without(rows[i], q);
    WithoutApart(rows[i], q);
    OtherRows(rows, i, r);
    ChangedDisjoint(rows, i, r, rows[i].nodes[q]);
    ChangedParts(rows, i, r);
    GoneFrom(rows, i, q);
  }

  /** What putting a loose node in front leaves in place. */
  lemma PushedStructure(rows: seq<Row>, i: nat, n: LfuNode)
    requires i < |rows| && n !in AllCells(rows) && Disjoint(rows)
    ensures var r := Pushed(rows[i], n);
            && Disjoint(rows[i := r]) && Buckets(rows[i := r]) == Buckets(rows)
            && (forall x :: x in rows[i := r] && x != r ==> x in rows && Cells(x) !! Cells(rows[i]))
  {
    var r := Pushed(rows[i], n);
    CellsWithin(rows, i);
    PushedApart(rows[i], n);
    OtherRows(rows, i, r);
    ChangedDisjoint(rows, i, r, n);
    ChangedParts(rows, i, r);
  }

  /** Takes node q out of bucket i. */
  method Take(s: FreqBucket, n: LfuNode, ghost rows: seq<Row>, ghost i: nat, ghost q: nat)
    requires Structure(s, rows) && i < |rows| && q < |rows[i].nodes| && n == rows[i].nodes[q]
    modifies AllCells(rows)`next, AllCells(rows)`prev
    ensures Structure(s, rows[i := Without(rows[i], q)]) && n !in AllCells(rows[i := Without(rows[i], q)])
  {
    ghost var r := Without(rows[i], q);
    CellsWithin(rows, i);
    TakenStructure(rows, i, q);
    Remove(n, rows[i], q);
    forall x | x in rows[i := r] && x != r ensures Linked(x) {
      assert old(Linked(x));
    }
  }

  /** Puts a loose node in front of bucket i. */
  method PushInto(s: FreqBucket, b: FreqBucket, n: LfuNode, ghost rows: seq<Row>, ghost i: nat)
    requires Structure(s, rows) && i < |rows| && b == rows[i].bucket && n !in AllCells(rows)
    modifies AllCells(rows)`next, AllCells(rows)`prev, n`next, n`prev, n`bucket
    ensures Structure(s, rows[i := Pushed(rows[i], n)])
  {
    ghost var r := Pushed(rows[i], n);
    CellsWithin(rows, i);
    PushedStructure(rows, i, n);
    PushFront(b, n, rows[i]);
    forall x | x in rows[i := r] && x != r ensures Linked(x) {
      assert old(Linked(x));
    }
  }

  /** Moves node q of bucket i to the front of the next one. */
  method Move(s: FreqBucket, next: FreqBucket, n: LfuNode, ghost rows: seq<Row>, ghost i: nat, ghost q: nat)
    requires Structure(s, rows) && i + 1 < |rows| && q < |rows[i].nodes| && n == rows[i].nodes[q]
    requires next == rows[i + 1].bucket
    modifies AllCells(rows)`next, AllCells(rows)`prev, n`bucket
    ensures Structure(s, Moved(rows, i, q, i + 1))
  {
    ghost var r := Without(rows[i], q);
    Take(s, n, rows, i, q);
    CellsWithin(rows, i);
    WithoutApart(rows[i], q);
    ChangedParts(rows, i, r);
    PushInto(s, next, n, rows[i := r], i + 1);
  }

  lemma AfterBucket(s: FreqBucket, rows: seq<Row>, i: nat)
    requires RingLinked(s, Buckets(rows)) && RingApart(s, Buckets(rows)) && i < |rows|
    ensures rows[i].bucket == RingAt(s, Buckets(rows), i + 1)
    ensures rows[i].bucket.next == if i + 1 < |rows| then rows[i + 1].bucket else s
    ensures i + 1 < |rows| ==> rows[i + 1].bucket != s
  {
    var bs := Buckets(rows);
    assert RingHop(s, bs, i + 1);
    assert i + 1 < |rows| ==> RingAt(s, bs, 0) != RingAt(s, bs, i + 2);
  }

  /** A bucket is empty when its head points at its tail. */
  lemma EmptyIs(rows: seq<Row>, i: nat)
    requires Disjoint(rows) && AllLinked(rows) && i < |rows|
    ensures rows[i].bucket.head.next == rows[i].bucket.tail <==> rows[i].nodes == []
  {
    assert rows[i] in rows;
    assert Hop(rows[i], 0);
    assert rows[i].nodes != [] ==> Cell(rows[i], 1) != Cell(rows[i], |rows[i].nodes| + 1);
  }

  // -------------------------------------------------------------------- promotion

  /** The buckets, the index and the model tell one story. */
  ghost predicate Agreed(rows: seq<Row>, index: map<Str, LfuNode>, m: Model) {
    Agrees(rows, m.items) && Indexes(index, rows) && Sane(m) && index.Keys == m.items.Keys
  }

  ghost predicate NoneEmptyBut(rows: seq<Row>, p: nat) {
    forall j :: 0 <= j < |rows| && j != p ==> rows[j].nodes != []
  }

  lemma NextOpened(rows: seq<Row>, i: nat, b: FreqBucket, index: map<Str, LfuNode>, m: Model)
    requires Agreed(rows, index, m) && NoneEmpty(rows) && i < |rows| && b.freq == rows[i].bucket.freq + 1
    requires i + 1 < |rows| ==> rows[i + 1].bucket.freq != b.freq
    ensures var rows' := With(rows, i + 1, Row(b, []));
            && Agreed(rows', index, m) && NoneEmptyBut(rows', i + 1)
            && rows'[i] == rows[i] && rows'[i + 1].bucket == b
            && BucketSet(rows') == BucketSet(rows) + {b} && AllCells(rows') == AllCells(rows) + {b.head, b.tail}
  {
    OpenedParts(rows, i + 1, b);
    OpenedKeeps(rows, i + 1, b, m.items, index);
    var rows' := With(rows, i + 1, Row(b, []));
    forall j | 0 <= j <= |rows| && j != i + 1 ensures rows'[j].nodes != [] {
      OpenedRow(rows, i + 1, b, j);
    }
  }

  /** The bucket of the next frequency, opened if it is not there. */
  method NextBucket(s: FreqBucket, b: FreqBucket, ghost rows: seq<Row>, ghost i: nat, ghost index: map<Str, LfuNode>,
      ghost m: Model)
    returns (next: FreqBucket, ghost rows': seq<Row>)
    requires Structure(s, rows) && Agreed(rows, index, m) && NoneEmpty(rows) && i < |rows| && b == rows[i].bucket
    modifies s`next, s`prev, BucketSet(rows)`next, BucketSet(rows)`prev
    ensures Structure(s, rows') && Agreed(rows', index, m)
    ensures i + 1 < |rows'| && rows'[i] == rows[i] && NoneEmptyBut(rows', i + 1)
    ensures rows'[i + 1].bucket == next && next.freq == b.freq + 1
    ensures forall x :: x in BucketSet(rows') ==> x in BucketSet(rows) || fresh(x)
    ensures forall x :: x in AllCells(rows') ==> x in AllCells(rows) || fresh(x)
  {
    AfterBucket(s, rows, i);
    if b.next == s || b.next.freq != b.freq + 1 {
      next, rows' := OpenNext(s, b, rows, i, index, m);
    } else {
      next, rows' := b.next, rows;
    }
  }

  method OpenNext(s: FreqBucket, b: FreqBucket, ghost rows: seq<Row>, ghost i: nat, ghost index: map<Str, LfuNode>,
      ghost m: Model)
    returns (next: FreqBucket, ghost rows': seq<Row>)
    requires Structure(s, rows) && Agreed(rows, index, m) && NoneEmpty(rows) && i < |rows| && b == rows[i].bucket
    requires b == RingAt(s, Buckets(rows), i + 1) && (i + 1 < |rows| ==> rows[i + 1].bucket.freq != b.freq + 1)
    modifies s`next, s`prev, BucketSet(rows)`next, BucketSet(rows)`prev
    ensures fresh(next) && fresh(next.head) && fresh(next.tail) && next.freq == b.freq + 1
    ensures rows' == With(rows, i + 1, Row(next, [])) && Structure(s, rows')
    ensures Agreed(rows', index, m) && NoneEmptyBut(rows', i + 1) && rows'[i] == rows[i] && rows'[i + 1].bucket == next
    ensures BucketSet(rows') == BucketSet(rows) + {next} && AllCells(rows') == AllCells(rows) + {next.head, next.tail}
  {
    next := OpenAfter(s, b, b.freq + 1, rows, i + 1);
    NextOpened(rows, i, next, index, m);
    rows' := With(rows, i + 1, Row(next, []));
  }

  lemma MovedFacts(rows: seq<Row>, i: nat, q: nat, index: map<Str, LfuNode>, m: Model, value: Str)
    requires i + 1 < |rows| && q < |rows[i].nodes| && Disjoint(rows) && Agreed(rows, index, m) &&
      NoneEmptyBut(rows, i + 1)
    requires rows[i + 1].bucket.freq == rows[i].bucket.freq + 1
    ensures var rows', n := Moved(rows, i, q, i + 1), rows[i].nodes[q];
            && n.key in m.items && Agreed(rows', index, Touch(m, n.key, value)) && NoneEmptyBut(rows', i)
            && rows'[i].bucket == rows[i].bucket
            && BucketSet(rows') == BucketSet(rows) && AllCells(rows') <= AllCells(rows)
  {
    var n := rows[i].nodes[q];
    MovedAgrees(rows, i, q, m, value, index);
    MovedIndexes(rows, i, q, i + 1, index);
    assert n.key in index;
    MovedParts(rows, i, q);
  }

  lemma MovedParts(rows: seq<Row>, i: nat, q: nat)
    requires i + 1 < |rows| && q < |rows[i].nodes|
    ensures Buckets(Moved(rows, i, q, i + 1)) == Buckets(rows) && AllCells(Moved(rows, i, q, i + 1)) <= AllCells(rows)
  {
    MovedBuckets(rows, i, q, i + 1);
    forall x | x in AllCells(Moved(rows, i, q, i + 1)) ensures x in AllCells(rows) {
      var j :| 0 <= j < |rows| && x in Cells(Moved(rows, i, q, i + 1)[j]);
      MovedCells(rows, i, q, j);
    }
  }

  lemma MovedCells(rows: seq<Row>, i: nat, q: nat, j: nat)
    requires i + 1 < |rows| && q < |rows[i].nodes| && j < |rows|
    ensures Cells(Moved(rows, i, q, i + 1)[j]) <= AllCells(rows)
  {
    CellsWithin(rows, i);
    CellsWithin(rows, j);
    assert Cells(Without(rows[i], q)) <= Cells(rows[i]);
  }

  lemma DroppedFacts(rows: seq<Row>, p: nat, index: map<Str, LfuNode>, m: Model)
    requires p < |rows| && rows[p].nodes == [] && Agreed(rows, index, m) && NoneEmptyBut(rows, p)
    ensures var rows' := Dropped(rows, p);
            && Agreed(rows', index, m) && NoneEmpty(rows')
            && BucketSet(rows') <= BucketSet(rows) && AllCells(rows') <= AllCells(rows)
  {
    DroppedKeeps(rows, p, m.items, index);
    DroppedParts(rows, p);
  }

  /** Moves a node to the bucket of the next frequency, opening and closing buckets as needed. */
  method Promote(s: FreqBucket, n: LfuNode, ghost rows: seq<Row>, ghost i: nat, ghost q: nat,
      ghost index: map<Str, LfuNode>, ghost m: Model, ghost value: Str)
    returns (ghost rows': seq<Row>)
    requires Structure(s, rows) && Agreed(rows, index, m) && NoneEmpty(rows)
    requires i < |rows| && q < |rows[i].nodes| && n == rows[i].nodes[q] && n.key in m.items
    modifies s`next, s`prev, BucketSet(rows)`next, BucketSet(rows)`prev
    modifies AllCells(rows)`next, AllCells(rows)`prev, AllCells(rows)`bucket
    ensures Structure(s, rows') && Agreed(rows', index, Touch(m, n.key, value)) && NoneEmpty(rows')
    ensures forall x :: x in BucketSet(rows') ==> x in BucketSet(rows) || fresh(x)
    ensures forall x :: x in AllCells(rows') ==> x in AllCells(rows) || fresh(x)
  {
    CellsWithin(rows, i);
    var b := n.bucket;
    var next;
    next, rows' := NextBucket(s, b, rows, i, index, m);
    Move(s, next, n, rows', i, q);
    MovedFacts(rows', i, q, index, m, value);
    rows' := Moved(rows', i, q, i + 1);
    rows' := CloseIfEmpty(s, b, rows', i, index, Touch(m, n.key, value));
  }

  /** Takes a bucket that its last node has left out of the ring. */
  method CloseIfEmpty(s: FreqBucket, b: FreqBucket, ghost rows: seq<Row>, ghost i: nat,
      ghost index: map<Str, LfuNode>, ghost m: Model)
    returns (ghost rows': seq<Row>)
    requires Structure(s, rows) && Agreed(rows, index, m) && i < |rows| && b == rows[i].bucket && NoneEmptyBut(rows, i)
    modifies s`next, s`prev, BucketSet(rows)`next, BucketSet(rows)`prev
    ensures Structure(s, rows') && Agreed(rows', index, m) && NoneEmpty(rows')
    ensures BucketSet(rows') <= BucketSet(rows) && AllCells(rows') <= AllCells(rows)
  {
    rows' := rows;
    EmptyIs(rows, i);
    if b.head.next == b.tail {
      Close(s, b, rows, i);
      DroppedFacts(rows, i, index, m);
      rows' := Dropped(rows, i);
    }
  }

  // --------------------------------------------------------------------- eviction

  lemma FirstBucket(s: FreqBucket, rows: seq<Row>)
    requires RingLinked(s, Buckets(rows)) && RingApart(s, Buckets(rows))
    ensures s == RingAt(s, Buckets(rows), 0) && s.next == if rows != [] then rows[0].bucket else s
    ensures rows != [] ==> rows[0].bucket != s
  {
    assert RingHop(s, Buckets(rows), 0);
    assert rows != [] ==> RingAt(s, Buckets(rows), 0) != RingAt(s, Buckets(rows), 1);
  }

  lemma LastNode(rows: seq<Row>, i: nat)
    requires AllLinked(rows) && i < |rows| && rows[i].nodes != []
    ensures rows[i].bucket.tail.prev == rows[i].nodes[|rows[i].nodes| - 1]
  {
    assert rows[i] in rows;
    assert Hop(rows[i], |rows[i].nodes|);
  }

  lemma EvictedFacts(rows: seq<Row>, index: map<Str, LfuNode>, m: Model)
    requires rows != [] && Disjoint(rows) && Agreed(rows, index, m) && NoneEmpty(rows)
    ensures var last := |rows[0].nodes| - 1;
            var rows', victim := rows[0 := Without(rows[0], last)], rows[0].nodes[last];
            && m.items != map[] && victim.key == Victim(m) && Evict(m) == Model(m.items - {victim.key}, m.clock)
            && Agreed(rows', index - {victim.key}, Evict(m)) && NoneEmptyBut(rows', 0)
            && rows'[0].bucket == rows[0].bucket
            && BucketSet(rows') == BucketSet(rows) && AllCells(rows') <= AllCells(rows)
  {
    var last := |rows[0].nodes| - 1;
    var victim := rows[0].nodes[last];
    LastOfFirstIsColdest(rows, m.items, index);
    OnlyOneIsColdest(m.items, victim.key, Victim(m));
    TakenAgrees(rows, 0, last, m.items, index);
    TakenIndexes(rows, 0, last, index);
    WithoutApart(rows[0], last);
    CellsWithin(rows, 0);
    ChangedParts(rows, 0, Without(rows[0], last));
  }

  /** Takes out the last node of the first bucket. */
  method EvictNode(s: FreqBucket, ghost rows: seq<Row>, ghost index: map<Str, LfuNode>, ghost m: Model)
    returns (victim: LfuNode, ghost rows': seq<Row>)
    requires Structure(s, rows) && Agreed(rows, index, m) && NoneEmpty(rows) && rows != []
    modifies s`next, s`prev, BucketSet(rows)`next, BucketSet(rows)`prev, AllCells(rows)`next, AllCells(rows)`prev
    ensures m.items != map[] && victim.key == Victim(m)
    ensures Structure(s, rows') && Agreed(rows', index - {victim.key}, Evict(m)) && NoneEmpty(rows')
    ensures BucketSet(rows') <= BucketSet(rows) && AllCells(rows') <= AllCells(rows)
  {
    FirstBucket(s, rows);
    LastNode(rows, 0);
    var lowest := s.next;
    victim := lowest.tail.prev;
    ghost var last := |rows[0].nodes| - 1;
    Take(s, victim, rows, 0, last);
    EvictedFacts(rows, index, m);
    rows' := rows[0 := Without(rows[0], last)];
    rows' := CloseIfEmpty(s, lowest, rows', 0, index - {victim.key}, Evict(m));
  }

  // -------------------------------------------------------------------- admission

  /** The bucket of frequency 1, opened in front if it is not there. */
  method FirstOfOne(s: FreqBucket, ghost rows: seq<Row>, ghost index: map<Str, LfuNode>, ghost m: Model)
    returns (first: FreqBucket, ghost rows': seq<Row>)
    requires Structure(s, rows) && Agreed(rows, index, m) && NoneEmpty(rows)
    modifies s`next, s`prev, BucketSet(rows)`next, BucketSet(rows)`prev
    ensures Structure(s, rows') && Agreed(rows', index, m) && NoneEmptyBut(rows', 0)
    ensures rows' != [] && rows'[0].bucket == first && first.freq == 1
    ensures forall x :: x in BucketSet(rows') ==> x in BucketSet(rows) || fresh(x)
    ensures forall x :: x in AllCells(rows') ==> x in AllCells(rows) || fresh(x)
  {
    FirstBucket(s, rows);
    if s.next == s || s.next.freq != 1 {
      first, rows' := OpenOne(s, rows, index, m);
    } else {
      first, rows' := s.next, rows;
    }
  }

  method OpenOne(s: FreqBucket, ghost rows: seq<Row>, ghost index: map<Str, LfuNode>, ghost m: Model)
    returns (first: FreqBucket, ghost rows': seq<Row>)
    requires Structure(s, rows) && Agreed(rows, index, m) && NoneEmpty(rows) && s == RingAt(s, Buckets(rows), 0)
    requires rows != [] ==> rows[0].bucket.freq != 1
    modifies s`next, s`prev, BucketSet(rows)`next, BucketSet(rows)`prev
    ensures fresh(first) && fresh(first.head) && fresh(first.tail) && first.freq == 1
    ensures rows' == With(rows, 0, Row(first, [])) && Structure(s, rows') && rows'[0].bucket == first
    ensures Agreed(rows', index, m) && NoneEmptyBut(rows', 0)
    ensures BucketSet(rows') == BucketSet(rows) + {first} &&
      AllCells(rows') == AllCells(rows) + {first.head, first.tail}
  {
    first := OpenAfter(s, s, 1, rows, 0);
    OpenedParts(rows, 0, first);
    OpenedKeeps(rows, 0, first, m.items, index);
    rows' := With(rows, 0, Row(first, []));
  }

  lemma AdmittedFacts(rows: seq<Row>, n: LfuNode, index: map<Str, LfuNode>, m: Model)
    requires rows != [] && rows[0].bucket.freq == 1 && Agreed(rows, index, m) && NoneEmptyBut(rows, 0) &&
      n.key !in index
    ensures var rows' := rows[0 := Pushed(rows[0], n)];
            && Agreed(rows', index[n.key := n], Admit(m, n.key, n.value)) && NoneEmpty(rows')
            && BucketSet(rows') == BucketSet(rows) && AllCells(rows') <= AllCells(rows) + {n}
  {
    AdmittedAgrees(rows, n, m, index);
    AdmittedIndexes(rows, n, index);
    CellsWithin(rows, 0);
    ChangedParts(rows, 0, Pushed(rows[0], n));
    assert Cells(Pushed(rows[0], n)) == Cells(rows[0]) + {n};
  }

  // -------------------------------------------------------------------- the cache

  ghost predicate ValuesOk(index: map<Str, LfuNode>, m: Model, but: set<Str>)
    reads index.Values`value
  {
    forall k :: k in index && k !in but ==> k in m.items && index[k].value == m.items[k].value
  }

  /** All that holds between two calls; the nodes of `but` may hold other values. */
  ghost predicate GoodBut(s: FreqBucket, rows: seq<Row>, index: map<Str, LfuNode>, m: Model, but: set<Str>)
    reads s`next, s`prev, BucketSet(rows)`next, BucketSet(rows)`prev, index.Values`value
    reads AllCells(rows)`next, AllCells(rows)`prev, AllCells(rows)`bucket
  {
    Structure(s, rows) && Agreed(rows, index, m) && NoneEmpty(rows) && ValuesOk(index, m, but)
  }

  /** Where the node of a key stands. */
  lemma Locate(rows: seq<Row>, index: map<Str, LfuNode>, n: LfuNode) returns (i: nat, q: nat)
    requires Indexes(index, rows) && n.key in index && index[n.key] == n
    ensures i < |rows| && q < |rows[i].nodes| && rows[i].nodes[q] == n
  {
    assert Present(rows, n);
    i :| 0 <= i < |rows| && n in rows[i].nodes;
    q :| 0 <= q < |rows[i].nodes| && rows[i].nodes[q] == n;
  }

  lemma TouchedValues(index: map<Str, LfuNode>, n: LfuNode, m: Model)
    requires ValuesOk(index, m, {n.key}) && n.key in index && index[n.key] == n && n.key in m.items
    ensures ValuesOk(index, Touch(m, n.key, n.value), {})
  {
  }

  /** A use of a node that is there: promote it. */
  method Use(s: FreqBucket, n: LfuNode, ghost rows: seq<Row>, ghost index: map<Str, LfuNode>, ghost m: Model)
    returns (ghost rows': seq<Row>)
    requires GoodBut(s, rows, index, m, {n.key}) && n.key in index && index[n.key] == n
    modifies s`next, s`prev, BucketSet(rows)`next, BucketSet(rows)`prev
    modifies AllCells(rows)`next, AllCells(rows)`prev, AllCells(rows)`bucket
    ensures n.key in m.items && GoodBut(s, rows', index, Touch(m, n.key, n.value), {})
    ensures forall x :: x in BucketSet(rows') ==> x in BucketSet(rows) || fresh(x)
    ensures forall x :: x in AllCells(rows') ==> x in AllCells(rows) || fresh(x)
  {
    ghost var i, q := Locate(rows, index, n);
    rows' := Promote(s, n, rows, i, q, index, m, n.value);
    TouchedValues(index, n, m);
  }

  lemma SomeRow(rows: seq<Row>, index: map<Str, LfuNode>)
    requires Indexes(index, rows) && index != map[]
    ensures rows != []
  {
    var k :| k in index;
    assert Present(rows, index[k]);
  }

  method EvictOne(s: FreqBucket, ghost rows: seq<Row>, ghost index: map<Str, LfuNode>, ghost m: Model)
    returns (victim: LfuNode, ghost rows': seq<Row>)
    requires GoodBut(s, rows, index, m, {}) && index != map[]
    modifies s`next, s`prev, BucketSet(rows)`next, BucketSet(rows)`prev, AllCells(rows)`next, AllCells(rows)`prev
    ensures GoodBut(s, rows', index - {victim.key}, Evict(m), {}) && victim.key in index
    ensures BucketSet(rows') <= BucketSet(rows) && AllCells(rows') <= AllCells(rows)
  {
    SomeRow(rows, index);
    victim, rows' := EvictNode(s, rows, index, m);
    assert ValuesOk(index - {victim.key}, Evict(m), {});
  }

  method PushNew(s: FreqBucket, first: FreqBucket, key: Str, value: Str, ghost rows: seq<Row>) returns (n: LfuNode)
    requires Structure(s, rows) && rows != [] && first == rows[0].bucket
    modifies AllCells(rows)`next, AllCells(rows)`prev
    ensures fresh(n) && n.key == key && n.value == value && Structure(s, rows[0 := Pushed(rows[0], n)])
  {
    forall r | r in rows {
      CellsAllocated(r);
    }
    n := new LfuNode(key, value);
    PushInto(s, first, n, rows, 0);
  }

  lemma NodeWithin(rows: seq<Row>, index: map<Str, LfuNode>, n: LfuNode)
    requires Indexes(index, rows) && n.key in index && index[n.key] == n
    ensures n in AllCells(rows)
  {
    var i, q := Locate(rows, index, n);
    CellsWithin(rows, i);
  }

  method SetValue(n: LfuNode, value: Str, s: FreqBucket, ghost rows: seq<Row>, ghost index: map<Str, LfuNode>,
      ghost m: Model)
    requires GoodBut(s, rows, index, m, {}) && n.key in index && index[n.key] == n
    modifies n`value
    ensures n.value == value && GoodBut(s, rows, index, m, {n.key})
  {
    n.value := value;
  }

  lemma ValuesAdmitted(index: map<Str, LfuNode>, m: Model, n: LfuNode)
    requires ValuesOk(index, m, {}) && n.key !in index && n.key !in m.items
    ensures ValuesOk(index[n.key := n], Admit(m, n.key, n.value), {})
  {
  }

  method AdmitOne(s: FreqBucket, key: Str, value: Str, ghost rows: seq<Row>, ghost index: map<Str, LfuNode>,
      ghost m: Model)
    returns (n: LfuNode, ghost rows': seq<Row>)
    requires GoodBut(s, rows, index, m, {}) && key !in index
    modifies s`next, s`prev, BucketSet(rows)`next, BucketSet(rows)`prev, AllCells(rows)`next, AllCells(rows)`prev
    ensures n.key == key && fresh(n) && key !in m.items
    ensures GoodBut(s, rows', index[key := n], Admit(m, key, value), {})
    ensures forall x :: x in BucketSet(rows') ==> x in BucketSet(rows) || fresh(x)
    ensures forall x :: x in AllCells(rows') ==> x in AllCells(rows) || fresh(x)
  {
    var first;
    first, rows' := FirstOfOne(s, rows, index, m);
    n := PushNew(s, first, key, value, rows');
    AdmittedFacts(rows', n, index, m);
    rows' := rows'[0 := Pushed(rows'[0], n)];
    ValuesAdmitted(index, m, n);
  }

  lemma OneMoreKey(index: map<Str, LfuNode>, n: LfuNode)
    requires n.key !in index
    ensures |index[n.key := n]| == |index| + 1
  {
    assert index[n.key := n].Keys == index.Keys + {n.key};
  }

  lemma OneKeyLess(index: map<Str, LfuNode>, key: Str)
    requires key in index
    ensures |index - {key}| == |index| - 1
  {
    assert (index - {key}).Keys == index.Keys - {key};
  }

  /** What the cache stands for: its buckets as values, and the model. */
  datatype View = View(rows: seq<Row>, model: Model)

  class Cache {
    const capacity: nat
    const buckets: FreqBucket              // the sentinel; its own list stays unused
    var items: map<Str, LfuNode>
    ghost var view: View

    ghost predicate Valid()
      reads this, buckets`next, buckets`prev, BucketSet(view.rows)`next, BucketSet(view.rows)`prev
      reads AllCells(view.rows)`next, AllCells(view.rows)`prev, AllCells(view.rows)`bucket, items.Values`value
    {
      GoodBut(buckets, view.rows, items, view.model, {}) && 0 < capacity && |items| <= capacity
    }

    ghost function Model(): LFUModel.Model
      reads this`view
    {
      view.model
    }

    /** The objects the cache is made of. */
    ghost function Repr(): set<object>
      reads this`view
    {
      {this, buckets} + BucketSet(view.rows) + AllCells(view.rows)
    }

    constructor (capacity: nat)
      requires 0 < capacity
      ensures Valid() && Model() == LFUModel.Model(map[], 0) && this.capacity == capacity && fresh(Repr())
    {
      this.capacity, items := capacity, map[];
      var s := new FreqBucket(0);
      buckets := s;
      view := View([], LFUModel.Model(map[], 0));
      new;
      s.prev, s.next := s, s;
      assert Buckets(view.rows) == [];
      assert RingHop(s, [], 0);
    }

    method Get(key: Str) returns (value: Str, found: bool)
      requires Valid()
      modifies Repr()
      ensures Valid() && Model() == LFUModel.Get(old(Model()), key)
      ensures found == (key in old(Model()).items)
      ensures value == if found then old(Model()).items[key].value else []
      ensures Model().items.Keys == old(Model()).items.Keys
      ensures forall k :: k in Model().items && k != key ==> Model().items[k] == old(Model()).items[k]
      ensures found ==>
        && Model().items[key].value == value && Model().items[key].freq == old(Model()).items[key].freq + 1
        && forall k :: k in Model().items && k != key ==> Model().items[k].touched < Model().items[key].touched
      ensures forall x :: x in Repr() ==> x in old(Repr()) || fresh(x)
    {
      SameKeys();
      GetLaw(Model(), key);
      if key !in items {
        return [], false;
      }
      var n := items[key];
      value, found := n.value, true;
      NodeWithin(view.rows, items, n);
      Advance(n);
    }

    /** A use of a node that is there: it moves to the next bucket. */
    method Advance(n: LfuNode)
      requires GoodBut(buckets, view.rows, items, view.model, {n.key}) && 0 < capacity && |items| <= capacity
      requires n.key in items && items[n.key] == n
      modifies this`view, buckets`next, buckets`prev, BucketSet(view.rows)`next, BucketSet(view.rows)`prev
      modifies AllCells(view.rows)`next, AllCells(view.rows)`prev, AllCells(view.rows)`bucket
      ensures Valid() && n.key in old(Model()).items && Model() == Touch(old(Model()), n.key, n.value)
      ensures forall x :: x in Repr() ==> x in old(Repr()) || fresh(x)
    {
      ghost var rows := Use(buckets, n, view.rows, items, view.model);
      Adopt(View(rows, Touch(view.model, n.key, n.value)));
    }

    method Put(key: Str, value: Str)
      requires Valid()
      modifies Repr()
      ensures Valid() && Model() == LFUModel.Put(old(Model()), capacity, key, value)
      ensures key in Model().items && Model().items[key].value == value
      ensures Model().items[key].freq == if key in old(Model()).items then old(Model()).items[key].freq + 1 else 1
      ensures forall k :: k in Model().items && k != key ==>
        && k in old(Model()).items && Model().items[k] == old(Model()).items[k]
        && Model().items[k].touched < Model().items[key].touched
      ensures (exists k :: k in old(Model()).items && k !in Model().items) <==>
        key !in old(Model()).items && |old(Model()).items| == capacity
      ensures forall k, j :: k in old(Model()).items && k !in Model().items && j in old(Model()).items && j != k ==>
        && j in Model().items && old(Model()).items[k].freq <= old(Model()).items[j].freq
        && (old(Model()).items[k].freq == old(Model()).items[j].freq ==>
              old(Model()).items[k].touched < old(Model()).items[j].touched)
      ensures forall x :: x in Repr() ==> x in old(Repr()) || fresh(x)
    {
      SameKeys();
      PutLaw(Model(), capacity, key, value);
      if key in items {
        Overwrite(key, value);
        return;
      }
      if |items| >= capacity {
        MakeRoom();
      }
      Admit(key, value);
    }

    /** The index has the model's keys. */
    lemma SameKeys()
      requires Valid()
      ensures items.Keys == Model().items.Keys && |items| == |Model().items| && Sane(Model())
    {
      assert |items| == |items.Keys| && |Model().items| == |Model().items.Keys|;
    }

    method Overwrite(key: Str, value: Str)
      requires Valid() && key in items
      modifies Repr()
      ensures Valid() && key in old(Model()).items && Model() == Touch(old(Model()), key, value)
      ensures forall x :: x in Repr() ==> x in old(Repr()) || fresh(x)
    {
      var n := items[key];
      NodeWithin(view.rows, items, n);
      SetValue(n, value, buckets, view.rows, items, view.model);
      Advance(n);
    }

    /** From here on the cache stands for `view'`. */
    ghost method Adopt(view': View)
      requires GoodBut(buckets, view'.rows, items, view'.model, {}) && 0 < capacity && |items| <= capacity
      modifies this`view
      ensures Valid() && view == view'
    {
      view := view';
    }

    method MakeRoom()
      requires Valid() && items != map[]
      modifies Repr()
      ensures Valid() && Model() == Evict(old(Model())) && |items| == |old(items)| - 1
      ensures forall k :: k in items ==> k in old(items)
      ensures forall x :: x in Repr() ==> x in old(Repr())
    {
      var victim;
      ghost var rows;
      victim, rows := EvictOne(buckets, view.rows, items, view.model);
      Leave(victim.key, View(rows, Evict(view.model)));
    }

    /** Strikes a key off the index; from here on the cache stands for `view'`. */
    method Leave(key: Str, ghost view': View)
      requires GoodBut(buckets, view'.rows, items - {key}, view'.model, {}) && key in items
      requires 0 < capacity && |items| <= capacity
      modifies this`items, this`view
      ensures Valid() && view == view' && items == old(items) - {key} && |items| == |old(items)| - 1
    {
      OneKeyLess(items, key);
      items := items - {key};
      Adopt(view');
    }

    method Admit(key: Str, value: Str)
      requires Valid() && key !in items && |items| < capacity
      modifies Repr()
      ensures Valid() && key !in old(Model()).items && Model() == LFUModel.Admit(old(Model()), key, value)
      ensures forall x :: x in Repr() ==> x in old(Repr()) || fresh(x)
    {
      var n;
      ghost var rows;
      n, rows := AdmitOne(buckets, key, value, view.rows, items, view.model);
      Enter(n, View(rows, LFUModel.Admit(view.model, key, value)));
    }

    /** Puts a node into the index; from here on the cache stands for `view'`. */
    method Enter(n: LfuNode, ghost view': View)
      requires GoodBut(buckets, view'.rows, items[n.key := n], view'.model, {}) && n.key !in items
      requires |items| < capacity
      modifies this`items, this`view
      ensures Valid() && view == view' && items == old(items)[n.key := n]
    {
      OneMoreKey(items, n);
      items := items[n.key := n];
      Adopt(view');
    }

    /** How often a key was used since it came in. */
    method Freq(key: Str) returns (freq: nat, found: bool)
      requires Valid()
      ensures found == (key in Model().items) && freq == if found then Model().items[key].freq else 0
    {
      if key !in items {
        return 0, false;
      }
      ghost var i, q := Locate(view.rows, items, items[key]);
      assert view.rows[i] in view.rows && RowAgrees(view.rows[i], view.model.items);
      return items[key].bucket.freq, true;
    }
  }
}