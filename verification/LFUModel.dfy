/** What an LFU cache is for, without any pointers: every key carries its value,
    how often it was used since it came in, and when it was used last. */
module LFUModel {
  import opened ByteStrings

  datatype Item = Item(value: Str, freq: nat, touched: nat)

  datatype Model = Model(items: map<Str, Item>, clock: nat)

  /** Use times lie in the past and no two keys share one. */
  ghost predicate Sane(m: Model) {
    && (forall k :: k in m.items ==> m.items[k].touched < m.clock)
    && (forall j, k :: j in m.items && k in m.items && j != k ==> m.items[j].touched != m.items[k].touched)
  }

  /** Used less often than `b`, or as often but longer ago. */
  predicate Colder(a: Item, b: Item) {
    a.freq < b.freq || (a.freq == b.freq && a.touched < b.touched)
  }

  /** The key an eviction must take. */
  ghost predicate Coldest(items: map<Str, Item>, key: Str) {
    key in items && forall k :: k in items && k != key ==> Colder(items[key], items[k])
  }

  lemma {:induction false} SomeKeyIsColdest(items: map<Str, Item>) returns (key: Str)
    requires items != map[]
    requires forall j, k :: j in items && k in items && j != k ==> items[j].touched != items[k].touched
    ensures Coldest(items, key)
    decreases |items|
  {
    var k :| k in items;
    var rest := items - {k};
    assert items == rest[k := items[k]];
    if rest == map[] {
      key := k;
    } else {
      assert rest.Keys == items.Keys - {k};
      var j := SomeKeyIsColdest(rest);
      key := if Colder(items[j], items[k]) then j else k;
    }
  }

  lemma OnlyOneIsColdest(items: map<Str, Item>, j: Str, k: Str)
    requires Coldest(items, j) && Coldest(items, k)
    ensures j == k
  {
  }

  ghost function Victim(m: Model): (key: Str)
    requires Sane(m) && m.items != map[]
    ensures Coldest(m.items, key)
  {
    assert exists k :: Coldest(m.items, k) by { var _ := SomeKeyIsColdest(m.items); }
    var k :| Coldest(m.items, k);
    k
  }

  /** A use: one more, and now. */
  ghost function Touch(m: Model, key: Str, value: Str): (m': Model)
    requires key in m.items
    ensures Sane(m) ==> Sane(m')
  {
    Model(m.items[key := Item(value, m.items[key].freq + 1, m.clock)], m.clock + 1)
  }

  ghost function Admit(m: Model, key: Str, value: Str): (m': Model)
    requires key !in m.items
    ensures Sane(m) ==> Sane(m')
  {
    Model(m.items[key := Item(value, 1, m.clock)], m.clock + 1)
  }

  ghost function Evict(m: Model): (m': Model)
    requires Sane(m)
    ensures Sane(m')
  {
    if m.items == map[] then m else Model(m.items - {Victim(m)}, m.clock)
  }

  ghost function Put(m: Model, capacity: nat, key: Str, value: Str): (m': Model)
    requires Sane(m)
    ensures Sane(m')
  {
    if key in m.items then Touch(m, key, value)
    else Admit(if |m.items| >= capacity then Evict(m) else m, key, value)
  }

  ghost function Get(m: Model, key: Str): (m': Model)
    requires Sane(m)
    ensures Sane(m')
  {
    if key in m.items then Touch(m, key, m.items[key].value) else m
  }

  /** The cache never outgrows its capacity. */
  lemma PutFits(m: Model, capacity: nat, key: Str, value: Str)
    requires Sane(m) && 0 < capacity && |m.items| <= capacity
    ensures |Put(m, capacity, key, value).items| <= capacity
  {
    var m' := Put(m, capacity, key, value);
    if key in m.items {
      assert m'.items.Keys == m.items.Keys;
    } else if |m.items| >= capacity {
      assert (m.items - {Victim(m)}).Keys == m.items.Keys - {Victim(m)};
      assert m'.items.Keys == (m.items.Keys - {Victim(m)}) + {key};
    } else {
      assert m'.items.Keys == m.items.Keys + {key};
    }
  }

  /** A put in full: the key has the value, one use more or its first, and the latest use; of
      the others only one may go, when a new key meets a full cache: the one used least, and of
      those the one whose last use is longest ago. */
  lemma PutLaw(m: Model, capacity: nat, key: Str, value: Str)
    requires Sane(m) && 0 < capacity && |m.items| <= capacity
    ensures var m' := Put(m, capacity, key, value);
            && key in m'.items && m'.items[key].value == value
            && m'.items[key].freq == (if key in m.items then m.items[key].freq + 1 else 1)
            && (forall k :: k in m'.items && k != key ==>
                  k in m.items && m'.items[k] == m.items[k] && m.items[k].touched < m'.items[key].touched)
            && (forall k :: k in m.items && k !in m'.items ==>
                  && key !in m.items && |m.items| == capacity
                  && forall j :: j in m.items && j != k ==>
                       && j in m'.items && m.items[k].freq <= m.items[j].freq
                       && (m.items[k].freq == m.items[j].freq ==> m.items[k].touched < m.items[j].touched))
            && ((exists k :: k in m.items && k !in m'.items) <==> key !in m.items && |m.items| == capacity)
  {
    if key !in m.items && |m.items| == capacity {
      assert Victim(m) in m.items && Victim(m) !in Put(m, capacity, key, value).items;
    }
  }

  /** A get in full: a key that is there has one use more, and the latest; nothing else changes. */
  lemma GetLaw(m: Model, key: Str)
    requires Sane(m)
    ensures var m' := Get(m, key);
            && m'.items.Keys == m.items.Keys && (forall k :: k in m.items && k != key ==> m'.items[k] == m.items[k])
            && (key in m.items ==>
                  && m'.items[key].value == m.items[key].value && m'.items[key].freq == m.items[key].freq + 1
                  && forall k :: k in m.items ==> m.items[k].touched < m'.items[key].touched)
  {
  }

  // ------------------------------------------------------------------------- runs

  datatype Op = PutOp(key: Str, value: Str) | GetOp(key: Str)

  /** A model that a cache of this capacity can stand for. */
  ghost predicate Fits(m: Model, capacity: nat) {
    Sane(m) && |m.items| <= capacity
  }

  ghost predicate Steps(capacity: nat, m: Model, op: Op, m': Model)
    requires Fits(m, capacity)
  {
    m' == match op
          case PutOp(key, value) => Put(m, capacity, key, value)
          case GetOp(key) => Get(m, key)
  }

  /** A call, for one key: whether it names it or not. */
  ghost predicate TellsOf(m: Model, op: Op, m': Model, key: Str) {
    && (key in m'.items && op.key != key ==> key in m.items && m'.items[key] == m.items[key])
    && (key in m'.items && op.key == key ==>
          && m'.items[key].freq == (if key in m.items then m.items[key].freq + 1 else 1)
          && if op.PutOp? then m'.items[key].value == op.value
             else key in m.items && m'.items[key].value == m.items[key].value)
  }

  lemma StepLaw(capacity: nat, m: Model, op: Op, m': Model)
    requires 0 < capacity && Fits(m, capacity) && Steps(capacity, m, op, m')
    ensures Fits(m', capacity) && TellsOfAll(m, op, m')
  {
    match op
    case PutOp(k, value) => PutStep(capacity, m, k, value);
    case GetOp(k) => GetStep(capacity, m, k);
  }

  lemma PutStep(capacity: nat, m: Model, k: Str, value: Str)
    requires 0 < capacity && Fits(m, capacity)
    ensures var m' := Put(m, capacity, k, value);
            Fits(m', capacity) && TellsOfAll(m, PutOp(k, value), m')
  {
    PutFits(m, capacity, k, value);
    PutLaw(m, capacity, k, value);
  }

  lemma GetStep(capacity: nat, m: Model, k: Str)
    requires 0 < capacity && Fits(m, capacity)
    ensures var m' := Get(m, k); Fits(m', capacity) && TellsOfAll(m, GetOp(k), m')
  {
    GetLaw(m, k);
    SameSize(m.items, Get(m, k).items);
  }

  lemma SameSize(a: map<Str, Item>, b: map<Str, Item>)
    requires a.Keys == b.Keys
    ensures |a| == |b|
  {
    assert |a| == |a.Keys| && |b| == |b.Keys|;
  }

  /** Calls, and the models between them, from the empty cache on. */
  ghost predicate IsRun(capacity: nat, ops: seq<Op>, ms: seq<Model>) {
    && |ms| == |ops| + 1 && ms[0] == Model(map[], 0)
    && (forall n :: 0 <= n < |ms| ==> Fits(ms[n], capacity))
    && forall n :: 0 <= n < |ops| ==> Steps(capacity, ms[n], ops[n], ms[n + 1])
  }

  /** Any calls make a run. */
  lemma {:induction false} RunExists(capacity: nat, ops: seq<Op>) returns (ms: seq<Model>)
    requires 0 < capacity
    ensures IsRun(capacity, ops, ms)
  {
    if ops == [] {
      ms := [Model(map[], 0)];
    } else {
      var before := RunExists(capacity, ops[..|ops| - 1]);
      var m' := OneStep(capacity, before[|ops| - 1], ops[|ops| - 1]);
      ms := before + [m'];
      assert ops == ops[..|ops| - 1] + [ops[|ops| - 1]];
      OneMore(capacity, ops[..|ops| - 1], before, ops[|ops| - 1], m');
    }
  }

  lemma OneStep(capacity: nat, m: Model, op: Op) returns (m': Model)
    requires 0 < capacity && Fits(m, capacity)
    ensures Steps(capacity, m, op, m') && Fits(m', capacity)
  {
    m' := match op case PutOp(key, value) => Put(m, capacity, key, value) case GetOp(key) => Get(m, key);
    StepLaw(capacity, m, op, m');
  }

  lemma OneMore(capacity: nat, ops: seq<Op>, ms: seq<Model>, op: Op, m': Model)
    requires IsRun(capacity, ops, ms) && Fits(m', capacity) && Steps(capacity, ms[|ops|], op, m')
    ensures IsRun(capacity, ops + [op], ms + [m'])
  {
  }

  /** What the steps of a run tell of each key. */
  ghost predicate Told(ops: seq<Op>, ms: seq<Model>) {
    && |ms| == |ops| + 1 && ms[0].items == map[]
    && forall n :: 0 <= n < |ops| ==> TellsOfAll(ms[n], ops[n], ms[n + 1])
  }

  ghost predicate TellsOfAll(m: Model, op: Op, m': Model) {
    forall key :: TellsOf(m, op, m', key)
  }

  lemma RunTells(capacity: nat, ops: seq<Op>, ms: seq<Model>)
    requires 0 < capacity && IsRun(capacity, ops, ms)
    ensures Told(ops, ms)
  {
    forall n | 0 <= n < |ops| ensures TellsOfAll(ms[n], ops[n], ms[n + 1]) {
      StepLaw(capacity, ms[n], ops[n], ms[n + 1]);
    }
  }

  /** Call i puts the value, and no call after it, before n, puts another. */
  ghost predicate IsLastPut(ops: seq<Op>, i: nat, n: nat, key: Str, value: Str) {
    && i < n <= |ops| && ops[i] == PutOp(key, value)
    && forall j :: i < j < n ==> !(ops[j].PutOp? && ops[j].key == key)
  }

  /** In every run a key that is in the cache has the value that was last put. */
  lemma RunsKeepTheLastValue(capacity: nat, ops: seq<Op>, ms: seq<Model>, n: nat, key: Str) returns (i: nat)
    requires 0 < capacity && IsRun(capacity, ops, ms) && n <= |ops| && key in ms[n].items
    ensures IsLastPut(ops, i, n, key, ms[n].items[key].value)
  {
    RunTells(capacity, ops, ms);
    i := LastValue(ops, ms, n, key);
  }

  lemma {:induction false} LastValue(ops: seq<Op>, ms: seq<Model>, n: nat, key: Str) returns (i: nat)
    requires Told(ops, ms) && n <= |ops| && key in ms[n].items
    ensures IsLastPut(ops, i, n, key, ms[n].items[key].value)
    decreases n
  {
    assert n > 0;
    assert TellsOfAll(ms[n - 1], ops[n - 1], ms[n]) && TellsOf(ms[n - 1], ops[n - 1], ms[n], key);
    if ops[n - 1].PutOp? && ops[n - 1].key == key {
      i := n - 1;
    } else {
      i := LastValue(ops, ms, n - 1, key);
    }
  }

  /** How many of the calls from i on, before n, name the key. */
  function Uses(ops: seq<Op>, i: nat, n: nat, key: Str): nat
    requires i <= n <= |ops|
  {
    if i == n then 0 else Uses(ops, i, n - 1, key) + if ops[n - 1].key == key then 1 else 0
  }

  /** The key is in the cache from call i on, through call n. */
  ghost predicate Stays(ms: seq<Model>, i: nat, n: nat, key: Str) {
    n <= i || (n < |ms| && key in ms[n].items && Stays(ms, i, n - 1, key))
  }

  /** In every run a key's frequency is how many calls have named it since it came in. */
  lemma RunsCountUses(capacity: nat, ops: seq<Op>, ms: seq<Model>, i: nat, n: nat, key: Str)
    requires 0 < capacity && IsRun(capacity, ops, ms) && i < n <= |ops| && key !in ms[i].items
    requires Stays(ms, i, n, key)
    ensures ms[n].items[key].freq == Uses(ops, i, n, key)
  {
    RunTells(capacity, ops, ms);
    CountUses(ops, ms, i, n, key);
  }

  lemma {:induction false} CountUses(ops: seq<Op>, ms: seq<Model>, i: nat, n: nat, key: Str)
    requires Told(ops, ms) && i < n <= |ops| && key !in ms[i].items
    requires Stays(ms, i, n, key)
    ensures ms[n].items[key].freq == Uses(ops, i, n, key)
    decreases n
  {
    assert TellsOfAll(ms[n - 1], ops[n - 1], ms[n]) && TellsOf(ms[n - 1], ops[n - 1], ms[n], key);
    if i + 1 == n {
      assert Uses(ops, i, i, key) == 0;
    } else {
      CountUses(ops, ms, i, n - 1, key);
    }
  }
}
