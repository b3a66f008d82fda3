/** The LSM engine: one memtable and a stack of flushed runs, newest last.

    `plain` is the map a user thinks the store is. Every operation keeps the
    layers in agreement with it, whatever the flush threshold, the heights the
    skip list draws and the point at which a flush fails. What the layers hold is
    read back as long as every record fits (`Sound`) and no read fails inside a file. */
module LSMTree {
  import opened ByteStrings
  import opened IntWidths
  import opened SkipList
  import opened SSTable

  // ------------------------------------------------------------------- layers

  /** The newest layer that knows the key answers, with a value or a tombstone. */
  ghost function Resolve(layers: seq<map<Str, Cell>>, key: Str): Answer {
    if layers == [] then Answer([], false, false)
    else if key in layers[|layers| - 1] then Consult(layers[|layers| - 1], key)
    else Resolve(layers[..|layers| - 1], key)
  }

  /** The value and the found flag a plain map would give. */
  ghost predicate Tells(a: Answer, plain: map<Str, Str>, key: Str) {
    a.found == (key in plain) && a.value == if key in plain then plain[key] else []
  }

  ghost predicate Agrees(layers: seq<map<Str, Cell>>, plain: map<Str, Str>) {
    forall key :: Tells(Resolve(layers, key), plain, key)
  }

  lemma PutAgrees(older: seq<map<Str, Cell>>, m: map<Str, Cell>, plain: map<Str, Str>, key: Str, value: Str)
    requires Agrees(older + [m], plain)
    ensures Agrees(older + [m[key := Cell(value, false)]], plain[key := value])
  {
    var m' := m[key := Cell(value, false)];
    forall k ensures Tells(Resolve(older + [m'], k), plain[key := value], k) {
      TopLayer(older, m, k);
      TopLayer(older, m', k);
      assert Tells(Resolve(older + [m], k), plain, k);
    }
  }

  /** A tombstone hides every older value. */
  lemma DeleteAgrees(older: seq<map<Str, Cell>>, m: map<Str, Cell>, plain: map<Str, Str>, key: Str)
    requires Agrees(older + [m], plain)
    ensures Agrees(older + [m[key := Cell([], true)]], plain - {key})
  {
    var m' := m[key := Cell([], true)];
    forall k ensures Tells(Resolve(older + [m'], k), plain - {key}, k) {
      TopLayer(older, m, k);
      TopLayer(older, m', k);
      assert Tells(Resolve(older + [m], k), plain, k);
    }
  }

  /** A flush only moves the newest layer down. */
  lemma FlushAgrees(layers: seq<map<Str, Cell>>, plain: map<Str, Str>)
    requires Agrees(layers, plain)
    ensures Agrees(layers + [map[]], plain)
  {
    forall k ensures Tells(Resolve(layers + [map[]], k), plain, k) {
      TopLayer(layers, map[], k);
      assert Tells(Resolve(layers, k), plain, k);
    }
  }

  lemma TopLayer(older: seq<map<Str, Cell>>, m: map<Str, Cell>, key: Str)
    ensures Resolve(older + [m], key) == if key in m then Consult(m, key) else Resolve(older, key)
  {
    assert (older + [m])[..|older|] == older;
  }

  /** One more layer, from the newest of the first i on. */
  lemma NextLayer(layers: seq<map<Str, Cell>>, i: nat, key: Str)
    requires i < |layers|
    ensures Resolve(layers[..i + 1], key) ==
      if key in layers[i] then Consult(layers[i], key) else Resolve(layers[..i], key)
  {
    assert layers[..i + 1] == layers[..i] + [layers[i]];
    TopLayer(layers[..i], layers[i], key);
  }

  /** Layers that agree on a key resolve it alike. */
  lemma {:induction false} SameResolve(a: seq<map<Str, Cell>>, b: seq<map<Str, Cell>>, key: Str, n: nat)
    requires n <= |a| == |b| && forall i :: 0 <= i < n ==> SameCell(a[i], b[i], key)
    ensures Resolve(a[..n], key) == Resolve(b[..n], key)
  {
    if n == 0 {
    } else {
      SameResolve(a, b, key, n - 1);
      NextLayer(a, n - 1, key);
      NextLayer(b, n - 1, key);
      assert SameCell(a[n - 1], b[n - 1], key);
    }
  }

  ghost predicate SameCell(a: map<Str, Cell>, b: map<Str, Cell>, key: Str) {
    (key in a <==> key in b) && (key in a ==> a[key] == b[key])
  }

  /** Layers that do not know a key are passed over. */
  lemma {:induction false} PassedOver(layers: seq<map<Str, Cell>>, key: Str, i: nat, n: nat)
    requires i <= n <= |layers| && forall j :: i <= j < n ==> key !in layers[j]
    ensures Resolve(layers[..n], key) == Resolve(layers[..i], key)
  {
    if i < n {
      PassedOver(layers, key, i, n - 1);
      NextLayer(layers, n - 1, key);
    }
  }

  /** Every record of the map can be written and read back. */
  ghost predicate Small(m: map<Str, Cell>) {
    forall k :: k in m ==> |k| + |m[k].value| < TWO_32
  }

  /** Where a flush stops: at the directory, the file, the write, the sync, or nowhere. */
  datatype FlushIO = MkdirFails | CreateFails | WriteFails(partial: Str) | SyncFails | Completes

  datatype Reply = Reply(value: Str, found: bool) | OpenFailed | Panic

  function ReplyOf(a: Answer): Reply {
    Reply(a.value, a.found)
  }

  class Store {
    var mem: Memtable
    var tables: seq<Table>
    var disk: map<nat, Str>            // the directory: file number to bytes
    const flushBytes: int
    var flushCounter: nat
    ghost var runs: seq<seq<Entry>>
    ghost var layers: seq<map<Str, Cell>>
    ghost var plain: map<Str, Str>

    ghost predicate TableOk(i: nat)
      requires i < |tables| == |runs| == |layers|
      reads this`tables, this`disk, this`runs, this`layers, this`flushCounter
    {
      && tables[i].file in disk && tables[i].file < flushCounter
      && Holds(tables[i], disk[tables[i].file], runs[i]) && Lists(runs[i], layers[i])
    }

    ghost predicate TablesOk()
      reads this`tables, this`disk, this`runs, this`layers, this`flushCounter
    {
      && |tables| == |runs| == |layers| && (forall i :: 0 <= i < |tables| ==> TableOk(i))
      && forall i, j :: 0 <= i < j < |tables| ==> tables[i].file < tables[j].file
    }

    ghost predicate Valid()
      reads this, mem, mem.Nodes()
    {
      mem.Valid() && TablesOk() && Agrees(layers + [mem.contents], plain)
    }

    ghost function Repr(): set<object>
      reads this, mem
    {
      {this, mem} + mem.Nodes()
    }

    constructor (flushBytes: int)
      ensures Valid() && Sound() && plain == map[] && fresh(Repr()) && this.flushBytes == flushBytes
      ensures layers == [] && mem.contents == map[]
    {
      this.flushBytes := flushBytes;
      mem := new Memtable();
      tables, disk, flushCounter := [], map[], 0;
      runs, layers, plain := [], [], map[];
      new;
      FlushAgrees([], map[]);
      assert layers + [mem.contents] == [map[]];
    }

    /** All that was stored can be written and read back. */
    ghost predicate Sound()
      reads this, mem
    {
      Small(mem.contents) && RunsFit()
    }

    ghost predicate RunsFit()
      reads this`runs
    {
      forall i :: 0 <= i < |runs| ==> AllFit(runs[i])
    }

    /** The write reaches the memtable even when the flush it sets off fails. */
    method Put(key: Str, value: Str, io: FlushIO) returns (ok: bool)
      requires Valid()
      modifies Repr()
      ensures Valid() && forall x :: x in Repr() ==> x in old(Repr()) || fresh(x)
      ensures plain == old(plain)[key := value]
      ensures old(Sound()) && |key| + |value| < TWO_32 ==> Sound()
      ensures ok ==> mem.bytes < flushBytes || mem.contents == map[]
      ensures io.Completes? ==> ok
      ensures Stored(old(layers), old(mem.contents)[key := Cell(value, false)])
    {
      PutAgrees(layers, mem.contents, plain, key, value);
      Remember(key, Cell(value, false), plain[key := value]);
      ok := MaybeFlush(io);
    }

    method Delete(key: Str, io: FlushIO) returns (ok: bool)
      requires Valid()
      modifies Repr()
      ensures Valid() && forall x :: x in Repr() ==> x in old(Repr()) || fresh(x)
      ensures plain == old(plain) - {key}
      ensures old(Sound()) && |key| < TWO_32 ==> Sound()
      ensures ok ==> mem.bytes < flushBytes || mem.contents == map[]
      ensures io.Completes? ==> ok
      ensures Stored(old(layers), old(mem.contents)[key := Cell([], true)])
    {
      DeleteAgrees(layers, mem.contents, plain, key);
      Remember(key, Cell([], true), plain - {key});
      ok := MaybeFlush(io);
    }

    /** The newest layer is in memory, or has become a run. */
    ghost predicate Stored(older: seq<map<Str, Cell>>, newest: map<Str, Cell>)
      reads this, mem
    {
      (layers == older && mem.contents == newest) || (layers == older + [newest] && mem.contents == map[])
    }

    /** The memtable takes a cell in; `after` is what a user then sees. */
    method Remember(key: Str, cell: Cell, ghost after: map<Str, Str>)
      requires Valid() && (cell.deleted ==> cell.value == [])
      requires Agrees(layers + [mem.contents[key := cell]], after)
      modifies this`plain, mem, mem.Nodes()
      ensures Valid() && plain == after && forall x :: x in mem.Nodes() ==> x in old(mem.Nodes()) || fresh(x)
      ensures mem.contents == old(mem.contents)[key := cell]
      ensures old(Sound()) && |key| + |cell.value| < TWO_32 ==> Sound()
    {
      if cell.deleted {
        mem.Delete(key);
      } else {
        mem.Put(key, cell.value);
      }
      plain := after;
    }

    method MaybeFlush(io: FlushIO) returns (ok: bool)
      requires Valid()
      modifies this
      ensures Valid() && plain == old(plain) && forall x :: x in Repr() ==> x in old(Repr()) || fresh(x)
      ensures old(Sound()) ==> Sound()
      ensures ok ==> mem.bytes < flushBytes || mem.contents == map[]
      ensures !ok ==> unchanged(this`mem, this`tables)
      ensures io.Completes? ==> ok
      ensures Stored(old(layers), old(mem.contents))
    {
      if mem.bytes < flushBytes {
        return true;
      }
      ok := Flush(io);
    }

    /** Writes the memtable out as the newest run; a failure leaves it where it was. */
    method Flush(io: FlushIO) returns (ok: bool)
      requires Valid()
      modifies this
      ensures Valid() && plain == old(plain) && forall x :: x in Repr() ==> x in old(Repr()) || fresh(x)
      ensures old(Sound()) ==> Sound()
      ensures ok <==> io.Completes? || old(mem.contents) == map[]
      ensures ok ==> mem.contents == map[]
      ensures !ok ==> unchanged(this`mem, this`tables)
      ensures Stored(old(layers), old(mem.contents))
    {
      EmptyOrNot();
      if mem.count == 0 {
        return true;
      }
      var es := mem.Entries();
      ok := WriteOut(es, io);
    }

    method WriteOut(es: seq<Entry>, io: FlushIO) returns (ok: bool)
      requires Valid() && es != [] && Run(es) && Lists(es, mem.contents)
      modifies this
      ensures Valid() && plain == old(plain) && forall x :: x in Repr() ==> x in old(Repr()) || fresh(x)
      ensures old(Sound()) ==> Sound()
      ensures ok <==> io.Completes?
      ensures ok ==> mem.contents == map[]
      ensures !ok ==> unchanged(this`mem, this`tables)
      ensures Stored(old(layers), old(mem.contents))
    {
      if io.MkdirFails? || io.CreateFails? {
        return false;
      }
      if io.WriteFails? {
        WriteFile(io.partial);
        return false;
      }
      ok := SaveAndSync(es, !io.SyncFails?);
    }

    method SaveAndSync(es: seq<Entry>, synced: bool) returns (ok: bool)
      requires Valid() && es != [] && Run(es) && Lists(es, mem.contents)
      modifies this
      ensures Valid() && plain == old(plain) && forall x :: x in Repr() ==> x in old(Repr()) || fresh(x)
      ensures old(Sound()) ==> Sound()
      ensures ok == synced
      ensures ok ==> mem.contents == map[] && layers == old(layers) + [old(mem.contents)]
      ensures !ok ==> unchanged(this`mem, this`tables, this`layers)
    {
      var index := SaveRun(es);
      if !synced {
        return false;
      }
      WrittenHolds(flushCounter, index, es);
      Adopt(TableOf(flushCounter, index, es), es);
      ok := true;
    }

    method SaveRun(es: seq<Entry>) returns (index: seq<IndexEntry>)
      requires Valid()
      modifies this`disk
      ensures Valid() && disk == old(disk)[flushCounter := Encode(es, |es|)] && IndexOf(index, es, |es|)
    {
      var file;
      file, index := Write(es);
      WriteFile(file);
    }

    /** Only the file of the next run is ever written. */
    method WriteFile(file: Str)
      requires Valid()
      modifies this`disk
      ensures Valid() && disk == old(disk)[flushCounter := file]
    {
      disk := disk[flushCounter := file];
      forall i | 0 <= i < |tables| ensures TableOk(i) {
        assert old(TableOk(i));
      }
    }

    method Adopt(t: Table, ghost es: seq<Entry>)
      requires Valid() && t.file == flushCounter && t.file in disk
      requires Holds(t, disk[t.file], es) && Lists(es, mem.contents)
      modifies this`tables, this`runs, this`layers, this`flushCounter, this`mem
      ensures Valid() && tables == old(tables) + [t] && mem.contents == map[]
      ensures layers == old(layers) + [old(mem.contents)] && (old(Sound()) ==> Sound())
      ensures forall x :: x in Repr() ==> x == this || fresh(x)
    {
      FlushAgrees(layers + [mem.contents], plain);
      AddTable(t, es);
      Restart();
    }

    /** An empty memtable in place of the one written out. */
    method Restart()
      requires TablesOk() && Agrees(layers + [map[]], plain)
      modifies this`mem
      ensures Valid() && mem.contents == map[] && (RunsFit() ==> Sound())
      ensures forall x :: x in Repr() ==> x == this || fresh(x)
    {
      mem := new Memtable();
    }

    lemma EntriesFit(es: seq<Entry>)
      requires Lists(es, mem.contents)
      ensures Small(mem.contents) ==> AllFit(es)
    {
    }

    method AddTable(t: Table, ghost es: seq<Entry>)
      requires TablesOk() && t.file == flushCounter && t.file in disk
      requires Holds(t, disk[t.file], es) && Lists(es, mem.contents)
      modifies this`tables, this`runs, this`layers, this`flushCounter
      ensures TablesOk() && tables == old(tables) + [t] && layers == old(layers) + [mem.contents]
      ensures old(Sound()) ==> RunsFit()
    {
      EntriesFit(es);
      forall i | 0 <= i < |tables| ensures tables[i].file < flushCounter {
        assert TableOk(i);
      }
      flushCounter := flushCounter + 1;
      tables, runs, layers := tables + [t], runs + [es], layers + [mem.contents];
      forall i | 0 <= i < |tables| ensures TableOk(i) {
        if i < |old(tables)| {
          assert old(TableOk(i));
        } else {
          assert tables[i] == t && runs[i] == es && layers[i] == mem.contents;
        }
      }
    }

    lemma BytesPositive()
      requires mem.Valid()
      ensures mem.bytes >= 0
    {
      WeightPositive(mem.order, mem.contents);
    }

    lemma EmptyOrNot()
      requires mem.Valid()
      ensures mem.count == 0 <==> mem.contents == map[]
    {
      if mem.count == 0 {
        assert forall k :: k in mem.contents ==> Contains(mem.order, k);
      } else {
        assert mem.order[0].key in mem.contents;
      }
    }

    /** What run i shows of itself: all, when its file is not opened, since then nothing is
        answered from it. */
    ghost function Visible(i: nat, io: nat -> Access): map<Str, Cell>
      requires i < |tables| == |runs| == |layers|
      reads this
    {
      match io(tables[i].file)
      case NotOpened => layers[i]
      case Until(at) => Shown(runs[i], layers[i], at)
    }

    /** The first n runs, as far as they can be read. */
    ghost function VisibleUpto(n: nat, io: nat -> Access): (r: seq<map<Str, Cell>>)
      requires n <= |tables| == |runs| == |layers|
      reads this
      ensures |r| == n && forall i :: 0 <= i < n ==> r[i] == Visible(i, io)
    {
      if n == 0 then [] else VisibleUpto(n - 1, io) + [Visible(n - 1, io)]
    }

    ghost function AllVisible(io: nat -> Access): seq<map<Str, Cell>>
      requires |tables| == |runs| == |layers|
      reads this
    {
      VisibleUpto(|tables|, io)
    }

    /** Run i knows the key, but the record cannot be read. */
    ghost predicate Hides(key: Str, i: nat, io: nat -> Access)
      requires i < |tables| == |runs| == |layers|
      reads this
    {
      key in layers[i] && key !in Visible(i, io)
    }

    /** Run i must be asked for the key, and its file cannot be opened. */
    ghost predicate Blocks(key: Str, i: nat, io: nat -> Access)
      requires i < |tables|
      reads this
    {
      io(tables[i].file).NotOpened? && Spans(tables[i], key)
    }

    /** Neither the memtable nor a run from i upwards, as far as it can be read, knows the key. */
    ghost predicate Unseen(key: Str, i: nat, io: nat -> Access)
      requires |tables| == |runs| == |layers|
      reads this, mem
    {
      key !in mem.contents && forall j :: i <= j < |tables| ==> key !in Visible(j, io) && !Blocks(key, j, io)
    }

    ghost predicate NoneHides(key: Str, io: nat -> Access)
      requires |tables| == |runs| == |layers|
      reads this
    {
      forall i :: 0 <= i < |tables| ==> !Hides(key, i, io)
    }

    /** What an answer is when the layers are those that can be read. */
    ghost function Reading(key: Str, io: nat -> Access): Answer
      requires |tables| == |runs| == |layers|
      reads this, mem
    {
      Resolve(AllVisible(io) + [mem.contents], key)
    }

    /** When no run hides the key, what can be read tells what the user wrote. */
    lemma NothingHidden(key: Str, io: nat -> Access)
      requires Valid() && NoneHides(key, io)
      ensures Tells(Reading(key, io), plain, key)
    {
      var visible := AllVisible(io);
      forall i | 0 <= i < |tables| ensures SameCell(visible[i], layers[i], key) {
        assert !Hides(key, i, io);
      }
      SameResolve(visible, layers, key, |tables|);
      assert visible[..|tables|] == visible && layers[..|tables|] == layers;
      assert Tells(Resolve(layers + [mem.contents], key), plain, key);
      TopLayer(layers, mem.contents, key);
      TopLayer(visible, mem.contents, key);
    }

    /** When the newest run that knows the key hides it, the runs before it answer. */
    lemma HiddenIsStale(key: Str, i: nat, io: nat -> Access)
      requires Valid() && i < |tables| && Hides(key, i, io) && key !in mem.contents
      requires forall j :: i < j < |tables| ==> key !in layers[j]
      ensures Reading(key, io) == Resolve(AllVisible(io)[..i], key)
    {
      var visible := AllVisible(io);
      PassedOver(visible, key, i, |tables|);
      assert visible[..|tables|] == visible;
      TopLayer(visible, mem.contents, key);
    }

    /** The answer of the newest layer that can be read and knows the key, unless the file of a
        run that must be asked before cannot be opened. It is the user's as long as no run hides
        the key. */
    method Get(key: Str, io: nat -> Access) returns (r: Reply)
      requires Valid()
      ensures Sound() ==> r == OpenFailed || r == ReplyOf(Reading(key, io))
      ensures Sound() && r == OpenFailed ==> exists i :: 0 <= i < |tables| && StopsAt(key, i, io)
      ensures Sound() && NoneHides(key, io) ==>
        r == OpenFailed || r == Reply(if key in plain then plain[key] else [], key in plain)
    {
      if NoneHides(key, io) {
        NothingHidden(key, io);
      }
      TopLayer(AllVisible(io), mem.contents, key);
      var a := mem.Get(key);
      if a.found || a.tombstone {
        r := Reply(a.value, a.found);
      } else {
        r := AskRuns(key, io);
      }
    }

    /** Run i is the first that must be asked and cannot. */
    ghost predicate StopsAt(key: Str, i: nat, io: nat -> Access)
      requires i < |tables| == |runs| == |layers|
      reads this, mem
    {
      Blocks(key, i, io) && Unseen(key, i + 1, io)
    }

    /** All from run i upwards have been asked and know nothing. */
    ghost predicate AskedDown(key: Str, i: nat, io: nat -> Access)
      requires i <= |tables| == |runs| == |layers|
      reads this, mem
    {
      Unseen(key, i, io) && Resolve(AllVisible(io), key) == Resolve(AllVisible(io)[..i], key)
    }

    lemma AskedNone(key: Str, io: nat -> Access)
      requires |tables| == |runs| == |layers| && key !in mem.contents
      ensures AskedDown(key, |tables|, io)
    {
      assert AllVisible(io)[..|tables|] == AllVisible(io);
    }

    /** Run i, when all above know nothing, answers for all; or it knows nothing either. */
    lemma AskedOne(key: Str, i: nat, io: nat -> Access)
      requires i < |tables| == |runs| == |layers| && AskedDown(key, i + 1, io) && !Blocks(key, i, io)
      ensures key in Visible(i, io) ==> Resolve(AllVisible(io), key) == Consult(Visible(i, io), key)
      ensures key !in Visible(i, io) ==> AskedDown(key, i, io)
    {
      NextLayer(AllVisible(io), i, key);
    }

    lemma AskedAll(key: Str, io: nat -> Access)
      requires |tables| == |runs| == |layers| && AskedDown(key, 0, io)
      ensures Resolve(AllVisible(io), key) == NOTHING
    {
    }

    /** The newest run that answers. */
    method AskRuns(key: Str, io: nat -> Access) returns (r: Reply)
      requires TablesOk() && key !in mem.contents
      ensures RunsFit() ==> r == OpenFailed || r == ReplyOf(Resolve(AllVisible(io), key))
      ensures RunsFit() && r == OpenFailed ==> exists i :: 0 <= i < |tables| && StopsAt(key, i, io)
    {
      var i := |tables|;
      AskedNone(key, io);
      while i > 0
        invariant 0 <= i <= |tables| && (RunsFit() ==> AskedDown(key, i, io))
      {
        i := i - 1;
        var l := AskOne(i, key, io);
        match l {
          case Failed =>
            return OpenFailed;
          case Panicked =>
            return Panic;
          case Answered(b) =>
            if b.found || b.tombstone {
              return Reply(b.value, b.found);
            }
        }
      }
      if RunsFit() {
        AskedAll(key, io);
      }
      return Reply([], false);
    }

    /** What asking run i comes to, when all above know nothing. */
    ghost predicate Asked(key: Str, i: nat, io: nat -> Access, l: Lookup)
      requires i < |tables| == |runs| == |layers|
      reads this, mem
    {
      match l
      case Failed => StopsAt(key, i, io)
      case Panicked => false
      case Answered(b) => if b.found || b.tombstone then b == Resolve(AllVisible(io), key) else AskedDown(key, i, io)
    }

    method AskOne(i: nat, key: Str, io: nat -> Access) returns (l: Lookup)
      requires TablesOk() && i < |tables|
      ensures RunsFit() && AskedDown(key, i + 1, io) ==> Asked(key, i, io, l)
    {
      if AskedDown(key, i + 1, io) && !Blocks(key, i, io) {
        AskedOne(key, i, io);
      }
      l := AskTable(i, key, io);
    }

    method AskTable(i: nat, key: Str, io: nat -> Access) returns (l: Lookup)
      requires TablesOk() && i < |tables|
      ensures Blocks(key, i, io) ==> l == Failed
      ensures !Blocks(key, i, io) && AllFit(runs[i]) ==> l == Answered(Consult(Visible(i, io), key))
    {
      assert TableOk(i);
      l := SSTable.Get(tables[i], disk, io(tables[i].file), key, runs[i], layers[i]);
    }
  }

  /** One call on the store, with how its flush would go. */
  datatype Op = PutOp(key: Str, value: Str, io: FlushIO) | DeleteOp(key: Str, io: FlushIO) | FlushOp(io: FlushIO)

  /** The record it makes can be read back. */
  predicate Writable(op: Op) {
    match op
    case PutOp(key, value, _) => |key| + |value| < TWO_32
    case DeleteOp(key, _) => |key| < TWO_32
    case FlushOp(_) => true
  }

  function Apply(m: map<Str, Str>, op: Op): map<Str, Str> {
    match op
    case PutOp(key, value, _) => m[key := value]
    case DeleteOp(key, _) => m - {key}
    case FlushOp(_) => m
  }

  /** What a plain map holds after the first n calls: flushes do nothing. */
  function PlainMap(ops: seq<Op>, n: nat): map<Str, Str>
    requires n <= |ops|
  {
    if n == 0 then map[] else Apply(PlainMap(ops, n - 1), ops[n - 1])
  }

  method Do(s: Store, op: Op) returns (ok: bool)
    requires s.Valid()
    modifies s.Repr()
    ensures s.Valid() && forall x :: x in s.Repr() ==> x in old(s.Repr()) || fresh(x)
    ensures s.plain == Apply(old(s.plain), op) && (old(s.Sound()) && Writable(op) ==> s.Sound())
  {
    match op {
      case PutOp(key, value, io) => ok := s.Put(key, value, io);
      case DeleteOp(key, io) => ok := s.Delete(key, io);
      case FlushOp(io) => ok := s.Flush(io);
    }
  }

  predicate AllWritable(ops: seq<Op>, n: nat)
    requires n <= |ops|
  {
    n == 0 || (AllWritable(ops, n - 1) && Writable(ops[n - 1]))
  }

  /** Every run of the store ends in agreement with a plain map, and all of it can be read back
      when every record fits. */
  method RunAll(flushBytes: int, ops: seq<Op>) returns (s: Store)
    ensures fresh(s) && s.Valid() && s.plain == PlainMap(ops, |ops|) && (AllWritable(ops, |ops|) ==> s.Sound())
  {
    s := new Store(flushBytes);
    for i := 0 to |ops|
      invariant s.Valid() && s.plain == PlainMap(ops, i) && forall x :: x in s.Repr() ==> fresh(x)
      invariant AllWritable(ops, i) ==> s.Sound()
    {
      var _ := Do(s, ops[i]);
    }
  }

  /** A write to an empty memtable that is flushed at once. */
  method PutFlushed(s: Store, key: Str, value: Str)
    requires s.Valid() && s.flushBytes == 0 && s.mem.contents == map[]
    modifies s.Repr()
    ensures s.Valid() && forall x :: x in s.Repr() ==> x in old(s.Repr()) || fresh(x)
    ensures s.plain == old(s.plain)[key := value] && s.mem.contents == map[]
    ensures s.layers == old(s.layers) + [map[key := Cell(value, false)]]
    ensures old(s.Sound()) && |key| + |value| < TWO_32 ==> s.Sound()
  {
    ghost var newest := s.mem.contents[key := Cell(value, false)];
    assert newest == map[key := Cell(value, false)] && key in newest;
    var _ := s.Put(key, value, Completes);
    s.BytesPositive();
  }

  method OneWrite(key: Str, value: Str) returns (s: Store)
    requires |key| + |value| < TWO_32
    ensures fresh(s.Repr()) && s.Valid() && s.Sound() && s.flushBytes == 0 && s.mem.contents == map[]
    ensures s.plain == map[key := value] && s.layers == [map[key := Cell(value, false)]]
  {
    s := new Store(0);
    PutFlushed(s, key, value);
  }

  /** Two writes of one key, each flushed at once. */
  method TwoWrites(key: Str, older: Str, newer: Str) returns (s: Store)
    requires |key| + |older| < TWO_32 && |key| + |newer| < TWO_32
    ensures s.Valid() && s.Sound() && s.plain == map[key := newer] && s.mem.contents == map[]
    ensures s.layers == [map[key := Cell(older, false)], map[key := Cell(newer, false)]]
  {
    s := OneWrite(key, older);
    PutFlushed(s, key, newer);
  }

  /** A read of the newer file that fails: the older value comes back, and no error. */
  method StaleRead(key: Str) returns (s: Store, r: Reply)
    requires |key| + 1 < TWO_32
    ensures s.Valid() && s.plain == map[key := [2]]
    ensures r == Reply([1], true)
  {
    s := TwoWrites(key, [1], [2]);
    r := ReadBroken(s, key);
  }

  method ReadBroken(s: Store, key: Str) returns (r: Reply)
    requires s.Valid() && s.Sound() && s.mem.contents == map[]
    requires s.layers == [map[key := Cell([1], false)], map[key := Cell([2], false)]]
    ensures r == Reply([1], true)
  {
    assert s.TableOk(0) && s.TableOk(1);
    var broken, whole := s.tables[1].file, |s.disk[s.tables[0].file]|;
    var io := (f: nat) => if f == broken then Until(0) else Until(whole);
    StaleReading(s, key, io);
    r := s.Get(key, io);
  }

  lemma StaleReading(s: Store, key: Str, io: nat -> Access)
    requires s.Valid() && s.layers == [map[key := Cell([1], false)], map[key := Cell([2], false)]]
    requires s.mem.contents == map[] && io(s.tables[1].file) == Until(0)
    requires s.tables[0].file in s.disk && io(s.tables[0].file) == Until(|s.disk[s.tables[0].file]|)
    ensures ReplyOf(s.Reading(key, io)) == Reply([1], true)
    ensures forall i :: 0 <= i < |s.tables| ==> !s.Blocks(key, i, io)
  {
    OldShownNewHidden(s, key, io);
    s.HiddenIsStale(key, 1, io);
    NextLayer(s.AllVisible(io), 0, key);
  }

  lemma OldShownNewHidden(s: Store, key: Str, io: nat -> Access)
    requires s.TablesOk() && s.layers == [map[key := Cell([1], false)], map[key := Cell([2], false)]]
    requires io(s.tables[1].file) == Until(0)
    requires s.tables[0].file in s.disk && io(s.tables[0].file) == Until(|s.disk[s.tables[0].file]|)
    ensures s.Visible(0, io) == s.layers[0] && s.Hides(key, 1, io)
  {
    assert s.TableOk(0) && s.TableOk(1);
    AllShown(s.runs[0], s.layers[0], |s.disk[s.tables[0].file]|);
  }
}
