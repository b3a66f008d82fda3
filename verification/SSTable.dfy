/** The on-disk run of the LSM engine: records of a nine-byte little-endian
    header, the key and the value, with an index entry for every sixteenth.

    A file is its bytes. `Flush` writes the records and the index in one pass;
    `Get` reads them back from the nearest indexed record. A read that fails in the
    middle of a file is taken for its end. */
module SSTable {
  import opened ByteStrings
  import opened IntWidths
  import opened LittleEndian
  import opened Sequences
  import opened SkipList

  const INTERVAL := 16

  datatype IndexEntry = IndexEntry(key: Str, offset: nat)

  datatype Table = Table(file: nat, index: seq<IndexEntry>, minKey: Str, maxKey: Str, count: nat)

  // ------------------------------------------------------------------ records

  function Record(e: Entry): (r: Str)
    ensures |r| == 9 + |e.key| + |e.cell.value|
  {
    PutUint32(|e.key|) + PutUint32(|e.cell.value|) + [if e.cell.deleted then 1 else 0] + e.key + e.cell.value
  }

  /** The lengths are added in 32 bits when a record is read back. */
  predicate Fits(e: Entry) {
    |e.key| + |e.cell.value| < TWO_32
  }

  datatype ReadResult = Got(entry: Entry, next: nat) | EndOfFile | SliceOutOfRange

  /** Reads the record at `pos`, as the scan does. */
  function ReadRecord(file: Str, pos: nat): ReadResult {
    if pos + 9 > |file| then EndOfFile
    else
      var keyLen := Uint32(file[pos..pos + 4]);
      var bodyLen := (keyLen + Uint32(file[pos + 4..pos + 8])) % TWO_32;
      if pos + 9 + bodyLen > |file| then EndOfFile
      else if keyLen > bodyLen then SliceOutOfRange
      else
        var body := file[pos + 9..pos + 9 + bodyLen];
        Got(Entry(body[..keyLen], Cell(body[keyLen..], file[pos + 8] == 1)), pos + 9 + bodyLen)
  }

  /** The bytes of a record: the two lengths, low bytes first, a tombstone flag, the key, the value. */
  lemma RecordBytes(e: Entry)
    ensures var r := Record(e);
            && |r| == 9 + |e.key| + |e.cell.value| && r[9..] == e.key + e.cell.value
            && r[8] == (if e.cell.deleted then 1 else 0)
            && (forall i :: 0 <= i < 4 ==> r[i] == Byte(|e.key|, i) && r[4 + i] == Byte(|e.cell.value|, i))
  {
    var r, k, v := Record(e), PutUint32(|e.key|), PutUint32(|e.cell.value|);
    Bytes32(|e.key|);
    Bytes32(|e.cell.value|);
    assert forall i :: 0 <= i < 4 ==> r[i] == k[i] && r[4 + i] == v[i];
  }

  ghost predicate IsRecordAt(file: Str, pos: nat, e: Entry) {
    pos + |Record(e)| <= |file| && file[pos..pos + |Record(e)|] == Record(e)
  }

  /** What the header of a record at `pos` says. */
  lemma HeaderAt(file: Str, pos: nat, e: Entry)
    requires IsRecordAt(file, pos, e)
    ensures Uint32(file[pos..pos + 4]) == |e.key| % TWO_32
    ensures Uint32(file[pos + 4..pos + 8]) == |e.cell.value| % TWO_32
    ensures file[pos + 8] == if e.cell.deleted then 1 else 0
  {
    var r := Record(e);
    SliceOfSlice(file, pos, |r|, 0, 4);
    SliceOfSlice(file, pos, |r|, 4, 8);
    assert r[0..4] == PutUint32(|e.key|) && r[4..8] == PutUint32(|e.cell.value|);
    assert file[pos + 8] == file[pos..pos + |r|][8];
    Uint32Reads(|e.key|);
    Uint32Reads(|e.cell.value|);
  }

  lemma BodyAt(file: Str, pos: nat, e: Entry)
    requires IsRecordAt(file, pos, e)
    ensures var body := file[pos + 9..pos + 9 + (|e.key| + |e.cell.value|)];
            body[..|e.key|] == e.key && body[|e.key|..] == e.cell.value
  {
    var r, window := Record(e), file[pos..pos + |Record(e)|];
    var body := file[pos + 9..pos + 9 + (|e.key| + |e.cell.value|)];
    assert body == window[9..] == r[9..];
    assert r[9..] == e.key + e.cell.value;
  }

  lemma LengthsAdd(k: nat, v: nat)
    ensures var n := (k % TWO_32 + v % TWO_32) % TWO_32;
            n < TWO_32 && (k + v < TWO_32 ==> k % TWO_32 == k && n == k + v)
  {
  }

  /** A record reads back, and the scan stands after it, exactly when its two lengths fit. */
  lemma RecordReadsBack(file: Str, pos: nat, e: Entry)
    requires IsRecordAt(file, pos, e)
    ensures ReadRecord(file, pos) == Got(e, pos + |Record(e)|) <==> Fits(e)
  {
    HeaderAt(file, pos, e);
    LengthsAdd(|e.key|, |e.cell.value|);
    if Fits(e) {
      BodyAt(file, pos, e);
    }
  }

  // -------------------------------------------------------------------- files

  /** The bytes of the first n records. */
  function Encode(es: seq<Entry>, n: nat): Str
    requires n <= |es|
  {
    if n == 0 then [] else Encode(es, n - 1) + Record(es[n - 1])
  }

  /** Where record p of a file starts. */
  function Offset(es: seq<Entry>, p: nat): nat
    requires p <= |es|
  {
    |Encode(es, p)|
  }

  lemma {:induction false} EncodePrefix(es: seq<Entry>, p: nat, n: nat)
    requires p <= n <= |es|
    ensures Encode(es, p) <= Encode(es, n)
  {
    if p == n {
    } else {
      EncodePrefix(es, p, n - 1);
    }
  }

  /** How many index entries the first n records have. */
  function Indexed(n: nat): nat {
    (n + INTERVAL - 1) / INTERVAL
  }

  ghost predicate IndexOf(index: seq<IndexEntry>, es: seq<Entry>, n: nat)
    requires n <= |es|
  {
    && |index| == Indexed(n)
    && forall i :: 0 <= i < |index| ==>
         INTERVAL * i < n && index[i] == IndexEntry(es[INTERVAL * i].key, Offset(es, INTERVAL * i))
  }

  ghost predicate AllFit(es: seq<Entry>) {
    forall i :: 0 <= i < |es| ==> Fits(es[i])
  }

  /** `t` is the table of the run `es`, and `file` holds its bytes. */
  ghost predicate Holds(t: Table, file: Str, es: seq<Entry>) {
    && es != [] && Run(es)
    && file == Encode(es, |es|) && IndexOf(t.index, es, |es|)
    && t.minKey == es[0].key && t.maxKey == es[|es| - 1].key && t.count == |es|
  }

  /** The table of a run just written. */
  function TableOf(file: nat, index: seq<IndexEntry>, es: seq<Entry>): Table
    requires es != []
  {
    Table(file, index, es[0].key, es[|es| - 1].key, |es|)
  }

  lemma WrittenHolds(file: nat, index: seq<IndexEntry>, es: seq<Entry>)
    requires es != [] && Run(es) && IndexOf(index, es, |es|)
    ensures Holds(TableOf(file, index, es), Encode(es, |es|), es)
  {
  }

  lemma IndexGrows(index: seq<IndexEntry>, es: seq<Entry>, i: nat)
    requires i < |es| && IndexOf(index, es, i)
    ensures IndexOf(if i % INTERVAL == 0 then index + [IndexEntry(es[i].key, Offset(es, i))] else index, es, i + 1)
  {
    IndexedNext(i);
    var index' := if i % INTERVAL == 0 then index + [IndexEntry(es[i].key, Offset(es, i))] else index;
    forall k | 0 <= k < |index'|
      ensures INTERVAL * k < i + 1 && index'[k] == IndexEntry(es[INTERVAL * k].key, Offset(es, INTERVAL * k))
    {
      if k < |index| {
        assert index'[k] == index[k];
      }
    }
  }

  lemma IndexedNext(i: nat)
    ensures Indexed(i + 1) == if i % INTERVAL == 0 then Indexed(i) + 1 else Indexed(i)
    ensures i % INTERVAL == 0 ==> INTERVAL * Indexed(i) == i
  {
  }

  /** The bytes and the index of a run, in one pass. */
  method Write(es: seq<Entry>) returns (file: Str, index: seq<IndexEntry>)
    ensures file == Encode(es, |es|) && IndexOf(index, es, |es|)
    ensures |index| == (|es| + 15) / 16
    ensures forall i :: 0 <= i < |index| ==> 16 * i < |es| && index[i].key == es[16 * i].key
  {
    file, index := [], [];
    var offset := 0;
    for i := 0 to |es|
      invariant file == Encode(es, i) && offset == Offset(es, i)
      invariant IndexOf(index, es, i)
    {
      IndexGrows(index, es, i);
      if i % INTERVAL == 0 {
        index := index + [IndexEntry(es[i].key, offset)];
      }
      var e := es[i];
      file := file + Record(e);
      offset := offset + 9 + |e.key| + |e.cell.value|;
    }
  }

  // ------------------------------------------------------------------ lookups

  /** Binary search for the first index entry above `key`. */
  method SearchIndex(index: seq<IndexEntry>, key: Str) returns (i: nat)
    requires forall a, b :: 0 <= a < b < |index| ==> Less(index[a].key, index[b].key)
    ensures i <= |index|
    ensures forall a :: 0 <= a < i ==> !Less(key, index[a].key)
    ensures forall a :: i <= a < |index| ==> Less(key, index[a].key)
  {
    i := 0;
    var j := |index|;
    while i < j
      invariant 0 <= i <= j <= |index|
      invariant forall a :: 0 <= a < i ==> !Less(key, index[a].key)
      invariant forall a :: j <= a < |index| ==> Less(key, index[a].key)
    {
      var h := (i + j) / 2;
      if Less(key, index[h].key) {
        assert forall a :: h < a < |index| ==> Less(index[h].key, index[a].key);
        j := h;
      } else {
        assert forall a :: 0 <= a < h ==> Less(index[a].key, index[h].key);
        i := h + 1;
      }
    }
  }

  datatype Lookup = Answered(answer: Answer) | Failed | Panicked

  /** How the reading of a file goes: it cannot be opened, or reads past byte `at` fail. */
  datatype Access = NotOpened | Until(at: nat)

  const NOTHING := Answer([], false, false)

  /** The record of the key ends within the first `cut` bytes. */
  ghost predicate Reads(es: seq<Entry>, key: Str, cut: nat) {
    exists p :: 0 <= p < |es| && es[p].key == key && Offset(es, p + 1) <= cut
  }

  /** What a run shows when only its first `cut` bytes can be read. */
  ghost function Shown(es: seq<Entry>, m: map<Str, Cell>, cut: nat): map<Str, Cell> {
    map k | k in m && Reads(es, k, cut) :: m[k]
  }

  /** A file that can be read to its end shows all. */
  lemma AllShown(es: seq<Entry>, m: map<Str, Cell>, cut: nat)
    requires Lists(es, m) && Offset(es, |es|) <= cut
    ensures Shown(es, m, cut) == m
  {
    forall k | k in m ensures Reads(es, k, cut) {
      var p :| 0 <= p < |es| && es[p].key == k;
      EncodePrefix(es, p + 1, |es|);
    }
  }

  predicate Spans(t: Table, key: Str) {
    !Less(key, t.minKey) && !Less(t.maxKey, key)
  }

  function Cut(file: Str, at: nat): Str {
    if at < |file| then file[..at] else file
  }

  /** Scans from the indexed record before the key: at most one interval and one more. The
      answer is that of the part of the run that can be read. */
  method Get(t: Table, disk: map<nat, Str>, access: Access, key: Str, ghost es: seq<Entry>, ghost m: map<Str, Cell>)
      returns (r: Lookup)
    requires t.file in disk && Holds(t, disk[t.file], es) && Lists(es, m)
    ensures !Spans(t, key) ==> key !in m && r == Answered(NOTHING)
    ensures Spans(t, key) && access.NotOpened? ==> r == Failed
    ensures access.Until? && AllFit(es) ==> r == Answered(Consult(Shown(es, m, access.at), key))
  {
    if Less(key, t.minKey) || Less(t.maxKey, key) {
      OutOfRange(es, m, key);
      return Answered(NOTHING);
    }
    IndexAscends(t.index, es);
    assert t.index[0] == IndexEntry(es[INTERVAL * 0].key, Offset(es, INTERVAL * 0));
    var i := SearchIndex(t.index, key);
    var start := if i > 0 then t.index[i - 1].offset else 0;
    match access {
      case NotOpened =>
        r := Failed;
      case Until(at) =>
        r := Scan(t, disk[t.file], at, start, key, es, m, i);
    }
  }

  method Scan(t: Table, file: Str, at: nat, start: nat, key: Str, ghost es: seq<Entry>, ghost m: map<Str, Cell>,
      ghost i: nat) returns (r: Lookup)
    requires Holds(t, file, es) && Lists(es, m)
    requires 0 < i <= |t.index| && start == t.index[i - 1].offset && !Less(key, t.index[i - 1].key)
    requires i < |t.index| ==> Less(key, t.index[i].key)
    ensures AllFit(es) ==> r == Answered(Consult(Shown(es, m, at), key))
  {
    ScanStarts(t.index, es, i, key);
    AboveNext(t.index, es, i, key);
    r := ScanFrom(Cut(file, at), at, start, key, es, m, INTERVAL * (i - 1));
  }

  /** The loop of the scan: the record one interval on is past the key. */
  method ScanFrom(file: Str, ghost at: nat, start: nat, key: Str, ghost es: seq<Entry>, ghost m: map<Str, Cell>,
      ghost first: nat) returns (r: Lookup)
    requires file == Cut(Encode(es, |es|), at) && Run(es) && Lists(es, m) && At(es, key, first, start)
    requires first + INTERVAL < |es| ==> Less(key, es[first + INTERVAL].key)
    ensures AllFit(es) ==> r == Answered(Consult(Shown(es, m, at), key))
  {
    var pos := start;
    var scanned := 0;
    while scanned <= INTERVAL
      invariant AllFit(es) ==> scanned <= INTERVAL && At(es, key, first + scanned, pos)
      decreases INTERVAL + 1 - scanned
    {
      var done;
      done, r, pos := Examine(file, at, pos, key, es, m, first + scanned);
      if done {
        return;
      }
      if AllFit(es) {
        BeforeNext(es, first + scanned, first + INTERVAL, key);
      }
      scanned := scanned + 1;
    }
    r := Answered(NOTHING);
  }

  /** A scan that stands before record p, with all earlier keys below its own. */
  ghost predicate At(es: seq<Entry>, key: Str, p: nat, pos: nat) {
    p <= |es| && pos == Offset(es, p) && (p > 0 ==> Less(es[p - 1].key, key))
  }

  lemma ScanStarts(index: seq<IndexEntry>, es: seq<Entry>, i: nat, key: Str)
    requires Run(es) && IndexOf(index, es, |es|) && 0 < i <= |index| && !Less(key, index[i - 1].key)
    ensures At(es, key, INTERVAL * (i - 1), index[i - 1].offset)
  {
    var p := INTERVAL * (i - 1);
    assert index[i - 1] == IndexEntry(es[p].key, Offset(es, p));
    assert p > 0 ==> Less(es[p - 1].key, es[p].key);
  }

  /** A record still below the key is not one that is past it. */
  lemma BeforeNext(es: seq<Entry>, p: nat, next: nat, key: Str)
    requires p < |es| && Less(es[p].key, key) && p <= next && (next < |es| ==> Less(key, es[next].key))
    ensures p < next
  {
  }

  /** One record of the scan: the answer, or where the next record starts. */
  method Examine(file: Str, ghost at: nat, pos: nat, key: Str, ghost es: seq<Entry>, ghost m: map<Str, Cell>,
      ghost p: nat) returns (done: bool, r: Lookup, next: nat)
    requires file == Cut(Encode(es, |es|), at) && Run(es) && Lists(es, m)
    requires AllFit(es) ==> At(es, key, p, pos)
    ensures done && AllFit(es) ==> r == Answered(Consult(Shown(es, m, at), key))
    ensures !done && AllFit(es) ==> p < |es| && At(es, key, p + 1, next)
  {
    done, next := true, pos;
    if AllFit(es) {
      if p < |es| {
        ReadAt(file, Encode(es, |es|), es, p, at);
      } else {
        ReadPastEnd(Encode(es, |es|), at, pos);
      }
      Told(es, m, key, p, at);
    }
    match ReadRecord(file, pos) {
      case EndOfFile =>
        r := Answered(NOTHING);
      case SliceOutOfRange =>
        r := Panicked;
      case Got(e, after) =>
        if e.key == key {
          r := Answered(if e.cell.deleted then Answer([], false, true) else Answer(e.cell.value, true, false));
        } else if Less(key, e.key) {
          r := Answered(NOTHING);
        } else {
          done, r, next := false, Failed, after;
        }
    }
  }

  /** At record p, all earlier keys being below its own, a scan can tell what the run shows of the key:
      nothing, if the record cannot be read or is past the key; the record, if it is the key's. */
  lemma Told(es: seq<Entry>, m: map<Str, Cell>, key: Str, p: nat, at: nat)
    requires Run(es) && Lists(es, m) && p <= |es| && (p > 0 ==> Less(es[p - 1].key, key))
    ensures p == |es| || Offset(es, p + 1) > at || Less(key, es[p].key) ==> key !in Shown(es, m, at)
    ensures p < |es| && Offset(es, p + 1) <= at && es[p].key == key ==>
      key in Shown(es, m, at) && Shown(es, m, at)[key] == es[p].cell
  {
    if p < |es| && Less(key, es[p].key) {
      NotThere(es, m, key, p);
    } else if p == |es| || Offset(es, p + 1) > at {
      NotReached(es, key, p, at);
    } else if es[p].key == key {
      assert Reads(es, key, at);
    }
  }

  lemma NotReached(es: seq<Entry>, key: Str, p: nat, at: nat)
    requires Run(es) && p <= |es| && (p > 0 ==> Less(es[p - 1].key, key))
    requires p < |es| ==> Offset(es, p + 1) > at
    ensures !Reads(es, key, at)
  {
    forall q | 0 <= q < |es| && es[q].key == key ensures Offset(es, q + 1) > at {
      NotBefore(es, key, p, q);
      LaterEnds(es, p, q);
    }
  }

  lemma LaterEnds(es: seq<Entry>, p: nat, q: nat)
    requires p <= q < |es|
    ensures Offset(es, p + 1) <= Offset(es, q + 1)
  {
    EncodePrefix(es, p + 1, q + 1);
  }

  lemma NotBefore(es: seq<Entry>, key: Str, p: nat, q: nat)
    requires Run(es) && p <= |es| && (p > 0 ==> Less(es[p - 1].key, key)) && q < |es| && es[q].key == key
    ensures p <= q
  {
    assert q < p - 1 ==> Less(es[q].key, es[p - 1].key);
  }

  /** At record p the scan reads record p if it can be read to its end, and otherwise finds the
      end of the file. */
  lemma ReadAt(file: Str, all: Str, es: seq<Entry>, p: nat, at: nat)
    requires all == Encode(es, |es|) && file == Cut(all, at) && p < |es| && Fits(es[p])
    ensures ReadRecord(file, Offset(es, p)) ==
      if Offset(es, p + 1) <= at then Got(es[p], Offset(es, p + 1)) else EndOfFile
  {
    var rest := RestOfFile(es, p, |es|);
    var before, next := Encode(es, p), Offset(es, p + 1);
    NextOffset(es, p);
    ReadPiece(file, all, before, es[p], rest, next, at);
  }

  lemma NextOffset(es: seq<Entry>, p: nat)
    requires p < |es|
    ensures Offset(es, p + 1) == |Encode(es, p) + Record(es[p])|
  {
  }

  lemma ReadPiece(file: Str, all: Str, before: Str, e: Entry, after: Str, next: nat, at: nat)
    requires Fits(e) && all == before + Record(e) + after && file == Cut(all, at) && next == |before + Record(e)|
    ensures ReadRecord(file, |before|) == if next <= at then Got(e, next) else EndOfFile
  {
    ReadBetween(before, e, after, at);
  }

  /** The bytes after record p. */
  lemma {:induction false} RestOfFile(es: seq<Entry>, p: nat, n: nat) returns (rest: Str)
    requires p < n <= |es|
    ensures Encode(es, n) == Encode(es, p) + Record(es[p]) + rest
  {
    if n == p + 1 {
      rest := [];
      NothingAdded(Encode(es, n));
    } else {
      var before := RestOfFile(es, p, n - 1);
      rest := before + Record(es[n - 1]);
      Assoc(Encode(es, p) + Record(es[p]), before, Record(es[n - 1]));
    }
  }

  lemma ReadBetween(before: Str, e: Entry, after: Str, at: nat)
    requires Fits(e)
    ensures ReadRecord(Cut(before + Record(e) + after, at), |before|) ==
      if |before + Record(e)| <= at then Got(e, |before + Record(e)|) else EndOfFile
  {
    var file := before + Record(e) + after;
    assert file[|before|..|before| + |Record(e)|] == Record(e);
    ReadOne(file, at, |before|, e);
  }

  lemma ReadPastEnd(file: Str, at: nat, pos: nat)
    requires pos >= |file|
    ensures ReadRecord(Cut(file, at), pos) == EndOfFile
  {
  }

  lemma ReadOne(file: Str, at: nat, pos: nat, e: Entry)
    requires IsRecordAt(file, pos, e) && Fits(e)
    ensures ReadRecord(Cut(file, at), pos) ==
      if pos + |Record(e)| <= at then Got(e, pos + |Record(e)|) else EndOfFile
  {
    if pos + |Record(e)| <= at {
      RecordInCut(file, at, pos, e);
      RecordReadsBack(Cut(file, at), pos, e);
    } else {
      CutRecordEnds(file, at, pos, e);
    }
  }

  lemma RecordInCut(file: Str, at: nat, pos: nat, e: Entry)
    requires IsRecordAt(file, pos, e) && pos + |Record(e)| <= at
    ensures IsRecordAt(Cut(file, at), pos, e)
  {
    if at < |file| {
      assert file[..at][pos..pos + |Record(e)|] == file[pos..pos + |Record(e)|];
    }
  }

  /** A record that cannot be read to its end is taken for the end of the file. */
  lemma CutRecordEnds(file: Str, at: nat, pos: nat, e: Entry)
    requires IsRecordAt(file, pos, e) && Fits(e) && at < pos + |Record(e)|
    ensures ReadRecord(Cut(file, at), pos) == EndOfFile
  {
    var part := Cut(file, at);
    assert part == file[..at];
    if pos + 9 <= at {
      assert part[pos..pos + 4] == file[pos..pos + 4] && part[pos + 4..pos + 8] == file[pos + 4..pos + 8];
      HeaderAt(file, pos, e);
      LengthsAdd(|e.key|, |e.cell.value|);
    }
  }

  /** The record the next index entry names is already past the key. */
  lemma AboveNext(index: seq<IndexEntry>, es: seq<Entry>, i: nat, key: Str)
    requires IndexOf(index, es, |es|) && (i < |index| ==> Less(key, index[i].key))
    ensures INTERVAL * i < |es| ==> Less(key, es[INTERVAL * i].key)
  {
    assert i < |index| ==> index[i].key == es[INTERVAL * i].key;
  }

  lemma NotThere(es: seq<Entry>, m: map<Str, Cell>, key: Str, p: nat)
    requires Run(es) && Lists(es, m) && p <= |es|
    requires p > 0 ==> Less(es[p - 1].key, key)
    requires p < |es| ==> Less(key, es[p].key)
    ensures key !in m
  {
    assert forall i :: 0 <= i < p - 1 ==> Less(es[i].key, es[p - 1].key);
    assert forall i :: p < i < |es| ==> Less(es[p].key, es[i].key);
  }

  lemma OutOfRange(es: seq<Entry>, m: map<Str, Cell>, key: Str)
    requires es != [] && Run(es) && Lists(es, m)
    requires Less(key, es[0].key) || Less(es[|es| - 1].key, key)
    ensures key !in m
  {
    NotThere(es, m, key, if Less(key, es[0].key) then 0 else |es|);
  }

  lemma IndexAscends(index: seq<IndexEntry>, es: seq<Entry>)
    requires Run(es) && IndexOf(index, es, |es|)
    ensures forall a, b :: 0 <= a < b < |index| ==> Less(index[a].key, index[b].key)
  {
    forall a, b | 0 <= a < b < |index| ensures Less(index[a].key, index[b].key) {
      assert INTERVAL * a < INTERVAL * b < |es|;
    }
  }
}
