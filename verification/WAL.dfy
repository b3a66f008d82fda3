/** The write-ahead log: what survives a crash, and what recovery makes of it.

    The checksum is any function from bytes to 32 bits. A crash leaves some
    prefix of the bytes written. */
module WAL {
  import opened ByteStrings
  import opened IntWidths
  import opened LittleEndian
  import opened Sequences

  const HEADER_SIZE := 21
  const MAX_LENGTH := 0x100_0000

  const OP_PUT: byte := 1
  const OP_DELETE: byte := 2

  datatype Record = Record(number: nat, op: byte, key: Str, value: Str)

  type Checksum = Str -> nat

  // ------------------------------------------------------------------ one record

  /** The header but its checksum: number, operation, the two lengths. */
  function Numbers(r: Record): (b: Str)
    ensures |b| == 17
  {
    PutUint64(r.number) + [r.op] + PutUint32(|r.key|) + PutUint32(|r.value|)
  }

  /** All that the checksum covers. */
  function Covered(r: Record): Str {
    Numbers(r) + (r.key + r.value)
  }

  function Header(crc: Checksum, r: Record): (b: Str)
    ensures |b| == HEADER_SIZE
  {
    PutUint32(crc(Covered(r)) % TWO_32) + Numbers(r)
  }

  function Encode(crc: Checksum, r: Record): (b: Str)
    ensures |b| == HEADER_SIZE + (|r.key| + |r.value|)
  {
    Header(crc, r) + (r.key + r.value)
  }

  /** What the reader accepts: lengths of at most 2^24, a number of 64 bits. */
  predicate Readable(r: Record) {
    |r.key| <= MAX_LENGTH && |r.value| <= MAX_LENGTH && r.number < TWO_64
  }

  datatype Read = Got(record: Record, size: nat) | Stop

  /** The record at the start of `rest`, if all of it is there and its checksum is right. */
  function ReadRecord(crc: Checksum, rest: Str): (r: Read)
    ensures r.Got? ==> HEADER_SIZE <= r.size <= |rest| && Readable(r.record)
  {
    if |rest| < HEADER_SIZE then Stop
    else
      var header := rest[..HEADER_SIZE];
      var keyLen, valLen := Uint32(header[13..17]), Uint32(header[17..21]);
      if keyLen > MAX_LENGTH || valLen > MAX_LENGTH then Stop
      else
        var size := HEADER_SIZE + (keyLen + valLen);
        if |rest| < size then Stop
        else
          var body := rest[HEADER_SIZE..size];
          if crc(header[4..] + body) % TWO_32 != Uint32(header[..4]) then Stop
          else Got(Record(Uint64(header[4..12]), header[12], body[..keyLen], body[keyLen..]), size)
  }

  /** Where the parts of a header stand. */
  lemma HeaderParts(crc: Checksum, r: Record)
    ensures var h := Header(crc, r);
            h[..4] == PutUint32(crc(Covered(r)) % TWO_32) && h[4..] == Numbers(r) && h[4..12] == PutUint64(r.number)
    ensures Header(crc, r)[12] == r.op
  {
  }

  lemma HeaderLengths(crc: Checksum, r: Record)
    ensures var h := Header(crc, r); h[13..17] == PutUint32(|r.key|) && h[17..21] == PutUint32(|r.value|)
  {
    var n := PutUint64(r.number) + [r.op];
    assert Header(crc, r) == (PutUint32(crc(Covered(r)) % TWO_32) + n) + PutUint32(|r.key|) + PutUint32(|r.value|);
  }

  /** The lengths a reader finds: what fits in 32 bits of them. */
  lemma LengthsRead(crc: Checksum, r: Record)
    ensures var h := Header(crc, r);
            Uint32(h[13..17]) == |r.key| % TWO_32 && Uint32(h[17..21]) == |r.value| % TWO_32
  {
    HeaderLengths(crc, r);
    Uint32Reads(|r.key|);
    Uint32Reads(|r.value|);
  }

  lemma ChecksumReads(crc: Checksum, r: Record)
    ensures Uint32(Header(crc, r)[..4]) == crc(Covered(r)) % TWO_32
  {
    HeaderParts(crc, r);
    StoredSum(crc(Covered(r)) % TWO_32);
  }

  lemma StoredSum(sum: nat)
    requires sum < TWO_32
    ensures Uint32(PutUint32(sum)) == sum
  {
    Uint32Reads(sum);
  }

  lemma NumberReads(crc: Checksum, r: Record)
    requires r.number < TWO_64
    ensures Uint64(Header(crc, r)[4..12]) == r.number
  {
    HeaderParts(crc, r);
    Uint64Reads(r.number);
  }

  lemma Small(n: nat)
    requires n <= MAX_LENGTH
    ensures n % TWO_32 == n
  {
  }

  lemma Pieces(h: Str, key: Str, value: Str, tail: Str)
    ensures var s, n := h + (key + value) + tail, |h| + (|key| + |value|);
            && s[..|h|] == h && s[|h|..n] == key + value && s[n..] == tail
            && (key + value)[..|key|] == key && (key + value)[|key|..] == value
  {
  }

  /** A whole record is read back, whatever follows it. */
  lemma WholeRecordReads(crc: Checksum, r: Record, tail: Str)
    requires Readable(r)
    ensures ReadRecord(crc, Encode(crc, r) + tail) == Got(r, |Encode(crc, r)|)
  {
    Pieces(Header(crc, r), r.key, r.value, tail);
    LengthsRead(crc, r);
    ChecksumReads(crc, r);
    NumberReads(crc, r);
    HeaderParts(crc, r);
    Small(|r.key|);
    Small(|r.value|);
  }

  /** A record cut short is not read, whatever the checksum. */
  lemma TornRecordStops(crc: Checksum, r: Record, n: nat)
    requires Readable(r) && n < |Encode(crc, r)|
    ensures ReadRecord(crc, Encode(crc, r)[..n]) == Stop
  {
    if n >= HEADER_SIZE {
      assert Encode(crc, r)[..n][..HEADER_SIZE] == Header(crc, r);
      LengthsRead(crc, r);
      Small(|r.key|);
      Small(|r.value|);
    }
  }

  /** A record is read from its own bytes alone. */
  lemma ReadRecordLocal(crc: Checksum, b: Str, more: Str)
    requires ReadRecord(crc, b).Got?
    ensures ReadRecord(crc, b + more) == ReadRecord(crc, b)
  {
    var n := ReadRecord(crc, b).size;
    assert (b + more)[..HEADER_SIZE] == b[..HEADER_SIZE] && (b + more)[HEADER_SIZE..n] == b[HEADER_SIZE..n];
  }

  // -------------------------------------------------------------------- the log

  function Log(crc: Checksum, rs: seq<Record>): Str {
    if rs == [] then [] else Encode(crc, rs[0]) + Log(crc, rs[1..])
  }

  /** All records from the start of `rest` up to the first that cannot be read. */
  function ReadFrom(crc: Checksum, rest: Str): seq<Record>
    decreases |rest|
  {
    match ReadRecord(crc, rest)
    case Stop => []
    case Got(r, n) => [r] + ReadFrom(crc, rest[n..])
  }

  method ReadAll(crc: Checksum, file: Str) returns (out: seq<Record>)
    ensures out == ReadFrom(crc, file)
  {
    out := [];
    var rest := file;
    while true
      invariant out + ReadFrom(crc, rest) == ReadFrom(crc, file)
      decreases |rest|
    {
      match ReadRecord(crc, rest) {
        case Stop =>
          assert out + [] == out;
          return;
        case Got(r, n) =>
          OneMore(out, r, ReadFrom(crc, rest[n..]));
          out, rest := out + [r], rest[n..];
      }
    }
  }

  lemma OneMore(out: seq<Record>, r: Record, more: seq<Record>)
    ensures out + ([r] + more) == (out + [r]) + more
  {
  }

  ghost predicate AllReadable(rs: seq<Record>) {
    forall i :: 0 <= i < |rs| ==> Readable(rs[i])
  }

  /** How many records lie wholly before the cut. */
  function Whole(crc: Checksum, rs: seq<Record>, cut: nat): (m: nat)
    ensures m <= |rs|
  {
    if rs == [] || cut < |Encode(crc, rs[0])| then 0 else 1 + Whole(crc, rs[1..], cut - |Encode(crc, rs[0])|)
  }

  /** The bytes of the records before the cut end at or before it, and one more record would not. */
  lemma {:induction false} WholeIsCut(crc: Checksum, rs: seq<Record>, cut: nat, m: nat)
    requires m <= |rs|
    ensures m <= Whole(crc, rs, cut) <==> |Log(crc, rs[..m])| <= cut
  {
    if m == 0 {
    } else {
      assert rs[..m][1..] == rs[1..][..m - 1];
      if cut >= |Encode(crc, rs[0])| {
        WholeIsCut(crc, rs[1..], cut - |Encode(crc, rs[0])|, m - 1);
      }
    }
  }

  lemma CutAfter(a: Str, b: Str, cut: nat)
    requires |a| <= cut <= |a + b|
    ensures (a + b)[..cut] == a + b[..cut - |a|]
  {
  }

  lemma CutWithin(a: Str, b: Str, cut: nat)
    requires cut <= |a|
    ensures (a + b)[..cut] == a[..cut]
  {
  }

  /** A first record that can be read is read first. */
  lemma ReadsFirst(crc: Checksum, r: Record, tail: Str)
    requires Readable(r)
    ensures ReadFrom(crc, Encode(crc, r) + tail) == [r] + ReadFrom(crc, tail)
  {
    WholeRecordReads(crc, r, tail);
    assert (Encode(crc, r) + tail)[|Encode(crc, r)|..] == tail;
  }

  /** Cut anywhere, the log gives back exactly the records wholly before the cut. */
  lemma {:induction false} CutLogReadsWholeRecords(crc: Checksum, rs: seq<Record>, cut: nat)
    requires AllReadable(rs) && cut <= |Log(crc, rs)|
    ensures ReadFrom(crc, Log(crc, rs)[..cut]) == rs[..Whole(crc, rs, cut)]
  {
    if rs == [] {
      assert Log(crc, rs)[..cut] == [];
    } else {
      var e, more := Encode(crc, rs[0]), Log(crc, rs[1..]);
      if cut < |e| {
        CutWithin(e, more, cut);
        TornRecordStops(crc, rs[0], cut);
      } else {
        CutAfter(e, more, cut);
        ReadsFirst(crc, rs[0], more[..cut - |e|]);
        CutLogReadsWholeRecords(crc, rs[1..], cut - |e|);
        FirstAndRest(rs, Whole(crc, rs, cut));
      }
    }
  }

  lemma FirstAndRest(rs: seq<Record>, m: nat)
    requires 0 < m <= |rs|
    ensures rs[..m] == [rs[0]] + rs[1..][..m - 1]
  {
  }

  /** What is written after readable records is read after them. */
  lemma {:induction false} ReadsOn(crc: Checksum, rs: seq<Record>, tail: Str)
    requires AllReadable(rs)
    ensures ReadFrom(crc, Log(crc, rs) + tail) == rs + ReadFrom(crc, tail)
  {
    if rs == [] {
      assert Log(crc, rs) + tail == tail;
    } else {
      var e, more := Encode(crc, rs[0]), Log(crc, rs[1..]);
      Assoc(e, more, tail);
      ReadsFirst(crc, rs[0], more + tail);
      ReadsOn(crc, rs[1..], tail);
      Consed(rs, ReadFrom(crc, tail));
    }
  }

  lemma Consed(rs: seq<Record>, more: seq<Record>)
    requires rs != []
    ensures [rs[0]] + (rs[1..] + more) == rs + more
  {
  }

  /** Only readable records are ever read. */
  lemma {:induction false} ReadAreReadable(crc: Checksum, rest: Str)
    ensures AllReadable(ReadFrom(crc, rest))
    decreases |rest|
  {
    match ReadRecord(crc, rest)
    case Stop =>
    case Got(_, n) => ReadAreReadable(crc, rest[n..]);
  }

  /** A log is read back in full exactly when no length in it exceeds 2^24. */
  lemma IntactLogReadsBack(crc: Checksum, rs: seq<Record>)
    ensures ReadFrom(crc, Log(crc, rs)) == rs <==> AllReadable(rs)
    ensures AllReadable(rs) <==> forall i :: 0 <= i < |rs| ==>
      |rs[i].key| <= 0x100_0000 && |rs[i].value| <= 0x100_0000 && rs[i].number < 0x1_0000_0000_0000_0000
  {
    ReadAreReadable(crc, Log(crc, rs));
    if AllReadable(rs) {
      ReadsOn(crc, rs, []);
      assert Log(crc, rs) + [] == Log(crc, rs);
      assert rs + ReadFrom(crc, []) == rs;
    }
  }

  /** The bytes of a record: the checksum of all that follows it, the number, the operation, the two
      lengths, low bytes first, and then the key and the value. */
  lemma RecordBytes(crc: Checksum, r: Record)
    ensures var e := Encode(crc, r);
            && |e| == 21 + |r.key| + |r.value| && e[12] == r.op && e[21..] == r.key + r.value
            && (forall i :: 0 <= i < 4 ==> e[i] == Byte(crc(e[4..]), i))
            && (forall i :: 0 <= i < 8 ==> e[4 + i] == Byte(r.number, i))
            && (forall i :: 0 <= i < 4 ==> e[13 + i] == Byte(|r.key|, i) && e[17 + i] == Byte(|r.value|, i))
  {
    var h, e := Header(crc, r), Encode(crc, r);
    HeaderParts(crc, r);
    HeaderLengths(crc, r);
    CutApart(h, r.key + r.value);
    assert e[4..] == Covered(r) by { TailOfRecord(crc, r); }
    Bytes32(crc(Covered(r)) % TWO_32);
    LowBytes(crc(Covered(r)));
    Bytes64(r.number);
    Bytes32(|r.key|);
    Bytes32(|r.value|);
    assert forall i :: 0 <= i < 21 ==> e[i] == h[i];
    assert forall i :: 0 <= i < 8 ==> h[4 + i] == h[4..12][i];
    assert forall i :: 0 <= i < 4 ==> h[i] == h[..4][i] && h[13 + i] == h[13..17][i] && h[17 + i] == h[17..21][i];
  }

  lemma TailOfRecord(crc: Checksum, r: Record)
    ensures Encode(crc, r)[4..] == Covered(r)
  {
    HeaderParts(crc, r);
    Assoc(PutUint32(crc(Covered(r)) % TWO_32), Numbers(r), r.key + r.value);
    CutApart(PutUint32(crc(Covered(r)) % TWO_32), Covered(r));
  }

  /** Whatever is appended, what could be read before still can. */
  lemma {:induction false} AppendingLosesNothing(crc: Checksum, file: Str, more: Str)
    ensures ReadFrom(crc, file) <= ReadFrom(crc, file + more)
    decreases |file|
  {
    match ReadRecord(crc, file)
    case Stop =>
    case Got(_, n) =>
      ReadRecordLocal(crc, file, more);
      AppendingLosesNothing(crc, file[n..], more);
      RestOfMore(file, more, n);
  }

  lemma RestOfMore(file: Str, more: Str, n: nat)
    requires n <= |file|
    ensures (file + more)[n..] == file[n..] + more
  {
  }

  /** Nothing stands after the last record that can be read. */
  ghost predicate NoTail(crc: Checksum, file: Str) {
    file == Log(crc, ReadFrom(crc, file))
  }

  /** Records appended to a file without a torn tail are read after those it had. */
  lemma AppendedAreRead(crc: Checksum, file: Str, rs: seq<Record>)
    requires NoTail(crc, file) && AllReadable(rs)
    ensures ReadFrom(crc, file + Log(crc, rs)) == ReadFrom(crc, file) + rs
  {
    ReadAreReadable(crc, file);
    ReadsOn(crc, ReadFrom(crc, file), Log(crc, rs));
    IntactLogReadsBack(crc, rs);
  }

  /** The bytes a record is read from are its own encoding. */
  lemma ReadIsEncoded(crc: Checksum, rest: Str)
    requires ReadRecord(crc, rest).Got?
    ensures rest[..ReadRecord(crc, rest).size] == Encode(crc, ReadRecord(crc, rest).record)
  {
    var Got(r, size) := ReadRecord(crc, rest);
    var header, body := rest[..HEADER_SIZE], rest[HEADER_SIZE..size];
    Uint64Writes(header[4..12]);
    Uint32Writes(header[13..17]);
    Uint32Writes(header[17..21]);
    Uint32Writes(header[..4]);
    HeaderInParts(header);
    assert body == r.key + r.value;
    assert rest[..size] == header + body;
  }

  lemma HeaderInParts(h: Str)
    requires |h| == HEADER_SIZE
    ensures h[4..] == h[4..12] + [h[12]] + h[13..17] + h[17..21] && h == h[..4] + h[4..]
  {
  }

  /** A file is the log of the records it gives back, and a tail that gives none. */
  lemma {:induction false} LogAndTail(crc: Checksum, file: Str) returns (tail: Str)
    ensures file == Log(crc, ReadFrom(crc, file)) + tail && ReadRecord(crc, tail) == Stop
    decreases |file|
  {
    match ReadRecord(crc, file)
    case Stop =>
      tail := file;
    case Got(r, n) =>
      tail := LogAndTail(crc, file[n..]);
      ReadIsEncoded(crc, file);
      CutParts(file, n);
      Assoc(Encode(crc, r), Log(crc, ReadFrom(crc, file[n..])), tail);
  }

  lemma CutParts(file: Str, n: nat)
    requires n <= |file|
    ensures file == file[..n] + file[n..]
  {
  }

  /** Behind a tail some record is not read as it was written, whatever its number must be. */
  lemma TailHides(crc: Checksum, tail: Str, n: nat) returns (key: Str)
    requires tail != [] && ReadRecord(crc, tail) == Stop && n < TWO_64
    ensures |key| <= MAX_LENGTH && |key| <= |tail| + 1
    ensures ReadFrom(crc, tail + Encode(crc, Put(n, key, []))) != [Put(n, key, [])]
  {
    if |tail| < MAX_LENGTH {
      key := ZerosAndOne(|tail|);
      NotShifted(Header(crc, Put(n, key, [])), tail);
    } else {
      key := [];
      TailIsNoRecord(crc, tail, Put(n, key, []));
    }
    ReadAsWritten(crc, tail, Put(n, key, []));
  }

  function Put(n: nat, key: Str, value: Str): Record {
    Record(n, OP_PUT, key, value)
  }

  lemma ReadAsWritten(crc: Checksum, tail: Str, r: Record)
    ensures var e := Encode(crc, r); ReadFrom(crc, tail + e) == [r] ==> (tail + e)[..|e|] == e
  {
    var rest := tail + Encode(crc, r);
    if ReadRecord(crc, rest).Got? {
      ReadIsEncoded(crc, rest);
      assert ReadFrom(crc, rest)[0] == ReadRecord(crc, rest).record;
    }
  }

  function ZerosAndOne(n: nat): (b: Str)
    ensures |b| == n + 1 && b[n] == 1 && forall i :: 0 <= i < n ==> b[i] == 0
  {
    seq(n, _ => 0) + [1]
  }

  lemma NotShifted(header: Str, tail: Str)
    requires tail != []
    ensures var e := header + (ZerosAndOne(|tail|) + []); (tail + e)[..|e|] != e
  {
    var e := header + (ZerosAndOne(|tail|) + []);
    assert e[|header| + |tail|] == 1 && (tail + e)[|header| + |tail|] == e[|header|] == 0;
  }

  lemma TailIsNoRecord(crc: Checksum, tail: Str, r: Record)
    requires ReadRecord(crc, tail) == Stop && Readable(r) && |Encode(crc, r)| <= |tail|
    ensures var e := Encode(crc, r); (tail + e)[..|e|] != e
  {
    var e := Encode(crc, r);
    if (tail + e)[..|e|] == e {
      CutParts(tail, |e|);
      assert (tail + e)[..|e|] == tail[..|e|];
      WholeRecordReads(crc, r, tail[|e|..]);
    }
  }

  /** The number that an append to a file gives its record. */
  function NextNumber(crc: Checksum, file: Str): nat {
    Replayed(ReadFrom(crc, file)).number + 1
  }

  /** Whatever the record, it is read after what the file had. */
  ghost predicate ReadsNext(crc: Checksum, file: Str) {
    forall key, value :: |key| <= MAX_LENGTH && |value| <= MAX_LENGTH ==>
      ReadsAfter(crc, file, Put(NextNumber(crc, file), key, value))
  }

  ghost predicate ReadsAfter(crc: Checksum, file: Str, r: Record) {
    ReadFrom(crc, file + Encode(crc, r)) == ReadFrom(crc, file) + [r]
  }

  /** The next record is read, whatever its key and value, exactly when the file has no torn tail. */
  lemma AppendsReadExactly(crc: Checksum, file: Str)
    requires NextNumber(crc, file) < TWO_64
    ensures NoTail(crc, file) <==> ReadsNext(crc, file)
  {
    if NoTail(crc, file) {
      forall key, value | |key| <= MAX_LENGTH && |value| <= MAX_LENGTH
        ensures ReadsAfter(crc, file, Put(NextNumber(crc, file), key, value))
      {
        var r := Put(NextNumber(crc, file), key, value);
        LogOfOne(crc, r);
        assert AllReadable([r]);
        AppendedAreRead(crc, file, [r]);
      }
    } else {
      var tail := LogAndTail(crc, file);
      NothingAdded(Log(crc, ReadFrom(crc, file)));
      var key := TailHides(crc, tail, NextNumber(crc, file));
      HiddenInFile(crc, file, tail, Put(NextNumber(crc, file), key, []));
    }
  }

  lemma HiddenInFile(crc: Checksum, file: Str, tail: Str, r: Record)
    requires file == Log(crc, ReadFrom(crc, file)) + tail
    ensures ReadsAfter(crc, file, r) ==> ReadFrom(crc, tail + Encode(crc, r)) == [r]
  {
    var had := ReadFrom(crc, file);
    ReadAreReadable(crc, file);
    Assoc(Log(crc, had), tail, Encode(crc, r));
    ReadsOn(crc, had, tail + Encode(crc, r));
    CutApart(had, [r]);
    CutApart(had, ReadFrom(crc, tail + Encode(crc, r)));
  }

  lemma LogOfOne(crc: Checksum, r: Record)
    ensures Log(crc, [r]) == Encode(crc, r)
  {
    assert [r][1..] == [];
    NothingAdded(Encode(crc, r));
  }

  /** With any checksum, after one stray byte the first record put is not read as written. */
  lemma TornTailHides(crc: Checksum)
    ensures NextNumber(crc, [0]) == 1 && !ReadsAfter(crc, [0], Put(1, [0, 1], []))
  {
    var r := Put(1, [0, 1], []);
    assert ReadFrom(crc, [0]) == [] && ZerosAndOne(1) == [0, 1];
    NotShifted(Header(crc, r), [0]);
    ReadAsWritten(crc, [0], r);
  }

  // ----------------------------------------------------------------- recovery

  datatype Recovered = Recovered(state: map<Str, Str>, number: nat)

  function Apply(state: map<Str, Str>, r: Record): map<Str, Str> {
    if r.op == OP_PUT then state[r.key := r.value]
    else if r.op == OP_DELETE then state - {r.key}
    else state
  }

  /** The state and the last number that a sequence of records stands for. */
  function Replayed(rs: seq<Record>): Recovered {
    if rs == [] then Recovered(map[], 0)
    else Recovered(Apply(Replayed(rs[..|rs| - 1]).state, rs[|rs| - 1]), rs[|rs| - 1].number)
  }

  /** Record i puts the value under the key, and no later one puts or deletes the key. */
  ghost predicate IsLastPut(rs: seq<Record>, i: nat, key: Str, value: Str) {
    && i < |rs| && rs[i].op == 1 && rs[i].key == key && rs[i].value == value
    && forall j :: i < j < |rs| && rs[j].key == key ==> rs[j].op != 1 && rs[j].op != 2
  }

  ghost predicate WasPutLast(rs: seq<Record>, key: Str, value: Str) {
    exists i: nat :: IsLastPut(rs, i, key, value)
  }

  /** The state holds a key exactly when the last word on it is a put, and then the value put. */
  ghost predicate Recalls(rs: seq<Record>, state: map<Str, Str>) {
    forall key, value :: key in state && state[key] == value <==> WasPutLast(rs, key, value)
  }

  lemma ReplayedRecalls(rs: seq<Record>)
    ensures Recalls(rs, Replayed(rs).state) && Replayed(rs).number == if rs == [] then 0 else rs[|rs| - 1].number
  {
    forall key, value
      ensures key in Replayed(rs).state && Replayed(rs).state[key] == value <==> WasPutLast(rs, key, value)
    {
      RecallsKey(rs, key, value);
    }
  }

  lemma {:induction false} RecallsKey(rs: seq<Record>, key: Str, value: Str)
    ensures var state := Replayed(rs).state; key in state && state[key] == value <==> WasPutLast(rs, key, value)
  {
    if rs == [] {
    } else {
      var before, last := rs[..|rs| - 1], rs[|rs| - 1];
      RecallsKey(before, key, value);
      LastPutOn(before, last, key, value);
      assert rs == before + [last];
    }
  }

  lemma LastPutOn(before: seq<Record>, last: Record, key: Str, value: Str)
    ensures WasPutLast(before + [last], key, value) <==>
      if last.key == key && (last.op == 1 || last.op == 2) then last.op == 1 && last.value == value
      else WasPutLast(before, key, value)
  {
    var rs, n := before + [last], |before|;
    assert rs[n] == last && forall j :: 0 <= j < n ==> rs[j] == before[j];
    if last.key == key && last.op == 1 && last.value == value {
      assert IsLastPut(rs, n, key, value);
    }
    forall i: nat | i < n
      ensures IsLastPut(rs, i, key, value) <==>
        IsLastPut(before, i, key, value) && !(last.key == key && (last.op == 1 || last.op == 2))
    {
    }
    if i: nat :| IsLastPut(before, i, key, value) && !(last.key == key && (last.op == 1 || last.op == 2)) {
      assert IsLastPut(rs, i, key, value);
    }
    if i: nat :| IsLastPut(rs, i, key, value) && i < n {
      assert IsLastPut(before, i, key, value);
    }
  }

  method Recover(crc: Checksum, file: Str) returns (r: Recovered)
    ensures r == Replayed(ReadFrom(crc, file))
    ensures Recalls(ReadFrom(crc, file), r.state)
    ensures r.number == if ReadFrom(crc, file) == [] then 0 else ReadFrom(crc, file)[|ReadFrom(crc, file)| - 1].number
  {
    var records := ReadAll(crc, file);
    var state: map<Str, Str>, number := map[], 0;
    for i := 0 to |records|
      invariant Recovered(state, number) == Replayed(records[..i])
    {
      assert records[..i + 1][..i] == records[..i];
      number := records[i].number;
      if records[i].op == OP_PUT {
        state := state[records[i].key := records[i].value];
      } else if records[i].op == OP_DELETE {
        state := state - {records[i].key};
      }
    }
    assert records[..|records|] == records;
    ReplayedRecalls(records);
    r := Recovered(state, number);
  }

  // ------------------------------------------------------------------ the writer

  /** Copies bytes into a buffer at an offset. */
  method Copy(buf: array<byte>, offset: nat, b: Str)
    requires offset + |b| <= buf.Length
    modifies buf
    ensures buf[..] == old(buf[..offset]) + b + old(buf[offset + |b|..])
  {
    for i := 0 to |b|
      invariant buf[..] == old(buf[..offset]) + b[..i] + old(buf[offset + i..])
    {
      buf[offset + i] := b[i];
    }
    assert b[..|b|] == b;
  }

  /** The bytes of a record, filled in field by field, the checksum last. */
  method FillRecord(crc: Checksum, r: Record) returns (b: Str)
    ensures b == Encode(crc, r)
  {
    var k := |r.key|;
    var buf := new byte[HEADER_SIZE + k + |r.value|];
    CopyAfter(buf, 4, 4, PutUint64(r.number));
    CopyAfter(buf, 4, 12, [r.op]);
    CopyAfter(buf, 4, 13, PutUint32(k));
    CopyAfter(buf, 4, 17, PutUint32(|r.value|));
    CopyAfter(buf, 4, HEADER_SIZE, r.key);
    CopyAfter(buf, 4, HEADER_SIZE + k, r.value);
    assert buf[4..4] == [] && [] + PutUint64(r.number) == PutUint64(r.number);
    assert buf[4..buf.Length] == buf[4..];
    Regrouped([], Numbers(r), r.key, r.value);
    var c := PutUint32(crc(buf[4..]) % TWO_32);
    Copy(buf, 0, c);
    assert buf[..] == [] + c + Covered(r);
    Regrouped(c, Numbers(r), r.key, r.value);
    b := buf[..];
  }

  lemma Regrouped(c: Str, n: Str, key: Str, value: Str)
    ensures n + key + value == n + (key + value) && [] + c == c
    ensures c + (n + (key + value)) == c + n + (key + value)
  {
  }

  /** Copies, and says what stands between `from` and the end of the copy. */
  method CopyAfter(buf: array<byte>, ghost from: nat, offset: nat, b: Str)
    requires from <= offset && offset + |b| <= buf.Length
    modifies buf
    ensures buf[from..offset + |b|] == old(buf[from..offset]) + b
  {
    Copy(buf, offset, b);
    TailOfCopy(old(buf[..]), buf[..], from, offset, b);
    assert buf[from..offset + |b|] == buf[..][from..offset + |b|];
    assert old(buf[from..offset]) == old(buf[..])[from..offset];
    assert old(buf[..offset]) == old(buf[..])[..offset] && old(buf[offset + |b|..]) == old(buf[..])[offset + |b|..];
  }

  lemma TailOfCopy(before: Str, after: Str, from: nat, offset: nat, b: Str)
    requires from <= offset && offset + |b| <= |before| && after == before[..offset] + b + before[offset + |b|..]
    ensures after[from..offset + |b|] == before[from..offset] + b
  {
  }

  lemma {:induction false} LogGrows(crc: Checksum, rs: seq<Record>, r: Record)
    ensures Log(crc, rs + [r]) == Log(crc, rs) + Encode(crc, r)
  {
    if rs == [] {
      assert [r][1..] == [] && Encode(crc, r) + [] == [] + Encode(crc, r);
    } else {
      assert (rs + [r])[1..] == rs[1..] + [r];
      LogGrows(crc, rs[1..], r);
      Assoc(Encode(crc, rs[0]), Log(crc, rs[1..]), Encode(crc, r));
    }
  }

  lemma Spilled(file: Str, buffer: Str, b: Str, spill: nat)
    requires spill <= |buffer + b|
    ensures (file + (buffer + b)[..spill]) + (buffer + b)[spill..] == (file + buffer) + b
  {
  }

  /** Numbers ascend to the last one given out. */
  ghost predicate Numbered(rs: seq<Record>, number: nat) {
    && (rs != [] ==> rs[|rs| - 1].number == number)
    && (forall i, j :: 0 <= i < j < |rs| ==> rs[i].number < rs[j].number)
  }

  /** An open log: `file` is what the system has, `buffer` what the process still holds. */
  class Writer {
    const crc: Checksum
    const syncOnWrite: bool
    var file: Str
    var buffer: Str
    var number: nat
    ghost var base: Str            // what the file held when it was opened
    ghost var log: seq<Record>     // what was appended since

    ghost predicate Valid()
      reads this
    {
      file + buffer == base + Log(crc, log) && number < TWO_64 && Numbered(log, number)
    }

    /** Goes on counting from the last record that can be read, whatever stands after it. */
    constructor (crc: Checksum, file: Str, syncOnWrite: bool)
      ensures Valid() && this.crc == crc && this.syncOnWrite == syncOnWrite && this.file == file && buffer == []
      ensures base == file && log == [] && number == Replayed(ReadFrom(crc, file)).number
    {
      this.crc, this.syncOnWrite, this.file, buffer := crc, syncOnWrite, file, [];
      base, log := file, [];
      ReadAreReadable(crc, file);
      NothingAdded(file);
      var records := ReadAll(crc, file);
      number := if records != [] then records[|records| - 1].number else 0;
    }

    /** `spill` is how much of the buffer is written out because it is full. */
    method Append(op: byte, key: Str, value: Str, spill: nat) returns (n: nat)
      requires Valid() && number + 1 < TWO_64
      requires spill <= |buffer| + HEADER_SIZE + |key| + |value|
      modifies this
      ensures Valid() && n == number == old(number) + 1 && base == old(base)
      ensures log == old(log) + [Record(n, op, key, value)]
      ensures old(file) <= file && (syncOnWrite ==> file == base + Log(crc, log))
    {
      number := number + 1;
      var r := Record(number, op, key, value);
      var b := FillRecord(crc, r);
      Buffered(r, b, spill);
      if syncOnWrite {
        Sync();
      }
      n := number;
    }

    /** The buffered write of one record's bytes. */
    method Buffered(ghost r: Record, b: Str, spill: nat)
      requires file + buffer == base + Log(crc, log) && r.number == number < TWO_64 && b == Encode(crc, r)
      requires spill <= |buffer| + |b| && forall i :: 0 <= i < |log| ==> log[i].number < number
      requires forall i, j :: 0 <= i < j < |log| ==> log[i].number < log[j].number
      modifies this`file, this`buffer, this`log
      ensures Valid() && log == old(log) + [r] && old(file) <= file
    {
      var pending := buffer + b;
      LogGrows(crc, log, r);
      Spilled(file, buffer, b, spill);
      Assoc(base, Log(crc, log), b);
      file, buffer := file + pending[..spill], pending[spill..];
      log := log + [r];
    }

    method Sync()
      requires Valid()
      modifies this`file, this`buffer
      ensures Valid() && file == base + Log(crc, log) && buffer == [] && old(file) <= file
    {
      file, buffer := file + buffer, [];
      assert file + buffer == file;
    }

    /** Empties the log; the numbering goes on. */
    method Truncate()
      requires Valid()
      modifies this
      ensures Valid() && base == [] && log == [] && number == old(number)
    {
      file, buffer, base, log := [], [], [], [];
    }

    /** All records: those the file had when it was opened, and those since. */
    ghost function Held(): seq<Record>
      reads this
    {
      ReadFrom(crc, base) + log
    }

    /** After a crash that keeps `cut` bytes of what was written, recovery sees exactly the
        records wholly before the cut; every record synced before the cut is among them.
        That is so whenever the file had no torn tail when it was opened. */
    lemma CrashRecovers(cut: nat, synced: nat)
      requires Valid() && NoTail(crc, base) && AllReadable(log) && cut <= |file + buffer|
      requires synced <= |Held()| && |Log(crc, Held()[..synced])| <= cut
      ensures var m := Whole(crc, Held(), cut);
              && m >= synced && ReadFrom(crc, (file + buffer)[..cut]) == Held()[..m]
              && (m > 0 ==> Replayed(Held()[..m]).number == Held()[m - 1].number)
              && Recalls(Held()[..m], Replayed(Held()[..m]).state)
    {
      ReadAreReadable(crc, base);
      LogJoins(crc, ReadFrom(crc, base), log);
      CutRecovers(crc, Held(), cut, synced);
    }
  }

  /** A log cut anywhere: what is read, and what it means. */
  lemma CutRecovers(crc: Checksum, rs: seq<Record>, cut: nat, synced: nat)
    requires AllReadable(rs) && cut <= |Log(crc, rs)| && synced <= |rs| && |Log(crc, rs[..synced])| <= cut
    ensures var m := Whole(crc, rs, cut);
            && m >= synced && ReadFrom(crc, Log(crc, rs)[..cut]) == rs[..m]
            && (m > 0 ==> Replayed(rs[..m]).number == rs[m - 1].number)
            && Recalls(rs[..m], Replayed(rs[..m]).state)
  {
    CutLogReadsWholeRecords(crc, rs, cut);
    WholeIsCut(crc, rs, cut, synced);
    ReplayedRecalls(rs[..Whole(crc, rs, cut)]);
  }

  lemma {:induction false} LogJoins(crc: Checksum, rs: seq<Record>, more: seq<Record>)
    ensures Log(crc, rs + more) == Log(crc, rs) + Log(crc, more)
  {
    if rs == [] {
      NothingAdded(more);
      NothingAdded(Log(crc, more));
    } else {
      FirstOfConcat(rs, more);
      LogJoins(crc, rs[1..], more);
      Assoc(Encode(crc, rs[0]), Log(crc, rs[1..]), Log(crc, more));
    }
  }
}
