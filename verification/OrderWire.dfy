/** The order message on the wire: what one program writes another reads, and
    what a program does not know it passes on. */
module OrderWire {
  import opened ByteStrings
  import opened IntWidths
  import opened Sequences
  import opened Wire

  /** An order as a value. `unknown` are the raw bytes of the fields it does not know: those of
      other numbers, and those of its own numbers with another wire type. */
  datatype Order = Order(id: int64, customer: Str, amount: int64, status: int64, tags: seq<Str>, unknown: Str)

  const EMPTY := Order(0, [], 0, 0, [], [])

  const VARINT := 0
  const FIXED64 := 1
  const BYTES := 2
  const FIXED32 := 5

  // ----------------------------------------------------------------- one field

  function ToUint64(v: int64): uint64 {
    if v < 0 then v + TWO_64 else v
  }

  function ToInt64(v: uint64): int64 {
    if v < TWO_63 then v else v - TWO_64
  }

  datatype Tag = Tag(field: nat, wireType: nat)

  function ReadTag(b: Str): (r: Parsed<Tag>)
    ensures r.Parsed? ==> 0 < r.size <= |b|
  {
    match ReadVarint(b)
    case Failed(e) => Failed(e)
    case Parsed(v, n) => Parsed(Tag(v / 8, v % 8), n)
  }

  function ReadBytes(b: Str): (r: Parsed<Str>)
    ensures r.Parsed? ==> 0 < r.size <= |b| && |r.value| < TWO_64
  {
    match ReadVarint(b)
    case Failed(e) => Failed(e)
    case Parsed(length, n) =>
      if |b| - n < length then Failed(Truncated) else Parsed(b[n..n + length], n + length)
  }

  /** Steps over a value whose wire type tells how long it is. */
  function SkipValue(b: Str, wireType: nat): (r: Parsed<()>)
    ensures r.Parsed? ==> r.size <= |b|
  {
    if wireType == VARINT then
      match ReadVarint(b)
      case Failed(e) => Failed(e)
      case Parsed(_, n) => Parsed((), n)
    else if wireType == FIXED64 then
      if |b| < 8 then Failed(Truncated) else Parsed((), 8)
    else if wireType == BYTES then
      match ReadBytes(b)
      case Failed(e) => Failed(e)
      case Parsed(_, n) => Parsed((), n)
    else if wireType == FIXED32 then
      if |b| < 4 then Failed(Truncated) else Parsed((), 4)
    else Failed(BadWireType(wireType))
  }

  datatype Value = Number(v: uint64) | Text(s: Str) | Skipped

  /** A field as it stands in a message: what was read, and the bytes of it all. */
  datatype Field = Field(tag: Tag, value: Value, raw: Str)

  predicate IsNumber(t: Tag) {
    t == Tag(1, VARINT) || t == Tag(3, VARINT) || t == Tag(4, VARINT)
  }

  predicate IsText(t: Tag) {
    t == Tag(2, BYTES) || t == Tag(5, BYTES)
  }

  /** The value after a tag; a tag the order does not know is stepped over. */
  function ReadValue(t: Tag, b: Str): (r: Parsed<Value>)
    ensures r.Parsed? ==> r.size <= |b| && (r.value.Text? ==> |r.value.s| < TWO_64)
    ensures r.Parsed? ==> (r.value.Number? <==> IsNumber(t)) && (r.value.Text? <==> IsText(t))
  {
    if IsNumber(t) then
      match ReadVarint(b)
      case Failed(e) => Failed(e)
      case Parsed(v, m) => Parsed(Number(v), m)
    else if IsText(t) then
      match ReadBytes(b)
      case Failed(e) => Failed(e)
      case Parsed(s, m) => Parsed(Text(s), m)
    else
      match SkipValue(b, t.wireType)
      case Failed(e) => Failed(e)
      case Parsed(_, m) => Parsed(Skipped, m)
  }

  /** The first field of a message. */
  function NextField(b: Str): (r: Parsed<Field>)
    ensures r.Parsed? ==> 0 < r.size <= |b| && r.value.raw == b[..r.size]
    ensures r.Parsed? && r.value.value.Text? ==> |r.value.value.s| < TWO_64
    ensures r.Parsed? ==>
      (r.value.value.Number? <==> IsNumber(r.value.tag)) && (r.value.value.Text? <==> IsText(r.value.tag))
  {
    match ReadTag(b)
    case Failed(e) => Failed(e)
    case Parsed(t, n) =>
      match ReadValue(t, b[n..])
      case Failed(e) => Failed(e)
      case Parsed(v, m) => Parsed(Field(t, v, b[..n + m]), n + m)
  }

  function Apply(o: Order, f: Field): Order {
    match f.value
    case Number(v) =>
      if f.tag.field == 1 then o.(id := ToInt64(v)) else if f.tag.field == 3 then o.(amount := ToInt64(v))
      else o.(status := ToInt64(v))
    case Text(s) => if f.tag.field == 2 then o.(customer := s) else o.(tags := o.tags + [s])
    case Skipped => o.(unknown := o.unknown + f.raw)
  }

  datatype Report = Done | Bad(error: Error)

  /** Reads fields until the end or the first that fails: the order so far, and how it ended. */
  function Decode(o: Order, b: Str): (Order, Report)
    decreases |b|
  {
    if b == [] then (o, Done)
    else
      match NextField(b)
      case Failed(e) => (o, Bad(e))
      case Parsed(f, n) => Decode(Apply(o, f), b[n..])
  }

  // -------------------------------------------------------------------- writing

  function IntField(field: nat, v: int64): Str {
    if v == 0 then [] else Varint(field * 8 + VARINT) + Varint(ToUint64(v))
  }

  function BytesField(field: nat, s: Str): Str {
    if s == [] then [] else Varint(field * 8 + BYTES) + Varint(|s|) + s
  }

  function TagFields(tags: seq<Str>): Str {
    if tags == [] then [] else BytesField(5, tags[0]) + TagFields(tags[1..])
  }

  function FromTags(o: Order): Str {
    TagFields(o.tags) + o.unknown
  }

  function FromStatus(o: Order): Str {
    IntField(4, o.status) + FromTags(o)
  }

  function FromAmount(o: Order): Str {
    IntField(3, o.amount) + FromStatus(o)
  }

  function FromCustomer(o: Order): Str {
    BytesField(2, o.customer) + FromAmount(o)
  }

  /** The message: known fields in order of their numbers, then the unknown bytes. */
  function Encode(o: Order): Str {
    IntField(1, o.id) + FromCustomer(o)
  }

  // ------------------------------------------------------------------- locality

  /** A field is parsed from its own bytes alone. */
  lemma ReadBytesLocal(b: Str, k: nat, rest: Str)
    requires ReadBytes(b).Parsed? && ReadBytes(b).size <= k <= |b|
    ensures ReadBytes(b[..k] + rest) == ReadBytes(b)
  {
    ReadVarintLocal(b, k, rest);
    var n, m := ReadVarint(b).size, ReadBytes(b).size;
    assert (b[..k] + rest)[n..m] == b[n..m];
  }

  lemma SkipLocal(b: Str, wireType: nat, k: nat, rest: Str)
    requires SkipValue(b, wireType).Parsed? && SkipValue(b, wireType).size <= k <= |b|
    ensures SkipValue(b[..k] + rest, wireType) == SkipValue(b, wireType)
  {
    if wireType == VARINT {
      ReadVarintLocal(b, k, rest);
    } else if wireType == BYTES {
      ReadBytesLocal(b, k, rest);
    }
  }

  lemma ReadValueLocal(t: Tag, b: Str, k: nat, rest: Str)
    requires ReadValue(t, b).Parsed? && ReadValue(t, b).size <= k <= |b|
    ensures ReadValue(t, b[..k] + rest) == ReadValue(t, b)
  {
    if IsNumber(t) {
      ReadVarintLocal(b, k, rest);
    } else if IsText(t) {
      ReadBytesLocal(b, k, rest);
    } else {
      SkipLocal(b, t.wireType, k, rest);
    }
  }

  lemma NextFieldLocal(b: Str, rest: Str)
    requires NextField(b).Parsed?
    ensures NextField(b[..NextField(b).size] + rest) == NextField(b)
  {
    var k, t, n := NextField(b).size, ReadTag(b).value, ReadTag(b).size;
    var b' := b[..k] + rest;
    ReadVarintLocal(b, k, rest);
    assert b'[n..] == b[n..][..k - n] + rest;
    ReadValueLocal(t, b[n..], k - n, rest);
    assert b'[..k] == b[..k];
  }

  /** Bytes that parse as unknown fields to the end. */
  predicate UnknownRun(u: Str)
    decreases |u|
  {
    u == [] || (NextField(u).Parsed? && NextField(u).value.value.Skipped? && UnknownRun(u[NextField(u).size..]))
  }

  lemma {:induction false} UnknownRunsJoin(u: Str, v: Str)
    requires UnknownRun(u) && UnknownRun(v)
    ensures UnknownRun(u + v)
    decreases |u|
  {
    if u == [] {
      assert u + v == v;
    } else {
      var k := NextField(u).size;
      Rejoined(u, v, k);
      NextFieldLocal(u, u[k..] + v);
      UnknownRunsJoin(u[k..], v);
      OneMoreUnknown(u + v, k);
    }
  }

  lemma Rejoined(u: Str, v: Str, k: nat)
    requires k <= |u|
    ensures u[..k] + (u[k..] + v) == u + v && (u + v)[k..] == u[k..] + v
  {
  }

  lemma OneMoreUnknown(u: Str, k: nat)
    requires NextField(u).Parsed? && NextField(u).value.value.Skipped? && NextField(u).size == k
    requires k <= |u| && UnknownRun(u[k..])
    ensures UnknownRun(u)
  {
  }

  lemma UnknownIsRaw(b: Str)
    requires NextField(b).Parsed? && NextField(b).value.value.Skipped?
    ensures UnknownRun(b[..NextField(b).size])
  {
    var k := NextField(b).size;
    NextFieldLocal(b, []);
    assert b[..k] + [] == b[..k] && b[..k][k..] == [];
    OneMoreUnknown(b[..k], k);
  }

  /** Unknown fields are read back byte for byte. */
  lemma {:induction false} DecodeUnknown(o: Order, u: Str)
    requires UnknownRun(u)
    ensures Decode(o, u) == (o.(unknown := o.unknown + u), Done)
    decreases |u|
  {
    if u == [] {
      assert o.unknown + u == o.unknown;
    } else {
      var k := NextField(u).size;
      DecodeUnknown(Apply(o, NextField(u).value), u[k..]);
      assert o.unknown + u[..k] + u[k..] == o.unknown + u;
    }
  }

  // ------------------------------------------------------------------ round trip

  /** What decoding can give: lengths that fit, and unknown fields in `unknown`. */
  predicate Encodable(o: Order) {
    |o.customer| < TWO_64 && UnknownRun(o.unknown) && forall i :: 0 <= i < |o.tags| ==> |o.tags[i]| < TWO_64
  }

  lemma {:induction false} DecodeEncodable(o: Order, b: Str)
    requires Encodable(o)
    ensures Encodable(Decode(o, b).0)
    decreases |b|
  {
    if b != [] && NextField(b).Parsed? {
      ApplyEncodable(o, b);
      DecodeEncodable(Apply(o, NextField(b).value), b[NextField(b).size..]);
    }
  }

  lemma ApplyEncodable(o: Order, b: Str)
    requires Encodable(o) && NextField(b).Parsed?
    ensures Encodable(Apply(o, NextField(b).value))
  {
    if NextField(b).value.value.Skipped? {
      UnknownIsRaw(b);
      UnknownRunsJoin(o.unknown, NextField(b).value.raw);
    }
  }

  function NonEmpty(tags: seq<Str>): seq<Str> {
    if tags == [] then [] else if tags[0] == [] then NonEmpty(tags[1..]) else [tags[0]] + NonEmpty(tags[1..])
  }

  lemma {:induction false} NonEmptyKeepsAll(tags: seq<Str>)
    ensures NonEmpty(tags) == tags <==> [] !in tags
    ensures |NonEmpty(tags)| <= |tags|
  {
    if tags == [] {
    } else {
      NonEmptyKeepsAll(tags[1..]);
      assert tags == [tags[0]] + tags[1..];
      assert tags[0] != [] ==> NonEmpty(tags)[1..] == NonEmpty(tags[1..]);
    }
  }

  lemma TagReads(field: nat, wireType: nat, rest: Str)
    requires 1 <= field <= 5 && wireType < 8
    ensures var t := Varint(field * 8 + wireType);
            |t| == 1 && ReadTag(t + rest) == Parsed(Tag(field, wireType), 1) && (t + rest)[1..] == rest
  {
    VarintRoundTrip(field * 8 + wireType, rest);
  }

  lemma DecodeStep(o: Order, b: Str, rest: Str, f: Field)
    requires b != [] && NextField(b + rest) == Parsed(f, |b|)
    ensures Decode(o, b + rest) == Decode(Apply(o, f), rest)
  {
    assert (b + rest)[|b|..] == rest;
  }

  lemma IntFieldReads(field: nat, v: int64, rest: Str)
    requires IsIntField(field) && v != 0
    ensures var b := IntField(field, v);
            NextField(b + rest) == Parsed(Field(Tag(field, VARINT), Number(ToUint64(v)), b), |b|)
  {
    var t, p := Varint(field * 8 + VARINT), Varint(ToUint64(v));
    TagReads(field, VARINT, p + rest);
    VarintRoundTrip(ToUint64(v), rest);
    NextFieldFrom(t, Tag(field, VARINT), p, Number(ToUint64(v)), rest);
  }

  lemma NextFieldFrom(t: Str, tag: Tag, body: Str, value: Value, rest: Str)
    requires ReadTag(t + (body + rest)) == Parsed(tag, |t|)
    requires ReadValue(tag, body + rest) == Parsed(value, |body|)
    ensures NextField(t + body + rest) == Parsed(Field(tag, value, t + body), |t + body|)
  {
    ThreePieces(t, body, rest);
  }

  lemma ThreePieces(t: Str, body: Str, rest: Str)
    ensures t + body + rest == t + (body + rest)
    ensures (t + body + rest)[|t|..] == body + rest && (t + body + rest)[..|t + body|] == t + body
  {
  }

  lemma DecodeInt(o: Order, field: nat, v: int64, rest: Str)
    requires IsIntField(field)
    ensures Decode(o, IntField(field, v) + rest) ==
      Decode(if v == 0 then o else Apply(o, Field(Tag(field, VARINT), Number(ToUint64(v)), [])), rest)
  {
    var b := IntField(field, v);
    if v == 0 {
      assert b + rest == rest;
    } else {
      IntFieldReads(field, v, rest);
      DecodeStep(o, b, rest, Field(Tag(field, VARINT), Number(ToUint64(v)), b));
    }
  }

  lemma BytesFieldReads(field: nat, s: Str, rest: Str)
    requires (field == 2 || field == 5) && s != [] && |s| < TWO_64
    ensures var b := BytesField(field, s);
            NextField(b + rest) == Parsed(Field(Tag(field, BYTES), Text(s), b), |b|)
  {
    var t, p := Varint(field * 8 + BYTES), Varint(|s|);
    TagReads(field, BYTES, p + s + rest);
    TextReads(s, rest);
    TextValueReads(field, p + s + rest);
    Assoc(t, p, s);
    NextFieldFrom(t, Tag(field, BYTES), p + s, Text(s), rest);
  }

  lemma TextValueReads(field: nat, b: Str)
    requires field == 2 || field == 5
    ensures ReadValue(Tag(field, BYTES), b) ==
      match ReadBytes(b)
      case Failed(e) => Failed(e)
      case Parsed(s, m) => Parsed(Text(s), m)
  {
  }

  lemma TextReads(s: Str, rest: Str)
    requires |s| < TWO_64
    ensures ReadBytes((Varint(|s|) + s) + rest) == Parsed(s, |Varint(|s|) + s|)
  {
    var p := Varint(|s|);
    VarintRoundTrip(|s|, s + rest);
    assert p + s + rest == p + (s + rest);
    assert (p + (s + rest))[|p|..|p| + |s|] == s;
  }

  lemma DecodeBytes(o: Order, field: nat, s: Str, rest: Str)
    requires (field == 2 || field == 5) && |s| < TWO_64
    ensures Decode(o, BytesField(field, s) + rest) ==
      Decode(if s == [] then o else Apply(o, Field(Tag(field, BYTES), Text(s), [])), rest)
  {
    var b := BytesField(field, s);
    if s == [] {
      assert b + rest == rest;
    } else {
      BytesFieldReads(field, s, rest);
      DecodeStep(o, b, rest, Field(Tag(field, BYTES), Text(s), b));
    }
  }

  function WithTag(o: Order, t: Str): Order {
    if t == [] then o else o.(tags := o.tags + [t])
  }

  lemma DecodeTag(o: Order, t: Str, more: Str, rest: Str)
    requires |t| < TWO_64
    ensures Decode(o, BytesField(5, t) + more + rest) == Decode(WithTag(o, t), more + rest)
  {
    DecodeBytes(o, 5, t, more + rest);
    assert BytesField(5, t) + more + rest == BytesField(5, t) + (more + rest);
  }

  lemma {:induction false} DecodeTags(o: Order, tags: seq<Str>, rest: Str)
    requires forall i :: 0 <= i < |tags| ==> |tags[i]| < TWO_64
    ensures Decode(o, TagFields(tags) + rest) == Decode(o.(tags := o.tags + NonEmpty(tags)), rest)
    decreases |tags|
  {
    if tags == [] {
      assert TagFields(tags) + rest == rest && o.(tags := o.tags + NonEmpty(tags)) == o;
    } else {
      DecodeTag(o, tags[0], TagFields(tags[1..]), rest);
      DecodeTags(WithTag(o, tags[0]), tags[1..], rest);
      TagsAppend(o, tags);
    }
  }

  lemma TagsAppend(o: Order, tags: seq<Str>)
    requires tags != []
    ensures var o' := WithTag(o, tags[0]);
            o'.(tags := o'.tags + NonEmpty(tags[1..])) == o.(tags := o.tags + NonEmpty(tags))
  {
    var more := NonEmpty(tags[1..]);
    if tags[0] == [] {
      assert NonEmpty(tags) == more;
    } else {
      Assoc(o.tags, [tags[0]], more);
    }
  }

  /** What reading back an order gives: all of it but the empty tags. */
  function Kept(o: Order): Order {
    o.(tags := NonEmpty(o.tags))
  }

  predicate IsIntField(field: nat) {
    field == 1 || field == 3 || field == 4
  }

  function WithNumber(o: Order, field: nat, v: int64): Order {
    if field == 1 then o.(id := v) else if field == 3 then o.(amount := v) else o.(status := v)
  }

  lemma SignRoundTrip(v: int64)
    ensures ToInt64(ToUint64(v)) == v
  {
  }

  lemma NumberApplied(o: Order, field: nat, v: int64)
    requires IsIntField(field)
    ensures Apply(o, Field(Tag(field, VARINT), Number(ToUint64(v)), [])) == WithNumber(o, field, v)
  {
    SignRoundTrip(v);
  }

  /** A written number is read into its own field; an unwritten one was 0 anyway. */
  lemma DecodeNumber(o: Order, field: nat, v: int64, rest: Str)
    requires IsIntField(field) && (v == 0 ==> WithNumber(o, field, 0) == o)
    ensures Decode(o, IntField(field, v) + rest) == Decode(WithNumber(o, field, v), rest)
  {
    DecodeInt(o, field, v, rest);
    NumberApplied(o, field, v);
  }

  lemma DecodeFromTags(o: Order)
    requires Encodable(o)
    ensures Decode(o.(tags := [], unknown := []), FromTags(o)) == (Kept(o), Done)
  {
    var o' := o.(tags := [], unknown := []);
    DecodeTags(o', o.tags, o.unknown);
    assert [] + NonEmpty(o.tags) == NonEmpty(o.tags) && [] + o.unknown == o.unknown;
    DecodeUnknown(o'.(tags := NonEmpty(o.tags)), o.unknown);
  }

  lemma DecodeFromStatus(o: Order)
    requires Encodable(o)
    ensures Decode(EMPTY.(id := o.id, customer := o.customer, amount := o.amount), FromStatus(o)) == (Kept(o), Done)
  {
    DecodeNumber(EMPTY.(id := o.id, customer := o.customer, amount := o.amount), 4, o.status, FromTags(o));
    DecodeFromTags(o);
  }

  lemma DecodeFromAmount(o: Order)
    requires Encodable(o)
    ensures Decode(EMPTY.(id := o.id, customer := o.customer), FromAmount(o)) == (Kept(o), Done)
  {
    DecodeNumber(EMPTY.(id := o.id, customer := o.customer), 3, o.amount, FromStatus(o));
    DecodeFromStatus(o);
  }

  lemma DecodeFromCustomer(o: Order)
    requires Encodable(o)
    ensures Decode(EMPTY.(id := o.id), FromCustomer(o)) == (Kept(o), Done)
  {
    DecodeBytes(EMPTY.(id := o.id), 2, o.customer, FromAmount(o));
    DecodeFromAmount(o);
  }

  /** Written and read again, an order loses its empty tags and nothing else. */
  lemma EncodeDecode(o: Order)
    requires Encodable(o)
    ensures Decode(EMPTY, Encode(o)) == (Kept(o), Done)
  {
    DecodeNumber(EMPTY, 1, o.id, FromCustomer(o));
    DecodeFromCustomer(o);
  }

  /** An order reads back whole exactly when none of its tags is empty. */
  lemma ReadsBackWhole(o: Order)
    requires Encodable(o)
    ensures Decode(EMPTY, Encode(o)) == (o, Done) <==> [] !in o.tags
  {
    EncodeDecode(o);
    NonEmptyKeepsAll(o.tags);
  }

  /** Whatever bytes are accepted, writing the result and reading it gives it back,
      unknown fields byte for byte; it gives back all of it exactly when no tag is empty. */
  lemma AcceptedRoundTrip(b: Str)
    requires Decode(EMPTY, b).1 == Done
    ensures var o := Decode(EMPTY, b).0;
            var (again, report) := Decode(EMPTY, Encode(o));
            && report == Done && again == Kept(o) && again.unknown == o.unknown
            && (again == o <==> [] !in o.tags)
  {
    var o := Decode(EMPTY, b).0;
    DecodeEncodable(EMPTY, b);
    EncodeDecode(o);
    NonEmptyKeepsAll(o.tags);
  }

  /** A second pass changes nothing more. */
  lemma RoundTripIsStable(b: Str)
    requires Decode(EMPTY, b).1 == Done
    ensures var o := Decode(EMPTY, b).0;
            var once := Encode(o);
            Encode(Decode(EMPTY, once).0) == once
  {
    var o := Decode(EMPTY, b).0;
    AcceptedRoundTrip(b);
    SameTagBytes(o.tags);
  }

  lemma {:induction false} SameTagBytes(tags: seq<Str>)
    ensures TagFields(NonEmpty(tags)) == TagFields(tags)
  {
    if tags == [] {
    } else {
      SameTagBytes(tags[1..]);
      if tags[0] != [] {
        assert NonEmpty(tags)[1..] == NonEmpty(tags[1..]);
      } else {
        assert [] + NonEmpty(tags[1..]) == NonEmpty(tags[1..]);
        assert BytesField(5, []) + TagFields(tags[1..]) == TagFields(tags[1..]);
      }
    }
  }

  // --------------------------------------------------------------- byte by byte

  /** The 64 bits of a signed number, read as an unsigned one. */
  function Unsigned(v: int64): uint64 {
    if v >= 0 then v else v + 0x1_0000_0000_0000_0000
  }

  /** One byte of tag for the fields of an order. */
  lemma SmallTag(t: nat)
    requires t < 128
    ensures Varint(t) == [t]
  {
  }

  /** The bytes of each field: a tag byte, then the number, or the length and the text. */
  lemma FieldBytes(v: int64, s: Str)
    ensures var n := Varint(Unsigned(v));
            && IntField(1, v) == (if v == 0 then [] else [8] + n)
            && IntField(3, v) == (if v == 0 then [] else [24] + n)
            && IntField(4, v) == (if v == 0 then [] else [32] + n)
    ensures BytesField(2, s) == if s == [] then [] else [18] + Varint(|s|) + s
    ensures BytesField(5, s) == if s == [] then [] else [42] + Varint(|s|) + s
  {
    SmallTag(8);
    SmallTag(18);
    SmallTag(24);
    SmallTag(32);
    SmallTag(42);
  }

  /** The repeated field, one element after the other. */
  lemma TagBytes(tags: seq<Str>)
    ensures TagFields([]) == []
    ensures tags != [] ==>
      TagFields(tags) == (if tags[0] == [] then [] else [42] + Varint(|tags[0]|) + tags[0]) + TagFields(tags[1..])
  {
    if tags != [] {
      FieldBytes(0, tags[0]);
    }
  }

  /** The bytes of a message. */
  lemma OrderBytes(o: Order)
    ensures Encode(o) ==
      (if o.id == 0 then [] else [8] + Varint(Unsigned(o.id))) +
      ((if o.customer == [] then [] else [18] + Varint(|o.customer|) + o.customer) +
      ((if o.amount == 0 then [] else [24] + Varint(Unsigned(o.amount))) +
      ((if o.status == 0 then [] else [32] + Varint(Unsigned(o.status))) +
      (TagFields(o.tags) + o.unknown))))
  {
    FieldBytes(o.id, o.customer);
    FieldBytes(o.amount, []);
    FieldBytes(o.status, []);
  }

  /** A message written out: id 1, customer "a", status 2, one tag "b"; and a field of -1. */
  lemma MessageExample()
    ensures Encode(Order(1, [97], 0, 2, [[98]], [])) == [8, 1, 18, 1, 97, 32, 2, 42, 1, 98]
    ensures IntField(3, -1) == [24, 255, 255, 255, 255, 255, 255, 255, 255, 255, 1]
  {
    FieldsOfExample();
    TagsOfExample();
    EncodeParts(Order(1, [97], 0, 2, [[98]], []));
    assert IntField(3, 0) == [];
    Flatten([8, 1], [18, 1, 97], [], [32, 2], [42, 1, 98]);
  }

  lemma EncodeParts(o: Order)
    ensures Encode(o) == IntField(1, o.id) + (BytesField(2, o.customer) + (IntField(3, o.amount) +
      (IntField(4, o.status) + (TagFields(o.tags) + o.unknown))))
  {
  }

  lemma TagsOfExample()
    ensures TagFields([[98]]) == [42, 1, 98]
  {
    TagBytes([[98]]);
    TagBytes([]);
    SmallTag(1);
    assert [[98]][1..] == [];
  }

  lemma FieldsOfExample()
    ensures IntField(1, 1) == [8, 1] && BytesField(2, [97]) == [18, 1, 97] && IntField(4, 2) == [32, 2]
    ensures IntField(3, -1) == [24, 255, 255, 255, 255, 255, 255, 255, 255, 255, 1]
  {
    FieldBytes(1, [97]);
    FieldBytes(2, []);
    FieldBytes(-1, []);
    SmallTag(1);
    SmallTag(2);
    WidestVarint();
  }

  lemma Flatten(a: Str, b: Str, c: Str, d: Str, e: Str)
    ensures a + (b + (c + (d + (e + [])))) == a + b + c + d + e
  {
  }

  /** A number read: the sign is that of 64 bits. */
  function Signed(v: uint64): int64 {
    if v < 0x8000_0000_0000_0000 then v else v - 0x1_0000_0000_0000_0000
  }

  /** Each number field, as it is read. */
  lemma ReadsNumbers(o: Order, v: uint64, rest: Str)
    ensures Decode(o, [8] + Varint(v) + rest) == Decode(o.(id := Signed(v)), rest)
    ensures Decode(o, [24] + Varint(v) + rest) == Decode(o.(amount := Signed(v)), rest)
    ensures Decode(o, [32] + Varint(v) + rest) == Decode(o.(status := Signed(v)), rest)
  {
    ReadsNumber(o, 8, v, rest);
    ReadsNumber(o, 24, v, rest);
    ReadsNumber(o, 32, v, rest);
  }

  function WithNumberRead(o: Order, t: byte, v: uint64): Order {
    if t == 8 then o.(id := Signed(v)) else if t == 24 then o.(amount := Signed(v)) else o.(status := Signed(v))
  }

  lemma NumberValueReads(field: nat, v: uint64, rest: Str)
    requires field == 1 || field == 3 || field == 4
    ensures ReadValue(Tag(field, 0), Varint(v) + rest) == Parsed(Number(v), |Varint(v)|)
  {
    VarintRoundTrip(v, rest);
  }

  lemma ReadsNumber(o: Order, t: byte, v: uint64, rest: Str)
    requires t == 8 || t == 24 || t == 32
    ensures Decode(o, [t] + Varint(v) + rest) == Decode(WithNumberRead(o, t, v), rest)
  {
    var tag := Tag(t as nat / 8, 0);
    SmallTag(t);
    TagReads(t as nat / 8, 0, Varint(v) + rest);
    NumberValueReads(t as nat / 8, v, rest);
    NextFieldFrom([t], tag, Varint(v), Number(v), rest);
    DecodeStep(o, [t] + Varint(v), rest, Field(tag, Number(v), [t] + Varint(v)));
  }

  /** Each text field, as it is read. */
  lemma ReadsTexts(o: Order, s: Str, rest: Str)
    requires |s| < TWO_64
    ensures Decode(o, [18] + (Varint(|s|) + s) + rest) == Decode(o.(customer := s), rest)
    ensures Decode(o, [42] + (Varint(|s|) + s) + rest) == Decode(o.(tags := o.tags + [s]), rest)
  {
    ReadsText(o, 18, s, rest);
    ReadsText(o, 42, s, rest);
  }

  lemma ReadsText(o: Order, t: byte, s: Str, rest: Str)
    requires (t == 18 || t == 42) && |s| < TWO_64
    ensures Decode(o, [t] + (Varint(|s|) + s) + rest) ==
      Decode(if t == 18 then o.(customer := s) else o.(tags := o.tags + [s]), rest)
  {
    var tag, body := Tag(t as nat / 8, 2), Varint(|s|) + s;
    SmallTag(t);
    TagReads(t as nat / 8, 2, body + rest);
    TextReads(s, rest);
    TextValueReads(t as nat / 8, body + rest);
    NextFieldFrom([t], tag, body, Text(s), rest);
    DecodeStep(o, [t] + body, rest, Field(tag, Text(s), [t] + body));
  }

  /** How far a value of each wire type reaches: a varint, eight bytes, a length and as many bytes,
      four bytes; other types are refused. */
  lemma SkipLengths(b: Str, wireType: nat)
    ensures var r, n := SkipValue(b, wireType), ReadVarint(b);
            && (wireType == 0 && n.Failed? ==> r == Failed(n.error))
            && (wireType == 0 && n.Parsed? ==> r == Parsed((), n.size))
            && (wireType == 1 ==> r == if |b| < 8 then Failed(Truncated) else Parsed((), 8))
            && (wireType == 2 && n.Failed? ==> r == Failed(n.error))
            && (wireType == 2 && n.Parsed? ==>
                  r == if |b| - n.size < n.value then Failed(Truncated) else Parsed((), n.size + n.value))
            && (wireType == 5 ==> r == if |b| < 4 then Failed(Truncated) else Parsed((), 4))
            && (wireType == 3 || wireType == 4 || wireType >= 6 ==> r == Failed(BadWireType(wireType)))
  {
  }

  /** A field that an order knows by this number and wire type. */
  predicate IsKnown(field: nat, wireType: nat) {
    (wireType == 0 && (field == 1 || field == 3 || field == 4)) || (wireType == 2 && (field == 2 || field == 5))
  }

  /** Any other field is kept as its bytes, as many as its wire type says. */
  lemma ReadsUnknown(o: Order, field: nat, wireType: nat, body: Str, rest: Str)
    requires wireType < 8 && field * 8 + wireType < TWO_64 && !IsKnown(field, wireType)
    requires SkipValue(body + rest, wireType) == Parsed((), |body|)
    ensures var raw := Varint(field * 8 + wireType) + body;
            Decode(o, raw + rest) == Decode(o.(unknown := o.unknown + raw), rest)
  {
    var t, tag := Varint(field * 8 + wireType), Tag(field, wireType);
    VarintRoundTrip(field * 8 + wireType, body + rest);
    TagParts(field, wireType);
    NextFieldFrom(t, tag, body, Skipped, rest);
    DecodeStep(o, t + body, rest, Field(tag, Skipped, t + body));
  }

  lemma TagParts(field: nat, wireType: nat)
    requires wireType < 8
    ensures (field * 8 + wireType) / 8 == field && (field * 8 + wireType) % 8 == wireType
  {
  }

  /** A wire type that the format no longer has, or never had, is refused. */
  lemma RefusesWireTypes(o: Order, field: nat, wireType: nat, rest: Str)
    requires wireType == 3 || wireType == 4 || wireType == 6 || wireType == 7
    requires field * 8 + wireType < TWO_64
    ensures Decode(o, Varint(field * 8 + wireType) + rest) == (o, Bad(BadWireType(wireType)))
  {
    RefusedFirst(field, wireType, rest);
  }

  lemma RefusedFirst(field: nat, wireType: nat, rest: Str)
    requires wireType == 3 || wireType == 4 || wireType == 6 || wireType == 7
    requires field * 8 + wireType < TWO_64
    ensures NextField(Varint(field * 8 + wireType) + rest) == Failed(BadWireType(wireType))
  {
    var t := field * 8 + wireType;
    VarintRoundTrip(t, rest);
    TagParts(field, wireType);
    CutApart(Varint(t), rest);
    RefusedValue(Tag(field, wireType), rest);
  }

  lemma RefusedValue(t: Tag, b: Str)
    requires t.wireType == 3 || t.wireType == 4 || t.wireType == 6 || t.wireType == 7
    ensures ReadValue(t, b) == Failed(BadWireType(t.wireType))
  {
    SkipLengths(b, t.wireType);
  }

  // -------------------------------------------------------------------- the object

  method AppendInt64(b: Str, field: nat, v: int64) returns (r: Str)
    requires field < 16
    ensures r == b + IntField(field, v)
  {
    if v == 0 {
      return b;
    }
    r := AppendVarint(b, field * 8 + VARINT);
    r := AppendVarint(r, ToUint64(v));
  }

  method AppendString(b: Str, field: nat, s: Str) returns (r: Str)
    requires field < 16 && |s| < TWO_64
    ensures r == b + BytesField(field, s)
  {
    if s == [] {
      return b;
    }
    r := AppendVarint(b, field * 8 + BYTES);
    r := AppendVarint(r, |s|);
    r := r + s;
    Assoc(b, Varint(field * 8 + BYTES), Varint(|s|));
    Assoc(b, Varint(field * 8 + BYTES) + Varint(|s|), s);
  }

  method AppendTags(b: Str, tags: seq<Str>) returns (r: Str)
    requires forall i :: 0 <= i < |tags| ==> |tags[i]| < TWO_64
    ensures r == b + TagFields(tags)
  {
    r := b;
    for i := 0 to |tags|
      invariant r + TagFields(tags[i..]) == b + TagFields(tags)
    {
      assert tags[i..][1..] == tags[i + 1..];
      Assoc(r, BytesField(5, tags[i]), TagFields(tags[i + 1..]));
      r := AppendString(r, 5, tags[i]);
    }
    assert tags[|tags|..] == [] && r + [] == r;
  }

  /** The message object: decoding fills its fields in one by one. */
  class Message {
    var id: int64
    var customer: Str
    var amount: int64
    var status: int64
    var tags: seq<Str>
    var unknownFields: Str

    constructor ()
      ensures Value() == EMPTY
    {
      id, customer, amount, status, tags, unknownFields := 0, [], 0, 0, [], [];
    }

    ghost function Value(): Order
      reads this
    {
      Order(id, customer, amount, status, tags, unknownFields)
    }

    method Marshal() returns (b: Str)
      requires |customer| < TWO_64 && forall i :: 0 <= i < |tags| ==> |tags[i]| < TWO_64
      ensures b == Encode(Value())
      ensures b ==
        (if id == 0 then [] else [8] + Varint(Unsigned(id))) +
        ((if customer == [] then [] else [18] + Varint(|customer|) + customer) +
        ((if amount == 0 then [] else [24] + Varint(Unsigned(amount))) +
        ((if status == 0 then [] else [32] + Varint(Unsigned(status))) +
        (TagFields(tags) + unknownFields))))
    {
      OrderBytes(Value());
      b := AppendInt64([], 1, id);
      b := AppendString(b, 2, customer);
      b := AppendInt64(b, 3, amount);
      b := AppendInt64(b, 4, status);
      b := AppendTags(b, tags);
      b := b + unknownFields;
      Grouped([] + IntField(1, id), BytesField(2, customer), IntField(3, amount), IntField(4, status),
          TagFields(tags), unknownFields);
      assert [] + IntField(1, id) == IntField(1, id);
    }

    /** Starts over from the empty order; on an error the fields read so far stay. */
    method Unmarshal(message: Str) returns (report: Report)
      modifies this
      ensures (Value(), report) == Decode(EMPTY, message)
    {
      id, customer, amount, status, tags, unknownFields := 0, [], 0, 0, [], [];
      var b := message;
      while b != []
        invariant Decode(Value(), b) == Decode(EMPTY, message)
        decreases |b|
      {
        match NextField(b) {
          case Failed(e) =>
            return Bad(e);
          case Parsed(f, n) =>
            SetField(f);
            b := b[n..];
        }
      }
      return Done;
    }

    method SetField(f: Field)
      modifies this
      ensures Value() == Apply(old(Value()), f)
    {
      match f.value {
        case Number(v) =>
          if f.tag.field == 1 {
            id := ToInt64(v);
          } else if f.tag.field == 3 {
            amount := ToInt64(v);
          } else {
            status := ToInt64(v);
          }
        case Text(s) =>
          if f.tag.field == 2 {
            customer := s;
          } else {
            tags := tags + [s];
          }
        case Skipped =>
          unknownFields := unknownFields + f.raw;
      }
    }
  }

  lemma Grouped(a: Str, b: Str, c: Str, d: Str, e: Str, f: Str)
    ensures a + b + c + d + e + f == a + (b + (c + (d + (e + f))))
  {
    Assoc(a + b + c + d, e, f);
    Assoc(a + b + c, d, e + f);
    Assoc(a + b, c, d + (e + f));
    Assoc(a, b, c + (d + (e + f)));
  }
}
