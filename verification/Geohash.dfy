/** Geohashes in exact arithmetic: cells, their hashes, and the eight around them.

    Bits alternate between longitude and latitude, longitude first, each halving
    its range; five make a character. */
module Geohash {
  import opened ByteStrings
  import opened GridAxis
  import opened Sequences

  datatype Box = Box(minLat: real, maxLat: real, minLng: real, maxLng: real)

  datatype Result<T> = Ok(value: T) | InvalidCharacter

  const WORLD := Box(-90.0, 90.0, -180.0, 180.0)

  // ------------------------------------------------------------------ characters

  /** The 32 characters: the digits, and the letters but a, i, l and o. */
  function Digit(v: nat): byte
    requires v < 32
  {
    if v < 10 then 48 + v else if v < 17 then 98 + (v - 10) else if v < 19 then 106 + (v - 17)
    else if v < 21 then 109 + (v - 19) else 112 + (v - 21)
  }

  predicate IsDigit(c: byte) {
    48 <= c < 58 || 98 <= c < 105 || 106 <= c < 108 || 109 <= c < 111 || 112 <= c < 123
  }

  function ValueOf(c: byte): (v: nat)
    requires IsDigit(c)
    ensures v < 32 && Digit(v) == c
  {
    if c < 58 then c - 48 else if c < 105 then c - 98 + 10 else if c < 108 then c - 106 + 17
    else if c < 111 then c - 109 + 19 else c - 112 + 21
  }

  lemma DigitReads(v: nat)
    requires v < 32
    ensures IsDigit(Digit(v)) && ValueOf(Digit(v)) == v
  {
  }

  /** In order they are these. */
  lemma Alphabet(v: nat)
    requires v < 32
    ensures Digit(v) == "0123456789bcdefghjkmnpqrstuvwxyz"[v] as int
  {
    if v < 10 {
      assert "0123456789bcdefghjkmnpqrstuvwxyz"[v] as int == 48 + v;
    } else if v < 17 {
      assert "0123456789bcdefghjkmnpqrstuvwxyz"[v] as int == 98 + (v - 10);
    } else if v < 21 {
    } else {
      assert "0123456789bcdefghjkmnpqrstuvwxyz"[v] as int == 112 + (v - 21);
    }
  }

  predicate IsHash(hash: Str) {
    forall i :: 0 <= i < |hash| ==> IsDigit(hash[i])
  }

  /** The five bits of a character's value, high first. */
  function FiveBits(v: nat): (bits: seq<bool>)
    ensures |bits| == 5
  {
    [v / 16 % 2 == 1, v / 8 % 2 == 1, v / 4 % 2 == 1, v / 2 % 2 == 1, v % 2 == 1]
  }

  function BitsOf(hash: Str): (bits: seq<bool>)
    requires IsHash(hash)
    ensures |bits| == 5 * |hash|
  {
    if hash == [] then [] else BitsOf(hash[..|hash| - 1]) + FiveBits(ValueOf(hash[|hash| - 1]))
  }

  lemma FiveBitsValue(v: nat)
    requires v < 32
    ensures Index(FiveBits(v)) == v
  {
    var b := FiveBits(v);
    IndexOfFive(b);
  }

  lemma IndexOfFive(b: seq<bool>)
    requires |b| == 5
    ensures Index(b) == (if b[0] then 16 else 0) + (if b[1] then 8 else 0) + (if b[2] then 4 else 0)
      + (if b[3] then 2 else 0) + if b[4] then 1 else 0
  {
    assert b[..4][..3] == b[..3] && b[..3][..2] == b[..2] && b[..2][..1] == b[..1] && b[..1][..0] == [];
    assert Index(b[..1]) == (if b[0] then 1 else 0);
    assert Index(b[..2]) == 2 * Index(b[..1]) + if b[1] then 1 else 0;
    assert Index(b[..3]) == 2 * Index(b[..2]) + if b[2] then 1 else 0;
    assert Index(b[..4]) == 2 * Index(b[..3]) + if b[3] then 1 else 0;
  }

  lemma ValueFiveBits(b: seq<bool>)
    requires |b| == 5
    ensures Index(b) < 32 && FiveBits(Index(b)) == b
  {
    IndexOfFive(b);
    FiveBitsValue(Index(b));
    IndexNamesBits(FiveBits(Index(b)), b);
  }

  lemma {:induction false} BitsNameHash(a: Str, b: Str)
    requires IsHash(a) && IsHash(b) && BitsOf(a) == BitsOf(b)
    ensures a == b
    decreases |a|
  {
    if a == [] {
    } else {
      var a', b' := a[..|a| - 1], b[..|b| - 1];
      var c, d := a[|a| - 1], b[|b| - 1];
      CutApart(BitsOf(a'), FiveBits(ValueOf(c)));
      CutApart(BitsOf(b'), FiveBits(ValueOf(d)));
      assert FiveBits(ValueOf(c)) == FiveBits(ValueOf(d));
      FiveBitsValue(ValueOf(c));
      FiveBitsValue(ValueOf(d));
      BitsNameHash(a', b');
      assert a == a' + [c] && b == b' + [d];
    }
  }

  // ------------------------------------------------------------------------ cells

  function Halve(box: Box, even: bool, upper: bool): Box {
    if even then
      var mid := (box.minLng + box.maxLng) / 2.0;
      if upper then box.(minLng := mid) else box.(maxLng := mid)
    else
      var mid := (box.minLat + box.maxLat) / 2.0;
      if upper then box.(minLat := mid) else box.(maxLat := mid)
  }

  function BoxOf(bits: seq<bool>): Box {
    if bits == [] then WORLD
    else Halve(BoxOf(bits[..|bits| - 1]), (|bits| - 1) % 2 == 0, bits[|bits| - 1])
  }

  /** Whether a point lies in the upper half of a cell, along the axis whose turn it is. */
  predicate InUpperHalf(box: Box, even: bool, lat: real, lng: real) {
    if even then lng >= (box.minLng + box.maxLng) / 2.0 else lat >= (box.minLat + box.maxLat) / 2.0
  }

  function PointBits(lat: real, lng: real, n: nat): (bits: seq<bool>)
    ensures |bits| == n
  {
    if n == 0 then []
    else
      var bits := PointBits(lat, lng, n - 1);
      bits + [InUpperHalf(BoxOf(bits), (n - 1) % 2 == 0, lat, lng)]
  }

  /** How many of n bits halve the longitude, and how many the latitude. */
  function LngTurns(n: nat): nat {
    if n == 0 then 0 else LngTurns(n - 1) + if (n - 1) % 2 == 0 then 1 else 0
  }

  function LatTurns(n: nat): nat {
    if n == 0 then 0 else LatTurns(n - 1) + if (n - 1) % 2 == 0 then 0 else 1
  }

  /** The bits of one axis. */
  function LngBits(bits: seq<bool>): (r: seq<bool>)
    ensures |r| == LngTurns(|bits|)
  {
    if bits == [] then []
    else LngBits(bits[..|bits| - 1]) + if (|bits| - 1) % 2 == 0 then [bits[|bits| - 1]] else []
  }

  function LatBits(bits: seq<bool>): (r: seq<bool>)
    ensures |r| == LatTurns(|bits|)
  {
    if bits == [] then []
    else LatBits(bits[..|bits| - 1]) + if (|bits| - 1) % 2 == 0 then [] else [bits[|bits| - 1]]
  }

  function LngWidth(n: nat): real {
    Width(360.0, LngTurns(n))
  }

  function LatWidth(n: nat): real {
    Width(180.0, LatTurns(n))
  }

  /** Columns and rows of the grid of n bits. */
  function Columns(n: nat): nat {
    Count(LngTurns(n))
  }

  function Rows(n: nat): nat {
    Count(LatTurns(n))
  }

  function Column(bits: seq<bool>): nat {
    Index(LngBits(bits))
  }

  function Row(bits: seq<bool>): nat {
    Index(LatBits(bits))
  }

  lemma OneMoreBit(bits: seq<bool>, b: bool)
    ensures var more, even := bits + [b], |bits| % 2 == 0;
            && BoxOf(more) == Halve(BoxOf(bits), even, b)
            && LngBits(more) == LngBits(bits) + (if even then [b] else [])
            && LatBits(more) == LatBits(bits) + if even then [] else [b]
  {
    assert (bits + [b])[..|bits|] == bits;
  }

  lemma OneMoreHalf(lo: real, w: real, bits: seq<bool>, b: bool)
    ensures Min(lo, w, bits + [b]) == Min(lo, w, bits) + if b then Width(w, |bits|) / 2.0 else 0.0
    ensures Min(lo, w, bits + []) == Min(lo, w, bits)
  {
    assert (bits + [b])[..|bits|] == bits && bits + [] == bits;
  }

  /** A box spans the cell of its bits on each axis. */
  ghost predicate Spans(box: Box, bits: seq<bool>) {
    && box.minLng == Min(-180.0, 360.0, LngBits(bits)) && box.maxLng == box.minLng + LngWidth(|bits|)
    && box.minLat == Min(-90.0, 180.0, LatBits(bits)) && box.maxLat == box.minLat + LatWidth(|bits|)
  }

  lemma HalfSpans(box: Box, bits: seq<bool>, b: bool)
    requires Spans(box, bits)
    ensures Spans(Halve(box, |bits| % 2 == 0, b), bits + [b])
  {
    OneMoreBit(bits, b);
    OneMoreHalf(-180.0, 360.0, LngBits(bits), b);
    OneMoreHalf(-90.0, 180.0, LatBits(bits), b);
  }

  /** The two axes are independent. */
  lemma {:induction false} BoxAxes(bits: seq<bool>)
    ensures Spans(BoxOf(bits), bits)
  {
    if bits == [] {
    } else {
      var rest, b := bits[..|bits| - 1], bits[|bits| - 1];
      assert bits == rest + [b];
      BoxAxes(rest);
      OneMoreBit(rest, b);
      HalfSpans(BoxOf(rest), rest, b);
    }
  }

  lemma {:induction false} PointAxes(lat: real, lng: real, n: nat)
    ensures OnAxes(PointBits(lat, lng, n), lat, lng)
  {
    if n == 0 {
    } else {
      var bits := PointBits(lat, lng, n - 1);
      PointAxes(lat, lng, n - 1);
      NextTurn(bits, lat, lng);
    }
  }

  lemma NextTurn(bits: seq<bool>, lat: real, lng: real)
    requires OnAxes(bits, lat, lng)
    ensures OnAxes(bits + [InUpperHalf(BoxOf(bits), |bits| % 2 == 0, lat, lng)], lat, lng)
  {
    BoxAxes(bits);
    if |bits| % 2 == 0 {
      LngTurn(BoxOf(bits), bits, lat, lng);
    } else {
      LatTurn(BoxOf(bits), bits, lat, lng);
    }
  }

  /** On each axis, the bits are those of the point's coordinate. */
  ghost predicate OnAxes(bits: seq<bool>, lat: real, lng: real) {
    && LngBits(bits) == Bits(-180.0, 360.0, lng, LngTurns(|bits|))
    && LatBits(bits) == Bits(-90.0, 180.0, lat, LatTurns(|bits|))
  }

  lemma LngTurn(box: Box, bits: seq<bool>, lat: real, lng: real)
    requires |bits| % 2 == 0 && OnAxes(bits, lat, lng) && Spans(box, bits)
    ensures OnAxes(bits + [InUpperHalf(box, true, lat, lng)], lat, lng)
  {
    var b, k := InUpperHalf(box, true, lat, lng), LngTurns(|bits|);
    Midway(box.minLng, box.maxLng, 360.0, k);
    NextBits(-180.0, 360.0, lng, k, LngBits(bits), b);
    OneMoreBit(bits, b);
    NothingAdded(LatBits(bits));
  }

  lemma LatTurn(box: Box, bits: seq<bool>, lat: real, lng: real)
    requires |bits| % 2 == 1 && OnAxes(bits, lat, lng) && Spans(box, bits)
    ensures OnAxes(bits + [InUpperHalf(box, false, lat, lng)], lat, lng)
  {
    var b, k := InUpperHalf(box, false, lat, lng), LatTurns(|bits|);
    Midway(box.minLat, box.maxLat, 180.0, k);
    NextBits(-90.0, 180.0, lat, k, LatBits(bits), b);
    OneMoreBit(bits, b);
    NothingAdded(LngBits(bits));
  }

  lemma {:induction false} AxesNameBits(a: seq<bool>, b: seq<bool>)
    requires |a| == |b| && LngBits(a) == LngBits(b) && LatBits(a) == LatBits(b)
    ensures a == b
  {
    if a == [] {
    } else {
      var n := |a| - 1;
      assert a == a[..n] + [a[n]] && b == b[..n] + [b[n]];
      OneMoreBit(a[..n], a[n]);
      OneMoreBit(b[..n], b[n]);
      LastParts(LngBits(a[..n]), LngBits(b[..n]), a[n], b[n]);
      LastParts(LatBits(a[..n]), LatBits(b[..n]), a[n], b[n]);
      AxesNameBits(a[..n], b[..n]);
    }
  }

  lemma LastParts(x: seq<bool>, y: seq<bool>, a: bool, b: bool)
    requires |x| == |y|
    ensures x + [a] == y + [b] ==> x == y && a == b
    ensures x + [] == y + [] ==> x == y
  {
    assert x == (x + [a])[..|x|] && y == (y + [b])[..|y|];
    assert (x + [a])[|x|] == a && (y + [b])[|y|] == b;
    assert x + [] == x && y + [] == y;
  }

  /** A cell is known by its column and its row. */
  lemma PlaceNamesBits(a: seq<bool>, b: seq<bool>)
    requires |a| == |b| && Column(a) == Column(b) && Row(a) == Row(b)
    ensures a == b
  {
    IndexNamesBits(LngBits(a), LngBits(b));
    IndexNamesBits(LatBits(a), LatBits(b));
    AxesNameBits(a, b);
  }

  // ------------------------------------------------------------ encode and decode

  lemma IndexAppend(bits: seq<bool>, b: bool)
    ensures Index(bits + [b]) == 2 * Index(bits) + if b then 1 else 0
  {
    assert (bits + [b])[..|bits|] == bits;
  }

  lemma BitsOfAppend(hash: Str, c: byte)
    requires IsHash(hash) && IsDigit(c)
    ensures IsHash(hash + [c]) && BitsOf(hash + [c]) == BitsOf(hash) + FiveBits(ValueOf(c))
  {
    assert (hash + [c])[..|hash|] == hash;
  }

  /** Half-way through a character: the bits so far are written out or in `ch`. */
  ghost predicate Encoding(bits: seq<bool>, out: Str, bit: nat, ch: nat) {
    && bit < 5 && |bits| == 5 * |out| + bit && IsHash(out)
    && BitsOf(out) + bits[5 * |out|..] == bits && ch == Index(bits[5 * |out|..])
  }

  method Encode(lat: real, lng: real, precision0: int) returns (out: Str)
    ensures var p := if precision0 < 1 then 1 else precision0;
            |out| == p && IsHash(out) && BitsOf(out) == PointBits(lat, lng, 5 * p)
  {
    var precision := if precision0 < 1 then 1 else precision0;
    var box, even, bit: nat, ch: nat := WORLD, true, 0, 0;
    out := [];
    ghost var bits: seq<bool> := [];
    while |out| < precision
      invariant |out| < precision || (|out| == precision && bit == 0)
      invariant Encoding(bits, out, bit, ch) && Follows(lat, lng, bits, box, even)
      decreases 5 * precision - |bits|
    {
      var upper := InUpperHalf(box, even, lat, lng);
      FollowsOn(lat, lng, bits, box, even);
      EncodeBit(bits, out, bit, ch, upper);
      bits := bits + [upper];
      box, even := Halve(box, even, upper), !even;
      ch := 2 * ch + if upper then 1 else 0;
      bit := bit + 1;
      if bit == 5 {
        out := out + [Digit(ch)];
        bit, ch := 0, 0;
      }
    }
    assert bits[5 * |out|..] == [] && BitsOf(out) + [] == BitsOf(out);
  }

  /** The box and the turn of the bits so far, which are the point's. */
  ghost predicate Follows(lat: real, lng: real, bits: seq<bool>, box: Box, even: bool) {
    bits == PointBits(lat, lng, |bits|) && IsCell(bits, box, even)
  }

  lemma FollowsOn(lat: real, lng: real, bits: seq<bool>, box: Box, even: bool)
    requires Follows(lat, lng, bits, box, even)
    ensures var upper := InUpperHalf(box, even, lat, lng);
      Follows(lat, lng, bits + [upper], Halve(box, even, upper), !even)
  {
    HalvedCell(bits, box, even, InUpperHalf(box, even, lat, lng));
  }

  lemma EncodeBit(bits: seq<bool>, out: Str, bit: nat, ch: nat, upper: bool)
    requires Encoding(bits, out, bit, ch)
    ensures var ch' := 2 * ch + if upper then 1 else 0;
            if bit == 4 then ch' < 32 && Encoding(bits + [upper], out + [Digit(ch')], 0, 0)
            else Encoding(bits + [upper], out, bit + 1, ch')
  {
    var tail := bits[5 * |out|..];
    assert (bits + [upper])[5 * |out|..] == tail + [upper];
    IndexAppend(tail, upper);
    assert BitsOf(out) + (tail + [upper]) == (BitsOf(out) + tail) + [upper];
    if bit == 4 {
      ValueFiveBits(tail + [upper]);
      DigitReads(Index(tail + [upper]));
      BitsOfAppend(out, Digit(Index(tail + [upper])));
      assert (bits + [upper])[5 * (|out| + 1)..] == [];
    }
  }

  method Decode(hash: Str) returns (r: Result<Box>)
    ensures r == if IsHash(hash) then Ok(BoxOf(BitsOf(hash))) else InvalidCharacter
  {
    var box, even := WORLD, true;
    for i := 0 to |hash|
      invariant IsHash(hash[..i]) && IsCell(BitsOf(hash[..i]), box, even)
    {
      assert hash[..i + 1] == hash[..i] + [hash[i]];
      if !IsDigit(hash[i]) {
        return InvalidCharacter;
      }
      BitsOfAppend(hash[..i], hash[i]);
      box, even := DecodeDigit(box, even, ValueOf(hash[i]), BitsOf(hash[..i]));
    }
    assert hash[..|hash|] == hash;
    r := Ok(box);
  }

  /** The mask of each of the five bits, high bit first. */
  function Mask(k: nat): nat {
    if k == 0 then 16 else if k == 1 then 8 else if k == 2 then 4 else if k == 3 then 2 else if k == 4 then 1 else 0
  }

  predicate IsSet(v: nat, mask: nat)
    requires mask > 0
  {
    v / mask % 2 == 1
  }

  lemma MaskedBit(v: nat, k: nat)
    requires k < 5
    ensures Mask(k) > 0 && IsSet(v, Mask(k)) == FiveBits(v)[k] && Mask(k + 1) == Mask(k) / 2
  {
    if k == 0 {
      assert Mask(k) == 16;
    } else if k == 1 {
      assert Mask(k) == 8;
    } else if k == 2 {
      assert Mask(k) == 4;
    } else if k == 3 {
      assert Mask(k) == 2;
    } else {
      assert Mask(k) == 1;
    }
  }

  /** The five bits of one character, high bit first. */
  method DecodeDigit(box0: Box, even0: bool, v: nat, ghost bits: seq<bool>) returns (box: Box, even: bool)
    requires v < 32 && IsCell(bits, box0, even0)
    ensures IsCell(bits + FiveBits(v), box, even)
  {
    box, even := box0, even0;
    var mask := 16;
    ghost var k := 0;
    NothingAdded(bits);
    while mask >= 1
      invariant k <= 5 && mask == Mask(k) && IsCell(bits + FiveBits(v)[..k], box, even)
      decreases mask
    {
      MaskedBit(v, k);
      var set_ := IsSet(v, mask);
      NextBit(bits, FiveBits(v), k);
      HalvedCell(bits + FiveBits(v)[..k], box, even, set_);
      box := Halve(box, even, set_);
      even := !even;
      mask := mask / 2;
      k := k + 1;
    }
    assert k == 5 && FiveBits(v)[..5] == FiveBits(v);
  }

  /** The cell of some bits, and whose turn it is to be halved. */
  ghost predicate IsCell(bits: seq<bool>, box: Box, even: bool) {
    box == BoxOf(bits) && even == (|bits| % 2 == 0)
  }

  lemma HalvedCell(bits: seq<bool>, box: Box, even: bool, upper: bool)
    requires IsCell(bits, box, even)
    ensures IsCell(bits + [upper], Halve(box, even, upper), !even)
  {
    OneMoreBit(bits, upper);
  }

  lemma NextBit(bits: seq<bool>, more: seq<bool>, k: nat)
    requires k < |more|
    ensures bits + more[..k + 1] == (bits + more[..k]) + [more[k]]
  {
    assert more[..k + 1] == more[..k] + [more[k]];
    Assoc(bits, more[..k], [more[k]]);
  }

  function Center(box: Box): (real, real) {
    ((box.minLat + box.maxLat) / 2.0, (box.minLng + box.maxLng) / 2.0)
  }

  /** Longitude first, the upper half counting as one: "u" is what lies north of 45 and less than
      45 east of the meridian. */
  lemma EncodingExample(lat: real, lng: real, hash: Str)
    requires 45.0 <= lat && 0.0 <= lng < 45.0 && hash == [117]
    ensures IsHash(hash) && BitsOf(hash) == PointBits(lat, lng, 5 * |hash|)
  {
    WalkOfExample(lat, lng, []);
    UIsTwentySix();
    WalkIsHash(lat, lng, [] + [true] + [true] + [false] + [true] + [false], BitsOf(hash));
  }

  lemma WalkIsHash(lat: real, lng: real, walk: seq<bool>, bits: seq<bool>)
    requires walk == PointBits(lat, lng, |walk|) && walk == bits
    ensures bits == PointBits(lat, lng, |bits|)
  {
  }

  lemma UIsTwentySix()
    ensures IsHash([117]) && BitsOf([117]) == [true, true, false, true, false]
  {
    BitsOfAppend([], 117);
    assert [] + [117] == [117] && BitsOf([]) == [] && ValueOf(117) == 26;
    assert FiveBits(26) == [true, true, false, true, false];
    NothingAdded(FiveBits(26));
  }

  /** East, north, west of 90, north of 45, west of 45. */
  lemma WalkOfExample(lat: real, lng: real, bits: seq<bool>)
    requires Follows(lat, lng, bits, WORLD, true) && 45.0 <= lat && 0.0 <= lng < 45.0
    ensures Follows(lat, lng, bits + [true] + [true] + [false] + [true] + [false], Box(45.0, 90.0, 0.0, 45.0), false)
  {
    Walked(lat, lng, bits, WORLD, true, true, Box(-90.0, 90.0, 0.0, 180.0));
    Walked(lat, lng, bits + [true], Box(-90.0, 90.0, 0.0, 180.0), false, true, Box(0.0, 90.0, 0.0, 180.0));
    var b2 := bits + [true] + [true];
    Walked(lat, lng, b2, Box(0.0, 90.0, 0.0, 180.0), true, false, Box(0.0, 90.0, 0.0, 90.0));
    Walked(lat, lng, b2 + [false], Box(0.0, 90.0, 0.0, 90.0), false, true, Box(45.0, 90.0, 0.0, 90.0));
    Walked(lat, lng, b2 + [false] + [true], Box(45.0, 90.0, 0.0, 90.0), true, false, Box(45.0, 90.0, 0.0, 45.0));
  }

  lemma Walked(lat: real, lng: real, bits: seq<bool>, box: Box, even: bool, upper: bool, half: Box)
    requires Follows(lat, lng, bits, box, even) && upper == InUpperHalf(box, even, lat, lng)
    requires half == Halve(box, even, upper)
    ensures Follows(lat, lng, bits + [upper], half, !even)
  {
    FollowsOn(lat, lng, bits, box, even);
  }

  /** The centre of a cell, by its row and column. */
  lemma CenterIsMiddle(bits: seq<bool>)
    ensures Center(BoxOf(bits)).0 == Middle(-90.0, 180.0, LatTurns(|bits|), Row(bits))
    ensures Center(BoxOf(bits)).1 == Middle(-180.0, 360.0, LngTurns(|bits|), Column(bits))
  {
    BoxAxes(bits);
    CellStarts(-180.0, 360.0, LngBits(bits));
    CellStarts(-90.0, 180.0, LatBits(bits));
  }

  /** Encoding the centre of a hash's cell at its own length gives the hash back. */
  lemma CenterEncodesBack(hash: Str, again: Str)
    requires IsHash(hash) && IsHash(again) && |again| == |hash|
    requires var (lat, lng) := Center(BoxOf(BitsOf(hash))); BitsOf(again) == PointBits(lat, lng, 5 * |hash|)
    ensures again == hash
  {
    var bits := BitsOf(hash);
    var (lat, lng) := Center(BoxOf(bits));
    CenterIsMiddle(bits);
    IndexInRange(LngBits(bits));
    IndexInRange(LatBits(bits));
    PointAxes(lat, lng, |bits|);
    MiddleFallsBack(-180.0, 360.0, LngTurns(|bits|), Column(bits));
    MiddleFallsBack(-90.0, 180.0, LatTurns(|bits|), Row(bits));
    PlaceNamesBits(BitsOf(again), bits);
    BitsNameHash(again, hash);
  }

  /** A point of the world lies in the cell of its hash. */
  lemma PointInItsBox(lat: real, lng: real, n: nat)
    requires -90.0 <= lat <= 90.0 && -180.0 <= lng <= 180.0
    ensures var box := BoxOf(PointBits(lat, lng, n)); box.minLat <= lat <= box.maxLat && box.minLng <= lng <= box.maxLng
  {
    var bits := PointBits(lat, lng, n);
    BoxAxes(bits);
    PointAxes(lat, lng, n);
    CellOf(-180.0, 360.0, lng, LngTurns(n));
    CellOf(-90.0, 180.0, lat, LatTurns(n));
    CellStarts(-180.0, 360.0, LngBits(bits));
    CellStarts(-90.0, 180.0, LatBits(bits));
  }

  // ------------------------------------------------------------------ neighbours

  function ClampLat(lat: real): real {
    if lat > 90.0 then 90.0 else if lat < -90.0 then -90.0 else lat
  }

  /** One turn of the globe at most. */
  function Wrapped(lng: real): real {
    if lng > 180.0 then lng - 360.0 else if lng < -180.0 then lng + 360.0 else lng
  }

  method WrapLng(lng0: real) returns (lng: real)
    ensures -180.0 <= lng <= 180.0
    ensures -540.0 <= lng0 <= 540.0 ==> lng == Wrapped(lng0)
  {
    lng := lng0;
    while lng > 180.0
      invariant lng == lng0 || (lng > -180.0 && lng <= lng0 - 360.0)
      invariant lng0 <= 540.0 ==> lng == lng0 || lng == lng0 - 360.0
      invariant lng < -180.0 ==> lng == lng0
      decreases lng
    {
      lng := lng - 360.0;
    }
    while lng < -180.0
      invariant lng <= 180.0 && (-540.0 <= lng0 <= 540.0 ==> lng == Wrapped(lng0) || lng == lng0 < -180.0)
      decreases -lng
    {
      lng := lng + 360.0;
    }
  }

  /** d times w, for one step forward, none, or one back. */
  function Times(d: int, w: real): real
    requires -1 <= d <= 1
  {
    if d == 1 then w else if d == -1 then -w else 0.0
  }

  /** The row d steps up, stopping at the poles. */
  function RowAt(r: nat, d: int, rows: nat): int {
    if r + d < 0 then 0 else if r + d >= rows then rows - 1 else r + d
  }

  /** The column d steps east, around the globe. */
  function ColumnAt(c: nat, d: int, columns: nat): int {
    if c + d < 0 then c + d + columns else if c + d >= columns then c + d - columns else c + d
  }

  /** x is d widths from the middle of cell j. */
  ghost predicate IsStep(lo: real, w: real, k: nat, j: nat, d: int, x: real) {
    -1 <= d <= 1 && j < Count(k) && x == Middle(lo, w, k, j) + Times(d, Width(w, k))
  }

  /** Where a step leads: to the middle of the cell d further, or off the interval. */
  ghost predicate Lands(lo: real, w: real, k: nat, j: nat, d: int, x: real) {
    && (0 <= j + d < Count(k) ==> lo < x < lo + w && x == Middle(lo, w, k, j + d))
    && (j + d == Count(k) ==> x == Middle(lo, w, k, 0) + w > lo + w)
    && (j + d == -1 ==> x == Middle(lo, w, k, Count(k) - 1) - w < lo)
  }

  lemma StepUp(lo: real, w: real, k: nat, j: nat, x: real)
    requires w > 0.0 && IsStep(lo, w, k, j, 1, x)
    ensures Lands(lo, w, k, j, 1, x)
  {
    if j + 1 < Count(k) {
      StepForth(lo, w, k, j, x);
    } else {
      StepPast(lo, w, k, x);
    }
  }

  lemma StepForth(lo: real, w: real, k: nat, j: nat, x: real)
    requires w > 0.0 && j + 1 < Count(k) && x == Middle(lo, w, k, j) + Width(w, k)
    ensures lo < x < lo + w && x == Middle(lo, w, k, j + 1)
  {
    MiddleNext(lo, w, k, j);
    MiddleFallsBack(lo, w, k, j + 1);
  }

  lemma StepPast(lo: real, w: real, k: nat, x: real)
    requires w > 0.0 && x == Middle(lo, w, k, Count(k) - 1) + Width(w, k)
    ensures x == Middle(lo, w, k, 0) + w > lo + w
  {
    MiddleAround(lo, w, k);
    MiddleFallsBack(lo, w, k, 0);
  }

  lemma StepDown(lo: real, w: real, k: nat, j: nat, x: real)
    requires w > 0.0 && IsStep(lo, w, k, j, -1, x)
    ensures Lands(lo, w, k, j, -1, x)
  {
    if j > 0 {
      StepBack(lo, w, k, j, x);
    } else {
      StepOff(lo, w, k, x);
    }
  }

  lemma StepBack(lo: real, w: real, k: nat, j: nat, x: real)
    requires w > 0.0 && 0 < j < Count(k) && x == Middle(lo, w, k, j) - Width(w, k)
    ensures lo < x < lo + w && x == Middle(lo, w, k, j - 1)
  {
    MiddleNext(lo, w, k, j - 1);
    MiddleFallsBack(lo, w, k, j - 1);
  }

  lemma StepOff(lo: real, w: real, k: nat, x: real)
    requires w > 0.0 && x == Middle(lo, w, k, 0) - Width(w, k)
    ensures x == Middle(lo, w, k, Count(k) - 1) - w < lo
  {
    MiddleAround(lo, w, k);
    MiddleFallsBack(lo, w, k, Count(k) - 1);
  }

  lemma NoStep(lo: real, w: real, k: nat, j: nat, x: real)
    requires w > 0.0 && IsStep(lo, w, k, j, 0, x)
    ensures Lands(lo, w, k, j, 0, x)
  {
    MiddleFallsBack(lo, w, k, j);
  }

  lemma StepLands(lo: real, w: real, k: nat, j: nat, d: int, x: real)
    requires w > 0.0 && IsStep(lo, w, k, j, d, x)
    ensures Lands(lo, w, k, j, d, x)
  {
    if d == 1 {
      StepUp(lo, w, k, j, x);
    } else if d == -1 {
      StepDown(lo, w, k, j, x);
    } else {
      NoStep(lo, w, k, j, x);
    }
  }

  /** A step of one cell north or south of a cell's centre. */
  lemma LatStep(k: nat, r: nat, d: int, x: real)
    requires -1 <= d <= 1 && r < Count(k) && Lands(-90.0, 180.0, k, r, d, x)
    ensures Index(Bits(-90.0, 180.0, ClampLat(x), k)) == RowAt(r, d, Count(k))
  {
    LatLands(k, r, d, x);
    ClampedRow(-90.0, 180.0, k, r, d, ClampLat(x));
  }

  lemma ClampedRow(lo: real, w: real, k: nat, r: nat, d: int, y: real)
    requires w > 0.0 && r < Count(k)
    requires y == if r + d < 0 then lo else if r + d >= Count(k) then lo + w else Middle(lo, w, k, r + d)
    ensures Index(Bits(lo, w, y, k)) == RowAt(r, d, Count(k))
  {
    if r + d < 0 {
      StartFallsFirst(lo, w, k);
    } else if r + d >= Count(k) {
      EndFallsLast(lo, w, y, k);
    } else {
      MiddleFallsBack(lo, w, k, r + d);
    }
  }

  lemma LatLands(k: nat, r: nat, d: int, x: real)
    requires -1 <= d <= 1 && r < Count(k) && Lands(-90.0, 180.0, k, r, d, x)
    ensures ClampLat(x) ==
      if r + d < 0 then -90.0 else if r + d >= Count(k) then 90.0 else Middle(-90.0, 180.0, k, r + d)
  {
  }

  lemma StartFallsFirst(lo: real, w: real, k: nat)
    requires w > 0.0
    ensures Index(Bits(lo, w, lo, k)) == 0
  {
    WidthPositive(w, k);
    FallsInCell(lo, w, lo, k, 0);
  }

  /** A step of one cell east or west, around the globe. */
  lemma LngStep(k: nat, c: nat, d: int, x: real)
    requires -1 <= d <= 1 && c < Count(k) && Lands(-180.0, 360.0, k, c, d, x)
    ensures -540.0 <= x <= 540.0 && Index(Bits(-180.0, 360.0, Wrapped(x), k)) == ColumnAt(c, d, Count(k))
  {
    var j := ColumnAt(c, d, Count(k));
    LngLands(k, c, d, x, j);
    MiddleFallsBack(-180.0, 360.0, k, j);
  }

  lemma LngLands(k: nat, c: nat, d: int, x: real, j: nat)
    requires -1 <= d <= 1 && c < Count(k) && Lands(-180.0, 360.0, k, c, d, x) && j == ColumnAt(c, d, Count(k))
    ensures j < Count(k) && -540.0 <= x <= 540.0 && Wrapped(x) == Middle(-180.0, 360.0, k, j)
  {
    MiddleFallsBack(-180.0, 360.0, k, j);
  }

  /** `n` is the hash of the cell d rows up and e columns east. */
  ghost predicate IsNeighbour(hash: Str, n: Str, d: int, e: int)
    requires IsHash(hash)
  {
    && IsHash(n) && |n| == |hash|
    && Row(BitsOf(n)) == RowAt(Row(BitsOf(hash)), d, Rows(5 * |hash|))
    && Column(BitsOf(n)) == ColumnAt(Column(BitsOf(hash)), e, Columns(5 * |hash|))
  }

  /** The empty hash is the whole world; a step from its centre leads to a pole or back,
      and the answer has one character. */
  ghost predicate IsStepOfWorld(n: Str, d: int) {
    IsHash(n) && |n| == 1 && -1 <= d <= 1 && BitsOf(n) == PointBits(Times(d, 90.0), 0.0, 5)
  }

  method NeighbourAt(hash: Str, d: int, e: int) returns (n: Str)
    requires IsHash(hash) && -1 <= d <= 1 && -1 <= e <= 1
    ensures hash != [] ==> IsNeighbour(hash, n, d, e)
    ensures hash == [] ==> IsStepOfWorld(n, d)
  {
    var decoded := Decode(hash);
    var lat := ClampLat(StepLat(decoded.value, d));
    var lng := WrapLng(StepLng(decoded.value, e));
    if hash == [] {
      StepsOfWorld(d, e);
    } else {
      CellOfStep(BitsOf(hash), d, e);
    }
    n := Encode(lat, lng, |hash|);
  }

  /** One cell's size from the centre of the cell. */
  function StepLat(box: Box, d: int): real
    requires -1 <= d <= 1
  {
    Center(box).0 + Times(d, box.maxLat - box.minLat)
  }

  function StepLng(box: Box, e: int): real
    requires -1 <= e <= 1
  {
    Center(box).1 + Times(e, box.maxLng - box.minLng)
  }

  lemma StepsOfWorld(d: int, e: int)
    requires -1 <= d <= 1 && -1 <= e <= 1
    ensures ClampLat(StepLat(WORLD, d)) == Times(d, 90.0)
    ensures -540.0 <= StepLng(WORLD, e) <= 540.0 && Wrapped(StepLng(WORLD, e)) == 0.0
  {
  }

  /** Where a step leads, as a cell. */
  lemma CellOfStep(bits: seq<bool>, d: int, e: int)
    requires -1 <= d <= 1 && -1 <= e <= 1
    ensures var lat, lng := StepLat(BoxOf(bits), d), StepLng(BoxOf(bits), e);
            var after := PointBits(ClampLat(lat), Wrapped(lng), |bits|);
            && -540.0 <= lng <= 540.0
            && Row(after) == RowAt(Row(bits), d, Rows(|bits|))
            && Column(after) == ColumnAt(Column(bits), e, Columns(|bits|))
  {
    var lat, lng := StepLat(BoxOf(bits), d), StepLng(BoxOf(bits), e);
    LatStepOfBox(bits, d);
    LngStepOfBox(bits, e);
    RowOfStep(bits, d, lat, Wrapped(lng));
    ColumnOfStep(bits, e, ClampLat(lat), lng);
  }

  /** A step from the centre of a cell's box is a step on the grid. */
  lemma LatStepOfBox(bits: seq<bool>, d: int)
    requires -1 <= d <= 1
    ensures IsStep(-90.0, 180.0, LatTurns(|bits|), Row(bits), d, StepLat(BoxOf(bits), d))
  {
    CenterIsMiddle(bits);
    BoxAxes(bits);
    IndexInRange(LatBits(bits));
  }

  lemma LngStepOfBox(bits: seq<bool>, e: int)
    requires -1 <= e <= 1
    ensures IsStep(-180.0, 360.0, LngTurns(|bits|), Column(bits), e, StepLng(BoxOf(bits), e))
  {
    CenterIsMiddle(bits);
    BoxAxes(bits);
    IndexInRange(LngBits(bits));
  }

  lemma RowOfStep(bits: seq<bool>, d: int, x: real, lng: real)
    requires IsStep(-90.0, 180.0, LatTurns(|bits|), Row(bits), d, x)
    ensures Row(PointBits(ClampLat(x), lng, |bits|)) == RowAt(Row(bits), d, Rows(|bits|))
  {
    StepLands(-90.0, 180.0, LatTurns(|bits|), Row(bits), d, x);
    LatStep(LatTurns(|bits|), Row(bits), d, x);
    PointAxes(ClampLat(x), lng, |bits|);
  }

  lemma ColumnOfStep(bits: seq<bool>, e: int, lat: real, x: real)
    requires IsStep(-180.0, 360.0, LngTurns(|bits|), Column(bits), e, x)
    ensures -540.0 <= x <= 540.0 &&
      Column(PointBits(lat, Wrapped(x), |bits|)) == ColumnAt(Column(bits), e, Columns(|bits|))
  {
    StepLands(-180.0, 360.0, LngTurns(|bits|), Column(bits), e, x);
    LngStep(LngTurns(|bits|), Column(bits), e, x);
    PointAxes(lat, Wrapped(x), |bits|);
  }

  /** The offsets of the eight cells around, in the order they are listed. */
  function Offset(k: nat): (int, int)
    requires k < 8
  {
    if k < 3 then (1, k - 1) else if k == 3 then (0, -1) else if k == 4 then (0, 1) else (-1, k - 6)
  }

  /** North to south, west to east, without the cell itself. */
  lemma OffsetsInOrder()
    ensures Offset(0) == (1, -1) && Offset(1) == (1, 0) && Offset(2) == (1, 1)
    ensures Offset(3) == (0, -1) && Offset(4) == (0, 1)
    ensures Offset(5) == (-1, -1) && Offset(6) == (-1, 0) && Offset(7) == (-1, 1)
  {
  }

  ghost predicate AreNeighbours(hash: Str, ns: seq<Str>)
    requires IsHash(hash)
  {
    |ns| == 8 && forall k :: 0 <= k < 8 ==> IsNeighbour(hash, ns[k], Offset(k).0, Offset(k).1)
  }

  ghost predicate AreStepsOfWorld(ns: seq<Str>) {
    |ns| == 8 && forall k :: 0 <= k < 8 ==> IsStepOfWorld(ns[k], Offset(k).0)
  }

  method Neighbors(hash: Str) returns (r: Result<seq<Str>>)
    ensures !IsHash(hash) ==> r == InvalidCharacter
    ensures IsHash(hash) ==> r.Ok? && if hash == [] then AreStepsOfWorld(r.value) else AreNeighbours(hash, r.value)
  {
    var decoded := Decode(hash);
    if decoded.InvalidCharacter? {
      return InvalidCharacter;
    }
    var out: seq<Str> := [];
    for k := 0 to 8
      invariant |out| == k
      invariant hash != [] ==> forall j :: 0 <= j < k ==> IsNeighbour(hash, out[j], Offset(j).0, Offset(j).1)
      invariant hash == [] ==> forall j :: 0 <= j < k ==> IsStepOfWorld(out[j], Offset(j).0)
    {
      var n := NeighbourAt(hash, Offset(k).0, Offset(k).1);
      out := out + [n];
    }
    r := Ok(out);
  }

  lemma {:induction false} EnoughTurns(n: nat)
    requires n >= 3
    ensures Columns(n) >= 4 && Rows(n) >= 2
  {
    if n > 3 {
      EnoughTurns(n - 1);
    } else {
      assert LngTurns(3) == 2 && LatTurns(3) == 1 by { assert LngTurns(2) == 1 && LatTurns(2) == 1; }
      assert Count(2) == 4 && Count(1) == 2;
    }
  }

  /** The eight differ from each other exactly when the cell touches no pole, and then they
      differ from the cell; at a pole the cell itself is among them. */
  lemma EightDistinct(hash: Str, ns: seq<Str>)
    requires IsHash(hash) && hash != [] && AreNeighbours(hash, ns)
    ensures (forall j, k :: 0 <= j < k < 8 ==> ns[j] != ns[k]) <==> 0 < Row(BitsOf(hash)) < Rows(5 * |hash|) - 1
    ensures hash !in ns <==> 0 < Row(BitsOf(hash)) < Rows(5 * |hash|) - 1
  {
    if 0 < Row(BitsOf(hash)) < Rows(5 * |hash|) - 1 {
      forall j, k | 0 <= j < k < 8 ensures ns[j] != ns[k] {
        TwoDistinct(hash, ns, j, k);
      }
      forall k | 0 <= k < 8 ensures ns[k] != hash {
        NotItself(hash, ns, k);
      }
    } else {
      var j, k, i := RepeatsAtPole(hash, ns);
      assert ns[j] == ns[k] && ns[i] == hash;
    }
  }

  lemma RepeatsAtPole(hash: Str, ns: seq<Str>) returns (j: nat, k: nat, i: nat)
    requires IsHash(hash) && AreNeighbours(hash, ns) && !(0 < Row(BitsOf(hash)) < Rows(5 * |hash|) - 1)
    ensures j < k < 8 && ns[j] == ns[k] && i < 8 && ns[i] == hash
  {
    IndexInRange(LatBits(BitsOf(hash)));
    if Row(BitsOf(hash)) == 0 {
      j, k, i := 3, 5, 6;
    } else {
      j, k, i := 0, 3, 1;
    }
    SameIfClamped(hash, ns, j, k);
    IsItself(hash, ns, i);
  }

  lemma SameIfClamped(hash: Str, ns: seq<Str>, j: nat, k: nat)
    requires IsHash(hash) && AreNeighbours(hash, ns) && j < k < 8 && Offset(j).1 == Offset(k).1
    requires var r, rows := Row(BitsOf(hash)), Rows(5 * |hash|);
      RowAt(r, Offset(j).0, rows) == RowAt(r, Offset(k).0, rows)
    ensures ns[j] == ns[k]
  {
    assert IsNeighbour(hash, ns[j], Offset(j).0, Offset(j).1) && IsNeighbour(hash, ns[k], Offset(k).0, Offset(k).1);
    SamePlace(ns[j], ns[k]);
  }

  /** A step beyond the pole stays in the cell. */
  lemma IsItself(hash: Str, ns: seq<Str>, k: nat)
    requires IsHash(hash) && AreNeighbours(hash, ns) && k < 8 && Offset(k).1 == 0
    requires RowAt(Row(BitsOf(hash)), Offset(k).0, Rows(5 * |hash|)) == Row(BitsOf(hash))
    ensures ns[k] == hash
  {
    assert IsNeighbour(hash, ns[k], Offset(k).0, Offset(k).1);
    IndexInRange(LngBits(BitsOf(hash)));
    SamePlace(ns[k], hash);
  }

  lemma NotItself(hash: Str, ns: seq<Str>, k: nat)
    requires IsHash(hash) && hash != [] && AreNeighbours(hash, ns) && k < 8
    requires 0 < Row(BitsOf(hash)) < Rows(5 * |hash|) - 1
    ensures ns[k] != hash
  {
    assert IsNeighbour(hash, ns[k], Offset(k).0, Offset(k).1);
    EnoughTurns(5 * |hash|);
    IndexInRange(LngBits(BitsOf(hash)));
    StepsAway(Row(BitsOf(hash)), Column(BitsOf(hash)), Rows(5 * |hash|), Columns(5 * |hash|), k);
  }

  lemma StepsAway(r: nat, c: nat, rows: nat, columns: nat, k: nat)
    requires 0 < r < rows - 1 && c < columns && columns >= 4 && k < 8
    ensures RowAt(r, Offset(k).0, rows) != r || ColumnAt(c, Offset(k).1, columns) != c
  {
  }

  lemma TwoDistinct(hash: Str, ns: seq<Str>, j: nat, k: nat)
    requires IsHash(hash) && hash != [] && AreNeighbours(hash, ns) && j < k < 8
    requires 0 < Row(BitsOf(hash)) < Rows(5 * |hash|) - 1
    ensures ns[j] != ns[k]
  {
    assert IsNeighbour(hash, ns[j], Offset(j).0, Offset(j).1) && IsNeighbour(hash, ns[k], Offset(k).0, Offset(k).1);
    EnoughTurns(5 * |hash|);
    IndexInRange(LngBits(BitsOf(hash)));
    PlacesDiffer(Row(BitsOf(hash)), Column(BitsOf(hash)), Rows(5 * |hash|), Columns(5 * |hash|), j, k);
  }

  lemma PlacesDiffer(r: nat, c: nat, rows: nat, columns: nat, j: nat, k: nat)
    requires 0 < r < rows - 1 && c < columns && columns >= 4 && j < k < 8
    ensures RowAt(r, Offset(j).0, rows) != RowAt(r, Offset(k).0, rows) ||
      ColumnAt(c, Offset(j).1, columns) != ColumnAt(c, Offset(k).1, columns)
  {
  }

  lemma SamePlace(a: Str, b: Str)
    requires IsHash(a) && IsHash(b) && |a| == |b| && Row(BitsOf(a)) == Row(BitsOf(b)) &&
      Column(BitsOf(a)) == Column(BitsOf(b))
    ensures a == b
  {
    PlaceNamesBits(BitsOf(a), BitsOf(b));
    BitsNameHash(a, b);
  }

  /** A neighbour's box is the cell's own, moved by whole cells. Past a pole it is not moved
      north or south; east or west it may come out one turn of the globe away. */
  lemma NeighbourBoxIsAdjacent(hash: Str, n: Str, d: int, e: int)
    requires IsHash(hash) && IsNeighbour(hash, n, d, e) && -1 <= d <= 1 && -1 <= e <= 1
    ensures var a, b := BoxOf(BitsOf(hash)), BoxOf(BitsOf(n));
            var r, rows, c, columns := Row(BitsOf(hash)), Rows(5 * |hash|), Column(BitsOf(hash)), Columns(5 * |hash|);
            && (0 <= r + d < rows ==> b.minLat == a.minLat + Times(d, LatWidth(5 * |hash|)))
            && (r + d == rows ==> a.maxLat == 90.0 && b.minLat == a.minLat)
            && (r + d == -1 ==> a.minLat == -90.0 && b.minLat == a.minLat)
            && b.maxLat - b.minLat == a.maxLat - a.minLat == LatWidth(5 * |hash|)
            && (0 <= c + e < columns ==> b.minLng == a.minLng + Times(e, LngWidth(5 * |hash|)))
            && (c + e == columns ==> a.maxLng == 180.0 && b.minLng == -180.0)
            && (c + e == -1 ==> a.minLng == -180.0 && b.maxLng == 180.0)
            && b.maxLng - b.minLng == a.maxLng - a.minLng == LngWidth(5 * |hash|)
  {
    LatNeighbour(BitsOf(hash), BitsOf(n), d);
    LngNeighbour(BitsOf(hash), BitsOf(n), e);
  }

  /** A cell's edges, by its row and its column. */
  lemma LatEdges(bits: seq<bool>)
    ensures BoxOf(bits).minLat == -90.0 + Steps(Row(bits), LatWidth(|bits|))
    ensures BoxOf(bits).maxLat == BoxOf(bits).minLat + LatWidth(|bits|)
  {
    BoxAxes(bits);
    CellStarts(-90.0, 180.0, LatBits(bits));
  }

  lemma LngEdges(bits: seq<bool>)
    ensures BoxOf(bits).minLng == -180.0 + Steps(Column(bits), LngWidth(|bits|))
    ensures BoxOf(bits).maxLng == BoxOf(bits).minLng + LngWidth(|bits|)
  {
    BoxAxes(bits);
    CellStarts(-180.0, 360.0, LngBits(bits));
  }

  lemma LatNeighbour(w: seq<bool>, v: seq<bool>, d: int)
    requires |w| == |v| && -1 <= d <= 1 && Row(v) == RowAt(Row(w), d, Rows(|w|))
    ensures var a, b, r, rows := BoxOf(w), BoxOf(v), Row(w), Rows(|w|);
            && (0 <= r + d < rows ==> b.minLat == a.minLat + Times(d, LatWidth(|w|)))
            && (r + d == rows ==> a.maxLat == 90.0 && b.minLat == a.minLat)
            && (r + d == -1 ==> a.minLat == -90.0 && b.minLat == a.minLat)
            && b.maxLat - b.minLat == a.maxLat - a.minLat == LatWidth(|w|)
  {
    LatEdges(w);
    LatEdges(v);
    IndexInRange(LatBits(w));
    RowStarts(Row(w), Row(v), d, LatTurns(|w|));
  }

  /** Rows start side by side, up to the poles. */
  lemma RowStarts(r: nat, r': nat, d: int, k: nat)
    requires -1 <= d <= 1 && r < Count(k) && r' == RowAt(r, d, Count(k))
    ensures 0 <= r + d < Count(k) ==>
      Steps(r', Width(180.0, k)) == Steps(r, Width(180.0, k)) + Times(d, Width(180.0, k))
    ensures r + d == Count(k) ==> Steps(r, Width(180.0, k)) + Width(180.0, k) == 180.0 && r' == r
    ensures r + d == -1 ==> Steps(r, Width(180.0, k)) == 0.0 && r' == r
  {
    WidthsFill(180.0, k);
    MovedSteps(r, d, Width(180.0, k));
  }

  lemma LngNeighbour(w: seq<bool>, v: seq<bool>, e: int)
    requires |w| == |v| && -1 <= e <= 1 && Column(v) == ColumnAt(Column(w), e, Columns(|w|))
    ensures var a, b, c, columns := BoxOf(w), BoxOf(v), Column(w), Columns(|w|);
            && (0 <= c + e < columns ==> b.minLng == a.minLng + Times(e, LngWidth(|w|)))
            && (c + e == columns ==> a.maxLng == 180.0 && b.minLng == -180.0)
            && (c + e == -1 ==> a.minLng == -180.0 && b.maxLng == 180.0)
            && b.maxLng - b.minLng == a.maxLng - a.minLng == LngWidth(|w|)
  {
    LngEdges(w);
    LngEdges(v);
    IndexInRange(LngBits(w));
    ColumnStarts(Column(w), Column(v), e, LngTurns(|w|));
  }

  /** Columns start side by side, and past the last comes the first. */
  lemma ColumnStarts(c: nat, c': nat, e: int, k: nat)
    requires -1 <= e <= 1 && c < Count(k) && c' == ColumnAt(c, e, Count(k))
    ensures 0 <= c + e < Count(k) ==>
      Steps(c', Width(360.0, k)) == Steps(c, Width(360.0, k)) + Times(e, Width(360.0, k))
    ensures c + e == Count(k) ==>
      Steps(c, Width(360.0, k)) + Width(360.0, k) == 360.0 && Steps(c', Width(360.0, k)) == 0.0
    ensures c + e == -1 ==> Steps(c, Width(360.0, k)) == 0.0 && Steps(c', Width(360.0, k)) + Width(360.0, k) == 360.0
  {
    WidthsFill(360.0, k);
    MovedSteps(c, e, Width(360.0, k));
  }

  lemma MovedSteps(j: nat, d: int, w: real)
    requires -1 <= d <= 1
    ensures j + d >= 0 ==> Steps(j + d, w) == Steps(j, w) + Times(d, w)
  {
    if d == 1 {
      assert Steps(j + 1, w) == Steps(j, w) + w;
    } else if d == -1 && j > 0 {
      assert Steps(j, w) == Steps(j - 1, w) + w;
    }
  }

  // --------------------------------------------------------------------- coverage

  /** Two points of one axis at most a cell apart are in the same or adjacent cells. */
  lemma NearCells(lo: real, w: real, k: nat, x: real, y: real)
    requires w > 0.0 && lo <= x <= y <= lo + w && y - x <= Width(w, k)
    ensures var i, j := Index(Bits(lo, w, x, k)), Index(Bits(lo, w, y, k)); i <= j <= i + 1
  {
    var i, j, c := Index(Bits(lo, w, x, k)), Index(Bits(lo, w, y, k)), Width(w, k);
    CellOf(lo, w, x, k);
    CellOf(lo, w, y, k);
    WidthPositive(w, k);
    if j < i {
      StepsApart(j, i, c);
    } else if j > i + 1 {
      StepsApart(i + 1, j, c);
    }
  }

  /** How far apart two longitudes are, the shorter way around. */
  function LngDistance(a: real, b: real): real {
    var d := if a <= b then b - a else a - b;
    if d <= 180.0 then d else 360.0 - d
  }

  /** One point on the antimeridian, written +180, the other just one cell's width east of it. */
  predicate AtSeam(a: real, b: real, width: real) {
    (a == 180.0 && b == -180.0 + width) || (b == 180.0 && a == -180.0 + width)
  }

  predicate LngNear(a: real, b: real, width: real) {
    LngDistance(a, b) <= width && !AtSeam(a, b, width)
  }

  /** Across the antimeridian: the first and the last column. */
  lemma NearAcross(k: nat, x: real, y: real)
    requires k >= 1 && -180.0 <= x < y <= 180.0 && y - x > 180.0 && LngNear(x, y, Width(360.0, k))
    ensures Index(Bits(-180.0, 360.0, x, k)) == 0 && Index(Bits(-180.0, 360.0, y, k)) == Count(k) - 1
  {
    var c := Width(360.0, k);
    WidthPositive(360.0, k);
    WidthsFill(360.0, k);
    assert Steps(Count(k), c) == Steps(Count(k) - 1, c) + c;
    assert x + 180.0 < c;
    FallsInCell(-180.0, 360.0, x, k, 0);
    if y < 180.0 {
      FallsInCell(-180.0, 360.0, y, k, Count(k) - 1);
    } else {
      EndFallsLast(-180.0, 360.0, y, k);
    }
  }

  /** The column of a nearby longitude is one of three. */
  lemma NearColumns(k: nat, x: real, y: real) returns (e: int)
    requires k >= 1 && -180.0 <= x <= 180.0 && -180.0 <= y <= 180.0 && LngNear(x, y, Width(360.0, k))
    ensures -1 <= e <= 1
    ensures Index(Bits(-180.0, 360.0, y, k)) == ColumnAt(Index(Bits(-180.0, 360.0, x, k)), e, Count(k))
  {
    var i: int, j: int := Index(Bits(-180.0, 360.0, x, k)), Index(Bits(-180.0, 360.0, y, k));
    IndexInRange(Bits(-180.0, 360.0, x, k));
    IndexInRange(Bits(-180.0, 360.0, y, k));
    if x <= y && y - x <= 180.0 {
      NearCells(-180.0, 360.0, k, x, y);
      e := j - i;
    } else if y < x && x - y <= 180.0 {
      NearCells(-180.0, 360.0, k, y, x);
      e := j - i;
    } else if x < y {
      NearAcross(k, x, y);
      e := -1;
    } else {
      NearAcross(k, y, x);
      e := 1;
    }
  }

  lemma NearRows(k: nat, x: real, y: real) returns (d: int)
    requires -90.0 <= x <= 90.0 && -90.0 <= y <= 90.0 && (if x <= y then y - x else x - y) <= Width(180.0, k)
    ensures -1 <= d <= 1
    ensures Index(Bits(-90.0, 180.0, y, k)) == RowAt(Index(Bits(-90.0, 180.0, x, k)), d, Count(k))
  {
    var i: int, j: int := Index(Bits(-90.0, 180.0, x, k)), Index(Bits(-90.0, 180.0, y, k));
    IndexInRange(Bits(-90.0, 180.0, x, k));
    IndexInRange(Bits(-90.0, 180.0, y, k));
    if x <= y {
      NearCells(-90.0, 180.0, k, x, y);
    } else {
      NearCells(-90.0, 180.0, k, y, x);
    }
    d := j - i;
  }

  /** The point's own cell and the eight around it. */
  ghost predicate IsArea(lat: real, lng: real, p: nat, out: seq<Str>) {
    && |out| == 9 && IsHash(out[0]) && |out[0]| == p && BitsOf(out[0]) == PointBits(lat, lng, 5 * p)
    && AreNeighbours(out[0], out[1..])
  }

  method SearchArea(lat: real, lng: real, precision: int) returns (out: seq<Str>)
    ensures IsArea(lat, lng, if precision < 1 then 1 else precision, out)
  {
    var center := Encode(lat, lng, precision);
    var neighbors := Neighbors(center);
    out := [center] + neighbors.value;
    assert out[1..] == neighbors.value;
  }

  /** The search area holds the cell of a point within one cell's size of the query, at
      the poles too, exactly when the two are not at the seam. */
  lemma AreaCovers(lat: real, lng: real, p: nat, out: seq<Str>, lat': real, lng': real, hash: Str)
    requires p >= 1 && IsArea(lat, lng, p, out)
    requires -90.0 <= lat <= 90.0 && -90.0 <= lat' <= 90.0 && -180.0 <= lng <= 180.0 && -180.0 <= lng' <= 180.0
    requires (if lat <= lat' then lat' - lat else lat - lat') <= LatWidth(5 * p)
    requires LngDistance(lng, lng') <= LngWidth(5 * p)
    requires IsHash(hash) && |hash| == p && BitsOf(hash) == PointBits(lat', lng', 5 * p)
    ensures hash in out <==> !AtSeam(lng, lng', LngWidth(5 * p))
  {
    PointAxes(lat, lng, 5 * p);
    PointAxes(lat', lng', 5 * p);
    EnoughTurns(5 * p);
    if AtSeam(lng, lng', LngWidth(5 * p)) {
      SeamColumns(LngTurns(5 * p), lng, lng');
      NotInArea(out, p, hash);
    } else {
      var d := NearRows(LatTurns(5 * p), lat, lat');
      var e := NearColumns(LngTurns(5 * p), lng, lng');
      InArea(out, p, hash, d, e);
    }
  }

  /** The area around (0, 180) at one character misses the point 45 degrees, one cell's
      width, to its east. */
  lemma SeamIsMissed(out: seq<Str>, hash: Str)
    requires IsArea(0.0, 180.0, 1, out)
    requires IsHash(hash) && |hash| == 1 && BitsOf(hash) == PointBits(0.0, -135.0, 5)
    ensures LngDistance(180.0, -135.0) == LngWidth(5) == 45.0 && hash !in out
  {
    OneCharacter();
    AreaCovers(0.0, 180.0, 1, out, 0.0, -135.0, hash);
  }

  lemma OneCharacter()
    ensures LngWidth(5) == 45.0 && LatWidth(5) == 45.0
  {
    assert LngTurns(3) == 2 && LatTurns(3) == 1 && LngTurns(4) == 2 && LatTurns(4) == 2;
    assert Width(360.0, 1) == 180.0 && Width(360.0, 2) == 90.0 && Width(180.0, 1) == 90.0;
  }

  /** At the seam the columns are the last and the second. */
  lemma SeamColumns(k: nat, x: real, y: real)
    requires Count(k) >= 4 && AtSeam(x, y, Width(360.0, k))
    ensures var i, j := Index(Bits(-180.0, 360.0, x, k)), Index(Bits(-180.0, 360.0, y, k));
            (i == Count(k) - 1 && j == 1) || (j == Count(k) - 1 && i == 1)
  {
    var c := Width(360.0, k);
    WidthPositive(360.0, k);
    WidthsFill(360.0, k);
    StepsApart(1, Count(k), c);
    assert Steps(1, c) == Steps(0, c) + c;
    EndFallsLast(-180.0, 360.0, 180.0, k);
    FallsInCell(-180.0, 360.0, -180.0 + c, k, 1);
  }

  lemma NotInArea(out: seq<Str>, p: nat, hash: Str)
    requires |out| == 9 && IsHash(out[0]) && |out[0]| == p && AreNeighbours(out[0], out[1..]) && IsHash(hash) &&
      |hash| == p
    requires AreFar(Column(BitsOf(out[0])), Column(BitsOf(hash)), Columns(5 * p))
    ensures hash !in out
  {
    NotAmong(out[0], out[1..], hash);
    HeadAndTail(out);
  }

  lemma NotAmong(hash: Str, ns: seq<Str>, far: Str)
    requires IsHash(hash) && AreNeighbours(hash, ns) && IsHash(far)
    requires AreFar(Column(BitsOf(hash)), Column(BitsOf(far)), Columns(5 * |hash|))
    ensures far != hash && far !in ns
  {
    forall k | 0 <= k < 8 ensures ns[k] != far {
      NotFarNeighbour(hash, ns[k], k, far);
    }
  }

  ghost predicate AreFar(i: nat, j: nat, n: nat) {
    n >= 4 && ((i == n - 1 && j == 1) || (j == n - 1 && i == 1))
  }

  lemma NotFarNeighbour(hash: Str, n: Str, k: nat, far: Str)
    requires k < 8 && IsHash(hash) && IsNeighbour(hash, n, Offset(k).0, Offset(k).1) && IsHash(far)
    requires AreFar(Column(BitsOf(hash)), Column(BitsOf(far)), Columns(5 * |hash|))
    ensures n != far
  {
    FarColumns(Column(BitsOf(hash)), Column(BitsOf(far)), Columns(5 * |hash|), Offset(k).1);
  }

  lemma FarColumns(i: nat, j: nat, n: nat, e: int)
    requires AreFar(i, j, n) && -1 <= e <= 1
    ensures ColumnAt(i, e, n) != j
  {
  }

  lemma OffsetOf(d: int, e: int) returns (k: nat)
    requires -1 <= d <= 1 && -1 <= e <= 1 && (d != 0 || e != 0)
    ensures k < 8 && Offset(k) == (d, e)
  {
    k := if d == 1 then e + 1 else if d == 0 then (if e == -1 then 3 else 4) else e + 6;
  }

  lemma InArea(out: seq<Str>, p: nat, hash: Str, d: int, e: int)
    requires |out| == 9 && IsHash(out[0]) && |out[0]| == p && AreNeighbours(out[0], out[1..])
    requires -1 <= d <= 1 && -1 <= e <= 1 && IsNeighbour(out[0], hash, d, e)
    ensures hash in out
  {
    if d == 0 && e == 0 {
      IndexInRange(LatBits(BitsOf(out[0])));
      IndexInRange(LngBits(BitsOf(out[0])));
      SamePlace(hash, out[0]);
    } else {
      var k := OffsetOf(d, e);
      assert out[1..][k] == out[1 + k] && IsNeighbour(out[0], out[1..][k], Offset(k).0, Offset(k).1);
      SamePlace(hash, out[1 + k]);
    }
  }
}
