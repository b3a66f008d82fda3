/** The Protocol Buffers wire format of an order, written and parsed by hand.

    "Base 128 Varints" and "Message Structure" of the Protocol Buffers Encoding
    specification give the format. `|=` and `<<` on bits that do not overlap are
    written as `+` and `*`; what is shifted past 64 bits is cut off. */
module Wire {
  import opened ByteStrings
  import opened IntWidths

  type uint64 = x: int | 0 <= x < 0x1_0000_0000_0000_0000
  type int64 = x: int | -0x8000_0000_0000_0000 <= x < 0x8000_0000_0000_0000

  datatype Parsed<T> = Parsed(value: T, size: nat) | Failed(error: Error)
  datatype Error = Truncated | VarintOverflow | BadWireType(wireType: nat)

  // ------------------------------------------------------------------- varints

  /** Seven bits a byte, low bits first, the top bit set on all but the last. */
  function Varint(v: nat): (b: Str)
    ensures b != []
  {
    if v < 128 then [v] else [v % 128 + 128] + Varint(v / 128)
  }

  method AppendVarint(b: Str, v: uint64) returns (r: Str)
    ensures r == b + Varint(v)
  {
    r := b;
    var w: nat := v;
    while w >= 128
      invariant r + Varint(w) == b + Varint(v)
    {
      assert r + Varint(w) == r + [w % 128 + 128] + Varint(w / 128);
      r := r + [w % 128 + 128];
      w := w / 128;
    }
    r := r + [w];
  }

  /** The bytes up to the first without the top bit; 0 if there is none. */
  function VarintLength(b: Str): (n: nat)
    ensures n <= |b|
  {
    if b == [] then 0
    else if b[0] < 128 then 1
    else if VarintLength(b[1..]) == 0 then 0 else VarintLength(b[1..]) + 1
  }

  lemma {:induction false} VarintEnds(b: Str, i: nat)
    requires i <= |b| && forall j :: 0 <= j < i ==> b[j] >= 128
    ensures i < |b| && b[i] < 128 ==> VarintLength(b) == i + 1
    ensures i == |b| ==> VarintLength(b) == 0
    ensures VarintLength(b) == 0 || VarintLength(b) > i
  {
    if i == 0 {
    } else {
      VarintEnds(b[1..], i - 1);
    }
  }

  /** The number that seven-bit groups, low first, stand for. */
  function Payload(b: Str): nat {
    if b == [] then 0 else b[0] as int % 128 + 128 * Payload(b[1..])
  }

  function ReadVarint(b: Str): (r: Parsed<uint64>)
    ensures r.Parsed? ==> 0 < r.size <= |b|
  {
    var n := VarintLength(b);
    if 0 < n <= 10 then Parsed(Payload(b[..n]) % TWO_64, n)
    else if |b| > 10 then Failed(VarintOverflow) else Failed(Truncated)
  }

  function Pow128(i: nat): nat {
    if i == 0 then 1 else 128 * Pow128(i - 1)
  }

  lemma {:induction false} PayloadGrows(b: Str, c: byte)
    ensures Payload(b + [c]) == Payload(b) + c % 128 * Pow128(|b|)
    ensures Payload(b) < Pow128(|b|)
  {
    if b == [] {
      assert [c][1..] == [];
    } else {
      PayloadGrows(b[1..], c);
      assert (b + [c])[1..] == b[1..] + [c];
      assert Pow128(|b|) == 128 * Pow128(|b[1..]|);
      Regroup(c % 128, Pow128(|b[1..]|));
    }
  }

  lemma Regroup(x: nat, p: nat)
    ensures 128 * (x * p) == x * (128 * p)
  {
  }

  method ConsumeVarint(b: Str) returns (r: Parsed<uint64>)
    ensures r == ReadVarint(b)
  {
    var v: nat, scale: nat := 0, 1;
    for i := 0 to |b|
      invariant i <= 10 && (forall j :: 0 <= j < i ==> b[j] >= 128)
      invariant scale == Pow128(i) && v == Payload(b[..i]) % TWO_64
    {
      if i > 9 {
        VarintEnds(b, i);
        return Failed(VarintOverflow);
      }
      var c := b[i];
      ghost var before := v;
      v := v + c % 128 * scale % TWO_64;
      VarintStep(b, i, before);
      if c < 128 {
        VarintEnds(b, i);
        return Parsed(v, i + 1);
      }
      scale := scale * 128;
    }
    VarintEnds(b, |b|);
    return Failed(Truncated);
  }

  /** Adding a group never carries: only the tenth can reach past 64 bits, and then it is cut. */
  lemma VarintStep(b: Str, i: nat, v: nat)
    requires i < |b| && i <= 9 && v == Payload(b[..i]) % TWO_64
    ensures v + b[i] % 128 * Pow128(i) % TWO_64 == Payload(b[..i + 1]) % TWO_64
  {
    assert b[..i + 1] == b[..i] + [b[i]];
    PayloadGrows(b[..i], b[i]);
    PowersTo9();
    if i == 9 {
      TenthGroup(Payload(b[..i]), b[i] % 128);
    } else {
      PowMonotone(i, 8);
      NoCarry(Payload(b[..i]), b[i] % 128, Pow128(i));
    }
  }

  lemma NoCarry(low: nat, c: nat, p: nat)
    requires low < p <= 0x100_0000_0000_0000 && c < 128
    ensures low % TWO_64 + c * p % TWO_64 == (low + c * p) % TWO_64
  {
    SmallProduct(c, p);
    NoWrap(low, c * p);
  }

  lemma {:induction false} SmallProduct(c: nat, p: nat)
    requires c < 128
    ensures c * p <= 127 * p
  {
    assert (127 - c) * p >= 0;
  }

  lemma NoWrap(a: nat, b: nat)
    requires a + b < TWO_64
    ensures a % TWO_64 + b % TWO_64 == (a + b) % TWO_64
  {
  }

  lemma TenthGroup(low: nat, c: nat)
    requires low < TWO_63 && c < 128
    ensures low % TWO_64 + c * TWO_63 % TWO_64 == (low + c * TWO_63) % TWO_64
  {
    assert c * TWO_63 == c / 2 * TWO_64 + c % 2 * TWO_63;
  }

  lemma PowersTo9()
    ensures Pow128(0) == 1 && Pow128(1) == 0x80 && Pow128(2) == 0x4000 && Pow128(3) == 0x20_0000
    ensures Pow128(4) == 0x1000_0000 && Pow128(5) == 0x8_0000_0000 && Pow128(6) == 0x400_0000_0000
    ensures Pow128(7) == 0x2_0000_0000_0000 && Pow128(8) == 0x100_0000_0000_0000 && Pow128(9) == TWO_63
  {
    assert Pow128(3) == 128 * Pow128(2);
    assert Pow128(5) == 128 * Pow128(4);
    assert Pow128(7) == 128 * Pow128(6);
    assert Pow128(9) == 128 * Pow128(8);
  }

  /** A varint reads back, and what follows it does not matter. */
  lemma {:induction false} VarintReads(v: nat, rest: Str)
    ensures VarintLength(Varint(v) + rest) == |Varint(v)| && Payload(Varint(v)) == v
    ensures Pow128(|Varint(v)| - 1) <= v || v == 0
  {
    var b := Varint(v) + rest;
    if v >= 128 {
      VarintReads(v / 128, rest);
      assert b[1..] == Varint(v / 128) + rest;
      assert Varint(v)[1..] == Varint(v / 128);
    } else {
      assert Varint(v)[1..] == [];
    }
  }

  lemma VarintRoundTrip(v: uint64, rest: Str)
    ensures ReadVarint(Varint(v) + rest) == Parsed(v, |Varint(v)|)
  {
    VarintReads(v, rest);
    AtMostTen(v);
    assert (Varint(v) + rest)[..|Varint(v)|] == Varint(v);
  }

  lemma AtMostTen(v: uint64)
    ensures |Varint(v)| <= 10
  {
    VarintReads(v, []);
    if |Varint(v)| > 10 {
      PowersTo9();
      assert Pow128(10) == 128 * Pow128(9);
      PowMonotone(10, |Varint(v)| - 1);
    }
  }

  lemma {:induction false} PowMonotone(i: nat, j: nat)
    requires i <= j
    ensures Pow128(i) <= Pow128(j)
  {
    if i < j {
      PowMonotone(i, j - 1);
    }
  }

  /** The parse of a varint looks at nothing past its end. */
  lemma {:induction false} VarintLengthLocal(b: Str, rest: Str)
    requires VarintLength(b) > 0
    ensures VarintLength(b[..VarintLength(b)] + rest) == VarintLength(b)
  {
    var n := VarintLength(b);
    if b[0] >= 128 {
      VarintLengthLocal(b[1..], rest);
      assert (b[..n] + rest)[1..] == b[1..][..n - 1] + rest;
    }
  }

  lemma ReadVarintLocal(b: Str, k: nat, rest: Str)
    requires ReadVarint(b).Parsed? && ReadVarint(b).size <= k <= |b|
    ensures ReadVarint(b[..k] + rest) == ReadVarint(b)
  {
    var n := ReadVarint(b).size;
    VarintLengthLocal(b, b[n..k] + rest);
    assert b[..k] + rest == b[..n] + (b[n..k] + rest);
    assert (b[..k] + rest)[..n] == b[..n];
  }

  /** How many bits a number takes. */
  function BitLength(v: nat): nat {
    if v == 0 then 0 else 1 + BitLength(v / 2)
  }

  function VarintSize(v: nat): nat {
    if v == 0 then 1 else (BitLength(v) + 6) / 7
  }

  /** The size computed from the bit length is the size written. */
  lemma {:induction false} VarintSizeIsLength(v: nat)
    ensures VarintSize(v) == |Varint(v)|
  {
    if v < 128 {
      assert Pow2(7) == 128 by { assert Pow2(4) == 16; }
      BitLengthBelow(v, 7);
    } else {
      VarintSizeIsLength(v / 128);
      SevenHalves(v);
    }
  }

  function Pow2(k: nat): nat {
    if k == 0 then 1 else 2 * Pow2(k - 1)
  }

  lemma {:induction false} BitLengthBelow(v: nat, k: nat)
    requires v < Pow2(k)
    ensures BitLength(v) <= k
  {
    if v == 0 {
    } else {
      BitLengthBelow(v / 2, k - 1);
    }
  }

  lemma SevenHalves(v: nat)
    requires v >= 128
    ensures BitLength(v) == BitLength(v / 128) + 7
  {
    var a1 := v / 2; var a2 := a1 / 2; var a3 := a2 / 2; var a4 := a3 / 2; var a5 := a4 / 2; var a6 := a5 / 2;
    assert BitLength(v) == 1 + BitLength(a1) && BitLength(a1) == 1 + BitLength(a2);
    assert BitLength(a2) == 1 + BitLength(a3) && BitLength(a3) == 1 + BitLength(a4);
    assert BitLength(a4) == 1 + BitLength(a5) && BitLength(a5) == 1 + BitLength(a6);
    assert a6 / 2 == v / 128;
  }

  // ------------------------------------------------------------------ byte by byte

  /** A number without its low i groups of seven bits. */
  function Shifted(v: nat, i: nat): nat {
    if i == 0 then v else Shifted(v / 128, i - 1)
  }

  /** Byte i holds group i of seven bits, low groups first, and its top bit says whether more follow. */
  lemma {:induction false} VarintGroups(v: nat, i: nat)
    requires i < |Varint(v)|
    ensures Varint(v)[i] == Shifted(v, i) % 128 + if i < |Varint(v)| - 1 then 128 else 0
    ensures Shifted(v, |Varint(v)| - 1) < 128
  {
    if v < 128 {
    } else if i == 0 {
      VarintGroups(v / 128, 0);
    } else {
      VarintGroups(v / 128, i - 1);
    }
  }

  /** The examples of the specification's section "Base 128 Varints", and some at the edges. */
  lemma VarintExamples()
    ensures Varint(0) == [0] && Varint(1) == [1] && Varint(127) == [127] && Varint(128) == [128, 1]
    ensures Varint(150) == [0x96, 0x01] && Varint(300) == [0xac, 0x02]
  {
  }

  /** Sixty-four ones take ten bytes. */
  lemma WidestVarint()
    ensures Varint(0xffff_ffff_ffff_ffff) == [255, 255, 255, 255, 255, 255, 255, 255, 255, 1]
  {
    AllOnes(9);
    assert Ones(3) == 0x3f_ffff by { assert Ones(2) == 0x7fff; }
    assert Ones(6) == 0x7ff_ffff_ffff by { assert Ones(4) == 0x1fff_ffff; }
    assert Ones(9) == 0xffff_ffff_ffff_ffff by { assert Ones(7) == 0x3_ffff_ffff_ffff; }
  }

  /** 7 n + 1 ones in binary. */
  function Ones(n: nat): nat {
    if n == 0 then 1 else Ones(n - 1) * 128 + 127
  }

  lemma {:induction false} AllOnes(n: nat)
    ensures Ones(n) > 0 && Varint(Ones(n)) == seq(n, _ => 255) + [1]
  {
    if n == 0 {
    } else {
      AllOnes(n - 1);
      assert Varint(Ones(n)) == [255] + Varint(Ones(n - 1));
    }
  }

  ghost predicate AllGoOn(b: Str, n: nat)
    requires n <= |b|
  {
    forall j :: 0 <= j < n ==> b[j] >= 128
  }

  /** When a varint is read, and which error there is when none is. */
  lemma VarintVerdict(b: Str)
    ensures ReadVarint(b).Parsed? <==> exists n :: 0 <= n < |b| && n < 10 && b[n] < 128 && AllGoOn(b, n)
    ensures ReadVarint(b).Parsed? ==> var n := ReadVarint(b).size; n <= 10 && b[n - 1] < 128 && AllGoOn(b, n - 1)
    ensures ReadVarint(b) == Failed(Truncated) <==> |b| <= 10 && AllGoOn(b, |b|)
    ensures ReadVarint(b) == Failed(VarintOverflow) <==> |b| > 10 && AllGoOn(b, 10)
  {
    LengthEnds(b);
    forall n | 0 <= n < |b| && b[n] < 128 && AllGoOn(b, n) ensures VarintLength(b) == n + 1 {
      VarintEnds(b, n);
    }
    if AllGoOn(b, |b|) {
      VarintEnds(b, |b|);
    }
    if |b| > 10 && AllGoOn(b, 10) {
      VarintEnds(b, 10);
    }
  }

  lemma {:induction false} LengthEnds(b: Str)
    ensures var n := VarintLength(b);
            if n == 0 then AllGoOn(b, |b|) else b[n - 1] < 128 && AllGoOn(b, n - 1)
  {
    if b == [] || b[0] < 128 {
    } else {
      LengthEnds(b[1..]);
      var rest, n := b[1..], VarintLength(b);
      assert forall j :: 1 <= j < |b| ==> b[j] == rest[j - 1];
    }
  }
}
