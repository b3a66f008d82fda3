/** Fixed-width little-endian numbers; what does not fit is cut off. */
module LittleEndian {
  import opened ByteStrings
  import opened IntWidths

  function PutUint32(n: nat): (b: Str)
    ensures |b| == 4
  {
    [n % 256, n / 256 % 256, n / 0x1_0000 % 256, n / 0x100_0000 % 256]
  }

  function Uint32(b: Str): (n: nat)
    requires |b| == 4
    ensures n < TWO_32
  {
    b[0] as nat + 256 * (b[1] as nat) + 0x1_0000 * (b[2] as nat) + 0x100_0000 * (b[3] as nat)
  }

  lemma Uint32Reads(n: nat)
    ensures Uint32(PutUint32(n)) == n % TWO_32
  {
    var q0 := n / 256;
    var q1 := q0 / 256;
    var q2 := q1 / 256;
    assert n / 0x1_0000 == q1 && n / 0x100_0000 == q2;
    assert n == n % 256 + 256 * (q0 % 256 + 256 * (q1 % 256 + 256 * (q2 % 256 + 256 * (q2 / 256))));
    var low := n % 256 + 256 * (q0 % 256) + 0x1_0000 * (q1 % 256) + 0x100_0000 * (q2 % 256);
    assert n == low + TWO_32 * (q2 / 256) && 0 <= low < TWO_32;
  }

  lemma Uint32Writes(b: Str)
    requires |b| == 4
    ensures PutUint32(Uint32(b)) == b
  {
    var q1: nat := b[2] as nat + 256 * (b[3] as nat);
    var q0: nat := b[1] as nat + 256 * q1;
    assert Uint32(b) == b[0] as nat + 256 * q0;
    Digit(b[0], q0);
    Digit(b[1], q1);
    Digit(b[2], b[3]);
    Quotients(Uint32(b));
  }

  /** The last of some digits to the base 256, and the number without it. */
  lemma Digit(d: byte, q: nat)
    ensures (d as nat + 256 * q) % 256 == d && (d as nat + 256 * q) / 256 == q
  {
  }

  lemma Quotients(n: nat)
    ensures n / 0x1_0000 == n / 256 / 256 && n / 0x100_0000 == n / 256 / 256 / 256
  {
  }

  function PutUint64(n: nat): (b: Str)
    ensures |b| == 8
  {
    PutUint32(n) + PutUint32(n / TWO_32)
  }

  function Uint64(b: Str): (n: nat)
    requires |b| == 8
    ensures n < TWO_64
  {
    Uint32(b[..4]) + TWO_32 * Uint32(b[4..])
  }

  lemma Uint64Reads(n: nat)
    requires n < TWO_64
    ensures Uint64(PutUint64(n)) == n
  {
    Uint32Reads(n);
    Uint32Reads(n / TWO_32);
    Halves(n);
    assert PutUint64(n)[..4] == PutUint32(n) && PutUint64(n)[4..] == PutUint32(n / TWO_32);
  }

  lemma Halves(n: nat)
    requires n < TWO_64
    ensures n / TWO_32 % TWO_32 == n / TWO_32 && n % TWO_32 + TWO_32 * (n / TWO_32) == n
  {
  }

  lemma Uint64Writes(b: Str)
    requires |b| == 8
    ensures PutUint64(Uint64(b)) == b
  {
    var low, high := Uint32(b[..4]), Uint32(b[4..]);
    Uint32Writes(b[..4]);
    Uint32Writes(b[4..]);
    LowHalfWrites(low, high);
    assert Uint64(b) / TWO_32 == high;
    assert b == b[..4] + b[4..];
  }

  /** What is above 32 bits does not show in the low half. */
  lemma LowHalfWrites(low: nat, high: nat)
    requires low < TWO_32
    ensures PutUint32(low + TWO_32 * high) == PutUint32(low)
  {
    var h2 := 256 * high;
    var h1 := 256 * h2;
    var h0 := 256 * h1;
    assert low + TWO_32 * high == low + 256 * h0;
    Raised(low, h0);
    Raised(low / 256, h1);
    Raised(low / 256 / 256, h2);
    Raised(low / 256 / 256 / 256, high);
    Quotients(low);
    Quotients(low + 256 * h0);
  }

  lemma Raised(x: nat, y: nat)
    ensures (x + 256 * y) % 256 == x % 256 && (x + 256 * y) / 256 == x / 256 + y
  {
  }

  /** Byte i of a number, the lowest first. */
  function Byte(n: nat, i: nat): byte {
    if i == 0 then n % 256 else Byte(n / 256, i - 1)
  }

  lemma Bytes32(n: nat)
    ensures forall i :: 0 <= i < 4 ==> PutUint32(n)[i] == Byte(n, i)
  {
    Quotients(n);
    FirstBytes(n);
  }

  lemma FirstBytes(n: nat)
    ensures Byte(n, 0) == n % 256 && Byte(n, 1) == n / 256 % 256
    ensures Byte(n, 2) == n / 256 / 256 % 256 && Byte(n, 3) == n / 256 / 256 / 256 % 256
  {
    assert Byte(n, 2) == Byte(n / 256, 1);
    assert Byte(n, 3) == Byte(n / 256, 2) == Byte(n / 256 / 256, 1);
  }

  lemma Bytes64(n: nat)
    ensures forall i :: 0 <= i < 8 ==> PutUint64(n)[i] == Byte(n, i)
  {
    Bytes32(n);
    Bytes32(n / TWO_32);
    forall i | 4 <= i < 8 ensures Byte(n, i) == Byte(n / TWO_32, i - 4) {
      SkipBytes(n, i);
    }
  }

  lemma SkipBytes(n: nat, i: nat)
    requires i >= 4
    ensures Byte(n, i) == Byte(n / TWO_32, i - 4)
  {
    assert Byte(n, i) == Byte(n / 256, i - 1) == Byte(n / 256 / 256, i - 2);
    assert Byte(n / 256 / 256, i - 2) == Byte(n / 256 / 256 / 256, i - 3) == Byte(n / 256 / 256 / 256 / 256, i - 4);
    assert n / 256 / 256 / 256 / 256 == n / TWO_32;
  }

  /** The low bytes of a number are those of what fits in 32 bits of it. */
  lemma LowBytes(n: nat)
    ensures forall i :: 0 <= i < 4 ==> Byte(n % TWO_32, i) == Byte(n, i)
  {
    Bytes32(n % TWO_32);
    Bytes32(n);
    LowHalfWrites(n % TWO_32, n / TWO_32);
  }

  lemma ByteExample()
    ensures PutUint32(0x0403_0201) == [1, 2, 3, 4]
  {
  }

  lemma SliceOfSlice(file: Str, pos: nat, n: nat, a: nat, b: nat)
    requires pos + n <= |file| && a <= b <= n
    ensures file[pos..pos + n][a..b] == file[pos + a..pos + b]
  {
    var left, right := file[pos..pos + n][a..b], file[pos + a..pos + b];
    assert |left| == |right| && forall k :: 0 <= k < b - a ==> left[k] == right[k];
  }
}
