/**
 * Bytes and the bit order of the packed codec in
 * assignment-1/question-7/question-7-testing.cpp: `encode` fills each byte from
 * its most significant bit down, and `decode` reads bit 7 first.
 */
module BitPacking {

  type byte = bv8

  /**
   * Bit `i` of `b`, counted from the least significant, tested against its
   * mask; `BitAtShift` shows this is `(b >> i) & 1` as `decode` computes it.
   */
  function BitAt(b: byte, i: nat): bool
    requires i < 8
  {
    b & Mask(7 - i) != 0
  }

  /** The eight bits of a byte in the order `decode` consumes them, bit 7 first. */
  function ByteBits(b: byte): (bits: seq<bool>)
    ensures |bits| == 8
  {
    seq(8, k requires 0 <= k < 8 => BitAt(b, 7 - k))
  }

  /** The bit stream a byte vector carries: each byte's bits, bit 7 first, bytes in order. */
  function Unpack(bytes: seq<byte>): (bits: seq<bool>)
    ensures |bits| == 8 * |bytes|
  {
    if bytes == [] then [] else Unpack(bytes[..|bytes| - 1]) + ByteBits(bytes[|bytes| - 1])
  }

  /**
   * The byte `encode` has built after writing `bits` into a cleared byte: the
   * k-th bit written sets bit 7 - k (`currentByte |= 1 << (7 - bitPos)` for a '1').
   */
  function ByteOf(bits: seq<bool>): byte
    requires |bits| <= 8
  {
    if bits == [] then 0
    else ByteOf(bits[..|bits| - 1]) | (if bits[|bits| - 1] then Mask(|bits| - 1) else 0)
  }

  /** A run of `n` clear bits: the padding the last byte of an encoding carries. */
  function Zeros(n: nat): (z: seq<bool>)
    ensures |z| == n && forall k :: 0 <= k < n ==> !z[k]
  {
    if n == 0 then [] else Zeros(n - 1) + [false]
  }

  /** Number of padding bits needed to fill the last byte of a `len`-bit stream. */
  function PadLength(len: nat): (p: nat)
    ensures p < 8 && (len + p) % 8 == 0
  {
    (8 - len % 8) % 8
  }

  /** The mask `encode` ORs in for bit position `j`, `1 << (7 - j)`, spelled out per position. */
  function Mask(j: nat): byte
    requires j < 8
  {
    match j
    case 0 => 0x80 case 1 => 0x40 case 2 => 0x20 case 3 => 0x10
    case 4 => 0x08 case 5 => 0x04 case 6 => 0x02 case _ => 0x01
  }

  /** `Mask(j)` is the shifted one bit `encode` ORs in at position `j`. */
  lemma MaskShift(j: nat)
    requires j < 8
    ensures Mask(j) == (1 as byte) << (7 - j)
  {
    match j
    case 0 => case 1 => case 2 => case 3 =>
    case 4 => case 5 => case 6 => case _ =>
  }

  /** `BitAt` is the shift-and-mask read of `decode`. */
  lemma BitAtShift(b: byte, i: nat)
    requires i < 8
    ensures BitAt(b, i) == ((b >> i) & 1 == 1)
  {
    match i
    case 0 => case 1 => case 2 => case 3 =>
    case 4 => case 5 => case 6 => case _ =>
  }

  /** Setting bit 7 - j of a byte changes exactly that bit. */
  lemma SetBit(x: byte, j: nat, k: nat)
    requires j < 8 && k < 8
    ensures BitAt(x | Mask(j), 7 - k) == (BitAt(x, 7 - k) || k == j)
  {
    match j
    case 0 => case 1 => case 2 => case 3 =>
    case 4 => case 5 => case 6 => case _ =>
  }

  /**
   * The byte built from up to eight written bits holds them from bit 7 down,
   * and every bit not yet written is clear.
   */
  lemma {:induction false} ByteOfBits(bits: seq<bool>, k: nat)
    requires |bits| <= 8 && k < 8
    ensures BitAt(ByteOf(bits), 7 - k) == (k < |bits| && bits[k])
  {
    if bits != [] {
      var init := bits[..|bits| - 1];
      ByteOfBits(init, k);
      var j := |bits| - 1;
      if bits[j] {
        SetBit(ByteOf(init), j, k);
      } else {
        assert ByteOf(bits) == ByteOf(init) | 0;
        assert ByteOf(init) | 0 == ByteOf(init);
      }
    }
  }

  /** Reading back a byte built from a partial run gives the run followed by clear bits. */
  lemma ByteOfRoundTrip(bits: seq<bool>)
    requires |bits| <= 8
    ensures ByteBits(ByteOf(bits)) == bits + Zeros(8 - |bits|)
  {
    forall k | 0 <= k < 8 ensures ByteBits(ByteOf(bits))[k] == (bits + Zeros(8 - |bits|))[k] {
      ReadBackAt(bits, k);
    }
    SameBits(ByteBits(ByteOf(bits)), bits + Zeros(8 - |bits|));
  }

  /** Position `k` of the read-back byte is the `k`-th written bit, or clear past the run. */
  lemma ReadBackAt(bits: seq<bool>, k: nat)
    requires |bits| <= 8 && k < 8
    ensures ByteBits(ByteOf(bits))[k] == (bits + Zeros(8 - |bits|))[k]
  {
    ByteOfBits(bits, k);
    ReadBit(ByteOf(bits), bits, k);
  }

  /** A byte whose bit 7 - k is the `k`-th bit of a run, or clear past it, reads back as the padded run at `k`. */
  lemma ReadBit(b: byte, bits: seq<bool>, k: nat)
    requires |bits| <= 8 && k < 8
    requires BitAt(b, 7 - k) == (k < |bits| && bits[k])
    ensures ByteBits(b)[k] == (bits + Zeros(8 - |bits|))[k]
  {
    var z := bits + Zeros(8 - |bits|);
    assert ByteBits(b)[k] == BitAt(b, 7 - k);
    if k < |bits| {
      assert z[k] == bits[k];
    } else {
      assert z[k] == Zeros(8 - |bits|)[k - |bits|];
    }
  }

  lemma SameBits(a: seq<bool>, b: seq<bool>)
    requires |a| == |b| && forall k :: 0 <= k < |a| ==> a[k] == b[k]
    ensures a == b
  {
  }

  /** Appending a byte appends its eight bits to the stream. */
  lemma UnpackSnoc(bytes: seq<byte>, b: byte)
    ensures Unpack(bytes + [b]) == Unpack(bytes) + ByteBits(b)
  {
    assert (bytes + [b])[..|bytes|] == bytes;
  }

  /** A byte in front of a vector puts its eight bits in front of the stream. */
  lemma {:induction false} UnpackCons(bytes: seq<byte>)
    requires bytes != []
    ensures Unpack(bytes) == ByteBits(bytes[0]) + Unpack(bytes[1..])
  {
    var n := |bytes| - 1;
    if n > 0 {
      UnpackCons(bytes[..n]);
      assert bytes[..n][1..] == bytes[1..][..n - 1];
      assert bytes[..n][0] == bytes[0];
    }
  }

  /** Bit `7 - i` of the stream's byte `k` is the bit `decode` reads as `(byte >> i) & 1`. */
  lemma {:induction false} UnpackAt(bytes: seq<byte>, k: nat, i: nat)
    requires k < |bytes| && i < 8
    ensures Unpack(bytes)[8 * k + (7 - i)] == BitAt(bytes[k], i)
  {
    var n := |bytes| - 1;
    if k < n {
      UnpackAt(bytes[..n], k, i);
    }
  }
}
