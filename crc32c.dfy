/** CRC32C, the Castagnoli CRC of RFC 3720 (section 12.1 and appendix B.4),
    computed bit by bit over the reflected polynomial 0x82F63B78, and the
    masking leveldb applies to checksums it stores (util/crc32c.h). The
    table-driven implementation in util/crc32c.cc is not part of this model;
    this is the function it computes. Register values are 32-bit unsigned
    integers; exclusive or is defined bit by bit. */
module Crc32c {
  import opened Slices
  import opened Coding

  /** The reflected Castagnoli polynomial. */
  const kPolynomial: U32 := 0x82F6_3B78
  /** The constant Mask adds after rotating. */
  const kMaskDelta: U32 := 0xa282_ead8
  /** All 32 bits set: the register's initial value and final inversion. */
  const kAllOnes: U32 := 0xFFFF_FFFF
  const kTwo32: nat := 0x1_0000_0000

  /** Bitwise exclusive or of two naturals. */
  function Xor(a: nat, b: nat): nat
    decreases a + b
  {
    if a == 0 then b
    else if b == 0 then a
    else 2 * Xor(a / 2, b / 2) + (if a % 2 == b % 2 then 0 else 1)
  }

  /** Xor works one bit at a time: its low bit and the rest. */
  lemma {:induction false} XorDigits(a: nat, b: nat)
    ensures Xor(a, b) % 2 == (if a % 2 == b % 2 then 0 else 1)
    ensures Xor(a, b) / 2 == Xor(a / 2, b / 2)
  {
    if a != 0 && b != 0 {
      var x := Xor(a / 2, b / 2);
      var bit := if a % 2 == b % 2 then 0 else 1;
      assert Xor(a, b) == 2 * x + bit;
      assert (2 * x + bit) % 2 == bit && (2 * x + bit) / 2 == x;
    }
  }

  /** Xor with b twice is the identity. */
  lemma {:induction false} XorXor(a: nat, b: nat)
    ensures Xor(Xor(a, b), b) == a
    decreases a + b
  {
    if a + b > 0 {
      var r := Xor(a, b);
      XorDigits(a, b);
      XorDigits(r, b);
      XorXor(a / 2, b / 2);
      assert Xor(r, b) / 2 == a / 2;
    }
  }

  /** Xor of two k-bit numbers is a k-bit number. */
  lemma {:induction false} XorBound(a: nat, b: nat, k: nat)
    requires a < Pow2(k) && b < Pow2(k)
    ensures Xor(a, b) < Pow2(k)
    decreases k
  {
    if k > 0 && a > 0 && b > 0 {
      XorBound(a / 2, b / 2, k - 1);
    }
  }

  /** Xor of two 32-bit values, as a 32-bit value (the reduction never
      changes it: see Xor32Exact). */
  function Xor32(a: U32, b: U32): U32
  {
    Xor(a, b) % kTwo32
  }

  lemma Xor32Exact(a: U32, b: U32)
    ensures Xor32(a, b) == Xor(a, b)
  {
    Pow2Widths();
    XorBound(a, b, 32);
  }

  /** Xor32 with b twice is the identity. */
  lemma Xor32Twice(a: U32, b: U32)
    ensures Xor32(Xor32(a, b), b) == a
  {
    Xor32Exact(a, b);
    Xor32Exact(Xor32(a, b), b);
    XorXor(a, b);
  }

  /** The shift register after taking in one bit: the bit leaving the
      register, combined with the incoming one, decides whether the
      polynomial is applied. */
  function Bit(c: U32, incoming: bool): U32
  {
    if (c % 2 == 1) != incoming then Xor32(c / 2, kPolynomial) else c / 2
  }

  /** The register after taking in the bits of n below its highest set
      bit, least significant first. */
  function Feed(c: U32, n: nat): U32
    decreases n
  {
    if n <= 1 then c else Feed(Bit(c, n % 2 == 1), n / 2)
  }

  /** The register after taking in one byte, least significant bit first;
      this is `crc ^= b` followed by eight shifts. Bit 8, added to b, marks
      the end of its eight bits. */
  function Step(c: U32, b: Byte): U32
  {
    Feed(c, b + 0x100)
  }

  /** The CRC register after feeding the first n bytes of `data` to
      register value `c`. */
  function RegisterPrefix(c: U32, data: Bytes, n: nat): U32
    requires n <= |data|
    decreases n
  {
    if n == 0 then c else Step(RegisterPrefix(c, data, n - 1), data[n - 1])
  }

  /** The CRC register after feeding `data` to register value `c`. */
  function Register(c: U32, data: Bytes): U32
  {
    RegisterPrefix(c, data, |data|)
  }

  /** Only the first n bytes matter. */
  lemma {:induction false} RegisterPrefixOnly(c: U32, data: Bytes, other: Bytes, n: nat)
    requires n <= |data| && n <= |other| && data[..n] == other[..n]
    ensures RegisterPrefix(c, data, n) == RegisterPrefix(c, other, n)
    decreases n
  {
    if n > 0 {
      assert data[n - 1] == data[..n][n - 1] == other[n - 1];
      assert data[..n - 1] == data[..n][..n - 1];
      assert other[..n - 1] == other[..n][..n - 1];
      RegisterPrefixOnly(c, data, other, n - 1);
    }
  }

  /** Feeding b after the bytes of a: the first k bytes of b. */
  lemma {:induction false} RegisterAppendPrefix(c: U32, a: Bytes, b: Bytes, k: nat)
    requires k <= |b|
    ensures RegisterPrefix(Register(c, a), b, k) == RegisterPrefix(c, a + b, |a| + k)
    decreases k
  {
    if k == 0 {
      assert (a + b)[..|a|] == a[..|a|];
      RegisterPrefixOnly(c, a, a + b, |a|);
    } else {
      RegisterAppendPrefix(c, a, b, k - 1);
      assert (a + b)[|a| + k - 1] == b[k - 1];
    }
  }

  /** Feeding two pieces one after the other is feeding their concatenation. */
  lemma RegisterAppend(c: U32, a: Bytes, b: Bytes)
    ensures Register(Register(c, a), b) == Register(c, a + b)
  {
    RegisterAppendPrefix(c, a, b, |b|);
  }

  /** crc32c::Extend(init_crc, data): the CRC32C of some string A followed by
      data, given init_crc = CRC32C(A). */
  function Extend(init: U32, data: Bytes): (e: U32)
    ensures data == [] ==> e == init
  {
    Xor32Twice(init, kAllOnes);
    Xor32(Register(Xor32(init, kAllOnes), data), kAllOnes)
  }

  /** crc32c::Value(data): the CRC32C of data. */
  function Value(data: Bytes): (v: U32)
    ensures data == [] ==> v == 0
  {
    Extend(0, data)
  }

  /** Extending the checksum of a by b gives the checksum of a ++ b, from
      any initial value. */
  lemma ExtendAppend(init: U32, a: Bytes, b: Bytes)
    ensures Extend(Extend(init, a), b) == Extend(init, a + b)
  {
    var r := Register(Xor32(init, kAllOnes), a);
    Xor32Twice(r, kAllOnes);
    RegisterAppend(Xor32(init, kAllOnes), a, b);
  }

  /** Extend(Value(a), b) is Value(a ++ b), the way the log writer checksums
      a record's type byte followed by its payload. */
  lemma ExtendValue(a: Bytes, b: Bytes)
    ensures Extend(Value(a), b) == Value(a + b)
  {
    ExtendAppend(0, a, b);
  }

  /** Rotation of a 32-bit value right by 15 bits. */
  function RotateRight15(x: U32): U32
  {
    x / 0x8000 + (x % 0x8000) * 0x2_0000
  }

  /** Rotation of a 32-bit value right by 17 bits. */
  function RotateRight17(x: U32): U32
  {
    x / 0x2_0000 + (x % 0x2_0000) * 0x8000
  }

  /** crc32c::Mask: rotate right by 15 bits and add a constant, modulo
      2^32, so that a CRC stored inside the data it covers does not checksum
      to itself. */
  function Mask(crc: U32): (m: U32)
    ensures Unmask(m) == crc
  {
    SubtractDelta(RotateRight15(crc));
    RotateBack(crc);
    (RotateRight15(crc) + kMaskDelta) % kTwo32
  }

  /** crc32c::Unmask, the inverse of Mask: subtract the constant modulo
      2^32 and rotate right by 17 bits. */
  function Unmask(masked: U32): (r: U32)
    ensures RotateRight15(r) == (masked + kTwo32 - kMaskDelta) % kTwo32
  {
    RotateForth((masked + kTwo32 - kMaskDelta) % kTwo32);
    RotateRight17((masked + kTwo32 - kMaskDelta) % kTwo32)
  }

  /** Rotating right by 15 and then by 17 bits is the identity. */
  lemma RotateBack(x: U32)
    ensures RotateRight17(RotateRight15(x)) == x
  {
    var h := x / 0x8000;
    var l := x % 0x8000;
    var y := h + l * 0x2_0000;
    assert y / 0x2_0000 == l && y % 0x2_0000 == h;
  }

  /** Rotating right by 17 and then by 15 bits is the identity. */
  lemma RotateForth(x: U32)
    ensures RotateRight15(RotateRight17(x)) == x
  {
    var h := x / 0x2_0000;
    var l := x % 0x2_0000;
    var y := h + l * 0x8000;
    assert y / 0x8000 == l && y % 0x8000 == h;
  }

  /** Adding the delta and then subtracting it, modulo 2^32, is the identity. */
  lemma SubtractDelta(y: U32)
    ensures ((y + kMaskDelta) % kTwo32 + kTwo32 - kMaskDelta) % kTwo32 == y
  {
    if y + kMaskDelta < kTwo32 {
      assert (y + kMaskDelta) % kTwo32 == y + kMaskDelta;
      assert (y + kTwo32) % kTwo32 == y;
    } else {
      assert (y + kMaskDelta) % kTwo32 == y + kMaskDelta - kTwo32;
      assert y % kTwo32 == y;
    }
  }

  /** Unmask undoes Mask. */
  lemma UnmaskMask(crc: U32)
    ensures Unmask(Mask(crc)) == crc
  {
    SubtractDelta(RotateRight15(crc));
    RotateBack(crc);
  }
}
