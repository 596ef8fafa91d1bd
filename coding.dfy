/** Endian-neutral encodings (util/coding.cc): little-endian fixed-width
    integers, base-128 varints (unsigned LEB128, DWARF version 4, section 7.6)
    and length-prefixed byte strings. Encoders write into caller buffers
    (arrays) or append to a string; decoders scan a byte range [p, limit). */
module Coding {
  import opened Slices
  import opened Wrappers

  function Pow2(n: nat): (r: nat)
    ensures r >= 1
  {
    if n == 0 then 1 else 2 * Pow2(n - 1)
  }

  lemma {:induction false} Pow2Add(a: nat, b: nat)
    ensures Pow2(a + b) == Pow2(a) * Pow2(b)
  {
    if a > 0 {
      Pow2Add(a - 1, b);
    }
  }

  /** Powers of two used by the encoders, as literals. */
  lemma Pow2Table()
    ensures Pow2(7) == 0x80 && Pow2(8) == 0x100 && Pow2(14) == 0x4000
    ensures Pow2(16) == 0x1_0000 && Pow2(21) == 0x20_0000 && Pow2(24) == 0x100_0000
    ensures Pow2(28) == 0x1000_0000 && Pow2(32) == 0x1_0000_0000
    ensures Pow2(35) == 0x8_0000_0000 && Pow2(40) == 0x100_0000_0000
    ensures Pow2(48) == 0x1_0000_0000_0000 && Pow2(56) == 0x100_0000_0000_0000
    ensures Pow2(64) == 0x1_0000_0000_0000_0000 && Pow2(70) == 0x40_0000_0000_0000_0000
  {
    Pow2Bytes();
    Pow2Words();
    Pow2Add(32, 8);
    Pow2Add(32, 16);
    Pow2Add(32, 24);
    Pow2Add(32, 32);
    Pow2Add(35, 35);
  }

  lemma Pow2Widths()
    ensures Pow2(32) == 0x1_0000_0000 && Pow2(64) == 0x1_0000_0000_0000_0000
  {
    Pow2Words();
    Pow2Add(32, 32);
  }

  lemma Pow2Bytes()
    ensures Pow2(7) == 0x80 && Pow2(8) == 0x100
  {
    Pow2Seven();
  }

  lemma Pow2Words()
    ensures Pow2(14) == 0x4000 && Pow2(16) == 0x1_0000 && Pow2(21) == 0x20_0000
    ensures Pow2(24) == 0x100_0000 && Pow2(28) == 0x1000_0000 && Pow2(32) == 0x1_0000_0000
    ensures Pow2(35) == 0x8_0000_0000
  {
    Pow2Bytes();
    Pow2Add(7, 7);
    Pow2Add(8, 8);
    Pow2Add(14, 7);
    Pow2Add(16, 8);
    Pow2Add(14, 14);
    Pow2Add(16, 16);
    Pow2Add(28, 7);
  }

  lemma Pow2Seven()
    ensures Pow2(7) == 0x80
  {
    assert Pow2(2) == 4;
    assert Pow2(4) == 16;
    assert Pow2(6) == 64;
  }

  /** Splitting w into its low 7 bits and the rest, both scaled by p. */
  lemma GroupStep(acc: nat, w: nat, p: nat)
    ensures acc + (w % 0x80) * p + (w / 0x80) * (0x80 * p) == acc + w * p
  {
    assert w == w % 0x80 + 0x80 * (w / 0x80);
    assert w * p == (w % 0x80) * p + (0x80 * (w / 0x80)) * p;
  }

  /** Division with a remainder in [0, d) is unique. */
  lemma DivUnique(v: int, d: int, q: int, r: int)
    requires d > 0 && 0 <= r < d && v == d * q + r
    ensures v / d == q
  {
    var k := q - v / d;
    assert d * q == d * (v / d) + d * k;
    assert d * k == v % d - r;
  }

  lemma MulDistrib(a: int, x: int, y: int)
    ensures a * (x + y) == a * x + a * y
  {
  }

  lemma MulAssoc(a: int, b: int, c: int)
    ensures a * (b * c) == (a * b) * c
  {
  }

  lemma MulMono(a: nat, x: int, y: int)
    requires x <= y
    ensures a * x <= a * y
  {
  }

  /** v < d * b exactly when v / d < b. */
  lemma DivBelow(v: nat, d: nat, b: nat)
    requires d > 0
    ensures v < d * b <==> v / d < b
  {
    var q, r := v / d, v % d;
    assert v == d * q + r;
    if q < b {
      MulMono(d, q + 1, b);
      MulDistrib(d, q, 1);
    } else {
      MulMono(d, b, q);
    }
  }

  lemma DivDiv(v: nat, a: nat, b: nat)
    requires a > 0 && b > 0
    ensures v / a / b == v / (a * b)
  {
    var q1, r1 := v / a, v % a;
    var q2, r2 := q1 / b, q1 % b;
    assert v == a * q1 + r1;
    assert q1 == b * q2 + r2;
    MulDistrib(a, b * q2, r2);
    MulAssoc(a, b, q2);
    assert a * q1 == (a * b) * q2 + a * r2;
    MulMono(a, r2, b - 1);
    MulDistrib(a, b, -1);
    assert a * r2 + r1 < a * b;
    DivUnique(v, a * b, q2, a * r2 + r1);
  }

  // ---------------------------------------------------------------- fixed

  /** The n little-endian bytes of v. */
  function LittleEndian(v: nat, n: nat): (r: Bytes)
    ensures |r| == n
  {
    if n == 0 then [] else [v % 0x100] + LittleEndian(v / 0x100, n - 1)
  }

  /** DecodeFixed32/64 (coding.h): the number whose little-endian bytes are s. */
  function DecodeLittleEndian(s: Bytes): nat
  {
    if s == [] then 0 else s[0] + 0x100 * DecodeLittleEndian(s[1..])
  }

  function Fixed32(v: U32): Bytes { LittleEndian(v, 4) }
  function Fixed64(v: U64): Bytes { LittleEndian(v, 8) }

  /** Byte i of the encoding is (v >> 8i) & 0xff. */
  lemma {:induction false} LittleEndianByte(v: nat, n: nat, i: nat)
    requires i < n
    ensures LittleEndian(v, n)[i] == (v / Pow2(8 * i)) % 0x100
  {
    if i > 0 {
      LittleEndianByte(v / 0x100, n - 1, i - 1);
      Pow2Add(8, 8 * (i - 1));
      Pow2Bytes();
      DivDiv(v, 0x100, Pow2(8 * (i - 1)));
    }
  }

  /** Decoding the n little-endian bytes of v gives v back when v fits in n bytes. */
  lemma {:induction false} LittleEndianRoundTrip(v: nat, n: nat)
    requires v < Pow2(8 * n)
    ensures DecodeLittleEndian(LittleEndian(v, n)) == v
  {
    if n > 0 {
      Pow2Add(8, 8 * (n - 1));
      Pow2Bytes();
      LittleEndianRoundTrip(v / 0x100, n - 1);
      assert LittleEndian(v, n)[1..] == LittleEndian(v / 0x100, n - 1);
    } else {
      assert v == 0;
    }
  }

  /** Every byte string is the little-endian encoding of the number it decodes to. */
  lemma {:induction false} DecodeLittleEndianBound(s: Bytes)
    ensures DecodeLittleEndian(s) < Pow2(8 * |s|)
    ensures LittleEndian(DecodeLittleEndian(s), |s|) == s
  {
    if s != [] {
      DecodeLittleEndianBound(s[1..]);
      Pow2Add(8, 8 * (|s| - 1));
      Pow2Bytes();
      var d := DecodeLittleEndian(s);
      assert d / 0x100 == DecodeLittleEndian(s[1..]);
      assert d % 0x100 == s[0];
      assert s == [s[0]] + s[1..];
    }
  }

  function DecodeFixed32(s: Bytes): (v: U32)
    requires |s| == 4
    ensures Fixed32(v) == s
  {
    DecodeLittleEndianBound(s);
    Pow2Widths();
    DecodeLittleEndian(s)
  }

  function DecodeFixed64(s: Bytes): (v: U64)
    requires |s| == 8
    ensures Fixed64(v) == s
  {
    DecodeLittleEndianBound(s);
    Pow2Widths();
    DecodeLittleEndian(s)
  }

  /** Fixed32 and DecodeFixed32 are inverse bijections. */
  lemma Fixed32RoundTrip(v: U32, s: Bytes)
    requires |s| == 4
    ensures |Fixed32(v)| == 4 && DecodeFixed32(Fixed32(v)) == v
    ensures Fixed32(DecodeFixed32(s)) == s
  {
    Pow2Widths();
    LittleEndianRoundTrip(v, 4);
    DecodeLittleEndianBound(s);
  }

  /** Fixed64 and DecodeFixed64 are inverse bijections. */
  lemma Fixed64RoundTrip(v: U64, s: Bytes)
    requires |s| == 8
    ensures |Fixed64(v)| == 8 && DecodeFixed64(Fixed64(v)) == v
    ensures Fixed64(DecodeFixed64(s)) == s
  {
    Pow2Widths();
    LittleEndianRoundTrip(v, 8);
    DecodeLittleEndianBound(s);
  }

  /** The four bytes of Fixed32(value), least significant first. */
  lemma Fixed32Bytes(value: U32)
    ensures Fixed32(value) == [value % 0x100, (value / 0x100) % 0x100,
                               (value / 0x1_0000) % 0x100, (value / 0x100_0000) % 0x100]
  {
    Pow2Table();
    LittleEndianByte(value, 4, 1);
    LittleEndianByte(value, 4, 2);
    LittleEndianByte(value, 4, 3);
  }

  /** The eight bytes of Fixed64(value), least significant first. */
  lemma Fixed64Bytes(value: U64)
    ensures Fixed64(value) == [value % 0x100, (value / 0x100) % 0x100,
                               (value / 0x1_0000) % 0x100, (value / 0x100_0000) % 0x100,
                               (value / 0x1_0000_0000) % 0x100, (value / 0x100_0000_0000) % 0x100,
                               (value / 0x1_0000_0000_0000) % 0x100,
                               (value / 0x100_0000_0000_0000) % 0x100]
  {
    Pow2Table();
    LittleEndianByte(value, 8, 1);
    LittleEndianByte(value, 8, 2);
    LittleEndianByte(value, 8, 3);
    LittleEndianByte(value, 8, 4);
    LittleEndianByte(value, 8, 5);
    LittleEndianByte(value, 8, 6);
    LittleEndianByte(value, 8, 7);
  }

  /** EncodeFixed32: byte i of buf[off..off+4] is (value >> 8i) & 0xff. */
  method EncodeFixed32(buf: array<Byte>, off: nat, value: U32)
    requires off + 4 <= buf.Length
    modifies buf
    ensures buf[off..off + 4] == Fixed32(value)
    ensures forall i :: 0 <= i < buf.Length && !(off <= i < off + 4) ==> buf[i] == old(buf[i])
  {
    buf[off] := value % 0x100;
    buf[off + 1] := (value / 0x100) % 0x100;
    buf[off + 2] := (value / 0x1_0000) % 0x100;
    buf[off + 3] := (value / 0x100_0000) % 0x100;
    Fixed32Bytes(value);
  }

  /** EncodeFixed64: byte i of buf[off..off+8] is (value >> 8i) & 0xff. */
  method EncodeFixed64(buf: array<Byte>, off: nat, value: U64)
    requires off + 8 <= buf.Length
    modifies buf
    ensures buf[off..off + 8] == Fixed64(value)
    ensures forall i :: 0 <= i < buf.Length && !(off <= i < off + 8) ==> buf[i] == old(buf[i])
  {
    buf[off] := value % 0x100;
    buf[off + 1] := (value / 0x100) % 0x100;
    buf[off + 2] := (value / 0x1_0000) % 0x100;
    buf[off + 3] := (value / 0x100_0000) % 0x100;
    buf[off + 4] := (value / 0x1_0000_0000) % 0x100;
    buf[off + 5] := (value / 0x100_0000_0000) % 0x100;
    buf[off + 6] := (value / 0x1_0000_0000_0000) % 0x100;
    buf[off + 7] := (value / 0x100_0000_0000_0000) % 0x100;
    Fixed64Bytes(value);
  }

  /** PutFixed32: appends exactly the 4 encoded bytes; earlier contents stay. */
  method PutFixed32(dst: Bytes, value: U32) returns (r: Bytes)
    ensures r == dst + Fixed32(value)
  {
    var buf := new Byte[4];
    EncodeFixed32(buf, 0, value);
    r := dst + buf[..];
  }

  /** PutFixed64: appends exactly the 8 encoded bytes; earlier contents stay. */
  method PutFixed64(dst: Bytes, value: U64) returns (r: Bytes)
    ensures r == dst + Fixed64(value)
  {
    var buf := new Byte[8];
    EncodeFixed64(buf, 0, value);
    r := dst + buf[..];
  }

  // ---------------------------------------------------------------- varint

  /** The base-128 encoding of v: low 7-bit groups first, high bit = more follow. */
  function Varint(v: nat): (r: Bytes)
    ensures |r| >= 1
  {
    if v < 0x80 then [v] else [v % 0x80 + 0x80] + Varint(v / 0x80)
  }

  /** Every byte but the last has the high bit set, and the last byte is below 128. */
  lemma {:induction false} VarintShape(v: nat)
    ensures forall i :: 0 <= i < |Varint(v)| - 1 ==> Varint(v)[i] >= 0x80
    ensures Varint(v)[|Varint(v)| - 1] < 0x80
  {
    if v >= 0x80 {
      VarintShape(v / 0x80);
    }
  }

  /** A value below 2^(7k) takes at most k bytes, and one of at least 2^(7k) more than k. */
  lemma {:induction false} VarintLengthBound(v: nat, k: nat)
    requires k >= 1
    ensures v < Pow2(7 * k) <==> |Varint(v)| <= k
  {
    Pow2Add(7, 7 * (k - 1));
    Pow2Seven();
    if v >= 0x80 {
      if k > 1 {
        VarintLengthBound(v / 0x80, k - 1);
        DivBelow(v, 0x80, Pow2(7 * (k - 1)));
        assert |Varint(v)| == 1 + |Varint(v / 0x80)|;
      } else {
        assert |Varint(v)| >= 2 by { assert Varint(v) == [v % 0x80 + 0x80] + Varint(v / 0x80); }
      }
    }
  }

  /** A 32-bit value takes 1 to 5 bytes and a 64-bit value 1 to 10. */
  lemma VarintLengthRange(v: nat)
    ensures v < 0x1_0000_0000 ==> |Varint(v)| <= 5
    ensures v < 0x1_0000_0000_0000_0000 ==> |Varint(v)| <= 10
  {
    Pow2Table();
    VarintLengthBound(v, 5);
    VarintLengthBound(v, 10);
  }

  /** VarintLength: the number of bytes EncodeVarint32/64 emit for v. */
  method VarintLength(v: U64) returns (len: nat)
    ensures len == |Varint(v)|
    ensures 1 <= len <= 10
  {
    VarintLengthRange(v);
    len := 1;
    var w: nat := v;
    while w >= 0x80
      invariant len + |Varint(w)| - 1 == |Varint(v)|
      decreases w
    {
      w := w / 0x80;
      len := len + 1;
    }
  }

  // The bytes of Varint(v) in each of the ranges EncodeVarint32 distinguishes.

  lemma VarintTwoBytes(v: nat)
    requires 0x80 <= v < 0x4000
    ensures Varint(v) == [v % 0x80 + 0x80, v / 0x80]
  {
    assert Varint(v) == [v % 0x80 + 0x80] + Varint(v / 0x80);
  }

  lemma VarintThreeBytes(v: nat)
    requires 0x4000 <= v < 0x20_0000
    ensures Varint(v) == [v % 0x80 + 0x80, (v / 0x80) % 0x80 + 0x80, v / 0x4000]
  {
    var a, b := v / 0x80, v / 0x4000;
    assert a / 0x80 == b;
    assert Varint(a) == [a % 0x80 + 0x80] + Varint(b);
    assert Varint(v) == [v % 0x80 + 0x80] + Varint(a);
  }

  lemma VarintFourBytes(v: nat)
    requires 0x20_0000 <= v < 0x1000_0000
    ensures Varint(v) == [v % 0x80 + 0x80, (v / 0x80) % 0x80 + 0x80, (v / 0x4000) % 0x80 + 0x80,
                          v / 0x20_0000]
  {
    var a, b, c := v / 0x80, v / 0x4000, v / 0x20_0000;
    assert a / 0x80 == b && b / 0x80 == c;
    assert Varint(b) == [b % 0x80 + 0x80] + Varint(c);
    assert Varint(a) == [a % 0x80 + 0x80] + Varint(b);
    assert Varint(v) == [v % 0x80 + 0x80] + Varint(a);
  }

  lemma VarintFiveBytes(v: U32)
    requires 0x1000_0000 <= v
    ensures Varint(v) == [v % 0x80 + 0x80, (v / 0x80) % 0x80 + 0x80, (v / 0x4000) % 0x80 + 0x80,
                          (v / 0x20_0000) % 0x80 + 0x80, v / 0x1000_0000]
  {
    var a, b, c, d := v / 0x80, v / 0x4000, v / 0x20_0000, v / 0x1000_0000;
    assert a / 0x80 == b && b / 0x80 == c && c / 0x80 == d;
    assert Varint(c) == [c % 0x80 + 0x80] + Varint(d);
    assert Varint(b) == [b % 0x80 + 0x80] + Varint(c);
    assert Varint(a) == [a % 0x80 + 0x80] + Varint(b);
    assert Varint(v) == [v % 0x80 + 0x80] + Varint(a);
  }

  /** Stores bytes at dst[off..], one after the other. */
  method Store(dst: array<Byte>, off: nat, bytes: seq<Byte>)
    requires off + |bytes| <= dst.Length
    modifies dst
    ensures dst[off..off + |bytes|] == bytes
    ensures forall i :: 0 <= i < dst.Length && !(off <= i < off + |bytes|) ==> dst[i] == old(dst[i])
  {
    for k := 0 to |bytes|
      invariant dst[off..off + k] == bytes[..k]
      invariant forall i :: 0 <= i < dst.Length && !(off <= i < off + k) ==> dst[i] == old(dst[i])
    {
      dst[off + k] := bytes[k];
    }
  }

  /** EncodeVarint32: writes Varint(v) at dst[off..] and returns the position after it. */
  method EncodeVarint32(dst: array<Byte>, off: nat, v: U32) returns (end: nat)
    requires off + |Varint(v)| <= dst.Length
    modifies dst
    ensures end == off + |Varint(v)| <= off + 5
    ensures dst[off..end] == Varint(v)
    ensures forall i :: 0 <= i < dst.Length && !(off <= i < end) ==> dst[i] == old(dst[i])
  {
    // `x | B` stored through an unsigned char keeps x's low 7 bits with the high bit set
    var bytes: seq<Byte>;
    if v < 0x80 {
      bytes := [v];
    } else if v < 0x4000 {
      VarintTwoBytes(v);
      bytes := [v % 0x80 + 0x80, v / 0x80];
    } else if v < 0x20_0000 {
      VarintThreeBytes(v);
      bytes := [v % 0x80 + 0x80, (v / 0x80) % 0x80 + 0x80, v / 0x4000];
    } else if v < 0x1000_0000 {
      VarintFourBytes(v);
      bytes := [v % 0x80 + 0x80, (v / 0x80) % 0x80 + 0x80, (v / 0x4000) % 0x80 + 0x80, v / 0x20_0000];
    } else {
      VarintFiveBytes(v);
      bytes := [v % 0x80 + 0x80, (v / 0x80) % 0x80 + 0x80, (v / 0x4000) % 0x80 + 0x80,
                (v / 0x20_0000) % 0x80 + 0x80, v / 0x1000_0000];
    }
    assert bytes == Varint(v) && |bytes| <= 5;
    Store(dst, off, bytes);
    end := off + |bytes|;
  }

  /** EncodeVarint64: the same encoding produced by a loop over 7-bit groups. */
  method EncodeVarint64(dst: array<Byte>, off: nat, v: U64) returns (end: nat)
    requires off + |Varint(v)| <= dst.Length
    modifies dst
    ensures end == off + |Varint(v)| <= off + 10
    ensures dst[off..end] == Varint(v)
    ensures forall i :: 0 <= i < dst.Length && !(off <= i < end) ==> dst[i] == old(dst[i])
  {
    VarintLengthRange(v);
    var w: nat := v;
    var p := off;
    ghost var written: seq<Byte> := [];
    while w >= 0x80
      invariant off <= p && p - off == |written| && written + Varint(w) == Varint(v)
      invariant dst[off..p] == written
      invariant forall i :: 0 <= i < dst.Length && !(off <= i < p) ==> dst[i] == old(dst[i])
      decreases w
    {
      var b := w % 0x80 + 0x80;
      assert written + Varint(w) == (written + [b]) + Varint(w / 0x80) by {
        assert Varint(w) == [b] + Varint(w / 0x80);
      }
      dst[p] := b;
      written := written + [b];
      w := w / 0x80;
      p := p + 1;
    }
    assert Varint(w) == [w];
    dst[p] := w;
    written := written + [w];
    end := p + 1;
  }

  /** PutVarint32: appends exactly Varint(v). */
  method PutVarint32(dst: Bytes, v: U32) returns (r: Bytes)
    ensures r == dst + Varint(v)
  {
    VarintLengthRange(v);
    var buf := new Byte[5];
    var end := EncodeVarint32(buf, 0, v);
    r := dst + buf[..end];
  }

  /** PutVarint64: appends exactly Varint(v). */
  method PutVarint64(dst: Bytes, v: U64) returns (r: Bytes)
    ensures r == dst + Varint(v)
  {
    VarintLengthRange(v);
    var buf := new Byte[10];
    var end := EncodeVarint64(buf, 0, v);
    r := dst + buf[..end];
  }

  /** The decoding loop of GetVarint32PtrFallback and GetVarint64Ptr, reading
      s[i..limit) with the given shift and accumulated value; it gives up once the
      shift passes maxShift (28 or 63) or the range is exhausted. The accumulated
      value is unbounded; the decoders keep its low 32 or 64 bits, which is what
      or-ing the truncated 7-bit groups into a uint32_t/uint64_t computes, since
      the groups occupy disjoint bits. */
  function DecodeVarintFrom(s: Bytes, limit: nat, i: nat, shift: nat, maxShift: nat, acc: nat)
    : (r: Option<(nat, nat)>)
    requires i <= limit <= |s|
    ensures r.Some? ==> i < r.value.1 <= limit
    decreases limit - i
  {
    if shift > maxShift || i == limit then None
    else if s[i] >= 0x80 then
      DecodeVarintFrom(s, limit, i + 1, shift + 7, maxShift, acc + Shifted(s[i] - 0x80, shift))
    else Some((acc + Shifted(s[i], shift), i + 1))
  }

  /** b << shift, on unbounded integers. */
  function Shifted(b: nat, shift: nat): nat
  {
    b * Pow2(shift)
  }

  /** Keeps the low `width` bits of a decoded value; the end position is unchanged. */
  function Truncate(d: Option<(nat, nat)>, width: nat): (r: Option<(nat, nat)>)
    ensures r.Some? <==> d.Some?
    ensures r.Some? ==> r.value.1 == d.value.1 && r.value.0 < Pow2(width)
  {
    match d
    case None => None
    case Some((value, end)) => Some((value % Pow2(width), end))
  }

  /** Decoding stops right after the encoding of w and accumulates w at the current shift. */
  lemma {:induction false} DecodeVarintFromEncoding(s: Bytes, limit: nat, i: nat, shift: nat,
                                                    maxShift: nat, acc: nat, w: nat)
    requires i + |Varint(w)| <= limit <= |s|
    requires s[i..i + |Varint(w)|] == Varint(w)
    requires shift + 7 * (|Varint(w)| - 1) <= maxShift
    ensures DecodeVarintFrom(s, limit, i, shift, maxShift, acc)
         == Some((acc + w * Pow2(shift), i + |Varint(w)|))
    decreases w
  {
    assert s[i] == Varint(w)[0];
    if w >= 0x80 {
      assert s[i + 1..i + |Varint(w)|] == Varint(w)[1..];
      DecodeVarintFromEncoding(s, limit, i + 1, shift + 7, maxShift,
                               acc + Shifted(s[i] - 0x80, shift), w / 0x80);
      Pow2Add(7, shift);
      Pow2Seven();
      GroupStep(acc, w, Pow2(shift));
    }
  }

  /** When every byte available from i (at most `count` of them) has the high bit
      set, the loop runs out of input or of shift budget and fails. */
  lemma {:induction false} DecodeVarintFromUnterminated(s: Bytes, limit: nat, i: nat, shift: nat,
                                                        maxShift: nat, acc: nat)
    requires i <= limit <= |s|
    requires forall j :: i <= j < limit && shift + 7 * (j - i) <= maxShift ==> s[j] >= 0x80
    ensures DecodeVarintFrom(s, limit, i, shift, maxShift, acc) == None
    decreases limit - i
  {
    if shift <= maxShift && i < limit {
      DecodeVarintFromUnterminated(s, limit, i + 1, shift + 7, maxShift,
                                   acc + Shifted(s[i] - 0x80, shift));
    }
  }

  /** GetVarint32PtrFallback: decodes a 32-bit varint from s[p..limit); None is NULL. */
  method GetVarint32PtrFallback(s: Bytes, p: nat, limit: nat) returns (r: Option<(U32, nat)>)
    requires p <= limit <= |s|
    ensures Truncate(DecodeVarintFrom(s, limit, p, 0, 28, 0), 32) == r
    ensures r.Some? ==> p < r.value.1 <= limit
  {
    var result: nat := 0;
    var shift: nat := 0;
    var q := p;
    while shift <= 28 && q < limit
      invariant p <= q <= limit && shift == 7 * (q - p)
      invariant DecodeVarintFrom(s, limit, p, 0, 28, 0) == DecodeVarintFrom(s, limit, q, shift, 28, result)
      decreases limit - q
    {
      var b := s[q];
      q := q + 1;
      if b >= 0x80 {
        result := result + Shifted(b - 0x80, shift);
      } else {
        result := result + Shifted(b, shift);
        Pow2Widths();
        return Some((result % Pow2(32), q));
      }
      shift := shift + 7;
    }
    return None;
  }

  /** GetVarint64Ptr: decodes a 64-bit varint from s[p..limit); None is NULL. */
  method GetVarint64Ptr(s: Bytes, p: nat, limit: nat) returns (r: Option<(U64, nat)>)
    requires p <= limit <= |s|
    ensures Truncate(DecodeVarintFrom(s, limit, p, 0, 63, 0), 64) == r
    ensures r.Some? ==> p < r.value.1 <= limit
  {
    var result: nat := 0;
    var shift: nat := 0;
    var q := p;
    while shift <= 63 && q < limit
      invariant p <= q <= limit && shift == 7 * (q - p)
      invariant DecodeVarintFrom(s, limit, p, 0, 63, 0) == DecodeVarintFrom(s, limit, q, shift, 63, result)
      decreases limit - q
    {
      var b := s[q];
      q := q + 1;
      if b >= 0x80 {
        result := result + Shifted(b - 0x80, shift);
      } else {
        result := result + Shifted(b, shift);
        Pow2Widths();
        return Some((result % Pow2(64), q));
      }
      shift := shift + 7;
    }
    return None;
  }

  /** Decoding a 32-bit varint that starts at p yields the value and the position
      just past its encoding, whatever follows it. */
  lemma Varint32RoundTrip(s: Bytes, p: nat, limit: nat, v: U32)
    requires p + |Varint(v)| <= limit <= |s| && s[p..p + |Varint(v)|] == Varint(v)
    ensures Truncate(DecodeVarintFrom(s, limit, p, 0, 28, 0), 32) == Some((v, p + |Varint(v)|))
  {
    VarintLengthRange(v);
    assert 7 * (|Varint(v)| - 1) <= 28;
    DecodeVarintFromEncoding(s, limit, p, 0, 28, 0, v);
    assert Pow2(0) == 1;
    Pow2Widths();
    assert v % Pow2(32) == v;
  }

  /** The same round trip for 64-bit varints. */
  lemma Varint64RoundTrip(s: Bytes, p: nat, limit: nat, v: U64)
    requires p + |Varint(v)| <= limit <= |s| && s[p..p + |Varint(v)|] == Varint(v)
    ensures Truncate(DecodeVarintFrom(s, limit, p, 0, 63, 0), 64) == Some((v, p + |Varint(v)|))
  {
    VarintLengthRange(v);
    assert 7 * (|Varint(v)| - 1) <= 63;
    DecodeVarintFromEncoding(s, limit, p, 0, 63, 0, v);
    assert Pow2(0) == 1;
    Pow2Widths();
    assert v % 0x1_0000_0000_0000_0000 == v;
  }

  /** The 32-bit decoder fails when the range ends before a byte below 128, or
      when the first five bytes all have the high bit set. */
  lemma Varint32Unterminated(s: Bytes, p: nat, limit: nat)
    requires p <= limit <= |s|
    requires forall j :: p <= j < limit && j < p + 5 ==> s[j] >= 0x80
    ensures DecodeVarintFrom(s, limit, p, 0, 28, 0) == None
  {
    DecodeVarintFromUnterminated(s, limit, p, 0, 28, 0);
  }

  /** The 64-bit decoder fails when the range ends before a byte below 128, or
      when the first ten bytes all have the high bit set. */
  lemma Varint64Unterminated(s: Bytes, p: nat, limit: nat)
    requires p <= limit <= |s|
    requires forall j :: p <= j < limit && j < p + 10 ==> s[j] >= 0x80
    ensures DecodeVarintFrom(s, limit, p, 0, 63, 0) == None
  {
    DecodeVarintFromUnterminated(s, limit, p, 0, 63, 0);
  }

  /** GetVarint32(Slice*): on success the input view advances past exactly the
      consumed bytes; on failure it is left as it was. */
  method GetVarint32(input: Slice) returns (ok: bool, value: U32)
    modifies input
    ensures var d := Truncate(DecodeVarintFrom(old(input.data), |old(input.data)|, 0, 0, 28, 0), 32);
            (ok <==> d.Some?) &&
            (ok ==> value == d.value.0 && input.data == old(input.data)[d.value.1..]) &&
            (!ok ==> input.data == old(input.data))
  {
    var r := GetVarint32PtrFallback(input.data, 0, |input.data|);
    if r.None? {
      ok, value := false, 0;
    } else {
      ok, value := true, r.value.0;
      input.data := input.data[r.value.1..];
    }
  }

  /** GetVarint64(Slice*): the 64-bit counterpart of GetVarint32. */
  method GetVarint64(input: Slice) returns (ok: bool, value: U64)
    modifies input
    ensures var d := Truncate(DecodeVarintFrom(old(input.data), |old(input.data)|, 0, 0, 63, 0), 64);
            (ok <==> d.Some?) &&
            (ok ==> value == d.value.0 && input.data == old(input.data)[d.value.1..]) &&
            (!ok ==> input.data == old(input.data))
  {
    var r := GetVarint64Ptr(input.data, 0, |input.data|);
    if r.None? {
      ok, value := false, 0;
    } else {
      ok, value := true, r.value.0;
      input.data := input.data[r.value.1..];
    }
  }

  // ---------------------------------------------------------------- length-prefixed

  /** A length-prefixed string: Varint32 of its size (as a uint32_t) and its bytes. */
  function LengthPrefixed(value: Bytes): Bytes
  {
    Varint(|value| % 0x1_0000_0000) + value
  }

  /** PutLengthPrefixedSlice: appends the varint of value.size() (truncated to
      32 bits, as PutVarint32's parameter is a uint32_t) and then the bytes. */
  method PutLengthPrefixedSlice(dst: Bytes, value: Bytes) returns (r: Bytes)
    ensures r == dst + LengthPrefixed(value)
  {
    r := PutVarint32(dst, |value| % 0x1_0000_0000);
    r := r + value;
  }

  /** What GetLengthPrefixedSlice(p, limit, &result) computes: the string and the
      position after it, or None when the varint is bad or the declared length
      runs past limit. */
  function ParseLengthPrefixed(s: Bytes, p: nat, limit: nat): Option<(Bytes, nat)>
    requires p <= limit <= |s|
  {
    match Truncate(DecodeVarintFrom(s, limit, p, 0, 28, 0), 32)
    case None => None
    case Some((len, q)) =>
      if q > limit || q + len > limit then None else Some((s[q..q + len], q + len))
  }

  /** GetLengthPrefixedSlice(const char* p, const char* limit, Slice* result). */
  method GetLengthPrefixedSliceAt(s: Bytes, p: nat, limit: nat) returns (r: Option<(Bytes, nat)>)
    requires p <= limit <= |s|
    ensures r == ParseLengthPrefixed(s, p, limit)
  {
    var v := GetVarint32PtrFallback(s, p, limit);
    if v.None? {
      return None;
    }
    var (len, q) := v.value;
    if q + len > limit {
      return None;
    }
    return Some((s[q..q + len], q + len));
  }

  /** GetLengthPrefixedSlice inverts PutLengthPrefixedSlice, whatever follows. */
  lemma LengthPrefixedRoundTrip(s: Bytes, p: nat, limit: nat, value: Bytes)
    requires |value| < 0x1_0000_0000
    requires p + |LengthPrefixed(value)| <= limit <= |s|
    requires s[p..p + |LengthPrefixed(value)|] == LengthPrefixed(value)
    ensures ParseLengthPrefixed(s, p, limit) == Some((value, p + |LengthPrefixed(value)|))
  {
    var v := |value|;
    assert v % 0x1_0000_0000 == v;
    var n := |Varint(v)|;
    var e := s[p..p + n + v];
    assert e == Varint(v) + value;
    assert s[p..p + n] == e[..n];
    Varint32RoundTrip(s, p, limit, v);
    assert s[p + n..p + n + v] == e[n..];
  }

  /** GetLengthPrefixedSlice fails when the declared length exceeds the bytes left. */
  lemma LengthPrefixedTooShort(s: Bytes, p: nat, limit: nat, len: U32)
    requires p + |Varint(len)| <= limit <= |s| && s[p..p + |Varint(len)|] == Varint(len)
    requires p + |Varint(len)| + len > limit
    ensures ParseLengthPrefixed(s, p, limit) == None
  {
    Varint32RoundTrip(s, p, limit, len);
  }

  /** GetLengthPrefixedSlice(Slice* input, Slice* result): reads the varint length
      (advancing input), then takes that many bytes if enough remain. When the
      varint decodes but too few bytes remain, input stays advanced past the
      varint and false is returned. */
  method GetLengthPrefixedSlice(input: Slice, result: Slice) returns (ok: bool)
    requires input != result
    modifies input, result
    ensures var d := Truncate(DecodeVarintFrom(old(input.data), |old(input.data)|, 0, 0, 28, 0), 32);
            match d
            case None => !ok && input.data == old(input.data) && result.data == old(result.data)
            case Some((len, q)) =>
              var rest := old(input.data)[q..];
              if len <= |rest| then ok && result.data == rest[..len] && input.data == rest[len..]
              else !ok && input.data == rest && result.data == old(result.data)
  {
    var got, len := GetVarint32(input);
    if got && |input.data| >= len {
      result.data := input.data[..len];
      input.RemovePrefix(len);
      ok := true;
    } else {
      ok := false;
    }
  }
}
