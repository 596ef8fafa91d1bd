/** Model of db/log_writer.cc. A Writer appends records to a WritableFile:
    each record is cut into fragments that never cross a 32768-byte block
    boundary; a block with fewer than seven bytes left is padded with zeros
    and writing continues at the next block.

    The CRC32C functions (util/crc32c.h) are given to the writer as a
    CrcFunctions value; kCrc32c is the one leveldb links, defined in the
    Crc32c module. The WritableFile (include/leveldb/env.h) is a byte sequence whose Append and
    Flush may fail at any call. Status values are reduced to s.ok(). */
module LogWriter {
  import opened Wrappers
  import opened Slices
  import opened Coding
  import opened LogFormat
  import Crc32c

  /** crc32c::Value, crc32c::Extend and crc32c::Mask. */
  datatype CrcFunctions = CrcFunctions(value: Bytes -> U32, extend: (U32, Bytes) -> U32, mask: U32 -> U32)

  /** The functions of util/crc32c. */
  const kCrc32c: CrcFunctions := CrcFunctions(Crc32c.Value, Crc32c.Extend, Crc32c.Mask)

  /** type_crc_[t]: the CRC of the single type byte. */
  function TypeCrc(c: CrcFunctions, t: RecordType): U32
  {
    c.value([t])
  }

  // ---------------------------------------------------------------------
  // The physical layout
  // ---------------------------------------------------------------------

  function Zeros(n: nat): (r: Bytes)
    ensures |r| == n && forall i :: 0 <= i < n ==> r[i] == 0
  {
    if n == 0 then [] else [0] + Zeros(n - 1)
  }

  /** The checksum EmitPhysicalRecord stores: the precomputed CRC32C of the
      type byte, extended over the payload, then masked. */
  function Checksum(c: CrcFunctions, t: RecordType, data: Bytes): U32
  {
    c.mask(c.extend(TypeCrc(c, t), data))
  }

  /** The stored checksum unmasks to the CRC32C of the type byte followed by
      the payload, the bytes a reader checks. */
  lemma ChecksumCovers(t: RecordType, data: Bytes)
    ensures Crc32c.Unmask(Checksum(kCrc32c, t, data)) == Crc32c.Value([t] + data)
  {
    Crc32c.UnmaskMask(Crc32c.Extend(Crc32c.Value([t]), data));
    Crc32c.ExtendValue([t], data);
  }

  /** EmitPhysicalRecord's output: the 7-byte header (the masked checksum,
      then the low and high bytes of the length, then the type) and the
      payload. */
  function Physical(c: CrcFunctions, t: RecordType, data: Bytes): (r: Bytes)
    ensures |r| == kHeaderSize + |data|
  {
    Fixed32(Checksum(c, t, data)) + [|data| % 0x100, (|data| / 0x100) % 0x100, t] + data
  }

  /** One fragment of a record: `trailer` zero bytes written before it to
      close the previous block, the block offset `start` of its header, its
      type and its payload. */
  datatype Fragment = Fragment(trailer: nat, start: nat, kind: RecordType, data: Bytes)

  /** The layout facts log_writer.cc asserts: a trailer is shorter than a
      header and only precedes a fragment at the start of a block, a fragment
      ends inside its block, and its length fits in two bytes. */
  predicate Fits(f: Fragment)
  {
    f.trailer < kHeaderSize && (f.trailer > 0 ==> f.start == 0) &&
    f.start + kHeaderSize + |f.data| <= kBlockSize && |f.data| <= 0xffff
  }

  /** Block offset just after a fragment. */
  function NextOffset(f: Fragment): nat
  {
    f.start + kHeaderSize + |f.data|
  }

  /** The first fragment AddRecord emits from block offset `offset`: when
      fewer than seven bytes remain in the block, a trailer of zeros closes
      it and the fragment starts the next block; the fragment takes as much
      of `data` as the block still holds. */
  function FirstFragment(offset: nat, data: Bytes, begin: bool): (f: Fragment)
    requires offset <= kBlockSize
    ensures Fits(f) && |f.data| <= |data| && f.data == data[..|f.data|]
    ensures offset + f.trailer == f.start || offset + f.trailer == f.start + kBlockSize
    ensures |f.data| < |data| ==> 0 < |f.data| || offset < NextOffset(f)
  {
    var switch := kBlockSize - offset < kHeaderSize;
    var o := if switch then 0 else offset;
    var avail := kBlockSize - o - kHeaderSize;
    var n := if |data| < avail then |data| else avail;
    Fragment(if switch then kBlockSize - offset else 0, o, TypeOf(begin, |data| == n), data[..n])
  }

  /** The fragments AddRecord emits for `data` from block offset `offset`;
      `begin` says whether the first of them starts the record. */
  function Fragments(offset: nat, data: Bytes, begin: bool): (fs: seq<Fragment>)
    requires offset <= kBlockSize
    ensures |fs| >= 1 && fs[0] == FirstFragment(offset, data, begin)
    ensures forall i :: 0 <= i < |fs| ==> Fits(fs[i])
    decreases |data|, kBlockSize - offset
  {
    var f := FirstFragment(offset, data, begin);
    if |f.data| == |data| then [f]
    else [f] + Fragments(NextOffset(f), data[|f.data|..], false)
  }

  /** The type of a fragment, from whether it begins and whether it ends the
      record. */
  function TypeOf(begin: bool, end: bool): (t: RecordType)
    ensures t != kZeroType
    ensures (t == kFullType || t == kFirstType) <==> begin
    ensures (t == kFullType || t == kLastType) <==> end
  {
    if begin && end then kFullType
    else if begin then kFirstType
    else if end then kLastType
    else kMiddleType
  }

  /** The block offset after the last fragment. */
  function FinalOffset(offset: nat, data: Bytes, begin: bool): nat
    requires offset <= kBlockSize
  {
    var fs := Fragments(offset, data, begin);
    NextOffset(fs[|fs| - 1])
  }

  /** One step of Fragments: the first fragment, and what follows it. */
  lemma FragmentsStep(offset: nat, data: Bytes, begin: bool)
    requires offset <= kBlockSize
    ensures var fs := Fragments(offset, data, begin);
            var f := FirstFragment(offset, data, begin);
            (|fs| == 1 <==> |f.data| == |data|) &&
            (|fs| == 1 ==> FinalOffset(offset, data, begin) == NextOffset(f)) &&
            (|fs| > 1 ==> fs[1..] == Fragments(NextOffset(f), data[|f.data|..], false) &&
                          FinalOffset(offset, data, begin) ==
                          FinalOffset(NextOffset(f), data[|f.data|..], false))
  {
    var fs := Fragments(offset, data, begin);
    var f := FirstFragment(offset, data, begin);
    if |fs| > 1 {
      var rest := Fragments(NextOffset(f), data[|f.data|..], false);
      assert fs[|fs| - 1] == rest[|rest| - 1];
    }
  }

  /** The bytes written for a run of fragments: each fragment's trailer
      zeros, header and payload. */
  function Encode(c: CrcFunctions, fs: seq<Fragment>): Bytes
  {
    if fs == [] then []
    else Zeros(fs[0].trailer) + Physical(c, fs[0].kind, fs[0].data) + Encode(c, fs[1..])
  }

  /** The payloads of a run of fragments, concatenated. */
  function Reassemble(fs: seq<Fragment>): Bytes
  {
    if fs == [] then [] else fs[0].data + Reassemble(fs[1..])
  }

  // ---------------------------------------------------------------------
  // Reading the layout back
  // ---------------------------------------------------------------------

  /** A log reader's step at block offset `offset`: skip the zero trailer
      where fewer than seven bytes remain in the block, read a header, check
      type, length and checksum, and take the payload. Gives the fragment and
      the number of bytes it used. */
  function ParseOne(c: CrcFunctions, bytes: Bytes, offset: nat): (r: Option<(Fragment, nat)>)
    requires offset <= kBlockSize
    ensures r.Some? ==> kHeaderSize <= r.value.1 <= |bytes| && Fits(r.value.0)
  {
    var switch := kBlockSize - offset < kHeaderSize;
    var trailer := if switch then kBlockSize - offset else 0;
    var o := if switch then 0 else offset;
    if |bytes| < trailer + kHeaderSize || bytes[..trailer] != Zeros(trailer) then None
    else
      var header := bytes[trailer..trailer + kHeaderSize];
      var n: nat := header[4] + 0x100 * (header[5] as int);
      var t := header[6];
      if t == kZeroType || t > kMaxRecordType || o + kHeaderSize + n > kBlockSize ||
         |bytes| < trailer + kHeaderSize + n then None
      else
        var data := bytes[trailer + kHeaderSize..trailer + kHeaderSize + n];
        if DecodeFixed32(header[..4]) != Checksum(c, t, data) then None
        else Some((Fragment(trailer, o, t, data), trailer + kHeaderSize + n))
  }

  /** A log reader over bytes that begin at block offset `offset`: the
      fragments, or None at the first malformed one. */
  function Parse(c: CrcFunctions, bytes: Bytes, offset: nat): Option<seq<Fragment>>
    requires offset <= kBlockSize
    decreases |bytes|
  {
    if bytes == [] then Some([])
    else
      match ParseOne(c, bytes, offset)
      case None => None
      case Some((f, used)) => Prepend([f], Parse(c, bytes[used..], NextOffset(f)))
  }

  /** fs followed by the fragments r reads, or None if r failed. */
  function Prepend(fs: seq<Fragment>, r: Option<seq<Fragment>>): Option<seq<Fragment>>
  {
    match r
    case None => None
    case Some(more) => Some(fs + more)
  }

  /** The fields of an emitted header, read back. */
  lemma PhysicalFields(c: CrcFunctions, t: RecordType, data: Bytes, tail: Bytes)
    requires |data| <= 0xffff
    ensures var p := Physical(c, t, data) + tail;
            DecodeFixed32(p[..4]) == Checksum(c, t, data) &&
            p[4] + 0x100 * (p[5] as int) == |data| && p[6] == t &&
            p[kHeaderSize..kHeaderSize + |data|] == data && p[kHeaderSize + |data|..] == tail
  {
    var p := Physical(c, t, data) + tail;
    var sum := Checksum(c, t, data);
    assert p[..4] == Fixed32(sum);
    Fixed32RoundTrip(sum, p[..4]);
    assert p[kHeaderSize..] == data + tail;
  }

  /** The reader's step takes back exactly the first fragment the writer
      emits, trailer included. */
  lemma ParseOneFirstFragment(c: CrcFunctions, offset: nat, data: Bytes, begin: bool, tail: Bytes)
    requires offset <= kBlockSize
    ensures var f := FirstFragment(offset, data, begin);
            ParseOne(c, Zeros(f.trailer) + Physical(c, f.kind, f.data) + tail, offset) ==
            Some((f, f.trailer + kHeaderSize + |f.data|))
  {
    var f := FirstFragment(offset, data, begin);
    ParsePhysical(c, offset, f, tail);
  }

  /** The reader's step takes back a fragment whose trailer and start are
      the ones the reader expects at block offset `offset`. */
  lemma ParsePhysical(c: CrcFunctions, offset: nat, f: Fragment, tail: Bytes)
    requires offset <= kBlockSize && Fits(f) && kZeroType < f.kind <= kMaxRecordType
    requires f.trailer == if kBlockSize - offset < kHeaderSize then kBlockSize - offset else 0
    requires f.start == if kBlockSize - offset < kHeaderSize then 0 else offset
    ensures ParseOne(c, Zeros(f.trailer) + Physical(c, f.kind, f.data) + tail, offset) ==
            Some((f, f.trailer + kHeaderSize + |f.data|))
  {
    var p := Physical(c, f.kind, f.data) + tail;
    var bytes := Zeros(f.trailer) + Physical(c, f.kind, f.data) + tail;
    Associate(Zeros(f.trailer), Physical(c, f.kind, f.data), tail);
    assert bytes[..f.trailer] == Zeros(f.trailer);
    assert bytes[f.trailer..] == p;
    PhysicalFields(c, f.kind, f.data, tail);
    var header := bytes[f.trailer..f.trailer + kHeaderSize];
    assert header == p[..kHeaderSize];
    assert header[..4] == p[..4];
    assert bytes[f.trailer + kHeaderSize..f.trailer + kHeaderSize + |f.data|] ==
           p[kHeaderSize..kHeaderSize + |f.data|];
  }

  /** The bytes emitted for a record read back, at any position in a log, as
      exactly its fragments, whatever follows them. */
  lemma {:induction false} ParseEncoded(c: CrcFunctions, offset: nat, data: Bytes, begin: bool, rest: Bytes)
    requires offset <= kBlockSize
    ensures Parse(c, Encode(c, Fragments(offset, data, begin)) + rest, offset) ==
            Prepend(Fragments(offset, data, begin), Parse(c, rest, FinalOffset(offset, data, begin)))
    decreases |data|, kBlockSize - offset
  {
    var fs := Fragments(offset, data, begin);
    var f := fs[0];
    var n := |f.data|;
    var after := Encode(c, fs[1..]) + rest;
    var bytes := Encode(c, fs) + rest;
    var used := f.trailer + kHeaderSize + n;
    assert bytes == Zeros(f.trailer) + Physical(c, f.kind, f.data) + after;
    ParseOneFirstFragment(c, offset, data, begin, after);
    assert bytes[used..] == after;
    assert Parse(c, bytes, offset) == Prepend([f], Parse(c, after, NextOffset(f)));
    FragmentsStep(offset, data, begin);
    if |fs| == 1 {
      assert after == rest;
      assert fs == [f];
    } else {
      ParseEncoded(c, NextOffset(f), data[n..], false, rest);
      assert fs == [f] + fs[1..];
      match Parse(c, rest, FinalOffset(offset, data, begin))
      case None =>
      case Some(more) =>
        Regroup(f, fs[1..], more);
    }
  }

  /** Concatenation of byte strings is associative. */
  lemma Associate(a: Bytes, b: Bytes, c: Bytes)
    ensures (a + b) + c == a + (b + c)
  {
  }

  lemma Regroup(f: Fragment, fs: seq<Fragment>, more: seq<Fragment>)
    ensures [f] + (fs + more) == ([f] + fs) + more
  {
  }

  /** AddRecord in the middle of a record: `done` were emitted, and what
      remains to emit, from block offset `offset`, are the fragments of
      `rest`. */
  ghost predicate Pending(all: seq<Fragment>, done: seq<Fragment>, offset: nat, rest: Bytes, begin: bool)
  {
    offset <= kBlockSize && (begin <==> done == []) &&
    all == done + Fragments(offset, rest, begin)
  }

  /** AddRecord after its loop: at least one fragment was emitted, the ones
      emitted begin the record's fragments, the block offset is just after
      the last of them, and `complete` means that they are all of them. */
  ghost predicate Finished(all: seq<Fragment>, done: seq<Fragment>, offset: nat, complete: bool)
  {
    1 <= |done| && done <= all && offset == NextOffset(done[|done| - 1]) &&
    (complete ==> done == all)
  }

  /** Emitting the next fragment: the loop may stop there (completing the
      record if it was the last fragment), or go on with the rest. */
  lemma MoveAcross(all: seq<Fragment>, done: seq<Fragment>, offset: nat, rest: Bytes, begin: bool)
    requires Pending(all, done, offset, rest, begin)
    ensures var f := FirstFragment(offset, rest, begin);
            Finished(all, done + [f], NextOffset(f), |f.data| == |rest|) &&
            (|f.data| < |rest| ==>
               Pending(all, done + [f], NextOffset(f), rest[|f.data|..], false))
  {
    var f := FirstFragment(offset, rest, begin);
    var fs := Fragments(offset, rest, begin);
    var d := done + [f];
    FragmentsStep(offset, rest, begin);
    assert d[|d| - 1] == f;
    if |f.data| < |rest| {
      var more := Fragments(NextOffset(f), rest[|f.data|..], false);
      assert fs == [f] + fs[1..] == [f] + more;
      assert all == d + more;
    } else {
      assert fs == [f];
      assert all == d;
    }
  }

  /** The payloads of the fragments put back together are the record. */
  lemma {:induction false} FragmentsReassemble(offset: nat, data: Bytes, begin: bool)
    requires offset <= kBlockSize
    ensures Reassemble(Fragments(offset, data, begin)) == data
    decreases |data|, kBlockSize - offset
  {
    var fs := Fragments(offset, data, begin);
    var f := fs[0];
    var n := |f.data|;
    FragmentsStep(offset, data, begin);
    assert f.data == data[..n];
    assert Reassemble(fs) == f.data + Reassemble(fs[1..]);
    if |fs| > 1 {
      FragmentsReassemble(NextOffset(f), data[n..], false);
      assert data == data[..n] + data[n..];
    } else {
      assert fs[1..] == [] && n == |data|;
    }
  }

  /** Fragment types: a record in one fragment is Full; otherwise it is
      First, then Middle ones, then Last. A continuation (begin false) is
      Middle fragments and then Last. */
  lemma {:induction false} FragmentKinds(offset: nat, data: Bytes, begin: bool)
    requires offset <= kBlockSize
    ensures var fs := Fragments(offset, data, begin);
            (begin && |fs| == 1 ==> fs[0].kind == kFullType) &&
            (begin && |fs| > 1 ==> fs[0].kind == kFirstType) &&
            (!begin ==> fs[0].kind == (if |fs| == 1 then kLastType else kMiddleType)) &&
            (|fs| > 1 ==> fs[|fs| - 1].kind == kLastType) &&
            (forall i :: 0 < i < |fs| - 1 ==> fs[i].kind == kMiddleType)
    decreases |data|, kBlockSize - offset
  {
    var fs := Fragments(offset, data, begin);
    var n := |fs[0].data|;
    FragmentsStep(offset, data, begin);
    if |fs| > 1 {
      FragmentKinds(NextOffset(fs[0]), data[n..], false);
      forall i | 0 < i < |fs| - 1
        ensures fs[i].kind == kMiddleType
      {
        assert fs[i] == fs[1..][i - 1];
      }
    }
  }

  /** An empty record is one zero-length Full fragment. */
  lemma EmptyRecord(offset: nat)
    requires offset <= kBlockSize
    ensures |Fragments(offset, [], true)| == 1
    ensures Fragments(offset, [], true)[0].kind == kFullType
    ensures Fragments(offset, [], true)[0].data == []
  {
  }

  /** A 40000-byte record written at the start of a block: a First fragment
      of 32761 bytes filling the block, and a Last fragment with the other
      7239 bytes at the start of the next block. */
  lemma FortyThousandBytes(data: Bytes)
    requires |data| == 40000
    ensures Fragments(0, data, true) ==
            [Fragment(0, 0, kFirstType, data[..32761]), Fragment(0, 0, kLastType, data[32761..])]
  {
    assert data[32761..][..7239] == data[32761..];
    assert Fragments(32768, data[32761..], false) == [Fragment(0, 0, kLastType, data[32761..])];
  }

  /** The block offset tracks the file length: the bytes emitted for a
      record move the offset by their length, up to whole blocks. */
  lemma {:induction false} EncodedLengthTracksOffset(c: CrcFunctions, offset: nat, data: Bytes, begin: bool)
    returns (blocks: nat)
    requires offset <= kBlockSize
    ensures offset + |Encode(c, Fragments(offset, data, begin))| ==
            FinalOffset(offset, data, begin) + kBlockSize * blocks
    decreases |data|, kBlockSize - offset
  {
    var fs := Fragments(offset, data, begin);
    var f := fs[0];
    var n := |f.data|;
    var next := NextOffset(f);
    assert |Encode(c, fs)| == f.trailer + kHeaderSize + n + |Encode(c, fs[1..])|;
    var wrap := if offset + f.trailer == f.start then 0 else 1;
    FragmentsStep(offset, data, begin);
    if |fs| > 1 {
      var more := EncodedLengthTracksOffset(c, next, data[n..], false);
      blocks := wrap + more;
    } else {
      blocks := wrap;
    }
  }

  /** Emitting one more fragment appends its bytes. */
  lemma {:induction false} EncodeSnoc(c: CrcFunctions, fs: seq<Fragment>, f: Fragment)
    ensures Encode(c, fs + [f]) == Encode(c, fs) + Zeros(f.trailer) + Physical(c, f.kind, f.data)
  {
    if fs != [] {
      assert (fs + [f])[1..] == fs[1..] + [f];
      EncodeSnoc(c, fs[1..], f);
    }
  }

  /** What a file holding `start` and then the encoding of fs holds after
      the trailer and the physical record of f are appended. */
  lemma EncodeAfter(c: CrcFunctions, start: Bytes, fs: seq<Fragment>, f: Fragment)
    ensures start + Encode(c, fs) + Zeros(f.trailer) + Physical(c, f.kind, f.data) ==
            start + Encode(c, fs + [f])
  {
    EncodeSnoc(c, fs, f);
    Associate(start + Encode(c, fs), Zeros(f.trailer), Physical(c, f.kind, f.data));
    Associate(Encode(c, fs), Zeros(f.trailer), Physical(c, f.kind, f.data));
    Associate(start, Encode(c, fs), Zeros(f.trailer) + Physical(c, f.kind, f.data));
  }

  // ---------------------------------------------------------------------
  // The file and the writer
  // ---------------------------------------------------------------------

  /** The destination file. A failing Append may have written any prefix of
      its data; `failures` counts the calls that failed. */
  class WritableFile {
    var contents: Bytes
    /** Bytes handed on by the last successful Flush. */
    var flushed: nat
    ghost var failures: nat

    constructor (initial: Bytes)
      ensures contents == initial && flushed == 0 && failures == 0
    {
      contents := initial;
      flushed := 0;
      failures := 0;
    }

    method Append(data: Bytes) returns (ok: bool)
      modifies this
      ensures ok ==> contents == old(contents) + data && failures == old(failures)
      ensures !ok ==> old(contents) <= contents <= old(contents) + data &&
                      failures == old(failures) + 1
      ensures flushed == old(flushed)
    {
      ok :| true;
      if ok {
        contents := contents + data;
      } else {
        var k :| 0 <= k <= |data|;
        contents := contents + data[..k];
        failures := failures + 1;
      }
    }

    method Flush() returns (ok: bool)
      modifies this
      ensures contents == old(contents)
      ensures ok ==> flushed == |contents| && failures == old(failures)
      ensures !ok ==> flushed == old(flushed) && failures == old(failures) + 1
    {
      ok :| true;
      if ok {
        flushed := |contents|;
      } else {
        failures := failures + 1;
      }
    }
  }

  /** InitTypeCrc: type_crc[i] is the CRC32C of the single byte i. */
  method InitTypeCrc(c: CrcFunctions) returns (typeCrc: array<U32>)
    ensures fresh(typeCrc) && typeCrc.Length == kMaxRecordType + 1
    ensures forall i :: 0 <= i <= kMaxRecordType ==> typeCrc[i] == TypeCrc(c, i)
  {
    typeCrc := new U32[kMaxRecordType + 1];
    for i := 0 to kMaxRecordType + 1
      invariant forall j :: 0 <= j < i ==> typeCrc[j] == TypeCrc(c, j)
    {
      typeCrc[i] := TypeCrc(c, i);
    }
  }

  class Writer {
    const dest: WritableFile
    /** type_crc_: the precomputed CRC32C of each type byte. */
    const crc: CrcFunctions
    const typeCrc: array<U32>
    /** block_offset_: the current offset within the current block. */
    var blockOffset: nat

    ghost predicate Valid()
      reads this, typeCrc
    {
      blockOffset <= kBlockSize && typeCrc.Length == kMaxRecordType + 1 &&
      forall i :: 0 <= i <= kMaxRecordType ==> typeCrc[i] == TypeCrc(crc, i)
    }

    /** Writer(dest): appends to an empty file, at block offset 0. */
    constructor (dest: WritableFile, c: CrcFunctions)
      ensures Valid() && this.dest == dest && crc == c && blockOffset == 0
      ensures fresh(typeCrc)
    {
      var table := InitTypeCrc(c);
      crc := c;
      this.dest := dest;
      typeCrc := table;
      blockOffset := 0;
    }

    /** Writer(dest, dest_length): appends to a file that already holds
        destLength bytes; the block offset is the position within the last
        block. */
    constructor Reopen(dest: WritableFile, destLength: U64, c: CrcFunctions)
      ensures Valid() && this.dest == dest && crc == c
      ensures blockOffset == destLength % kBlockSize
      ensures fresh(typeCrc)
    {
      var table := InitTypeCrc(c);
      crc := c;
      this.dest := dest;
      typeCrc := table;
      blockOffset := destLength % kBlockSize;
    }

    /** EmitPhysicalRecord: appends the header and the payload, flushes, and
        advances the block offset by 7 + n whatever happened. The result is
        ok exactly when no file operation failed. */
    method EmitPhysicalRecord(t: RecordType, fragment: Bytes) returns (ok: bool)
      requires Valid()
      requires |fragment| <= 0xffff
      requires blockOffset + kHeaderSize + |fragment| <= kBlockSize
      modifies this, dest
      ensures Valid()
      ensures blockOffset == old(blockOffset) + kHeaderSize + |fragment|
      ensures ok <==> dest.failures == old(dest.failures)
      ensures dest.failures >= old(dest.failures)
      ensures ok ==> dest.contents == old(dest.contents) + Physical(crc, t, fragment)
      ensures old(dest.contents) <= dest.contents
    {
      var header := FormatHeader(t, fragment);
      ok := dest.Append(header);
      if ok {
        ok := dest.Append(fragment);
        Associate(old(dest.contents), header, fragment);
        if ok {
          ok := dest.Flush();
        }
      }
      blockOffset := blockOffset + kHeaderSize + |fragment|;
    }

    /** The seven header bytes EmitPhysicalRecord fills in: the masked
        checksum of the type byte and the payload, the length's low and high
        bytes, and the type. They are the header of Physical. */
    method FormatHeader(t: RecordType, fragment: Bytes) returns (header: Bytes)
      requires Valid()
      requires |fragment| <= 0xffff
      ensures header + fragment == Physical(crc, t, fragment)
    {
      var n := |fragment|;
      var buf := new Byte[kHeaderSize];
      buf[4] := n % 0x100;
      buf[5] := n / 0x100;
      buf[6] := t;
      var sum := crc.extend(typeCrc[t], fragment);
      sum := crc.mask(sum);
      EncodeFixed32(buf, 0, sum);
      assert buf[..] == buf[..4] + [buf[4], buf[5], buf[6]];
      header := buf[..];
    }

    /** AddRecord: emits Fragments(block offset, data, true), zero-filling
        each block left with fewer than seven bytes, and stops after the
        first fragment whose emission fails. The status of the trailer's
        Append is not checked. With no failed file operation the file grows
        by exactly the encoded fragments; `emitted` fragments were written
        and the block offset is just after the last of them. */
    method AddRecord(data: Bytes) returns (ok: bool, ghost emitted: seq<Fragment>)
      requires Valid()
      modifies this, dest
      ensures Valid()
      ensures Finished(Fragments(old(blockOffset), data, true), emitted, blockOffset, ok)
      ensures ok ==> blockOffset == FinalOffset(old(blockOffset), data, true)
      ensures dest.failures == old(dest.failures) ==>
                ok && dest.contents == old(dest.contents) + Encode(crc, Fragments(old(blockOffset), data, true))
      ensures old(dest.contents) <= dest.contents
    {
      ghost var all := Fragments(blockOffset, data, true);
      assert all == Fragments(old(blockOffset), data, true);
      ghost var start := dest.contents;
      ghost var fails := dest.failures;
      ghost var done: seq<Fragment> := [];
      var rest := data;
      var left: nat := |data|;
      var begin := true;
      var more := true;
      ok := true;
      while more
        invariant Valid()
        invariant left == |rest|
        invariant more ==> ok && Pending(all, done, blockOffset, rest, begin)
        invariant !more ==> Finished(all, done, blockOffset, ok)
        invariant start <= dest.contents
        invariant dest.failures >= fails
        invariant dest.failures == fails ==> ok && dest.contents == start + Encode(crc, done)
        decreases more, left, kBlockSize - blockOffset
      {
        ghost var f := FirstFragment(blockOffset, rest, begin);
        MoveAcross(all, done, blockOffset, rest, begin);
        var fragmentLength;
        ok, fragmentLength := EmitFragment(rest, begin);
        if dest.failures == fails {
          EncodeAfter(crc, start, done, f);
        }
        done := done + [f];
        rest := rest[fragmentLength..];
        left := left - fragmentLength;
        begin := false;
        more := ok && left > 0;
      }
      emitted := done;
    }

    /** One pass of AddRecord's loop over the unwritten part `rest` of the
        record: close the block with a zero trailer when fewer than seven
        bytes remain (the Append's status is not checked), then emit as much
        of `rest` as the block holds, with the type that says whether it
        begins and whether it ends the record. */
    method EmitFragment(rest: Bytes, begin: bool) returns (ok: bool, fragmentLength: nat)
      requires Valid()
      modifies this, dest
      ensures Valid()
      ensures var f := FirstFragment(old(blockOffset), rest, begin);
              fragmentLength == |f.data| && blockOffset == NextOffset(f) &&
              (dest.failures == old(dest.failures) ==>
                 ok && dest.contents == old(dest.contents) + Zeros(f.trailer) + Physical(crc, f.kind, f.data))
      ensures dest.failures >= old(dest.failures)
      ensures old(dest.contents) <= dest.contents
    {
      ghost var f := FirstFragment(blockOffset, rest, begin);
      var leftover := kBlockSize - blockOffset;
      if leftover < kHeaderSize {
        if leftover > 0 {
          var ignored := dest.Append(Zeros(leftover));
        }
        blockOffset := 0;
      }
      ghost var middle := dest.contents;
      var left := |rest|;
      var avail := kBlockSize - blockOffset - kHeaderSize;
      fragmentLength := if left < avail then left else avail;
      var end := left == fragmentLength;
      var t := TypeOf(begin, end);
      assert f == Fragment(if leftover < kHeaderSize then leftover else 0, blockOffset, t,
                           rest[..fragmentLength]);
      ok := EmitPhysicalRecord(t, rest[..fragmentLength]);
    }
  }
}
