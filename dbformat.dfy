/** The internal-key format (db/dbformat.h): a user key followed by a fixed64
    tag packing a 56-bit sequence number above an 8-bit value type. Internal
    keys order by ascending user key and then by descending tag, so that the
    newest version of a user key comes first. */
module DbFormat {
  import opened Slices
  import opened Coding
  import opened Wrappers

  /** ValueType: the tag's low byte. Other byte values can be read back from
      corrupted keys, so the type is kept as a byte. */
  const kTypeDeletion: Byte := 0
  const kTypeValue: Byte := 1
  /** The highest-numbered value type, used when building a key to seek to. */
  const kValueTypeForSeek: Byte := kTypeValue

  /** (1 << 56) - 1: eight low bits of the tag are left for the type. */
  const kMaxSequenceNumber: nat := 0x100_0000_0000_0000 - 1

  datatype ParsedInternalKey = ParsedInternalKey(userKey: Bytes, sequence: U64, vtype: Byte)

  /** The keys AppendInternalKey accepts: sequence fits in 56 bits, type at most kValueTypeForSeek. */
  predicate Encodable(key: ParsedInternalKey)
  {
    key.sequence <= kMaxSequenceNumber && key.vtype <= kValueTypeForSeek
  }

  /** (seq << 8) | t. */
  function PackSequenceAndType(sequence: nat, t: Byte): (tag: U64)
    requires sequence <= kMaxSequenceNumber
    ensures tag / 0x100 == sequence && tag % 0x100 == t
  {
    sequence * 0x100 + t
  }

  /** The serialization AppendInternalKey appends: user_key ++ fixed64(tag). */
  function InternalKeyEncoding(key: ParsedInternalKey): Bytes
    requires Encodable(key)
  {
    key.userKey + Fixed64(PackSequenceAndType(key.sequence, key.vtype))
  }

  /** InternalKeyEncodingLength: the user key length plus eight. */
  function InternalKeyEncodingLength(key: ParsedInternalKey): nat
  {
    |key.userKey| + 8
  }

  /** InternalKeyEncodingLength is the length of the encoding. */
  lemma EncodingLength(key: ParsedInternalKey)
    requires Encodable(key)
    ensures |InternalKeyEncoding(key)| == InternalKeyEncodingLength(key)
  {
  }

  /** AppendInternalKey (dbformat.cc is not part of this model; its contract is
      the layout above): appends the user key, then PutFixed64 of the tag. */
  method AppendInternalKey(result: Bytes, key: ParsedInternalKey) returns (r: Bytes)
    requires Encodable(key)
    ensures r == result + InternalKeyEncoding(key)
  {
    r := result + key.userKey;
    r := PutFixed64(r, PackSequenceAndType(key.sequence, key.vtype));
  }

  /** The fixed64 tag stored in the last eight bytes. */
  function Tag(internalKey: Bytes): U64
    requires |internalKey| >= 8
  {
    DecodeFixed64(internalKey[|internalKey| - 8..])
  }

  /** ExtractUserKey: everything but the last eight bytes. */
  function ExtractUserKey(internalKey: Bytes): (userKey: Bytes)
    requires |internalKey| >= 8
    ensures |userKey| == |internalKey| - 8
  {
    internalKey[..|internalKey| - 8]
  }

  /** ExtractValueType: the low byte of the fixed64 tag. */
  function ExtractValueType(internalKey: Bytes): (t: Byte)
    requires |internalKey| >= 8
    ensures t == internalKey[|internalKey| - 8]
  {
    var last := internalKey[|internalKey| - 8..];
    Fixed64RoundTrip(0, last);
    Fixed64Bytes(DecodeFixed64(last));
    Tag(internalKey) % 0x100
  }

  /** The value type is the first of the eight tag bytes, as they are little-endian. */
  lemma ValueTypeIsTagLowByte(internalKey: Bytes)
    requires |internalKey| >= 8
    ensures ExtractValueType(internalKey) == internalKey[|internalKey| - 8]
  {
    var last := internalKey[|internalKey| - 8..];
    Fixed64RoundTrip(0, last);
    Fixed64Bytes(DecodeFixed64(last));
  }

  /** What ParseInternalKey writes into its out-parameter for every input of
      at least eight bytes, whether or not it then reports success: the user
      key, tag >> 8 and the tag's low byte. Packing the two back gives the tag. */
  function ParsedFields(internalKey: Bytes): (parsed: ParsedInternalKey)
    requires |internalKey| >= 8
    ensures parsed.userKey == ExtractUserKey(internalKey) && parsed.vtype == ExtractValueType(internalKey)
    ensures parsed.sequence <= kMaxSequenceNumber
    ensures PackSequenceAndType(parsed.sequence, parsed.vtype) == Tag(internalKey)
  {
    var num := Tag(internalKey);
    ParsedInternalKey(internalKey[..|internalKey| - 8], num / 0x100, num % 0x100)
  }

  /** ParseInternalKey: false (None) for inputs shorter than eight bytes;
      otherwise the fields of ParsedFields are written and the result is true
      (Some of them) exactly when the type byte is at most kTypeValue. When it
      is not, the out-parameter still holds ParsedFields(internalKey). */
  function ParseInternalKey(internalKey: Bytes): (r: Option<ParsedInternalKey>)
    ensures |internalKey| < 8 ==> r.None?
    ensures r.Some? <==> |internalKey| >= 8 && ExtractValueType(internalKey) <= kTypeValue
    ensures r.Some? ==> r.value == ParsedFields(internalKey)
    ensures r.Some? ==> Encodable(r.value) && InternalKeyEncoding(r.value) == internalKey
  {
    var n := |internalKey|;
    if n < 8 then None
    else
      var parsed := ParsedFields(internalKey);
      if parsed.vtype <= kTypeValue then
        Fixed64RoundTrip(0, internalKey[n - 8..]);
        assert internalKey == internalKey[..n - 8] + internalKey[n - 8..];
        Some(parsed)
      else None
  }

  /** Parsing the encoding of an encodable key gives the key back. */
  lemma ParseInternalKeyRoundTrip(key: ParsedInternalKey)
    requires Encodable(key)
    ensures ParseInternalKey(InternalKeyEncoding(key)) == Some(key)
    ensures ExtractUserKey(InternalKeyEncoding(key)) == key.userKey
    ensures ExtractValueType(InternalKeyEncoding(key)) == key.vtype
    ensures Tag(InternalKeyEncoding(key)) == PackSequenceAndType(key.sequence, key.vtype)
  {
    var enc := InternalKeyEncoding(key);
    var tag := PackSequenceAndType(key.sequence, key.vtype);
    assert enc[|enc| - 8..] == Fixed64(tag);
    assert enc[..|enc| - 8] == key.userKey;
    Fixed64RoundTrip(tag, Fixed64(tag));
  }

  // ---------------------------------------------------------------- ordering

  /** InternalKeyComparator::Compare with the bytewise user comparator (the body
      lives in dbformat.cc, which is not part of this model): user keys
      ascending, then the larger tag first. */
  function InternalCompare(a: Bytes, b: Bytes): (c: int)
    requires |a| >= 8 && |b| >= 8
    ensures -1 <= c <= 1
    ensures c == 0 <==> a == b
    ensures ExtractUserKey(a) != ExtractUserKey(b) ==> c == Compare(ExtractUserKey(a), ExtractUserKey(b))
  {
    TagInjective(a, b);
    assert a == ExtractUserKey(a) + a[|a| - 8..];
    assert b == ExtractUserKey(b) + b[|b| - 8..];
    var r := Compare(ExtractUserKey(a), ExtractUserKey(b));
    if r != 0 then r
    else if Tag(a) > Tag(b) then -1
    else if Tag(a) < Tag(b) then 1
    else 0
  }

  /** Two internal keys with equal tags have equal last eight bytes. */
  lemma TagInjective(a: Bytes, b: Bytes)
    requires |a| >= 8 && |b| >= 8
    ensures Tag(a) == Tag(b) <==> a[|a| - 8..] == b[|b| - 8..]
  {
    Fixed64RoundTrip(0, a[|a| - 8..]);
    Fixed64RoundTrip(0, b[|b| - 8..]);
  }

  /** Internal keys order by ascending user key, then by descending sequence
      number (and, for equal sequence numbers, by descending type). */
  lemma InternalOrder(x: ParsedInternalKey, y: ParsedInternalKey)
    requires Encodable(x) && Encodable(y)
    ensures InternalCompare(InternalKeyEncoding(x), InternalKeyEncoding(y)) < 0 <==>
      LexLess(x.userKey, y.userKey) ||
      (x.userKey == y.userKey &&
       (x.sequence > y.sequence || (x.sequence == y.sequence && x.vtype > y.vtype)))
    ensures InternalCompare(InternalKeyEncoding(x), InternalKeyEncoding(y)) == 0 <==> x == y
  {
    ParseInternalKeyRoundTrip(x);
    ParseInternalKeyRoundTrip(y);
    CompareIsLexicographic(x.userKey, y.userKey);
  }

  /** InternalCompare is zero exactly on equal strings. */
  lemma InternalCompareZero(a: Bytes, b: Bytes)
    requires |a| >= 8 && |b| >= 8
    ensures InternalCompare(a, b) == 0 <==> a == b
  {
    CompareIsLexicographic(ExtractUserKey(a), ExtractUserKey(b));
    TagInjective(a, b);
    if ExtractUserKey(a) == ExtractUserKey(b) && a[|a| - 8..] == b[|b| - 8..] {
      assert a == ExtractUserKey(a) + a[|a| - 8..];
    }
  }

  /** InternalCompare is antisymmetric and transitive. */
  lemma InternalCompareIsTotalOrder(a: Bytes, b: Bytes, c: Bytes)
    requires |a| >= 8 && |b| >= 8 && |c| >= 8
    ensures InternalCompare(a, b) < 0 <==> InternalCompare(b, a) > 0
    ensures InternalCompare(a, b) < 0 && InternalCompare(b, c) < 0 ==> InternalCompare(a, c) < 0
  {
    var ua, ub, uc := ExtractUserKey(a), ExtractUserKey(b), ExtractUserKey(c);
    CompareIsTotalOrder(ua, ub, uc);
    CompareIsLexicographic(ua, ub);
    CompareIsLexicographic(ub, uc);
    CompareIsLexicographic(ua, uc);
  }

  // ---------------------------------------------------------------- InternalKey

  /** InternalKey: an encoded internal key held in a string; empty means invalid. */
  class InternalKey {
    var rep: Bytes

    /** InternalKey(): rep_ is left empty. */
    constructor Empty()
      ensures rep == []
    {
      rep := [];
    }

    /** InternalKey(user_key, s, t). */
    constructor FromParts(userKey: Bytes, s: U64, t: Byte)
      requires Encodable(ParsedInternalKey(userKey, s, t))
      ensures rep == InternalKeyEncoding(ParsedInternalKey(userKey, s, t))
      ensures ParseInternalKey(rep) == Some(ParsedInternalKey(userKey, s, t))
    {
      ParseInternalKeyRoundTrip(ParsedInternalKey(userKey, s, t));
      var r := AppendInternalKey([], ParsedInternalKey(userKey, s, t));
      rep := r;
    }

    /** DecodeFrom(s): rep_ takes a copy of s. */
    method DecodeFrom(s: Bytes)
      modifies this
      ensures rep == s
    {
      rep := s;
    }

    /** Encode(): only valid on a non-empty key. */
    method Encode() returns (r: Bytes)
      requires rep != []
      ensures r == rep
    {
      r := rep;
    }

    /** user_key(): the user key portion. */
    function UserKey(): (u: Bytes)
      reads this
      requires |rep| >= 8
      ensures |u| == |rep| - 8 && rep == u + rep[|rep| - 8..]
    {
      ExtractUserKey(rep)
    }

    /** SetFrom(p): clears rep_ and appends the encoding of p. */
    method SetFrom(p: ParsedInternalKey)
      requires Encodable(p)
      modifies this
      ensures rep == InternalKeyEncoding(p)
      ensures ParseInternalKey(rep) == Some(p) && UserKey() == p.userKey
    {
      ParseInternalKeyRoundTrip(p);
      rep := [];
      rep := AppendInternalKey(rep, p);
    }

    /** Clear(): back to the invalid, empty key. */
    method Clear()
      modifies this
      ensures rep == []
    {
      rep := [];
    }
  }

  // ---------------------------------------------------------------- LookupKey

  /** LookupKey: the array klength varint32 ++ userkey ++ tag, where klength
      counts the user key and the tag (user_key.size() + 8, the length
      MemTable::Get decodes), and kstart is the offset of the user key. */
  datatype LookupKey = LookupKey(space: Bytes, kstart: nat)
  {
    /** memtable_key(): the whole array. */
    function MemtableKey(): Bytes { space }

    /** internal_key(): the suffix starting at the user key. */
    function InternalKey(): Bytes
      requires kstart <= |space|
    {
      space[kstart..]
    }

    /** user_key(): the internal key without its last eight bytes. */
    function UserKey(): Bytes
      requires kstart + 8 <= |space|
    {
      space[kstart..|space| - 8]
    }
  }

  /** LookupKey(user_key, sequence): built with kValueTypeForSeek so that it
      sorts before every entry of the same user key with sequence <= s. The
      constructor lives in dbformat.cc, which is not part of this model. */
  method NewLookupKey(userKey: Bytes, s: U64) returns (k: LookupKey)
    requires s <= kMaxSequenceNumber
    requires |userKey| + 8 < 0x1_0000_0000
    ensures k.kstart == |Varint(|userKey| + 8)| && k.kstart + 8 <= |k.space|
    ensures k.MemtableKey() == Varint(|userKey| + 8) + k.InternalKey()
    ensures k.InternalKey() == InternalKeyEncoding(ParsedInternalKey(userKey, s, kValueTypeForSeek))
    ensures k.UserKey() == userKey
  {
    ghost var len := Varint(|userKey| + 8);
    ghost var tag := Fixed64(PackSequenceAndType(s, kValueTypeForSeek));
    var dst := PutVarint32([], |userKey| + 8);
    assert dst == len;
    var kstart := |dst|;
    dst := dst + userKey;
    dst := PutFixed64(dst, PackSequenceAndType(s, kValueTypeForSeek));
    assert dst == len + (userKey + tag);
    assert |tag| == 8;
    k := LookupKey(dst, kstart);
    assert k.space[kstart..] == userKey + tag;
    assert k.space[kstart..|k.space| - 8] == userKey;
  }

  /** The three views of a LookupKey nest: internal_key is memtable_key minus
      the varint prefix, user_key is internal_key minus its last eight bytes,
      and the varint holds the internal key's length. */
  lemma LookupKeyLayout(userKey: Bytes, s: U64)
    requires s <= kMaxSequenceNumber && |userKey| + 8 < 0x1_0000_0000
    ensures var k := LookupKey(Varint(|userKey| + 8) + InternalKeyEncoding(
                                 ParsedInternalKey(userKey, s, kValueTypeForSeek)),
                               |Varint(|userKey| + 8)|);
      k.InternalKey() == InternalKeyEncoding(ParsedInternalKey(userKey, s, kValueTypeForSeek)) &&
      k.UserKey() == ExtractUserKey(k.InternalKey()) &&
      ParseLengthPrefixed(k.MemtableKey(), 0, |k.MemtableKey()|) == Some((k.InternalKey(), |k.MemtableKey()|))
  {
    var ik := InternalKeyEncoding(ParsedInternalKey(userKey, s, kValueTypeForSeek));
    var mk := Varint(|userKey| + 8) + ik;
    assert mk[0..|mk|] == LengthPrefixed(ik);
    LengthPrefixedRoundTrip(mk, 0, |mk|, ik);
  }
}
