/** Model of db/memtable.cc: a MemTable is a skip list of entries whose bytes
    are written into the table's arena. An entry is the length-prefixed
    internal key (user key ++ fixed64 tag) followed by the length-prefixed
    value; the list orders entries by their internal keys, so the entries of
    one user key appear newest first and Get finds the newest entry not newer
    than the lookup key's sequence number with a single seek. */
module MemTables {
  import opened Wrappers
  import opened Slices
  import opened Coding
  import opened DbFormat
  import opened Arenas
  import opened SkipLists
  import Statuses

  // ---------------------------------------------------------------------
  // Entries
  // ---------------------------------------------------------------------

  /** GetLengthPrefixedSlice(const char* data): the varint32 length and then
      that many bytes. The source reads at most five bytes of varint, which is
      the most a 32-bit varint takes; it trusts the entry, and where the bytes
      do not hold a length-prefixed string the model gives the empty slice. */
  function PrefixedSlice(data: Bytes): Bytes
  {
    match ParseLengthPrefixed(data, 0, |data|)
    case Some((s, _)) => s
    case None => []
  }

  /** The bytes Add writes: varint32 of the internal key's size, the internal
      key, varint32 of the value's size, the value. */
  function Entry(internalKey: Bytes, value: Bytes): Bytes
  {
    LengthPrefixed(internalKey) + LengthPrefixed(value)
  }

  /** MemTableIterator::value(): the length-prefixed string right after the
      entry's key. */
  function EntryValue(entry: Bytes): Bytes
  {
    match ParseLengthPrefixed(entry, 0, |entry|)
    case Some((_, q)) => PrefixedSlice(entry[q..])
    case None => []
  }

  /** A length-prefixed string reads back whatever follows it. */
  lemma {:induction false} PrefixedRoundTrip(x: Bytes, rest: Bytes)
    requires |x| < 0x1_0000_0000
    ensures ParseLengthPrefixed(LengthPrefixed(x) + rest, 0, |LengthPrefixed(x) + rest|) ==
            Some((x, |LengthPrefixed(x)|))
    ensures PrefixedSlice(LengthPrefixed(x) + rest) == x
  {
    var s := LengthPrefixed(x) + rest;
    assert s[0..|LengthPrefixed(x)|] == LengthPrefixed(x);
    LengthPrefixedRoundTrip(s, 0, |s|, x);
  }

  lemma {:induction false} PrefixedSliceOf(x: Bytes)
    requires |x| < 0x1_0000_0000
    ensures PrefixedSlice(LengthPrefixed(x)) == x
  {
    PrefixedRoundTrip(x, []);
    assert LengthPrefixed(x) + [] == LengthPrefixed(x);
  }

  /** The key and the value of an entry are the strings Add wrote. */
  lemma {:induction false} EntryRoundTrip(internalKey: Bytes, value: Bytes)
    requires |internalKey| < 0x1_0000_0000 && |value| < 0x1_0000_0000
    ensures PrefixedSlice(Entry(internalKey, value)) == internalKey
    ensures EntryValue(Entry(internalKey, value)) == value
  {
    var e := Entry(internalKey, value);
    PrefixedRoundTrip(internalKey, LengthPrefixed(value));
    assert e[|LengthPrefixed(internalKey)|..] == LengthPrefixed(value) + [];
    PrefixedRoundTrip(value, []);
  }

  /** The entries Add builds: an internal key of at least eight bytes and a
      value, both with sizes that fit a varint32. */
  predicate IsEntry(entry: Bytes)
  {
    var k, v := PrefixedSlice(entry), EntryValue(entry);
    8 <= |k| < 0x1_0000_0000 && |v| < 0x1_0000_0000 && entry == Entry(k, v)
  }

  /** Every entry Add writes is one. */
  lemma {:induction false} EntryIsEntry(internalKey: Bytes, value: Bytes)
    requires 8 <= |internalKey| < 0x1_0000_0000 && |value| < 0x1_0000_0000
    ensures IsEntry(Entry(internalKey, value))
  {
    EntryRoundTrip(internalKey, value);
  }

  // ---------------------------------------------------------------------
  // KeyComparator
  // ---------------------------------------------------------------------

  /** The internal key KeyComparator compares. A key shorter than eight bytes
      (Add and LookupKey never build one; the source would read before it) is
      padded with zero bytes, so that the comparator is total. */
  function InternalKeyOf(entry: Bytes): (k: Bytes)
    ensures |k| >= 8
    ensures |PrefixedSlice(entry)| >= 8 ==> k == PrefixedSlice(entry)
  {
    var s := PrefixedSlice(entry);
    if |s| >= 8 then s else s + [0, 0, 0, 0, 0, 0, 0, 0][..8 - |s|]
  }

  /** KeyComparator::operator(): the internal-key order of the two entries'
      length-prefixed keys. */
  function KeyComparator(a: Bytes, b: Bytes): (r: int)
    ensures -1 <= r <= 1
    ensures r == 0 <==> InternalKeyOf(a) == InternalKeyOf(b)
  {
    InternalCompare(InternalKeyOf(a), InternalKeyOf(b))
  }

  /** The user key of an entry. */
  function EntryUserKey(entry: Bytes): Bytes
  {
    ExtractUserKey(InternalKeyOf(entry))
  }

  /** The fixed64 tag of an entry: its sequence number times 256 plus its type. */
  function EntryTag(entry: Bytes): U64
  {
    Tag(InternalKeyOf(entry))
  }

  lemma {:induction false} KeyComparatorAntisymmetric(a: Bytes, b: Bytes)
    ensures KeyComparator(a, b) < 0 <==> KeyComparator(b, a) > 0
  {
    InternalCompareIsTotalOrder(InternalKeyOf(a), InternalKeyOf(b), InternalKeyOf(a));
  }

  lemma {:induction false} KeyComparatorTransitive(a: Bytes, b: Bytes, c: Bytes)
    ensures KeyComparator(a, b) < 0 && KeyComparator(b, c) < 0 ==> KeyComparator(a, c) < 0
  {
    InternalCompareIsTotalOrder(InternalKeyOf(a), InternalKeyOf(b), InternalKeyOf(c));
  }

  /** The two halves of IsOrder make it up. */
  lemma {:induction false} OrderOfParts<K(!new)>(cmp: (K, K) -> int)
    requires forall a, b :: cmp(a, b) < 0 <==> cmp(b, a) > 0
    requires forall a, b, c :: cmp(a, b) < 0 && cmp(b, c) < 0 ==> cmp(a, c) < 0
    ensures IsOrder(cmp)
  {
  }

  /** KeyComparator orders entries as the skip list needs. */
  lemma {:induction false} KeyComparatorIsOrder()
    ensures IsOrder(KeyComparator)
  {
    forall a: Bytes, b: Bytes
      ensures KeyComparator(a, b) < 0 <==> KeyComparator(b, a) > 0
    {
      KeyComparatorAntisymmetric(a, b);
    }
    forall a: Bytes, b: Bytes, c: Bytes
      ensures KeyComparator(a, b) < 0 && KeyComparator(b, c) < 0 ==> KeyComparator(a, c) < 0
    {
      KeyComparatorTransitive(a, b, c);
    }
    OrderOfParts(KeyComparator);
  }

  /** Comparing two entries: by user key, and for equal user keys the larger
      tag first. */
  lemma {:induction false} KeyComparatorOrder(a: Bytes, b: Bytes)
    ensures KeyComparator(a, b) < 0 <==>
      Compare(EntryUserKey(a), EntryUserKey(b)) < 0 ||
      (EntryUserKey(a) == EntryUserKey(b) && EntryTag(a) > EntryTag(b))
    ensures KeyComparator(a, b) == 0 <==> EntryUserKey(a) == EntryUserKey(b) && EntryTag(a) == EntryTag(b)
  {
    CompareIsLexicographic(EntryUserKey(a), EntryUserKey(b));
  }

  /** EncodeKey: clears scratch, appends varint32 of target.size() (a
      uint32_t, so the size is taken modulo 2^32) and the target's bytes. */
  method EncodeKey(target: Bytes) returns (scratch: Bytes)
    ensures scratch == LengthPrefixed(target)
    ensures |target| < 0x1_0000_0000 ==> PrefixedSlice(scratch) == target
  {
    scratch := [];
    scratch := PutVarint32(scratch, |target| % 0x1_0000_0000);
    scratch := scratch + target;
    if |target| < 0x1_0000_0000 {
      PrefixedSliceOf(target);
    }
  }

  /** KeyComparator returns 0 exactly for equal internal keys. */
  lemma {:induction false} KeyComparatorZero(a: Bytes, b: Bytes)
    ensures KeyComparator(a, b) == 0 <==> InternalKeyOf(a) == InternalKeyOf(b)
  {
    InternalCompareZero(InternalKeyOf(a), InternalKeyOf(b));
  }

  // ---------------------------------------------------------------------
  // What Get reports
  // ---------------------------------------------------------------------

  /** An entry a lookup of userKey with tag `tag` may report: the same user
      key and a tag not above the lookup's, that is, a sequence number not
      above the lookup's (the lookup's type, kValueTypeForSeek, is the largest). */
  predicate Visible(entry: Bytes, userKey: Bytes, tag: nat)
  {
    EntryUserKey(entry) == userKey && EntryTag(entry) <= tag
  }

  /** Reference definition of the entry Get settles on, by a scan of the
      first n entries: the visible entry with the largest tag (the first one
      on a tie). Generic in what is visible and what the tag is. */
  function NewestBy<K>(entries: seq<K>, visible: K -> bool, tagOf: K -> nat, n: nat): (r: Option<nat>)
    requires n <= |entries|
    ensures r.Some? ==> r.value < n && visible(entries[r.value])
  {
    if n == 0 then None
    else
      var r := NewestBy(entries, visible, tagOf, n - 1);
      if visible(entries[n - 1]) && (r.None? || tagOf(entries[n - 1]) > tagOf(entries[r.value]))
      then Some(n - 1)
      else r
  }

  /** The scan finds nothing exactly when no entry is visible, and otherwise
      an entry whose tag no visible entry exceeds. */
  lemma {:induction false} NewestIsLargest<K>(entries: seq<K>, visible: K -> bool, tagOf: K -> nat, n: nat)
    requires n <= |entries|
    ensures NewestBy(entries, visible, tagOf, n).None? <==>
            forall j :: 0 <= j < n ==> !visible(entries[j])
    ensures NewestBy(entries, visible, tagOf, n).Some? ==>
            forall j :: 0 <= j < n && visible(entries[j]) ==>
              tagOf(entries[j]) <= tagOf(entries[NewestBy(entries, visible, tagOf, n).value])
  {
    if n > 0 {
      NewestIsLargest(entries, visible, tagOf, n - 1);
    }
  }

  /** A visible entry whose tag every other visible entry is below is the one
      the scan finds. */
  lemma {:induction false} NewestUnique<K>(entries: seq<K>, visible: K -> bool, tagOf: K -> nat, i: nat)
    requires i < |entries| && visible(entries[i])
    requires forall j :: 0 <= j < |entries| && j != i && visible(entries[j]) ==>
      tagOf(entries[j]) < tagOf(entries[i])
    ensures NewestBy(entries, visible, tagOf, |entries|) == Some(i)
  {
    NewestIsLargest(entries, visible, tagOf, |entries|);
  }

  /** The entry Get settles on among the memtable's entries. */
  function Newest(entries: seq<Bytes>, userKey: Bytes, tag: nat): (r: Option<nat>)
    ensures r.Some? ==> r.value < |entries| && Visible(entries[r.value], userKey, tag)
  {
    NewestBy(entries, e => Visible(e, userKey, tag), e => EntryTag(e), |entries|)
  }

  /** Get never reports an entry whose sequence number exceeds the lookup's. */
  lemma {:induction false} NewestNotNewer(entries: seq<Bytes>, userKey: Bytes, s: nat)
    ensures var r := Newest(entries, userKey, s * 0x100 + kValueTypeForSeek);
      r.Some? ==> EntryTag(entries[r.value]) / 0x100 <= s
  {
  }

  /** The result of Get: Value when it returns true with *value assigned,
      Deleted when it returns true with *s set to NotFound, Absent when it
      returns false leaving both untouched. */
  datatype GetResult = Value(value: Bytes) | Deleted | Absent

  /** What Get reports for an entry of the lookup's user key, by the
      entry's type: its value for kTypeValue, deletion for kTypeDeletion,
      and nothing for any other type. */
  function Reported(entry: Bytes): GetResult
  {
    if EntryTag(entry) % 0x100 == kTypeValue then Value(EntryValue(entry))
    else if EntryTag(entry) % 0x100 == kTypeDeletion then Deleted
    else Absent
  }

  /** What Get reports for the entry it settles on, if any. */
  function Outcome(entries: seq<Bytes>, found: Option<nat>): GetResult
  {
    match found
    case None => Absent
    case Some(i) => if i < |entries| then Reported(entries[i]) else Absent
  }

  /** The specification of Get: the outcome of the newest visible entry. */
  function Answer(entries: seq<Bytes>, userKey: Bytes, tag: nat): GetResult
  {
    Outcome(entries, Newest(entries, userKey, tag))
  }

  // ---------------------------------------------------------------------
  // Seeking in the sorted entries
  // ---------------------------------------------------------------------

  /** A visible entry lies at or after the lower bound of the lookup target,
      and the entry at the lower bound then has the same user key. */
  lemma {:induction false} VisibleFromLowerBound(entries: seq<Bytes>, target: Bytes, userKey: Bytes, tag: nat, j: nat)
    requires SortedBy(entries, KeyComparator)
    requires EntryUserKey(target) == userKey && EntryTag(target) == tag && j < |entries|
    ensures Visible(entries[j], userKey, tag) ==>
      var lb := LowerBound(entries, target, KeyComparator);
      lb <= j && EntryUserKey(entries[lb]) == userKey
  {
    var lb := LowerBound(entries, target, KeyComparator);
    if Visible(entries[j], userKey, tag) {
      KeyComparatorOrder(entries[j], target);
      CompareIsLexicographic(userKey, userKey);
      assert lb <= j;
      if lb < j {
        KeyComparatorIsOrder();
        SortedPairwise(entries, KeyComparator, lb, j);
        KeyComparatorOrder(entries[lb], entries[j]);
        KeyComparatorOrder(entries[lb], target);
        CompareIsLexicographic(EntryUserKey(entries[lb]), userKey);
      }
    }
  }

  /** An entry at the lower bound with the lookup's user key is visible, and
      every later entry with that user key has a smaller tag. */
  lemma {:induction false} LowerBoundIsNewest(entries: seq<Bytes>, target: Bytes, userKey: Bytes, tag: nat, j: nat)
    requires SortedBy(entries, KeyComparator)
    requires EntryUserKey(target) == userKey && EntryTag(target) == tag
    requires LowerBound(entries, target, KeyComparator) < j < |entries|
    requires EntryUserKey(entries[LowerBound(entries, target, KeyComparator)]) == userKey
    requires EntryUserKey(entries[j]) == userKey
    ensures EntryTag(entries[j]) < EntryTag(entries[LowerBound(entries, target, KeyComparator)])
  {
    var lb := LowerBound(entries, target, KeyComparator);
    KeyComparatorIsOrder();
    SortedPairwise(entries, KeyComparator, lb, j);
    KeyComparatorOrder(entries[lb], entries[j]);
    CompareIsLexicographic(userKey, userKey);
  }

  /** The seek of MemTable::Get: the first entry not below the lookup target
      is the newest visible entry when it has the lookup's user key, and no
      entry is visible otherwise. */
  lemma {:induction false} SeekFindsNewest(entries: seq<Bytes>, target: Bytes, userKey: Bytes, tag: nat)
    requires SortedBy(entries, KeyComparator)
    requires EntryUserKey(target) == userKey && EntryTag(target) == tag
    ensures var lb := LowerBound(entries, target, KeyComparator);
      Newest(entries, userKey, tag) ==
        if lb < |entries| && EntryUserKey(entries[lb]) == userKey then Some(lb) else None
  {
    var lb := LowerBound(entries, target, KeyComparator);
    if lb < |entries| && EntryUserKey(entries[lb]) == userKey {
      KeyComparatorOrder(entries[lb], target);
      CompareIsLexicographic(userKey, userKey);
      assert Visible(entries[lb], userKey, tag);
      forall j | 0 <= j < |entries| && j != lb && Visible(entries[j], userKey, tag)
        ensures EntryTag(entries[j]) < EntryTag(entries[lb])
      {
        VisibleFromLowerBound(entries, target, userKey, tag, j);
        LowerBoundIsNewest(entries, target, userKey, tag, j);
      }
      NewestUnique(entries, e => Visible(e, userKey, tag), e => EntryTag(e), lb);
    } else {
      forall j | 0 <= j < |entries|
        ensures !Visible(entries[j], userKey, tag)
      {
        VisibleFromLowerBound(entries, target, userKey, tag, j);
      }
      NewestIsLargest(entries, e => Visible(e, userKey, tag), e => EntryTag(e), |entries|);
    }
  }

  /** Get's answer is decided by the entry at the lower bound of the lookup
      target alone. */
  lemma {:induction false} AnswerBySeek(entries: seq<Bytes>, target: Bytes, userKey: Bytes, tag: nat)
    requires SortedBy(entries, KeyComparator)
    requires EntryUserKey(target) == userKey && EntryTag(target) == tag
    ensures var lb := LowerBound(entries, target, KeyComparator);
      Answer(entries, userKey, tag) ==
        if lb < |entries| && EntryUserKey(entries[lb]) == userKey then Reported(entries[lb]) else Absent
  {
    SeekFindsNewest(entries, target, userKey, tag);
  }

  /** In sorted entries, the lower bound of an encoded seek target k is the
      first entry whose internal key is not below k. */
  lemma {:induction false} SeekTargetOrder(entries: seq<Bytes>, k: Bytes, i: nat)
    requires SortedBy(entries, KeyComparator)
    requires 8 <= |k| < 0x1_0000_0000 && i < |entries|
    ensures i < LowerBound(entries, LengthPrefixed(k), KeyComparator) <==>
            InternalCompare(InternalKeyOf(entries[i]), k) < 0
  {
    PrefixedSliceOf(k);
    if LowerBound(entries, LengthPrefixed(k), KeyComparator) <= i {
      KeyComparatorIsOrder();
      LowerBoundRest(entries, LengthPrefixed(k), KeyComparator, i);
    }
  }

  // ---------------------------------------------------------------------
  // Lookup keys
  // ---------------------------------------------------------------------

  /** The LookupKeys Get is given: memtable_key is the length-prefixed
      internal key, which holds at least the eight-byte tag. */
  predicate WellFormedLookup(key: LookupKey)
  {
    key.kstart + 8 <= |key.space| && |key.InternalKey()| < 0x1_0000_0000 &&
    key.MemtableKey() == LengthPrefixed(key.InternalKey())
  }

  /** Every LookupKey the constructor builds is well formed, and its tag is
      the sequence number with kValueTypeForSeek. */
  lemma {:induction false} LookupKeysAreWellFormed(k: LookupKey, userKey: Bytes, s: U64)
    requires s <= kMaxSequenceNumber && |userKey| + 8 < 0x1_0000_0000
    requires k.kstart + 8 <= |k.space| && k.MemtableKey() == Varint(|userKey| + 8) + k.InternalKey()
    requires k.InternalKey() == InternalKeyEncoding(ParsedInternalKey(userKey, s, kValueTypeForSeek))
    ensures WellFormedLookup(k)
    ensures Tag(k.InternalKey()) == s * 0x100 + kValueTypeForSeek
  {
    ParseInternalKeyRoundTrip(ParsedInternalKey(userKey, s, kValueTypeForSeek));
  }

  /** Seen as an entry, the memtable key has the lookup's user key and tag. */
  lemma {:induction false} LookupTarget(key: LookupKey)
    requires WellFormedLookup(key)
    ensures EntryUserKey(key.MemtableKey()) == key.UserKey()
    ensures EntryTag(key.MemtableKey()) == Tag(key.InternalKey())
  {
    var ik := key.InternalKey();
    PrefixedSliceOf(ik);
    assert ExtractUserKey(ik) == key.UserKey();
  }

  // ---------------------------------------------------------------------
  // The table
  // ---------------------------------------------------------------------

  /** Every element of the list is an entry Add wrote. */
  ghost predicate AllEntries(ks: seq<Bytes>)
  {
    forall i :: 0 <= i < |ks| ==> IsEntry(ks[i])
  }

  lemma {:induction false} InsertedEntries(ks: seq<Bytes>, e: Bytes)
    requires AllEntries(ks) && IsEntry(e)
    ensures AllEntries(Inserted(ks, e, KeyComparator))
  {
    SpliceIndex(ks, LowerBound(ks, e, KeyComparator), e);
  }

  /** An entry whose internal key no entry of the list has compares unequal to all of them. */
  lemma {:induction false} NewEntryDistinct(ks: seq<Bytes>, e: Bytes)
    requires AllEntries(ks) && |PrefixedSlice(e)| >= 8
    requires forall i :: 0 <= i < |ks| ==> PrefixedSlice(ks[i]) != PrefixedSlice(e)
    ensures forall i :: 0 <= i < |ks| ==> KeyComparator(e, ks[i]) != 0
  {
    forall i | 0 <= i < |ks|
      ensures KeyComparator(e, ks[i]) != 0
    {
      KeyComparatorZero(e, ks[i]);
    }
  }

  /** The internal key Add builds: the user key and the fixed64 of
      (s << 8) | type, where the shift on the 64-bit sequence number drops
      its top eight bits. */
  function AddedKey(s: U64, t: Byte, key: Bytes): (ik: Bytes)
    requires t <= kValueTypeForSeek
    ensures |ik| == |key| + 8
  {
    InternalKeyEncoding(ParsedInternalKey(key, s % 0x100_0000_0000_0000, t))
  }

  /** A sequence number that fits in 56 bits is kept whole by Add's shift. */
  lemma SequenceKept(s: U64)
    requires s <= kMaxSequenceNumber
    ensures s % 0x100_0000_0000_0000 == s
  {
  }

  /** encoded_len in Add. */
  function EncodedLength(key: Bytes, value: Bytes): nat
  {
    |Varint(|key| + 8)| + |key| + 8 + |Varint(|value|)| + |value|
  }

  // ---------------------------------------------------------------------
  // What Get reports after Add
  // ---------------------------------------------------------------------

  /** The entry Add writes reads back as the user key, the packed tag and
      the value it was built from. */
  lemma {:induction false} AddedEntryParts(s: U64, t: Byte, key: Bytes, value: Bytes)
    requires t == kTypeDeletion || t == kTypeValue
    requires |key| + 8 < 0x1_0000_0000 && |value| < 0x1_0000_0000
    ensures var e := Entry(AddedKey(s, t, key), value);
      IsEntry(e) && PrefixedSlice(e) == AddedKey(s, t, key) &&
      EntryUserKey(e) == key && EntryValue(e) == value &&
      EntryTag(e) == PackSequenceAndType(s % 0x100_0000_0000_0000, t)
  {
    EntryIsEntry(AddedKey(s, t, key), value);
    EntryRoundTrip(AddedKey(s, t, key), value);
    ParseInternalKeyRoundTrip(ParsedInternalKey(key, s % 0x100_0000_0000_0000, t));
  }

  /** The internal key of an entry is its user key followed by its tag. */
  lemma {:induction false} EntryKeyParts(entry: Bytes)
    requires IsEntry(entry)
    ensures PrefixedSlice(entry) == EntryUserKey(entry) + Fixed64(EntryTag(entry))
  {
    var k := PrefixedSlice(entry);
    Fixed64RoundTrip(0, k[|k| - 8..]);
    assert k == k[..|k| - 8] + k[|k| - 8..];
  }

  /** A visible element spliced in at p, with a larger tag than every visible
      element of s, is the one the scan finds. */
  lemma {:induction false} NewestSpliced<K>(s: seq<K>, p: nat, x: K, visible: K -> bool, tagOf: K -> nat)
    requires p <= |s| && visible(x)
    requires forall i :: 0 <= i < |s| && visible(s[i]) ==> tagOf(s[i]) < tagOf(x)
    ensures var t := s[..p] + [x] + s[p..];
      NewestBy(t, visible, tagOf, |t|) == Some(p)
  {
    var t := s[..p] + [x] + s[p..];
    SpliceIndex(s, p, x);
    forall j | 0 <= j < |t| && j != p && visible(t[j])
      ensures tagOf(t[j]) < tagOf(x)
    {
      if j < p {
        assert t[j] == s[j];
      } else {
        assert t[j] == s[j - 1];
      }
    }
    NewestUnique(t, visible, tagOf, p);
  }

  /** An inserted entry that a lookup sees, and that has a larger tag than
      every other entry the lookup sees, is the one Get settles on. */
  lemma {:induction false} InsertedIsNewest(ks: seq<Bytes>, e: Bytes, userKey: Bytes, tag: nat)
    requires Visible(e, userKey, tag)
    requires forall i :: 0 <= i < |ks| && Visible(ks[i], userKey, tag) ==> EntryTag(ks[i]) < EntryTag(e)
    ensures Newest(Inserted(ks, e, KeyComparator), userKey, tag) == Some(LowerBound(ks, e, KeyComparator))
  {
    var p := LowerBound(ks, e, KeyComparator);
    NewestSpliced(ks, p, e, x => Visible(x, userKey, tag), x => EntryTag(x));
  }

  /** An index of s, moved past the element spliced in at p. */
  function SplicedIndex(found: Option<nat>, p: nat): (r: Option<nat>)
    ensures r.None? <==> found.None?
    ensures found.Some? ==> r.value == if found.value < p then found.value else found.value + 1
  {
    match found
    case None => None
    case Some(i) => Some(if i < p then i else i + 1)
  }

  /** Splicing in an element the scan does not see moves what it finds by
      the splice and nothing else. */
  lemma {:induction false} NewestSkipsInvisible<K>(s: seq<K>, p: nat, x: K, visible: K -> bool, tagOf: K -> nat, n: nat)
    requires p <= |s| && !visible(x) && n <= |s| + 1
    ensures NewestBy(s[..p] + [x] + s[p..], visible, tagOf, n) ==
            SplicedIndex(NewestBy(s, visible, tagOf, if n <= p then n else n - 1), p)
  {
    SpliceIndex(s, p, x);
    NewestSkipsAt(s, s[..p] + [x] + s[p..], p, visible, tagOf, n);
  }

  /** NewestSkipsInvisible for any t that is s with an invisible element at p. */
  lemma {:induction false} NewestSkipsAt<K>(s: seq<K>, t: seq<K>, p: nat, visible: K -> bool, tagOf: K -> nat, n: nat)
    requires p <= |s| && |t| == |s| + 1 && !visible(t[p]) && n <= |t|
    requires forall i {:trigger t[i]} :: 0 <= i < p ==> t[i] == s[i]
    requires forall i {:trigger t[i]} :: p < i <= |s| ==> t[i] == s[i - 1]
    ensures NewestBy(t, visible, tagOf, n) == SplicedIndex(NewestBy(s, visible, tagOf, if n <= p then n else n - 1), p)
  {
    if n > 0 {
      var m := if n - 1 <= p then n - 1 else n - 2;
      NewestSkipsAt(s, t, p, visible, tagOf, n - 1);
      var r := NewestBy(s, visible, tagOf, m);
      var rt := NewestBy(t, visible, tagOf, n - 1);
      assert rt == SplicedIndex(r, p);
      var later := rt.None? || tagOf(t[n - 1]) > tagOf(t[rt.value]);
      if r.Some? {
        assert t[rt.value] == s[r.value];
      }
      if n - 1 == p {
        assert NewestBy(t, visible, tagOf, n) == rt;
      } else {
        assert t[n - 1] == s[m];
        if visible(s[m]) && later {
          assert NewestBy(s, visible, tagOf, m + 1) == Some(m);
          assert NewestBy(t, visible, tagOf, n) == Some(n - 1);
        } else {
          assert NewestBy(s, visible, tagOf, m + 1) == r;
          assert NewestBy(t, visible, tagOf, n) == rt;
        }
      }
    }
  }

  /** The whole scan over a spliced sequence, when the scan does not see
      the spliced element. */
  lemma {:induction false} SplicedScan<K>(s: seq<K>, p: nat, x: K, visible: K -> bool, tagOf: K -> nat)
    requires p <= |s| && !visible(x)
    ensures var t := s[..p] + [x] + s[p..];
      NewestBy(t, visible, tagOf, |t|) == SplicedIndex(NewestBy(s, visible, tagOf, |s|), p)
  {
    NewestSkipsInvisible(s, p, x, visible, tagOf, |s| + 1);
  }

  /** Splicing in an entry a lookup does not see moves the entry Get
      settles on by the splice and changes nothing else. */
  lemma {:induction false} NewestIgnoresInvisible(ks: seq<Bytes>, p: nat, e: Bytes, userKey: Bytes, tag: nat)
    requires p <= |ks| && !Visible(e, userKey, tag)
    ensures Newest(ks[..p] + [e] + ks[p..], userKey, tag) == SplicedIndex(Newest(ks, userKey, tag), p)
  {
    SplicedScan(ks, p, e, x => Visible(x, userKey, tag), x => EntryTag(x));
  }

  /** Where an element of s lies after the splice. */
  lemma {:induction false} SplicedElement<K>(s: seq<K>, p: nat, x: K, i: nat)
    requires p <= |s| && i < |s|
    ensures var t := s[..p] + [x] + s[p..];
      |t| == |s| + 1 && t[if i < p then i else i + 1] == s[i]
  {
    var t := s[..p] + [x] + s[p..];
    if i < p {
      assert t[i] == s[..p][i];
    } else {
      assert t[i + 1] == s[p..][i - p];
    }
  }

  /** The outcome of an entry is the same before and after a splice moves it. */
  lemma {:induction false} OutcomeSpliced(ks: seq<Bytes>, p: nat, e: Bytes, found: Option<nat>)
    requires p <= |ks|
    ensures Outcome(ks[..p] + [e] + ks[p..], SplicedIndex(found, p)) == Outcome(ks, found)
  {
    if found.Some? && found.value < |ks| {
      var i := found.value;
      var j := if i < p then i else i + 1;
      SplicedElement(ks, p, e, i);
      assert SplicedIndex(found, p) == Some(j);
      assert Outcome(ks[..p] + [e] + ks[p..], Some(j)) == Reported(ks[i]);
    }
  }

  /** Splicing in an entry a lookup does not see leaves Get's answer
      unchanged. */
  lemma {:induction false} AnswerSpliceInvisible(ks: seq<Bytes>, p: nat, e: Bytes, userKey: Bytes, tag: nat)
    requires p <= |ks| && !Visible(e, userKey, tag)
    ensures Answer(ks[..p] + [e] + ks[p..], userKey, tag) == Answer(ks, userKey, tag)
  {
    NewestIgnoresInvisible(ks, p, e, userKey, tag);
    OutcomeSpliced(ks, p, e, Newest(ks, userKey, tag));
  }

  /** Adding an entry a lookup does not see (another user key, or a newer
      sequence number than the lookup's) leaves Get's answer unchanged: a
      read at an older snapshot is not disturbed by later writes. */
  lemma {:induction false} AnswerIgnoresInvisible(ks: seq<Bytes>, e: Bytes, userKey: Bytes, tag: nat)
    requires !Visible(e, userKey, tag)
    ensures Answer(Inserted(ks, e, KeyComparator), userKey, tag) == Answer(ks, userKey, tag)
  {
    AnswerSpliceInvisible(ks, LowerBound(ks, e, KeyComparator), e, userKey, tag);
  }

  /** An entry with the user key and tag Add would build has the internal
      key Add would build. */
  lemma {:induction false} SameTagSameKey(entry: Bytes, s: U64, t: Byte, key: Bytes)
    requires IsEntry(entry) && (t == kTypeDeletion || t == kTypeValue)
    ensures EntryUserKey(entry) == key && EntryTag(entry) == PackSequenceAndType(s % 0x100_0000_0000_0000, t) ==>
            PrefixedSlice(entry) == AddedKey(s, t, key)
  {
    EntryKeyParts(entry);
  }

  /** Add of (s, kTypeValue, key, value) followed by a lookup of key at s
      gives value back, whatever the list held before, given Add's own
      precondition that no entry has the same internal key. */
  lemma {:induction false} AddThenGetValue(ks: seq<Bytes>, s: U64, key: Bytes, value: Bytes)
    requires AllEntries(ks)
    requires |key| + 8 < 0x1_0000_0000 && |value| < 0x1_0000_0000
    requires forall i :: 0 <= i < |ks| ==> PrefixedSlice(ks[i]) != AddedKey(s, kTypeValue, key)
    ensures Answer(Inserted(ks, Entry(AddedKey(s, kTypeValue, key), value), KeyComparator),
                   key, PackSequenceAndType(s % 0x100_0000_0000_0000, kValueTypeForSeek)) == Value(value)
  {
    var q := s % 0x100_0000_0000_0000;
    var e := Entry(AddedKey(s, kTypeValue, key), value);
    var tag := PackSequenceAndType(q, kValueTypeForSeek);
    AddedEntryParts(s, kTypeValue, key, value);
    forall i | 0 <= i < |ks| && Visible(ks[i], key, tag)
      ensures EntryTag(ks[i]) < EntryTag(e)
    {
      SameTagSameKey(ks[i], s, kTypeValue, key);
    }
    InsertedIsNewest(ks, e, key, tag);
    SpliceIndex(ks, LowerBound(ks, e, KeyComparator), e);
  }

  /** Add of (s, kTypeDeletion, key) followed by a lookup of key at s
      reports the deletion, unless the list already holds a value for key
      at the same sequence number s (which the lookup would see first). In
      particular it does when s is above every sequence number of key in
      the list. */
  lemma {:induction false} AddThenGetDeleted(ks: seq<Bytes>, s: U64, key: Bytes)
    requires AllEntries(ks)
    requires |key| + 8 < 0x1_0000_0000
    requires forall i :: 0 <= i < |ks| ==> PrefixedSlice(ks[i]) != AddedKey(s, kTypeDeletion, key)
    requires forall i :: 0 <= i < |ks| ==> PrefixedSlice(ks[i]) != AddedKey(s, kTypeValue, key)
    ensures Answer(Inserted(ks, Entry(AddedKey(s, kTypeDeletion, key), []), KeyComparator),
                   key, PackSequenceAndType(s % 0x100_0000_0000_0000, kValueTypeForSeek)) == Deleted
  {
    var q := s % 0x100_0000_0000_0000;
    var e := Entry(AddedKey(s, kTypeDeletion, key), []);
    var tag := PackSequenceAndType(q, kValueTypeForSeek);
    AddedEntryParts(s, kTypeDeletion, key, []);
    forall i | 0 <= i < |ks| && Visible(ks[i], key, tag)
      ensures EntryTag(ks[i]) < EntryTag(e)
    {
      SameTagSameKey(ks[i], s, kTypeValue, key);
      SameTagSameKey(ks[i], s, kTypeDeletion, key);
    }
    InsertedIsNewest(ks, e, key, tag);
    SpliceIndex(ks, LowerBound(ks, e, KeyComparator), e);
  }

  /** The list after Add of (s1, kTypeValue, key, x) and then of
      (s2, kTypeValue, key, y) to an empty table. */
  function TwoWrites(key: Bytes, x: Bytes, y: Bytes, s1: U64, s2: U64): (ks: seq<Bytes>)
    requires |key| + 8 < 0x1_0000_0000 && |x| < 0x1_0000_0000 && |y| < 0x1_0000_0000
    ensures AllEntries(ks) && |ks| == 2
  {
    var e1 := Entry(AddedKey(s1, kTypeValue, key), x);
    AddedEntryParts(s1, kTypeValue, key, x);
    AddedEntryParts(s2, kTypeValue, key, y);
    InsertedEntries([], e1);
    InsertedEntries(Inserted([], e1, KeyComparator), Entry(AddedKey(s2, kTypeValue, key), y));
    Inserted(Inserted([], e1, KeyComparator), Entry(AddedKey(s2, kTypeValue, key), y), KeyComparator)
  }

  /** Add builds different internal keys for different sequence numbers. */
  lemma {:induction false} AddedKeysDiffer(s1: U64, s2: U64, t: Byte, key: Bytes)
    requires s1 != s2 && s1 <= kMaxSequenceNumber && s2 <= kMaxSequenceNumber
    requires t == kTypeDeletion || t == kTypeValue
    ensures AddedKey(s1, t, key) != AddedKey(s2, t, key)
  {
    var k1 := ParsedInternalKey(key, s1, t);
    var k2 := ParsedInternalKey(key, s2, t);
    SequenceKept(s1);
    SequenceKept(s2);
    assert AddedKey(s1, t, key) == InternalKeyEncoding(k1);
    assert AddedKey(s2, t, key) == InternalKeyEncoding(k2);
    ParseInternalKeyRoundTrip(k1);
    ParseInternalKeyRoundTrip(k2);
  }

  /** Of two versions of one key, x written at s1 and y at a later s2, a
      lookup at s2 reads y. */
  lemma {:induction false} TwoWritesLatest(key: Bytes, x: Bytes, y: Bytes, s1: U64, s2: U64)
    requires |key| + 8 < 0x1_0000_0000 && |x| < 0x1_0000_0000 && |y| < 0x1_0000_0000
    requires s1 < s2 <= kMaxSequenceNumber
    ensures Answer(TwoWrites(key, x, y, s1, s2), key, PackSequenceAndType(s2, kValueTypeForSeek)) == Value(y)
  {
    var e1 := Entry(AddedKey(s1, kTypeValue, key), x);
    var ks1 := Inserted([], e1, KeyComparator);
    AddedEntryParts(s1, kTypeValue, key, x);
    AddedKeysDiffer(s1, s2, kTypeValue, key);
    InsertedEntries([], e1);
    assert ks1 == [e1];
    SequenceKept(s2);
    AddThenGetValue(ks1, s2, key, y);
    assert TwoWrites(key, x, y, s1, s2) == Inserted(ks1, Entry(AddedKey(s2, kTypeValue, key), y), KeyComparator);
  }

  /** Of two versions of one key, x written at s1 and y at a later s2, a
      lookup at a snapshot r from s1 up to but not including s2 reads x,
      and one before s1 finds nothing. */
  lemma {:induction false} TwoWritesSnapshot(key: Bytes, x: Bytes, y: Bytes, s1: U64, s2: U64, r: U64)
    requires |key| + 8 < 0x1_0000_0000 && |x| < 0x1_0000_0000 && |y| < 0x1_0000_0000
    requires s1 < s2 <= kMaxSequenceNumber && r < s2
    ensures Answer(TwoWrites(key, x, y, s1, s2), key, PackSequenceAndType(r, kValueTypeForSeek)) ==
            if s1 <= r then Value(x) else Absent
  {
    var e1 := Entry(AddedKey(s1, kTypeValue, key), x);
    var e2 := Entry(AddedKey(s2, kTypeValue, key), y);
    var tag := PackSequenceAndType(r, kValueTypeForSeek);
    SequenceKept(s2);
    AddedEntryParts(s2, kTypeValue, key, y);
    AnswerIgnoresInvisible(Inserted([], e1, KeyComparator), e2, key, tag);
    OneWriteRead(key, x, s1, r);
  }

  /** "x" written to "a" at sequence 5 and "y" at sequence 7: a lookup at
      7 reads "y", one at 6 still reads "x". */
  lemma TwoWritesExample()
    ensures Answer(TwoWrites([0x61], [0x78], [0x79], 5, 7), [0x61], PackSequenceAndType(7, kValueTypeForSeek)) == Value([0x79])
    ensures Answer(TwoWrites([0x61], [0x78], [0x79], 5, 7), [0x61], PackSequenceAndType(6, kValueTypeForSeek)) == Value([0x78])
  {
    TwoWritesLatest([0x61], [0x78], [0x79], 5, 7);
    TwoWritesSnapshot([0x61], [0x78], [0x79], 5, 7, 6);
  }

  /** After a single write of x at s1, a lookup at r reads x when r is not
      before s1, and finds nothing otherwise. */
  lemma {:induction false} OneWriteRead(key: Bytes, x: Bytes, s1: U64, r: U64)
    requires |key| + 8 < 0x1_0000_0000 && |x| < 0x1_0000_0000
    requires s1 <= kMaxSequenceNumber && r <= kMaxSequenceNumber
    ensures Answer(Inserted([], Entry(AddedKey(s1, kTypeValue, key), x), KeyComparator), key,
                   PackSequenceAndType(r, kValueTypeForSeek)) == if s1 <= r then Value(x) else Absent
  {
    var e1 := Entry(AddedKey(s1, kTypeValue, key), x);
    var tag := PackSequenceAndType(r, kValueTypeForSeek);
    SequenceKept(s1);
    AddedEntryParts(s1, kTypeValue, key, x);
    if s1 <= r {
      InsertedIsNewest([], e1, key, tag);
      assert Inserted([], e1, KeyComparator) == [e1];
    } else {
      AnswerIgnoresInvisible([], e1, key, tag);
    }
  }

  /** Slices of a three-part sequence whose middle part ends in eight bytes. */
  lemma {:induction false} ThreeParts<T>(e: seq<T>, a: seq<T>, k: seq<T>, rest: seq<T>)
    requires e == a + k + rest && |k| >= 8
    ensures e[0..|a|] == a && e[|a|..|a| + |k| - 8] == k[..|k| - 8]
    ensures e[|a| + |k| - 8..|a| + |k|] == k[|k| - 8..] && e[|a| + |k|..] == rest
  {
    assert e[0..|a|] == a;
    assert e[|a|..|a| + |k| - 8] == k[..|k| - 8];
    assert e[|a| + |k| - 8..|a| + |k|] == k[|k| - 8..];
    assert e[|a| + |k|..] == rest;
  }

  /** Where the parts of Entry(k, v) lie. */
  lemma {:induction false} EntryLayoutOf(entry: Bytes, k: Bytes, v: Bytes)
    requires 8 <= |k| < 0x1_0000_0000 && |v| < 0x1_0000_0000 && entry == Entry(k, v)
    ensures var n := |Varint(|k|)|;
      n <= 5 && n + |k| <= |entry| && entry[0..n] == Varint(|k|) &&
      entry[n..n + |k| - 8] == ExtractUserKey(k) &&
      entry[n + |k| - 8..n + |k|] == k[|k| - 8..] &&
      entry[n + |k|..] == LengthPrefixed(v)
  {
    VarintLengthRange(|k|);
    assert LengthPrefixed(k) == Varint(|k|) + k;
    ThreeParts(entry, Varint(|k|), k, LengthPrefixed(v));
  }

  /** What Get decodes from an entry of the list, first the varint32 key
      length read with a limit of five bytes, */
  lemma {:induction false} EntryKeyLengthLayout(entry: Bytes)
    requires IsEntry(entry)
    ensures var k := PrefixedSlice(entry); var n := |Varint(|k|)|;
      var limit := if |entry| < 5 then |entry| else 5;
      8 <= |k| && n + |k| <= |entry| &&
      Truncate(DecodeVarintFrom(entry, limit, 0, 0, 28, 0), 32) == Some((|k|, n))
  {
    var k, v := PrefixedSlice(entry), EntryValue(entry);
    EntryLayoutOf(entry, k, v);
    var limit := if |entry| < 5 then |entry| else 5;
    Varint32RoundTrip(entry, 0, limit, |k|);
  }

  /** then the user key after it, */
  lemma {:induction false} EntryUserKeyLayout(entry: Bytes)
    requires IsEntry(entry)
    ensures var k := PrefixedSlice(entry); var n := |Varint(|k|)|;
      8 <= |k| && n + |k| <= |entry| && entry[n..n + |k| - 8] == EntryUserKey(entry)
  {
    var k, v := PrefixedSlice(entry), EntryValue(entry);
    EntryLayoutOf(entry, k, v);
    assert InternalKeyOf(entry) == k;
  }

  /** then the tag at the end of the internal key, */
  lemma {:induction false} EntryTagLayout(entry: Bytes, keyEnd: nat)
    requires IsEntry(entry)
    requires keyEnd == |Varint(|PrefixedSlice(entry)|)| + |PrefixedSlice(entry)|
    ensures 8 <= keyEnd <= |entry| && DecodeFixed64(entry[keyEnd - 8..keyEnd]) == EntryTag(entry)
  {
    var k, v := PrefixedSlice(entry), EntryValue(entry);
    EntryLayoutOf(entry, k, v);
    assert InternalKeyOf(entry) == k;
    assert EntryTag(entry) == Tag(k);
    assert entry[keyEnd - 8..keyEnd] == k[|k| - 8..];
  }

  /** and the length-prefixed value after the internal key. */
  lemma {:induction false} EntryValueLayout(entry: Bytes, keyEnd: nat)
    requires IsEntry(entry)
    requires keyEnd == |Varint(|PrefixedSlice(entry)|)| + |PrefixedSlice(entry)|
    ensures keyEnd <= |entry| && PrefixedSlice(entry[keyEnd..]) == EntryValue(entry)
  {
    var k, v := PrefixedSlice(entry), EntryValue(entry);
    EntryLayoutOf(entry, k, v);
    PrefixedSliceOf(v);
  }

  /** The five parts Add writes, one after the other, make up the entry. */
  lemma {:induction false} EntryParts(b: seq<Byte>, key: Bytes, tag: U64, value: Bytes)
    requires |key| + 8 < 0x1_0000_0000 && |value| < 0x1_0000_0000
    requires b == Varint(|key| + 8) + key + Fixed64(tag) + Varint(|value|) + value
    ensures b == Entry(key + Fixed64(tag), value)
  {
    var ik := key + Fixed64(tag);
    assert |ik| % 0x1_0000_0000 == |key| + 8;
    assert |value| % 0x1_0000_0000 == |value|;
    assert LengthPrefixed(ik) == Varint(|key| + 8) + ik;
  }

  /** The first writes of Add into the buffer it allocated: the varint32 of
      the internal key's size, the user key and the fixed64 tag. */
  method EncodeInternalKey(buf: array<Byte>, key: Bytes, tag: U64) returns (p: nat)
    requires |key| + 8 < 0x1_0000_0000
    requires |Varint(|key| + 8)| + |key| + 8 <= buf.Length
    modifies buf
    ensures p == |Varint(|key| + 8)| + |key| + 8
    ensures buf[..p] == Varint(|key| + 8) + key + Fixed64(tag)
    ensures forall i :: p <= i < buf.Length ==> buf[i] == old(buf[i])
  {
    p := EncodeVarint32(buf, 0, |key| + 8);
    ghost var w := Varint(|key| + 8);
    assert buf[..p] == w;
    Store(buf, p, key);
    assert buf[..p] == w;
    assert buf[..p + |key|] == w + key;
    p, w := p + |key|, w + key;
    EncodeFixed64(buf, p, tag);
    assert buf[..p] == w;
    assert buf[..p + 8] == w + Fixed64(tag);
    p := p + 8;
  }

  /** The writes of Add into the buffer it allocated: the internal key as
      above, then the varint32 of the value's size and the value. */
  method EncodeEntry(buf: array<Byte>, key: Bytes, tag: U64, value: Bytes)
    requires |key| + 8 < 0x1_0000_0000 && |value| < 0x1_0000_0000
    requires buf.Length == EncodedLength(key, value)
    modifies buf
    ensures buf[..] == Varint(|key| + 8) + key + Fixed64(tag) + Varint(|value|) + value
  {
    var p := EncodeInternalKey(buf, key, tag);
    ghost var w := buf[..p];
    var q := EncodeVarint32(buf, p, |value|);
    assert buf[..p] == w;
    assert buf[..q] == w + Varint(|value|);
    w := w + Varint(|value|);
    Store(buf, q, value);
    assert buf[..q] == w;
    assert buf[..] == w + value;
  }

  /** GetVarint32Ptr(entry, entry + 5, &key_length) on an entry of the
      list: the internal key's length and where the key starts. */
  method ReadKeyLength(entry: Bytes) returns (keyLength: U32, keyPtr: nat)
    requires IsEntry(entry)
    ensures keyLength == |PrefixedSlice(entry)| && keyPtr == |Varint(keyLength)|
    ensures 8 <= keyLength && keyPtr + keyLength <= |entry|
  {
    EntryKeyLengthLayout(entry);
    var limit := if |entry| < 5 then |entry| else 5;
    var d := GetVarint32PtrFallback(entry, 0, limit);
    keyLength, keyPtr := d.value.0, d.value.1;
  }

  /** DecodeFixed64(key_ptr + key_length - 8): the entry's tag. */
  method ReadTag(entry: Bytes, keyEnd: nat) returns (tag: U64)
    requires IsEntry(entry)
    requires keyEnd == |Varint(|PrefixedSlice(entry)|)| + |PrefixedSlice(entry)|
    ensures tag == EntryTag(entry)
  {
    EntryTagLayout(entry, keyEnd);
    tag := DecodeFixed64(entry[keyEnd - 8..keyEnd]);
  }

  /** GetLengthPrefixedSlice(key_ptr + key_length): the entry's value. */
  method ReadValue(entry: Bytes, keyEnd: nat) returns (value: Bytes)
    requires IsEntry(entry)
    requires keyEnd == |Varint(|PrefixedSlice(entry)|)| + |PrefixedSlice(entry)|
    ensures value == EntryValue(entry)
  {
    EntryValueLayout(entry, keyEnd);
    value := PrefixedSlice(entry[keyEnd..]);
  }

  /** The decoding Get applies to the entry the seek lands on: read the
      key length, compare the user key, and switch on the low byte of the
      tag. */
  method DecodeEntry(entry: Bytes, userKey: Bytes) returns (r: GetResult)
    requires IsEntry(entry)
    ensures r == if EntryUserKey(entry) == userKey then Reported(entry) else Absent
  {
    ghost var expected := if EntryUserKey(entry) == userKey then Reported(entry) else Absent;
    var keyLength, keyPtr := ReadKeyLength(entry);
    EntryUserKeyLayout(entry);
    CompareZeroIffEqual(entry[keyPtr..keyPtr + keyLength - 8], userKey);
    if Compare(entry[keyPtr..keyPtr + keyLength - 8], userKey) == 0 {
      assert expected == Reported(entry);
      var tag := ReadTag(entry, keyPtr + keyLength);
      if tag % 0x100 == kTypeValue {
        var value := ReadValue(entry, keyPtr + keyLength);
        r := Value(value);
        assert r == Reported(entry);
      } else if tag % 0x100 == kTypeDeletion {
        r := Deleted;
        assert r == Reported(entry);
      } else {
        r := Absent;
        assert r == Reported(entry);
      }
    } else {
      r := Absent;
      assert r == expected;
    }
  }

  /** The first part of MemTable::Add: computes encoded_len, allocates that
      many bytes from the arena at addr and writes the entry into them. The
      arena records regions, not bytes, so the entry's bytes are kept in buf,
      an array exactly as long as the region at addr. */
  method AllocateEntry(arena: Arena, s: U64, t: Byte, key: Bytes, value: Bytes, entryAddr: nat, nodeAddr: nat)
    returns (buf: array<Byte>, addr: nat)
    requires t == kTypeDeletion || t == kTypeValue
    requires |key| + 8 < 0x1_0000_0000 && |value| < 0x1_0000_0000
    requires arena.Valid() && arena.HostFresh(entryAddr, FallbackBlockSize(EncodedLength(key, value)))
    requires arena.HostFresh(nodeAddr, kBlockSize)
    requires entryAddr + FallbackBlockSize(EncodedLength(key, value)) <= nodeAddr ||
             nodeAddr + kBlockSize <= entryAddr
    modifies arena
    ensures fresh(buf) && buf[..] == Entry(AddedKey(s, t, key), value)
    ensures var n := |old(arena.regions)|;
      |arena.regions| == n + 1 && arena.regions[..n] == old(arena.regions) &&
      arena.regions[n].start == addr && arena.regions[n].size == buf.Length == EncodedLength(key, value) &&
      Unused(old(arena.regions), arena.regions[n])
    ensures arena.Valid() && arena.HostFresh(nodeAddr, kBlockSize)
    ensures arena.memoryUsage >= old(arena.memoryUsage)
  {
    var keySize := |key|;
    var valSize := |value|;
    var internalKeySize := keySize + 8;
    var n1 := VarintLength(internalKeySize);
    var n2 := VarintLength(valSize);
    var encodedLen := n1 + internalKeySize + n2 + valSize;
    ghost var blocks0, sizes0 := arena.blocks, arena.blockSizes;
    addr := arena.Allocate(encodedLen, entryAddr);
    if |arena.blocks| != |blocks0| {
      FreshAfterBlock(nodeAddr, kBlockSize, blocks0, sizes0, entryAddr, FallbackBlockSize(encodedLen));
    }
    buf := new Byte[encodedLen];
    EncodeEntry(buf, key, PackSequenceAndType(s % 0x100_0000_0000_0000, t), value);
    EntryParts(buf[..], key, PackSequenceAndType(s % 0x100_0000_0000_0000, t), value);
  }

  class MemTable {
    /** refs_: the reference count, 0 after construction. */
    var refs: int
    /** arena_. */
    const arena: Arena
    /** table_: the entries, ordered by KeyComparator. */
    const table: SkipList<Bytes>

    ghost predicate Valid()
      reads this, arena, table
    {
      table.arena == arena && table.compare == KeyComparator &&
      table.Valid() && arena.Valid() && AllEntries(table.Keys())
    }

    /** MemTable(cmp): no references and an empty table whose head node is
        allocated in the table's own arena at addr. */
    constructor (addr: nat)
      requires addr > 0 && addr % kAlign == 0
      ensures Valid() && refs == 0 && table.Keys() == []
      ensures fresh(arena) && fresh(table)
    {
      refs := 0;
      var a := new Arena();
      KeyComparatorIsOrder();
      var t := new SkipList(KeyComparator, a, [], addr);
      arena := a;
      table := t;
    }

    /** ~MemTable: only an unreferenced table may be destroyed, and
        destroying it runs ~Arena, which hands back every block the arena
        allocated, in order. */
    method Destroy() returns (released: seq<nat>)
      requires Valid() && refs == 0
      ensures released == arena.blocks
    {
      released := [];
      for i := 0 to |arena.blocks|
        invariant released == arena.blocks[..i]
      {
        released := released + [arena.blocks[i]];
      }
    }

    /** ApproximateMemoryUsage: the arena's usage, its block bytes plus a
        pointer per block. */
    function ApproximateMemoryUsage(): (usage: nat)
      reads this, arena, table
      requires Valid()
      ensures usage == Sum(arena.blockSizes) + kPointerSize * |arena.blocks|
    {
      arena.MemoryUsage()
    }

    /** Add: writes the entry for (s, type, key, value) into a buffer
        allocated from the arena and inserts it into the list. The host hands
        out entryAddr when the arena needs a new block for the buffer, and
        nodeAddr when it needs one for the list node. The list takes no two
        entries with the same internal key. */
    method Add(s: U64, t: Byte, key: Bytes, value: Bytes, entryAddr: nat, nodeAddr: nat)
      requires Valid()
      requires t == kTypeDeletion || t == kTypeValue
      requires |key| + 8 < 0x1_0000_0000 && |value| < 0x1_0000_0000
      requires forall i :: 0 <= i < |table.Keys()| ==> PrefixedSlice(table.Keys()[i]) != AddedKey(s, t, key)
      requires arena.HostFresh(entryAddr, FallbackBlockSize(EncodedLength(key, value)))
      requires arena.HostFresh(nodeAddr, kBlockSize)
      requires entryAddr + FallbackBlockSize(EncodedLength(key, value)) <= nodeAddr ||
               nodeAddr + kBlockSize <= entryAddr
      modifies arena, table
      ensures Valid()
      ensures table.Keys() == Inserted(old(table.Keys()), Entry(AddedKey(s, t, key), value), KeyComparator)
      ensures ApproximateMemoryUsage() >= old(ApproximateMemoryUsage())
    {
      ghost var ks := table.Keys();
      ghost var e := Entry(AddedKey(s, t, key), value);
      EntryIsEntry(AddedKey(s, t, key), value);
      EntryRoundTrip(AddedKey(s, t, key), value);
      NewEntryDistinct(ks, e);
      InsertedEntries(ks, e);
      var buf, _ := AllocateEntry(arena, s, t, key, value, entryAddr, nodeAddr);
      table.Insert(buf[..], nodeAddr);
    }

    /** NewIterator: an iterator over the table, not yet positioned. */
    method NewIterator() returns (it: MemTableIterator)
      requires Valid()
      ensures fresh(it) && it.Inv() && it.iter.list == table && !it.Valid()
    {
      it := new MemTableIterator(table);
    }

    /** Get: seeks to the first entry not below the lookup key and reports
        it when it has the lookup's user key: its value for kTypeValue,
        deletion for kTypeDeletion. That is the newest entry for the user key
        whose sequence number is not above the lookup's. */
    method Get(key: LookupKey) returns (r: GetResult)
      requires Valid() && WellFormedLookup(key)
      ensures r == Answer(table.Keys(), key.UserKey(), Tag(key.InternalKey()))
    {
      var memkey := key.MemtableKey();
      var iter := new Iterator(table);
      iter.Seek(memkey);
      LookupTarget(key);
      AnswerBySeek(table.Keys(), memkey, key.UserKey(), Tag(key.InternalKey()));
      if iter.Valid() {
        var entry := iter.Key();
        r := DecodeEntry(entry, key.UserKey());
      } else {
        r := Absent;
      }
    }
  }

  /** MemTableIterator: the table's iterator seen through the entry format;
      key() is an entry's internal key and value() its value. */
  class MemTableIterator {
    /** iter_. */
    const iter: Iterator<Bytes>
    /** tmp_: the scratch space EncodeKey writes for Seek. */
    var tmp: Bytes

    ghost predicate Inv()
      reads this, iter, iter.list
    {
      iter.Inv() && iter.list.Valid() && iter.list.compare == KeyComparator &&
      AllEntries(iter.list.Keys())
    }

    constructor (table: SkipList<Bytes>)
      requires table.Valid() && table.compare == KeyComparator && AllEntries(table.Keys())
      ensures Inv() && iter.list == table && !Valid() && tmp == []
    {
      iter := new Iterator(table);
      tmp := [];
    }

    /** Valid: positioned at one of the table's entries. */
    function Valid(): (v: bool)
      reads this, iter, iter.list
      ensures Inv() ==> (v <==> iter.node in iter.list.chain)
    {
      iter.Valid()
    }

    /** Seek(k): positions at the first entry not below the length-prefixed
        k, which for an internal key k is the first entry whose internal key
        is not below k (SeekTargetOrder). */
    method Seek(k: Bytes)
      requires Inv()
      modifies this, iter
      ensures Inv() && tmp == LengthPrefixed(k)
      ensures Valid() <==> LowerBound(iter.list.Keys(), tmp, KeyComparator) < |iter.list.Keys()|
      ensures Valid() ==> iter.Index() == LowerBound(iter.list.Keys(), tmp, KeyComparator)
    {
      tmp := EncodeKey(k);
      iter.Seek(tmp);
    }

    method SeekToFirst()
      requires Inv()
      modifies iter
      ensures Inv()
      ensures Valid() <==> |iter.list.Keys()| > 0
      ensures Valid() ==> iter.Index() == 0
    {
      iter.SeekToFirst();
      iter.list.ChainNodes();
    }

    method SeekToLast()
      requires Inv()
      modifies iter
      ensures Inv()
      ensures Valid() <==> |iter.list.Keys()| > 0
      ensures Valid() ==> iter.Index() == |iter.list.Keys()| - 1
    {
      iter.SeekToLast();
      iter.list.ChainNodes();
    }

    method Next()
      requires Inv() && Valid()
      modifies iter
      ensures Inv()
      ensures Valid() <==> old(iter.Index()) + 1 < |iter.list.Keys()|
      ensures Valid() ==> iter.Index() == old(iter.Index()) + 1
    {
      iter.Next();
      iter.list.ChainNodes();
    }

    method Prev()
      requires Inv() && Valid()
      modifies iter
      ensures Inv()
      ensures Valid() <==> old(iter.Index()) > 0
      ensures Valid() ==> iter.Index() == old(iter.Index()) - 1
    {
      iter.Prev();
      iter.list.ChainNodes();
    }

    /** key(): the internal key of the current entry, the key the list is
        ordered by. */
    function Key(): (k: Bytes)
      reads this, iter, iter.list
      requires Inv() && Valid()
      ensures |k| >= 8 && k == InternalKeyOf(iter.list.Keys()[iter.Index()])
    {
      PrefixedSlice(iter.Key())
    }

    /** value(): the length-prefixed string after the key; together with
        key() it is exactly the entry Add wrote. */
    function Value(): (v: Bytes)
      reads this, iter, iter.list
      requires Inv() && Valid()
      ensures iter.list.Keys()[iter.Index()] == Entry(Key(), v)
    {
      EntryValue(iter.Key())
    }

    /** status(): a memtable iterator never fails. */
    method Status() returns (s: Statuses.Status)
      ensures fresh(s) && s.IsOk()
    {
      s := new Statuses.Status.OK();
    }
  }
}
