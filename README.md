# A verified model of the leveldb storage core and muduo's /proc parsers

This project models, in Dafny, the sequential core of leveldb's in-memory
write path and its byte formats, together with the small text scanners of
muduo's `ProcessInspector`:

- **Slices** (`include/leveldb/slice.h`): byte views, `compare`
  (lexicographic on unsigned bytes), `starts_with`, `==`, `!=`, `clear`,
  `remove_prefix`.
- **Coding** (`util/coding.cc`): little-endian fixed32/fixed64, base-128
  varints (unsigned LEB128), varint length, the fallback and 64-bit
  decoders, and length-prefixed slices.
- **Status** (`util/status.cc`): the `state_` byte layout (4-byte length,
  code byte, message, optional `": " ++ msg2`), `CopyState` and `ToString`.
- **Internal keys** (`db/dbformat.h`): the 8-byte tag
  `sequence << 8 | type`, `ExtractUserKey`, `ExtractValueType`,
  `ParseInternalKey`, the internal-key order, `InternalKey` and the
  `LookupKey` layout.
- **Arena** (`util/arena.cc`): a bump allocator over abstract addresses,
  with its block list, the cursor, the remaining byte count and the
  memory-usage counter; every region handed out lies inside one block and
  no two overlap.
- **Skip list** (`db/skiplist.h`): an insert-only skip list whose nodes are
  kept in sequences (keys, towers of `next` links, heights), with the search
  loops `FindGreaterOrEqual`, `FindLessThan`, `FindLast`, `Insert`,
  `Contains` and the `Iterator`. The list's key sequence is proved sorted,
  and every level is the sublist of the level-0 chain made of the nodes
  that are tall enough.
- **MemTable** (`db/memtable.cc`): `Add` encodes
  `varint(klen) ++ user key ++ tag ++ varint(vlen) ++ value` into an arena
  region and inserts it into the skip list; `Get` seeks to the lookup key
  and answers value / deleted / absent. The answer is proved to be that of
  the newest visible entry for the user key.
- **Log writer** (`db/log_format.h`, `db/log_writer.cc`): `AddRecord` cuts
  a record into Full/First/Middle/Last fragments within 32768-byte blocks,
  each with a 7-byte header, and pads block tails shorter than 7 bytes with
  zeros. The emitted bytes are proved to parse back into those fragments,
  and the fragments to reassemble the record.
- **CRC32C** (`util/crc32c`): the checksum the log writer stores, with
  Extend composing over concatenation and Unmask inverting Mask.
- **LRU cache** (`util/cache.cc`): the chained `HandleTable` with its
  power-of-two resize, and the `LRUCache` shard with its reference counts,
  its `lru_`/`in_use_` lists, its usage accounting, eviction, erase and
  prune. The 16-way `ShardedLRUCache` is built on it.
- **VersionEdit** (`db/version_edit.h`): `FileMetaData` defaults, the
  setters, `AddFile`, `DeleteFile` and `SetCompactPointer`.
- **ProcessInspector** (`muduo/net/inspect/ProcessInspector.cc`):
  `getLong`, `getProcessName`, `getStatField` and the seconds split in
  `uptime`.

Code that changes state step by step is imperative Dafny: `Arena`,
`SkipList`, `Iterator`, `MemTable`, `Writer`, `HandleTable`, `LRUCache`,
`ShardedLRUCache`, `VersionEdit`, `Status`, `Slice` and `InternalKey` are
classes whose methods carry `modifies` clauses. The encoders, decoders and
scanners that loop in the source are methods with loop invariants. Each
method is proved against a specification function, and that function's
properties are proved as lemmas: round trips, orders, invariants and
layouts.

One Dafny file per source unit: `slices.dfy`, `coding.dfy`, `status.dfy`,
`dbformat.dfy`, `arena.dfy`, `skiplist.dfy`, `memtable.dfy`,
`log_format.dfy`, `crc32c.dfy`, `log_writer.dfy`, `cache.dfy`,
`sharded_cache.dfy`, `version_edit.dfy` and `process_inspector.dfy`.
`wrappers.dfy` holds the `Option` type.

## Model

| member | source | states |
|---|---|---|
| Slices.MemCmp | open_source_code_learning/leveldb/include/leveldb/slice.h:120 | the memcmp of the first n bytes is −1, 0 or 1, and is 0 exactly when those n bytes agree |
| Slices.Compare | open_source_code_learning/leveldb/include/leveldb/slice.h:118-126 | the result is −1, 0 or 1; it is 0 exactly when the two byte strings are equal, and −1 when a is a proper prefix of b |
| Slices.CompareIsLex | open_source_code_learning/leveldb/include/leveldb/slice.h:118-126 | Slice::compare (memcmp over the common length, then the shorter slice first) equals the lexicographic comparison of the two byte strings |
| Slices.CompareIsLexicographic | open_source_code_learning/leveldb/include/leveldb/slice.h:83-87 | compare < 0, == 0, > 0 hold exactly when a is lexicographically below b, a equals b, b is below a |
| Slices.ProperPrefixIsLess | open_source_code_learning/leveldb/include/leveldb/slice.h:121-123 | a proper prefix compares less than the longer slice |
| Slices.CompareIsTotalOrder | open_source_code_learning/leveldb/include/leveldb/slice.h:118-126 | compare is antisymmetric (compare(a,b) == −compare(b,a)) and transitive |
| Slices.Equal | open_source_code_learning/leveldb/include/leveldb/slice.h:107-110 | operator== holds iff the two byte strings are equal |
| Slices.NotEqual | open_source_code_learning/leveldb/include/leveldb/slice.h:113-115 | operator!= holds iff the byte strings differ |
| Slices.CompareZeroIffEqual | open_source_code_learning/leveldb/include/leveldb/slice.h:85 | compare returns 0 iff operator== holds |
| Slices.StartsWith | open_source_code_learning/leveldb/include/leveldb/slice.h:91-94 | starts_with(x) holds iff x is no longer than the slice and is its prefix |
| Slices.Slice.Empty | open_source_code_learning/leveldb/include/leveldb/slice.h:33 | the default slice refers to no bytes |
| Slices.Slice.FromPrefix | open_source_code_learning/leveldb/include/leveldb/slice.h:37 | Slice(d, n) refers to the first n bytes of d, n at most the length of d |
| Slices.Slice.Size | open_source_code_learning/leveldb/include/leveldb/slice.h:53 | size() is the number of bytes the view refers to |
| Slices.Slice.IsEmpty | open_source_code_learning/leveldb/include/leveldb/slice.h:57 | empty() holds iff size() is 0, that is iff the view refers to no bytes |
| Slices.Slice.At | open_source_code_learning/leveldb/include/leveldb/slice.h:62-65 | operator[](n) requires n < size() and gives byte n of the view |
| Slices.Slice.Clear | open_source_code_learning/leveldb/include/leveldb/slice.h:69 | after clear() the slice is empty and empty() holds |
| Slices.Slice.RemovePrefix | open_source_code_learning/leveldb/include/leveldb/slice.h:73-77 | remove_prefix(n) needs n ≤ size, leaves the suffix from n, shrinks size by n, and byte i is the old byte i+n |
| Statuses.Message | open_source_code_learning/leveldb/util/status.cc:23-26 | the stored message length is len1 when msg2 is empty and len1 + 2 + len2 otherwise, and it begins with msg |
| Statuses.MessageLayout | open_source_code_learning/leveldb/util/status.cc:34-40 | with empty msg2 the message is msg; otherwise it is msg, then ": ", then msg2 |
| Statuses.StateRoundTrip | open_source_code_learning/leveldb/util/status.cc:21-42 | for code ≠ kOk the state is well formed, byte 4 is the code, and ToString renders the type prefix followed by exactly the stored message |
| Statuses.TypePrefix | open_source_code_learning/leveldb/util/status.cc:51-74 | the prefix is "OK" exactly for kOk, and every other code's prefix, the unknown-code one included, ends in ": " before the message |
| Statuses.TypePrefixFits | open_source_code_learning/leveldb/util/status.cc:73-74 | every code's prefix fits the 30-byte buffer ToString formats unknown codes into |
| Statuses.NewState | open_source_code_learning/leveldb/util/status.cc:26-40 | the fresh buffer holds fixed32(size), the code byte and the message, byte for byte |
| Statuses.WriteHeader | open_source_code_learning/leveldb/util/status.cc:30-32 | bytes 0–4 become fixed32(size) and the code; the rest of the buffer is unchanged |
| Statuses.WriteMessage | open_source_code_learning/leveldb/util/status.cc:34-40 | bytes from 5 on become the message; the header is unchanged |
| Statuses.WriteSecond | open_source_code_learning/leveldb/util/status.cc:36-40 | from offset off the buffer holds ": " then msg2; earlier bytes are unchanged |
| Statuses.Status.OK | open_source_code_learning/leveldb/util/status.cc:46-47 | the OK status has a null state |
| Statuses.Status.constructor | open_source_code_learning/leveldb/util/status.cc:21-42 | for code ≠ kOk the state is a fresh buffer equal to the laid-out state |
| Statuses.Status.CodeByte | open_source_code_learning/leveldb/util/status.cc:51 | a null state reads as kOk |
| Statuses.Status.IsOk | open_source_code_learning/leveldb/util/status.cc:46 | ok() holds iff the state is null |
| Statuses.Status.CopyState | open_source_code_learning/leveldb/util/status.cc:12-19 | the copy is fresh and holds the first size + 5 bytes, so it equals a well-formed state byte for byte |
| Statuses.Status.ToString | open_source_code_learning/leveldb/util/status.cc:45-85 | "OK" for a null state; otherwise the code's prefix followed by the stored message bytes |
| VersionEdits.NewFileMetaData | open_source_code_learning/leveldb/db/version_edit.h:28 | a new FileMetaData has refs 0, allowed_seeks 1<<30, file_size 0 and empty keys |
| VersionEdits.VersionEdit.constructor | open_source_code_learning/leveldb/db/version_edit.h:33 | a new edit has every has-flag false and empty compact pointers, deleted files and new files |
| VersionEdits.VersionEdit.SetComparatorName | open_source_code_learning/leveldb/db/version_edit.h:38-41 | sets has_comparator_ and the name; every other field is unchanged |
| VersionEdits.VersionEdit.SetLogNumber | open_source_code_learning/leveldb/db/version_edit.h:42-45 | sets has_log_number_ and the number; every other field is unchanged |
| VersionEdits.VersionEdit.SetPrevLogNumber | open_source_code_learning/leveldb/db/version_edit.h:46-49 | sets has_prev_log_number_ and the number; every other field is unchanged |
| VersionEdits.VersionEdit.SetNextFile | open_source_code_learning/leveldb/db/version_edit.h:50-53 | sets has_next_file_number_ and the number; every other field is unchanged |
| VersionEdits.VersionEdit.SetLastSequence | open_source_code_learning/leveldb/db/version_edit.h:54-57 | sets has_last_sequence_ and the sequence; every other field is unchanged |
| VersionEdits.VersionEdit.SetCompactPointer | open_source_code_learning/leveldb/db/version_edit.h:58-60 | appends (level, key) after the earlier pointers, in order; nothing else changes |
| VersionEdits.VersionEdit.AddFile | open_source_code_learning/leveldb/db/version_edit.h:65-75 | appends exactly one (level, FileMetaData) with the given number, size and key range and default refs/allowed_seeks; nothing else changes |
| VersionEdits.VersionEdit.DeleteFile | open_source_code_learning/leveldb/db/version_edit.h:78-80 | adds (level, file) to the deleted set; nothing else changes |
| VersionEdits.DeleteFileIdempotent | open_source_code_learning/leveldb/db/version_edit.h:78-80 | deleting the same file twice equals deleting it once, and the set grows by one only for a new pair |
| Coding.LittleEndianByte | open_source_code_learning/leveldb/util/coding.cc:13-16 | byte i of the n-byte encoding is (v >> 8i) & 0xff |
| Coding.DecodeFixed32 | open_source_code_learning/leveldb/util/coding.cc:9-18 | the inverse of the encoder at these lines (the decoder itself lives in coding.h): the decoded value is the one whose fixed32 encoding is the 4 input bytes |
| Coding.DecodeFixed64 | open_source_code_learning/leveldb/db/dbformat.h:126 | the decoded value is the one whose fixed64 encoding is the 8 input bytes |
| Coding.Fixed32RoundTrip | open_source_code_learning/leveldb/util/coding.cc:9-18 | fixed32 is 4 bytes, decoding it gives v back, and every 4-byte string is the encoding of its decoding |
| Coding.Fixed64RoundTrip | open_source_code_learning/leveldb/util/coding.cc:20-33 | fixed64 is 8 bytes, decoding it gives v back, and every 8-byte string is the encoding of its decoding |
| Coding.Fixed32Bytes | open_source_code_learning/leveldb/util/coding.cc:13-16 | the four bytes are the value's bytes, least significant first |
| Coding.Fixed64Bytes | open_source_code_learning/leveldb/util/coding.cc:24-31 | the eight bytes are the value's bytes, least significant first |
| Coding.EncodeFixed32 | open_source_code_learning/leveldb/util/coding.cc:9-18 | writes fixed32(value) at off and leaves every other byte of the buffer unchanged |
| Coding.EncodeFixed64 | open_source_code_learning/leveldb/util/coding.cc:20-33 | writes fixed64(value) at off and leaves every other byte of the buffer unchanged |
| Coding.PutFixed32 | open_source_code_learning/leveldb/util/coding.cc:35-39 | appends exactly the 4 bytes of fixed32(value) and keeps dst as its prefix |
| Coding.PutFixed64 | open_source_code_learning/leveldb/util/coding.cc:41-45 | appends exactly the 8 bytes of fixed64(value) and keeps dst as its prefix |
| Coding.VarintShape | open_source_code_learning/leveldb/util/coding.cc:55-81 | every byte of a varint but the last has the high bit set, and the last is below 128 |
| Coding.VarintLengthBound | open_source_code_learning/leveldb/util/coding.cc:59-79 | v < 2^(7k) iff the varint of v takes at most k bytes |
| Coding.VarintLengthRange | open_source_code_learning/leveldb/util/coding.cc:84 | a 32-bit value takes at most 5 bytes, a 64-bit value at most 10 |
| Coding.VarintLength | open_source_code_learning/leveldb/util/coding.cc:111-118 | the counting loop returns the number of bytes the varint encoding has, between 1 and 10 |
| Coding.VarintTwoBytes | open_source_code_learning/leveldb/util/coding.cc:61-63 | the encoding of 2^7 ≤ v < 2^14 is the two bytes EncodeVarint32 writes in that branch |
| Coding.VarintThreeBytes | open_source_code_learning/leveldb/util/coding.cc:64-67 | the encoding of 2^14 ≤ v < 2^21 is the three bytes of that branch |
| Coding.VarintFourBytes | open_source_code_learning/leveldb/util/coding.cc:68-72 | the encoding of 2^21 ≤ v < 2^28 is the four bytes of that branch |
| Coding.VarintFiveBytes | open_source_code_learning/leveldb/util/coding.cc:73-78 | the encoding of v ≥ 2^28 is the five bytes of the last branch |
| Coding.EncodeVarint32 | open_source_code_learning/leveldb/util/coding.cc:55-81 | writes the varint of v at off, returns the end (at most off + 5) and leaves every other byte unchanged |
| Coding.EncodeVarint64 | open_source_code_learning/leveldb/util/coding.cc:89-98 | writes the varint of v at off, returns the end (at most off + 10) and leaves every other byte unchanged |
| Coding.PutVarint32 | open_source_code_learning/leveldb/util/coding.cc:83-87 | appends exactly the varint of v to dst |
| Coding.PutVarint64 | open_source_code_learning/leveldb/util/coding.cc:100-104 | appends exactly the varint of v to dst |
| Coding.DecodeVarintFrom | open_source_code_learning/leveldb/util/coding.cc:124-136 | a successful decode ends strictly after its start and within the limit |
| Coding.Varint32RoundTrip | open_source_code_learning/leveldb/util/coding.cc:120-137 | decoding varint(v) ++ rest gives v and the position just past the encoding |
| Coding.Varint64RoundTrip | open_source_code_learning/leveldb/util/coding.cc:151-166 | the same for the 64-bit decoder |
| Coding.Varint32Unterminated | open_source_code_learning/leveldb/util/coding.cc:124-136 | if the input ends, or 5 bytes pass, before a byte below 128, the decoder returns NULL |
| Coding.Varint64Unterminated | open_source_code_learning/leveldb/util/coding.cc:153-165 | the same with 10 bytes for the 64-bit decoder |
| Coding.GetVarint32PtrFallback | open_source_code_learning/leveldb/util/coding.cc:120-137 | the loop returns the value and end position of the decoding function, truncated to 32 bits, ending within the limit |
| Coding.GetVarint64Ptr | open_source_code_learning/leveldb/util/coding.cc:151-166 | the loop returns the value and end position of the decoding function for 64 bits |
| Coding.GetVarint32 | open_source_code_learning/leveldb/util/coding.cc:139-149 | on success the input advances by exactly the consumed bytes; on failure it is unchanged |
| Coding.GetVarint64 | open_source_code_learning/leveldb/util/coding.cc:168-178 | on success the input advances by exactly the consumed bytes; on failure it is unchanged |
| Coding.PutLengthPrefixedSlice | open_source_code_learning/leveldb/util/coding.cc:106-109 | appends the varint of the value's length followed by the value |
| Coding.GetLengthPrefixedSliceAt | open_source_code_learning/leveldb/util/coding.cc:180-188 | the pointer form returns what the length-prefixed parser gives |
| Coding.LengthPrefixedRoundTrip | open_source_code_learning/leveldb/util/coding.cc:180-188 | parsing PutLengthPrefixedSlice's bytes gives back the value and the position after it |
| Coding.LengthPrefixedTooShort | open_source_code_learning/leveldb/util/coding.cc:185 | a declared length that runs past the limit fails |
| Coding.GetLengthPrefixedSlice | open_source_code_learning/leveldb/util/coding.cc:190-200 | on success the result is the declared bytes and the input advances past them; when the varint fails the input is unchanged; when the declared length runs past the end the input is left just after the varint; the result is unchanged on any failure |
| Crc32c.Extend | open_source_code_learning/leveldb/db/log_writer.cc:99 | extending a checksum over no bytes leaves it unchanged; ExtendAppend gives its composition over concatenation |
| Crc32c.Value | open_source_code_learning/leveldb/db/log_writer.cc:18 | the CRC32C of the empty string is 0 |
| Crc32c.Mask | open_source_code_learning/leveldb/db/log_writer.cc:100 | Unmask of the masked value gives the checksum back |
| Crc32c.Unmask | open_source_code_learning/leveldb/db/log_writer.cc:100 | Unmask undoes Mask's rotation: rotating its result right by 15 bits gives the masked value less the delta, modulo 2^32 |
| Crc32c.ExtendAppend | open_source_code_learning/leveldb/db/log_writer.cc:99 | extending over a and then b equals extending over a ++ b |
| Crc32c.ExtendValue | open_source_code_learning/leveldb/db/log_writer.cc:99 | extending the CRC of a over b gives the CRC of a ++ b, which is why the per-type CRC can be precomputed |
| Crc32c.UnmaskMask | open_source_code_learning/leveldb/db/log_writer.cc:100 | Unmask inverts Mask |
| DbFormat.PackSequenceAndType | open_source_code_learning/leveldb/db/dbformat.h:79-84 | for sequence ≤ kMaxSequenceNumber the tag's high 56 bits are the sequence and its low byte is the type |
| DbFormat.EncodingLength | open_source_code_learning/leveldb/db/dbformat.h:100-102 | the encoding of a parsed key is its user key length + 8 bytes |
| DbFormat.AppendInternalKey | open_source_code_learning/leveldb/db/dbformat.h:104-106 | appends the user key then fixed64 of the tag |
| DbFormat.ExtractUserKey | open_source_code_learning/leveldb/db/dbformat.h:117-120 | the user key is the internal key without its last 8 bytes |
| DbFormat.ExtractValueType | open_source_code_learning/leveldb/db/dbformat.h:123-129 | the value type is the first of the 8 tag bytes, the tag's low byte |
| DbFormat.ValueTypeIsTagLowByte | open_source_code_learning/leveldb/db/dbformat.h:123-129 | ExtractValueType is the first byte of the 8-byte little-endian tag, its low byte |
| DbFormat.ParsedFields | open_source_code_learning/leveldb/db/dbformat.h:203-207 | the fields written for any key of 8 or more bytes: the extracted user key and type, and a sequence ≤ kMaxSequenceNumber that packs back to the tag |
| DbFormat.ParseInternalKey | open_source_code_learning/leveldb/db/dbformat.h:199-209 | fails below 8 bytes; succeeds iff the type byte is ≤ kTypeValue, and then the parsed key re-encodes to the input |
| DbFormat.ParseInternalKeyRoundTrip | open_source_code_learning/leveldb/db/dbformat.h:199-209 | parsing the encoding of (user key, seq, type) with seq ≤ kMaxSequenceNumber and type ≤ kTypeValue gives it back, and the extractors read its parts |
| DbFormat.InternalCompare | open_source_code_learning/leveldb/db/dbformat.h:136-142 | the result is −1, 0 or 1; it is 0 exactly when the two internal keys are equal, and for different user keys it is the user keys' comparison |
| DbFormat.InternalOrder | open_source_code_learning/leveldb/db/dbformat.h:131-135 | encoded keys order by ascending user key, then descending sequence, then descending type; they compare equal only when equal |
| DbFormat.InternalCompareZero | open_source_code_learning/leveldb/db/dbformat.h:142 | the internal comparator returns 0 only on equal keys |
| DbFormat.InternalCompareIsTotalOrder | open_source_code_learning/leveldb/db/dbformat.h:142 | the internal comparator is antisymmetric and transitive |
| DbFormat.InternalKey.Empty | open_source_code_learning/leveldb/db/dbformat.h:171 | a default InternalKey has an empty rep_ |
| DbFormat.InternalKey.FromParts | open_source_code_learning/leveldb/db/dbformat.h:172-174 | rep_ is the encoding of the parts and parses back to them |
| DbFormat.InternalKey.DecodeFrom | open_source_code_learning/leveldb/db/dbformat.h:176 | rep_ becomes the given bytes |
| DbFormat.InternalKey.Encode | open_source_code_learning/leveldb/db/dbformat.h:177-180 | needs a non-empty rep_ and returns it |
| DbFormat.InternalKey.SetFrom | open_source_code_learning/leveldb/db/dbformat.h:184-187 | rep_ becomes the encoding of p, which parses back to p and whose user key is p's |
| DbFormat.InternalKey.UserKey | open_source_code_learning/leveldb/db/dbformat.h:182 | user_key() is rep_ without its last 8 bytes, so rep_ is the user key followed by the tag |
| DbFormat.InternalKey.Clear | open_source_code_learning/leveldb/db/dbformat.h:189 | rep_ becomes empty |
| DbFormat.NewLookupKey | open_source_code_learning/leveldb/db/dbformat.h:211-218 | memtable_key is varint(klen) ++ internal_key, internal_key is the user key ++ tag(s, kValueTypeForSeek), and user_key is the user key |
| DbFormat.LookupKeyLayout | open_source_code_learning/leveldb/db/dbformat.h:222-238 | the three accessors of the laid-out buffer read the internal key, the memtable key and the user key |
| LogWriter.ChecksumCovers | open_source_code_learning/leveldb/db/log_writer.cc:97-101 | the stored checksum unmasks to the CRC32C of the type byte followed by the payload |
| LogWriter.Physical | open_source_code_learning/leveldb/db/log_format.h:34-38 | a physical record is the 7-byte header plus the payload |
| LogWriter.FirstFragment | open_source_code_learning/leveldb/db/log_writer.cc:46-76 | the next fragment fits its block, is a prefix of what is left, follows any zero trailer, and makes progress |
| LogWriter.Fragments | open_source_code_learning/leveldb/db/log_writer.cc:45-82 | the do-while loop produces at least one fragment, and every fragment fits inside its block |
| LogWriter.TypeOf | open_source_code_learning/leveldb/db/log_writer.cc:67-76 | the type is never zero; it is Full or First iff the fragment begins the record and Full or Last iff it ends it |
| LogWriter.PhysicalFields | open_source_code_learning/leveldb/db/log_writer.cc:92-101 | bytes 0–3 are fixed32 of the masked CRC, bytes 4–5 the length little-endian, byte 6 the type, and the payload follows |
| LogWriter.ParseOneFirstFragment | open_source_code_learning/leveldb/db/log_writer.cc:48-78 | reading the trailer and one physical record back from the emitted bytes gives that fragment and its length |
| LogWriter.ParseEncoded | open_source_code_learning/leveldb/db/log_writer.cc:36-84 | the bytes AddRecord emits parse back into exactly its fragments, whatever follows |
| LogWriter.FragmentsReassemble | open_source_code_learning/leveldb/db/log_writer.cc:78-80 | the fragment payloads concatenate to the record |
| LogWriter.FragmentKinds | open_source_code_learning/leveldb/db/log_writer.cc:67-76 | a record is one Full fragment, or First, Middles and Last in that order |
| LogWriter.EmptyRecord | open_source_code_learning/leveldb/db/log_writer.cc:40-42 | an empty record still emits exactly one zero-length Full record |
| LogWriter.FortyThousandBytes | open_source_code_learning/leveldb/db/log_writer.cc:62-63 | from offset 0, a 40000-byte record is First(32761) followed by Last(7239) |
| LogWriter.EncodedLengthTracksOffset | open_source_code_learning/leveldb/db/log_writer.cc:111 | the emitted length moves block_offset_ to the final offset modulo whole blocks |
| LogWriter.WritableFile.Append | open_source_code_learning/leveldb/db/log_writer.cc:104-108 | a successful append adds the data; a failed one adds at most a prefix of it and counts a failure |
| LogWriter.WritableFile.Flush | open_source_code_learning/leveldb/db/log_writer.cc:104-108 | contents are unchanged; success marks them all flushed, failure counts a failure |
| LogWriter.InitTypeCrc | open_source_code_learning/leveldb/db/log_writer.cc:15-20 | the table has kMaxRecordType + 1 entries, entry i being the CRC of the byte i |
| LogWriter.Writer.constructor | open_source_code_learning/leveldb/db/log_writer.cc:22-26 | a new writer starts at block offset 0 |
| LogWriter.Writer.Reopen | open_source_code_learning/leveldb/db/log_writer.cc:28-31 | the reopening writer starts at dest_length mod 32768 |
| LogWriter.Writer.EmitPhysicalRecord | open_source_code_learning/leveldb/db/log_writer.cc:86-113 | needs n ≤ 0xffff and offset + 7 + n ≤ 32768; advances the offset by 7 + n even on error, and on success appends exactly the physical record |
| LogWriter.Writer.FormatHeader | open_source_code_learning/leveldb/db/log_writer.cc:90-101 | the header followed by the payload is the physical record |
| LogWriter.Writer.AddRecord | open_source_code_learning/leveldb/db/log_writer.cc:36-84 | if no append or flush fails the sink grows by exactly the encoded fragments and the offset becomes the final one; on an error it stops after that fragment; the sink only grows |
| LogWriter.Writer.EmitFragment | open_source_code_learning/leveldb/db/log_writer.cc:46-81 | one loop iteration: pads a short tail, emits the next fragment and moves the offset past it |
| Arenas.AlignIsPowerOfTwo | open_source_code_learning/leveldb/util/arena.cc:60-61 | the alignment is at least 8 and the pointer size, and is a power of two |
| Arenas.Slop | open_source_code_learning/leveldb/util/arena.cc:63-65 | the slop is below the alignment and makes the cursor plus slop aligned |
| Arenas.RegionsPairwiseDisjoint | open_source_code_learning/leveldb/util/arena.cc:68-75 | the arena's invariant makes any two handed-out regions disjoint |
| Arenas.BlocksPairwiseDisjoint | open_source_code_learning/leveldb/util/arena.cc:81-83 | any two recorded blocks are disjoint |
| Arenas.ChargeIsSum | open_source_code_learning/leveldb/util/arena.cc:84-85 | the charged usage is the sum of block sizes plus one pointer per block |
| Arenas.Arena.UsageCoversRequests | open_source_code_learning/leveldb/util/arena.cc:84-85 | the bytes of all handed-out regions never exceed MemoryUsage |
| Arenas.Arena.constructor | open_source_code_learning/leveldb/util/arena.cc:22-25 | a new arena has usage 0, no bytes remaining, and no blocks or regions |
| Arenas.Arena.MemoryUsage | open_source_code_learning/leveldb/util/arena.cc:84-85 | the usage is the sum of block sizes plus a pointer's size per block |
| Arenas.Arena.AllocateNewBlock | open_source_code_learning/leveldb/util/arena.cc:81-87 | records the block, raises usage by block_bytes + sizeof(char*), and leaves the cursor and regions unchanged |
| Arenas.Arena.AllocateFallback | open_source_code_learning/leveldb/util/arena.cc:35-56 | a request above 1024 bytes gets its own block and leaves the cursor unchanged; a smaller one starts a 4096-byte block, returns its start and leaves 4096 − bytes remaining; the region is new and disjoint from earlier ones |
| Arenas.Arena.Carve | open_source_code_learning/leveldb/util/arena.cc:68-71 | the fast path takes skip + bytes from the cursor and returns cursor + skip as a region disjoint from earlier ones |
| Arenas.Arena.AllocateAligned | open_source_code_learning/leveldb/util/arena.cc:59-78 | the result is a multiple of the alignment; when bytes + slop fit it is cursor + slop and consumes exactly that, otherwise the fallback's cursor effects hold |
| Arenas.Arena.Allocate | open_source_code_learning/leveldb/util/arena.cc:35-56 | a request that fits is served at the cursor and advances it by bytes; otherwise the fallback's effects hold |
| SkipLists.LowerBound | open_source_code_learning/leveldb/db/skiplist.h:297-316 | the reference index: every key before it is below the target and the key at it, if any, is not |
| SkipLists.LowerBoundPast | open_source_code_learning/leveldb/db/skiplist.h:297-316 | in a sorted list a key below the target lies before the lower bound |
| SkipLists.LowerBoundRest | open_source_code_learning/leveldb/db/skiplist.h:297-316 | in a sorted list every key from the lower bound on is at least the target |
| SkipLists.LowerBoundFindsEqual | open_source_code_learning/leveldb/db/skiplist.h:408-415 | a key equal to the target exists iff the key at the lower bound is equal to it |
| SkipLists.InsertKeepsSorted | open_source_code_learning/leveldb/db/skiplist.h:372-405 | inserting a new key at its lower bound keeps the list strictly sorted |
| SkipLists.SpliceKeys | open_source_code_learning/leveldb/db/skiplist.h:398-404 | linking the new node after its level-0 predecessor makes the key sequence the sorted insertion |
| SkipLists.SpliceWf | open_source_code_learning/leveldb/db/skiplist.h:398-404 | splicing at every level below the node's height keeps every level the tall-enough sublist of level 0 |
| SkipLists.SpliceHeights | open_source_code_learning/leveldb/db/skiplist.h:399-404 | each node keeps one link per level of its height, and heights stay in [1, max_height_] |
| SkipLists.RaiseWf | open_source_code_learning/leveldb/db/skiplist.h:382-396 | raising max_height_ keeps the list well formed |
| SkipLists.SearchNext | open_source_code_learning/leveldb/db/skiplist.h:302-305 | following next_[level] from a node before the target reaches the next node tall enough, or NULL at the end |
| SkipLists.SearchStop | open_source_code_learning/leveldb/db/skiplist.h:306-313 | stopping at level l records a valid predecessor for that level; at level 0 the next node is the lower bound |
| SkipLists.LowerBoundOfMember | open_source_code_learning/leveldb/db/skiplist.h:408-415 | a key's own lower bound in a sorted list is its index |
| SkipLists.SkipList.constructor | open_source_code_learning/leveldb/db/skiplist.h:360-369 | a new list is well formed, holds no keys and has max_height_ 1 |
| SkipLists.SkipList.NewNode | open_source_code_learning/leveldb/db/skiplist.h:219-223 | the node gets the key, height nil links and an aligned arena address; the chain is unchanged |
| SkipLists.SkipList.RandomHeight | open_source_code_learning/leveldb/db/skiplist.h:278-288 | the height is between 1 and kMaxHeight = 12 |
| SkipLists.SkipList.KeyIsAfterNode | open_source_code_learning/leveldb/db/skiplist.h:290-294 | false for NULL; in a well-formed list, true exactly when node n lies before the key's lower bound in the ascending keys |
| SkipLists.SkipList.FindGreaterOrEqual | open_source_code_learning/leveldb/db/skiplist.h:297-316 | the loop returns the node at the lower bound of the key, and fills prev with each level's predecessor |
| SkipLists.SkipList.FindLessThan | open_source_code_learning/leveldb/db/skiplist.h:320-337 | returns the last node whose key is below the target, or the head |
| SkipLists.SkipList.FindLast | open_source_code_learning/leveldb/db/skiplist.h:340-357 | returns the last node of the chain, or the head when empty |
| SkipLists.SkipList.Contains | open_source_code_learning/leveldb/db/skiplist.h:408-415 | true iff some key in the list compares equal to the key |
| SkipLists.SkipList.LinkNode | open_source_code_learning/leveldb/db/skiplist.h:399-404 | the links become those of splicing the node after prev[i] at every level below its height |
| SkipLists.SkipList.Insert | open_source_code_learning/leveldb/db/skiplist.h:372-405 | needs the key absent; the key sequence becomes the sorted insertion, earlier nodes remain, the height is in [1, 12] and max_height_ grows to it if larger |
| SkipLists.SkipList.RaiseHeight | open_source_code_learning/leveldb/db/skiplist.h:382-396 | max_height_ becomes the new height and the new levels' predecessor is the head |
| SkipLists.SkipList.Splice | open_source_code_learning/leveldb/db/skiplist.h:398-404 | the node is linked in at its sorted position; max_height_ is unchanged |
| SkipLists.Iterator.Valid | open_source_code_learning/leveldb/db/skiplist.h:231-234 | the iterator is valid exactly when it stands on one of the list's entries |
| SkipLists.Iterator.constructor | open_source_code_learning/leveldb/db/skiplist.h:226-229 | a new iterator is not valid |
| SkipLists.Iterator.Key | open_source_code_learning/leveldb/db/skiplist.h:237-240 | the key at the iterator's position |
| SkipLists.Iterator.Next | open_source_code_learning/leveldb/db/skiplist.h:243-246 | moves to the next position, invalid past the end |
| SkipLists.Iterator.Prev | open_source_code_learning/leveldb/db/skiplist.h:249-257 | moves to the previous node; from the first entry it becomes invalid |
| SkipLists.Iterator.Seek | open_source_code_learning/leveldb/db/skiplist.h:260-262 | lands on the first key ≥ target, and is valid iff there is one |
| SkipLists.Iterator.SeekToFirst | open_source_code_learning/leveldb/db/skiplist.h:265-267 | lands on the first key and is valid iff the list is non-empty |
| SkipLists.Iterator.SeekToLast | open_source_code_learning/leveldb/db/skiplist.h:270-275 | lands on the last key and is valid iff the list is non-empty |
| MemTables.PrefixedRoundTrip | open_source_code_learning/leveldb/db/memtable.cc:14-19 | GetLengthPrefixedSlice reads back the slice a length prefix was written for, whatever follows |
| MemTables.EntryRoundTrip | open_source_code_learning/leveldb/db/memtable.cc:61-65 | an entry's key and value read back as the internal key and value it was built from |
| MemTables.InternalKeyOf | open_source_code_learning/leveldb/db/memtable.cc:33-39 | the comparator's key is the entry's length-prefixed internal key whenever that has 8 or more bytes |
| MemTables.KeyComparator | open_source_code_learning/leveldb/db/memtable.cc:33-39 | the result is −1, 0 or 1, and 0 exactly when the two entries' length-prefixed internal keys are equal |
| MemTables.KeyComparatorIsOrder | open_source_code_learning/leveldb/db/memtable.cc:33-39 | the memtable comparator is a strict order (antisymmetric and transitive) |
| MemTables.KeyComparatorOrder | open_source_code_learning/leveldb/db/memtable.cc:33-39 | entries order by user key ascending, then tag descending; they tie iff user key and tag agree |
| MemTables.KeyComparatorZero | open_source_code_learning/leveldb/db/memtable.cc:33-39 | two entries tie iff their internal keys are equal |
| MemTables.EncodeKey | open_source_code_learning/leveldb/db/memtable.cc:44-49 | scratch is the length-prefixed target and reads back as the target |
| MemTables.Newest | open_source_code_learning/leveldb/db/memtable.cc:119-121 | the reference answer picks an entry for the user key visible at the lookup tag |
| MemTables.NewestNotNewer | open_source_code_learning/leveldb/db/memtable.cc:119-121 | the entry picked for a lookup at sequence s has sequence ≤ s |
| MemTables.SeekFindsNewest | open_source_code_learning/leveldb/db/memtable.cc:108-127 | in a sorted table the newest visible entry is the one at the seek position if its user key matches, else there is none |
| MemTables.AnswerBySeek | open_source_code_learning/leveldb/db/memtable.cc:108-143 | the reference answer equals decoding the entry at the seek position |
| MemTables.LookupKeysAreWellFormed | open_source_code_learning/leveldb/db/memtable.cc:109 | a LookupKey's memtable key is a well-formed seek target with tag s·256 + kValueTypeForSeek |
| MemTables.LookupTarget | open_source_code_learning/leveldb/db/memtable.cc:109-111 | the seek target's user key and tag are the lookup key's |
| MemTables.AddedKey | open_source_code_learning/leveldb/db/memtable.cc:97-101 | the internal key Add writes has the user key length + 8 bytes |
| MemTables.InsertedIsNewest | open_source_code_learning/leveldb/db/memtable.cc:105 | an inserted entry newer than every visible one becomes the newest, at its insertion index |
| MemTables.AnswerIgnoresInvisible | open_source_code_learning/leveldb/db/memtable.cc:119-121 | inserting an entry invisible to a lookup does not change its answer |
| MemTables.AddThenGetValue | open_source_code_learning/leveldb/db/memtable.cc:82-143 | after Add(s, kTypeValue, k, v), Get(k) at sequence s returns v |
| MemTables.AddThenGetDeleted | open_source_code_learning/leveldb/db/memtable.cc:82-143 | after Add(s, kTypeDeletion, k), Get(k) at sequence s reports NotFound |
| MemTables.TwoWrites | open_source_code_learning/leveldb/db/memtable.cc:82-106 | two writes of one key give a two-entry table of well-formed entries |
| MemTables.TwoWritesLatest | open_source_code_learning/leveldb/db/memtable.cc:108-143 | reading at the later sequence returns the later value |
| MemTables.TwoWritesSnapshot | open_source_code_learning/leveldb/db/memtable.cc:108-143 | reading between the two writes returns the earlier value, and before both returns nothing |
| MemTables.TwoWritesExample | open_source_code_learning/leveldb/db/memtable.cc:108-143 | after (5, "a", "x") and (7, "a", "y"), reading at 7 gives "y" and at 6 gives "x" |
| MemTables.OneWriteRead | open_source_code_learning/leveldb/db/memtable.cc:108-143 | a single write is seen exactly by reads at or after its sequence |
| MemTables.EncodeInternalKey | open_source_code_learning/leveldb/db/memtable.cc:97-101 | the buffer starts with varint(klen), the key and fixed64(tag); the rest is unchanged |
| MemTables.EncodeEntry | open_source_code_learning/leveldb/db/memtable.cc:97-104 | the buffer of exactly the computed length is filled with the whole entry |
| MemTables.ReadKeyLength | open_source_code_learning/leveldb/db/memtable.cc:123-124 | decodes the key length and the key's start from the entry |
| MemTables.ReadTag | open_source_code_learning/leveldb/db/memtable.cc:129 | reads the entry's tag from the 8 bytes before the key's end |
| MemTables.ReadValue | open_source_code_learning/leveldb/db/memtable.cc:132 | reads the entry's length-prefixed value |
| MemTables.DecodeEntry | open_source_code_learning/leveldb/db/memtable.cc:122-142 | a matching user key reports the entry's value or tombstone; any other key reports nothing |
| MemTables.AllocateEntry | open_source_code_learning/leveldb/db/memtable.cc:90-104 | takes exactly EncodedLength bytes from the arena as a new region, and fills a buffer of that size with the entry |
| MemTables.MemTable.constructor | open_source_code_learning/leveldb/db/memtable.cc:21-25 | a new memtable has refs_ 0 and an empty table |
| MemTables.MemTable.Destroy | open_source_code_learning/leveldb/db/memtable.cc:27-29 | only a table with refs_ == 0 may be destroyed, and destroying it releases every block its arena allocated (~Arena, util/arena.cc:28-32) |
| MemTables.MemTable.ApproximateMemoryUsage | open_source_code_learning/leveldb/db/memtable.cc:31 | the arena's memory usage |
| MemTables.MemTable.Add | open_source_code_learning/leveldb/db/memtable.cc:82-106 | the table becomes the sorted insertion of the encoded entry, and memory usage never decreases |
| MemTables.MemTable.NewIterator | open_source_code_learning/leveldb/db/memtable.cc:78-80 | a fresh iterator over the table, not yet valid |
| MemTables.MemTable.Get | open_source_code_learning/leveldb/db/memtable.cc:108-143 | the answer is the newest entry for the user key visible at the lookup sequence: its value, a tombstone, or nothing |
| MemTables.MemTableIterator.Valid | open_source_code_learning/leveldb/db/memtable.cc:55 | the iterator is valid exactly when its skip-list iterator stands on one of the table's entries |
| MemTables.MemTableIterator.constructor | open_source_code_learning/leveldb/db/memtable.cc:53 | a new iterator is not valid |
| MemTables.MemTableIterator.Seek | open_source_code_learning/leveldb/db/memtable.cc:56 | encodes the target into tmp_ and lands on its lower bound, valid iff one exists |
| MemTables.MemTableIterator.SeekToFirst | open_source_code_learning/leveldb/db/memtable.cc:57 | valid iff the table is non-empty, at index 0 |
| MemTables.MemTableIterator.SeekToLast | open_source_code_learning/leveldb/db/memtable.cc:58 | valid iff the table is non-empty, at the last index |
| MemTables.MemTableIterator.Next | open_source_code_learning/leveldb/db/memtable.cc:59 | moves one entry forward, invalid past the end |
| MemTables.MemTableIterator.Prev | open_source_code_learning/leveldb/db/memtable.cc:60 | moves one entry back, invalid before the first |
| MemTables.MemTableIterator.Key | open_source_code_learning/leveldb/db/memtable.cc:61 | the current entry's internal key |
| MemTables.MemTableIterator.Value | open_source_code_learning/leveldb/db/memtable.cc:62-65 | the value that, with key(), makes up the current entry |
| MemTables.MemTableIterator.Status | open_source_code_learning/leveldb/db/memtable.cc:67 | always OK |
| Cache.HandleTable.constructor | open_source_code_learning/leveldb/util/cache.cc:83 | a new table is empty with 4 buckets |
| Cache.HandleTable.FindPointer | open_source_code_learning/leveldb/util/cache.cc:130-141 | the slot is in the hash's bucket, and it holds the key iff the key is present |
| Cache.HandleTable.Lookup | open_source_code_learning/leveldb/util/cache.cc:87-89 | returns the handle stored for (key, hash), or none |
| Cache.HandleTable.Insert | open_source_code_learning/leveldb/util/cache.cc:92-106 | the key maps to the new handle; the previous handle is returned; elems_ grows only for a new key |
| Cache.HandleTable.Remove | open_source_code_learning/leveldb/util/cache.cc:109-117 | returns the matching handle or none, removes the key, and decrements elems_ only when found |
| Cache.HandleTable.Resize | open_source_code_learning/leveldb/util/cache.cc:144-182 | keeps every element and the count, with a power-of-two length ≥ 4 that is 4 or less than twice elems_ |
| Cache.Rehash | open_source_code_learning/leveldb/util/cache.cc:152-181 | the new buckets hold every entry in its bucket for the new length, and count equals the number moved |
| Cache.MoveChain | open_source_code_learning/leveldb/util/cache.cc:160-177 | moving one old bucket places its entries in their new buckets and adds its length to count |
| Cache.Partition | open_source_code_learning/leveldb/util/cache.cc:228-233 | a cached entry is on lru_ iff refs == 1 and on in_use_ iff refs ≥ 2, never both |
| Cache.RefKeeps | open_source_code_learning/leveldb/util/cache.cc:262-270 | Ref keeps the shard's list, index and usage invariants |
| Cache.UnrefKeeps | open_source_code_learning/leveldb/util/cache.cc:272-283 | Unref keeps the invariants, freeing the entry at zero references |
| Cache.DetachKeeps | open_source_code_learning/leveldb/util/cache.cc:358-368 | detaching a cached entry takes its charge off usage_ and keeps the invariants |
| Cache.EraseKeeps | open_source_code_learning/leveldb/util/cache.cc:358-368 | FinishErase keeps the invariants whatever the table removal returned |
| Cache.AllocKeeps | open_source_code_learning/leveldb/util/cache.cc:320-335 | the new entry is unused before; cached it adds its charge and sits in in_use_, uncached it is on no list |
| Cache.OldestErased | open_source_code_learning/leveldb/util/cache.cc:343-350 | the oldest lru_ entry is cached with one reference and indexed under its key, and erasing it is one eviction step |
| Cache.EvictStep | open_source_code_learning/leveldb/util/cache.cc:343-350 | each eviction step leaves a suffix of lru_, in_use_ unchanged, and frees what left |
| Cache.LookupThenRelease | open_source_code_learning/leveldb/util/cache.cc:299-311 | Lookup then Release restores the shard, except that an idle entry moves to the newest end of lru_ |
| Cache.PlacedCached | open_source_code_learning/leveldb/util/cache.cc:331-336 | with capacity on, the new entry has 2 references at the end of in_use_ and the replaced entry leaves both lists |
| Cache.PlacedUncached | open_source_code_learning/leveldb/util/cache.cc:337-340 | with capacity 0 the new entry has 1 reference, is not cached, and the lists are unchanged |
| Cache.EvictedAfterPlace | open_source_code_learning/leveldb/util/cache.cc:343-350 | after eviction the new entry is unchanged, lru_ is a suffix of the old one, and entries off lru_ are untouched |
| Cache.LRUCache.constructor | open_source_code_learning/leveldb/util/cache.cc:240-248 | a new shard has capacity 0, no entries and empty lists |
| Cache.LRUCache.SetCapacity | open_source_code_learning/leveldb/util/cache.cc:192 | sets the capacity, leaving the entries unchanged |
| Cache.LRUCache.TotalCharge | open_source_code_learning/leveldb/util/cache.cc:202-205 | usage_ is the sum of the charges of the entries on lru_ and in_use_ |
| Cache.LRUCache.Ref | open_source_code_learning/leveldb/util/cache.cc:262-270 | the reference count grows by one and an idle cached entry moves to in_use_ |
| Cache.LRUCache.Unref | open_source_code_learning/leveldb/util/cache.cc:272-283 | the count drops by one; at zero the entry is freed with a deleter call; at one it returns to lru_ |
| Cache.LRUCache.FinishErase | open_source_code_learning/leveldb/util/cache.cc:358-368 | returns whether an entry was found; it leaves the lists, loses its charge and its cache reference |
| Cache.LRUCache.Lookup | open_source_code_learning/leveldb/util/cache.cc:299-306 | returns the table's handle and references it; a miss changes nothing |
| Cache.LRUCache.Release | open_source_code_learning/leveldb/util/cache.cc:308-311 | drops the caller's reference |
| Cache.LRUCache.EvictOldest | open_source_code_learning/leveldb/util/cache.cc:344-349 | frees the oldest lru_ entry and takes its charge off usage_ |
| Cache.LRUCache.EvictOverCapacity | open_source_code_learning/leveldb/util/cache.cc:343-350 | afterwards usage ≤ capacity or lru_ is empty, having evicted oldest first |
| Cache.LRUCache.Place | open_source_code_learning/leveldb/util/cache.cc:320-340 | the new entry gets the next handle, is indexed when capacity > 0, and replaces any entry under the same key |
| Cache.LRUCache.Insert | open_source_code_learning/leveldb/util/cache.cc:313-354 | the new entry holds 1 reference (plus the cache's when capacity > 0) at the end of in_use_; the replaced entry leaves; usage ≤ capacity or lru_ is empty; other entries off lru_ keep their refs and info |
| Cache.LRUCache.Erase | open_source_code_learning/leveldb/util/cache.cc:370-373 | removes the key from the table and finishes erasing what it held |
| Cache.LRUCache.Prune | open_source_code_learning/leveldb/util/cache.cc:375-385 | frees every idle entry; in_use_ and all referenced entries are unchanged |
| ShardedCache.ShardOf | open_source_code_learning/leveldb/util/cache.cc:404-408 | the shard is hash >> 28, below 16 |
| ShardedCache.PerShardAsWritten | open_source_code_learning/leveldb/util/cache.cc:414 | the constructor's size_t share, ((capacity + 15) mod 2^64) / 16; the 16 shards together never exceed capacity + 15 |
| ShardedCache.PerShard | open_source_code_learning/leveldb/util/cache.cc:414 | the intended share is ceil(capacity / 16) |
| ShardedCache.PerShardAgrees | open_source_code_learning/leveldb/util/cache.cc:414 | the size_t computation equals ceil(capacity / 16) when capacity ≤ 2^64 − 16 |
| ShardedCache.PerShardWraps | open_source_code_learning/leveldb/util/cache.cc:414 | above 2^64 − 16 the size_t sum wraps and gives 0, while the intended share is positive |
| ShardedCache.NewShard | open_source_code_learning/leveldb/util/cache.cc:415-417 | a fresh empty shard with the given capacity |
| ShardedCache.ShardedLRUCache.constructor | open_source_code_learning/leveldb/util/cache.cc:411-418 | every one of the 16 shards is empty, with the size_t per-shard capacity; last_id_ is 0 |
| ShardedCache.ShardedLRUCache.Insert | open_source_code_learning/leveldb/util/cache.cc:421-425 | the hash's shard undergoes the shard Insert's effect |
| ShardedCache.ShardedLRUCache.Lookup | open_source_code_learning/leveldb/util/cache.cc:426-429 | the hash's shard answers and references the entry |
| ShardedCache.ShardedLRUCache.Release | open_source_code_learning/leveldb/util/cache.cc:430-433 | the handle's shard drops one reference |
| ShardedCache.ShardedLRUCache.Erase | open_source_code_learning/leveldb/util/cache.cc:434-437 | the hash's shard removes the key and finishes erasing |
| ShardedCache.ShardedLRUCache.Value | open_source_code_learning/leveldb/util/cache.cc:438-440 | the handle's value |
| ShardedCache.ShardedLRUCache.NewId | open_source_code_learning/leveldb/util/cache.cc:441-444 | returns last_id_ + 1 modulo 2^64, increasing until wrap |
| ShardedCache.ShardedLRUCache.Prune | open_source_code_learning/leveldb/util/cache.cc:445-449 | every shard's lru_ empties, its in_use_ is unchanged, every entry that was on its lru_ is freed, and every other entry (in use, or erased but still held) keeps its references, fields and cached flag |
| ShardedCache.ShardedLRUCache.PruneShard | open_source_code_learning/leveldb/util/cache.cc:446-448 | shard k's lru_ empties, its in_use_ is unchanged, what was on its lru_ is freed and every other entry of the shard is untouched |
| ShardedCache.ShardedLRUCache.TotalCharge | open_source_code_learning/leveldb/util/cache.cc:450-456 | the sum of the shards' usage |
| ProcessInspector.FindFrom | open_source_code_learning/muduo/muduo/net/inspect/ProcessInspector.cc:33 | the first occurrence of key at or after i, or none when there is no occurrence |
| ProcessInspector.Find | open_source_code_learning/muduo/muduo/net/inspect/ProcessInspector.cc:33 | string::find: the first occurrence, or npos when the key never occurs |
| ProcessInspector.FindFirst | open_source_code_learning/muduo/muduo/net/inspect/ProcessInspector.cc:33 | an occurrence with none before it is what find returns |
| ProcessInspector.Strtol | open_source_code_learning/muduo/muduo/net/inspect/ProcessInspector.cc:84 | strtol's result lies within [LONG_MIN, LONG_MAX] |
| ProcessInspector.StrtolDecimal | open_source_code_learning/muduo/muduo/net/inspect/ProcessInspector.cc:36 | after leading spaces, the decimal digits of n parse to n |
| ProcessInspector.StrtolWord | open_source_code_learning/muduo/muduo/net/inspect/ProcessInspector.cc:84 | a field parses the same whatever non-digit text follows it |
| ProcessInspector.DecimalRoundTrip | open_source_code_learning/muduo/muduo/net/inspect/ProcessInspector.cc:36 | the decimal digits of n denote n |
| ProcessInspector.GetLong | open_source_code_learning/muduo/muduo/net/inspect/ProcessInspector.cc:30-39 | 0 when the key is absent; otherwise a long parsed after it |
| ProcessInspector.GetLongOfLine | open_source_code_learning/muduo/muduo/net/inspect/ProcessInspector.cc:30-39 | a line "key  n" gives n when it holds the key's first occurrence |
| ProcessInspector.ProcessName | open_source_code_learning/muduo/muduo/net/inspect/ProcessInspector.cc:41-56 | "" when "Name:" is absent; otherwise a name with no newline and no leading tab |
| ProcessInspector.GetProcessName | open_source_code_learning/muduo/muduo/net/inspect/ProcessInspector.cc:41-56 | the scanning loops compute the name the reference function gives |
| ProcessInspector.ProcessNameOfLine | open_source_code_learning/muduo/muduo/net/inspect/ProcessInspector.cc:44-53 | "Name:" then tabs, a name and a newline gives that name |
| ProcessInspector.ProcessNameExample | open_source_code_learning/muduo/muduo/net/inspect/ProcessInspector.cc:41-56 | "Name:\tinspector\nState:\tS\n" gives "inspector" |
| ProcessInspector.StatField | open_source_code_learning/muduo/muduo/net/inspect/ProcessInspector.cc:58-88 | −1 when ") " is absent or the field is negative; otherwise a long |
| ProcessInspector.GetStatField | open_source_code_learning/muduo/muduo/net/inspect/ProcessInspector.cc:58-88 | the scanning loops compute what the reference function gives |
| ProcessInspector.ReachWords | open_source_code_learning/muduo/muduo/net/inspect/ProcessInspector.cc:74-81 | skipping k space-separated fields lands on field k; past the last field it fails |
| ProcessInspector.StatFieldOfWords | open_source_code_learning/muduo/muduo/net/inspect/ProcessInspector.cc:66-87 | scanning starts 4 characters after ") "; field k parses word k, one past the last reads 0, and further is −1 |
| ProcessInspector.SplitUptime | open_source_code_learning/muduo/muduo/net/inspect/ProcessInspector.cc:22-26 | with C's truncating / and %, days, hours, minutes and seconds all take the sign of the elapsed seconds |
| ProcessInspector.UptimeSplit | open_source_code_learning/muduo/muduo/net/inspect/ProcessInspector.cc:22-26 | days·86400 + hours·3600 + minutes·60 + sec = seconds; for seconds ≥ 0, hours < 24 and minutes, sec < 60 |

## Left out

- Concurrency: the skip list's atomic pointers and memory barriers, the arena's relaxed usage store, the cache's mutexes, and `MemTable::Ref`/`Unref` are not modelled. Everything is single-threaded.
- DbFormat.InternalCompare and `MemTables.MemTable.Get` fix the user comparator to the bytewise one, at dbformat.h:131-135 and at the user-key test of memtable.cc:125.
- Slices.MemCmp and `Slices.CompareIsLex`: memcmp's result is normalised to −1, 0 or 1. The source only uses its sign.
- Arenas.Arena.HostFresh: `new char[]` is assumed to return memory that is kAlign-aligned and disjoint from every earlier block. AllocateAligned's fallback alignment (arena.cc:73-76) rests on this.
- Arenas.Arena.AllocateAligned: `needed = bytes + slop` (arena.cc:66) is a size_t in the source and wraps when bytes exceeds 2^64 − 8, which would wrongly take the fast path. In the model it is an unbounded int, so that wrap is not modelled. No caller asks for that many bytes.
- Arenas.Arena.Allocate: the inline body in arena.h is not part of this model. It is modelled from its callers' use, with a positive request.
- Statuses.Status.constructor: requires `|message| + 5 < 2^32`. The 32-bit length field's wrap-around is not modelled.
- Statuses.NewState: the same 32-bit width requirement.
- DbFormat.NewLookupKey: requires `|key| + 8 < 2^32`. The varint32 length's truncation is not modelled. The LookupKey constructor lives in dbformat.cc, which is not part of this model; it is modelled from the layout comment.
- MemTables.MemTable.Add: requires `|key| + 8 < 2^32` and `|value| < 2^32`, the widths of the varint32 lengths. It also requires that no equal internal key is already present, the skip list's own precondition.
- Cache.LRUCache.TotalCharge: `usage_` is an unbounded nat, so size_t wrap-around of the charge sum is not modelled.
- ShardedCache.ShardedLRUCache.TotalCharge: the same; the sum of the shards is unbounded.
- Statuses: the length is stored little-endian; the source's memcpy is native-endian.
- Coding: only the little-endian byte encoding is modelled, not the memcpy branch of big-endian hosts.
- Coding: `DecodeFixed32/64` and the `GetVarint32Ptr` fast path live in coding.h, which is not part of this model. They are modelled as the little-endian decoder and the fallback loop.
- Crc32c: the CRC32C functions live in util/crc32c, which is not part of this model. They are modelled concretely as the bitwise Castagnoli CRC. The log writer is parameterised over a `CrcFunctions` value, so its fragmentation, layout and parse-back properties do not depend on the CRC body. Only `LogWriter.ChecksumCovers` uses the concrete one.
- MemTables.AllocateEntry: the entry's bytes are written into a separate Dafny array. It is tied to the arena region only by address and size, because the arena models addresses, not memory contents.
- MemTables.InternalKeyOf: zero-pads a key shorter than 8 bytes so that the comparator is total. Every entry Add writes has 8 or more key bytes, so the padding is never reached for them.
- DbFormat.ParseInternalKey: on failure it returns None. The fields the source still writes into `*result` for inputs of 8 or more bytes are modelled separately by `DbFormat.ParsedFields`.
- DbFormat.AppendInternalKey: lives in dbformat.cc, which is not part of this model. It is modelled from its declaration.
- SkipLists.SkipList.RandomHeight: `Random` (util/random.h) is not part of this model. The height is a nondeterministic choice in [1, 12], not the 1-in-4 branching distribution.
- Cache: `Hash`/`HashSlice` (util/hash.h) are not modelled. Callers pass the hash.
- Cache: the `LRUCache` destructor (cache.cc:250-260) is not modelled. The intrusive `LRU_Remove`/`LRU_Append` lists are `seq<Handle>` values.
- Cache.LRUCache.Insert: "eviction takes the oldest first" is stated as the surviving lru_ being a suffix of the old one. The order of deleter calls is recorded in `deleterCalls`, but no lemma orders it.
- VersionEdits: `Clear`, `EncodeTo` and `DecodeFrom` live in version_edit.cc, which is not part of this model.
- LogWriter: the `WritableFile` (include/leveldb/env.h) is an in-memory byte sequence whose `Append` and `Flush` may fail at any call, and `Status` is reduced to `ok()`.
- ProcessInspector: the file I/O, `ProcessInfo`, `Timestamp`, `sysconf`, `stringPrintf`, `registerCommands`, `overview`, `pid`, `procStatus`, `openedFiles` and `threads` are not modelled, and neither is uptime's double-to-int cast. The seconds split starts from an int.
- ProcessInspector.Strtol: models strtol in base 10, with leading white space, an optional sign and clamping to [LONG_MIN, LONG_MAX]. `atol` in `getLong` is modelled by the same function; its behaviour on overflow is undefined in C.
- ProcessInspector.ProcessName: requires a newline somewhere after "Name:" (ProcessInspector.cc:51-52). Without one, `while (procStatus[eol] != '\n') ++eol;` indexes past `size()`, an out-of-range read with undefined behaviour, so that input has no defined result to model.
- ProcessInspector.GetProcessName: the same requirement, for the same out-of-range read.
- ProcessInspector.StatField: requires pos + 4 ≤ the text's length when field is 0 (ProcessInspector.cc:70, 84). Otherwise `start` is `c_str() + pos + 4`, past the terminating NUL, and `strtol(start, NULL, 10)` reads outside the string, which is undefined behaviour. For field > 0 such a start is already ≥ `end`, so the loop does not run and the result is −1, which the model covers.
- ProcessInspector.GetStatField: the same requirement, for the same out-of-range read.
- ProcessInspector.StatFieldOfWords: asking for the field one past the last reads 0, not −1. This follows the source as written, where a FIXME notes the case.

## Findings

| source | as written | input that shows it | evidently intended | confidence | as-written member | corrected member |
|---|---|---|---|---|---|---|
| open_source_code_learning/leveldb/util/cache.cc:414 | `(capacity + (kNumShards - 1)) / kNumShards` is computed in size_t, so the sum wraps for large capacities | capacity = 2^64 − 1: the sum wraps to 14 and every shard gets capacity 0, which turns caching off | each shard gets ceil(capacity / 16), here 2^60 | not executed | ShardedCache.PerShardAsWritten | ShardedCache.PerShard |

The constructor keeps the source's size_t computation (`PerShardAsWritten`).
`PerShardWraps` exhibits the wrap: above 2^64 − 16 the as-written share is 0
while the intended share `PerShard`, the rounded-up quotient, is positive.
`PerShard` is the corrected definition, and its own contract proves it is
ceil(capacity / 16). `PerShardAgrees` proves the as-written computation
equals it for every capacity up to 2^64 − 16.
