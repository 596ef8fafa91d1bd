/** The write-ahead log's physical format (db/log_format.h): the file is a
    sequence of 32768-byte blocks; each block holds records with a 7-byte
    header (masked CRC32C, little-endian length, type) and a trailer of at
    most six zero bytes when fewer than seven bytes remain. */
module LogFormat {

  /** RecordType; zero is reserved for preallocated files. */
  type RecordType = t: int | 0 <= t <= 4
  const kZeroType: RecordType := 0
  const kFullType: RecordType := 1
  const kFirstType: RecordType := 2
  const kMiddleType: RecordType := 3
  const kLastType: RecordType := 4
  const kMaxRecordType: RecordType := kLastType

  const kBlockSize: nat := 32768
  /** checksum (4 bytes), length (2 bytes), type (1 byte). */
  const kHeaderSize: nat := 4 + 2 + 1
}
