/** VersionEdit (db/version_edit.h): the difference between two versions of
    the database's file set, recorded as optional header values (each with
    a has-flag), compaction pointers, deleted files and new files. Clear,
    EncodeTo, DecodeFrom and DebugString live in db/version_edit.cc, which
    is not part of this model. */
module VersionEdits {
  import opened Slices
  import DbFormat

  /** FileMetaData's default for allowed_seeks, 1 << 30. */
  const kDefaultAllowedSeeks: int := 0x4000_0000

  /** FileMetaData: a table file's reference count, seek budget, number,
      size and key range. The keys are the encodings InternalKey holds. */
  datatype FileMetaData = FileMetaData(
    refs: int,
    allowedSeeks: int,
    number: U64,
    fileSize: U64,
    smallest: Bytes,
    largest: Bytes)

  /** FileMetaData(): no references, a seek budget of 1 << 30, size 0 and
      empty (invalid) keys; the C++ constructor leaves `number` unset, so
      the caller supplies it. */
  method NewFileMetaData(number: U64) returns (f: FileMetaData)
    ensures f.refs == 0 && f.allowedSeeks == kDefaultAllowedSeeks && f.fileSize == 0
    ensures f.number == number && f.smallest == [] && f.largest == []
  {
    f := FileMetaData(0, kDefaultAllowedSeeks, number, 0, [], []);
  }

  /** A version edit. */
  class VersionEdit {
    var comparator: Bytes
    var logNumber: U64
    var prevLogNumber: U64
    var nextFileNumber: U64
    var lastSequence: U64
    var hasComparator: bool
    var hasLogNumber: bool
    var hasPrevLogNumber: bool
    var hasNextFileNumber: bool
    var hasLastSequence: bool
    /** compact_pointers_: (level, encoded internal key), in call order. */
    var compactPointers: seq<(int, Bytes)>
    /** deleted_files_: a set of (level, file number). */
    var deletedFiles: set<(int, U64)>
    /** new_files_: (level, metadata), in call order. */
    var newFiles: seq<(int, FileMetaData)>

    /** VersionEdit() calls Clear(): no value is set and every collection is
        empty. */
    constructor ()
      ensures !hasComparator && !hasLogNumber && !hasPrevLogNumber
      ensures !hasNextFileNumber && !hasLastSequence
      ensures compactPointers == [] && deletedFiles == {} && newFiles == []
    {
      comparator := [];
      logNumber := 0;
      prevLogNumber := 0;
      nextFileNumber := 0;
      lastSequence := 0;
      hasComparator := false;
      hasLogNumber := false;
      hasPrevLogNumber := false;
      hasNextFileNumber := false;
      hasLastSequence := false;
      compactPointers := [];
      deletedFiles := {};
      newFiles := [];
    }

    /** SetComparatorName: records a copy of the name. */
    method SetComparatorName(name: Bytes)
      modifies this
      ensures hasComparator && comparator == name
      ensures logNumber == old(logNumber) && prevLogNumber == old(prevLogNumber)
      ensures nextFileNumber == old(nextFileNumber) && lastSequence == old(lastSequence)
      ensures hasLogNumber == old(hasLogNumber) && hasPrevLogNumber == old(hasPrevLogNumber)
      ensures hasNextFileNumber == old(hasNextFileNumber) && hasLastSequence == old(hasLastSequence)
      ensures compactPointers == old(compactPointers) && deletedFiles == old(deletedFiles)
      ensures newFiles == old(newFiles)
    {
      hasComparator := true;
      comparator := name;
    }

    method SetLogNumber(num: U64)
      modifies this
      ensures hasLogNumber && logNumber == num
      ensures comparator == old(comparator) && prevLogNumber == old(prevLogNumber)
      ensures nextFileNumber == old(nextFileNumber) && lastSequence == old(lastSequence)
      ensures hasComparator == old(hasComparator) && hasPrevLogNumber == old(hasPrevLogNumber)
      ensures hasNextFileNumber == old(hasNextFileNumber) && hasLastSequence == old(hasLastSequence)
      ensures compactPointers == old(compactPointers) && deletedFiles == old(deletedFiles)
      ensures newFiles == old(newFiles)
    {
      hasLogNumber := true;
      logNumber := num;
    }

    method SetPrevLogNumber(num: U64)
      modifies this
      ensures hasPrevLogNumber && prevLogNumber == num
      ensures comparator == old(comparator) && logNumber == old(logNumber)
      ensures nextFileNumber == old(nextFileNumber) && lastSequence == old(lastSequence)
      ensures hasComparator == old(hasComparator) && hasLogNumber == old(hasLogNumber)
      ensures hasNextFileNumber == old(hasNextFileNumber) && hasLastSequence == old(hasLastSequence)
      ensures compactPointers == old(compactPointers) && deletedFiles == old(deletedFiles)
      ensures newFiles == old(newFiles)
    {
      hasPrevLogNumber := true;
      prevLogNumber := num;
    }

    method SetNextFile(num: U64)
      modifies this
      ensures hasNextFileNumber && nextFileNumber == num
      ensures comparator == old(comparator) && logNumber == old(logNumber)
      ensures prevLogNumber == old(prevLogNumber) && lastSequence == old(lastSequence)
      ensures hasComparator == old(hasComparator) && hasLogNumber == old(hasLogNumber)
      ensures hasPrevLogNumber == old(hasPrevLogNumber) && hasLastSequence == old(hasLastSequence)
      ensures compactPointers == old(compactPointers) && deletedFiles == old(deletedFiles)
      ensures newFiles == old(newFiles)
    {
      hasNextFileNumber := true;
      nextFileNumber := num;
    }

    method SetLastSequence(s: U64)
      modifies this
      ensures hasLastSequence && lastSequence == s
      ensures comparator == old(comparator) && logNumber == old(logNumber)
      ensures prevLogNumber == old(prevLogNumber) && nextFileNumber == old(nextFileNumber)
      ensures hasComparator == old(hasComparator) && hasLogNumber == old(hasLogNumber)
      ensures hasPrevLogNumber == old(hasPrevLogNumber) && hasNextFileNumber == old(hasNextFileNumber)
      ensures compactPointers == old(compactPointers) && deletedFiles == old(deletedFiles)
      ensures newFiles == old(newFiles)
    {
      hasLastSequence := true;
      lastSequence := s;
    }

    /** SetCompactPointer: appends (level, a copy of the key) after the
        earlier pointers. */
    method SetCompactPointer(level: int, key: DbFormat.InternalKey)
      modifies this
      ensures compactPointers == old(compactPointers) + [(level, key.rep)]
      ensures deletedFiles == old(deletedFiles) && newFiles == old(newFiles)
      ensures comparator == old(comparator) && hasComparator == old(hasComparator)
      ensures logNumber == old(logNumber) && hasLogNumber == old(hasLogNumber)
      ensures prevLogNumber == old(prevLogNumber) && hasPrevLogNumber == old(hasPrevLogNumber)
      ensures nextFileNumber == old(nextFileNumber) && hasNextFileNumber == old(hasNextFileNumber)
      ensures lastSequence == old(lastSequence) && hasLastSequence == old(hasLastSequence)
    {
      compactPointers := compactPointers + [(level, key.rep)];
    }

    /** AddFile: appends (level, metadata) whose number, size and key range
        are the arguments and whose counters have their defaults. */
    method AddFile(level: int, file: U64, fileSize: U64,
                   smallest: DbFormat.InternalKey, largest: DbFormat.InternalKey)
      modifies this
      ensures |newFiles| == |old(newFiles)| + 1 && newFiles[..|old(newFiles)|] == old(newFiles)
      ensures newFiles[|newFiles| - 1] ==
              (level, FileMetaData(0, kDefaultAllowedSeeks, file, fileSize, smallest.rep, largest.rep))
      ensures deletedFiles == old(deletedFiles) && compactPointers == old(compactPointers)
      ensures comparator == old(comparator) && hasComparator == old(hasComparator)
      ensures logNumber == old(logNumber) && hasLogNumber == old(hasLogNumber)
      ensures prevLogNumber == old(prevLogNumber) && hasPrevLogNumber == old(hasPrevLogNumber)
      ensures nextFileNumber == old(nextFileNumber) && hasNextFileNumber == old(hasNextFileNumber)
      ensures lastSequence == old(lastSequence) && hasLastSequence == old(hasLastSequence)
    {
      var f := NewFileMetaData(file);
      f := f.(fileSize := fileSize, smallest := smallest.rep, largest := largest.rep);
      newFiles := newFiles + [(level, f)];
    }

    /** DeleteFile: inserts (level, file) into the deleted set; the pair is
        then a member, and nothing else joins or leaves. */
    method DeleteFile(level: int, file: U64)
      modifies this
      ensures deletedFiles == old(deletedFiles) + {(level, file)}
      ensures (level, file) in deletedFiles
      ensures newFiles == old(newFiles) && compactPointers == old(compactPointers)
      ensures comparator == old(comparator) && hasComparator == old(hasComparator)
      ensures logNumber == old(logNumber) && hasLogNumber == old(hasLogNumber)
      ensures prevLogNumber == old(prevLogNumber) && hasPrevLogNumber == old(hasPrevLogNumber)
      ensures nextFileNumber == old(nextFileNumber) && hasNextFileNumber == old(hasNextFileNumber)
      ensures lastSequence == old(lastSequence) && hasLastSequence == old(hasLastSequence)
    {
      deletedFiles := deletedFiles + {(level, file)};
    }
  }

  /** Deleting the same file twice leaves the deleted set as one deletion
      does: the set has no duplicates, whatever it held before. */
  lemma DeleteFileIdempotent(deleted: set<(int, U64)>, level: int, file: U64)
    ensures (deleted + {(level, file)}) + {(level, file)} == deleted + {(level, file)}
    ensures |deleted + {(level, file)}| == |deleted| + (if (level, file) in deleted then 0 else 1)
  {
    if (level, file) in deleted {
      assert deleted + {(level, file)} == deleted;
    } else {
      assert (deleted + {(level, file)}) - {(level, file)} == deleted;
    }
  }
}
