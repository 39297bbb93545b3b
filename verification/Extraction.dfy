/**
  `HashingLimitWriter` and `extract_to_directory`.  What a reader writes for an
  entry is arbitrary: any buffers, any outcome, and it may even ignore a failed
  write, so the byte bounds do not rest on the reader.  The destination is the
  map from paths to bytes of `Placement`.
 */
module Extraction {
  import opened Common
  import opened Deliveries
  import opened Limits
  import opened Placement

  type Digest = seq<byte>

  datatype ExtractedFile = ExtractedFile(path: Path, name: seq<byte>, size: nat, digest: Digest)

  class HashingLimitWriter {
    const tracker: LimitTracker
    const compressedSize: Option<u64>
    var file: seq<byte>
    var hashed: seq<byte>
    var size: u64

    ghost predicate Valid()
      reads this, tracker
    {
      && hashed == file && size == |file|
      && |file| <= tracker.limits.maxSingleFileBytes
      && (file != [] ==> tracker.totalUnpackedBytes >= |file|)
    }

    constructor (tracker: LimitTracker, compressedSize: Option<u64>)
      ensures this.tracker == tracker && this.compressedSize == compressedSize
      ensures file == [] && Valid()
    {
      this.tracker, this.compressedSize := tracker, compressedSize;
      file, hashed, size := [], [], 0;
    }

    /** `write`: all of the buffer reaches the file and the hash, or none of it. */
    method Write(buffer: seq<byte>) returns (error: Option<Limit>)
      requires Valid()
      modifies this, tracker`totalUnpackedBytes
      ensures Valid()
      ensures error.None? ==>
        && file == old(file) + buffer
        && tracker.totalUnpackedBytes == old(tracker.totalUnpackedBytes) + |buffer|
        && tracker.totalUnpackedBytes <= tracker.limits.maxTotalUnpackedBytes
        && RatioOk(tracker.limits, |file|, compressedSize)
      ensures (WriterState(file, tracker.totalUnpackedBytes), error) ==
        Written(tracker.limits, compressedSize, WriterState(old(file), old(tracker.totalUnpackedBytes)), buffer)
      ensures error.Some? ==> file == old(file) && tracker.totalUnpackedBytes >= old(tracker.totalUnpackedBytes)
      ensures error.None? <==>
        && |old(file)| + |buffer| <= tracker.limits.maxSingleFileBytes
        && old(tracker.totalUnpackedBytes) + |buffer| <= tracker.limits.maxTotalUnpackedBytes
        && RatioOk(tracker.limits, |old(file)| + |buffer|, compressedSize)
    {
      if size + |buffer| > tracker.limits.maxSingleFileBytes {
        return Some(MaxSingleFileBytes);
      }
      error := tracker.AddUnpackedBytes(|buffer|);
      if error.Some? {
        return;
      }
      if !RatioOk(tracker.limits, size + |buffer|, compressedSize) {
        return Some(MaxCompressionRatio);
      }
      file := file + buffer;
      hashed := hashed + buffer;
      size := size + |buffer|;
    }

    function Finish(path: Path, name: seq<byte>, digest: seq<byte> -> Digest): ExtractedFile
      reads this
    {
      ExtractedFile(path, name, size, digest(hashed))
    }
  }

  function SumLengths(files: seq<seq<byte>>): nat {
    if files == [] then 0 else SumLengths(files[..|files| - 1]) + |files[|files| - 1]|
  }

  function SumSizes(files: seq<ExtractedFile>): nat {
    if files == [] then 0 else SumSizes(files[..|files| - 1]) + files[|files| - 1].size
  }

  /** The names of the first `n` entries that are not directories, in order. */
  function FileNames(entries: seq<ArchiveEntry>, n: nat): seq<seq<byte>>
    requires n <= |entries|
  {
    if n == 0 then [] else FileNames(entries, n - 1) + (if entries[n - 1].isDir then [] else [entries[n - 1].name])
  }

  function NamesOf(files: seq<ExtractedFile>): seq<seq<byte>> {
    if files == [] then [] else NamesOf(files[..|files| - 1]) + [files[|files| - 1].name]
  }

  /** `safe_output_path`, below the destination; an unsafe name ends the extraction before it has a path. */
  function OutputPath(entry: ArchiveEntry): Path {
    match SafeEntryName(entry.name)
    case Ok(path) => path
    case Err(_) => entry.name
  }

  /** The output paths of the first `n` entries that are not directories, in order. */
  function FilePaths(entries: seq<ArchiveEntry>, n: nat): seq<Path>
    requires n <= |entries|
  {
    if n == 0 then []
    else FilePaths(entries, n - 1) + (if entries[n - 1].isDir then [] else [OutputPath(entries[n - 1])])
  }

  function PathsOf(files: seq<ExtractedFile>): (paths: seq<Path>)
    ensures |paths| == |files|
  {
    if files == [] then [] else PathsOf(files[..|files| - 1]) + [files[|files| - 1].path]
  }

  /** One `extract_entry` call: the reader writes until it is done or a failed write stops it. */
  method Deliver(delivery: Delivery, writer: HashingLimitWriter) returns (error: Option<ArchiveError>)
    requires writer.Valid() && writer.file == []
    modifies writer, writer.tracker`totalUnpackedBytes
    ensures writer.Valid()
    ensures var (written, failed) :=
        AllWritten(writer.tracker.limits, writer.compressedSize,
                   WriterState([], old(writer.tracker.totalUnpackedBytes)),
                   delivery.writes, delivery.ignoresFailures);
      && written == WriterState(writer.file, writer.tracker.totalUnpackedBytes)
      && error == DeliveryError(delivery, failed)
    ensures writer.tracker.totalUnpackedBytes >= old(writer.tracker.totalUnpackedBytes) + |writer.file|
    ensures writer.file != [] ==>
      old(writer.tracker.totalUnpackedBytes) + |writer.file| <= writer.tracker.limits.maxTotalUnpackedBytes
    ensures error.None? && !delivery.ignoresFailures ==>
      writer.tracker.totalUnpackedBytes == old(writer.tracker.totalUnpackedBytes) + |writer.file|
  {
    ghost var start := WriterState([], writer.tracker.totalUnpackedBytes);
    ghost var all := AllWritten(writer.tracker.limits, writer.compressedSize, start,
                                delivery.writes, delivery.ignoresFailures);
    WrittenWithinLimits(writer.tracker.limits, writer.compressedSize, start, delivery.writes, delivery.ignoresFailures);
    assert delivery.writes[0..] == delivery.writes;
    for i := 0 to |delivery.writes|
      invariant writer.Valid()
      invariant all == AllWritten(writer.tracker.limits, writer.compressedSize,
                                  WriterState(writer.file, writer.tracker.totalUnpackedBytes),
                                  delivery.writes[i..], delivery.ignoresFailures)
    {
      assert delivery.writes[i..][1..] == delivery.writes[i + 1..];
      var failed := writer.Write(delivery.writes[i]);
      if failed.Some? && !delivery.ignoresFailures {
        return Some(LimitExceeded(failed.value));
      }
    }
    error := delivery.outcome;
  }

  /** `validate_extractable_entry`. */
  predicate Extractable(e: ArchiveEntry) {
    e.isDir || (e.entryType == File && !e.isSymlink && !e.isEncrypted)
  }

  /** The first error of the metadata pass: the entry's limits, then the symlink count, then its type. */
  function MetadataError(limits: ArchiveLimits, t: Counters, entries: seq<ArchiveEntry>): Option<ArchiveError>
    decreases |entries|
  {
    if entries == [] then None
    else
      var e := entries[0];
      var (t1, broken) := Recorded(limits, t, e.name, e.size, e.compressedSize);
      if broken.Some? then Some(LimitExceeded(broken.value))
      else if e.isSymlink && t1.symlinks >= limits.maxSymlinks then Some(LimitExceeded(MaxSymlinks))
      else if !Extractable(e) then Some(UnsupportedEntry(e.name))
      else MetadataError(limits, if e.isSymlink then t1.(symlinks := t1.symlinks + 1) else t1, entries[1..])
  }

  /** The metadata pass over all entries, before anything is written. */
  method CheckMetadata(entries: seq<ArchiveEntry>, limits: ArchiveLimits) returns (error: Option<ArchiveError>)
    ensures error == MetadataError(limits, NO_COUNTS, entries)
  {
    var tracker := new LimitTracker(limits);
    assert entries[0..] == entries;
    for i := 0 to |entries|
      invariant tracker.limits == limits
      invariant MetadataError(limits, NO_COUNTS, entries) == MetadataError(limits, tracker.Tally(), entries[i..])
    {
      assert entries[i..][1..] == entries[i + 1..];
      var failed := tracker.RecordEntry(entries[i].name, entries[i].size, entries[i].compressedSize);
      if failed.Some? {
        return Some(LimitExceeded(failed.value));
      }
      if entries[i].isSymlink {
        failed := tracker.RecordSymlink();
        if failed.Some? {
          return Some(LimitExceeded(failed.value));
        }
      }
      if !Extractable(entries[i]) {
        return Some(UnsupportedEntry(entries[i].name));
      }
    }
    error := None;
  }

  /** The symbolic links that a listing marks as directories, which only the symlink limit concerns. */
  function Symlinks(entries: seq<ArchiveEntry>): nat {
    if entries == [] then 0 else (if entries[0].isSymlink then 1 else 0) + Symlinks(entries[1..])
  }

  /**
    The metadata is accepted exactly when every entry is a directory or a plain
    file, each is within its limits, and so are the count, the total and the links.
   */
  lemma {:induction false} MetadataIsAcceptedExactly(limits: ArchiveLimits, t: Counters, entries: seq<ArchiveEntry>)
    requires t.files <= limits.maxFiles && t.total <= limits.maxTotalUnpackedBytes && t.symlinks <= limits.maxSymlinks
    ensures MetadataError(limits, t, entries).None? <==>
      && (forall e :: e in entries ==>
            && (e.isDir || (e.entryType == File && !e.isSymlink && !e.isEncrypted))
            && EntryWithinLimits(limits, e))
      && t.files + |entries| <= limits.maxFiles
      && t.total + TotalSize(entries) <= limits.maxTotalUnpackedBytes
      && t.symlinks + Symlinks(entries) <= limits.maxSymlinks
    decreases |entries|
  {
    if entries == [] {
    } else {
      var e := entries[0];
      var (t1, broken) := Recorded(limits, t, e.name, e.size, e.compressedSize);
      assert e in entries;
      if broken.None? && (e.isSymlink ==> t1.symlinks < limits.maxSymlinks) && Extractable(e) {
        var t2 := if e.isSymlink then t1.(symlinks := t1.symlinks + 1) else t1;
        MetadataIsAcceptedExactly(limits, t2, entries[1..]);
        assert entries == [e] + entries[1..];
      }
    }
  }

  // ----- what one entry and the whole pass do

  /** How the loop body ends, the bytes of the file it opened, if any, and the two counters. */
  datatype EntryResult = EntryResult(error: Option<ArchiveError>, created: Option<seq<byte>>, files: u32, total: u64)

  function EntryExtracted(limits: ArchiveLimits, files: u32, total: u64, entry: ArchiveEntry, delivery: Delivery)
    : EntryResult
  {
    if !CheckDepth(limits, entry.name) then EntryResult(Some(LimitExceeded(MaxDepth)), None, files, total)
    else if files == U32_MAX then EntryResult(Some(LimitExceeded(MaxFiles)), None, files, total)
    else if files + 1 > limits.maxFiles then EntryResult(Some(LimitExceeded(MaxFiles)), None, files + 1, total)
    else
      match SafeEntryName(entry.name)
      case Err(e) => EntryResult(Some(e), None, files + 1, total)
      case Ok(_) =>
        var (written, failed) := AllWritten(limits, entry.compressedSize, WriterState([], total),
                                            delivery.writes, delivery.ignoresFailures);
        EntryResult(DeliveryError(delivery, failed), Some(written.file), files + 1, written.total)
  }

  datatype PassResult = PassResult(error: Option<ArchiveError>, contents: seq<seq<byte>>, total: u64)

  /** The pass from entry `i` on. */
  function PassFrom(limits: ArchiveLimits, entries: seq<ArchiveEntry>, deliveries: nat -> Delivery, i: nat,
                    files: u32, total: u64): PassResult
    requires i <= |entries|
    decreases |entries| - i
  {
    if i == |entries| then PassResult(None, [], total)
    else if entries[i].isDir then PassFrom(limits, entries, deliveries, i + 1, files, total)
    else
      var one := EntryExtracted(limits, files, total, entries[i], deliveries(i));
      var created := if one.created.Some? then [one.created.value] else [];
      if one.error.Some? then PassResult(one.error, created, one.total)
      else
        var rest := PassFrom(limits, entries, deliveries, i + 1, one.files, one.total);
        rest.(contents := created + rest.contents)
  }

  /**
    The loop body of `extract_to_directory` for one file; `created` holds the bytes
    of the file it opened, if any, and `disk` is the destination afterwards.
   */
  method ExtractOne(entry: ArchiveEntry, delivery: Delivery, tracker: LimitTracker, digest: seq<byte> -> Digest,
                    disk0: Disk)
    returns (error: Option<ArchiveError>, created: Option<seq<byte>>, file: ExtractedFile, disk: Disk)
    modifies tracker
    ensures EntryResult(error, created, tracker.files, tracker.totalUnpackedBytes) ==
      EntryExtracted(tracker.limits, old(tracker.files), old(tracker.totalUnpackedBytes), entry, delivery)
    ensures created.Some? ==>
      && tracker.files == old(tracker.files) + 1 <= tracker.limits.maxFiles
      && |created.value| <= tracker.limits.maxSingleFileBytes
      && tracker.totalUnpackedBytes >= old(tracker.totalUnpackedBytes) + |created.value|
      && (created.value != [] ==>
            old(tracker.totalUnpackedBytes) + |created.value| <= tracker.limits.maxTotalUnpackedBytes)
    ensures error.None? ==>
      && created.Some? && file == ExtractedFile(OutputPath(entry), entry.name, |created.value|, digest(created.value))
      && disk == Placed(PartialPath, disk0, OutputPath(entry), created.value)
      && (!delivery.ignoresFailures ==>
            tracker.totalUnpackedBytes == old(tracker.totalUnpackedBytes) + |created.value|)
    ensures error.Some? ==>
      disk == if created.Some? then disk0 - {PartialPath(OutputPath(entry))} else disk0
  {
    created, disk, file := None, disk0, ExtractedFile(entry.name, entry.name, 0, digest([]));
    var failed := tracker.RecordFileMetadata(entry.name);
    if failed.Some? {
      error := Some(LimitExceeded(failed.value));
      return;
    }
    var safe := SafeEntryName(entry.name);
    if safe.Err? {
      error := Some(safe.error);
      return;
    }
    var path := safe.value;
    var partial := PartialPath(path);
    var writer := new HashingLimitWriter(tracker, entry.compressedSize);
    error := Deliver(delivery, writer);
    created := Some(writer.file);
    disk := disk[partial := writer.file];
    if error.Some? {
      RemovedIsGone(PartialPath, disk0, path, writer.file);
      disk := disk - {partial};
      return;
    }
    file := writer.Finish(path, entry.name, digest);
    disk := Rename(disk, partial, path);
    RenamedIsPlaced(PartialPath, disk0, path, writer.file);
  }

  /** Every file within the single-file limit, all together within the total. */
  predicate Bounded(limits: ArchiveLimits, contents: seq<seq<byte>>) {
    && SumLengths(contents) <= limits.maxTotalUnpackedBytes
    && forall c :: c in contents ==> |c| <= limits.maxSingleFileBytes
  }

  /** The reported files are the written ones: same order, own size, own digest. */
  predicate Reports(files: seq<ExtractedFile>, contents: seq<seq<byte>>, digest: seq<byte> -> Digest) {
    && |files| == |contents|
    && forall i :: 0 <= i < |contents| ==> files[i].size == |contents[i]| && files[i].digest == digest(contents[i])
  }

  /** One more file, empty or within what is left of the total. */
  lemma ContentsAppended(limits: ArchiveLimits, contents: seq<seq<byte>>, c: seq<byte>, counted: u64)
    requires Bounded(limits, contents) && |c| <= limits.maxSingleFileBytes && SumLengths(contents) <= counted
    requires c == [] || counted + |c| <= limits.maxTotalUnpackedBytes
    ensures SumLengths(contents + [c]) == SumLengths(contents) + |c|
    ensures Bounded(limits, contents + [c])
  {
    assert (contents + [c])[..|contents|] == contents;
  }

  lemma FilesAppended(files: seq<ExtractedFile>, contents: seq<seq<byte>>, digest: seq<byte> -> Digest,
                      f: ExtractedFile, c: seq<byte>)
    requires Reports(files, contents, digest) && f.size == |c| && f.digest == digest(c)
    ensures Reports(files + [f], contents + [c], digest)
    ensures NamesOf(files + [f]) == NamesOf(files) + [f.name]
    ensures PathsOf(files + [f]) == PathsOf(files) + [f.path]
  {
    assert (files + [f])[..|files|] == files;
  }

  lemma {:induction false} ReportedSizesAddUp(files: seq<ExtractedFile>, contents: seq<seq<byte>>,
                                              digest: seq<byte> -> Digest)
    requires Reports(files, contents, digest)
    ensures SumSizes(files) == SumLengths(contents)
  {
    if files == [] {
    } else {
      ReportedSizesAddUp(files[..|files| - 1], contents[..|files| - 1], digest);
    }
  }

  /** The extraction pass after some files: what was written, what is reported, what is counted. */
  ghost predicate Progress(tracker: LimitTracker, contents: seq<seq<byte>>, files: seq<ExtractedFile>,
                           digest: seq<byte> -> Digest)
    reads tracker
  {
    && |contents| == tracker.files <= tracker.limits.maxFiles
    && Bounded(tracker.limits, contents) && SumLengths(contents) <= tracker.totalUnpackedBytes
    && Reports(files, contents, digest)
  }

  /** One file more, in place under its output path. */
  predicate PlacedNext(entry: ArchiveEntry, contents0: seq<seq<byte>>, disk0: Disk, contents: seq<seq<byte>>,
                       disk: Disk)
  {
    && |contents| == |contents0| + 1 && contents == contents0 + [contents[|contents0|]]
    && disk == Placed(PartialPath, disk0, OutputPath(entry), contents[|contents0|])
  }

  /** No file more in place; the partial file that was begun, if any, is removed. */
  predicate StoppedAt(entry: ArchiveEntry, contents0: seq<seq<byte>>, disk0: Disk, contents: seq<seq<byte>>, disk: Disk)
  {
    || (contents == contents0 && disk == disk0)
    || (|contents| == |contents0| + 1 && contents[..|contents0|] == contents0
        && disk == disk0 - {PartialPath(OutputPath(entry))})
  }

  /** One file entry of the pass. */
  method ExtractNext(entry: ArchiveEntry, delivery: Delivery, tracker: LimitTracker, digest: seq<byte> -> Digest,
                     contents0: seq<seq<byte>>, files0: seq<ExtractedFile>, disk0: Disk)
    returns (error: Option<ArchiveError>, contents: seq<seq<byte>>, files: seq<ExtractedFile>, disk: Disk)
    requires Progress(tracker, contents0, files0, digest)
    modifies tracker
    ensures Bounded(tracker.limits, contents) && |contents| <= tracker.limits.maxFiles
    ensures error.None? ==>
      && Progress(tracker, contents, files, digest)
      && NamesOf(files) == NamesOf(files0) + [entry.name] && PathsOf(files) == PathsOf(files0) + [OutputPath(entry)]
    ensures var one :=
        EntryExtracted(tracker.limits, old(tracker.files), old(tracker.totalUnpackedBytes), entry, delivery);
      && error == one.error && tracker.files == one.files && tracker.totalUnpackedBytes == one.total
      && contents == contents0 + (if one.created.Some? then [one.created.value] else [])
    ensures error.None? ==> PlacedNext(entry, contents0, disk0, contents, disk)
    ensures error.Some? ==> StoppedAt(entry, contents0, disk0, contents, disk)
    ensures error.None? && !delivery.ignoresFailures && SumLengths(contents0) == old(tracker.totalUnpackedBytes) ==>
      SumLengths(contents) == tracker.totalUnpackedBytes
  {
    contents, files := contents0, files0;
    ghost var counted := tracker.totalUnpackedBytes;
    var created, file;
    error, created, file, disk := ExtractOne(entry, delivery, tracker, digest, disk0);
    if created.Some? {
      ContentsAppended(tracker.limits, contents0, created.value, counted);
      contents := contents0 + [created.value];
      if error.None? {
        FilesAppended(files0, contents0, digest, file, created.value);
        files := files0 + [file];
      }
    }
  }

  /** All files of the first `n` entries are placed, with these contents. */
  predicate PlacedFirst(entries: seq<ArchiveEntry>, n: nat, disk0: Disk, contents: seq<seq<byte>>, disk: Disk)
    requires n <= |entries|
  {
    && |FilePaths(entries, n)| == |contents|
    && disk == Replay(PartialPath, disk0, FilePaths(entries, n), contents)
  }

  /** Entry `n` ended the pass: the files of the entries before it are placed, and its own partial file is gone. */
  predicate StoppedAtEntry(entries: seq<ArchiveEntry>, n: nat, disk0: Disk, contents: seq<seq<byte>>, disk: Disk)
    requires n < |entries|
  {
    var paths := FilePaths(entries, n);
    && |paths| <= |contents|
    && StoppedAt(entries[n], contents[..|paths|], Replay(PartialPath, disk0, paths, contents[..|paths|]),
                 contents, disk)
  }

  /** Some entry ended the pass. */
  ghost predicate Stopped(entries: seq<ArchiveEntry>, disk0: Disk, contents: seq<seq<byte>>, disk: Disk) {
    exists n :: 0 <= n < |entries| && StoppedAtEntry(entries, n, disk0, contents, disk)
  }

  /** The first `n` entries are done: each file is in place and reported under its name and path. */
  predicate DoneFirst(entries: seq<ArchiveEntry>, n: nat, files: seq<ExtractedFile>,
                      disk0: Disk, contents: seq<seq<byte>>, disk: Disk)
    requires n <= |entries|
  {
    && NamesOf(files) == FileNames(entries, n) && PathsOf(files) == FilePaths(entries, n)
    && PlacedFirst(entries, n, disk0, contents, disk)
  }

  lemma FileDone(entries: seq<ArchiveEntry>, i: nat, files0: seq<ExtractedFile>, files: seq<ExtractedFile>,
                 disk0: Disk, contents1: seq<seq<byte>>, disk1: Disk, contents: seq<seq<byte>>, disk: Disk)
    requires i < |entries| && !entries[i].isDir && DoneFirst(entries, i, files0, disk0, contents1, disk1)
    requires NamesOf(files) == NamesOf(files0) + [entries[i].name]
    requires PathsOf(files) == PathsOf(files0) + [OutputPath(entries[i])]
    requires PlacedNext(entries[i], contents1, disk1, contents, disk)
    ensures DoneFirst(entries, i + 1, files, disk0, contents, disk)
  {
    ReplayAppended(PartialPath, disk0, FilePaths(entries, i), contents1, OutputPath(entries[i]), contents[|contents1|]);
  }

  lemma DirectoryDone(entries: seq<ArchiveEntry>, i: nat, files: seq<ExtractedFile>,
                      disk0: Disk, contents: seq<seq<byte>>, disk: Disk)
    requires i < |entries| && entries[i].isDir && DoneFirst(entries, i, files, disk0, contents, disk)
    ensures DoneFirst(entries, i + 1, files, disk0, contents, disk)
  {
  }

  lemma StoppedThere(entries: seq<ArchiveEntry>, i: nat, disk0: Disk, contents1: seq<seq<byte>>, disk1: Disk,
                     contents: seq<seq<byte>>, disk: Disk)
    requires i < |entries| && PlacedFirst(entries, i, disk0, contents1, disk1)
    requires StoppedAt(entries[i], contents1, disk1, contents, disk)
    ensures Stopped(entries, disk0, contents, disk)
  {
    assert contents[..|contents1|] == contents1;
    assert StoppedAtEntry(entries, i, disk0, contents, disk);
  }

  /** The pass has done the first `n` entries. */
  ghost predicate Underway(tracker: LimitTracker, entries: seq<ArchiveEntry>, n: nat, files: seq<ExtractedFile>,
                           digest: seq<byte> -> Digest, disk0: Disk, contents: seq<seq<byte>>, disk: Disk)
    requires n <= |entries|
    reads tracker
  {
    Progress(tracker, contents, files, digest) && DoneFirst(entries, n, files, disk0, contents, disk)
  }

  lemma PassBegins(tracker: LimitTracker, entries: seq<ArchiveEntry>, digest: seq<byte> -> Digest, disk0: Disk)
    requires tracker.files == 0 && tracker.totalUnpackedBytes == 0
    ensures Underway(tracker, entries, 0, [], digest, disk0, [], disk0) && SumLengths([]) == tracker.totalUnpackedBytes
  {
  }

  lemma PassEnds(tracker: LimitTracker, entries: seq<ArchiveEntry>, files: seq<ExtractedFile>,
                 digest: seq<byte> -> Digest, disk0: Disk, contents: seq<seq<byte>>, disk: Disk)
    requires Underway(tracker, entries, |entries|, files, digest, disk0, contents, disk)
    ensures Bounded(tracker.limits, contents) && |contents| <= tracker.limits.maxFiles
    ensures DoneFirst(entries, |entries|, files, disk0, contents, disk) && Reports(files, contents, digest)
    ensures SumSizes(files) == SumLengths(contents)
  {
    ReportedSizesAddUp(files, contents, digest);
  }

  /** The whole pass is what has been created so far and the pass from entry `i` on. */
  ghost predicate OnCourse(limits: ArchiveLimits, entries: seq<ArchiveEntry>, deliveries: nat -> Delivery, i: nat,
                           contents: seq<seq<byte>>, files: u32, total: u64)
    requires i <= |entries|
  {
    var rest := PassFrom(limits, entries, deliveries, i, files, total);
    PassFrom(limits, entries, deliveries, 0, 0, 0) == rest.(contents := contents + rest.contents)
  }

  /** The whole pass is over. */
  ghost predicate PassEnded(limits: ArchiveLimits, entries: seq<ArchiveEntry>, deliveries: nat -> Delivery,
                            error: Option<ArchiveError>, contents: seq<seq<byte>>, total: u64)
  {
    PassFrom(limits, entries, deliveries, 0, 0, 0) == PassResult(error, contents, total)
  }

  lemma CourseBegins(limits: ArchiveLimits, entries: seq<ArchiveEntry>, deliveries: nat -> Delivery)
    ensures OnCourse(limits, entries, deliveries, 0, [], 0, 0)
  {
    var all := PassFrom(limits, entries, deliveries, 0, 0, 0);
    assert [] + all.contents == all.contents;
  }

  lemma CourseEnds(limits: ArchiveLimits, entries: seq<ArchiveEntry>, deliveries: nat -> Delivery,
                   contents: seq<seq<byte>>, files: u32, total: u64)
    requires OnCourse(limits, entries, deliveries, |entries|, contents, files, total)
    ensures PassEnded(limits, entries, deliveries, None, contents, total)
  {
    assert contents + [] == contents;
  }

  lemma CourseOfDirectory(limits: ArchiveLimits, entries: seq<ArchiveEntry>, deliveries: nat -> Delivery, i: nat,
                          contents: seq<seq<byte>>, files: u32, total: u64)
    requires i < |entries| && entries[i].isDir && OnCourse(limits, entries, deliveries, i, contents, files, total)
    ensures OnCourse(limits, entries, deliveries, i + 1, contents, files, total)
  {
  }

  lemma CourseOfFile(limits: ArchiveLimits, entries: seq<ArchiveEntry>, deliveries: nat -> Delivery, i: nat,
                     contents: seq<seq<byte>>, files: u32, total: u64)
    requires i < |entries| && !entries[i].isDir && OnCourse(limits, entries, deliveries, i, contents, files, total)
    ensures var one := EntryExtracted(limits, files, total, entries[i], deliveries(i));
      var more := contents + (if one.created.Some? then [one.created.value] else []);
      && (one.error.Some? ==> PassEnded(limits, entries, deliveries, one.error, more, one.total))
      && (one.error.None? ==> OnCourse(limits, entries, deliveries, i + 1, more, one.files, one.total))
  {
    var one := EntryExtracted(limits, files, total, entries[i], deliveries(i));
    var created := if one.created.Some? then [one.created.value] else [];
    Regroup(contents, created, PassFrom(limits, entries, deliveries, i + 1, one.files, one.total).contents);
  }

  /** One turn of the pass, at entry `i`. */
  method ExtractEntry(entries: seq<ArchiveEntry>, i: nat, deliveries: nat -> Delivery, tracker: LimitTracker,
                      digest: seq<byte> -> Digest, ghost disk0: Disk,
                      contents1: seq<seq<byte>>, files1: seq<ExtractedFile>, disk1: Disk)
    returns (error: Option<ArchiveError>, contents: seq<seq<byte>>, files: seq<ExtractedFile>, disk: Disk)
    requires i < |entries| && Underway(tracker, entries, i, files1, digest, disk0, contents1, disk1)
    requires OnCourse(tracker.limits, entries, deliveries, i, contents1, tracker.files, tracker.totalUnpackedBytes)
    modifies tracker
    ensures Bounded(tracker.limits, contents) && |contents| <= tracker.limits.maxFiles
    ensures error.None? ==> Underway(tracker, entries, i + 1, files, digest, disk0, contents, disk)
    ensures error.None? ==>
      OnCourse(tracker.limits, entries, deliveries, i + 1, contents, tracker.files, tracker.totalUnpackedBytes)
    ensures error.Some? ==> PassEnded(tracker.limits, entries, deliveries, error, contents, tracker.totalUnpackedBytes)
    ensures error.Some? ==> Stopped(entries, disk0, contents, disk)
    ensures error.None? && !deliveries(i).ignoresFailures ==>
      SumLengths(contents1) == old(tracker.totalUnpackedBytes) ==>
      SumLengths(contents) == tracker.totalUnpackedBytes
  {
    if entries[i].isDir {
      DirectoryDone(entries, i, files1, disk0, contents1, disk1);
      CourseOfDirectory(tracker.limits, entries, deliveries, i, contents1, tracker.files, tracker.totalUnpackedBytes);
      return None, contents1, files1, disk1;
    }
    CourseOfFile(tracker.limits, entries, deliveries, i, contents1, tracker.files, tracker.totalUnpackedBytes);
    error, contents, files, disk := ExtractNext(entries[i], deliveries(i), tracker, digest, contents1, files1, disk1);
    if error.Some? {
      StoppedThere(entries, i, disk0, contents1, disk1, contents, disk);
    } else {
      FileDone(entries, i, files1, files, disk0, contents1, disk1, contents, disk);
    }
  }

  /** The extraction pass; `contents` are the bytes put into each file it creates, the last one possibly partial. */
  method ExtractFiles(entries: seq<ArchiveEntry>, limits: ArchiveLimits, deliveries: nat -> Delivery,
                      digest: seq<byte> -> Digest, disk0: Disk)
    returns (r: Result<seq<ExtractedFile>, ArchiveError>, contents: seq<seq<byte>>, tracker: LimitTracker, disk: Disk)
    ensures Bounded(limits, contents) && |contents| <= limits.maxFiles
    ensures r.Ok? ==>
      DoneFirst(entries, |entries|, r.value, disk0, contents, disk) && Reports(r.value, contents, digest)
    ensures r.Err? ==> Stopped(entries, disk0, contents, disk)
    ensures PassEnded(limits, entries, deliveries, if r.Ok? then None else Some(r.error), contents,
                      tracker.totalUnpackedBytes)
    ensures r.Ok? && (forall i: nat :: !deliveries(i).ignoresFailures) ==>
      SumSizes(r.value) == tracker.totalUnpackedBytes
  {
    tracker := new LimitTracker(limits);
    contents, disk := [], disk0;
    var extracted: seq<ExtractedFile> := [];
    PassBegins(tracker, entries, digest, disk0);
    CourseBegins(limits, entries, deliveries);
    ghost var allStop := forall j: nat :: !deliveries(j).ignoresFailures;
    for i := 0 to |entries|
      invariant tracker.limits == limits && fresh(tracker)
      invariant Underway(tracker, entries, i, extracted, digest, disk0, contents, disk)
      invariant OnCourse(limits, entries, deliveries, i, contents, tracker.files, tracker.totalUnpackedBytes)
      invariant allStop ==> SumLengths(contents) == tracker.totalUnpackedBytes
    {
      var error;
      error, contents, extracted, disk :=
        ExtractEntry(entries, i, deliveries, tracker, digest, disk0, contents, extracted, disk);
      if error.Some? {
        return Err(error.value), contents, tracker, disk;
      }
    }
    PassEnds(tracker, entries, extracted, digest, disk0, contents, disk);
    CourseEnds(limits, entries, deliveries, contents, tracker.files, tracker.totalUnpackedBytes);
    r := Ok(extracted);
  }

  /** The listing's own limits: plain files and directories only, each entry, the count, the total and the links. */
  ghost predicate AllAccepted(limits: ArchiveLimits, entries: seq<ArchiveEntry>) {
    && (forall e :: e in entries ==>
          && (e.isDir || (e.entryType == File && !e.isSymlink && !e.isEncrypted))
          && EntryWithinLimits(limits, e))
    && |entries| <= limits.maxFiles
    && TotalSize(entries) <= limits.maxTotalUnpackedBytes
    && Symlinks(entries) <= limits.maxSymlinks
  }

  lemma AcceptedExactly(limits: ArchiveLimits, entries: seq<ArchiveEntry>)
    ensures MetadataError(limits, NO_COUNTS, entries).None? <==> AllAccepted(limits, entries)
  {
    MetadataIsAcceptedExactly(limits, NO_COUNTS, entries);
  }

  /** How the extraction ends, what is in the files it creates, and the total of the extraction tracker. */
  function ExtractionResult(listed: Result<seq<ArchiveEntry>, ArchiveError>, limits: ArchiveLimits,
                            deliveries: nat -> Delivery): PassResult
  {
    match listed
    case Err(e) => PassResult(Some(e), [], 0)
    case Ok(entries) =>
      var refused := MetadataError(limits, NO_COUNTS, entries);
      if refused.Some? then PassResult(refused, [], 0) else PassFrom(limits, entries, deliveries, 0, 0, 0)
  }

  /** The destination after a failure: as it was, or with the files before the entry that failed. */
  ghost predicate LeftBehind(listed: Result<seq<ArchiveEntry>, ArchiveError>, disk0: Disk, contents: seq<seq<byte>>,
                             disk: Disk)
  {
    (contents == [] && disk == disk0) || (listed.Ok? && Stopped(listed.value, disk0, contents, disk))
  }

  lemma NothingWritten(limits: ArchiveLimits, listed: Result<seq<ArchiveEntry>, ArchiveError>, disk0: Disk)
    ensures Bounded(limits, []) && LeftBehind(listed, disk0, [], disk0)
  {
  }

  lemma StoppedIsLeftBehind(entries: seq<ArchiveEntry>, disk0: Disk, contents: seq<seq<byte>>, disk: Disk)
    requires Stopped(entries, disk0, contents, disk)
    ensures LeftBehind(Ok(entries), disk0, contents, disk)
  {
  }

  /**
    `extract_to_directory`.  `deliveries` says what the reader does for each
    entry; `tracker` is the extraction tracker and `disk` the destination at the end.
   */
  method ExtractToDirectory(listed: Result<seq<ArchiveEntry>, ArchiveError>, limits: ArchiveLimits,
                            deliveries: nat -> Delivery, digest: seq<byte> -> Digest, disk0: Disk)
    returns (r: Result<seq<ExtractedFile>, ArchiveError>, contents: seq<seq<byte>>, tracker: LimitTracker, disk: Disk)
    // How it ends and what it writes.
    ensures ExtractionResult(listed, limits, deliveries) ==
      PassResult(if r.Ok? then None else Some(r.error), contents, tracker.totalUnpackedBytes)
    // Bounds, whatever the reader does and however extraction ends.
    ensures Bounded(limits, contents) && |contents| <= limits.maxFiles
    // On success the listing was accepted, and every file entry is in place and reported with its size and digest.
    ensures r.Ok? ==>
      && listed.Ok? && AllAccepted(limits, listed.value)
      && DoneFirst(listed.value, |listed.value|, r.value, disk0, contents, disk)
      && Reports(r.value, contents, digest)
    // The destination after a failure.
    ensures r.Err? ==> LeftBehind(listed, disk0, contents, disk)
    // With readers that stop at a failed write, the reported sizes are what the tracker counted.
    ensures r.Ok? && (forall i: nat :: !deliveries(i).ignoresFailures) ==>
      SumSizes(r.value) == tracker.totalUnpackedBytes
  {
    tracker := new LimitTracker(limits);
    contents, disk := [], disk0;
    NothingWritten(limits, listed, disk0);
    if listed.Err? {
      return Err(listed.error), contents, tracker, disk;
    }
    var failed := CheckMetadata(listed.value, limits);
    if failed.Some? {
      return Err(failed.value), contents, tracker, disk;
    }
    AcceptedExactly(limits, listed.value);
    r, contents, tracker, disk := ExtractFiles(listed.value, limits, deliveries, digest, disk0);
    if r.Err? {
      StoppedIsLeftBehind(listed.value, disk0, contents, disk);
    }
  }

  // ----- what the report says about the destination

  lemma {:induction false} PathIsReported(files: seq<ExtractedFile>, i: nat)
    requires i < |files|
    ensures PathsOf(files)[i] == files[i].path
  {
    var n := |files| - 1;
    if i == n {
    } else {
      PathIsReported(files[..n], i);
    }
  }

  /** The file at the reported path has the reported size and digest. */
  predicate TrueOf(disk: Disk, file: ExtractedFile, digest: seq<byte> -> Digest) {
    file.path in disk && |disk[file.path]| == file.size && digest(disk[file.path]) == file.digest
  }

  /**
    With a digest that tells the contents apart, a report is true of the
    destination exactly when its file survives.
   */
  lemma ReportIsTrueExactly(disk0: Disk, files: seq<ExtractedFile>, contents: seq<seq<byte>>,
                            digest: seq<byte> -> Digest, i: nat)
    requires Reports(files, contents, digest) && i < |files|
    requires forall b: seq<byte> :: digest(b) == digest(contents[i]) ==> b == contents[i]
    ensures TrueOf(Replay(PartialPath, disk0, PathsOf(files), contents), files[i], digest) <==>
      Survives(PartialPath, PathsOf(files), contents, i)
  {
    PathIsReported(files, i);
    FileIsInPlaceExactly(PartialPath, disk0, PathsOf(files), contents, i);
  }

  /** Every report is true of the destination when no path is repeated and none is the partial path of a later one. */
  lemma ReportsAreTrue(disk0: Disk, files: seq<ExtractedFile>, contents: seq<seq<byte>>, digest: seq<byte> -> Digest)
    requires Reports(files, contents, digest) && NothingTouched(PartialPath, PathsOf(files))
    ensures forall i :: 0 <= i < |files| ==>
      TrueOf(Replay(PartialPath, disk0, PathsOf(files), contents), files[i], digest)
  {
    AllAreInPlaceExactly(PartialPath, disk0, PathsOf(files));
    forall i | 0 <= i < |files|
      ensures TrueOf(Replay(PartialPath, disk0, PathsOf(files), contents), files[i], digest)
    {
      PathIsReported(files, i);
      assert HoldsItsBytes(Replay(PartialPath, disk0, PathsOf(files), contents), PathsOf(files)[i], contents[i]);
    }
  }
}
