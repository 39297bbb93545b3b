/** When an extraction succeeds, and that its files then hold what the reader delivered. */
module ExtractionSuccess {
  import opened Common
  import opened Deliveries
  import opened Extraction
  import opened Limits
  import opened Text

  /** The bytes delivered for the files of entry `i` and later, one sequence each, in order. */
  function SentFiles(entries: seq<ArchiveEntry>, deliveries: nat -> Delivery, i: nat): seq<seq<byte>>
    requires i <= |entries|
    decreases |entries| - i
  {
    if i == |entries| then []
    else (if entries[i].isDir then [] else [Flatten(deliveries(i).writes)]) + SentFiles(entries, deliveries, i + 1)
  }

  function SentTotal(entries: seq<ArchiveEntry>, deliveries: nat -> Delivery, i: nat): nat
    requires i <= |entries|
    decreases |entries| - i
  {
    if i == |entries| then 0
    else (if entries[i].isDir then 0 else |Flatten(deliveries(i).writes)|) + SentTotal(entries, deliveries, i + 1)
  }

  /** The entry has a safe name, and the reader delivers all of it, within the limits of a single file. */
  predicate FileGoesThrough(limits: ArchiveLimits, entry: ArchiveEntry, delivery: Delivery) {
    var size := |Flatten(delivery.writes)|;
    && SafeEntryName(entry.name).Ok?
    && delivery.outcome == None
    && size <= limits.maxSingleFileBytes
    && (entry.compressedSize == None || size == 0
        || size < (limits.maxCompressionRatio + 1) * entry.compressedSize.value)
  }

  lemma EntryGoesThroughExactly(limits: ArchiveLimits, files: u32, total: u64, entry: ArchiveEntry, delivery: Delivery)
    requires !delivery.ignoresFailures && CheckDepth(limits, entry.name)
    requires files < limits.maxFiles && total <= limits.maxTotalUnpackedBytes
    ensures var one := EntryExtracted(limits, files, total, entry, delivery);
      var sent := Flatten(delivery.writes);
      && (one.error == None <==>
            FileGoesThrough(limits, entry, delivery) && total + |sent| <= limits.maxTotalUnpackedBytes)
      && (one.error == None ==> one == EntryResult(None, Some(sent), files + 1, total + |sent|))
  {
    var sent := Flatten(delivery.writes);
    RatioIsExact(limits, 0, entry.compressedSize);
    WritesGoThroughExactly(limits, entry.compressedSize, WriterState([], total), delivery.writes);
    assert [] + sent == sent;
    var (written, failed) := AllWritten(limits, entry.compressedSize, WriterState([], total), delivery.writes, false);
    assert EntryExtracted(limits, files, total, entry, delivery).error == None <==>
      SafeEntryName(entry.name).Ok? && DeliveryError(delivery, failed) == None;
    if |sent| <= limits.maxSingleFileBytes {
      RatioIsExact(limits, |sent|, entry.compressedSize);
    }
  }

  /** The files of entry `i` and later go through one by one. */
  predicate AllGoThrough(limits: ArchiveLimits, entries: seq<ArchiveEntry>, deliveries: nat -> Delivery, i: nat) {
    forall j :: i <= j < |entries| && !entries[j].isDir ==> FileGoesThrough(limits, entries[j], deliveries(j))
  }

  lemma AllGoThroughFrom(limits: ArchiveLimits, entries: seq<ArchiveEntry>, deliveries: nat -> Delivery, i: nat)
    requires i < |entries|
    ensures AllGoThrough(limits, entries, deliveries, i) <==>
      && (entries[i].isDir || FileGoesThrough(limits, entries[i], deliveries(i)))
      && AllGoThrough(limits, entries, deliveries, i + 1)
  {
  }

  lemma {:induction false} PassSucceedsExactly(limits: ArchiveLimits, entries: seq<ArchiveEntry>,
                                               deliveries: nat -> Delivery, i: nat, files: u32, total: u64)
    requires i <= |entries| && forall j: nat :: !deliveries(j).ignoresFailures
    requires forall e :: e in entries ==> CheckDepth(limits, e.name)
    requires files + (|entries| - i) <= limits.maxFiles && total <= limits.maxTotalUnpackedBytes
    ensures var r := PassFrom(limits, entries, deliveries, i, files, total);
      && (r.error == None <==>
            && AllGoThrough(limits, entries, deliveries, i)
            && total + SentTotal(entries, deliveries, i) <= limits.maxTotalUnpackedBytes)
      && (r.error == None ==> r.contents == SentFiles(entries, deliveries, i))
    decreases |entries| - i
  {
    if i == |entries| {
    } else if entries[i].isDir {
      AllGoThroughFrom(limits, entries, deliveries, i);
      PassSucceedsExactly(limits, entries, deliveries, i + 1, files, total);
      assert [] + SentFiles(entries, deliveries, i + 1) == SentFiles(entries, deliveries, i + 1);
    } else {
      var one := EntryExtracted(limits, files, total, entries[i], deliveries(i));
      assert entries[i] in entries;
      AllGoThroughFrom(limits, entries, deliveries, i);
      EntryGoesThroughExactly(limits, files, total, entries[i], deliveries(i));
      if one.error.None? {
        PassSucceedsExactly(limits, entries, deliveries, i + 1, one.files, one.total);
      }
    }
  }

  /**
    With readers that stop at a failed write, an extraction succeeds exactly when
    the listing consists of directories and plain files within the limits, every
    file has a safe name and is delivered without an error within its own limits,
    and all files together are within the total.  The files then hold exactly what
    was delivered for them.
   */
  lemma ExtractionSucceedsExactly(entries: seq<ArchiveEntry>, limits: ArchiveLimits, deliveries: nat -> Delivery)
    requires forall j: nat :: !deliveries(j).ignoresFailures
    ensures var r := ExtractionResult(Ok(entries), limits, deliveries);
      && (r.error == None <==>
            && AllAccepted(limits, entries)
            && AllGoThrough(limits, entries, deliveries, 0)
            && SentTotal(entries, deliveries, 0) <= limits.maxTotalUnpackedBytes)
      && (r.error == None ==> r.contents == SentFiles(entries, deliveries, 0))
  {
    AcceptedExactly(limits, entries);
    if AllAccepted(limits, entries) {
      forall e | e in entries ensures CheckDepth(limits, e.name) {
        assert EntryWithinLimits(limits, e);
      }
      PassSucceedsExactly(limits, entries, deliveries, 0, 0, 0);
    }
  }
}
