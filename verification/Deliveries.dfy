/**
  What `extract_entry` does with the writer it is given, and what becomes of it:
  the bytes of the file, the tracker's total, and the first limit that is broken.
 */
module Deliveries {
  import opened Common
  import opened Limits
  import opened Text

  datatype Delivery = Delivery(
    writes: seq<seq<byte>>,
    /** Whether it carries on after a failed write; the readers of the crate stop and return the error. */
    ignoresFailures: bool,
    /** Its own result when it is not stopped by a failed write. */
    outcome: Option<ArchiveError>)

  /** The bytes written so far and the total the tracker has counted. */
  datatype WriterState = WriterState(file: seq<byte>, total: u64)

  /** One `write`: the size check, the total, which counts although the ratio fails, and the ratio. */
  function Written(limits: ArchiveLimits, compressed: Option<u64>, p: WriterState, buffer: seq<byte>)
    : (WriterState, Option<Limit>)
  {
    if |p.file| + |buffer| > limits.maxSingleFileBytes then (p, Some(MaxSingleFileBytes))
    else if p.total + |buffer| > U64_MAX then (p, Some(MaxTotalUnpackedBytes))
    else
      var counted := p.(total := p.total + |buffer|);
      if counted.total > limits.maxTotalUnpackedBytes then (counted, Some(MaxTotalUnpackedBytes))
      else if !RatioOk(limits, |p.file| + |buffer|, compressed) then (counted, Some(MaxCompressionRatio))
      else (counted.(file := p.file + buffer), None)
  }

  /** All writes of a delivery; a failed one ends it unless failures are ignored. */
  function AllWritten(limits: ArchiveLimits, compressed: Option<u64>, p: WriterState, writes: seq<seq<byte>>,
                      ignores: bool)
    : (WriterState, Option<Limit>)
    decreases |writes|
  {
    if writes == [] then (p, None)
    else
      var (next, failed) := Written(limits, compressed, p, writes[0]);
      if failed.Some? && !ignores then (next, failed)
      else AllWritten(limits, compressed, next, writes[1..], ignores)
  }

  /** How `extract_entry` ends. */
  function DeliveryError(delivery: Delivery, failed: Option<Limit>): Option<ArchiveError> {
    if failed.Some? then Some(LimitExceeded(failed.value)) else delivery.outcome
  }

  /** Bounds that hold whatever is written and whether or not failures are ignored. */
  lemma {:induction false} WrittenWithinLimits(limits: ArchiveLimits, compressed: Option<u64>, p: WriterState,
                                               writes: seq<seq<byte>>, ignores: bool)
    requires |p.file| <= limits.maxSingleFileBytes && |p.file| <= p.total
    ensures var (q, failed) := AllWritten(limits, compressed, p, writes, ignores);
      && |q.file| <= limits.maxSingleFileBytes
      && |q.file| - |p.file| <= q.total - p.total
      && (q.file != p.file ==> p.total + (|q.file| - |p.file|) <= limits.maxTotalUnpackedBytes)
      && (failed.None? && !ignores ==> q.total - p.total == |q.file| - |p.file|)
    decreases |writes|
  {
    if writes == [] {
    } else {
      WrittenWithinLimits(limits, compressed, Written(limits, compressed, p, writes[0]).0, writes[1..], ignores);
    }
  }

  lemma RatioOfLess(limits: ArchiveLimits, m: u64, n: u64, compressed: Option<u64>)
    requires m <= n && RatioOk(limits, n, compressed)
    ensures RatioOk(limits, m, compressed)
  {
    RatioIsExact(limits, m, compressed);
    RatioIsExact(limits, n, compressed);
  }

  /**
    A delivery that stops at a failed write goes through exactly when the whole of
    it is within the three limits, and then the file is all that was written.
   */
  lemma {:induction false} WritesGoThroughExactly(limits: ArchiveLimits, compressed: Option<u64>, p: WriterState,
                                                  writes: seq<seq<byte>>)
    requires |p.file| <= limits.maxSingleFileBytes && p.total <= limits.maxTotalUnpackedBytes
    requires RatioOk(limits, |p.file|, compressed)
    ensures var (q, failed) := AllWritten(limits, compressed, p, writes, false);
      var length := |p.file| + |Flatten(writes)|;
      && (failed.None? <==>
            && length <= limits.maxSingleFileBytes
            && p.total + |Flatten(writes)| <= limits.maxTotalUnpackedBytes
            && RatioOk(limits, length, compressed))
      && (failed.None? ==> q == WriterState(p.file + Flatten(writes), p.total + |Flatten(writes)|))
    decreases |writes|
  {
    if writes == [] {
      assert p.file + [] == p.file;
    } else {
      var (next, failed) := Written(limits, compressed, p, writes[0]);
      if failed.None? {
        WritesGoThroughExactly(limits, compressed, next, writes[1..]);
        Regroup(p.file, writes[0], Flatten(writes[1..]));
      } else {
        var length := |p.file| + |Flatten(writes)|;
        if length <= limits.maxSingleFileBytes && RatioOk(limits, length, compressed) {
          RatioOfLess(limits, |p.file| + |writes[0]|, length, compressed);
        }
      }
    }
  }
}
