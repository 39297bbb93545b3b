/**
  Bounded streaming: `copy_with_limits` into an in-memory sink.  A reader is any
  script of deliveries, so nothing depends on what an archive's headers claim.
 */
module StreamCopy {
  import opened Common
  import opened Limits

  /** One call of `Read::read`: some bytes (none at the end of the stream) or a failure. */
  datatype ReadEvent = Chunk(bytes: seq<byte>) | ReadError

  /** An unbounded sink such as `Vec<u8>`. */
  class ByteSink {
    var data: seq<byte>

    constructor ()
      ensures data == []
    {
      data := [];
    }
  }

  predicate IsData(e: ReadEvent) {
    e.Chunk? && e.bytes != []
  }

  /** How many reads deliver bytes before the stream ends or fails. */
  function DataReads(script: seq<ReadEvent>): (n: nat)
    ensures n <= |script|
  {
    if script == [] || !IsData(script[0]) then 0 else 1 + DataReads(script[1..])
  }

  /** The bytes of the first `n` reads. */
  function Prefix(script: seq<ReadEvent>, n: nat): seq<byte>
    requires n <= |script|
  {
    if n == 0 then [] else Prefix(script, n - 1) + (if script[n - 1].Chunk? then script[n - 1].bytes else [])
  }

  /** Everything the reader delivers. */
  function Stream(script: seq<ReadEvent>): seq<byte> {
    Prefix(script, DataReads(script))
  }

  predicate Fails(script: seq<ReadEvent>) {
    DataReads(script) < |script| && script[DataReads(script)].ReadError?
  }

  /** The first limit that `n` copied bytes break, in the order they are checked. */
  function Violation(limits: ArchiveLimits, initialTotal: u64, compressed: Option<u64>, n: nat): Option<Limit> {
    if n > limits.maxSingleFileBytes then Some(MaxSingleFileBytes)
    else if initialTotal + n > limits.maxTotalUnpackedBytes then Some(MaxTotalUnpackedBytes)
    else if !RatioOk(limits, n, compressed) then Some(MaxCompressionRatio)
    else None
  }

  /** Which limit is reported, and when none is, from the limits alone. */
  lemma ViolationIsExact(limits: ArchiveLimits, initialTotal: u64, compressed: Option<u64>, n: nat)
    ensures var v := Violation(limits, initialTotal, compressed, n);
      var single, total := n <= limits.maxSingleFileBytes, initialTotal + n <= limits.maxTotalUnpackedBytes;
      var ratio := compressed == None || n == 0 || n < (limits.maxCompressionRatio + 1) * compressed.value;
      && (v == None <==> single && total && ratio)
      && (v == Some(MaxSingleFileBytes) <==> !single)
      && (v == Some(MaxTotalUnpackedBytes) <==> single && !total)
      && (v == Some(MaxCompressionRatio) <==> single && total && !ratio)
  {
    if n <= limits.maxSingleFileBytes {
      RatioIsExact(limits, n, compressed);
    }
  }

  lemma ProductGrows(c: nat, a: int, b: int)
    requires a <= b
    ensures c * a <= c * b
  {
  }

  lemma DivisionGrows(m: nat, n: nat, c: nat)
    requires m <= n && c > 0
    ensures m / c <= n / c
  {
    var p, q := n / c, m / c;
    assert n == c * p + n % c && m == c * q + m % c;
    if q >= p + 1 {
      ProductGrows(c, p + 1, q);
      assert false;
    }
  }

  /** What is within the limits stays within them when cut short. */
  lemma ViolationIsMonotone(limits: ArchiveLimits, initialTotal: u64, compressed: Option<u64>, m: nat, n: nat)
    requires m <= n && Violation(limits, initialTotal, compressed, n).None?
    ensures Violation(limits, initialTotal, compressed, m).None?
  {
    if compressed.Some? && compressed.value > 0 {
      DivisionGrows(m, n, compressed.value);
    }
  }

  lemma {:induction false} DataReadsAreData(script: seq<ReadEvent>)
    ensures forall i :: 0 <= i < DataReads(script) ==> IsData(script[i])
    ensures DataReads(script) < |script| ==> !IsData(script[DataReads(script)])
  {
    if script == [] || !IsData(script[0]) {
    } else {
      DataReadsAreData(script[1..]);
    }
  }

  lemma {:induction false} PrefixGrows(script: seq<ReadEvent>, m: nat, n: nat)
    requires m <= n <= |script|
    ensures Prefix(script, m) <= Prefix(script, n)
  {
    if m == n {
    } else {
      PrefixGrows(script, m, n - 1);
    }
  }

  /** The copy stopped after `k` reads with result `r`. */
  predicate StopsAt(limits: ArchiveLimits, initialTotal: u64, compressed: Option<u64>, script: seq<ReadEvent>, k: nat,
                    r: Result<nat, ArchiveError>)
  {
    && k <= DataReads(script)
    && Violation(limits, initialTotal, compressed, |Prefix(script, k)|).None?
    && if k == DataReads(script) then
         r == if Fails(script) then Err(Io) else Ok(|Stream(script)|)
       else
         var broken := Violation(limits, initialTotal, compressed, |Prefix(script, k + 1)|);
         broken.Some? && r == Err(LimitExceeded(broken.value))
  }

  /** The checks on one more chunk: the copied count, both totals, the ratio. */
  method AccountChunk(tracker: LimitTracker, initialTotal: u64, copied: nat, chunk: nat, compressed: Option<u64>)
    returns (broken: Option<Limit>)
    requires tracker.totalUnpackedBytes == initialTotal + copied
    modifies tracker`totalUnpackedBytes
    ensures broken == Violation(tracker.limits, initialTotal, compressed, copied + chunk)
    ensures
      || tracker.totalUnpackedBytes == initialTotal + copied
      || tracker.totalUnpackedBytes == initialTotal + copied + chunk
    ensures broken.None? ==> tracker.totalUnpackedBytes == initialTotal + copied + chunk
    ensures old(tracker.totalUnpackedBytes) <= tracker.limits.maxTotalUnpackedBytes ==>
      tracker.totalUnpackedBytes <= tracker.limits.maxTotalUnpackedBytes
  {
    if copied + chunk > tracker.limits.maxSingleFileBytes {
      return Some(MaxSingleFileBytes);
    }
    if initialTotal + copied + chunk > tracker.limits.maxTotalUnpackedBytes {
      return Some(MaxTotalUnpackedBytes);
    }
    tracker.totalUnpackedBytes := tracker.totalUnpackedBytes + chunk;
    // The second check, on the tracker's own total, cannot fail: the two totals are equal.
    assert tracker.totalUnpackedBytes == initialTotal + copied + chunk <= tracker.limits.maxTotalUnpackedBytes;
    if !RatioOk(tracker.limits, copied + chunk, compressed) {
      return Some(MaxCompressionRatio);
    }
    broken := None;
  }

  /** What one more data read adds. */
  lemma NextPrefix(script: seq<ReadEvent>, k: nat)
    requires k < |script| && IsData(script[k])
    ensures Prefix(script, k + 1) == Prefix(script, k) + script[k].bytes
  {
  }

  /** A read of data is one of those that count, and the first other one ends them. */
  lemma DataReadsReached(script: seq<ReadEvent>, k: nat)
    requires k <= DataReads(script)
    ensures k < |script| && IsData(script[k]) <==> k < DataReads(script)
  {
    DataReadsAreData(script);
  }

  /**
    `copy_with_limits`.  The sink ends with the bytes of the first `k` reads, all
    within the limits, and the result says why it stopped there.
   */
  method CopyWithLimits(script: seq<ReadEvent>, sink: ByteSink, tracker: LimitTracker, compressed: Option<u64>)
    returns (r: Result<nat, ArchiveError>, ghost k: nat)
    requires tracker.totalUnpackedBytes <= tracker.limits.maxTotalUnpackedBytes
    modifies sink, tracker`totalUnpackedBytes
    ensures StopsAt(tracker.limits, old(tracker.totalUnpackedBytes), compressed, script, k, r)
    ensures sink.data == old(sink.data) + Prefix(script, k)
    ensures old(tracker.totalUnpackedBytes) + |Prefix(script, k)| <= tracker.totalUnpackedBytes
    ensures tracker.totalUnpackedBytes <= tracker.limits.maxTotalUnpackedBytes
    ensures r.Ok? ==> tracker.totalUnpackedBytes == old(tracker.totalUnpackedBytes) + r.value
  {
    var initialTotal := tracker.totalUnpackedBytes;
    var copied: nat := 0;
    k := 0;
    var i: nat := 0;
    while i < |script| && script[i].Chunk? && script[i].bytes != []
      invariant i == k <= DataReads(script)
      invariant copied == |Prefix(script, k)|
      invariant sink.data == old(sink.data) + Prefix(script, k)
      invariant tracker.totalUnpackedBytes == initialTotal + copied <= tracker.limits.maxTotalUnpackedBytes
      invariant Violation(tracker.limits, initialTotal, compressed, copied).None?
      decreases |script| - i
    {
      var buffer := script[i].bytes;
      DataReadsReached(script, k);
      NextPrefix(script, k);
      var broken := AccountChunk(tracker, initialTotal, copied, |buffer|, compressed);
      if broken.Some? {
        return Err(LimitExceeded(broken.value)), k;
      }
      Regroup(old(sink.data), Prefix(script, k), buffer);
      copied := copied + |buffer|;
      sink.data := sink.data + buffer;
      i, k := i + 1, k + 1;
    }
    DataReadsReached(script, k);
    r := if i < |script| && script[i].ReadError? then Err(Io) else Ok(copied);
  }

  lemma ShorterIsWithin(limits: ArchiveLimits, initialTotal: u64, compressed: Option<u64>, m: nat)
    requires Violation(limits, initialTotal, compressed, m).None?
    ensures forall n: nat :: n <= m ==> Violation(limits, initialTotal, compressed, n).None?
  {
    forall n: nat | n <= m ensures Violation(limits, initialTotal, compressed, n).None? {
      ViolationIsMonotone(limits, initialTotal, compressed, n, m);
    }
  }

  /** A read that breaks a limit leaves the whole stream over it. */
  lemma BrokenStaysBroken(limits: ArchiveLimits, initialTotal: u64, compressed: Option<u64>,
                          script: seq<ReadEvent>, k: nat)
    requires k <= DataReads(script) && Violation(limits, initialTotal, compressed, |Prefix(script, k)|).Some?
    ensures Violation(limits, initialTotal, compressed, |Stream(script)|).Some?
  {
    PrefixGrows(script, k, DataReads(script));
    if Violation(limits, initialTotal, compressed, |Stream(script)|).None? {
      ViolationIsMonotone(limits, initialTotal, compressed, |Prefix(script, k)|, |Stream(script)|);
      assert false;
    }
  }

  /**
    The copy succeeds exactly when the whole stream arrives and is within the
    limits; whenever it stops, what was copied is a prefix of the stream within
    them, and on success it is the whole stream and its length is returned.
   */
  lemma CopyMeaning(limits: ArchiveLimits, initialTotal: u64, compressed: Option<u64>, script: seq<ReadEvent>, k: nat,
                    r: Result<nat, ArchiveError>)
    requires StopsAt(limits, initialTotal, compressed, script, k, r)
    ensures r.Ok? <==>
      && !Fails(script)
      && |Stream(script)| <= limits.maxSingleFileBytes
      && initialTotal + |Stream(script)| <= limits.maxTotalUnpackedBytes
      && (compressed == None || |Stream(script)| == 0
          || |Stream(script)| < (limits.maxCompressionRatio + 1) * compressed.value)
    ensures r.Ok? ==> r.value == |Stream(script)| && Prefix(script, k) == Stream(script)
    ensures Prefix(script, k) <= Stream(script)
    ensures forall n: nat :: n <= |Prefix(script, k)| ==> Violation(limits, initialTotal, compressed, n).None?
  {
    ViolationIsExact(limits, initialTotal, compressed, |Stream(script)|);
    PrefixGrows(script, k, DataReads(script));
    ShorterIsWithin(limits, initialTotal, compressed, |Prefix(script, k)|);
    if k < DataReads(script) {
      BrokenStaysBroken(limits, initialTotal, compressed, script, k + 1);
    }
  }
}
