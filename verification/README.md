# Verification of the Arbitraitor core

Arbitraitor inspects a downloaded artifact before anything of it may run: it
classifies the bytes, walks archives recursively under resource limits, runs
detectors, derives a fail-closed verdict and drives a release pipeline. This
project models the parts of it whose guarantee spans several functions or whole
runs, and proves those guarantees. `dafny verify dfyconfig.toml` checks all of it.

| file | what it models |
|---|---|
| `Common.dfy`, `Text.dfy`, `Utf8.dfy` | machine integers and results; splitting, joining, filtering; UTF-8 validity, boundaries and lossy decoding |
| `Limits.dfy`, `Symlinks.dfy`, `Hazards.dfy` | `LimitTracker`, entry names, the symlink depth counter, the archive-hazard scan |
| `StreamCopy.dfy`, `Deliveries.dfy`, `Placement.dfy`, `Extraction.dfy`, `ExtractionSuccess.dfy` | the bounded copy loop, what a reader writes, partial files and renames, `HashingLimitWriter`, extraction to a directory and when it succeeds |
| `TarScan.dfy`, `TarSizes.dfy`, `TarPax.dfy`, `TarCodec.dfy` | the byte-level tar scanner, its size fields and PAX records, and a ustar encoder it reads back |
| `PayloadWalk.dfy`, `PayloadTheorems.dfy`, `PayloadCompleteness.dfy` | the mutually recursive payload walk over its mutable environment, what every walk guarantees, and that nothing is skipped |
| `Pipeline.dfy` | the operation state machine, `Deserialize`, and whole runs |
| `UrlScan.dfy`, `UrlCharacters.dfy`, `UrlWindows.dfy`, `UrlSaturation.dfy` | the dynamic-URL extractor, its tokens and templates on characters, the windowed scan that refines it, and what its caps lose |
| `Shortcut.dfy`, `ShortcutFlags.dfy`, `ShortcutCodec.dfy`, `ShortcutForced.dfy` | the MS-SHLLINK parser, its flags and limits in numbers, an encoder it reads back, and the flags under which arguments are lost |
| `Calendar.dfy`, `Timestamps.dfy`, `Clamd.dfy` | civil-date arithmetic, RFC 3339 parsing, INSTREAM framing |
| `Approval.dfy`, `ApprovalFormat.dfy`, `Grouping.dfy`, `CanonicalLines.dfy`, `ApprovalBinding.dfy` | the canonical plan encoding and its verification, and which edits it detects |
| `Coordinator.dfy` | detector order, outcomes, mandatory coverage, verdict |
| `InspectionCache.dfy` | the time-to-live cache |

Code that changes state step by step is a method (with its loop) or a class
(`LimitTracker`, `HashingLimitWriter`, `WalkEnv`, `PipelineOperation`, `Cache`),
proved against a specification function; the theorems are about those functions.
Pipeline transitions take an owned `mut self` and assign its fields; the class
does the same, and runs are sequences of the values it passes through.

Parameters of the model: SHA-256, the classifier, the archive decoders and the
collision key are arbitrary functions; a reader is an arbitrary script of
deliveries; what a detector run delivers is an arbitrary outcome; clock readings
are passed to each call, one per entry for an eviction. `Path::components` is splitting on `/` with empty and `.`
parts dropped, as on Unix. Byte slices are at most `isize::MAX` long, as in Rust.

## Where the code differs from its documentation

The model follows the code.

- Section 2.1.1 of MS-SHLLINK says of ForceNoLinkInfo that a stored LinkInfo is
  ignored. `skip_link_info` is not called when that flag is set, so a stored
  LinkInfo is read as strings. `ShortcutRoundTrip` covers files where LinkInfo is
  stored exactly when the parser expects it; `ArgumentsSurviveExactly` says for which
  flags the arguments come back when it is stored as the standard says.
- `symlink_target_escapes` counts separators of both kinds, in the entry name and in
  the target, while `safe_entry_name` and extraction on Unix split at `/` only. A link
  named `a\x` lies in the root, and its target `..` is let through
  (`SmallNameMiscounts`). `CounterIsUnixResolutionExactly` gives the exact condition on
  the name, `BackslashTargetMiscounts` shows why targets with a backslash are left out
  of it, and `CounterIsResolutionExactlyOnOrdinaryDirectories` is the condition where
  both separators count everywhere.
- The "truncated tar header" error is never reached, since the loop guard already
  excludes a short tail; the extension-header branch sees only `L` and `K`.
- `transition_to(Approved)` does not check what `approve` checks
  (`TransitionSkipsTheApprovalGuardExactly`). The guard on the edge into `Released`
  still does.
- `component_failure` on a completed operation sets the release marker and stays in
  `Completed`, which `validate_invariants` then rejects.
- `verify` is documented to reject any altered plan field. It detects every edit
  exactly when no line inside a text of the file begins like a neighbouring field and
  each of its two lists is one non-empty element without a comma
  (`EveryEditIsDetectedExactly`). No file of the bash profile meets this: its two
  arguments may be merged into one, and its empty grants replaced by a blank one
  (`BashArgumentsCanBeMerged`). For an unambiguous file every other edit is detected
  (`EditedFileVerifiesExactly`).
- A comment in `derive_verdict` cites a table with Low giving a pass; the code gives
  a warning for Low.
- The mandatory table names the archive detector for every tar, but the built-in
  detector supports only the uncompressed one. The classifier never yields a
  compressed tar.
- An `ExtractedFile` is documented to name the path of the extracted file. Each entry
  is written under its path with `.arbitraitor-partial` appended and then renamed, so a
  reported file is replaced by a later entry with the same path, and lost to one whose
  partial path it is: `a.arbitraitor-partial` followed by `a` (`PartialNameIsLost`).
  `AllAreInPlaceExactly` gives the exact condition on the paths, for all contents.
- A comment in `analyze` promises full template-expression coverage for documents of
  any size. One extractor call returns at most MAX_URLS expressions, and repetitions
  count although they are recorded once, so a page with that many copies of one
  template URL hides the next one (`RepetitionsHideWhatFollowsExactly`). `SeenExactly`
  says what is seen, and `WindowedScanIsComplete` when that is everything.
- `evict_expired` is described as removing entries whose age exceeds the
  time-to-live; it also removes those whose age equals it, as `get` treats them.
- `parse_rfc3339_utc` accepts more than the grammar it is named after: a `+` in front
  of a number, any bytes in place of the two colons, any text between the seconds and
  the final `Z`, and day 31 in any month. `AcceptedIsPrintedExactly` says which accepted
  texts have the form of the standard.

## Model

| member | source | states |
|---|---|---|
| TarCodec.TarRoundTrip | crates/arbitraitor-archive/src/lib.rs:949-1015 | for every list of ustar members and anything after the end blocks, scanning the encoded archive gives exactly the names and hazards computed from the members, or the first name or limit failure |
| TarCodec.PlainArchiveRoundTrip | crates/arbitraitor-archive/src/lib.rs:949-1034 | for members with normalised UTF-8 names the scan succeeds if and only if the ordinary members are within the limits, and then lists the encoded paths unchanged and in order |
| TarCodec.MemberHazardsExact | crates/arbitraitor-archive/src/lib.rs:980-1001 | a hazard is reported for member k if and only if it is an `L` or `K` header and a PAX header with a `size=` record precedes it with no ordinary member in between |
| TarCodec.ScanMember | crates/arbitraitor-archive/src/lib.rs:960-1012 | an encoded member read at its offset has its own size, name and content, and the scan resumes exactly at the next encoded member |
| TarCodec.ScanEncoded | crates/arbitraitor-archive/src/lib.rs:956-1015 | the round trip from any position, block index, pending flag and tally |
| TarSizes.ParseOctalExactly | crates/arbitraitor-archive/src/lib.rs:1044-1063 | for every field: of the bytes before the first NUL without the blanks, the leading octal digits are the size; a limit error if they exceed 64 bits, malformed if anything else follows, such as the 0x80 of a base-256 size |
| TarSizes.OctalRoundTrip | crates/arbitraitor-archive/src/lib.rs:1044-1063 | parsing the octal digits of a number continues with that number as the accumulator |
| TarSizes.SizeFieldRoundTrip | crates/arbitraitor-archive/src/lib.rs:1044-1063 | a size field with any number of blanks in front, leading zeros, and blanks or a NUL behind parses to its size |
| TarSizes.UsualSizeFields | crates/arbitraitor-archive/src/lib.rs:1044-1063 | the zero-filled fields of current writers and the blank-padded ones of older writers are such size fields |
| TarSizes.BlankPaddedExample | crates/arbitraitor-archive/src/lib.rs:1044-1063 | the bytes 20 20 31 32 20 00 are ten |
| TarCodec.HeaderNameIsMemberName | crates/arbitraitor-archive/src/lib.rs:1025-1042 | name and prefix fields padded with NULs give back the member's path, validated |
| TarCodec.PaddedSizeFillsBlocks | crates/arbitraitor-archive/src/lib.rs:1065-1076 | the padded size is the least number of whole 512-byte blocks that holds the content, and fails exactly when no such number fits 64 bits |
| TarScan.DecodingKeepsSizeRecords | crates/arbitraitor-archive/src/lib.rs:1078-1083 | a `size=` record is found in the lossily decoded content if and only if it is in the bytes |
| TarPax.PendingExactly | crates/arbitraitor-archive/src/lib.rs:1078-1083 | a PAX header sets a size if and only if one of the lines of its content has `size=` behind its first space |
| TarPax.SizeRecordExactly | crates/arbitraitor-archive/src/lib.rs:1078-1083 | the same for the search in the bytes, which goes from line to line |
| TarCodec.HeaderIsLaidOut | crates/arbitraitor-archive/src/lib.rs:54-58 | a header written field by field in the order of IEEE Std 1003.1-2017 has each field where the scanner reads it |
| TarScan.ConsensusTarMembers | crates/arbitraitor-archive/src/lib.rs:949-1015 | on every byte string of legal length the loop ends and returns what the reference scan of the headers gives, first error first |
| TarScan.ReadHeader | crates/arbitraitor-archive/src/lib.rs:960-1012 | one turn of the loop: the members and hazards added, the flag, the tally and the next offset |
| TarScan.InterpretHeader | crates/arbitraitor-archive/src/lib.rs:970-1001 | the three-way branch on the typeflag with the tracker as the only counter state |
| TarScan.ScanHeader | crates/arbitraitor-archive/src/lib.rs:1003-1011 | the offset grows by at least one block per header |
| TarScan.HeaderIsAnyNonZeroBlock | crates/arbitraitor-archive/src/lib.rs:959-969 | the archive goes on if and only if a whole block is left that has a byte other than zero |
| Limits.LimitTracker.RecordEntry | crates/arbitraitor-archive/src/lib.rs:1564-1574 | counters and outcome after one entry: depth, count, single size, total, ratio, in that order, with the partial updates a failure leaves |
| Limits.LimitTracker.RecordFileMetadata | crates/arbitraitor-archive/src/lib.rs:1597-1608 | the entry is counted if and only if it is not too deep and the count does not overflow; which limit is reported |
| Limits.LimitTracker.AddUnpackedBytes | crates/arbitraitor-archive/src/lib.rs:1619-1632 | fails if and only if the new total exceeds the limit, and stores the sum unless it overflows 64 bits |
| Limits.LimitTracker.RecordSymlink | crates/arbitraitor-archive/src/lib.rs:1581-1595 | fails if and only if the limit was already reached |
| Limits.LimitTracker.constructor | crates/arbitraitor-archive/src/lib.rs:1545-1553 | a tracker starts with no counts |
| Limits.TrackerAcceptsExactly | crates/arbitraitor-archive/src/lib.rs:1564-1656 | a list of entries passes the tracker if and only if every entry is within the per-entry limits and count and total size are within theirs; the final counters |
| Limits.RecordedExactly | crates/arbitraitor-archive/src/lib.rs:1564-1574 | which limit an entry with a path of given parts is refused for, from the numbers alone |
| Limits.DepthCountsParts | crates/arbitraitor-archive/src/lib.rs:1758-1773 | the depth of a path is the number of its parts |
| Limits.DepthSkipsEmptyParts | crates/arbitraitor-archive/src/lib.rs:1758-1773 | empty parts between slashes do not count |
| Limits.RatioIsExact | crates/arbitraitor-archive/src/lib.rs:1634-1656 | the ratio check without a division: nothing from nothing, and less than `ratio + 1` bytes from each compressed byte |
| Limits.NormaliseEntryName | crates/arbitraitor-archive/src/lib.rs:1735-1756 | the component loop returns the normalised relative path or the unsafe-path error |
| Limits.SafeNameIsNormalised | crates/arbitraitor-archive/src/lib.rs:1735-1756 | a validated name validates to itself and has no empty, `.` or `..` part between slashes |
| Limits.SafeNamesExactly | crates/arbitraitor-archive/src/lib.rs:1735-1756 | a path of given parts is refused if and only if it begins with a slash, has a `..` part or no part besides empty ones and `.`; otherwise those are dropped |
| Hazards.DetectArchiveHazards | crates/arbitraitor-archive/src/lib.rs:755-843 | a finding is emitted if and only if what it asserts about the entries is so, for the seven list-dependent kinds; once each, entry by entry and on one entry in the order of the checks |
| Hazards.FindingsAreDetermined | crates/arbitraitor-archive/src/lib.rs:755-843 | what holds of the entries leaves one possible list of findings |
| Hazards.EntryFindings | crates/arbitraitor-archive/src/lib.rs:780-823 | the findings about one entry, both directions and in order, from what the scan remembers |
| Hazards.CompressionRatioExceeded | crates/arbitraitor-archive/src/lib.rs:1364-1372 | the scan's own ratio check is the negation of the tracker's |
| Hazards.LimitCheckersAgree | crates/arbitraitor-archive/src/lib.rs:755-843 | the tracker, which stops at the first failure, accepts a list if and only if the scan, which carries on past 64-bit overflow, emits no limit finding and no entry is too deep |
| Hazards.NoOverflowMeansTrueTotal | crates/arbitraitor-archive/src/lib.rs:810-825 | no size is reported to overflow if the sizes fit 64 bits, and then the running total is the true sum |
| Hazards.CollisionDetectionIsExact | crates/arbitraitor-archive/src/lib.rs:780-808 | there is neither an overwriting nor a collision finding if and only if all keys differ, although only the latest name per key is kept |
| Symlinks.SymlinkTargetEscapes | crates/arbitraitor-archive/src/lib.rs:1446-1467 | true if and only if the target is absolute or a lexical stack walk from the link's directory leaves the root |
| Symlinks.AbsoluteTargetsEscape | crates/arbitraitor-archive/src/lib.rs:1446-1452 | from every link, a slash, two backslashes, and a letter with a colon and a separator escape, whatever follows |
| Symlinks.OtherTargetsAreWalked | crates/arbitraitor-archive/src/lib.rs:1446-1467 | every other target, one with a single leading backslash included, escapes if and only if the walk leaves the root |
| Symlinks.EscapesExactlyWhenAPrefixClimbsOut | crates/arbitraitor-archive/src/lib.rs:1455-1466 | the walk leaves the root if and only if some prefix of the target climbs higher than the directory is deep; otherwise the final depth |
| Symlinks.CounterIsUnixResolutionExactly | crates/arbitraitor-archive/src/lib.rs:1446-1467 | for every validated name: on Unix, where only `/` separates, the function is right about every relative target without a backslash if and only if the name has no backslash |
| Symlinks.CounterIsResolutionExactlyOnOrdinaryDirectories | crates/arbitraitor-archive/src/lib.rs:1454-1466 | where both separators count in the name too: the function agrees with walking directory and target from the root, for every relative target, if and only if the directory has no empty, `.` or `..` part |
| Symlinks.BackslashNameMiscounts | crates/arbitraitor-archive/src/lib.rs:1446-1467 | for every validated name with a backslash, the target bytes that climb one step above the root and that the function lets through |
| Symlinks.SmallNameMiscounts | crates/arbitraitor-archive/src/lib.rs:1446-1467 | the function lets the target `..` through for the validated name `a\x`, a link in the root |
| Symlinks.BackslashTargetMiscounts | crates/arbitraitor-archive/src/lib.rs:1446-1467 | for every validated name, a target with a backslash that leaves the root on Unix and is let through |
| StreamCopy.CopyWithLimits | crates/arbitraitor-archive/src/lib.rs:1659-1709 | the sink receives exactly the first k deliveries, all within the limits, the tracker stays within its limit, and the result says why the copy stopped there |
| StreamCopy.AccountChunk | crates/arbitraitor-archive/src/lib.rs:1675-1704 | the first limit broken by one more chunk; the two totals are equal, so the second total check never fails |
| StreamCopy.CopyMeaning | crates/arbitraitor-archive/src/lib.rs:1659-1709 | `Ok` if and only if the reader does not fail and the whole stream is within the limits, and then all of it was copied; every earlier state of the sink is a prefix within the limits |
| StreamCopy.ViolationIsMonotone | crates/arbitraitor-archive/src/lib.rs:1610-1656 | what is within the limits stays within them when cut short |
| StreamCopy.ViolationIsExact | crates/arbitraitor-archive/src/lib.rs:1610-1656 | which limit is reported, and when none is, from the numbers alone |
| Extraction.ExtractToDirectory | crates/arbitraitor-archive/src/lib.rs:314-359 | how it ends, what it writes and what it counts are those of the reference, whatever the readers deliver: the files together never exceed the total, no file its limit, at most `max_files` are created; on success every file entry is reported with its own size and digest, and the sizes sum to the tracker's total; the destination holds all files placed one after the other, or on an error those before the entry that failed, whose partial file is removed |
| ExtractionSuccess.ExtractionSucceedsExactly | crates/arbitraitor-archive/src/lib.rs:314-359 | with readers that stop at a failed write, it succeeds if and only if the listing holds directories and plain files within the limits, every file has a safe name and is delivered without error within its limits, and all together are within the total; the files then hold what was delivered |
| ExtractionSuccess.EntryGoesThroughExactly | crates/arbitraitor-archive/src/lib.rs:333-356 | the same for one entry, with the counters afterwards |
| Deliveries.WritesGoThroughExactly | crates/arbitraitor-archive/src/lib.rs:448-471 | a delivery goes through if and only if the whole of it is within the size, the total and the ratio, and then the file is all that was written |
| Deliveries.WrittenWithinLimits | crates/arbitraitor-archive/src/lib.rs:448-471 | whatever is written and whether or not failures are ignored, the file stays within the limits and the total covers it |
| Extraction.MetadataIsAcceptedExactly | crates/arbitraitor-archive/src/lib.rs:321-329 | the metadata pass goes through if and only if every entry is a directory or a plain file within its limits, and the count, the total and the links are within theirs |
| Extraction.ExtractFiles | crates/arbitraitor-archive/src/lib.rs:331-358 | the extraction pass with the same bounds and the destination, also when it stops half-way |
| Extraction.ExtractNext | crates/arbitraitor-archive/src/lib.rs:333-356 | one turn keeps the written files within the bounds, and reports the entry when it succeeds |
| Extraction.ExtractEntry | crates/arbitraitor-archive/src/lib.rs:332-356 | one turn of the loop, directories skipped, keeps the pass on its way or says where it stopped |
| Extraction.ExtractOne | crates/arbitraitor-archive/src/lib.rs:334-356 | what one entry creates, counts and reports, and the destination afterwards: the file in place of whatever was there, or the partial file removed |
| Extraction.ReportIsTrueExactly | crates/arbitraitor-archive/src/lib.rs:255-266 | a reported path holds a file of the reported size and digest if and only if no later entry replaces it with other bytes or removes it |
| Extraction.ReportsAreTrue | crates/arbitraitor-archive/src/lib.rs:255-266 | every report is true of the destination when no path is repeated and none is the partial path of a later one |
| Placement.FileIsInPlaceExactly | crates/arbitraitor-archive/src/lib.rs:340-354 | after the pass a path holds its own bytes if and only if the last entry that writes or clears it puts the same bytes there |
| Placement.AllAreInPlaceExactly | crates/arbitraitor-archive/src/lib.rs:340-354 | whatever the contents, all files are in place afterwards if and only if no path is repeated and none is the partial path of a later one |
| Placement.LastTouchDecides | crates/arbitraitor-archive/src/lib.rs:340-354 | the last file that touches a path decides what is there |
| Placement.UntouchedStays | crates/arbitraitor-archive/src/lib.rs:340-354 | what no file touches stays as it was |
| Placement.PartialNameIsLost | crates/arbitraitor-archive/src/lib.rs:340-354 | a file named like the partial file of the next one is gone, although both are reported |
| Placement.PartialPathAppends | crates/arbitraitor-archive/src/lib.rs:401-413 | replacing the extension by a longer one appends the same suffix to every path |
| Extraction.Deliver | crates/arbitraitor-archive/src/lib.rs:341-353 | a reader writing any buffers: the file, the total and the error are those of the reference, the file stays within the limits and the total covers it |
| Extraction.CheckMetadata | crates/arbitraitor-archive/src/lib.rs:321-329 | the loop gives the first error of the reference: limits, symlink count, then type, entry by entry |
| Extraction.HashingLimitWriter.Write | crates/arbitraitor-archive/src/lib.rs:448-471 | all of the buffer reaches file and hash or none of it, and exactly when the three limits allow it |
| Extraction.HashingLimitWriter.constructor | crates/arbitraitor-archive/src/lib.rs:424-436 | an empty file, nothing hashed |
| Extraction.ReportedSizesAddUp | crates/arbitraitor-archive/src/lib.rs:438-446 | reported sizes add up to the bytes written |
| PayloadWalk.WalkEnv.WalkNode | crates/arbitraitor-archive/src/payload.rs:253-329 | the ancestor stack is as long as the node is deep and is left as found; exactly the outcome of the recursive specification is appended to both logs; terminates for every archive content |
| PayloadWalk.WalkEnv.Expand | crates/arbitraitor-archive/src/payload.rs:331-443 | listing errors become one issue, otherwise the loop over the entries |
| PayloadWalk.WalkEnv.ExpandEntries | crates/arbitraitor-archive/src/payload.rs:363-442 | the loop appends the joined outcomes of its entries and stops at the byte budget |
| PayloadWalk.WalkEnv.ExpandEntry | crates/arbitraitor-archive/src/payload.rs:365-440 | one entry: skipped, failed, over budget, or walked as a child |
| PayloadCompleteness.ExpansionIsComplete | crates/arbitraitor-archive/src/payload.rs:363-442 | every listed entry up to the first that passes the byte budget leaves its outcome, in order, and nothing else does: a plain file is walked, a failed extraction is one issue, any other entry leaves nothing |
| PayloadCompleteness.ExpandedNodeIsComplete | crates/arbitraitor-archive/src/payload.rs:331-443 | a refused listing is one issue; otherwise the children of an expanded node are the payloads of the plain files, in order, with digest, kind, size and name of what was extracted |
| PayloadCompleteness.PartsHaveTheChildren | crates/arbitraitor-archive/src/payload.rs:363-442 | one child per plain file that can be extracted, none for any other entry |
| PayloadCompleteness.WalkStopsExactly | crates/arbitraitor-archive/src/payload.rs:253-329 | unexpanded stay a digest met on the way down, every kind but the six archives, and what is too deep; each with its status and issue |
| PayloadCompleteness.ListingIsAcceptedExactly | crates/arbitraitor-archive/src/payload.rs:338-361 | a listing is accepted if and only if the decoder gives it and its metadata is within the limits |
| PayloadWalk.WalkPayloads | crates/arbitraitor-archive/src/payload.rs:213-240 | the root walk starts and ends with an empty stack |
| PayloadWalk.DiscoverPayloads | crates/arbitraitor-archive/src/payload.rs:165-199 | succeeds if and only if no issue other than depth truncation was observed, and otherwise returns the first such issue |
| PayloadTheorems.RootWalkAgrees | crates/arbitraitor-archive/src/payload.rs:213-329 | the visitor is called once per node of the tree, in pre-order, with bytes of that node's digest and length; cycle and truncation issues are exactly those of the tree |
| PayloadTheorems.WalkAgrees | crates/arbitraitor-archive/src/payload.rs:253-329 | the same for a walk under any ancestor stack |
| PayloadTheorems.NoRepeatedExpansion | crates/arbitraitor-archive/src/payload.rs:264-285 | a node that contains others has a digest none of its ancestors has, and lies above the depth limit |
| PayloadTheorems.WholeTreeIsBounded | crates/arbitraitor-archive/src/payload.rs:287-442 | height, node count and total bytes of the tree are within the geometric sums of `max_files`, `max_total_unpacked_bytes` and the depth limit |
| PayloadTheorems.ExpandWithin | crates/arbitraitor-archive/src/payload.rs:351-442 | one archive yields at most `max_files` children with at most `max_total_unpacked_bytes` in all, and its subtrees are within the bounds of the levels left |
| PayloadTheorems.RunKeeps | crates/arbitraitor-archive/src/payload.rs:363-442 | a property of single entries that survives joining holds of the whole loop |
| Pipeline.ReleaseIsSafe | crates/arbitraitor-core/src/lib.rs:594-701 | over every run from a new or deserialised operation, a released or completed operation carries `Pass`, `Warn` or `Prompt`, and a released one has both markers clear |
| Pipeline.VerdictReleasesExactly | crates/arbitraitor-core/src/lib.rs:450-534 | a verdict recorded on an unmarked operation leads to release by `approve` and `release` if and only if it is `Pass`, `Warn` or `Prompt`; otherwise both markers are set and the plan stays unapproved |
| Pipeline.FullReleaseCompletesExactly | crates/arbitraitor-core/src/lib.rs:436-568 | the public calls made in turn on a new operation complete it if and only if the verdict is one of the three |
| Pipeline.CanAlwaysBeStopped | crates/arbitraitor-core/src/lib.rs:572-592 | `block`, `fail` and `cancel` work on every operation that is not at an end and bar its release |
| Pipeline.FailureBarsRelease | crates/arbitraitor-core/src/lib.rs:538-556 | a reported failure bars the release and fails the operation unless it comes from before the retrieval or after the release |
| Pipeline.RefusalReportsItsStage | crates/arbitraitor-core/src/lib.rs:594-660 | a refused transition reports the stage of the operation, and whether a release is barred there |
| Pipeline.RefusalKinds | crates/arbitraitor-core/src/lib.rs:594-711 | why a transition is refused, kind by kind |
| Pipeline.ProhibitionIsFinal | crates/arbitraitor-core/src/lib.rs:436-556 | once a marker is set it stays set and the run never enters `Released` or `Completed` |
| Pipeline.ReleasedOnlyThroughTheChain | crates/arbitraitor-core/src/lib.rs:594-660 | a run from a new operation reaches `Released` only through the nine states before it, in order |
| Pipeline.AtMostTenChanges | crates/arbitraitor-core/src/lib.rs:594-660 | every run of any length changes state at most ten times |
| Pipeline.PathIsShort | crates/arbitraitor-core/src/lib.rs:594-660 | ranks strictly climb along the path of a run |
| Pipeline.RunKeepsInvariantsExactly | crates/arbitraitor-core/src/lib.rs:662-694 | from a consistent operation, a run of any calls ends in one that satisfies `validate_invariants` if and only if none of its calls reports a failure on an operation already completed |
| Pipeline.CallKeepsInvariantsExactly | crates/arbitraitor-core/src/lib.rs:538-556 | a call keeps the invariants if and only if it does not report a prohibiting failure on a completed operation |
| Pipeline.CallIsSafe | crates/arbitraitor-core/src/lib.rs:436-592 | both markers are monotone, release and completion pass their guards, terminal states are left by nothing |
| Pipeline.CallClimbs | crates/arbitraitor-core/src/lib.rs:611-622 | every state change climbs, by exactly one unless into a prohibiting state |
| Pipeline.DeserializeExact | crates/arbitraitor-core/src/lib.rs:326-348 | an operation is read back unchanged if and only if it satisfies the invariants |
| Pipeline.DeserializeAcceptsExactly | crates/arbitraitor-core/src/lib.rs:326-348 | the accepted wire values state by state, and the blocking marker that is restored from the verdict |
| Pipeline.TransitionSkipsTheApprovalGuardExactly | crates/arbitraitor-core/src/lib.rs:436-506 | `transition_to(Approved)` lets through what `approve` refuses if and only if the operation awaits approval without a verdict or with a blocking one; the edge into `Released` still refuses it |
| Pipeline.PipelineOperation.constructor | crates/arbitraitor-core/src/lib.rs:353-364 | the new operation |
| Pipeline.PipelineOperation.FromWire | crates/arbitraitor-core/src/lib.rs:326-348 | a consistent wire value with the blocking marker restored |
| Pipeline.PipelineOperation.MoveTo | crates/arbitraitor-core/src/lib.rs:436-443 | fields after `transition_to`, unchanged with the right error when it is refused |
| Pipeline.PipelineOperation.Record | crates/arbitraitor-core/src/lib.rs:450-476 | fields after `record_verdict`, unchanged with the right error when it is refused |
| Pipeline.PipelineOperation.ApprovePlan | crates/arbitraitor-core/src/lib.rs:483-501 | fields after `approve`, unchanged with the right error when it is refused |
| Pipeline.PipelineOperation.ReleaseExactBytes | crates/arbitraitor-core/src/lib.rs:508-534 | fields after `release`, unchanged with the right error when it is refused |
| Pipeline.PipelineOperation.ReportFailure | crates/arbitraitor-core/src/lib.rs:538-556 | fields after `component_failure` |
| UrlWindows.WindowedScanIsComplete | crates/arbitraitor-analysis/src/url_discovery.rs:499-533 | for a source of any length, unless a cap was hit, every template URL a scan of the whole source finds is seen with the same truncated token and template |
| UrlSaturation.SeenExactly | crates/arbitraitor-analysis/src/url_discovery.rs:499-533 | below MAX_URLS recorded pairs, a pair is seen if and only if the extractor call of some window reports it |
| UrlSaturation.RepetitionsHideWhatFollowsExactly | crates/arbitraitor-analysis/src/url_discovery.rs:493-533 | on a page of `n` copies of one template URL before another, the other one is seen if and only if `n` is below MAX_URLS; beyond that it is lost with only one pair recorded |
| UrlSaturation.PageExpressions | crates/arbitraitor-analysis/src/url_discovery.rs:259-284 | a scan of such a page without a cap finds the copies and the other one |
| UrlWindows.WindowedScanIsSound | crates/arbitraitor-analysis/src/url_discovery.rs:499-533 | every recorded pair is a prefix of a token at a real scheme offset with its first template; no pair twice; at most MAX_URLS |
| UrlWindows.WindowsOverlap | crates/arbitraitor-analysis/src/url_discovery.rs:503-553 | a window is at most MAX_SOURCE_SIZE bytes, the next starts later, and boundary shifts cost the overlap at most six bytes |
| UrlWindows.AsciiWindows | crates/arbitraitor-analysis/src/url_discovery.rs:503-553 | in ASCII text every window but the last is one mebibyte and the next starts 4 KiB before its end |
| UrlWindows.SameTokenInPrefix | crates/arbitraitor-analysis/src/url_discovery.rs:376-393 | with more than MAX_URL_LENGTH bytes left, a prefix that ends on a boundary yields the same truncated token |
| UrlWindows.SameExpressionInWindow | crates/arbitraitor-analysis/src/url_discovery.rs:259-284 | a scheme far enough from the end of a window yields the same expression there as in the whole source |
| UrlWindows.TokenInWindowIsReal | crates/arbitraitor-analysis/src/url_discovery.rs:376-381 | a token in a window is a prefix of the token in the whole source |
| UrlWindows.Analyze | crates/arbitraitor-analysis/src/url_discovery.rs:476-535 | the detector's findings are those of the pairs the reference window scan sees, with the severity of the source kind; the UTF-8 error |
| UrlWindows.ScanWindow | crates/arbitraitor-analysis/src/url_discovery.rs:503-532 | one turn of the window loop advances and preserves what the remaining windows will see |
| UrlWindows.FindWindowEnd | crates/arbitraitor-analysis/src/url_discovery.rs:504-511 | the window end is the last boundary within the size limit |
| UrlWindows.NextWindowStart | crates/arbitraitor-analysis/src/url_discovery.rs:538-544 | the first boundary at or after the candidate |
| UrlWindows.RecordWindow | crates/arbitraitor-analysis/src/url_discovery.rs:520-530 | pairs not seen before are recorded in order until the cap, one finding each |
| UrlWindows.RecordHolds | crates/arbitraitor-analysis/src/url_discovery.rs:520-530 | below the cap exactly the seen and found pairs are recorded |
| UrlScan.DetectDynamicUrlExpressions | crates/arbitraitor-analysis/src/url_discovery.rs:259-284 | the search loop returns the first MAX_URLS of all expressions at scheme offsets, in offset order, and nothing for an oversize source |
| UrlScan.ExpressionsExact | crates/arbitraitor-analysis/src/url_discovery.rs:259-284 | the uncapped list holds an expression if and only if it is the one found at some scheme offset |
| UrlScan.FindNextSchemeIsLeast | crates/arbitraitor-analysis/src/url_discovery.rs:367-373 | the result is the least offset at or after the start where a scheme begins, or there is none |
| UrlScan.ExtractUrlToken | crates/arbitraitor-analysis/src/url_discovery.rs:376-381 | a bounded prefix of the text up to the first delimiter |
| UrlScan.TruncateUrl | crates/arbitraitor-analysis/src/url_discovery.rs:384-393 | the longest prefix of at most MAX_URL_LENGTH bytes that ends on a character boundary |
| UrlScan.TokenEndIsFirstDelimiter | crates/arbitraitor-analysis/src/url_discovery.rs:376-413 | the token ends at the first delimiter character or at the end |
| UrlCharacters.TokenIsByCharacter | crates/arbitraitor-analysis/src/url_discovery.rs:376-413 | a token is the text up to its first delimiter, character by character, for every text |
| UrlCharacters.DelimiterIsByCharacter | crates/arbitraitor-analysis/src/url_discovery.rs:411-413 | the bytes of a character begin a delimiter if and only if it has the White_Space property or is a quote, a backtick, an angle bracket or a bar |
| UrlCharacters.SchemesAreTexts | crates/arbitraitor-analysis/src/url_discovery.rs:367-373 | a scheme starts where `https://`, `http://` or `ftp://` stands and nowhere else |
| UrlCharacters.TemplatesAreFound | crates/arbitraitor-analysis/src/url_discovery.rs:416-424 | a token with one pair of marks has the template from the opening to the closing mark, for each of the three kinds |
| UrlCharacters.NoTemplateWithoutMarks | crates/arbitraitor-analysis/src/url_discovery.rs:416-424 | a token without marks has no template |
| UrlScan.PairIsExact | crates/arbitraitor-analysis/src/url_discovery.rs:416-424 | a template runs from the first opener to the first closer after it, and in well-formed text is found whenever there is one |
| UrlScan.TemplateIsAPair | crates/arbitraitor-analysis/src/url_discovery.rs:416-424 | whatever is returned for a pair of markers is such a template |
| UrlScan.FirstMarksWin | crates/arbitraitor-analysis/src/url_discovery.rs:416-424 | an earlier pair of markers wins over a later one wherever their templates are, and without any match there is no template |
| UrlScan.FoundIsReal | crates/arbitraitor-analysis/src/url_discovery.rs:267-282 | a found expression begins the token at its scheme and carries its first template |
| UrlScan.SchemeThenBoundary | crates/arbitraitor-analysis/src/url_discovery.rs:269-281 | the byte after the start of a scheme is a character boundary, so the search never loses its place |
| ShortcutCodec.ShortcutRoundTrip | crates/arbitraitor-artifact/src/lnk.rs:164-198 | for every choice of flags, ID list, LinkInfo and string payloads encoded per sections 2.1 to 2.4 of MS-SHLLINK, the decoded arguments payload is returned if its flag is set and nothing otherwise |
| ShortcutCodec.ArgumentTextRoundTrip | crates/arbitraitor-artifact/src/lnk.rs:193-197 | arguments stored as a text come back as that text, in either encoding |
| ShortcutForced.ArgumentsSurviveExactly | crates/arbitraitor-artifact/src/lnk.rs:183-197 | with LinkInfo stored whenever HasLinkInfo is set, the stored arguments come back from every file with given flags if and only if ForceNoLinkInfo does not clash, or no string is stored, or a single one that is neither Unicode nor the arguments |
| ShortcutForced.SafeFlagsKeepArguments | crates/arbitraitor-artifact/src/lnk.rs:183-197 | for safe flags the result is the stored arguments, whatever the file holds |
| ShortcutForced.UnicodeFails | crates/arbitraitor-artifact/src/lnk.rs:386-416 | a file with a LinkInfo of 40000 bytes is rejected for clashing flags and Unicode strings |
| ShortcutForced.FirstArgumentsFail | crates/arbitraitor-artifact/src/lnk.rs:326-357 | for clashing flags where the arguments come first, empty arguments come back as bytes of the LinkInfo |
| ShortcutForced.SecondStringFails | crates/arbitraitor-artifact/src/lnk.rs:326-357 | for clashing flags and another string first, the bytes behind its count are taken for the count of the second |
| ShortcutCodec.SkipsSections | crates/arbitraitor-artifact/src/lnk.rs:183-191 | the cursor after the optional sections is where the encoded strings begin |
| ShortcutCodec.ReadsPieces | crates/arbitraitor-artifact/src/lnk.rs:326-357 | the loop over the string flags returns the text of the target and skips the others |
| ShortcutCodec.PayloadRoundTrip | crates/arbitraitor-artifact/src/lnk.rs:420-439 | whichever way a string was stored, decoding gives its text back |
| ShortcutCodec.Utf16RoundTrip | crates/arbitraitor-artifact/src/lnk.rs:431-439 | encoding to UTF-16 and lossy decoding gives the text back, surrogate pairs included |
| Shortcut.ParseArguments | crates/arbitraitor-artifact/src/lnk.rs:164-198 | on every input the parser returns the reference result, and all its reads are inside the data |
| Shortcut.ReadStringData | crates/arbitraitor-artifact/src/lnk.rs:326-357 | the loop with its advancing cursor computes the reference result and keeps the cursor inside the data |
| Shortcut.SkipIdList | crates/arbitraitor-artifact/src/lnk.rs:233-272 | an error or a cursor inside the data, past the size field |
| Shortcut.SkipLinkInfo | crates/arbitraitor-artifact/src/lnk.rs:275-318 | an error or a cursor inside the data |
| Shortcut.CountedString | crates/arbitraitor-artifact/src/lnk.rs:365-427 | an error or a cursor inside the data, past the count field |
| Shortcut.SkipSections | crates/arbitraitor-artifact/src/lnk.rs:183-191 | an error or a cursor between the header and the end of the data |
| ShortcutFlags.FlagsAreTheStandards | crates/arbitraitor-artifact/src/lnk.rs:27-53 | the nine flags are the binary digits of section 2.1.1 of MS-SHLLINK |
| ShortcutFlags.ReadsArgumentsOnly | crates/arbitraitor-artifact/src/lnk.rs:164-198 | a shortcut of which only UTF-16 arguments are stored, byte for byte, gives them back |
| ShortcutFlags.SectionsAreLimited | crates/arbitraitor-artifact/src/lnk.rs:233-427 | sections and strings are accepted if and only if they are inside the data and at most 64 KiB |
| ShortcutFlags.OverflowsAreReal | crates/arbitraitor-artifact/src/lnk.rs:233-427 | an overflow error names its section, and what it declares exceeds what is there or the 64 KiB |
| ShortcutFlags.DecodingIsExactlyLossless | crates/arbitraitor-artifact/src/lnk.rs:431-440 | UTF-16 decoding loses nothing if and only if no surrogate is unpaired |
| Calendar.FormulaCountsDays | crates/arbitraitor-av/src/lib.rs:413-425 | for every date from 1970 on, without upper limit, the closed era formula is the recursive count of days since 1970-01-01 on the proleptic Gregorian calendar |
| Calendar.FormulaAddsOnePerDay | crates/arbitraitor-av/src/lib.rs:413-425 | the next calendar day is one more |
| Calendar.FormulaInvertsTheCalendar | crates/arbitraitor-av/src/lib.rs:413-425 | the date reached by n steps of the calendar from the epoch is day n |
| Calendar.FormulaOrdersDates | crates/arbitraitor-av/src/lib.rs:413-425 | of any two dates the formula gives the smaller number exactly to the earlier one, and one number only to one date |
| Calendar.FormulaIsStrictlyIncreasing | crates/arbitraitor-av/src/lib.rs:413-425 | later dates have larger day numbers |
| Timestamps.PrintedTimestampParses | crates/arbitraitor-av/src/lib.rs:361-404 | every UTC date-time from 1970 to 9999 printed as in section 5.6 of RFC 3339, with `T` or a space and any fraction, parses to its day count times 86400 plus its seconds of the day |
| Timestamps.AcceptedIsPrintedExactly | crates/arbitraitor-av/src/lib.rs:361-404 | an accepted text is such a printed form if and only if its fields are plain digits, the colons are there, the rest is nothing or a fraction, and the day exists |
| Timestamps.AcceptedFields | crates/arbitraitor-av/src/lib.rs:361-404 | every accepted text parses to the seconds of the fields read from it, a day past the end of the month counting on |
| Timestamps.LooseTimestampParses | crates/arbitraitor-av/src/lib.rs:384-402 | dates that do not exist, up to the 31st, are accepted, whatever stands where the fraction goes |
| Timestamps.ColonsAreIgnored | crates/arbitraitor-av/src/lib.rs:376-382 | the two bytes between hour, minute and second are never read |
| Timestamps.PrintedMarks | crates/arbitraitor-av/src/lib.rs:361-382 | and the marks between them are the characters of the standard's form |
| Timestamps.PrintedFields | crates/arbitraitor-av/src/lib.rs:361-382 | the printed fields are where the parser slices them |
| Timestamps.NumbersAreReadExactly | crates/arbitraitor-av/src/lib.rs:361-382 | a field is read if and only if it is digits, or a plus sign and digits |
| Clamd.InstreamRoundTrip | crates/arbitraitor-av/src/lib.rs:745-775 | what is written is read back whole by the reader of the test double, and nothing after it is consumed |
| Clamd.FramesRoundTrip | crates/arbitraitor-av/src/lib.rs:234-247 | no chunk is mistaken for the end of the stream, for data of any length |
| Clamd.WriteChunks | crates/arbitraitor-av/src/lib.rs:234-244 | the loop writes each chunk with its big-endian length in front, in order |
| Clamd.WriteInstream | crates/arbitraitor-av/src/lib.rs:230-248 | the stream receives the command, the length-prefixed chunks and the zero-length end |
| Clamd.CommandIsText | crates/arbitraitor-av/src/lib.rs:24-30 | the command is `zINSTREAM` and a NUL, and chunks are at most one mebibyte |
| Clamd.Big32RoundTrip | crates/arbitraitor-av/src/lib.rs:235-243 | big-endian lengths read back |
| ApprovalBinding.EveryEditIsDetectedExactly | crates/arbitraitor-cli/src/approval.rs:175-187 | with a collision-free digest, `verify` detects every edit of a bound field of a valid approval if and only if no line inside a text imitates a neighbouring field and each list is one non-empty element without a comma |
| ApprovalBinding.EditedFileVerifiesExactly | crates/arbitraitor-cli/src/approval.rs:175-187 | any edited copy of a valid unambiguous approval verifies if and only if the schema is current, it has not expired, and every bound field is unchanged up to how the lists are cut at commas |
| ApprovalBinding.BufferBindsFieldsExactly | crates/arbitraitor-cli/src/approval.rs:114-166 | the buffer determines all fifteen bound fields under exactly that condition |
| ApprovalBinding.BufferBindsTextsExactly | crates/arbitraitor-cli/src/approval.rs:114-166 | the buffer determines the scalar fields and the atoms of the lists if and only if the file is unambiguous |
| CanonicalLines.TextsAreDeterminedExactly | crates/arbitraitor-cli/src/approval.rs:118-162 | labelled lines determine their texts if and only if no line inside a text begins like its own field or the next one |
| Grouping.UniqueExactly | crates/arbitraitor-cli/src/approval.rs:118-162 | a sequence has only one cut into marked groups if and only if no group could begin elsewhere inside itself or the group before it |
| ApprovalBinding.OneLinersAreUnambiguous | crates/arbitraitor-cli/src/approval.rs:114-166 | a file whose texts hold no line feed is unambiguous |
| ApprovalBinding.ExpiryIsBound | crates/arbitraitor-cli/src/approval.rs:162-162 | whatever the files hold, equal buffers have the same expiry |
| ApprovalBinding.JoinsAlikeExactly | crates/arbitraitor-cli/src/approval.rs:122-145 | lists encode alike if and only if they have the same comma-separated atoms |
| ApprovalBinding.OnlyListExactly | crates/arbitraitor-cli/src/approval.rs:122-145 | a list is the only one with its encoding if and only if it is one non-empty element without a comma |
| ApprovalBinding.MergedListsVerifyAlike | crates/arbitraitor-cli/src/approval.rs:175-187 | merging each list into one element is never detected |
| ApprovalBinding.BashArgumentsCanBeMerged | crates/arbitraitor-cli/src/approval.rs:205-232 | so a file of the bash profile and its copy with merged arguments and a blank grant get the same result from `verify` |
| ApprovalBinding.FilesThatEncodeAlike | crates/arbitraitor-cli/src/approval.rs:118-119 | a family of ambiguous files: two that differ in two bound fields and encode alike |
| ApprovalBinding.DecimalIsInjective | crates/arbitraitor-cli/src/approval.rs:162-162 | different expiry times print differently |
| ApprovalBinding.DecimalIsRead | crates/arbitraitor-cli/src/approval.rs:162 | a number is printed by its own digits without leading zeros |
| Approval.ComputePlanDigest | crates/arbitraitor-cli/src/approval.rs:114-166 | the lines appended one by one make up the canonical buffer that is hashed |
| ApprovalFormat.BufferIsTheLines | crates/arbitraitor-cli/src/approval.rs:114-166 | the hashed buffer written out: fifteen labelled lines in their order |
| Approval.Verify | crates/arbitraitor-cli/src/approval.rs:175-187 | the chain of checks, first error first |
| Approval.ForBashExecution | crates/arbitraitor-cli/src/approval.rs:194-232 | every field of the file: the fixed execution profile and the given inputs; it verifies at every time before it expires, and an empty approver is refused |
| Coordinator.VerdictIsExact | crates/arbitraitor-analysis/src/lib.rs:676-713 | the verdict as a function of what is registered and what it delivered: incomplete, blocked by coverage or severity, prompt, warn or pass |
| Coordinator.ReleaseNeedsEveryMandatoryDetector | crates/arbitraitor-analysis/src/mandatory.rs:78-99 | unless the verdict is `Block` or `Incomplete`, every mandatory detector of the kind is registered, supports the kind and delivered |
| Coordinator.ReleaseNeedsNamedDetector | crates/arbitraitor-analysis/src/mandatory.rs:50-99 | kind by kind with the ids written out: a verdict other than `Block` or `Incomplete` means that the detector of the kind is registered, supports it and delivered |
| Coordinator.NothingRegistered | crates/arbitraitor-analysis/src/mandatory.rs:50-120 | with nothing registered the kinds of the table get `Block` with one critical finding, and all others `Pass` |
| Coordinator.ResultsAreExactlyTheSupporting | crates/arbitraitor-analysis/src/lib.rs:574-647 | every detector that supports the kind leaves one kind of result, with its id, what happened and how many findings it has |
| Coordinator.BuiltInsRunExactly | crates/arbitraitor-analysis/src/lib.rs:294-302 | which built-in detectors run, by kind |
| Coordinator.PassExactly | crates/arbitraitor-analysis/src/lib.rs:676-713 | `Pass` if and only if every status is `Ok` and every finding is informational |
| Coordinator.FindingsAreExactlyTheDelivered | crates/arbitraitor-analysis/src/lib.rs:574-647 | a detector finding is reported if and only if a supporting detector delivered it, now with the digest of this artifact; failures, panics and time-outs of others lose nothing |
| Coordinator.DigestIsOfThisArtifact | crates/arbitraitor-analysis/src/lib.rs:922-933 | every finding, coverage included, carries the artifact's digest |
| Coordinator.AnalysisIgnoresRegistrationOrder | crates/arbitraitor-analysis/src/lib.rs:306-314 | with distinct ids, every permutation of the registration gives the same findings, results and verdict |
| Coordinator.OrderDependsOnlyOnEqualIds | crates/arbitraitor-analysis/src/lib.rs:306-314 | two registrations run in the same order if and only if they agree on the order among equal ids |
| Coordinator.RegistrationSortsStably | crates/arbitraitor-analysis/src/lib.rs:306-314 | registration gives a sorted permutation that keeps the order among equal ids |
| Coordinator.StableSortIsUnique | crates/arbitraitor-analysis/src/lib.rs:306-314 | a sorted sequence is determined by its sub-sequences of equal id, so any stable sort gives the same |
| Coordinator.VerdictIgnoresOrder | crates/arbitraitor-analysis/src/lib.rs:676-713 | the verdict depends on the set of detectors only |
| Coordinator.DefaultsCoverExactly | crates/arbitraitor-analysis/src/mandatory.rs:50-69 | the built-in detectors cover every artifact kind but the compressed tars |
| Coordinator.AnalyzeWithRetrieval | crates/arbitraitor-analysis/src/lib.rs:344-413 | findings, results and verdict of one analysis |
| Coordinator.RunAll | crates/arbitraitor-analysis/src/lib.rs:361-380 | the detector loop extends findings and results in detector order, skipping detectors that do not support the kind |
| Coordinator.CoverageIsCompleteExactly | crates/arbitraitor-analysis/src/mandatory.rs:78-99 | no coverage finding if and only if every mandatory id belongs to a registered detector that supports the kind |
| InspectionCache.Cache.Get | crates/arbitraitor-daemon/src/cache.rs:46-54 | the latest value put for the url if less than the time-to-live has passed since, else nothing, whatever was evicted |
| InspectionCache.Cache.Put | crates/arbitraitor-daemon/src/cache.rs:58-67 | the entry is overwritten and the history extended |
| InspectionCache.Cache.EvictExpired | crates/arbitraitor-daemon/src/cache.rs:70-73 | exactly the entries younger than the time-to-live at the clock reading taken for them stay, unchanged |
| InspectionCache.Cache.constructor | crates/arbitraitor-daemon/src/cache.rs:35-40 | an empty cache |
| InspectionCache.CacheIsATimedMap | crates/arbitraitor-daemon/src/cache.rs:46-73 | after every run under a clock that does not go backwards a lookup is that of a map that never forgets |
| InspectionCache.EvictionIsUnobservable | crates/arbitraitor-daemon/src/cache.rs:70-73 | two runs that differ only in evictions have the same results of all gets |
| InspectionCache.BackwardClockShowsEviction | crates/arbitraitor-daemon/src/cache.rs:70-73 | why the clock must not go backwards |
| Utf8.LossyIsIdentityExactlyOnValid | crates/arbitraitor-archive/src/lib.rs:1036-1042 | lossy decoding keeps a byte string if and only if it is well-formed UTF-8 |
| Utf8.EncodedScalarIsRead | crates/arbitraitor-analysis/src/url_discovery.rs:376-413 | the bytes of a character give its scalar value back |
| Utf8.BoundaryWithinThree | crates/arbitraitor-analysis/src/url_discovery.rs:538-544 | in well-formed UTF-8 there is a character boundary within three bytes of any position |

## Left out

- The clock: `check_time` and `max_processing_time` are taken not to trip; detector time-outs are an outcome.
- The zip, tar, gzip, xz, bzip2 and zstd decoders, SHA-256, `classify` and serde: libraries, taken as functions. A decoder's own failures, including the symlink limit and the tar consensus check inside `entries`, are among the errors it may return.
- Hazard tags that depend on one entry alone (absolute and Windows paths, traversal, setuid bits, reserved names, device files, nested archives, hidden extensions, encryption): single-branch facts.
- The folding of case and diacritics in the collision key: the theorems hold for every key function.
- Directories, permissions and failing file-system calls during extraction, and the removal of a failed inspection directory: the destination is a map from relative paths, compared byte by byte, to bytes. A file where a directory is needed is such a failure.
- The 16 KiB buffer of the copy loop: a delivery may have any size.
- Identifiers, findings and the attached plan of a pipeline operation, and the retryability of a failure: no transition reads them.
- Titles, descriptions, evidence and remediation of findings; metrics and logs; durations and provenance of detector results.
- The other URL extractors (Python, JavaScript, JSON, HTML, configuration) and `RetrievalPolicy`: the windowed detector uses none of them.
- `read_response` and `parse_response` of the clamd adapter, freshness checks, and the socket.
- Locks, poisoning and threads: the cache is one object and detectors run one after the other, as in the source.
- `analyze_recursive`, budgets, and the reputation, Tirith and macOS adapters.
- The executable parser, the terminal renderer, the CLI, the daemon's sockets and queue, and the sandbox.
- UrlWindows.WindowedScanIsComplete: needs that no window holds more than MAX_URLS expressions and fewer than MAX_URLS are recorded, the caps at which the code stops looking; UrlSaturation shows what is lost otherwise.
- StreamCopy.CopyWithLimits: needs a tracker that starts within its total limit, as every caller's fresh tracker does.
- Extraction.ExtractToDirectory: the sum of sizes equals the tracker's total when the reader stops at a failed write, as all readers here do.
