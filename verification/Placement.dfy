/**
  Where `extract_to_directory` puts the files: each entry is written under a
  partial path and renamed into place.  The destination is a map from relative
  paths to bytes; directories and failing file-system calls are left out.
 */
module Placement {
  import opened Common
  import opened Limits

  type Path = seq<byte>

  type Disk = map<Path, seq<byte>>

  /** ".arbitraitor-partial". */
  const PARTIAL: seq<byte> :=
    [0x61, 0x72, 0x62, 0x69, 0x74, 0x72, 0x61, 0x69, 0x74, 0x6F, 0x72,
     0x2D, 0x70, 0x61, 0x72, 0x74, 0x69, 0x61, 0x6C]

  /** The offset of the last `mark`, if any. */
  function LastIndex(s: seq<byte>, mark: byte): (r: Option<nat>)
    ensures r.Some? ==> r.value < |s| && s[r.value] == mark
  {
    if s == [] then None
    else if s[|s| - 1] == mark then Some(|s| - 1)
    else LastIndex(s[..|s| - 1], mark)
  }

  /** `Path::extension` of a file name: what follows the last dot, unless that dot comes first. */
  function Extension(fileName: seq<byte>): Option<seq<byte>> {
    var dot := LastIndex(fileName, DOT);
    if fileName == [DOT, DOT] || dot.None? || dot.value == 0 then None else Some(fileName[dot.value + 1..])
  }

  /** `Path::file_stem` of a file name. */
  function Stem(fileName: seq<byte>): seq<byte> {
    var extension := Extension(fileName);
    if extension.None? then fileName else fileName[..|fileName| - |extension.value| - 1]
  }

  /** `Path::set_extension` with an extension that is not empty. */
  function WithExtension(fileName: seq<byte>, extension: seq<byte>): seq<byte> {
    Stem(fileName) + [DOT] + extension
  }

  function PartialFileName(fileName: seq<byte>): seq<byte> {
    var extension := Extension(fileName);
    WithExtension(fileName, if extension.None? then PARTIAL else extension.value + [DOT] + PARTIAL)
  }

  /** `partial_output_path`: the last component of the path with the longer extension. */
  function PartialPath(path: Path): Path {
    var slash := LastIndex(path, SLASH);
    var start := if slash.None? then 0 else slash.value + 1;
    path[..start] + PartialFileName(path[start..])
  }

  lemma Rejoined(stem: seq<byte>, extension: seq<byte>, suffix: seq<byte>)
    ensures stem + [DOT] + (extension + [DOT] + suffix) == (stem + [DOT] + extension) + ([DOT] + suffix)
    ensures stem + [DOT] + suffix == stem + ([DOT] + suffix)
  {
  }

  lemma PartialFileNameAppends(fileName: seq<byte>)
    ensures PartialFileName(fileName) == fileName + ([DOT] + PARTIAL)
  {
    var dot := LastIndex(fileName, DOT);
    if Extension(fileName).Some? {
      var stem, extension := fileName[..dot.value], fileName[dot.value + 1..];
      assert Stem(fileName) == stem && fileName == stem + [DOT] + extension;
      Rejoined(stem, extension, PARTIAL);
    } else {
      Rejoined(fileName, [], PARTIAL);
    }
  }

  lemma SuffixIsText()
    ensures [DOT] + PARTIAL == Ascii(".arbitraitor-partial")
  {
  }

  /** Whatever the extension, the partial path is the path with a suffix. */
  lemma PartialPathAppends(path: Path)
    ensures PartialPath(path) == path + Ascii(".arbitraitor-partial")
  {
    SuffixIsText();
    var slash := LastIndex(path, SLASH);
    var start := if slash.None? then 0 else slash.value + 1;
    PartialFileNameAppends(path[start..]);
    Regroup(path[..start], path[start..], [DOT] + PARTIAL);
    assert path[..start] + path[start..] == path;
  }

  lemma PartialPathDiffers(path: Path)
    ensures PartialPath(path) != path && |PartialPath(path)| == |path| + 20
  {
    PartialPathAppends(path);
  }

  /** `File::create` of the partial path, the writes, and `fs::rename`. */
  function Placed(partial: Path -> Path, disk: Disk, path: Path, bytes: seq<byte>): Disk {
    (disk - {partial(path)})[path := bytes]
  }

  /** `fs::rename`: the target is replaced. */
  function Rename(disk: Disk, from: Path, to: Path): Disk
    requires from in disk
  {
    (disk - {from})[to := disk[from]]
  }

  lemma RemovedIsGone(partial: Path -> Path, disk: Disk, path: Path, bytes: seq<byte>)
    ensures disk[partial(path) := bytes] - {partial(path)} == disk - {partial(path)}
  {
  }

  lemma RenamedIsPlaced(partial: Path -> Path, disk: Disk, path: Path, bytes: seq<byte>)
    ensures Rename(disk[partial(path) := bytes], partial(path), path) == Placed(partial, disk, path, bytes)
  {
    RemovedIsGone(partial, disk, path, bytes);
  }

  /** The destination after the files have been placed one by one; `partial` is `PartialPath`. */
  function Replay(partial: Path -> Path, disk: Disk, paths: seq<Path>, contents: seq<seq<byte>>): Disk
    requires |paths| == |contents|
  {
    if paths == [] then disk
    else
      var n := |paths| - 1;
      Placed(partial, Replay(partial, disk, paths[..n], contents[..n]), paths[n], contents[n])
  }

  lemma ReplayAppended(partial: Path -> Path, disk: Disk, paths: seq<Path>, contents: seq<seq<byte>>, path: Path,
                       bytes: seq<byte>)
    requires |paths| == |contents|
    ensures Replay(partial, disk, paths + [path], contents + [bytes])
            == Placed(partial, Replay(partial, disk, paths, contents), path, bytes)
  {
    assert (paths + [path])[..|paths|] == paths && (contents + [bytes])[..|contents|] == contents;
  }

  // ----- what is on the disk afterwards

  predicate HoldsItsBytes(disk: Disk, path: Path, bytes: seq<byte>) {
    path in disk && disk[path] == bytes
  }

  /** Placing `q` replaces or removes what is at `p`. */
  predicate Touches(partial: Path -> Path, q: Path, p: Path) {
    q == p || partial(q) == p
  }

  /** What placing one file does at `p`. */
  lemma PlacedAt(partial: Path -> Path, disk: Disk, q: Path, bytes: seq<byte>, p: Path)
    ensures q == p ==> HoldsItsBytes(Placed(partial, disk, q, bytes), p, bytes)
    ensures q != p && partial(q) == p ==> p !in Placed(partial, disk, q, bytes)
    ensures !Touches(partial, q, p) ==>
      && (p in Placed(partial, disk, q, bytes) <==> p in disk)
      && (p in disk ==> Placed(partial, disk, q, bytes)[p] == disk[p])
  {
  }

  /** The last file that touches `p` is number `k`. */
  predicate LastTouch(partial: Path -> Path, paths: seq<Path>, p: Path, k: nat) {
    k < |paths| && Touches(partial, paths[k], p) && forall j :: k < j < |paths| ==> !Touches(partial, paths[j], p)
  }

  /** What is at `p` is decided by the last file that touches it. */
  lemma {:induction false} LastTouchDecides(partial: Path -> Path, disk: Disk, paths: seq<Path>,
                                            contents: seq<seq<byte>>, p: Path, k: nat)
    requires |paths| == |contents| && LastTouch(partial, paths, p, k)
    ensures paths[k] == p ==> HoldsItsBytes(Replay(partial, disk, paths, contents), p, contents[k])
    ensures paths[k] != p ==> p !in Replay(partial, disk, paths, contents)
  {
    var n := |paths| - 1;
    PlacedAt(partial, Replay(partial, disk, paths[..n], contents[..n]), paths[n], contents[n], p);
    if k == n {
    } else {
      assert !Touches(partial, paths[n], p);
      LastTouchDecides(partial, disk, paths[..n], contents[..n], p, k);
    }
  }

  /** Files that are not touched stay as they were. */
  lemma {:induction false} UntouchedStays(partial: Path -> Path, disk: Disk, paths: seq<Path>, contents: seq<seq<byte>>,
                                          p: Path)
    requires |paths| == |contents|
    requires forall j :: 0 <= j < |paths| ==> !Touches(partial, paths[j], p)
    ensures p in Replay(partial, disk, paths, contents) <==> p in disk
    ensures p in disk ==> Replay(partial, disk, paths, contents)[p] == disk[p]
  {
    if paths == [] {
    } else {
      var n := |paths| - 1;
      assert !Touches(partial, paths[n], p);
      PlacedAt(partial, Replay(partial, disk, paths[..n], contents[..n]), paths[n], contents[n], p);
      UntouchedStays(partial, disk, paths[..n], contents[..n], p);
    }
  }

  lemma {:induction false} SomeLastTouch(partial: Path -> Path, paths: seq<Path>, p: Path, i: nat) returns (k: nat)
    requires i < |paths| && Touches(partial, paths[i], p)
    ensures i <= k && LastTouch(partial, paths, p, k)
    decreases |paths|
  {
    var n := |paths| - 1;
    if Touches(partial, paths[n], p) {
      k := n;
    } else {
      k := SomeLastTouch(partial, paths[..n], p, i);
      assert forall j :: k < j < n ==> paths[j] == paths[..n][j];
    }
  }

  /** The last file that touches the path of file `i` puts the bytes of file `i` there. */
  predicate Survives(partial: Path -> Path, paths: seq<Path>, contents: seq<seq<byte>>, i: nat)
    requires |paths| == |contents| && i < |paths|
  {
    exists k ::
      i <= k < |paths| && LastTouch(partial, paths, paths[i], k) && paths[k] == paths[i] && contents[k] == contents[i]
  }

  /** A placed file is in place afterwards exactly when it survives the ones placed after it. */
  lemma {:induction false} FileIsInPlaceExactly(partial: Path -> Path, disk: Disk, paths: seq<Path>,
                                                contents: seq<seq<byte>>, i: nat)
    requires |paths| == |contents| && i < |paths|
    ensures HoldsItsBytes(Replay(partial, disk, paths, contents), paths[i], contents[i]) <==>
      Survives(partial, paths, contents, i)
  {
    var k := SomeLastTouch(partial, paths, paths[i], i);
    LastTouchDecides(partial, disk, paths, contents, paths[i], k);
    forall j | LastTouch(partial, paths, paths[i], j) ensures j == k {
    }
  }

  /** No file touches the path of an earlier one. */
  predicate NothingTouched(partial: Path -> Path, paths: seq<Path>) {
    forall i, j :: 0 <= i < j < |paths| ==> !Touches(partial, paths[j], paths[i])
  }

  ghost predicate AllInPlace(disk: Disk, paths: seq<Path>, contents: seq<seq<byte>>) {
    |paths| == |contents| && forall i :: 0 <= i < |paths| ==> HoldsItsBytes(disk, paths[i], contents[i])
  }

  /** Contents that all differ: the `i`-th has `i` bytes. */
  function Lengths(n: nat): (contents: seq<seq<byte>>)
    ensures |contents| == n && forall i :: 0 <= i < n ==> |contents[i]| == i
  {
    seq(n, i requires 0 <= i < n => seq(i, _ => 0))
  }

  /**
    Whatever bytes the files have, all of them are in place afterwards exactly
    when no path is repeated and none is the partial path of a later one.
   */
  lemma AllAreInPlaceExactly(partial: Path -> Path, disk: Disk, paths: seq<Path>)
    ensures NothingTouched(partial, paths) <==>
      forall contents: seq<seq<byte>> | |contents| == |paths| ::
        AllInPlace(Replay(partial, disk, paths, contents), paths, contents)
  {
    if NothingTouched(partial, paths) {
      forall contents: seq<seq<byte>> | |contents| == |paths|
        ensures AllInPlace(Replay(partial, disk, paths, contents), paths, contents)
      {
        forall i | 0 <= i < |paths|
          ensures HoldsItsBytes(Replay(partial, disk, paths, contents), paths[i], contents[i])
        {
          LastTouchDecides(partial, disk, paths, contents, paths[i], i);
        }
      }
    } else {
      var i, j :| 0 <= i < j < |paths| && Touches(partial, paths[j], paths[i]);
      var contents := Lengths(|paths|);
      FileIsInPlaceExactly(partial, disk, paths, contents, i);
      forall k | i <= k < |paths| && contents[k] == contents[i] ensures k == i {
        assert |contents[k]| == k;
      }
      assert !HoldsItsBytes(Replay(partial, disk, paths, contents), paths[i], contents[i]);
    }
  }

  /**
    A file whose name is the partial path of the file placed after it is gone,
    although both were placed: for example `a.arbitraitor-partial` and then `a`.
   */
  lemma PartialNameIsLost(disk: Disk, path: Path, first: seq<byte>, second: seq<byte>)
    ensures var after := Replay(PartialPath, disk, [PartialPath(path), path], [first, second]);
      PartialPath(path) !in after && HoldsItsBytes(after, path, second)
  {
    PartialPathDiffers(path);
    var paths, contents := [PartialPath(path), path], [first, second];
    LastTouchDecides(PartialPath, disk, paths, contents, PartialPath(path), 1);
    LastTouchDecides(PartialPath, disk, paths, contents, path, 1);
  }
}
