/** `symlink_target_escapes`: a depth counter, checked against lexical path resolution. */
module Symlinks {
  import opened Common
  import opened Text
  import opened Limits

  type Part = seq<byte>

  const DOTDOT: Part := [DOT, DOT]

  function IsAnySlash(): byte -> bool {
    c => c == SLASH || c == BACKSLASH
  }

  predicate IsAlphabetic(b: byte) {
    0x41 <= b <= 0x5A || 0x61 <= b <= 0x7A
  }

  /** `is_windows_absolute_path`: a drive path, or two leading separators of one kind. */
  predicate IsWindowsAbsolute(name: seq<byte>) {
    || (|name| >= 3 && IsAlphabetic(name[0]) && name[1] == 0x3A && IsAnySlash()(name[2]))
    || (|name| >= 2 && name[0] == name[1] == BACKSLASH)
    || (|name| >= 2 && name[0] == name[1] == SLASH)
  }

  predicate IsAbsoluteTarget(target: seq<byte>) {
    (target != [] && target[0] == SLASH) || IsWindowsAbsolute(target)
  }

  /** The steps of a target: its parts between separators of either kind, without the empty ones. */
  function Steps(target: seq<byte>): seq<Part> {
    Filter(Split(target, IsAnySlash()), (part: Part) => part != [])
  }

  /** The parts of the directory that holds the link. */
  function LinkDirectory(name: seq<byte>): seq<Part> {
    var parts := Split(name, IsAnySlash());
    parts[..|parts| - 1]
  }

  /** Lexical resolution: the directory stack after the steps, or nothing once it leaves the root. */
  function Resolve(stack: seq<Part>, steps: seq<Part>): Option<seq<Part>>
    decreases |steps|
  {
    if steps == [] then Some(stack)
    else if steps[0] == [] || steps[0] == [DOT] then Resolve(stack, steps[1..])
    else if steps[0] != DOTDOT then Resolve(stack + [steps[0]], steps[1..])
    else if stack == [] then None
    else Resolve(stack[..|stack| - 1], steps[1..])
  }

  /** The target is absolute, or a stack walk from the link's directory leaves the root. */
  predicate Escapes(name: seq<byte>, linkTarget: Option<seq<byte>>) {
    && linkTarget.Some?
    && (IsAbsoluteTarget(linkTarget.value) || Resolve(LinkDirectory(name), Steps(linkTarget.value)).None?)
  }

  method SymlinkTargetEscapes(name: seq<byte>, linkTarget: Option<seq<byte>>) returns (escapes: bool)
    ensures escapes <==> Escapes(name, linkTarget)
  {
    if linkTarget.None? {
      return false;
    }
    var target := linkTarget.value;
    if IsAbsoluteTarget(target) {
      return true;
    }
    var depth: nat := |Split(name, IsAnySlash())| - 1;
    var steps := Steps(target);
    ghost var stack := LinkDirectory(name);
    FilterMembers(Split(target, IsAnySlash()), (part: Part) => part != []);
    for i := 0 to |steps|
      invariant depth == |stack|
      invariant Resolve(stack, steps[i..]) == Resolve(LinkDirectory(name), steps)
    {
      assert steps[i..][1..] == steps[i + 1..];
      assert steps[i] in steps;
      if steps[i] == [DOT] {
      } else if steps[i] == DOTDOT {
        if depth == 0 {
          return true;
        }
        depth := depth - 1;
        stack := stack[..depth];
      } else {
        depth := depth + 1;
        stack := stack + [steps[i]];
      }
    }
    escapes := false;
  }

  /** `/rest`, `\\rest`, and a letter, a colon and a separator escape from any link, whatever follows. */
  lemma AbsoluteTargetsEscape(name: seq<byte>, rest: seq<byte>, letter: byte)
    requires 'A' as int <= letter <= 'Z' as int || 'a' as int <= letter <= 'z' as int
    ensures Escapes(name, Some([0x2F] + rest))
    ensures Escapes(name, Some([0x5C, 0x5C] + rest))
    ensures Escapes(name, Some([letter, 0x3A, 0x2F] + rest)) && Escapes(name, Some([letter, 0x3A, 0x5C] + rest))
  {
  }

  /** Every other target, among them the ones with a single leading backslash, is judged by the walk alone. */
  lemma OtherTargetsAreWalked(name: seq<byte>, target: seq<byte>)
    requires target != [] ==> target[0] != 0x2F
    requires |target| >= 2 ==> !(target[0] == 0x5C && target[1] == 0x5C)
    requires |target| >= 3 ==>
      || target[1] != 0x3A || (target[2] != 0x2F && target[2] != 0x5C)
      || !('A' as int <= target[0] <= 'Z' as int || 'a' as int <= target[0] <= 'z' as int)
    ensures Escapes(name, Some(target)) <==> Resolve(LinkDirectory(name), Steps(target)).None?
    ensures !Escapes(name, None)
  {
  }

  predicate OrdinaryPart(p: Part) {
    p != [] && p != [DOT] && p != DOTDOT
  }

  /** How far the steps climb above (positive) or go below (negative) where they start. */
  function Climb(steps: seq<Part>): int {
    if steps == [] then 0
    else Climb(steps[1..]) + (if steps[0] == DOTDOT then 1 else if OrdinaryPart(steps[0]) then -1 else 0)
  }

  /** The walk leaves the root exactly when some prefix of it climbs higher than the link's directory is deep. */
  lemma {:induction false} EscapesExactlyWhenAPrefixClimbsOut(stack: seq<Part>, steps: seq<Part>)
    ensures Resolve(stack, steps).None? <==> exists k: nat :: k <= |steps| && Climb(steps[..k]) > |stack|
    ensures Resolve(stack, steps).Some? ==> |Resolve(stack, steps).value| == |stack| - Climb(steps)
    decreases |steps|
  {
    if steps == [] {
      assert forall k: nat :: k <= |steps| ==> steps[..k] == [];
    } else {
      var gain := Climb([steps[0]]);
      assert Climb([steps[0]][1..]) == 0;
      assert steps[..1] == [steps[0]];
      forall k: nat | 1 <= k <= |steps|
        ensures Climb(steps[..k]) == gain + Climb(steps[1..][..k - 1])
      {
        assert steps[..k][1..] == steps[1..][..k - 1];
      }
      if steps[0] == DOTDOT && stack == [] {
        assert Climb(steps[..1]) == 1 > |stack|;
      } else {
        var next :=
          if !OrdinaryPart(steps[0]) && steps[0] != DOTDOT then stack
          else if steps[0] != DOTDOT then stack + [steps[0]] else stack[..|stack| - 1];
        EscapesExactlyWhenAPrefixClimbsOut(next, steps[1..]);
        assert |next| == |stack| - gain;
        if k: nat :| k <= |steps| && Climb(steps[..k]) > |stack| {
          assert k > 0;
          assert Climb(steps[1..][..k - 1]) > |next|;
        }
        if k: nat :| k <= |steps[1..]| && Climb(steps[1..][..k]) > |next| {
          assert Climb(steps[..k + 1]) > |stack|;
        }
      }
    }
  }

  lemma {:induction false} ResolveAppend(stack: seq<Part>, a: seq<Part>, b: seq<Part>)
    ensures Resolve(stack, a + b) ==
      match Resolve(stack, a) case None => None case Some(s) => Resolve(s, b)
    decreases |a|
  {
    if a == [] {
      assert a + b == b;
    } else {
      assert (a + b)[1..] == a[1..] + b;
      if a[0] == [] || a[0] == [DOT] {
        ResolveAppend(stack, a[1..], b);
      } else if a[0] != DOTDOT {
        ResolveAppend(stack + [a[0]], a[1..], b);
      } else if stack != [] {
        ResolveAppend(stack[..|stack| - 1], a[1..], b);
      }
    }
  }

  lemma {:induction false} OrdinaryPartsStack(stack: seq<Part>, dir: seq<Part>)
    requires forall p :: p in dir ==> OrdinaryPart(p)
    ensures Resolve(stack, dir) == Some(stack + dir)
    decreases |dir|
  {
    if dir == [] {
      assert stack + dir == stack;
    } else {
      assert dir[0] in dir;
      OrdinaryPartsStack(stack + [dir[0]], dir[1..]);
      assert stack + [dir[0]] + dir[1..] == stack + dir;
    }
  }

  lemma {:induction false} OddPartsLoseDepth(stack: seq<Part>, dir: seq<Part>)
    ensures Resolve(stack, dir).Some? ==> |Resolve(stack, dir).value| <= |stack| + |dir|
    ensures Resolve(stack, dir).Some? && |Resolve(stack, dir).value| == |stack| + |dir| ==>
      forall p :: p in dir ==> OrdinaryPart(p)
    decreases |dir|
  {
    if dir == [] {
    } else {
      if dir[0] == [] || dir[0] == [DOT] {
        OddPartsLoseDepth(stack, dir[1..]);
      } else if dir[0] != DOTDOT {
        OddPartsLoseDepth(stack + [dir[0]], dir[1..]);
      } else if stack != [] {
        OddPartsLoseDepth(stack[..|stack| - 1], dir[1..]);
      }
    }
  }

  function Ups(n: nat): seq<Part> {
    seq(n, _ => DOTDOT)
  }

  lemma {:induction false} UpsEscape(stack: seq<Part>, n: nat)
    ensures Resolve(stack, Ups(n)).None? <==> n > |stack|
    decreases n
  {
    if n == 0 {
    } else {
      assert Ups(n)[1..] == Ups(n - 1);
      if stack != [] {
        UpsEscape(stack[..|stack| - 1], n - 1);
      }
    }
  }

  // ----- targets that only climb

  /** `../../..` with `n` steps. */
  function UpTarget(n: nat): seq<byte> {
    Join(Ups(n), SLASH)
  }

  lemma {:induction false} UpTargetBytes(n: nat)
    ensures forall c :: c in UpTarget(n) ==> c == DOT || c == SLASH
    ensures n > 0 ==> DOTDOT <= UpTarget(n)
    decreases n
  {
    if n == 0 {
    } else {
      UpTargetBytes(n - 1);
      assert Ups(n)[1..] == Ups(n - 1);
    }
  }

  lemma UpTargetSteps(n: nat, isSep: byte -> bool)
    requires isSep(SLASH) && !isSep(DOT)
    ensures Filter(Split(UpTarget(n), isSep), (part: Part) => part != []) == Ups(n)
  {
    if n == 0 {
      var parts: seq<Part> := [[]];
      assert parts[1..] == [] && Split(UpTarget(0), isSep) == parts;
    } else {
      SplitOfJoin(Ups(n), SLASH, isSep);
      FilterAll(Ups(n), (part: Part) => part != []);
    }
  }

  lemma UpTargetIsRelative(n: nat)
    ensures !IsAbsoluteTarget(UpTarget(n)) && BACKSLASH !in UpTarget(n)
  {
    UpTargetBytes(n);
  }

  lemma UpTargetEscapes(name: seq<byte>, n: nat)
    ensures Escapes(name, Some(UpTarget(n))) <==> n > |LinkDirectory(name)|
  {
    UpTargetIsRelative(n);
    UpTargetSteps(n, IsAnySlash());
    UpsEscape(LinkDirectory(name), n);
  }

  // ----- resolution where both separators count

  /** The link's directory, then the target, walked from the root; both separators count in both. */
  predicate LeavesRootOnWindows(name: seq<byte>, target: seq<byte>) {
    Resolve([], LinkDirectory(name) + Steps(target)).None?
  }

  lemma OrdinaryDirectoryIsItself(dir: seq<Part>, steps: seq<Part>)
    requires forall p :: p in dir ==> OrdinaryPart(p)
    ensures Resolve([], dir + steps) == Resolve(dir, steps)
  {
    ResolveAppend([], dir, steps);
    OrdinaryPartsStack([], dir);
    assert [] + dir == dir;
  }

  /** With an odd part in the directory the walk ends elsewhere than the counter says, and some climb shows it. */
  lemma OddDirectoryMiscounts(name: seq<byte>)
    requires !(forall p :: p in LinkDirectory(name) ==> OrdinaryPart(p))
    ensures exists n :: !(Escapes(name, Some(UpTarget(n))) <==> LeavesRootOnWindows(name, UpTarget(n)))
  {
    var dir := LinkDirectory(name);
    OddPartsLoseDepth([], dir);
    var truth := Resolve([], dir);
    var n := if truth.None? then 0 else |truth.value| + 1;
    ResolveAppend([], dir, Ups(n));
    UpTargetSteps(n, IsAnySlash());
    UpTargetEscapes(name, n);
    if truth.Some? {
      UpsEscape(truth.value, n);
    }
    assert LeavesRootOnWindows(name, UpTarget(n)) && !Escapes(name, Some(UpTarget(n)));
  }

  /**
    Where both separators count, the counter agrees with walking the directory and
    the target from the root, for every relative target, exactly when the directory
    has no empty, `.` or `..` part.  Validation splits at `/` only, so a validated
    name can still have such parts between backslashes.
   */
  lemma CounterIsResolutionExactlyOnOrdinaryDirectories(name: seq<byte>)
    ensures (forall target :: !IsAbsoluteTarget(target) ==>
              (Escapes(name, Some(target)) <==> LeavesRootOnWindows(name, target)))
      <==> (forall p :: p in LinkDirectory(name) ==> OrdinaryPart(p))
  {
    if forall p :: p in LinkDirectory(name) ==> OrdinaryPart(p) {
      forall target | !IsAbsoluteTarget(target)
        ensures Escapes(name, Some(target)) <==> LeavesRootOnWindows(name, target)
      {
        OrdinaryDirectoryIsItself(LinkDirectory(name), Steps(target));
      }
    } else {
      OddDirectoryMiscounts(name);
      var n :| !(Escapes(name, Some(UpTarget(n))) <==> LeavesRootOnWindows(name, UpTarget(n)));
      UpTargetIsRelative(n);
    }
  }

  // ----- resolution where only `/` separates, as when the archive is extracted on Unix

  /** The parts of the directory the link is put into. */
  function SlashDirectory(name: seq<byte>): seq<Part> {
    var parts := Split(name, IsSlash());
    parts[..|parts| - 1]
  }

  function SlashSteps(target: seq<byte>): seq<Part> {
    Filter(Split(target, IsSlash()), (part: Part) => part != [])
  }

  predicate LeavesRootOnUnix(name: seq<byte>, target: seq<byte>) {
    Resolve([], SlashDirectory(name) + SlashSteps(target)).None?
  }

  lemma {:induction false} SplitsCompared(s: seq<byte>)
    ensures |Split(s, IsAnySlash())| >= |Split(s, IsSlash())|
    ensures BACKSLASH in s ==> |Split(s, IsAnySlash())| > |Split(s, IsSlash())|
    ensures BACKSLASH !in s ==> Split(s, IsAnySlash()) == Split(s, IsSlash())
  {
    if s == [] {
    } else {
      SplitsCompared(s[1..]);
      assert s == [s[0]] + s[1..];
    }
  }

  lemma NormalisedDirectory(name: seq<byte>)
    requires Normalised(name)
    ensures forall p :: p in SlashDirectory(name) ==> OrdinaryPart(p)
  {
    SafeNameIsNormalised(name);
    var parts := Split(name, IsSlash());
    assert SafeEntryName(name).value == name;
    forall p | p in SlashDirectory(name) ensures OrdinaryPart(p) {
      assert p in parts;
      assert IsOrdinary()(p) && p != [DOT, DOT];
    }
  }

  /** In every validated name a backslash lets a target through that climbs one step above the root. */
  lemma BackslashNameMiscounts(name: seq<byte>)
    requires Normalised(name) && BACKSLASH in name
    ensures var target := UpTarget(|SlashDirectory(name)| + 1);
      !Escapes(name, Some(target)) && LeavesRootOnUnix(name, target)
  {
    var dir := SlashDirectory(name);
    var n := |dir| + 1;
    SplitsCompared(name);
    UpTargetEscapes(name, n);
    NormalisedDirectory(name);
    UpTargetSteps(n, IsSlash());
    OrdinaryDirectoryIsItself(dir, Ups(n));
    UpsEscape(dir, n);
  }

  /**
    On Unix, for every validated name: the function says of every relative target
    without a backslash whether it leaves the root exactly when the name has no
    backslash either.
   */
  lemma CounterIsUnixResolutionExactly(name: seq<byte>)
    requires Normalised(name)
    ensures (forall target :: !IsAbsoluteTarget(target) && BACKSLASH !in target ==>
              (Escapes(name, Some(target)) <==> LeavesRootOnUnix(name, target)))
      <==> BACKSLASH !in name
  {
    if BACKSLASH in name {
      BackslashNameMiscounts(name);
      UpTargetIsRelative(|SlashDirectory(name)| + 1);
    } else {
      SplitsCompared(name);
      NormalisedDirectory(name);
      forall target | !IsAbsoluteTarget(target) && BACKSLASH !in target
        ensures Escapes(name, Some(target)) <==> LeavesRootOnUnix(name, target)
      {
        SplitsCompared(target);
        OrdinaryDirectoryIsItself(SlashDirectory(name), SlashSteps(target));
      }
    }
  }

  /** A small case: the link `a\x` lies in the root, and its target `..` is let through. */
  lemma SmallNameMiscounts()
    ensures var name, target := [0x61, BACKSLASH, 0x78], DOTDOT;
      && Normalised(name)
      && !Escapes(name, Some(target)) && LeavesRootOnUnix(name, target)
  {
    var name: seq<byte> := [0x61, BACKSLASH, 0x78];
    SplitFree(name, [], IsSlash());
    assert name + [] == name;
    assert Split([], IsSlash()) == [[]];
    assert Split(name, IsSlash()) == [name];
    assert Filter([name][1..], IsOrdinary()) == [];
    assert Components(name) == [name];
    assert SlashDirectory(name) == [];
    assert UpTarget(1) == Ups(1)[0] == DOTDOT;
    BackslashNameMiscounts(name);
  }

  // ----- targets with a backslash

  /** `x\x/` and then `n` steps up: two levels down for the counter, one on Unix. */
  function BackslashTarget(n: nat): seq<byte> {
    [0x78, BACKSLASH, 0x78] + ([SLASH] + UpTarget(n))
  }

  /** The steps of a first part with other steps behind it. */
  lemma StepsAfter(first: Part, n: nat, isSep: byte -> bool, parts: seq<Part>)
    requires isSep(SLASH) && !isSep(DOT)
    requires Split(first, isSep) == parts && forall p :: p in parts ==> p != []
    ensures Filter(Split(first + ([SLASH] + UpTarget(n)), isSep), (part: Part) => part != []) == parts + Ups(n)
  {
    var keep := (part: Part) => part != [];
    SplitAtSeparator(first, SLASH, UpTarget(n), isSep);
    UpTargetSteps(n, isSep);
    FilterAppend(parts, Split(UpTarget(n), isSep), keep);
    FilterAll(parts, keep);
  }

  lemma BackslashTargetSteps(n: nat)
    ensures Steps(BackslashTarget(n)) == [[0x78], [0x78]] + Ups(n)
    ensures SlashSteps(BackslashTarget(n)) == [[0x78, BACKSLASH, 0x78]] + Ups(n)
  {
    var x: Part := [0x78];
    var both: Part := [0x78, BACKSLASH, 0x78];
    assert both == x + ([BACKSLASH] + x);
    SplitAtSeparator(x, BACKSLASH, x, IsAnySlash());
    SplitOne(x, IsAnySlash());
    assert [x] + [x] == [x, x];
    StepsAfter(both, n, IsAnySlash(), [x, x]);
    SplitOne(both, IsSlash());
    StepsAfter(both, n, IsSlash(), [both]);
  }

  lemma SplitOne(part: Part, isSep: byte -> bool)
    requires Free(part, isSep)
    ensures Split(part, isSep) == [part]
  {
    SplitFree(part, [], isSep);
    assert part + [] == part;
  }

  /** A target with a backslash can deceive the function on Unix whatever the name: the restriction above is needed. */
  lemma BackslashTargetMiscounts(name: seq<byte>)
    requires Normalised(name)
    ensures var target := BackslashTarget(|SlashDirectory(name)| + 2);
      && !IsAbsoluteTarget(target) && BACKSLASH in target
      && !Escapes(name, Some(target)) && LeavesRootOnUnix(name, target)
  {
    var dir, counted := SlashDirectory(name), LinkDirectory(name);
    var n := |dir| + 2;
    var x, both: Part := [0x78], [0x78, BACKSLASH, 0x78];
    BackslashTargetSteps(n);
    SplitsCompared(name);
    ResolveAppend(counted, [x, x], Ups(n));
    OrdinaryPartsStack(counted, [x, x]);
    UpsEscape(counted + [x, x], n);
    NormalisedDirectory(name);
    OrdinaryDirectoryIsItself(dir, [both] + Ups(n));
    ResolveAppend(dir, [both], Ups(n));
    OrdinaryPartsStack(dir, [both]);
    UpsEscape(dir + [both], n);
    assert BackslashTarget(n)[1] == BACKSLASH;
  }
}
