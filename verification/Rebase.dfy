/** Rebasing tsconfig paths and patterns from one directory to another. Paths
    follow the POSIX component rules: `/` separates, empty and `.` components
    vanish, `\` is an ordinary character until a rebased result turns it into
    `/`. */
module TsconfigPaths {
  import opened Sequences
  import opened Strings

  datatype Path = Path(rooted: bool, parts: seq<string>)

  predicate IsAbsolute(path: string) {
    path != "" && path[0] == '/'
  }

  /** The components of a path string. */
  function Parse(path: string): Path {
    Path(IsAbsolute(path), KeepReal(Split(path, '/')))
  }

  function Render(path: Path): string {
    if path.rooted then "/" + Join(path.parts, '/') else Join(path.parts, '/')
  }

  /** `dir.join(pattern)`: an absolute pattern replaces the directory. */
  function JoinPath(dir: string, pattern: string): Path {
    if IsAbsolute(pattern) then Parse(pattern)
    else Path(IsAbsolute(dir), Parse(dir).parts + Parse(pattern).parts)
  }

  function Push(kept: seq<string>, part: string): seq<string> {
    if part != ".." then kept + [part]
    else if kept == [] then []
    else kept[..|kept| - 1]
  }

  function Resolve(kept: seq<string>, parts: seq<string>): seq<string>
    decreases |parts|
  {
    if parts == [] then kept else Resolve(Push(kept, parts[0]), parts[1..])
  }

  function Normalized(path: Path): Path {
    Path(path.rooted, Resolve([], path.parts))
  }

  method NormalizeSafe(path: Path) returns (result: Path)
    ensures result == Normalized(path)
  {
    var kept: seq<string> := [];
    for k := 0 to |path.parts|
      invariant Resolve(kept, path.parts[k..]) == Resolve([], path.parts)
    {
      if path.parts[k] == ".." {
        if kept != [] {
          kept := kept[..|kept| - 1];
        }
      } else {
        kept := kept + [path.parts[k]];
      }
      assert path.parts[k..][1..] == path.parts[k + 1..];
    }
    result := Path(path.rooted, kept);
  }

  function Ups(n: nat): (r: seq<string>)
    ensures |r| == n && forall k :: 0 <= k < n ==> r[k] == ".."
  {
    seq(n, _ => "..")
  }

  /** The path that leads from `base` to `target`. */
  function Relative(target: Path, base: Path): Path {
    if target.rooted == base.rooted then
      var n := CommonLength(target.parts, base.parts);
      Path(false, Ups(|base.parts| - n) + target.parts[n..])
    else if target.rooted then target
    else Path(false, Ups(|base.parts| + 1) + target.parts)
  }

  method CountCommon(a: seq<string>, b: seq<string>) returns (common: nat)
    ensures common == CommonLength(a, b)
  {
    common := 0;
    while common < |a| && common < |b| && a[common] == b[common]
      invariant common <= |a| && common <= |b|
      invariant CommonLength(a, b) == common + CommonLength(a[common..], b[common..])
    {
      assert a[common..][1..] == a[common + 1..] && b[common..][1..] == b[common + 1..];
      common := common + 1;
    }
  }

  method MakeRelative(target: Path, base: Path) returns (result: Path)
    ensures result == Relative(target, base)
  {
    if target.rooted != base.rooted {
      // The root component is the first one, so nothing is shared; pushing a
      // root onto the result replaces it.
      return if target.rooted then target else Path(false, Ups(|base.parts| + 1) + target.parts);
    }
    var common := CountCommon(target.parts, base.parts);
    var up := PushParents(|base.parts| - common);
    var parts := PushAll(up, target.parts[common..]);
    result := Path(false, parts);
  }

  method PushParents(count: nat) returns (parts: seq<string>)
    ensures parts == Ups(count)
  {
    parts := [];
    for k := 0 to count
      invariant parts == Ups(k)
    {
      parts := parts + [".."];
    }
  }

  method PushAll(up: seq<string>, names: seq<string>) returns (parts: seq<string>)
    ensures parts == up + names
  {
    parts := up;
    for k := 0 to |names|
      invariant parts == up + names[..k]
    {
      parts := parts + [names[k]];
    }
    assert names[..|names|] == names;
  }

  /** `pattern`, declared in `from`, rewritten to be read in `to`. */
  function Rebase(pattern: string, from: string, to: string): string {
    if IsAbsolute(pattern) then pattern
    else ReplaceChar(Render(Relative(Meaning(from, pattern), Normalized(Parse(to)))), '\\', '/')
  }

  method RebasePathPattern(pattern: string, from: string, to: string) returns (rebased: string)
    ensures rebased == Rebase(pattern, from, to)
  {
    if IsAbsolute(pattern) {
      return pattern;
    }
    var absolute := NormalizeSafe(JoinPath(from, pattern));
    var base := NormalizeSafe(Parse(to));
    var relative := MakeRelative(absolute, base);
    rebased := ReplaceChar(Render(relative), '\\', '/');
  }

  /** What a pattern stands for when it is read in a directory. */
  function Meaning(dir: string, pattern: string): Path {
    Normalized(JoinPath(dir, pattern))
  }

  // ----- Lemmas about resolving components -----

  predicate Plain(part: string) {
    RealSegment(part) && '/' !in part
  }

  predicate AllPlain(parts: seq<string>) {
    forall k :: 0 <= k < |parts| ==> Plain(parts[k])
  }

  lemma ParseIsPlain(path: string)
    ensures AllPlain(Parse(path).parts)
  {
    var split, parts := Split(path, '/'), Parse(path).parts;
    SplitParts(path, '/');
    KeepRealSource(split);
    forall k | 0 <= k < |parts|
      ensures Plain(parts[k])
    {
      assert parts[k] in parts;
    }
  }

  lemma ConcatAll<T>(a: seq<T>, b: seq<T>, p: T -> bool)
    requires forall k :: 0 <= k < |a| ==> p(a[k])
    requires forall k :: 0 <= k < |b| ==> p(b[k])
    ensures forall k :: 0 <= k < |a + b| ==> p((a + b)[k])
  {
  }

  lemma {:induction false} ResolveAll(kept: seq<string>, parts: seq<string>, p: string -> bool)
    requires forall k :: 0 <= k < |kept| ==> p(kept[k])
    requires forall k :: 0 <= k < |parts| ==> p(parts[k])
    ensures forall k :: 0 <= k < |Resolve(kept, parts)| ==> p(Resolve(kept, parts)[k])
    decreases |parts|
  {
    if parts != [] {
      ResolveAll(Push(kept, parts[0]), parts[1..], p);
    }
  }

  lemma {:induction false} ResolveRemovesUps(kept: seq<string>, parts: seq<string>)
    requires ".." !in kept
    ensures ".." !in Resolve(kept, parts)
    decreases |parts|
  {
    if parts != [] {
      ResolveRemovesUps(Push(kept, parts[0]), parts[1..]);
    }
  }

  lemma {:induction false} ResolveConcat(kept: seq<string>, a: seq<string>, b: seq<string>)
    ensures Resolve(kept, a + b) == Resolve(Resolve(kept, a), b)
    decreases |a|
  {
    if a == [] {
      assert a + b == b;
    } else {
      assert (a + b)[1..] == a[1..] + b;
      ResolveConcat(Push(kept, a[0]), a[1..], b);
    }
  }

  lemma {:induction false} ResolveNames(kept: seq<string>, names: seq<string>)
    requires ".." !in names
    ensures Resolve(kept, names) == kept + names
    decreases |names|
  {
    if names != [] {
      ResolveNames(kept + [names[0]], names[1..]);
    }
  }

  lemma {:induction false} ResolveUps(kept: seq<string>, n: nat)
    requires n <= |kept|
    ensures Resolve(kept, Ups(n)) == kept[..|kept| - n]
    decreases n
  {
    if 0 < n {
      assert Ups(n)[1..] == Ups(n - 1);
      ResolveUps(kept[..|kept| - 1], n - 1);
    }
  }

  /** Whatever is resolved on top of `kept`, a prefix of `kept` remains, followed
      by components of `parts`. */
  lemma {:induction false} ResolveKeepsPrefix(kept: seq<string>, parts: seq<string>)
    returns (m: nat, added: seq<string>)
    ensures m <= |kept| && Resolve(kept, parts) == kept[..m] + added
    ensures forall part :: part in added ==> part in parts
    decreases |parts|
  {
    if parts == [] {
      m, added := |kept|, [];
    } else {
      var pushed := Push(kept, parts[0]);
      m, added := ResolveKeepsPrefix(pushed, parts[1..]);
      if m == |kept| + 1 {
        added := [parts[0]] + added;
        m := |kept|;
      }
    }
  }

  lemma ParseRendered(parts: seq<string>)
    requires AllPlain(parts)
    ensures Parse(Join(parts, '/')) == Path(false, parts)
  {
    if parts != [] {
      SplitJoin(parts, '/');
      assert Split(Join(parts, '/'), '/')[0] == parts[0];
    }
    KeepRealOfReal(parts);
  }

  lemma {:induction false} JoinAvoids(parts: seq<string>, c: char)
    requires c != '/' && forall k :: 0 <= k < |parts| ==> c !in parts[k]
    ensures c !in Join(parts, '/')
  {
    if c in Join(parts, '/') {
      JoinChars(parts, '/', c);
    }
  }

  // ----- Rebasing preserves meaning -----

  predicate HasBackslash(s: string) {
    '\\' in s
  }

  predicate NoBackslash(s: string) {
    !HasBackslash(s)
  }

  /** The components a rebased pattern is made of, besides parent steps. */
  function Tail(pattern: string, from: string, to: string): seq<string> {
    var target := Meaning(from, pattern).parts;
    target[CommonLength(target, Normalized(Parse(to)).parts)..]
  }

  predicate CleanTail(pattern: string, from: string, to: string) {
    forall k :: 0 <= k < |Tail(pattern, from, to)| ==> NoBackslash(Tail(pattern, from, to)[k])
  }

  lemma MeaningIsPlain(dir: string, pattern: string)
    ensures AllPlain(Meaning(dir, pattern).parts) && ".." !in Meaning(dir, pattern).parts
  {
    ParseIsPlain(dir);
    ParseIsPlain(pattern);
    ResolveAll([], JoinPath(dir, pattern).parts, Plain);
    ResolveRemovesUps([], JoinPath(dir, pattern).parts);
  }

  lemma MeaningInSteps(dir: string, pattern: string)
    requires !IsAbsolute(pattern)
    ensures Meaning(dir, pattern).parts == Resolve(Normalized(Parse(dir)).parts, Parse(pattern).parts)
  {
    ResolveConcat([], Parse(dir).parts, Parse(pattern).parts);
  }

  /** The rebased pattern: parent steps out of `to`, then the tail. */
  function Steps(pattern: string, from: string, to: string): seq<string> {
    var base := Normalized(Parse(to)).parts;
    Ups(|base| - CommonLength(Meaning(from, pattern).parts, base)) + Tail(pattern, from, to)
  }

  lemma StepsAre(pattern: string, from: string, to: string, p: string -> bool)
    requires p("..") && forall k :: 0 <= k < |Tail(pattern, from, to)| ==> p(Tail(pattern, from, to)[k])
    ensures forall k :: 0 <= k < |Steps(pattern, from, to)| ==> p(Steps(pattern, from, to)[k])
  {
    var base := Normalized(Parse(to)).parts;
    ConcatAll(Ups(|base| - CommonLength(Meaning(from, pattern).parts, base)), Tail(pattern, from, to), p);
  }

  lemma StepsArePlain(pattern: string, from: string, to: string)
    ensures AllPlain(Steps(pattern, from, to))
  {
    MeaningIsPlain(from, pattern);
    StepsAre(pattern, from, to, Plain);
  }

  lemma RebaseRendersSteps(pattern: string, from: string, to: string)
    requires IsAbsolute(from) && IsAbsolute(to) && !IsAbsolute(pattern)
    ensures Rebase(pattern, from, to) == ReplaceChar(Join(Steps(pattern, from, to), '/'), '\\', '/')
  {}

  lemma CleanJoin(parts: seq<string>)
    requires AllPlain(parts) && forall k :: 0 <= k < |parts| ==> NoBackslash(parts[k])
    ensures ReplaceChar(Join(parts, '/'), '\\', '/') == Join(parts, '/')
    ensures Parse(Join(parts, '/')) == Path(false, parts)
  {
    JoinAvoids(parts, '\\');
    ReplaceCharAbsent(Join(parts, '/'), '\\', '/');
    ParseRendered(parts);
  }

  lemma CleanRebaseIsRendered(pattern: string, from: string, to: string)
    requires IsAbsolute(from) && IsAbsolute(to) && !IsAbsolute(pattern)
    requires CleanTail(pattern, from, to)
    ensures Rebase(pattern, from, to) == Join(Steps(pattern, from, to), '/')
    ensures Parse(Rebase(pattern, from, to)) == Path(false, Steps(pattern, from, to))
  {
    RebaseRendersSteps(pattern, from, to);
    StepsArePlain(pattern, from, to);
    StepsAre(pattern, from, to, NoBackslash);
    CleanJoin(Steps(pattern, from, to));
  }

  lemma UpThenDown(base: seq<string>, up: nat, down: seq<string>)
    requires up <= |base| && ".." !in down
    ensures Resolve(base, Ups(up) + down) == base[..|base| - up] + down
  {
    ResolveConcat(base, Ups(up), down);
    ResolveUps(base, up);
    ResolveNames(base[..|base| - up], down);
  }

  /** Going up to the shared prefix and down again arrives at the target. */
  lemma StepsReachTarget(base: seq<string>, target: seq<string>, n: nat)
    requires n <= |base| && n <= |target| && base[..n] == target[..n] && ".." !in target
    ensures Resolve(base, Ups(|base| - n) + target[n..]) == target
  {
    UpThenDown(base, |base| - n, target[n..]);
    assert target[..n] + target[n..] == target;
  }

  lemma CleanRebaseKeepsMeaning(pattern: string, from: string, to: string)
    requires IsAbsolute(from) && IsAbsolute(to) && !IsAbsolute(pattern)
    requires CleanTail(pattern, from, to)
    ensures !IsAbsolute(Rebase(pattern, from, to))
    ensures Meaning(to, Rebase(pattern, from, to)) == Meaning(from, pattern)
  {
    var target, base := Meaning(from, pattern).parts, Normalized(Parse(to)).parts;
    MeaningIsPlain(from, pattern);
    CleanRebaseIsRendered(pattern, from, to);
    MeaningInSteps(to, Rebase(pattern, from, to));
    StepsReachTarget(base, target, CommonLength(target, base));
  }

  /** What is kept of `base` leaves the target at `n`, and nothing that was added
      is marked, so a target that is marked at `k` is left by then. */
  lemma TargetIsMissed<T>(base: seq<T>, m: nat, added: seq<T>, target: seq<T>, n: nat, k: nat, marked: T -> bool)
    requires m <= |base| && n <= k < |target| && (n < |base| ==> target[n] != base[n])
    requires marked(target[k]) && forall i :: 0 <= i < |added| ==> !marked(added[i])
    ensures !(target[..k + 1] <= base[..m] + added)
  {
    var reached, begun := base[..m] + added, target[..k + 1];
    assert begun[k] == target[k] && begun[n] == target[n];
    if m <= k < |reached| {
      assert reached[k] == added[k - m];
    } else if k < |reached| {
      assert reached[n] == base[n];
    }
  }

  lemma ResolvingMissesTarget(
    kept: seq<string>, parts: seq<string>, target: seq<string>, n: nat, k: nat, marked: string -> bool)
    requires n <= k < |target| && (n < |kept| ==> target[n] != kept[n]) && marked(target[k])
    requires forall i :: 0 <= i < |parts| ==> !marked(parts[i])
    ensures !(target[..k + 1] <= Resolve(kept, parts))
  {
    var m, added := ResolveKeepsPrefix(kept, parts);
    assert forall i :: 0 <= i < |added| ==> added[i] in added;
    TargetIsMissed(kept, m, added, target, n, k, marked);
  }

  lemma PartsOfCleanString(path: string)
    requires NoBackslash(path)
    ensures forall k :: 0 <= k < |Parse(path).parts| ==> NoBackslash(Parse(path).parts[k])
  {
    var split, parts := Split(path, '/'), Parse(path).parts;
    KeepRealSource(split);
    forall k | 0 <= k < |parts|
      ensures NoBackslash(parts[k])
    {
      assert parts[k] in parts;
      SplitAvoids(path, parts[k]);
    }
  }

  lemma SplitAvoids(path: string, part: string)
    requires NoBackslash(path) && part in Split(path, '/')
    ensures NoBackslash(part)
  {
    var j :| 0 <= j < |Split(path, '/')| && Split(path, '/')[j] == part;
    if HasBackslash(part) {
      SplitChars(path, '/', j, '\\');
    }
  }

  /** Reading an unclean rebased pattern leaves the target at an unclean component. */
  lemma UncleanRebaseMissesTarget(pattern: string, from: string, to: string, e: nat)
    requires IsAbsolute(from) && IsAbsolute(to) && !IsAbsolute(pattern)
    requires CommonLength(Meaning(from, pattern).parts, Normalized(Parse(to)).parts) <= e
    requires e < |Meaning(from, pattern).parts| && HasBackslash(Meaning(from, pattern).parts[e])
    ensures !(Meaning(from, pattern).parts[..e + 1] <= Meaning(to, Rebase(pattern, from, to)).parts)
  {
    RebasedHasNoBackslash(pattern, from, to);
    PartsOfCleanString(Rebase(pattern, from, to));
    CleanReadingMisses(to, Rebase(pattern, from, to), Meaning(from, pattern).parts, e);
  }

  lemma CleanReadingMisses(dir: string, pattern: string, target: seq<string>, e: nat)
    requires CommonLength(target, Normalized(Parse(dir)).parts) <= e < |target| && HasBackslash(target[e])
    requires forall i :: 0 <= i < |Parse(pattern).parts| ==> NoBackslash(Parse(pattern).parts[i])
    ensures !(target[..e + 1] <= Meaning(dir, pattern).parts)
  {
    var base := Normalized(Parse(dir)).parts;
    MeaningResolves(dir, pattern);
    CleanPartsMiss(if IsAbsolute(pattern) then [] else base, base, Parse(pattern).parts, target, e);
  }

  lemma CleanPartsMiss(kept: seq<string>, base: seq<string>, parts: seq<string>, target: seq<string>, e: nat)
    requires kept == [] || kept == base
    requires CommonLength(target, base) <= e < |target| && HasBackslash(target[e])
    requires forall i :: 0 <= i < |parts| ==> NoBackslash(parts[i])
    ensures !(target[..e + 1] <= Resolve(kept, parts))
  {
    ResolvingMissesTarget(kept, parts, target, CommonLength(target, base), e, HasBackslash);
  }

  lemma MeaningResolves(dir: string, pattern: string)
    ensures Meaning(dir, pattern).parts ==
            Resolve(if IsAbsolute(pattern) then [] else Normalized(Parse(dir)).parts, Parse(pattern).parts)
  {
    if !IsAbsolute(pattern) {
      MeaningInSteps(dir, pattern);
    }
  }

  lemma UncleanRebaseChangesMeaning(pattern: string, from: string, to: string)
    requires IsAbsolute(from) && IsAbsolute(to) && !IsAbsolute(pattern)
    requires !CleanTail(pattern, from, to)
    ensures Meaning(to, Rebase(pattern, from, to)) != Meaning(from, pattern)
  {
    var e := UncleanAt(pattern, from, to);
    UncleanRebaseMissesTarget(pattern, from, to, e);
  }

  /** The last unclean component of the target. */
  lemma UncleanAt(pattern: string, from: string, to: string) returns (e: nat)
    requires !CleanTail(pattern, from, to)
    ensures CommonLength(Meaning(from, pattern).parts, Normalized(Parse(to)).parts) <= e
    ensures e < |Meaning(from, pattern).parts| && HasBackslash(Meaning(from, pattern).parts[e])
    ensures forall i :: e < i < |Meaning(from, pattern).parts| ==> NoBackslash(Meaning(from, pattern).parts[i])
  {
    var target := Meaning(from, pattern).parts;
    var n := CommonLength(target, Normalized(Parse(to)).parts);
    var k :| 0 <= k < |target[n..]| && HasBackslash(target[n..][k]);
    e := LastMarkedFrom(target, n, k, HasBackslash);
  }

  lemma LastMarkedFrom<T>(s: seq<T>, n: nat, k: nat, marked: T -> bool) returns (e: nat)
    requires n + k < |s| && marked(s[n..][k])
    ensures n <= e < |s| && marked(s[e]) && forall i :: e < i < |s| ==> !marked(s[i])
  {
    e := LastMarked(s, n + k, marked);
  }

  lemma {:induction false} LastMarked<T>(s: seq<T>, some: nat, marked: T -> bool) returns (e: nat)
    requires some < |s| && marked(s[some])
    ensures some <= e < |s| && marked(s[e]) && forall i :: e < i < |s| ==> !marked(s[i])
    decreases |s|
  {
    var last := |s| - 1;
    if marked(s[last]) {
      e := last;
    } else {
      e := LastMarked(s[..last], some, marked);
    }
  }

  /** Rebasing between absolute directories keeps what a relative pattern stands
      for exactly when no component that has to be rendered holds a backslash. */
  lemma RebasePreservesMeaning(pattern: string, from: string, to: string)
    requires IsAbsolute(from) && IsAbsolute(to) && !IsAbsolute(pattern)
    ensures Meaning(to, Rebase(pattern, from, to)) == Meaning(from, pattern) <==> CleanTail(pattern, from, to)
  {
    if CleanTail(pattern, from, to) {
      CleanRebaseKeepsMeaning(pattern, from, to);
    } else {
      UncleanRebaseChangesMeaning(pattern, from, to);
    }
  }

  /** One file name with a backslash is enough. */
  lemma BackslashPatternChangesMeaning()
    ensures Meaning("/", Rebase("a\\b", "/", "/")) != Meaning("/", "a\\b")
  {
    SplitWhole("a\\b", '/');
    SplitAtFirst("", '/', "");
    assert "" + ['/'] + "" == "/";
    assert Parse("/").parts == [] && Parse("a\\b").parts == ["a\\b"];
    assert Meaning("/", "a\\b").parts == ["a\\b"];
    assert Tail("a\\b", "/", "/") == ["a\\b"];
    assert "a\\b"[1] == '\\';
    UncleanRebaseChangesMeaning("a\\b", "/", "/");
  }

  /** Rebasing in two steps is rebasing in one. */
  lemma RebaseComposes(pattern: string, a: string, b: string, c: string)
    requires IsAbsolute(a) && IsAbsolute(b) && CleanTail(pattern, a, b)
    ensures Rebase(Rebase(pattern, a, b), b, c) == Rebase(pattern, a, c)
  {
    if !IsAbsolute(pattern) {
      CleanRebaseKeepsMeaning(pattern, a, b);
    }
  }

  /** The directory with the given components. */
  lemma DirectoryOf(parts: seq<string>) returns (dir: string)
    requires parts != [] && AllPlain(parts) && ".." !in parts
    ensures IsAbsolute(dir) && Normalized(Parse(dir)) == Path(true, parts)
  {
    dir := "" + ['/'] + Join(parts, '/');
    SplitAtFirst("", '/', Join(parts, '/'));
    SplitJoin(parts, '/');
    assert KeepReal([""] + parts) == KeepReal(parts) by {
      assert ([""] + parts)[1..] == parts;
    }
    KeepRealOfReal(parts);
    ResolveNames([], parts);
    assert [] + parts == parts;
  }

  /** A rendering that starts with a parent step still does when it is read again. */
  lemma ParentStepIsRead(rest: seq<string>)
    ensures ".." in Parse(ReplaceChar(Join([".."] + rest, '/'), '\\', '/')).parts
  {
    var s := Join([".."] + rest, '/');
    var r := ReplaceChar(s, '\\', '/');
    if rest == [] {
      ReplaceCharAbsent(s, '\\', '/');
      SplitWhole("..", '/');
      assert r == "..";
    } else {
      assert ([".."] + rest)[1..] == rest;
      assert r == ".." + ['/'] + r[3..];
      SplitAtFirst("..", '/', r[3..]);
    }
    assert KeepReal(Split(r, '/'))[0] == "..";
  }

  /** Rebasing to a directory above the target goes down only. */
  lemma GoingDownOnly(pattern: string, from: string, to: string, end: nat)
    requires IsAbsolute(from) && IsAbsolute(to) && !IsAbsolute(pattern)
    requires end <= |Meaning(from, pattern).parts|
    requires Normalized(Parse(to)).parts == Meaning(from, pattern).parts[..end]
    requires forall i :: end <= i < |Meaning(from, pattern).parts| ==> NoBackslash(Meaning(from, pattern).parts[i])
    ensures !IsAbsolute(Rebase(pattern, from, to)) && ".." !in Parse(Rebase(pattern, from, to)).parts
  {
    var target := Meaning(from, pattern).parts;
    PrefixIsShared(target, end);
    CleanRebaseIsRendered(pattern, from, to);
    MeaningIsPlain(from, pattern);
    assert Steps(pattern, from, to) == target[end..];
  }

  /** Rebasing to a directory that is not above the target starts going up. */
  lemma GoingUpFirst(pattern: string, from: string, to: string)
    requires IsAbsolute(from) && IsAbsolute(to) && !IsAbsolute(pattern)
    requires !(Normalized(Parse(to)).parts <= Meaning(from, pattern).parts)
    ensures ".." in Parse(Rebase(pattern, from, to)).parts
  {
    var steps := Steps(pattern, from, to);
    StepsStartUp(pattern, from, to);
    RebaseRendersSteps(pattern, from, to);
    ParentStepIsRead(steps[1..]);
    assert steps == [".."] + steps[1..];
  }

  lemma StepsStartUp(pattern: string, from: string, to: string)
    requires !(Normalized(Parse(to)).parts <= Meaning(from, pattern).parts)
    ensures Steps(pattern, from, to) != [] && Steps(pattern, from, to)[0] == ".."
  {
    NotAbove(Meaning(from, pattern).parts, Normalized(Parse(to)).parts);
  }

  lemma NotAbove(target: seq<string>, base: seq<string>)
    requires !(base <= target)
    ensures CommonLength(target, base) < |base|
  {
    assert base[..|base|] == base;
    assert |base| <= |target| && target[..|base|] == base ==> base <= target;
  }

  lemma PrefixIsShared(s: seq<string>, n: nat)
    requires n <= |s|
    ensures CommonLength(s, s[..n]) == n
  {
    assert forall k :: 0 <= k < n ==> s[..n][k] == s[k];
  }

  /** Without backslashes in the pattern and its directory every rebase is clean. */
  lemma NoBackslashIsClean(pattern: string, from: string, to: string)
    requires NoBackslash(pattern) && NoBackslash(from)
    ensures CleanTail(pattern, from, to)
  {
    PartsOfCleanString(pattern);
    PartsOfCleanString(from);
    ConcatAll(Parse(from).parts, Parse(pattern).parts, NoBackslash);
    ResolveAll([], JoinPath(from, pattern).parts, NoBackslash);
  }

  lemma RebasedHasNoBackslash(pattern: string, from: string, to: string)
    requires !IsAbsolute(pattern)
    ensures NoBackslash(Rebase(pattern, from, to))
  {
  }

  // ----- Directory patterns -----

  predicate EndsWithSlash(s: string) {
    s != "" && s[|s| - 1] == '/'
  }

  /** A pattern that ends in a slash selects everything below that directory. */
  function ExpandPattern(pattern: string): string {
    var slashed := ReplaceChar(pattern, '\\', '/');
    if EndsWithSlash(slashed) then slashed + "**/*" else slashed
  }

  /** The last character of a rendering is that of its last component. */
  lemma {:induction false} JoinEnd(parts: seq<string>)
    requires parts != [] && AllPlain(parts)
    ensures Join(parts, '/') != ""
    ensures var last := parts[|parts| - 1]; Join(parts, '/')[|Join(parts, '/')| - 1] == last[|last| - 1]
  {
    if 1 < |parts| {
      JoinEnd(parts[1..]);
    }
  }

  predicate EndsWithBackslash(part: string) {
    part != "" && part[|part| - 1] == '\\'
  }

  lemma ExpandsAtSlash(pattern: string)
    requires NoBackslash(pattern)
    ensures ExpandPattern(pattern) == if EndsWithSlash(pattern) then pattern + "**/*" else pattern
  {
    ReplaceCharAbsent(pattern, '\\', '/');
  }

  lemma SlashedEnd(parts: seq<string>)
    requires AllPlain(parts)
    ensures EndsWithSlash(ReplaceChar(Join(parts, '/'), '\\', '/')) <==>
            parts != [] && EndsWithBackslash(parts[|parts| - 1])
  {
    if parts != [] {
      JoinEnd(parts);
      assert '/' !in parts[|parts| - 1];
    }
  }

  /** A rebased pattern is expanded exactly when its last component ends in a
      backslash. The slash that makes the declared form a directory pattern is
      lost otherwise. */
  lemma RebasedPatternExpands(pattern: string, from: string, to: string)
    requires IsAbsolute(from) && IsAbsolute(to) && !IsAbsolute(pattern)
    ensures ExpandPattern(Rebase(pattern, from, to)) == Rebase(pattern, from, to) <==>
            var steps := Steps(pattern, from, to);
            steps == [] || !EndsWithBackslash(steps[|steps| - 1])
  {
    RebaseRendersSteps(pattern, from, to);
    StepsArePlain(pattern, from, to);
    SlashedEnd(Steps(pattern, from, to));
    RebasedHasNoBackslash(pattern, from, to);
    ExpandsAtSlash(Rebase(pattern, from, to));
  }

  /** Rebasing `name/` within the root directory. */
  lemma RebaseInRoot(name: string)
    requires Plain(name) && name != ".."
    ensures Rebase(name + ['/'] + "", "/", "/") == ReplaceChar(name, '\\', '/')
  {
    SplitAtFirst("", '/', "");
    assert "" + ['/'] + "" == "/";
    assert Parse("/") == Path(true, []);
    SplitAtFirst(name, '/', "");
    assert Parse(name + ['/'] + "") == Path(false, [name]);
    ResolveNames([], [name]);
    assert [] + [name] == [name];
    assert Meaning("/", name + ['/'] + "") == Path(true, [name]);
    assert Relative(Path(true, [name]), Path(true, [])) == Path(false, [name]);
  }

  /** `a/` stops being expanded ... */
  lemma DirectorySlashIsLost()
    ensures ExpandPattern("a/") == "a/**/*" && ExpandPattern(Rebase("a/", "/", "/")) == "a"
  {
    assert "a" + ['/'] + "" == "a/" && "a/" + "**/*" == "a/**/*";
    RebaseInRoot("a");
    ReplaceCharAbsent("a", '\\', '/');
    ExpandsAtSlash("a");
    ExpandsAtSlash("a/");
  }

  /** ... while a backslash in front of the slash keeps it a directory pattern,
      as in `a\/`. */
  lemma BackslashKeepsExpansion(stem: string, pattern: string)
    requires Plain(stem) && NoBackslash(stem) && pattern == stem + ['\\', '/']
    ensures ExpandPattern(Rebase(pattern, "/", "/")) == stem + ['/'] + "**/*"
  {
    var name, slashed := stem + ['\\'], stem + ['/'];
    assert name[|stem|] == '\\' && name + ['/'] + "" == pattern;
    RebaseInRoot(name);
    assert ReplaceChar(name, '\\', '/') == slashed;
    ExpandsAtSlash(slashed);
  }

  lemma BackslashExample(stem: string, pattern: string)
    requires stem == "a" && pattern == "a\\/"
    ensures ExpandPattern(Rebase(pattern, "/", "/")) == stem + ['/'] + "**/*"
  {
    LetterIsPlain(stem);
    assert pattern == stem + ['\\', '/'];
    BackslashKeepsExpansion(stem, pattern);
  }

  lemma LetterIsPlain(s: string)
    requires |s| == 1 && s[0] != '.' && s[0] != '/' && s[0] != '\\'
    ensures Plain(s) && NoBackslash(s)
  {}
}
