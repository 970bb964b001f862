/** Rebasing along a whole chain of directories, as inheritance over several
    levels does. */
module TsconfigRebaseChains {
  import opened Sequences
  import opened Strings
  import opened TsconfigPaths

  /** The directory a pattern from `from` is read in after going down `dirs`, the
      nearest directory first. */
  function Reached(from: string, dirs: seq<string>): string {
    if dirs == [] then from else dirs[0]
  }

  /** `pattern`, declared in `from`, rebased step by step down to the first directory. */
  function RebaseDown(pattern: string, from: string, dirs: seq<string>): string
    decreases |dirs|
  {
    if dirs == [] then pattern
    else Rebase(RebaseDown(pattern, from, dirs[1..]), Reached(from, dirs[1..]), dirs[0])
  }

  ghost predicate AllAbsolute(dirs: seq<string>) {
    forall k :: 0 <= k < |dirs| ==> IsAbsolute(dirs[k])
  }

  /** No directory on the way leaves a component of the target to be rendered that
      holds a backslash. */
  ghost predicate CleanDown(pattern: string, from: string, dirs: seq<string>)
    decreases |dirs|
  {
    dirs == [] || (CleanTail(pattern, from, dirs[0]) && CleanDown(pattern, from, dirs[1..]))
  }

  // ----- What a rendering with backslashes is read as -----

  /** What one component is read as, once its backslashes separate. */
  function Cut(part: string): seq<string> {
    KeepReal(Split(ReplaceChar(part, '\\', '/'), '/'))
  }

  function Pieces(parts: seq<string>): seq<string> {
    if parts == [] then [] else Cut(parts[0]) + Pieces(parts[1..])
  }

  lemma {:induction false} RenderingIsPieces(parts: seq<string>)
    ensures Parse(ReplaceChar(Join(parts, '/'), '\\', '/')).parts == Pieces(parts)
  {
    if |parts| == 1 {
      assert parts[1..] == [];
      assert Pieces(parts) == Cut(parts[0]) + [];
    } else if 1 < |parts| {
      RenderingIsPieces(parts[1..]);
      var first, rest := ReplaceChar(parts[0], '\\', '/'), ReplaceChar(Join(parts[1..], '/'), '\\', '/');
      assert ReplaceChar(Join(parts, '/'), '\\', '/') == first + ['/'] + rest;
      SplitConcat(first, '/', rest);
      KeepRealConcat(Split(first, '/'), Split(rest, '/'));
    }
  }

  lemma {:induction false} PiecesConcat(a: seq<string>, b: seq<string>)
    ensures Pieces(a + b) == Pieces(a) + Pieces(b)
  {
    if a == [] {
      assert a + b == b;
    } else {
      PiecesConcat(a[1..], b);
      assert (a + b)[1..] == a[1..] + b;
      ConcatAssoc(Cut(a[0]), Pieces(a[1..]), Pieces(b));
    }
  }

  lemma {:induction false} PiecesOfUps(n: nat)
    ensures Pieces(Ups(n)) == Ups(n)
  {
    if 0 < n {
      PiecesOfUps(n - 1);
      CutOfUp();
      assert Ups(n)[1..] == Ups(n - 1) && Ups(n) == [".."] + Ups(n - 1);
    }
  }

  lemma CutOfUp()
    ensures Cut("..") == [".."]
  {
    ReplaceCharAbsent("..", '\\', '/');
    SplitWhole("..", '/');
    KeepRealOfReal([".."]);
  }

  // ----- A missed target stays missed -----

  /** Going up to a prefix and reading clean pieces keeps no more of the directory
      than that prefix. */
  lemma CleanPiecesMiss(kept: seq<string>, pieces: seq<string>, begun: seq<string>)
    requires begun != [] && HasBackslash(begun[|begun| - 1]) && !(begun <= kept)
    requires forall i :: 0 <= i < |pieces| ==> NoBackslash(pieces[i])
    ensures !(begun <= Resolve(kept, pieces))
  {
    var m, added := ResolveKeepsPrefix(kept, pieces);
    assert forall i :: 0 <= i < |added| ==> added[i] in added;
    KeptIsShorter(kept, m, added, begun);
  }

  lemma UpsFirst(base: seq<string>, n: nat, pieces: seq<string>)
    requires n <= |base|
    ensures Resolve(base, Ups(|base| - n) + pieces) == Resolve(base[..n], pieces)
  {
    ResolveConcat(base, Ups(|base| - n), pieces);
    ResolveUps(base, |base| - n);
  }

  lemma KeptIsShorter(kept: seq<string>, m: nat, added: seq<string>, begun: seq<string>)
    requires m <= |kept| && begun != [] && HasBackslash(begun[|begun| - 1])
    requires forall i :: 0 <= i < |added| ==> NoBackslash(added[i])
    ensures begun <= kept[..m] + added ==> begun <= kept
  {
    var reached, last := kept[..m] + added, |begun| - 1;
    if begun <= reached {
      assert reached[last] == begun[last] && forall i :: m <= i < |reached| ==> reached[i] == added[i - m];
      assert reached[..m] == kept[..m];
      PrefixOfPrefix(begun, kept, m);
    }
  }

  /** The pieces of a rebased pattern: parent steps, then clean pieces. */
  lemma RebasedPieces(pattern: string, from: string, to: string) returns (up: nat, pieces: seq<string>)
    requires IsAbsolute(from) && IsAbsolute(to) && !IsAbsolute(pattern)
    ensures up == |Normalized(Parse(to)).parts|
                  - CommonLength(Meaning(from, pattern).parts, Normalized(Parse(to)).parts)
    ensures Parse(Rebase(pattern, from, to)).parts == Ups(up) + pieces
    ensures forall i :: 0 <= i < |pieces| ==> NoBackslash(pieces[i])
  {
    up := |Normalized(Parse(to)).parts| - CommonLength(Meaning(from, pattern).parts, Normalized(Parse(to)).parts);
    pieces := Pieces(Tail(pattern, from, to));
    RebaseRendersSteps(pattern, from, to);
    UpsThenPieces(up, Tail(pattern, from, to));
    RebasedHasNoBackslash(pattern, from, to);
    PartsOfCleanString(Rebase(pattern, from, to));
    SuffixAvoids(Ups(up), pieces);
  }

  lemma UpsThenPieces(up: nat, tail: seq<string>)
    ensures Parse(ReplaceChar(Join(Ups(up) + tail, '/'), '\\', '/')).parts == Ups(up) + Pieces(tail)
  {
    RenderingIsPieces(Ups(up) + tail);
    PiecesConcat(Ups(up), tail);
    PiecesOfUps(up);
  }

  lemma SuffixAvoids(a: seq<string>, b: seq<string>)
    requires forall i :: 0 <= i < |a + b| ==> NoBackslash((a + b)[i])
    ensures forall i :: 0 <= i < |b| ==> NoBackslash(b[i])
  {
    assert forall i :: 0 <= i < |b| ==> b[i] == (a + b)[|a| + i];
  }

  /** Components that end in one with a backslash, and do not begin what the
      pattern means, do not begin what any rebase of it means. */
  lemma MissStays(pattern: string, from: string, to: string, begun: seq<string>)
    requires IsAbsolute(from) && IsAbsolute(to)
    requires begun != [] && HasBackslash(begun[|begun| - 1])
    requires !(begun <= Meaning(from, pattern).parts)
    ensures !(begun <= Meaning(to, Rebase(pattern, from, to)).parts)
  {
    if !IsAbsolute(pattern) {
      var up, pieces := RebasedPieces(pattern, from, to);
      var reached, base := Meaning(from, pattern).parts, Normalized(Parse(to)).parts;
      SharedPartMisses(reached, base, CommonLength(reached, base), begun);
      ReadingMisses(to, Rebase(pattern, from, to), CommonLength(reached, base), pieces, begun);
    }
  }

  lemma ReadingMisses(dir: string, rebased: string, n: nat, pieces: seq<string>, begun: seq<string>)
    requires begun != [] && HasBackslash(begun[|begun| - 1])
    requires forall i :: 0 <= i < |pieces| ==> NoBackslash(pieces[i])
    requires var base := Normalized(Parse(dir)).parts;
             && n <= |base| && Parse(rebased).parts == Ups(|base| - n) + pieces && !(begun <= base[..n])
    ensures !(begun <= Meaning(dir, rebased).parts)
  {
    var base := Normalized(Parse(dir)).parts;
    MeaningResolves(dir, rebased);
    if IsAbsolute(rebased) {
      CleanPiecesMiss([], Ups(|base| - n) + pieces, begun);
    } else {
      UpsFirst(base, n, pieces);
      CleanPiecesMiss(base[..n], pieces, begun);
    }
  }

  lemma SharedPartMisses(reached: seq<string>, base: seq<string>, n: nat, begun: seq<string>)
    requires n <= |reached| && n <= |base| && reached[..n] == base[..n] && !(begun <= reached)
    ensures !(begun <= base[..n])
  {
    PrefixOfPrefix(begun, reached, n);
  }

  lemma PrefixOfPrefix(begun: seq<string>, reached: seq<string>, n: nat)
    requires n <= |reached|
    ensures begun <= reached[..n] ==> begun <= reached
  {
    assert reached[..n] + reached[n..] == reached;
  }

  // ----- Whole chains -----

  lemma SameTail(p: string, from: string, q: string, via: string, to: string)
    requires Meaning(from, p) == Meaning(via, q)
    ensures CleanTail(p, from, to) <==> CleanTail(q, via, to)
  {
    assert Tail(p, from, to) == Tail(q, via, to);
  }

  lemma {:induction false} CleanDownMeans(pattern: string, from: string, dirs: seq<string>)
    requires IsAbsolute(from) && AllAbsolute(dirs) && !IsAbsolute(pattern) && CleanDown(pattern, from, dirs)
    ensures !IsAbsolute(RebaseDown(pattern, from, dirs))
    ensures Meaning(Reached(from, dirs), RebaseDown(pattern, from, dirs)) == Meaning(from, pattern)
    decreases |dirs|
  {
    if dirs != [] {
      var above, via := RebaseDown(pattern, from, dirs[1..]), Reached(from, dirs[1..]);
      CleanDownMeans(pattern, from, dirs[1..]);
      SameTail(pattern, from, above, via, dirs[0]);
      CleanRebaseKeepsMeaning(above, via, dirs[0]);
    }
  }

  /** `reached` leaves the target by its last component that holds a backslash. */
  ghost predicate LostAt(target: seq<string>, e: nat, reached: seq<string>) {
    && e < |target| && HasBackslash(target[e]) && !(target[..e + 1] <= reached)
    && forall i :: e < i < |target| ==> NoBackslash(target[i])
  }

  /** A chain that is not clean loses its target for good, at the last component
      that holds a backslash. */
  lemma {:induction false} UncleanDownMisses(pattern: string, from: string, dirs: seq<string>) returns (e: nat)
    requires IsAbsolute(from) && AllAbsolute(dirs) && !IsAbsolute(pattern) && !CleanDown(pattern, from, dirs)
    ensures LostAt(Meaning(from, pattern).parts, e,
                   Meaning(Reached(from, dirs), RebaseDown(pattern, from, dirs)).parts)
    decreases |dirs|
  {
    var above, via := RebaseDown(pattern, from, dirs[1..]), Reached(from, dirs[1..]);
    if CleanDown(pattern, from, dirs[1..]) {
      CleanDownMeans(pattern, from, dirs[1..]);
      SameTail(pattern, from, above, via, dirs[0]);
      e := FirstMiss(above, via, dirs[0]);
    } else {
      e := UncleanDownMisses(pattern, from, dirs[1..]);
      LaterMiss(above, via, dirs[0], Meaning(from, pattern).parts, e);
    }
  }

  lemma FirstMiss(pattern: string, from: string, to: string) returns (e: nat)
    requires IsAbsolute(from) && IsAbsolute(to) && !IsAbsolute(pattern) && !CleanTail(pattern, from, to)
    ensures LostAt(Meaning(from, pattern).parts, e, Meaning(to, Rebase(pattern, from, to)).parts)
  {
    e := UncleanAt(pattern, from, to);
    UncleanRebaseMissesTarget(pattern, from, to, e);
  }

  lemma LaterMiss(pattern: string, from: string, to: string, target: seq<string>, e: nat)
    requires IsAbsolute(from) && IsAbsolute(to) && LostAt(target, e, Meaning(from, pattern).parts)
    ensures LostAt(target, e, Meaning(to, Rebase(pattern, from, to)).parts)
  {
    MissStays(pattern, from, to, target[..e + 1]);
  }

  /** An inherited pattern still means what it meant where it was declared exactly
      when no directory on the way leaves a component with a backslash to render. */
  lemma RebaseDownKeepsMeaning(pattern: string, from: string, dirs: seq<string>)
    requires IsAbsolute(from) && AllAbsolute(dirs) && !IsAbsolute(pattern)
    ensures Meaning(Reached(from, dirs), RebaseDown(pattern, from, dirs)) == Meaning(from, pattern) <==>
            CleanDown(pattern, from, dirs)
  {
    if CleanDown(pattern, from, dirs) {
      CleanDownMeans(pattern, from, dirs);
    } else {
      var e := UncleanDownMisses(pattern, from, dirs);
    }
  }

  /** One more directory at the near end of a chain. */
  lemma StepDown(pattern: string, from: string, dirs: seq<string>, d: string)
    ensures RebaseDown(pattern, from, [d] + dirs) ==
            Rebase(RebaseDown(pattern, from, dirs), Reached(from, dirs), d)
  {
    assert ([d] + dirs)[1..] == dirs;
  }

  /** Rebasing down a chain and on to any directory is one rebase from the
      declaring directory exactly when the chain is clean. */
  lemma RebaseDownIsOneRebase(pattern: string, from: string, dirs: seq<string>)
    requires IsAbsolute(from) && AllAbsolute(dirs) && !IsAbsolute(pattern)
    ensures (forall d :: IsAbsolute(d) ==> RebaseDown(pattern, from, [d] + dirs) == Rebase(pattern, from, d)) <==>
            CleanDown(pattern, from, dirs)
  {
    if CleanDown(pattern, from, dirs) {
      forall d | IsAbsolute(d)
        ensures RebaseDown(pattern, from, [d] + dirs) == Rebase(pattern, from, d)
      {
        CleanDownIsOneRebase(pattern, from, dirs, d);
      }
    } else {
      var d := UncleanDownIsNoRebase(pattern, from, dirs);
    }
  }

  lemma CleanDownIsOneRebase(pattern: string, from: string, dirs: seq<string>, d: string)
    requires IsAbsolute(from) && AllAbsolute(dirs) && !IsAbsolute(pattern) && CleanDown(pattern, from, dirs)
    ensures RebaseDown(pattern, from, [d] + dirs) == Rebase(pattern, from, d)
  {
    CleanDownMeans(pattern, from, dirs);
    StepDown(pattern, from, dirs, d);
  }

  lemma UncleanDownIsNoRebase(pattern: string, from: string, dirs: seq<string>) returns (d: string)
    requires IsAbsolute(from) && AllAbsolute(dirs) && !IsAbsolute(pattern) && !CleanDown(pattern, from, dirs)
    ensures IsAbsolute(d) && RebaseDown(pattern, from, [d] + dirs) != Rebase(pattern, from, d)
  {
    var e := UncleanDownMisses(pattern, from, dirs);
    MeaningIsPlain(from, pattern);
    d := DirectoryOf(Meaning(from, pattern).parts[..e + 1]);
    GoingDownOnly(pattern, from, d, e + 1);
    StepDown(pattern, from, dirs, d);
    if !IsAbsolute(RebaseDown(pattern, from, dirs)) {
      GoingUpFirst(RebaseDown(pattern, from, dirs), Reached(from, dirs), d);
    }
  }

  /** Two steps are one, whatever the second directory, exactly when the first
      rebase renders no component with a backslash. */
  lemma RebaseComposesExactly(pattern: string, a: string, b: string)
    requires IsAbsolute(a) && IsAbsolute(b) && !IsAbsolute(pattern)
    ensures (forall c :: IsAbsolute(c) ==> Rebase(Rebase(pattern, a, b), b, c) == Rebase(pattern, a, c)) <==>
            CleanTail(pattern, a, b)
  {
    RebaseDownIsOneRebase(pattern, a, [b]);
    assert [b][1..] == [];
    assert RebaseDown(pattern, a, [b]) == Rebase(pattern, a, b);
    forall c
      ensures RebaseDown(pattern, a, [c] + [b]) == Rebase(Rebase(pattern, a, b), b, c)
    {
      StepDown(pattern, a, [b], c);
    }
  }
}
