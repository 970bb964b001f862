/** What a compiled tsconfig pattern selects below a directory, and what becomes of
    that when the pattern is inherited. */
module TsconfigPatterns {
  import opened Sequences
  import opened Strings
  import opened TsconfigPaths

  // ----- Globs -----

  /** The glob library: which patterns compile, and what they match. */
  datatype Glob = Glob(valid: string -> bool, matches: (string, string) -> bool)

  /** No character of `s` is a wildcard. */
  predicate Literal(s: string) {
    '*' !in s && '?' !in s && '[' !in s
  }

  const EVERYTHING := "**/*"

  /** A pattern without wildcards matches itself alone. */
  ghost predicate LiteralLaw(glob: Glob, p: string, relative: string) {
    Literal(p) ==> (glob.matches(p, relative) <==> relative == p)
  }

  /** A directory without wildcards in front of a pattern stands for itself. */
  ghost predicate DirectoryLaw(glob: Glob, p: string, q: string, relative: string) {
    Literal(p) && EndsWithSlash(p) ==>
      (glob.matches(p + q, relative) <==> p <= relative && glob.matches(q, relative[|p|..]))
  }

  ghost predicate Lawful(glob: Glob) {
    && (forall p, relative :: LiteralLaw(glob, p, relative))
    && (forall p, q, relative :: DirectoryLaw(glob, p, q, relative))
    && (forall relative :: glob.matches(EVERYTHING, relative))
  }

  /** A matcher that knows no other wildcard pattern: the laws can be met. */
  predicate MatchesPlainly(pattern: string, relative: string)
    decreases |pattern|
  {
    if pattern == EVERYTHING then true
    else if pattern == "" then relative == ""
    else
      && Literal(pattern[..1]) && relative != "" && pattern[0] == relative[0]
      && MatchesPlainly(pattern[1..], relative[1..])
  }

  lemma {:induction false} PlainlyBehind(p: string, q: string, relative: string)
    requires Literal(p)
    ensures MatchesPlainly(p + q, relative) <==> p <= relative && MatchesPlainly(q, relative[|p|..])
    decreases |p|
  {
    if p == "" {
      assert p + q == q && relative[0..] == relative;
    } else {
      assert (p + q)[0] == p[0] != EVERYTHING[0] && (p + q)[1..] == p[1..] + q && (p + q)[..1] == p[..1];
      if relative != "" && p[0] == relative[0] {
        PlainlyBehind(p[1..], q, relative[1..]);
        assert p <= relative <==> p[1..] <= relative[1..];
        assert |p| <= |relative| ==> relative[1..][|p| - 1..] == relative[|p|..];
      }
    }
  }

  lemma LawsCanBeMet()
    ensures Lawful(Glob(_ => true, MatchesPlainly))
  {
    var glob := Glob(_ => true, MatchesPlainly);
    forall p, relative
      ensures LiteralLaw(glob, p, relative)
    {
      if Literal(p) {
        PlainlyBehind(p, "", relative);
        assert p + "" == p;
      }
    }
    forall p, q, relative
      ensures DirectoryLaw(glob, p, q, relative)
    {
      if Literal(p) {
        PlainlyBehind(p, q, relative);
      }
    }
  }

  function LastSegment(relative: string): string {
    var segments := Split(relative, '/');
    segments[|segments| - 1]
  }

  /** A pattern without a slash is also tried on the file name alone. */
  predicate MatchesRelative(glob: Glob, pattern: string, relative: string) {
    || glob.matches(pattern, relative)
    || ('/' !in pattern && glob.matches(pattern, LastSegment(relative)))
  }

  /** The relative path of a file below a directory. */
  ghost predicate IsFileBelow(relative: string) {
    var segments := Split(relative, '/');
    forall k :: 0 <= k < |segments| ==> RealSegment(segments[k]) && segments[k] != ".."
  }

  // ----- Patterns that match nothing -----

  lemma LeadingSegment(first: string, rest: string)
    requires '/' !in first
    ensures Split(first + ['/'] + rest, '/')[0] == first
  {
    SplitAtFirst(first, '/', rest);
  }

  /** A pattern behind a literal first segment matches only behind that segment. */
  lemma LiteralSegmentLeads(glob: Glob, first: string, q: string, relative: string)
    requires Lawful(glob) && Literal(first) && '/' !in first
    requires MatchesRelative(glob, first + ['/'] + q, relative)
    ensures Split(relative, '/')[0] == first
  {
    var p := first + ['/'];
    assert first + ['/'] + q == p + q && (p + q)[|first|] == '/';
    assert DirectoryLaw(glob, p, q, relative);
    assert relative == first + ['/'] + relative[|p|..];
    LeadingSegment(first, relative[|p|..]);
  }

  lemma LiteralPatternSelects(glob: Glob, p: string, relative: string)
    requires Lawful(glob) && Literal(p)
    ensures MatchesRelative(glob, p, relative) <==> relative == p || ('/' !in p && LastSegment(relative) == p)
  {
    assert LiteralLaw(glob, p, relative) && LiteralLaw(glob, p, LastSegment(relative));
  }

  const PARENT := ".."

  /** `pattern` starts with a step to the parent directory. */
  ghost predicate GoesUp(pattern: string) {
    pattern == PARENT || exists q :: pattern == PARENT + ['/'] + q
  }

  lemma GoingUpSelectsNothing(glob: Glob, pattern: string, relative: string)
    requires Lawful(glob) && IsFileBelow(relative) && GoesUp(pattern)
    ensures !MatchesRelative(glob, pattern, relative)
  {
    if pattern == PARENT {
      LiteralPatternSelects(glob, PARENT, relative);
      SplitWhole(PARENT, '/');
      var segments := Split(relative, '/');
      assert segments[0] != PARENT && segments[|segments| - 1] != PARENT;
    } else if MatchesRelative(glob, pattern, relative) {
      var q :| pattern == PARENT + ['/'] + q;
      LiteralSegmentLeads(glob, PARENT, q, relative);
    }
  }

  lemma AbsoluteSelectsNothing(glob: Glob, pattern: string, relative: string)
    requires Lawful(glob) && IsFileBelow(relative) && IsAbsolute(pattern)
    ensures !MatchesRelative(glob, pattern, relative)
  {
    if MatchesRelative(glob, pattern, relative) {
      assert pattern == "" + ['/'] + pattern[1..];
      LiteralSegmentLeads(glob, "", pattern[1..], relative);
    }
  }

  lemma EmptySelectsNothing(glob: Glob, relative: string)
    requires Lawful(glob) && IsFileBelow(relative)
    ensures !MatchesRelative(glob, "", relative)
  {
    LiteralPatternSelects(glob, "", relative);
    assert Split("", '/')[0] == "";
  }

  /** A pattern behind `./` selects nothing in the config that declares it. */
  lemma DotSelectsNothing(glob: Glob, rest: string, relative: string)
    requires Lawful(glob) && IsFileBelow(relative)
    ensures !MatchesRelative(glob, ExpandPattern("." + ['/'] + rest), relative)
  {
    var q := ExpandingBehind(".", rest);
    if MatchesRelative(glob, "." + ['/'] + q, relative) {
      LiteralSegmentLeads(glob, ".", q, relative);
    }
  }

  // ----- What a rebased pattern selects -----

  lemma ExpandingSlashed(pattern: string)
    ensures ExpandPattern(ReplaceChar(pattern, '\\', '/')) == ExpandPattern(pattern)
  {
    ReplaceCharAbsent(ReplaceChar(pattern, '\\', '/'), '\\', '/');
  }

  /** Expansion does not touch what stands in front of a slash. */
  lemma ExpandingBehind(first: string, rest: string) returns (q: string)
    requires NoBackslash(first)
    ensures ExpandPattern(first + ['/'] + rest) == first + ['/'] + q
  {
    var slashed := ReplaceChar(first + ['/'] + rest, '\\', '/');
    q := ExpandPattern(first + ['/'] + rest)[|first| + 1..];
    assert slashed[..|first| + 1] == first + ['/'];
  }

  lemma StepsGoUp(steps: seq<string>)
    requires steps != [] && steps[0] == PARENT
    ensures GoesUp(ExpandPattern(ReplaceChar(Join(steps, '/'), '\\', '/')))
  {
    ExpandingSlashed(Join(steps, '/'));
    if |steps| == 1 {
      ReplaceCharAbsent(PARENT, '\\', '/');
    } else {
      var q := ExpandingBehind(PARENT, Join(steps[1..], '/'));
    }
  }

  function Base(dir: string): seq<string> {
    Normalized(Parse(dir)).parts
  }

  lemma RebasedUp(pattern: string, from: string, to: string)
    requires IsAbsolute(from) && IsAbsolute(to) && !IsAbsolute(pattern)
    requires !(Base(to) <= Meaning(from, pattern).parts)
    ensures GoesUp(ExpandPattern(Rebase(pattern, from, to)))
  {
    StepsStartUp(pattern, from, to);
    RebaseRendersSteps(pattern, from, to);
    StepsGoUp(Steps(pattern, from, to));
  }

  lemma RebasedDown(pattern: string, from: string, to: string)
    requires IsAbsolute(from) && IsAbsolute(to) && !IsAbsolute(pattern)
    requires Base(to) <= Meaning(from, pattern).parts
    ensures ExpandPattern(Rebase(pattern, from, to)) ==
            ExpandPattern(Join(Meaning(from, pattern).parts[|Base(to)|..], '/'))
  {
    StepsDown(pattern, from, to);
    RebaseRendersSteps(pattern, from, to);
    ExpandingSlashed(Join(Steps(pattern, from, to), '/'));
  }

  lemma StepsDown(pattern: string, from: string, to: string)
    requires Base(to) <= Meaning(from, pattern).parts
    ensures Steps(pattern, from, to) == Meaning(from, pattern).parts[|Base(to)|..]
  {
    var base, target := Base(to), Meaning(from, pattern).parts;
    assert base == target[..|base|];
    PrefixIsShared(target, |base|);
  }

  /** The target lies below the directory `base`, and what is left of it there, read
      as a pattern, matches. */
  ghost predicate SelectsBelow(glob: Glob, target: seq<string>, base: seq<string>, relative: string) {
    base < target && MatchesRelative(glob, ExpandPattern(Join(target[|base|..], '/')), relative)
  }

  /** A rebased pattern selects something only if its target lies below the directory
      it was rebased to, and then it selects what is left of the target there. */
  lemma RebasedPatternSelects(glob: Glob, pattern: string, from: string, to: string, relative: string)
    requires Lawful(glob) && IsFileBelow(relative)
    requires IsAbsolute(from) && IsAbsolute(to) && !IsAbsolute(pattern)
    ensures MatchesRelative(glob, ExpandPattern(Rebase(pattern, from, to)), relative) <==>
            SelectsBelow(glob, Meaning(from, pattern).parts, Base(to), relative)
  {
    var base, target := Base(to), Meaning(from, pattern).parts;
    if base <= target {
      RebasedDown(pattern, from, to);
      if base == target {
        assert target[|base|..] == [] && ExpandPattern("") == "";
        EmptySelectsNothing(glob, relative);
      }
    } else {
      RebasedUp(pattern, from, to);
      GoingUpSelectsNothing(glob, ExpandPattern(Rebase(pattern, from, to)), relative);
    }
  }

  // ----- Compared with the declaring config -----

  /** The components of a pattern or directory as one writes it: no `.`, `..`,
      doubled slash or backslash. */
  predicate Tidy(parts: seq<string>) {
    && parts != [] && AllPlain(parts) && ".." !in parts
    && forall k :: 0 <= k < |parts| ==> NoBackslash(parts[k])
  }

  lemma TidyPattern(parts: seq<string>, from: string)
    requires Tidy(parts) && IsAbsolute(from)
    ensures !IsAbsolute(Join(parts, '/')) && ExpandPattern(Join(parts, '/')) == Join(parts, '/')
    ensures Meaning(from, Join(parts, '/')).parts == Base(from) + parts
  {
    CleanJoin(parts);
    SlashedEnd(parts);
    MeaningInSteps(from, Join(parts, '/'));
    ResolveNames(Base(from), parts);
  }

  lemma TidySuffix(parts: seq<string>, n: nat)
    requires Tidy(parts) && n < |parts|
    ensures Tidy(parts[n..])
  {
  }

  /** A tidy pattern has a slash exactly when it has two components. */
  lemma TidySlash(parts: seq<string>)
    requires Tidy(parts)
    ensures '/' in Join(parts, '/') <==> 1 < |parts|
  {
    if 1 < |parts| {
      assert Join(parts, '/')[|parts[0]|] == '/';
    }
  }

  /** A file below `d`, in terms of the directory above. */
  function Within(d: seq<string>, relative: string): string {
    if d == [] then relative else Join(d, '/') + ['/'] + relative
  }

  /** A pattern that leads through literal directories selects only within them. */
  lemma PatternWithin(glob: Glob, d: seq<string>, q: string, relative: string)
    requires Lawful(glob) && d != [] && Literal(Join(d, '/'))
    ensures MatchesRelative(glob, Join(d, '/') + ['/'] + q, relative) <==>
            Join(d, '/') + ['/'] <= relative && glob.matches(q, relative[|Join(d, '/')| + 1..])
  {
    var p := Join(d, '/') + ['/'];
    assert p[|p| - 1] == '/' && p + q == Join(d, '/') + ['/'] + q && (p + q)[|p| - 1] == '/';
    assert DirectoryLaw(glob, p, q, relative);
  }

  ghost predicate SelectsInherited(glob: Glob, parts: seq<string>, from: string, to: string, relative: string) {
    MatchesRelative(glob, ExpandPattern(Rebase(Join(parts, '/'), from, to)), relative)
  }

  ghost predicate SelectsDeclared(glob: Glob, parts: seq<string>, relative: string) {
    MatchesRelative(glob, ExpandPattern(Join(parts, '/')), relative)
  }

  /** What is left of a tidy pattern below the directory it is inherited into. */
  lemma InheritedSelects(
    glob: Glob, parts: seq<string>, rest: seq<string>, from: string, to: string, relative: string)
    requires Lawful(glob) && IsFileBelow(relative) && Tidy(parts) && Tidy(rest)
    requires IsAbsolute(from) && IsAbsolute(to) && Base(from) + parts == Base(to) + rest
    ensures SelectsInherited(glob, parts, from, to, relative) <==> MatchesRelative(glob, Join(rest, '/'), relative)
  {
    TidyPattern(parts, from);
    TidyPattern(rest, to);
    RebasedPatternSelects(glob, Join(parts, '/'), from, to, relative);
    assert (Base(to) + rest)[|Base(to)|..] == rest;
  }

  lemma InheritedElsewhere(
    glob: Glob, parts: seq<string>, from: string, to: string, relative: string)
    requires Lawful(glob) && IsFileBelow(relative) && Tidy(parts) && IsAbsolute(from) && IsAbsolute(to)
    requires !(Base(to) < Base(from) + parts)
    ensures !SelectsInherited(glob, parts, from, to, relative)
  {
    TidyPattern(parts, from);
    RebasedPatternSelects(glob, Join(parts, '/'), from, to, relative);
  }

  /** A pattern that leads through literal directories, on a file within them. */
  lemma DeclaredWithin(glob: Glob, d: seq<string>, rest: seq<string>, relative: string)
    requires Lawful(glob) && d != [] && rest != [] && Literal(Join(d, '/'))
    ensures MatchesRelative(glob, Join(d + rest, '/'), Within(d, relative)) <==>
            glob.matches(Join(rest, '/'), relative)
  {
    JoinConcat(d, '/', rest);
    PatternWithin(glob, d, Join(rest, '/'), Within(d, relative));
    assert Within(d, relative)[|Join(d, '/')| + 1..] == relative;
  }

  lemma DeclaredSelects(glob: Glob, d: seq<string>, rest: seq<string>, relative: string)
    requires Lawful(glob) && Tidy(d + rest) && d != [] && rest != [] && Literal(Join(d, '/'))
    ensures SelectsDeclared(glob, d + rest, Within(d, relative)) <==> glob.matches(Join(rest, '/'), relative)
  {
    TidyPattern(d + rest, "/");
    DeclaredWithin(glob, d, rest, relative);
  }

  /** The file name counts only when one component is left. */
  lemma TidyMatches(glob: Glob, rest: seq<string>, relative: string)
    requires Tidy(rest)
    ensures MatchesRelative(glob, Join(rest, '/'), relative) <==>
            || glob.matches(Join(rest, '/'), relative)
            || (|rest| == 1 && glob.matches(rest[0], LastSegment(relative)))
  {
    TidySlash(rest);
  }

  /** Inherited into `d` below the declaring directory, a pattern that leads through
      `d` selects the same files, and with one component left also those whose name
      alone matches. */
  lemma InheritedFromAbove(
    glob: Glob, d: seq<string>, rest: seq<string>, from: string, to: string, relative: string)
    requires Lawful(glob) && IsFileBelow(relative) && Tidy(d + rest) && Tidy(rest)
    requires IsAbsolute(from) && IsAbsolute(to) && Base(to) == Base(from) + d
    requires d != [] && Literal(Join(d, '/'))
    ensures SelectsDeclared(glob, d + rest, Within(d, relative)) <==> glob.matches(Join(rest, '/'), relative)
    ensures SelectsInherited(glob, d + rest, from, to, relative) <==>
            || SelectsDeclared(glob, d + rest, Within(d, relative))
            || (|rest| == 1 && glob.matches(rest[0], LastSegment(relative)))
  {
    ConcatAssoc(Base(from), d, rest);
    InheritedSelects(glob, d + rest, rest, from, to, relative);
    DeclaredSelects(glob, d, rest, relative);
    TidyMatches(glob, rest, relative);
  }

  /** If it does not lead there, it selects nothing. */
  lemma InheritedPast(
    glob: Glob, parts: seq<string>, d: seq<string>, from: string, to: string, relative: string)
    requires Lawful(glob) && IsFileBelow(relative) && Tidy(parts)
    requires IsAbsolute(from) && IsAbsolute(to) && Base(to) == Base(from) + d && !(d < parts)
    ensures !SelectsInherited(glob, parts, from, to, relative)
  {
    PrefixUnder(Base(from), d, parts);
    InheritedElsewhere(glob, parts, from, to, relative);
  }

  lemma PrefixUnder<T>(base: seq<T>, d: seq<T>, parts: seq<T>)
    ensures base + d < base + parts <==> d < parts
  {
    if base + d <= base + parts {
      forall i | 0 <= i < |d|
        ensures d[i] == parts[i]
      {
        assert (base + d)[|base| + i] == (base + parts)[|base| + i];
      }
    }
  }

  /** Inherited into a directory above, a pattern selects only within the declaring
      directory, and there by its path alone, never by the file name. */
  lemma InheritedFromBelow(
    glob: Glob, parts: seq<string>, d: seq<string>, from: string, to: string, relative: string)
    requires Lawful(glob) && IsFileBelow(relative) && Tidy(parts) && Tidy(d + parts)
    requires IsAbsolute(from) && IsAbsolute(to) && Base(from) == Base(to) + d
    requires d != [] && Literal(Join(d, '/'))
    ensures SelectsInherited(glob, parts, from, to, relative) <==>
            Join(d, '/') + ['/'] <= relative && glob.matches(Join(parts, '/'), relative[|Join(d, '/')| + 1..])
  {
    ConcatAssoc(Base(to), d, parts);
    InheritedSelects(glob, parts, d + parts, from, to, relative);
    JoinConcat(d, '/', parts);
    PatternWithin(glob, d, Join(parts, '/'), relative);
  }

  /** Inherited within one directory, a pattern without `.`, `..` or doubled slashes
      is compiled to the same one, even when a backslash changes the path it names. */
  lemma InheritedAlongside(parts: seq<string>, from: string, to: string)
    requires AllPlain(parts) && ".." !in parts
    requires IsAbsolute(from) && IsAbsolute(to) && Base(from) == Base(to)
    ensures ExpandPattern(Rebase(Join(parts, '/'), from, to)) == ExpandPattern(Join(parts, '/'))
  {
    ParseRendered(parts);
    MeaningInSteps(from, Join(parts, '/'));
    ResolveNames(Base(from), parts);
    RebasedDown(Join(parts, '/'), from, to);
    assert (Base(to) + parts)[|Base(to)|..] == parts;
  }

  /** The inherited pattern selects below `d` what the declaring config selects there. */
  ghost predicate KeepsSelection(glob: Glob, parts: seq<string>, d: seq<string>, from: string, to: string) {
    forall relative :: IsFileBelow(relative) ==>
      (SelectsInherited(glob, parts, from, to, relative) <==> SelectsDeclared(glob, parts, Within(d, relative)))
  }

  /** Matching the file name alone adds nothing to matching the whole path. */
  ghost predicate NameAddsNothing(glob: Glob, pattern: string) {
    forall relative :: IsFileBelow(relative) && glob.matches(pattern, LastSegment(relative)) ==>
      glob.matches(pattern, relative)
  }

  ghost predicate SelectsNothingWithin(glob: Glob, parts: seq<string>, d: seq<string>) {
    forall relative :: IsFileBelow(relative) ==> !SelectsDeclared(glob, parts, Within(d, relative))
  }

  /** A pattern inherited into a directory below keeps what it selects there exactly
      when it leads through that directory and what is left has a second component, or
      matches no more by the file name alone; or when it does not lead there and
      selected nothing there in the first place. */
  lemma InheritedKeepsSelection(glob: Glob, parts: seq<string>, d: seq<string>, from: string, to: string)
    requires Lawful(glob) && Tidy(parts) && d != [] && Literal(Join(d, '/'))
    requires IsAbsolute(from) && IsAbsolute(to) && Base(to) == Base(from) + d
    ensures KeepsSelection(glob, parts, d, from, to) <==>
            if d < parts then |parts| > |d| + 1 || NameAddsNothing(glob, parts[|d|])
            else SelectsNothingWithin(glob, parts, d)
  {
    if d < parts {
      KeepsWithin(glob, parts, d, from, to);
    } else {
      KeepsPast(glob, parts, d, from, to);
    }
  }

  lemma KeepsPast(glob: Glob, parts: seq<string>, d: seq<string>, from: string, to: string)
    requires Lawful(glob) && Tidy(parts) && !(d < parts)
    requires IsAbsolute(from) && IsAbsolute(to) && Base(to) == Base(from) + d
    ensures KeepsSelection(glob, parts, d, from, to) <==> SelectsNothingWithin(glob, parts, d)
  {
    forall relative | IsFileBelow(relative)
      ensures !SelectsInherited(glob, parts, from, to, relative)
    {
      InheritedPast(glob, parts, d, from, to, relative);
    }
  }

  lemma KeepsWithin(glob: Glob, parts: seq<string>, d: seq<string>, from: string, to: string)
    requires Lawful(glob) && Tidy(parts) && d != [] && d < parts && Literal(Join(d, '/'))
    requires IsAbsolute(from) && IsAbsolute(to) && Base(to) == Base(from) + d
    ensures KeepsSelection(glob, parts, d, from, to) <==> |parts| > |d| + 1 || NameAddsNothing(glob, parts[|d|])
  {
    forall relative | IsFileBelow(relative)
      ensures |parts| == |d| + 1 ==>
                (SelectsDeclared(glob, parts, Within(d, relative)) <==> glob.matches(parts[|d|], relative))
      ensures SelectsInherited(glob, parts, from, to, relative) <==>
              || SelectsDeclared(glob, parts, Within(d, relative))
              || (|parts| == |d| + 1 && glob.matches(parts[|d|], LastSegment(relative)))
    {
      KeepsFile(glob, parts, d, parts[|d|..], from, to, relative);
    }
  }

  lemma KeepsFile(glob: Glob, parts: seq<string>, d: seq<string>, rest: seq<string>, from: string, to: string,
                  relative: string)
    requires Lawful(glob) && Tidy(parts) && d != [] && d < parts && Literal(Join(d, '/'))
    requires IsAbsolute(from) && IsAbsolute(to) && Base(to) == Base(from) + d
    requires IsFileBelow(relative) && rest == parts[|d|..]
    ensures |parts| == |d| + 1 ==>
              (SelectsDeclared(glob, parts, Within(d, relative)) <==> glob.matches(parts[|d|], relative))
    ensures SelectsInherited(glob, parts, from, to, relative) <==>
            || SelectsDeclared(glob, parts, Within(d, relative))
            || (|parts| == |d| + 1 && glob.matches(parts[|d|], LastSegment(relative)))
  {
    assert parts == d + rest && parts[|d|] == rest[0];
    TidySuffix(parts, |d|);
    InheritedFromAbove(glob, d, rest, from, to, relative);
  }

  // ----- Patterns without wildcards -----

  /** A directory without wildcards, such as an output directory, selects no file
      below it, except by a file name that repeats its own. */
  lemma LiteralDirectorySelects(glob: Glob, parts: seq<string>, relative: string)
    requires Lawful(glob) && Tidy(parts) && Literal(Join(parts, '/')) && IsFileBelow(relative)
    ensures SelectsDeclared(glob, parts, Within(parts, relative)) <==>
            |parts| == 1 && LastSegment(relative) == parts[0]
  {
    var root, whole := "/", Join(parts, '/');
    TidyPattern(parts, root);
    LiteralPatternSelects(glob, whole, whole + ['/'] + relative);
    TidySlash(parts);
    LastBelow(whole, relative);
  }

  lemma LastBelow(whole: string, relative: string)
    ensures LastSegment(whole + ['/'] + relative) == LastSegment(relative)
    ensures whole + ['/'] + relative != whole
  {
    SplitConcat(whole, '/', relative);
    assert |whole + ['/'] + relative| > |whole|;
  }

  /** Behind a slash it selects every file below. */
  lemma SlashedDirectorySelects(glob: Glob, parts: seq<string>, relative: string)
    requires Lawful(glob) && Tidy(parts) && Literal(Join(parts, '/'))
    ensures MatchesRelative(glob, ExpandPattern(Join(parts, '/') + ['/']), Within(parts, relative))
  {
    var slashed := Join(parts, '/') + ['/'];
    CleanJoin(parts);
    JoinAvoids(parts, '\\');
    ReplaceCharAbsent(slashed, '\\', '/');
    assert ExpandPattern(slashed) == slashed + EVERYTHING;
    PatternWithin(glob, parts, EVERYTHING, Within(parts, relative));
  }
}
