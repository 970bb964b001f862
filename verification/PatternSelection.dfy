/** Which sources a whole extends chain selects by its patterns, told from the
    patterns as they were declared. */
module TsconfigPatternSelections {
  import opened Wrappers
  import opened Strings
  import opened TsconfigPaths
  import opened TsconfigPatterns
  import opened TsconfigRebaseChains
  import opened TsconfigInheritance
  import opened TsconfigMembership

  // ----- One inherited pattern -----

  /** The rebases above the last one lose nothing. */
  ghost predicate CleanAbove(levels: seq<Level>, k: nat, item: string)
    requires k < |levels|
  {
    k <= 1 || CleanAt(levels[1..], k - 1, item)
  }

  /** `item`, declared at level `k`, selects `relative` below the first directory. */
  ghost predicate PatternSelects(glob: Glob, levels: seq<Level>, k: nat, item: string, relative: string)
    requires k < |levels|
  {
    if k == 0 then MatchesRelative(glob, ExpandPattern(item), relative)
    else
      && !IsAbsolute(item)
      && SelectsBelow(glob, Meaning(levels[k].directory, item).parts, Base(levels[0].directory), relative)
  }

  lemma ExpandedStaysAbsolute(pattern: string)
    requires IsAbsolute(pattern)
    ensures IsAbsolute(ExpandPattern(pattern))
  {
  }

  /** What an item means in the directory above the first one. */
  lemma MeansAbove(levels: seq<Level>, k: nat, item: string)
    requires 0 < k < |levels| && AbsoluteLevels(levels) && CleanAbove(levels, k, item) && !IsAbsolute(item)
    ensures var above := InheritedItem(levels[1..], k - 1, item);
            !IsAbsolute(above) && Meaning(levels[1].directory, above) == Meaning(levels[k].directory, item)
  {
    var rest := levels[1..];
    assert rest[k - 1] == levels[k] && rest[0] == levels[1];
    if k == 1 {
      InheritedStep(rest, 0, item);
    } else {
      assert AllAbsolute(Directories(rest[..k - 1]));
      CleanDownMeans(item, levels[k].directory, Directories(rest[..k - 1]));
      assert Reached(levels[k].directory, Directories(rest[..k - 1])) == levels[1].directory;
    }
  }

  lemma InheritedPatternSelects(glob: Glob, levels: seq<Level>, k: nat, item: string, relative: string)
    requires Lawful(glob) && IsFileBelow(relative)
    requires k < |levels| && AbsoluteLevels(levels) && CleanAbove(levels, k, item)
    ensures MatchesRelative(glob, ExpandPattern(InheritedItem(levels, k, item)), relative) <==>
            PatternSelects(glob, levels, k, item, relative)
  {
    InheritedStep(levels, k, item);
    if 0 < k {
      if IsAbsolute(item) {
        AbsoluteStays(item, levels[k].directory, Directories(levels[..k]));
        ExpandedStaysAbsolute(item);
        AbsoluteSelectsNothing(glob, ExpandPattern(item), relative);
      } else {
        MeansAbove(levels, k, item);
        RebasedPatternSelects(glob, InheritedItem(levels[1..], k - 1, item),
                              levels[1].directory, levels[0].directory, relative);
      }
    }
  }

  // ----- Lists of patterns -----

  ghost predicate SomeMatches(glob: Glob, patterns: seq<string>, relative: string) {
    exists k :: 0 <= k < |patterns| && MatchesRelative(glob, patterns[k], relative)
  }

  lemma {:induction false} KeepsAll(patterns: seq<string>, keep: string -> bool, drop: string -> bool)
    requires Keep(patterns, drop) == [] && forall p :: keep(p) <==> !drop(p)
    ensures Keep(patterns, keep) == patterns
  {
    if patterns != [] {
      KeepsAll(patterns[1..], keep, drop);
    }
  }

  lemma SomeExpanded(glob: Glob, items: seq<string>, relative: string)
    ensures SomeMatches(glob, ExpandAll(items), relative) <==>
            exists x :: x in items && MatchesRelative(glob, ExpandPattern(x), relative)
  {
    if x :| x in items && MatchesRelative(glob, ExpandPattern(x), relative) {
      var k :| 0 <= k < |items| && items[k] == x;
      assert ExpandAll(items)[k] == ExpandPattern(x);
    }
  }

  /** Once every pattern compiles, inclusion is matching some include and no exclude. */
  lemma CompiledIncludes(glob: Glob, merged: MergedSelection, relative: string)
    ensures IsIncluded(glob, CompilePatterns(glob, merged), relative) <==>
            && !merged.invalidControllingField && CompilePatterns(glob, merged).invalid == []
            && SomeMatches(glob, ExpandAll(merged.includes), relative)
            && !SomeMatches(glob, ExpandAll(merged.excludes), relative)
  {
    if CompilePatterns(glob, merged).invalid == [] {
      KeepsAll(ExpandAll(merged.includes), glob.valid, p => !glob.valid(p));
      KeepsAll(ExpandAll(merged.excludes), glob.valid, p => !glob.valid(p));
    }
  }

  // ----- Whole chains -----

  /** Some include pattern selects `relative`: one of the nearest config that mentions
      `include`, or the default of the farthest ancestor. */
  ghost predicate Included(glob: Glob, levels: seq<Level>, relative: string)
    requires levels != []
  {
    IncludedFrom(glob, levels, IncludeLevel(levels), relative)
  }

  ghost predicate IncludedFrom(glob: Glob, levels: seq<Level>, k: nat, relative: string)
    requires levels != [] && k <= |levels|
  {
    if k == |levels| then PatternSelects(glob, levels, |levels| - 1, EVERYTHING, relative)
    else
      && levels[k].dto.includes.Present?
      && exists x :: x in levels[k].dto.includes.value && PatternSelects(glob, levels, k, x, relative)
  }

  /** Some exclusion that reaches the first config selects `relative`. */
  ghost predicate Excluded(glob: Glob, levels: seq<Level>, relative: string)
    requires levels != []
  {
    exists k: nat, x ::
      k <= LastExcluding(levels) && x in Contributed(levels[k].dto) && PatternSelects(glob, levels, k, x, relative)
  }

  ghost predicate CleanIncludes(levels: seq<Level>)
    requires levels != []
  {
    CleanFrom(levels, IncludeLevel(levels))
  }

  ghost predicate CleanFrom(levels: seq<Level>, k: nat)
    requires levels != [] && k <= |levels|
  {
    if k == |levels| then CleanAbove(levels, |levels| - 1, EVERYTHING)
    else
      levels[k].dto.includes.Present? ==>
        forall x :: x in levels[k].dto.includes.value ==> CleanAbove(levels, k, x)
  }

  ghost predicate CleanExclusions(levels: seq<Level>)
    requires levels != []
  {
    forall k: nat, x :: k <= LastExcluding(levels) && x in Contributed(levels[k].dto) ==> CleanAbove(levels, k, x)
  }

  lemma DownMatches(glob: Glob, levels: seq<Level>, k: nat, items: seq<string>, relative: string)
    requires Lawful(glob) && IsFileBelow(relative) && k < |levels| && AbsoluteLevels(levels)
    requires forall x :: x in items ==> CleanAbove(levels, k, x)
    ensures SomeMatches(glob, ExpandAll(Down(levels, k, items)), relative) <==>
            exists x :: x in items && PatternSelects(glob, levels, k, x, relative)
  {
    SomeExpanded(glob, Down(levels, k, items), relative);
    forall x | x in items
      ensures InheritedItem(levels, k, x) in Down(levels, k, items)
      ensures MatchesRelative(glob, ExpandPattern(InheritedItem(levels, k, x)), relative) <==>
              PatternSelects(glob, levels, k, x, relative)
    {
      var i :| 0 <= i < |items| && items[i] == x;
      assert Down(levels, k, items)[i] == InheritedItem(levels, k, x);
      InheritedPatternSelects(glob, levels, k, x, relative);
    }
  }

  lemma IncludesSelect(glob: Glob, levels: seq<Level>, relative: string)
    requires Lawful(glob) && IsFileBelow(relative) && levels != [] && AbsoluteLevels(levels)
    requires FilesLevel(levels) == |levels| && CleanIncludes(levels)
    ensures SomeMatches(glob, ExpandAll(Effective(levels).includes), relative) <==> Included(glob, levels, relative)
  {
    NearestIncludeDecides(levels);
    FromSelects(glob, levels, IncludeLevel(levels), relative);
  }

  lemma FromSelects(glob: Glob, levels: seq<Level>, k: nat, relative: string)
    requires Lawful(glob) && IsFileBelow(relative) && levels != [] && AbsoluteLevels(levels)
    requires k <= |levels| && CleanFrom(levels, k)
    ensures SomeMatches(glob, ExpandAll(IncludesFrom(levels, k)), relative) <==> IncludedFrom(glob, levels, k, relative)
  {
    if k == |levels| {
      DownMatches(glob, levels, |levels| - 1, DEFAULT_INCLUDE, relative);
      assert EVERYTHING in DEFAULT_INCLUDE;
    } else if levels[k].dto.includes.Present? {
      DownMatches(glob, levels, k, levels[k].dto.includes.value, relative);
    }
  }

  ghost predicate ExcludedBy(glob: Glob, levels: seq<Level>, e: string, relative: string)
    requires levels != []
  {
    Excluding(levels, e) && MatchesRelative(glob, ExpandPattern(e), relative)
  }

  lemma DeclaredExcludes(glob: Glob, levels: seq<Level>, relative: string)
    requires Lawful(glob) && IsFileBelow(relative) && levels != [] && AbsoluteLevels(levels)
    requires CleanExclusions(levels)
    ensures Excluded(glob, levels, relative) <==> exists e :: ExcludedBy(glob, levels, e, relative)
  {
    if k: nat, x :| k <= LastExcluding(levels) && x in Contributed(levels[k].dto)
                    && PatternSelects(glob, levels, k, x, relative) {
      InheritedPatternSelects(glob, levels, k, x, relative);
      assert ComesFrom(levels, k, InheritedItem(levels, k, x));
      assert ExcludedBy(glob, levels, InheritedItem(levels, k, x), relative);
    }
    if e :| ExcludedBy(glob, levels, e, relative) {
      var k: nat :| k <= LastExcluding(levels) && ComesFrom(levels, k, e);
      var x :| x in Contributed(levels[k].dto) && e == InheritedItem(levels, k, x);
      InheritedPatternSelects(glob, levels, k, x, relative);
    }
  }

  lemma ExclusionsSelect(glob: Glob, levels: seq<Level>, relative: string)
    requires Lawful(glob) && IsFileBelow(relative) && levels != [] && AbsoluteLevels(levels)
    requires FilesLevel(levels) == |levels| && CleanExclusions(levels)
    ensures SomeMatches(glob, ExpandAll(Effective(levels).excludes), relative) <==> Excluded(glob, levels, relative)
  {
    SomeExpanded(glob, Effective(levels).excludes, relative);
    DeclaredExcludes(glob, levels, relative);
    forall e
      ensures e in Effective(levels).excludes && MatchesRelative(glob, ExpandPattern(e), relative) <==>
              ExcludedBy(glob, levels, e, relative)
    {
      ExclusionsAccumulate(levels, e);
    }
  }

  lemma ChainIncludes(glob: Glob, levels: seq<Level>, relative: string)
    requires Lawful(glob) && IsFileBelow(relative) && levels != [] && AbsoluteLevels(levels)
    requires FilesLevel(levels) == |levels| && CleanIncludes(levels) && CleanExclusions(levels)
    ensures IsIncluded(glob, CompilePatterns(glob, Effective(levels)), relative) <==>
            && !HasInvalidField(levels) && CompilePatterns(glob, Effective(levels)).invalid == []
            && Included(glob, levels, relative) && !Excluded(glob, levels, relative)
  {
    InvalidFieldIsRemembered(levels);
    CompiledIncludes(glob, Effective(levels), relative);
    IncludesSelect(glob, levels, relative);
    ExclusionsSelect(glob, levels, relative);
  }

  /** The directory walk yields relative paths of files, also when backslashes in
      their names are read as slashes. */
  ghost predicate WalksBelow(disk: Disk, base: string) {
    forall relative :: relative in disk.filesBelow(base) ==> IsFileBelow(ReplaceChar(relative, '\\', '/'))
  }

  /** The walk finds the source where a declared include selects it and no declared
      exclusion does. */
  ghost predicate FoundAt(disk: Disk, glob: Glob, levels: seq<Level>, source: string, relative: string)
    requires levels != []
  {
    && relative in disk.filesBelow(levels[0].directory)
    && SelectsFile(disk, levels[0].directory, relative, source)
    && Included(glob, levels, ReplaceChar(relative, '\\', '/'))
    && !Excluded(glob, levels, ReplaceChar(relative, '\\', '/'))
  }

  ghost predicate CompiledAt(
    disk: Disk, glob: Glob, patterns: PatternSet, base: string, source: string, relative: string)
  {
    && relative in disk.filesBelow(base) && SelectsFile(disk, base, relative, source)
    && IsIncluded(glob, patterns, ReplaceChar(relative, '\\', '/'))
  }

  lemma CompiledSelects(disk: Disk, glob: Glob, selection: CompiledSelection, base: string, source: string)
    requires selection.files.None?
    ensures Selects(disk, glob, selection, base, source) <==>
            exists relative :: CompiledAt(disk, glob, selection.patterns, base, source, relative)
  {
    if Selects(disk, glob, selection, base, source) {
      var relative :| relative in disk.filesBelow(base) && SelectsFile(disk, base, relative, source)
                   && IsIncluded(glob, selection.patterns, ReplaceChar(relative, '\\', '/'));
      assert CompiledAt(disk, glob, selection.patterns, base, source, relative);
    }
  }

  lemma CompiledIsFound(disk: Disk, glob: Glob, levels: seq<Level>, source: string, relative: string)
    requires Lawful(glob) && levels != [] && AbsoluteLevels(levels) && WalksBelow(disk, levels[0].directory)
    requires FilesLevel(levels) == |levels| && CleanIncludes(levels) && CleanExclusions(levels)
    ensures var patterns := CompilePatterns(glob, Effective(levels));
            CompiledAt(disk, glob, patterns, levels[0].directory, source, relative) <==>
            !HasInvalidField(levels) && patterns.invalid == [] && FoundAt(disk, glob, levels, source, relative)
  {
    if relative in disk.filesBelow(levels[0].directory) {
      ChainIncludes(glob, levels, ReplaceChar(relative, '\\', '/'));
    }
  }

  /** In pattern mode a chain selects a source exactly when no field is invalid, every
      pattern compiles, and the walk finds it where a declared include selects it and
      no declared exclusion does. */
  lemma PatternModeSelects(disk: Disk, glob: Glob, levels: seq<Level>, config: Config, source: string)
    requires Lawful(glob) && levels != [] && AbsoluteLevels(levels) && WalksBelow(disk, levels[0].directory)
    requires FilesLevel(levels) == |levels| && CleanIncludes(levels) && CleanExclusions(levels)
    ensures var selection := Compile(glob, Effective(levels), config);
            Selects(disk, glob, selection, levels[0].directory, source) <==>
            && !HasInvalidField(levels) && selection.patterns.invalid == []
            && exists relative :: FoundAt(disk, glob, levels, source, relative)
  {
    NearestFilesDecide(levels);
    CompiledSelects(disk, glob, Compile(glob, Effective(levels), config), levels[0].directory, source);
    forall relative
      ensures var patterns := CompilePatterns(glob, Effective(levels));
              CompiledAt(disk, glob, patterns, levels[0].directory, source, relative) <==>
              !HasInvalidField(levels) && patterns.invalid == [] && FoundAt(disk, glob, levels, source, relative)
    {
      CompiledIsFound(disk, glob, levels, source, relative);
    }
  }

  // ----- The default include pattern -----

  ghost predicate NoMembershipFields(levels: seq<Level>) {
    levels != [] && FilesLevel(levels) == |levels| && IncludeLevel(levels) == |levels|
  }

  /** Nothing in the names has a meaning in a pattern. */
  ghost predicate PlainlyNamed(parts: seq<string>) {
    Literal(Join(parts, '/')) && forall k :: 0 <= k < |parts| ==> NoBackslash(parts[k])
  }

  lemma BaseIsPlain(dir: string)
    ensures AllPlain(Base(dir)) && ".." !in Base(dir)
  {
    ParseIsPlain(dir);
    ResolveAll([], Parse(dir).parts, Plain);
    ResolveRemovesUps([], Parse(dir).parts);
  }

  lemma EverythingMeans(dir: string)
    requires IsAbsolute(dir)
    ensures !IsAbsolute(EVERYTHING) && Meaning(dir, EVERYTHING).parts == Base(dir) + ["**", "*"]
  {
    var parts := ["**", "*"];
    assert Join(parts, '/') == EVERYTHING by {
      assert parts[1..] == ["*"];
    }
    ParseRendered(parts);
    MeaningInSteps(dir, EVERYTHING);
    ResolveNames(Base(dir), parts);
  }

  /** What is left of the default pattern in a directory above: everything below `d`. */
  lemma EverythingWithin(glob: Glob, d: seq<string>, relative: string)
    requires Lawful(glob) && AllPlain(d) && ".." !in d && PlainlyNamed(d)
    ensures MatchesRelative(glob, ExpandPattern(Join(d + ["**", "*"], '/')), relative) <==>
            d == [] || Join(d, '/') + ['/'] <= relative
  {
    var parts := ["**", "*"];
    assert Join(parts, '/') == EVERYTHING by {
      assert parts[1..] == ["*"];
    }
    assert Tidy(d + parts);
    TidyPattern(d + parts, "/");
    if d == [] {
      assert d + parts == parts;
    } else {
      JoinConcat(d, '/', parts);
      PatternWithin(glob, d, EVERYTHING, relative);
    }
  }

  lemma EverythingInside(glob: Glob, here: seq<string>, d: seq<string>, relative: string)
    requires Lawful(glob) && AllPlain(d) && ".." !in d && PlainlyNamed(d)
    ensures SelectsBelow(glob, here + d + ["**", "*"], here, relative) <==>
            d == [] || Join(d, '/') + ['/'] <= relative
  {
    var target := here + d + ["**", "*"];
    assert target[|here|..] == d + ["**", "*"] && here < target;
    EverythingWithin(glob, d, relative);
  }

  lemma EverythingOutside(here: seq<string>, there: seq<string>)
    requires "**" !in here
    ensures here < there + ["**", "*"] ==> here <= there
  {
    var target := there + ["**", "*"];
    assert target[|there|] == "**" && target[..|there|] == there;
  }

  /** The default pattern of a chain selects everything in its farthest ancestor's
      directory, seen from the first config's, and nothing when that directory is not
      the first config's own or below it. */
  lemma DefaultIncludeSelects(glob: Glob, levels: seq<Level>, relative: string)
    requires Lawful(glob) && NoMembershipFields(levels) && AbsoluteLevels(levels) && IsFileBelow(relative)
    requires "**" !in Base(levels[0].directory)
    requires var here, there := Base(levels[0].directory), Base(levels[|levels| - 1].directory);
             here <= there ==> PlainlyNamed(there[|here|..])
    ensures var here, there := Base(levels[0].directory), Base(levels[|levels| - 1].directory);
            Included(glob, levels, relative) <==>
            here <= there && (here == there || Join(there[|here|..], '/') + ['/'] <= relative)
  {
    var last := levels[|levels| - 1].directory;
    var here, there := Base(levels[0].directory), Base(last);
    if |levels| == 1 {
      ExpandsAtSlash(EVERYTHING);
    } else {
      EverythingMeans(last);
      if here <= there {
        var d := there[|here|..];
        assert there == here + d;
        BaseIsPlain(last);
        EverythingInside(glob, here, d, relative);
      } else {
        EverythingOutside(here, there);
      }
    }
  }

  /** So a chain without `files` and `include` selects nothing at all when its
      farthest ancestor lies elsewhere. */
  lemma DefaultIncludeIsLost(disk: Disk, glob: Glob, levels: seq<Level>, config: Config, source: string)
    requires Lawful(glob) && NoMembershipFields(levels) && AbsoluteLevels(levels)
    requires WalksBelow(disk, levels[0].directory) && CleanAbove(levels, |levels| - 1, EVERYTHING)
    requires "**" !in Base(levels[0].directory)
    requires !(Base(levels[0].directory) <= Base(levels[|levels| - 1].directory))
    ensures !Selects(disk, glob, Compile(glob, Effective(levels), config), levels[0].directory, source)
  {
    NearestFilesDecide(levels);
    forall relative | relative in disk.filesBelow(levels[0].directory)
      ensures !IsIncluded(glob, CompilePatterns(glob, Effective(levels)), ReplaceChar(relative, '\\', '/'))
    {
      var slashed := ReplaceChar(relative, '\\', '/');
      DefaultIncludeSelects(glob, levels, slashed);
      IncludesSelect(glob, levels, slashed);
      CompiledIncludes(glob, Effective(levels), slashed);
    }
  }

  lemma BaseBelow(parent: string, name: string)
    requires IsAbsolute(parent) && Plain(name) && name != ".."
    ensures IsAbsolute(parent + ['/'] + name) && Base(parent + ['/'] + name) == Base(parent) + [name]
  {
    SplitConcat(parent, '/', name);
    SplitWhole(name, '/');
    KeepRealConcat(Split(parent, '/'), [name]);
    KeepRealOfReal([name]);
    ResolveConcat([], Parse(parent).parts, [name]);
    ResolveNames(Base(parent), [name]);
  }

  /** The usual way to share a config is such a case: a config that extends one in its
      parent directory, where neither has `files` or `include`, selects nothing. */
  lemma SharedConfigSelectsNothing(disk: Disk, glob: Glob, own: ParsedTsconfig, shared: ParsedTsconfig,
                                   parent: string, name: string, config: Config, source: string)
    requires Lawful(glob) && WalksBelow(disk, parent + ['/'] + name)
    requires own.files.Absent? && own.includes.Absent? && shared.files.Absent? && shared.includes.Absent?
    requires IsAbsolute(parent) && Plain(name) && name != ".." && name != "**" && "**" !in Base(parent)
    ensures var levels := [Level(own, parent + ['/'] + name), Level(shared, parent)];
            !Selects(disk, glob, Compile(glob, Effective(levels), config), parent + ['/'] + name, source)
  {
    var levels := [Level(own, parent + ['/'] + name), Level(shared, parent)];
    BaseBelow(parent, name);
    assert levels[1..] == [Level(shared, parent)] && levels[1..][1..] == [];
    assert NoMembershipFields(levels);
    DefaultIncludeIsLost(disk, glob, levels, config, source);
  }

  lemma BaseInRoot(name: string)
    requires Plain(name) && name != ".."
    ensures Base("" + ['/'] + name) == [name]
  {
    SplitAtFirst("", '/', name);
    SplitWhole(name, '/');
    assert KeepReal([""] + [name]) == KeepReal([name]);
    KeepRealOfReal([name]);
    ResolveNames([], [name]);
  }

  /** For example `/p/c` and `/p`. */
  lemma SharedConfigExample(disk: Disk, glob: Glob, own: ParsedTsconfig, shared: ParsedTsconfig,
                            config: Config, source: string)
    requires Lawful(glob) && WalksBelow(disk, "/p/c")
    requires own.files.Absent? && own.includes.Absent? && shared.files.Absent? && shared.includes.Absent?
    ensures var levels := [Level(own, "/p/c"), Level(shared, "/p")];
            !Selects(disk, glob, Compile(glob, Effective(levels), config), "/p/c", source)
  {
    assert "" + ['/'] + "p" == "/p" && "/p" + ['/'] + "c" == "/p/c";
    BaseInRoot("p");
    SharedConfigSelectsNothing(disk, glob, own, shared, "/p", "c", config, source);
  }
}
