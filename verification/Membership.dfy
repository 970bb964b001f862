/** What an effective tsconfig selection means for source membership: which of
    the configs on the extends chain decides, and when the selection closes. */
module TsconfigMembership {
  import opened Wrappers
  import opened Strings
  import opened TsconfigPaths
  import opened TsconfigPatterns
  import opened TsconfigInheritance
  import opened TsconfigRebaseChains

  // ----- Compiled selections -----

  datatype PatternSet = PatternSet(includes: seq<string>, excludes: seq<string>, invalid: seq<string>, failClosed: bool)

  datatype CompiledSelection = CompiledSelection(config: Config, files: Option<seq<string>>, patterns: PatternSet)

  function Keep(patterns: seq<string>, keep: string -> bool): seq<string> {
    if patterns == [] then []
    else (if keep(patterns[0]) then [patterns[0]] else []) + Keep(patterns[1..], keep)
  }

  function ExpandAll(patterns: seq<string>): seq<string> {
    seq(|patterns|, k requires 0 <= k < |patterns| => ExpandPattern(patterns[k]))
  }

  function CompilePatterns(glob: Glob, merged: MergedSelection): PatternSet {
    var includes, excludes := ExpandAll(merged.includes), ExpandAll(merged.excludes);
    PatternSet(
      Keep(includes, glob.valid),
      Keep(excludes, glob.valid),
      Keep(includes, p => !glob.valid(p)) + Keep(excludes, p => !glob.valid(p)),
      merged.invalidControllingField)
  }

  function Compile(glob: Glob, merged: MergedSelection, config: Config): CompiledSelection {
    CompiledSelection(config, merged.files, CompilePatterns(glob, merged))
  }

  function PatternDiagnostics(selection: CompiledSelection): seq<ConfigDiagnostic> {
    var invalid := selection.patterns.invalid;
    seq(|invalid|, k requires 0 <= k < |invalid| => InvalidPattern(selection.config, invalid[k]))
  }

  predicate IsIncluded(glob: Glob, patterns: PatternSet, relative: string) {
    && !patterns.failClosed && patterns.invalid == []
    && (exists k :: 0 <= k < |patterns.includes| && MatchesRelative(glob, patterns.includes[k], relative))
    && !exists k :: 0 <= k < |patterns.excludes| && MatchesRelative(glob, patterns.excludes[k], relative)
  }

  /** What the source boundary and the directory walk see: the accepted source a
      path leads to, if there is one, and the files below a directory. */
  datatype Disk = Disk(accept: Path -> Option<string>, filesBelow: string -> seq<string>)

  ghost predicate SelectsFile(disk: Disk, base: string, file: string, source: string) {
    disk.accept(JoinPath(base, file)) == Some(source)
  }

  /** A source is selected through an entry of the explicit list when there is one,
      and as an included file below the config's directory otherwise. */
  ghost predicate Selects(disk: Disk, glob: Glob, selection: CompiledSelection, base: string, source: string) {
    match selection.files
    case Some(files) => exists i :: 0 <= i < |files| && SelectsFile(disk, base, files[i], source)
    case None =>
      exists relative ::
        && relative in disk.filesBelow(base) && SelectsFile(disk, base, relative, source)
        && IsIncluded(glob, selection.patterns, ReplaceChar(relative, '\\', '/'))
  }

  // ----- Which level decides -----

  /** The first level whose `files` field is not absent; `|levels|` if none. */
  function FilesLevel(levels: seq<Level>): (k: nat)
    ensures k <= |levels|
    ensures forall j :: 0 <= j < k ==> levels[j].dto.files.Absent?
    ensures k < |levels| ==> !levels[k].dto.files.Absent?
  {
    if levels == [] || !levels[0].dto.files.Absent? then 0 else 1 + FilesLevel(levels[1..])
  }

  function IncludeLevel(levels: seq<Level>): (k: nat)
    ensures k <= |levels|
    ensures forall j :: 0 <= j < k ==> levels[j].dto.includes.Absent?
    ensures k < |levels| ==> !levels[k].dto.includes.Absent?
  {
    if levels == [] || !levels[0].dto.includes.Absent? then 0 else 1 + IncludeLevel(levels[1..])
  }

  function ExcludesLevel(levels: seq<Level>): (k: nat)
    ensures k <= |levels|
    ensures forall j :: 0 <= j < k ==> !levels[j].dto.excludes.Present?
    ensures k < |levels| ==> levels[k].dto.excludes.Present?
  {
    if levels == [] || levels[0].dto.excludes.Present? then 0 else 1 + ExcludesLevel(levels[1..])
  }

  function Directories(levels: seq<Level>): seq<string> {
    seq(|levels|, k requires 0 <= k < |levels| => levels[k].directory)
  }

  /** An item declared at level `k`, rebased level by level down to level 0. */
  function InheritedItem(levels: seq<Level>, k: nat, item: string): string
    requires k < |levels|
  {
    RebaseDown(item, levels[k].directory, Directories(levels[..k]))
  }

  function Down(levels: seq<Level>, k: nat, items: seq<string>): seq<string>
    requires k < |levels|
  {
    seq(|items|, i requires 0 <= i < |items| => InheritedItem(levels, k, items[i]))
  }

  /** The last of the rebases that bring an item down. */
  lemma InheritedStep(levels: seq<Level>, k: nat, item: string)
    requires k < |levels|
    ensures k == 0 ==> InheritedItem(levels, k, item) == item
    ensures 0 < k ==> InheritedItem(levels, k, item) ==
                      Rebase(InheritedItem(levels[1..], k - 1, item), levels[1].directory, levels[0].directory)
  {
    if 0 < k {
      var dirs := Directories(levels[..k]);
      assert dirs[1..] == Directories(levels[1..][..k - 1]);
      assert Reached(levels[k].directory, dirs[1..]) == levels[1].directory;
    }
  }

  lemma DownStep(levels: seq<Level>, k: nat, items: seq<string>)
    requires k < |levels|
    ensures k == 0 ==> Down(levels, k, items) == items
    ensures 0 < k ==> Down(levels, k, items) ==
                      RebaseAll(Down(levels[1..], k - 1, items), levels[1].directory, levels[0].directory)
  {
    forall i | 0 <= i < |items| {
      InheritedStep(levels, k, items[i]);
    }
  }

  ghost predicate HasInvalidField(levels: seq<Level>) {
    exists k :: 0 <= k < |levels| && (IsInvalid(levels[k].dto.files) || IsInvalid(levels[k].dto.includes))
  }

  /** An invalid membership field anywhere on the chain is remembered. */
  lemma {:induction false} InvalidFieldIsRemembered(levels: seq<Level>)
    requires levels != []
    ensures Effective(levels).invalidControllingField <==> HasInvalidField(levels)
    decreases |levels|
  {
    if 1 < |levels| {
      InvalidFieldIsRemembered(levels[1..]);
      if HasInvalidField(levels[1..]) {
        var rest := levels[1..];
        var k :| 0 <= k < |rest| && (IsInvalid(rest[k].dto.files) || IsInvalid(rest[k].dto.includes));
        assert levels[k + 1] == rest[k];
      }
      if HasInvalidField(levels) && !IsInvalid(levels[0].dto.files) && !IsInvalid(levels[0].dto.includes) {
        var k :| 0 <= k < |levels| && (IsInvalid(levels[k].dto.files) || IsInvalid(levels[k].dto.includes));
        assert levels[k] == levels[1..][k - 1];
      }
    }
  }

  /** The explicit file list is that of the nearest config that mentions `files`,
      and an invalid mention counts as an empty list. */
  lemma {:induction false} NearestFilesDecide(levels: seq<Level>)
    requires levels != []
    ensures Effective(levels).files ==
            var k := FilesLevel(levels);
            if k == |levels| then None
            else if levels[k].dto.files.Present? then Some(Down(levels, k, levels[k].dto.files.value))
            else Some([])
    decreases |levels|
  {
    if 1 < |levels| {
      NearestFilesDecide(levels[1..]);
      assert 0 < FilesLevel(levels) < |levels| ==> levels[FilesLevel(levels)] == levels[1..][FilesLevel(levels) - 1];
    }
    var k := FilesLevel(levels);
    if k < |levels| && levels[k].dto.files.Present? {
      DownStep(levels, k, levels[k].dto.files.value);
    }
  }

  /** In pattern mode: what one more level at the near end makes of the includes. */
  lemma IncludesStep(levels: seq<Level>)
    requires levels != [] && FilesLevel(levels) == |levels|
    ensures Effective(levels).includes ==
            match levels[0].dto.includes
            case Present(values) => values
            case Absent =>
              if |levels| == 1 then DEFAULT_INCLUDE
              else RebaseAll(Effective(levels[1..]).includes, levels[1].directory, levels[0].directory)
            case _ => []
  {
    NearestFilesDecide(levels);
    if 1 < |levels| {
      NearestFilesDecide(levels[1..]);
    }
  }

  /** What an ancestor's includes come down to. */
  function IncludesFrom(levels: seq<Level>, k: nat): seq<string>
    requires levels != [] && k <= |levels|
  {
    if k == |levels| then Down(levels, |levels| - 1, DEFAULT_INCLUDE)
    else if levels[k].dto.includes.Present? then Down(levels, k, levels[k].dto.includes.value)
    else []
  }

  lemma IncludesFromStep(levels: seq<Level>, k: nat)
    requires 1 < |levels| && 0 < k <= |levels|
    ensures IncludesFrom(levels, k) ==
            RebaseAll(IncludesFrom(levels[1..], k - 1), levels[1].directory, levels[0].directory)
  {
    if k == |levels| {
      DownStep(levels, |levels| - 1, DEFAULT_INCLUDE);
    } else {
      assert levels[1..][k - 1] == levels[k];
      if levels[k].dto.includes.Present? {
        DownStep(levels, k, levels[k].dto.includes.value);
      }
    }
  }

  /** In pattern mode the include patterns are those of the nearest config that
      mentions `include`; the default belongs to the farthest ancestor. */
  lemma {:induction false} NearestIncludeDecides(levels: seq<Level>)
    requires levels != [] && FilesLevel(levels) == |levels|
    ensures Effective(levels).includes == IncludesFrom(levels, IncludeLevel(levels))
    decreases |levels|
  {
    IncludesStep(levels);
    if !levels[0].dto.includes.Absent? {
      DownStep(levels, 0, if levels[0].dto.includes.Present? then levels[0].dto.includes.value else []);
    } else if |levels| == 1 {
      DownStep(levels, 0, DEFAULT_INCLUDE);
    } else {
      NearestIncludeDecides(levels[1..]);
      IncludesFromStep(levels, IncludeLevel(levels));
    }
  }

  // ----- Exclusions accumulate -----

  /** What a config adds to the exclusions: its own list, if it is a list, the
      package directories and its output directories. */
  function Contributed(dto: ParsedTsconfig): seq<string> {
    (if dto.excludes.Present? then dto.excludes.value else [])
    + ["**/node_modules", "**/bower_components"]
    + (if dto.outDir.Present? then [dto.outDir.value] else [])
    + (if dto.declarationDir.Present? then [dto.declarationDir.value] else [])
  }

  /** `e` comes from level `j`, rebased down to level 0. */
  ghost predicate ComesFrom(levels: seq<Level>, j: nat, e: string)
    requires j < |levels|
  {
    exists x :: x in Contributed(levels[j].dto) && e == InheritedItem(levels, j, x)
  }

  lemma AppendedExclusions(excludes: seq<string>, dto: ParsedTsconfig)
    ensures forall e :: e in AppendExclusions(if dto.excludes.Present? then dto.excludes.value else excludes,
                                              dto.outDir, dto.declarationDir) <==>
                        e in Contributed(dto) || (!dto.excludes.Present? && e in excludes)
  {
  }

  lemma OwnExclusions(levels: seq<Level>, e: string)
    requires levels != []
    ensures ComesFrom(levels, 0, e) <==> e in Contributed(levels[0].dto)
  {
    forall x
      ensures InheritedItem(levels, 0, x) == x
    {
      InheritedStep(levels, 0, x);
    }
  }

  function DownOne(levels: seq<Level>, item: string): string
    requires 1 < |levels|
  {
    Rebase(item, levels[1].directory, levels[0].directory)
  }

  lemma ComesDown(levels: seq<Level>, j: nat, above: string)
    requires j + 1 < |levels| && ComesFrom(levels[1..], j, above)
    ensures ComesFrom(levels, j + 1, DownOne(levels, above))
  {
    var x :| x in Contributed(levels[1..][j].dto) && above == InheritedItem(levels[1..], j, x);
    InheritedStep(levels, j + 1, x);
  }

  lemma CameDown(levels: seq<Level>, j: nat, e: string) returns (above: string)
    requires j + 1 < |levels| && ComesFrom(levels, j + 1, e)
    ensures ComesFrom(levels[1..], j, above) && e == DownOne(levels, above)
  {
    var x :| x in Contributed(levels[j + 1].dto) && e == InheritedItem(levels, j + 1, x);
    InheritedStep(levels, j + 1, x);
    above := InheritedItem(levels[1..], j, x);
  }

  lemma RebasedMember(items: seq<string>, from: string, to: string, e: string)
    ensures e in RebaseAll(items, from, to) <==> exists above :: above in items && e == Rebase(above, from, to)
  {
    if above :| above in items && e == Rebase(above, from, to) {
      var i :| 0 <= i < |items| && items[i] == above;
      assert RebaseAll(items, from, to)[i] == e;
    }
  }

  /** The last level whose exclusions reach level 0. */
  function LastExcluding(levels: seq<Level>): nat
    requires levels != []
  {
    if ExcludesLevel(levels) == |levels| then |levels| - 1 else ExcludesLevel(levels)
  }

  ghost predicate Excluding(levels: seq<Level>, e: string)
    requires levels != []
  {
    exists j: nat :: j <= LastExcluding(levels) && ComesFrom(levels, j, e)
  }

  /** In pattern mode the exclusions are those of every config down from the
      nearest one that declares a list of its own, or from the farthest ancestor
      if there is none. */
  lemma {:induction false} ExclusionsAccumulate(levels: seq<Level>, e: string)
    requires levels != [] && FilesLevel(levels) == |levels|
    ensures e in Effective(levels).excludes <==> Excluding(levels, e)
    decreases |levels|
  {
    NearestFilesDecide(levels);
    OwnExclusions(levels, e);
    if |levels| == 1 {
      AppendedExclusions([], levels[0].dto);
    } else {
      var above := Effective(levels[1..]).excludes;
      NearestFilesDecide(levels[1..]);
      AppendedExclusions(RebaseAll(above, levels[1].directory, levels[0].directory), levels[0].dto);
      forall x
        ensures x in above <==> Excluding(levels[1..], x)
      {
        ExclusionsAccumulate(levels[1..], x);
      }
      if !levels[0].dto.excludes.Present? {
        InheritedAccumulate(levels, above, e);
      }
    }
  }

  lemma InheritedAccumulate(levels: seq<Level>, above: seq<string>, e: string)
    requires 1 < |levels| && !levels[0].dto.excludes.Present?
    requires forall x :: x in above <==> Excluding(levels[1..], x)
    ensures e in RebaseAll(above, levels[1].directory, levels[0].directory) || ComesFrom(levels, 0, e) <==>
            Excluding(levels, e)
  {
    RebasedMember(above, levels[1].directory, levels[0].directory, e);
    if x :| x in above && e == DownOne(levels, x) {
      var j: nat :| j <= LastExcluding(levels[1..]) && ComesFrom(levels[1..], j, x);
      ComesDown(levels, j, x);
    }
    if j: nat :| 0 < j <= LastExcluding(levels) && ComesFrom(levels, j, e) {
      var x := CameDown(levels, j - 1, e);
      assert Excluding(levels[1..], x);
    }
  }

  // ----- What inherited items mean as paths -----

  ghost predicate AbsoluteLevels(levels: seq<Level>) {
    forall k :: 0 <= k < |levels| ==> IsAbsolute(levels[k].directory)
  }

  /** No directory on the way down leaves a component with a backslash to render. */
  ghost predicate CleanAt(levels: seq<Level>, k: nat, item: string)
    requires k < |levels|
  {
    IsAbsolute(item) || CleanDown(item, levels[k].directory, Directories(levels[..k]))
  }

  /** Read as a path, as the entries of `files` are, an inherited item leads where it
      led from its declaring config exactly when it is absolute or clean on the whole
      way down. What an inherited pattern selects is another matter. */
  lemma InheritedKeepsMeaning(levels: seq<Level>, k: nat, item: string)
    requires k < |levels| && AbsoluteLevels(levels)
    ensures Meaning(levels[0].directory, InheritedItem(levels, k, item)) == Meaning(levels[k].directory, item) <==>
            CleanAt(levels, k, item)
  {
    var dirs := Directories(levels[..k]);
    assert Reached(levels[k].directory, dirs) == levels[0].directory;
    if IsAbsolute(item) {
      AbsoluteStays(item, levels[k].directory, dirs);
    } else {
      RebaseDownKeepsMeaning(item, levels[k].directory, dirs);
    }
  }

  lemma {:induction false} AbsoluteStays(item: string, from: string, dirs: seq<string>)
    requires IsAbsolute(item)
    ensures RebaseDown(item, from, dirs) == item
    decreases |dirs|
  {
    if dirs != [] {
      AbsoluteStays(item, from, dirs[1..]);
    }
  }

  /** Entry by entry, the effective file list stands for the files its declaring
      config meant, exactly for the clean entries. */
  lemma InheritedFilesKeepTheirMeaning(levels: seq<Level>, i: nat)
    requires AbsoluteLevels(levels)
    requires var k := FilesLevel(levels);
             k < |levels| && levels[k].dto.files.Present? && i < |levels[k].dto.files.value|
    ensures var k, files := FilesLevel(levels), Effective(levels).files;
            && files.Some? && |files.value| == |levels[k].dto.files.value|
            && (Meaning(levels[0].directory, files.value[i]) ==
                Meaning(levels[k].directory, levels[k].dto.files.value[i]) <==>
                CleanAt(levels, k, levels[k].dto.files.value[i]))
  {
    var k := FilesLevel(levels);
    NearestFilesDecide(levels);
    InheritedKeepsMeaning(levels, k, levels[k].dto.files.value[i]);
  }

  // ----- Failing closed -----

  /** In pattern mode an invalid field anywhere on the chain closes the selection. */
  lemma InvalidFieldClosesPatternMode(disk: Disk, glob: Glob, levels: seq<Level>, config: Config, source: string)
    requires levels != [] && HasInvalidField(levels)
    ensures var selection := Compile(glob, Effective(levels), config);
            selection.files.None? ==> !Selects(disk, glob, selection, levels[0].directory, source)
  {
    InvalidFieldIsRemembered(levels);
  }

  /** But only in pattern mode: a chain with an invalid field still selects a
      source exactly when the nearest mention of `files` is a list and one of its
      entries, read in the first config's directory, leads to that source. */
  lemma InvalidChainSelectsExactly(disk: Disk, glob: Glob, levels: seq<Level>, config: Config, source: string)
    requires levels != [] && HasInvalidField(levels)
    ensures var selection := Compile(glob, Effective(levels), config);
            var k := FilesLevel(levels);
            Selects(disk, glob, selection, levels[0].directory, source) <==>
            && k < |levels| && levels[k].dto.files.Present?
            && exists i :: 0 <= i < |levels[k].dto.files.value|
                 && SelectsFile(disk, levels[0].directory,
                                InheritedItem(levels, k, levels[k].dto.files.value[i]), source)
  {
    var selection, k := Compile(glob, Effective(levels), config), FilesLevel(levels);
    InvalidFieldIsRemembered(levels);
    NearestFilesDecide(levels);
    if k < |levels| && levels[k].dto.files.Present? {
      var items := levels[k].dto.files.value;
      assert selection.files == Some(Down(levels, k, items));
      assert forall i :: 0 <= i < |items| ==> Down(levels, k, items)[i] == InheritedItem(levels, k, items[i]);
    }
  }

  /** A config with `"files": [file], "include": null` is such a chain: its invalid
      field does not keep it from selecting what the entry leads to. */
  lemma InvalidIncludeWithFilesSelects(
    disk: Disk, glob: Glob, directory: string, file: string, config: Config, source: string)
    ensures var dto := ParsedTsconfig(Absent, Present([file]), Null, Absent, Absent, Absent, [], []);
            var levels := [Level(dto, directory)];
            && HasInvalidField(levels)
            && (Selects(disk, glob, Compile(glob, Effective(levels), config), directory, source) <==>
                SelectsFile(disk, directory, file, source))
  {
    var dto := ParsedTsconfig(Absent, Present([file]), Null, Absent, Absent, Absent, [], []);
    var levels := [Level(dto, directory)];
    assert IsInvalid(levels[0].dto.includes);
    assert Effective(levels).files == Some([file]);
    assert [file][0] == file;
  }

  // ----- From the declaring config to the selected sources -----

  /** Accepting a path does not depend on `.` and `..` steps in it. */
  ghost predicate Lexical(disk: Disk) {
    forall path :: LexicalAt(disk, path)
  }

  ghost predicate LexicalAt(disk: Disk, path: Path) {
    disk.accept(path) == disk.accept(Normalized(path))
  }

  /** An inherited file list selects exactly the sources its declaring config meant. */
  lemma InheritedFilesSelect(disk: Disk, glob: Glob, levels: seq<Level>, config: Config, source: string)
    requires AbsoluteLevels(levels) && Lexical(disk)
    requires var k := FilesLevel(levels);
             && k < |levels| && levels[k].dto.files.Present?
             && forall i :: 0 <= i < |levels[k].dto.files.value| ==> CleanAt(levels, k, levels[k].dto.files.value[i])
    ensures var k := FilesLevel(levels);
            Selects(disk, glob, Compile(glob, Effective(levels), config), levels[0].directory, source) <==>
            exists i :: 0 <= i < |levels[k].dto.files.value|
              && SelectsFile(disk, levels[k].directory, levels[k].dto.files.value[i], source)
  {
    var k := FilesLevel(levels);
    var items, files := levels[k].dto.files.value, Effective(levels).files;
    NearestFilesDecide(levels);
    forall i | 0 <= i < |items|
      ensures SelectsFile(disk, levels[0].directory, files.value[i], source) <==>
              SelectsFile(disk, levels[k].directory, items[i], source)
    {
      InheritedFilesKeepTheirMeaning(levels, i);
      assert LexicalAt(disk, JoinPath(levels[0].directory, files.value[i]));
      assert LexicalAt(disk, JoinPath(levels[k].directory, items[i]));
    }
  }
}
