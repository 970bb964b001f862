/** Inheritance of source selections along tsconfig `extends` chains. */
module TsconfigInheritance {
  import opened Wrappers
  import opened TsconfigPaths
  import opened DepthFirstSearch
  import opened Sequences

  type Config = Node

  datatype ParsedField<+T> = Absent | Null | WrongType(message: string) | Present(value: T)

  datatype ParsedTsconfig = ParsedTsconfig(
    extendsField: ParsedField<string>,
    files: ParsedField<seq<string>>,
    includes: ParsedField<seq<string>>,
    excludes: ParsedField<seq<string>>,
    outDir: ParsedField<string>,
    declarationDir: ParsedField<string>,
    references: seq<string>,
    diagnostics: seq<string>)

  datatype ExtendsTarget = Unsupported | Missing | Unreadable | Found(config: Config)

  /** What the filesystem and the parser say; canonical paths throughout. */
  datatype Project = Project(
    parse: Config -> Option<ParsedTsconfig>,
    extendsTarget: (Config, string) -> ExtendsTarget,
    directory: Config -> string)

  datatype ConfigDiagnostic =
    | InvalidField(config: Config, message: string)
    | UnsupportedExtends(config: Config, specifier: string)
    | MissingExtends(config: Config, specifier: string)
    | ExtendsCycle(config: Config, target: Config)
    | InvalidPattern(config: Config, pattern: string)

  datatype Finding = MissingReference(config: Config, reference: string) | FromConfig(diagnostic: ConfigDiagnostic)

  /** `Cycle(c)` is the diagnostic for a cycle of project references through `c`. */
  type TsconfigDiagnostic = Report<Finding>

  datatype LoadError =
    | DepthExhausted
    | CountExhausted
    | Interrupted
    | Unparsable(config: Config)
    | BrokenLink(config: Config)

  // ----- Merging one config into its inherited selection -----

  datatype MergedSelection = MergedSelection(
    files: Option<seq<string>>,
    includes: seq<string>,
    excludes: seq<string>,
    invalidControllingField: bool,
    hasParent: bool)

  const EMPTY_SELECTION := MergedSelection(None, [], [], false, false)

  const DEFAULT_INCLUDE := ["**/*"]

  predicate IsInvalid<T>(field: ParsedField<T>) {
    !field.Present? && !field.Absent?
  }

  function RebaseAll(items: seq<string>, from: string, to: string): seq<string> {
    seq(|items|, k requires 0 <= k < |items| => Rebase(items[k], from, to))
  }

  function RebaseParent(parent: MergedSelection, parentDirectory: string, childDirectory: string): MergedSelection {
    parent.(
      files := if parent.files.None? then None
               else Some(RebaseAll(parent.files.value, parentDirectory, childDirectory)),
      includes := RebaseAll(parent.includes, parentDirectory, childDirectory),
      excludes := RebaseAll(parent.excludes, parentDirectory, childDirectory),
      hasParent := true)
  }

  function AppendNew(items: seq<string>, item: string): seq<string> {
    if item in items then items else items + [item]
  }

  function AppendExclusions(excludes: seq<string>, outDir: ParsedField<string>, declarationDir: ParsedField<string>)
    : seq<string>
  {
    var defaults := AppendNew(AppendNew(excludes, "**/node_modules"), "**/bower_components");
    var withOut := if outDir.Present? then AppendNew(defaults, outDir.value) else defaults;
    if declarationDir.Present? then AppendNew(withOut, declarationDir.value) else withOut
  }

  function MergeChild(inherited: MergedSelection, child: ParsedTsconfig): MergedSelection {
    var invalid := inherited.invalidControllingField || IsInvalid(child.files) || IsInvalid(child.includes);
    var files :=
      match child.files
      case Present(values) => Some(values)
      case Absent => inherited.files
      case _ => Some([]);
    if files.Some? && !IsInvalid(child.files) then
      MergedSelection(files, [], [], invalid, inherited.hasParent)
    else
      var includes :=
        match child.includes
        case Present(values) => values
        case Absent => if inherited.hasParent then inherited.includes else DEFAULT_INCLUDE
        case _ => [];
      var excludes :=
        match child.excludes
        case Present(values) => values
        case _ => if inherited.hasParent then inherited.excludes else [];
      MergedSelection(files, includes, AppendExclusions(excludes, child.outDir, child.declarationDir),
                      invalid, inherited.hasParent)
  }

  /** Merge a config into its parent's selection, if there is one, after
      rebasing that selection to the config's own directory. */
  function MergeSelection(child: ParsedTsconfig, parent: Option<(MergedSelection, string)>, childDirectory: string)
    : MergedSelection
  {
    match parent
    case Some((merged, directory)) => MergeChild(RebaseParent(merged, directory, childDirectory), child)
    case None => MergeChild(EMPTY_SELECTION, child)
  }

  // ----- The extends chain -----

  datatype Level = Level(dto: ParsedTsconfig, directory: string)

  /** The fold of `MergeChild` from the last ancestor down to the first level. */
  function Effective(levels: seq<Level>): MergedSelection
    requires levels != []
    decreases |levels|
  {
    if |levels| == 1 then MergeChild(EMPTY_SELECTION, levels[0].dto)
    else MergeChild(RebaseParent(Effective(levels[1..]), levels[1].directory, levels[0].directory), levels[0].dto)
  }

  predicate Readable(project: Project, config: Config) {
    var dto := project.parse(config);
    && dto.Some?
    && (dto.value.extendsField.Present? ==> !project.extendsTarget(config, dto.value.extendsField.value).Unreadable?)
  }

  function ExtendsParent(project: Project, config: Config): Option<Config>
    requires Readable(project, config)
  {
    var dto := project.parse(config).value;
    if !dto.extendsField.Present? then None
    else
      match project.extendsTarget(config, dto.extendsField.value)
      case Found(parent) => Some(parent)
      case _ => None
  }

  /** `configs` is the ancestor chain of its first config below the configs of
      `chain`: it follows the extends links, repeats nothing, and ends where
      there is no parent or the parent would close a cycle. */
  ghost predicate IsAncestry(project: Project, chain: seq<Config>, configs: seq<Config>) {
    && configs != [] && Distinct(chain + configs)
    && (forall k :: 0 <= k < |configs| ==> Readable(project, configs[k]))
    && (forall k :: 0 <= k < |configs| - 1 ==> ExtendsParent(project, configs[k]) == Some(configs[k + 1]))
    && var last := ExtendsParent(project, configs[|configs| - 1]);
       last.None? || last.value in chain + configs
  }

  function Levels(project: Project, configs: seq<Config>): seq<Level>
    requires forall k :: 0 <= k < |configs| ==> project.parse(configs[k]).Some?
  {
    seq(|configs|, k requires 0 <= k < |configs| =>
          Level(project.parse(configs[k]).value, project.directory(configs[k])))
  }

  function FieldDiagnostics(config: Config, messages: seq<string>): seq<ConfigDiagnostic> {
    seq(|messages|, k requires 0 <= k < |messages| => InvalidField(config, messages[k]))
  }

  /** What following the extends link of `config` reports, with `chain` above. */
  function LinkDiagnostics(project: Project, chain: seq<Config>, config: Config): seq<ConfigDiagnostic>
    requires Readable(project, config)
  {
    var dto := project.parse(config).value;
    if !dto.extendsField.Present? then []
    else
      match project.extendsTarget(config, dto.extendsField.value)
      case Unsupported => [UnsupportedExtends(config, dto.extendsField.value)]
      case Missing => [MissingExtends(config, dto.extendsField.value)]
      case Unreadable => []
      case Found(parent) => if parent in chain then [ExtendsCycle(config, parent)] else []
  }

  ghost function ChainDiagnostics(project: Project, chain: seq<Config>, configs: seq<Config>): seq<ConfigDiagnostic>
    requires forall k :: 0 <= k < |configs| ==> Readable(project, configs[k])
    decreases |configs|
  {
    if configs == [] then []
    else
      assert Readable(project, configs[0]);
      FieldDiagnostics(configs[0], project.parse(configs[0]).value.diagnostics)
      + LinkDiagnostics(project, chain + [configs[0]], configs[0])
      + ChainDiagnostics(project, chain + [configs[0]], configs[1..])
  }

  function Wrapped(diagnostics: seq<ConfigDiagnostic>): seq<TsconfigDiagnostic> {
    seq(|diagnostics|, k requires 0 <= k < |diagnostics| => Other(FromConfig(diagnostics[k])))
  }

  lemma WrappedConcat(a: seq<ConfigDiagnostic>, b: seq<ConfigDiagnostic>)
    ensures Wrapped(a + b) == Wrapped(a) + Wrapped(b)
  {
  }

  /** The extends link of `config`, if it has one, leads to what the answer says. */
  ghost predicate LinkLeads(project: Project, config: Config, answer: ExtendsTarget) {
    && project.parse(config).Some? && project.parse(config).value.extendsField.Present?
    && project.extendsTarget(config, project.parse(config).value.extendsField.value) == answer
  }

  /** The chain, config by config: each link leads to the next config, and that of
      the last one leads nowhere or back into the chain. */
  ghost predicate Links(project: Project, chain: seq<Config>, configs: seq<Config>) {
    && configs != []
    && (forall k :: 0 <= k < |configs| ==> project.parse(configs[k]).Some? && configs[k] !in chain)
    && (forall k :: 0 <= k < |configs| - 1 ==> LinkLeads(project, configs[k], Found(configs[k + 1])))
    && (forall j, k :: 0 <= j < k < |configs| ==> configs[j] != configs[k])
    && !LinkLeads(project, configs[|configs| - 1], Unreadable)
    && forall target :: LinkLeads(project, configs[|configs| - 1], Found(target)) ==> target in chain + configs
  }

  /** What building the chain reports: invalid fields of any of its configs, and what
      is wrong with a link; a cycle exactly when the last link leads back. */
  ghost predicate ReportedOn(project: Project, chain: seq<Config>, configs: seq<Config>, d: ConfigDiagnostic)
    requires Links(project, chain, configs)
  {
    match d
    case InvalidField(c, message) => c in configs && message in project.parse(c).value.diagnostics
    case UnsupportedExtends(c, s) =>
      c in configs && project.parse(c).value.extendsField == Present(s) && project.extendsTarget(c, s) == Unsupported
    case MissingExtends(c, s) =>
      c in configs && project.parse(c).value.extendsField == Present(s) && project.extendsTarget(c, s) == Missing
    case ExtendsCycle(c, target) =>
      c == configs[|configs| - 1] && LinkLeads(project, c, Found(target))
    case InvalidPattern(_, _) => false
  }

  lemma AncestryLinks(project: Project, chain: seq<Config>, configs: seq<Config>)
    requires IsAncestry(project, chain, configs)
    ensures Links(project, chain, configs)
  {
    var all := chain + configs;
    forall k | 0 <= k < |configs|
      ensures configs[k] !in chain
    {
      assert all[|chain| + k] == configs[k];
      assert forall j :: 0 <= j < |chain| ==> all[j] == chain[j];
    }
    forall j, k | 0 <= j < k < |configs|
      ensures configs[j] != configs[k]
    {
      assert all[|chain| + j] == configs[j] && all[|chain| + k] == configs[k];
    }
    forall k | 0 <= k < |configs| - 1
      ensures LinkLeads(project, configs[k], Found(configs[k + 1]))
    {
      assert Readable(project, configs[k]) && ExtendsParent(project, configs[k]) == Some(configs[k + 1]);
    }
    var last := configs[|configs| - 1];
    assert Readable(project, last) && (ExtendsParent(project, last).Some? ==>
                                       ExtendsParent(project, last).value in all);
  }

  /** The first config reports its own fields, and its link only if it is the last. */
  lemma FirstReports(project: Project, chain: seq<Config>, configs: seq<Config>, d: ConfigDiagnostic)
    requires Links(project, chain, configs) && Readable(project, configs[0])
    ensures d in FieldDiagnostics(configs[0], project.parse(configs[0]).value.diagnostics)
            || d in LinkDiagnostics(project, chain + [configs[0]], configs[0]) <==>
            match d
            case InvalidField(c, message) => c == configs[0] && message in project.parse(c).value.diagnostics
            case UnsupportedExtends(c, s) => c == configs[0] && ReportedOn(project, chain, configs, d)
            case MissingExtends(c, s) => c == configs[0] && ReportedOn(project, chain, configs, d)
            case ExtendsCycle(c, target) => |configs| == 1 && ReportedOn(project, chain, configs, d)
            case InvalidPattern(_, _) => false
  {
    var own := FieldDiagnostics(configs[0], project.parse(configs[0]).value.diagnostics);
    if d.InvalidField? && d.config == configs[0] && d.message in project.parse(configs[0]).value.diagnostics {
      var k :| 0 <= k < |own| && project.parse(configs[0]).value.diagnostics[k] == d.message;
      assert own[k] == d;
    }
    if |configs| == 1 {
      assert chain + configs == chain + [configs[0]];
    } else {
      assert configs[1] !in chain && configs[0] != configs[1] && LinkLeads(project, configs[0], Found(configs[1]));
      assert LinkDiagnostics(project, chain + [configs[0]], configs[0]) == [];
    }
  }

  lemma {:induction false} ReportsWrittenOut(
    project: Project, chain: seq<Config>, configs: seq<Config>, d: ConfigDiagnostic)
    requires IsAncestry(project, chain, configs) && Links(project, chain, configs)
    ensures d in ChainDiagnostics(project, chain, configs) <==> ReportedOn(project, chain, configs, d)
    decreases |configs|
  {
    var below, rest := chain + [configs[0]], configs[1..];
    FirstReports(project, chain, configs, d);
    if rest != [] {
      assert below + rest == chain + configs;
      assert IsAncestry(project, below, rest);
      AncestryLinks(project, below, rest);
      ReportsWrittenOut(project, below, rest, d);
      assert configs == [configs[0]] + rest;
    }
  }

  /** Counters and diagnostics that one reference walk shares between all the
      configs it builds. */
  class Account {
    var configCount: nat
    var diagnostics: seq<TsconfigDiagnostic>

    constructor ()
      ensures configCount == 0 && diagnostics == []
    {
      configCount, diagnostics := 0, [];
    }
  }

  /** Some ancestor chain of `config`, below `chain` and with `count` configs charged
      so far, stays within both budgets. */
  ghost predicate ChainFits(
    project: Project, maxDepth: nat, maxConfigCount: nat, config: Config, chain: seq<Config>, count: nat)
  {
    exists configs ::
      && IsAncestry(project, chain, configs) && configs[0] == config
      && |chain| + |configs| <= maxDepth && count + |configs| <= maxConfigCount
  }

  class TsconfigTraversal {
    const project: Project
    const maxConfigCount: nat
    const maxDepth: nat
    const account: Account
    var extendsChain: seq<Config>

    constructor (project: Project, maxConfigCount: nat, maxDepth: nat, account: Account)
      ensures this.project == project && this.account == account
      ensures this.maxConfigCount == maxConfigCount && this.maxDepth == maxDepth && extendsChain == []
    {
      this.project, this.account := project, account;
      this.maxConfigCount, this.maxDepth, extendsChain := maxConfigCount, maxDepth, [];
    }

    /** Some ancestor chain of `config` fits into both budgets. */
    ghost predicate Fits(config: Config, chain: seq<Config>, count: nat) {
      ChainFits(project, maxDepth, maxConfigCount, config, chain, count)
    }

    /** Put `config` on the chain, charge it to the budgets, and read it. */
    method Enter(config: Config) returns (r: Result<ParsedTsconfig, LoadError>)
      modifies this, account
      ensures r.Success? ==>
                && project.parse(config) == Some(r.value)
                && extendsChain == old(extendsChain) + [config]
                && |extendsChain| <= maxDepth
                && account.configCount == old(account.configCount) + 1 <= maxConfigCount
                && account.diagnostics == old(account.diagnostics)
                                          + Wrapped(FieldDiagnostics(config, r.value.diagnostics))
      // The depth comes first and is not charged; the count is, before its check.
      ensures r.Failure? && !r.error.Interrupted? ==>
                r.error == (if |old(extendsChain)| >= maxDepth then DepthExhausted
                            else if old(account.configCount) >= maxConfigCount then CountExhausted
                            else Unparsable(config))
      ensures r.Failure? && r.error.Unparsable? ==> project.parse(config).None?
      ensures r.Failure? && r.error.DepthExhausted? ==>
                extendsChain == old(extendsChain) && account.configCount == old(account.configCount)
      ensures r.Failure? && !r.error.Interrupted? && !r.error.DepthExhausted? ==>
                extendsChain == old(extendsChain) + [config] && account.configCount == old(account.configCount) + 1
      ensures r.Failure? ==> account.diagnostics == old(account.diagnostics)
      ensures r.Failure? && !r.error.Interrupted? ==>
                !Fits(config, old(extendsChain), old(account.configCount))
    {
      var interrupted: bool := *;
      if interrupted {
        return Failure(Interrupted);
      }
      if |extendsChain| >= maxDepth {
        return Failure(DepthExhausted);
      }
      extendsChain := extendsChain + [config];
      account.configCount := account.configCount + 1;
      if account.configCount > maxConfigCount {
        return Failure(CountExhausted);
      }
      var overBudget: bool := *;
      if overBudget {
        return Failure(Interrupted);
      }
      var parsed := project.parse(config);
      if parsed.None? {
        return Failure(Unparsable(config));
      }
      account.diagnostics := account.diagnostics + Wrapped(FieldDiagnostics(config, parsed.value.diagnostics));
      r := Success(parsed.value);
    }

    /** Build the merged selection of `config`, resolving `extends` recursively.
        The deadline and the byte budget may interrupt at any config. */
    method BuildInner(config: Config)
      returns (r: Result<(MergedSelection, seq<string>), LoadError>, ghost configs: seq<Config>)
      requires Distinct(extendsChain) && config !in extendsChain
      modifies this, account
      ensures r.Success? ==>
                && IsAncestry(project, old(extendsChain), configs) && configs[0] == config
                && r.value.0 == Effective(Levels(project, configs))
                && r.value.1 == project.parse(config).value.references
                && extendsChain == old(extendsChain)
                && |extendsChain| + |configs| <= maxDepth
                && account.configCount == old(account.configCount) + |configs| <= maxConfigCount
                && account.diagnostics == old(account.diagnostics)
                                          + Wrapped(ChainDiagnostics(project, extendsChain, configs))
      // Written out: where each link leads, and what is reported.
      ensures r.Success? ==>
                && Links(project, old(extendsChain), configs)
                && (forall d :: d in ChainDiagnostics(project, old(extendsChain), configs) <==>
                      ReportedOn(project, old(extendsChain), configs, d))
                && |Levels(project, configs)| == |configs|
                && forall k :: 0 <= k < |configs| ==>
                     Levels(project, configs)[k] ==
                     Level(project.parse(configs[k]).value, project.directory(configs[k]))
      ensures r.Failure? && !r.error.Interrupted? ==>
                !Fits(config, old(extendsChain), old(account.configCount))
      ensures r.Failure? && !r.error.Interrupted? ==> forall other ::
                IsAncestry(project, old(extendsChain), other) && other[0] == config ==>
                  |old(extendsChain)| + |other| > maxDepth || old(account.configCount) + |other| > maxConfigCount
      ensures r.Failure? && r.error.Unparsable? ==> project.parse(r.error.config).None?
      ensures r.Failure? && r.error.BrokenLink? ==> LinkLeads(project, r.error.config, Unreadable)
      decreases maxDepth - |extendsChain|, 0
    {
      configs := [];
      var entered := Enter(config);
      if entered.Failure? {
        return Failure(entered.error), configs;
      }
      r, configs := BuildEntered(config, entered.value, old(extendsChain), old(account.diagnostics));
      if r.Success? {
        AncestryLinks(project, old(extendsChain), configs);
        forall d {
          ReportsWrittenOut(project, old(extendsChain), configs, d);
        }
      }
    }

    /** The rest of `BuildInner`, once `config` is on the chain and read. */
    method BuildEntered(
      config: Config, dto: ParsedTsconfig, ghost above: seq<Config>, ghost before: seq<TsconfigDiagnostic>)
      returns (r: Result<(MergedSelection, seq<string>), LoadError>, ghost configs: seq<Config>)
      requires extendsChain == above + [config] && Distinct(above) && config !in above
      requires |extendsChain| <= maxDepth && 0 < account.configCount <= maxConfigCount
      requires project.parse(config) == Some(dto)
      requires account.diagnostics == before + Wrapped(FieldDiagnostics(config, dto.diagnostics))
      modifies this, account
      ensures r.Success? ==>
                && IsAncestry(project, above, configs) && configs[0] == config
                && r.value.0 == Effective(Levels(project, configs)) && r.value.1 == dto.references
                && extendsChain == above
                && |extendsChain| + |configs| <= maxDepth
                && account.configCount == old(account.configCount) - 1 + |configs| <= maxConfigCount
                && account.diagnostics == before + Wrapped(ChainDiagnostics(project, above, configs))
      ensures r.Failure? && !r.error.Interrupted? ==> !Fits(config, above, old(account.configCount) - 1)
      ensures r.Failure? && r.error.Unparsable? ==> project.parse(r.error.config).None?
      ensures r.Failure? && r.error.BrokenLink? ==> LinkLeads(project, r.error.config, Unreadable)
      decreases maxDepth - |extendsChain|, 2
    {
      configs := [];
      assert extendsChain[..|extendsChain| - 1] == above;
      var parent, ancestors := ResolveParent(config, dto);
      if parent.Failure? {
        return Failure(parent.error), configs;
      }
      extendsChain := extendsChain[..|extendsChain| - 1];
      configs := [config] + ancestors;
      BuildStep(project, above, config, ancestors, before);
      r := Success((MergeSelection(dto, parent.value, project.directory(config)), dto.references));
    }

    /** Follow the extends link of `config`, the last config of the chain. */
    method ResolveParent(config: Config, dto: ParsedTsconfig)
      returns (r: Result<Option<(MergedSelection, string)>, LoadError>, ghost ancestors: seq<Config>)
      requires extendsChain != [] && extendsChain[|extendsChain| - 1] == config
      requires Distinct(extendsChain) && project.parse(config) == Some(dto) && 0 < account.configCount
      modifies this, account
      ensures r.Success? ==>
                && extendsChain == old(extendsChain)
                && account.configCount == old(account.configCount) + |ancestors|
                && (ancestors != [] ==> |extendsChain| + |ancestors| <= maxDepth
                                        && account.configCount <= maxConfigCount)
                && AncestorsAbove(project, extendsChain, config, ancestors)
                && r.value == Inherited(project, ancestors)
                && account.diagnostics == old(account.diagnostics)
                                          + Wrapped(LinkDiagnostics(project, extendsChain, config)
                                                    + ChainDiagnostics(project, extendsChain, ancestors))
      ensures r.Failure? && !r.error.Interrupted? ==>
                !Fits(config, old(extendsChain[..|extendsChain| - 1]), old(account.configCount) - 1)
      ensures r.Failure? && r.error.Unparsable? ==> project.parse(r.error.config).None?
      ensures r.Failure? && r.error.BrokenLink? ==> LinkLeads(project, r.error.config, Unreadable)
      decreases maxDepth - |extendsChain|, 1
    {
      ancestors := [];
      if !dto.extendsField.Present? {
        assert Wrapped([]) == [];
        return Success(None), ancestors;
      }
      var target := project.extendsTarget(config, dto.extendsField.value);
      match target
      case Unsupported =>
        var report := UnsupportedExtends(config, dto.extendsField.value);
        account.diagnostics := account.diagnostics + [Other(FromConfig(report))];
        r := Success(None);
      case Missing =>
        var report := MissingExtends(config, dto.extendsField.value);
        account.diagnostics := account.diagnostics + [Other(FromConfig(report))];
        r := Success(None);
      case Unreadable =>
        r := Failure(BrokenLink(config));
      case Found(parentConfig) =>
        if parentConfig in extendsChain {
          account.diagnostics := account.diagnostics + [Other(FromConfig(ExtendsCycle(config, parentConfig)))];
          r := Success(None);
        } else {
          var result;
          result, ancestors := BuildInner(parentConfig);
          if result.Failure? {
            ghost var above := old(extendsChain[..|extendsChain| - 1]);
            assert old(extendsChain) == above + [config];
            FitsAbove(config, above, old(account.configCount) - 1);
            return Failure(result.error), ancestors;
          }
          r := Success(Some((result.value.0, project.directory(parentConfig))));
        }
    }

    /** Where the extends link leads on, the chain of a config fits exactly when
        that of its parent does. */
    lemma FitsAbove(config: Config, chain: seq<Config>, count: nat)
      requires ExtendsLinkOpen(config, chain)
      ensures Fits(config, chain, count) <==> Fits(ExtendsParent(project, config).value, chain + [config], count + 1)
    {
      var parent, below := ExtendsParent(project, config).value, chain + [config];
      if Fits(config, chain, count) {
        var configs :| IsAncestry(project, chain, configs) && configs[0] == config
                    && |chain| + |configs| <= maxDepth && count + |configs| <= maxConfigCount;
        assert |configs| == 1 ==> configs == [config];
        assert below + configs[1..] == chain + configs;
        assert IsAncestry(project, below, configs[1..]);
      }
      if Fits(parent, below, count + 1) {
        var above :| IsAncestry(project, below, above) && above[0] == parent
                  && |below| + |above| <= maxDepth && count + 1 + |above| <= maxConfigCount;
        OneMoreLevel(config, chain, above);
      }
    }

    lemma OneMoreLevel(config: Config, chain: seq<Config>, above: seq<Config>)
      requires ExtendsLinkOpen(config, chain) && IsAncestry(project, chain + [config], above)
      requires above[0] == ExtendsParent(project, config).value
      ensures IsAncestry(project, chain, [config] + above)
    {
      assert chain + ([config] + above) == chain + [config] + above;
    }

    ghost predicate ExtendsLinkOpen(config: Config, chain: seq<Config>) {
      && Readable(project, config)
      && ExtendsParent(project, config).Some?
      && ExtendsParent(project, config).value !in chain + [config]
    }
  }

  /** `ancestors` is what the extends link of `config` contributes: nothing,
      or the ancestor chain of its parent. */
  ghost predicate AncestorsAbove(project: Project, chain: seq<Config>, config: Config, ancestors: seq<Config>) {
    && Readable(project, config)
    && var parent := ExtendsParent(project, config);
       if ancestors == [] then parent.None? || parent.value in chain
       else IsAncestry(project, chain, ancestors) && parent == Some(ancestors[0])
  }

  /** The selection inherited from `ancestors`, with the directory it is declared in. */
  function Inherited(project: Project, ancestors: seq<Config>): Option<(MergedSelection, string)>
    requires forall k :: 0 <= k < |ancestors| ==> project.parse(ancestors[k]).Some?
  {
    if ancestors == [] then None
    else Some((Effective(Levels(project, ancestors)), project.directory(ancestors[0])))
  }

  lemma DiagnosticsStep(project: Project, chain: seq<Config>, config: Config, ancestors: seq<Config>)
    requires Readable(project, config)
    requires forall k :: 0 <= k < |ancestors| ==> Readable(project, ancestors[k])
    ensures forall k :: 0 <= k < |[config] + ancestors| ==> Readable(project, ([config] + ancestors)[k])
    ensures Wrapped(ChainDiagnostics(project, chain, [config] + ancestors)) ==
            Wrapped(FieldDiagnostics(config, project.parse(config).value.diagnostics))
            + Wrapped(LinkDiagnostics(project, chain + [config], config)
                      + ChainDiagnostics(project, chain + [config], ancestors))
  {
    var own := FieldDiagnostics(config, project.parse(config).value.diagnostics);
    var link := LinkDiagnostics(project, chain + [config], config);
    var rest := ChainDiagnostics(project, chain + [config], ancestors);
    assert ([config] + ancestors)[1..] == ancestors;
    WrappedConcat(own, link + rest);
    assert own + link + rest == own + (link + rest);
  }

  lemma AncestryStep(project: Project, chain: seq<Config>, config: Config, ancestors: seq<Config>)
    requires Distinct(chain) && config !in chain
    requires AncestorsAbove(project, chain + [config], config, ancestors)
    ensures IsAncestry(project, chain, [config] + ancestors)
  {
    assert chain + ([config] + ancestors) == chain + [config] + ancestors;
    if ancestors == [] {
      assert [config] + ancestors == [config];
    }
  }

  /** A config on top of what its extends link contributes. */
  lemma BuildStep(
    project: Project, chain: seq<Config>, config: Config, ancestors: seq<Config>, before: seq<TsconfigDiagnostic>)
    requires Distinct(chain) && config !in chain
    requires AncestorsAbove(project, chain + [config], config, ancestors)
    ensures var configs, dto := [config] + ancestors, project.parse(config).value;
            && IsAncestry(project, chain, configs)
            && Effective(Levels(project, configs)) ==
               MergeSelection(dto, Inherited(project, ancestors), project.directory(config))
            && before + Wrapped(ChainDiagnostics(project, chain, configs)) ==
               before + Wrapped(FieldDiagnostics(config, dto.diagnostics))
               + Wrapped(LinkDiagnostics(project, chain + [config], config)
                         + ChainDiagnostics(project, chain + [config], ancestors))
  {
    AncestryStep(project, chain, config, ancestors);
    DiagnosticsStep(project, chain, config, ancestors);
    assert Levels(project, [config] + ancestors)[1..] == Levels(project, ancestors);
  }

  /** There is only one ancestor chain, so the result of a build is determined. */
  lemma {:induction false} AncestryIsUnique(project: Project, chain: seq<Config>, a: seq<Config>, b: seq<Config>)
    requires IsAncestry(project, chain, a) && IsAncestry(project, chain, b) && a[0] == b[0]
    ensures a == b
    decreases |a|
  {
    var below := chain + [a[0]];
    assert below + a[1..] == chain + a && below + b[1..] == chain + b;
    assert |a| == 1 ==> chain + a == below;
    assert |b| == 1 ==> chain + b == below;
    if 1 < |a| && 1 < |b| {
      assert IsAncestry(project, below, a[1..]) && IsAncestry(project, below, b[1..]);
      AncestryIsUnique(project, below, a[1..], b[1..]);
      assert a == [a[0]] + a[1..] && b == [b[0]] + b[1..];
    } else if 1 < |a| {
      ParentIsNew(project, chain, a);
    } else if 1 < |b| {
      ParentIsNew(project, chain, b);
    }
  }

  lemma ParentIsNew(project: Project, chain: seq<Config>, configs: seq<Config>)
    requires IsAncestry(project, chain, configs) && 1 < |configs|
    ensures ExtendsParent(project, configs[0]) == Some(configs[1]) && configs[1] !in chain + [configs[0]]
  {
    var all := chain + configs;
    assert all[|chain| + 1] == configs[1];
    forall k | 0 <= k <= |chain|
      ensures (chain + [configs[0]])[k] == all[k] != configs[1]
    {
    }
  }
}
