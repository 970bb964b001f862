/** The iterative walk over project references: an explicit stack of enter and
    exit items that refines the recursive depth-first search. */
module ReferenceWalk {
  import opened Wrappers
  import opened DepthFirstSearch
  import opened Sequences
  import opened TsconfigInheritance
  import opened TsconfigMembership
  import opened TsconfigPatterns

  /** Where a reference leads: the canonical config, or nowhere. */
  datatype ReferenceTarget = Existing(config: Config) | NotThere | NotReadable

  datatype World = World(project: Project, glob: Glob, resolve: (Config, string) -> ReferenceTarget)

  datatype Expansion = Expansion(selection: CompiledSelection, base: string)

  // ----- What the graph is made of -----

  /** The ancestor chain of a config, if its extends links can be followed. */
  ghost function AncestryOf(project: Project, config: Config): (configs: seq<Config>)
    ensures forall a :: IsAncestry(project, [], a) && a[0] == config ==> configs == a
    ensures forall k :: 0 <= k < |configs| ==> Readable(project, configs[k])
  {
    if exists a :: IsAncestry(project, [], a) && a[0] == config then
      var a :| IsAncestry(project, [], a) && a[0] == config;
      assert forall b :: IsAncestry(project, [], b) && b[0] == config ==> a == b by {
        forall b | IsAncestry(project, [], b) && b[0] == config {
          AncestryIsUnique(project, [], a, b);
        }
      }
      a
    else []
  }

  ghost function SelectionOf(world: World, config: Config): CompiledSelection {
    var configs := AncestryOf(world.project, config);
    var merged := if configs == [] then EMPTY_SELECTION else Effective(Levels(world.project, configs));
    Compile(world.glob, merged, config)
  }

  ghost function ConfigDiagnostics(world: World, config: Config): seq<ConfigDiagnostic> {
    ChainDiagnostics(world.project, [], AncestryOf(world.project, config))
    + PatternDiagnostics(SelectionOf(world, config))
  }

  function References(world: World, config: Config): seq<string> {
    match world.project.parse(config)
    case Some(dto) => dto.references
    case None => []
  }

  /** The existing targets among `references`, in order. */
  function ExistingTargets(world: World, config: Config, references: seq<string>): seq<Config> {
    if references == [] then []
    else
      var rest := ExistingTargets(world, config, references[1..]);
      match world.resolve(config, references[0])
      case Existing(target) => [target] + rest
      case _ => rest
  }

  /** Missing references are reported from the last one to the first. */
  function MissingFindings(world: World, config: Config, references: seq<string>): seq<Finding> {
    if references == [] then []
    else
      MissingFindings(world, config, references[1..])
      + (if world.resolve(config, references[0]).NotThere? then [MissingReference(config, references[0])] else [])
  }

  function AsFindings(diagnostics: seq<ConfigDiagnostic>): seq<Finding> {
    seq(|diagnostics|, k requires 0 <= k < |diagnostics| => FromConfig(diagnostics[k]))
  }

  /** What the walk has to do at each config: the graph it searches, the findings
      of building the config's selection, and the expansion it contributes. */
  datatype Plan = Plan(graph: Graph<Finding>, own: Config -> seq<Finding>, expansion: Config -> Expansion)

  ghost function PlanOf(world: World): Plan {
    Plan(
      Graph(
        config => ExistingTargets(world, config, References(world, config)),
        config => AsFindings(ConfigDiagnostics(world, config))
                  + MissingFindings(world, config, References(world, config))),
      config => AsFindings(ConfigDiagnostics(world, config)),
      config => Expansion(SelectionOf(world, config), world.project.directory(config)))
  }

  ghost predicate AgreesAt(plan: Plan, world: World, config: Config) {
    && plan.graph.targets(config) == ExistingTargets(world, config, References(world, config))
    && plan.graph.findings(config) ==
       plan.own(config) + MissingFindings(world, config, References(world, config))
    && plan.own(config) == AsFindings(ConfigDiagnostics(world, config))
    && plan.expansion(config) == Expansion(SelectionOf(world, config), world.project.directory(config))
  }

  ghost predicate Agrees(plan: Plan, world: World) {
    forall config :: AgreesAt(plan, world, config)
  }

  ghost function ExpansionsOf(plan: Plan, order: seq<Config>): seq<Expansion> {
    seq(|order|, k requires 0 <= k < |order| => plan.expansion(order[k]))
  }

  lemma AsReportsConcat<D>(before: seq<Report<D>>, a: seq<D>, b: seq<D>)
    ensures before + AsReports(a) + AsReports(b) == before + AsReports(a + b)
  {
  }

  /** Building a config's selection yields what the plan says. */
  lemma BuildAgrees(plan: Plan, world: World, config: Config, configs: seq<Config>)
    requires Agrees(plan, world)
    requires IsAncestry(world.project, [], configs) && configs[0] == config
    ensures var selection := Compile(world.glob, Effective(Levels(world.project, configs)), config);
            && plan.expansion(config) == Expansion(selection, world.project.directory(config))
            && AsReports(plan.own(config)) ==
               Wrapped(ChainDiagnostics(world.project, [], configs)) + Wrapped(PatternDiagnostics(selection))
  {
    assert AgreesAt(plan, world, config);
    assert configs == AncestryOf(world.project, config);
    assert AsReports(AsFindings(ConfigDiagnostics(world, config))) == Wrapped(ConfigDiagnostics(world, config));
    WrappedConcat(ChainDiagnostics(world.project, [], configs), PatternDiagnostics(SelectionOf(world, config)));
  }

  /** Pushing a config's references yields what the plan says. */
  lemma ExpansionAgrees(plan: Plan, world: World, config: Config, before: seq<TsconfigDiagnostic>)
    requires Agrees(plan, world)
    ensures plan.graph.targets(config) == ExistingTargets(world, config, References(world, config))
    ensures before + AsReports(plan.own(config)) + AsReports(MissingFindings(world, config, References(world, config)))
         == before + AsReports(plan.graph.findings(config))
    ensures plan.expansion(config).base == world.project.directory(config)
  {
    assert AgreesAt(plan, world, config);
    AsReportsConcat(before, plan.own(config), MissingFindings(world, config, References(world, config)));
  }

  lemma ExpansionsSnoc(plan: Plan, order: seq<Config>, config: Config)
    ensures ExpansionsOf(plan, order + [config]) == ExpansionsOf(plan, order) + [plan.expansion(config)]
  {
  }

  // ----- A walk, told from the references themselves -----

  /** Reference `k` of config `a` leads to the existing config `b`. */
  ghost predicate ReferenceTo(world: World, a: Config, k: int, b: Config) {
    && world.project.parse(a).Some? && 0 <= k < |world.project.parse(a).value.references|
    && world.resolve(a, world.project.parse(a).value.references[k]) == Existing(b)
  }

  ghost predicate RefersTo(world: World, a: Config, b: Config) {
    exists k :: ReferenceTo(world, a, k, b)
  }

  /** All existing references of the configs of `order` are among them. */
  ghost predicate ReferencesFollowed(world: World, order: seq<Config>) {
    forall i, k, b :: 0 <= i < |order| && ReferenceTo(world, order[i], k, b) ==> b in order
  }

  /** Reference `k` of the config at `from` is what a walk that has opened `before`
      follows next: its target is new, the references in front of it lead to opened
      configs, and so do all references of the configs opened later. */
  ghost predicate NextReference(world: World, before: seq<Config>, n: Config, from: int, k: int) {
    && n !in before && 0 <= from < |before| && ReferenceTo(world, before[from], k, n)
    && (forall u, b :: u < k && ReferenceTo(world, before[from], u, b) ==> b in before)
    && (forall j, u, b :: from < j < |before| && ReferenceTo(world, before[j], u, b) ==> b in before)
  }

  ghost predicate FollowedInTurn(world: World, order: seq<Config>, i: nat)
    requires i < |order|
  {
    exists from, k :: NextReference(world, order[..i], order[i], from, k)
  }

  /** Depth first, and the references of each config in their order. */
  ghost predicate InReferenceOrder(world: World, order: seq<Config>) {
    forall i :: 1 <= i < |order| ==> FollowedInTurn(world, order, i)
  }

  ghost predicate IsReferencePath(world: World, path: seq<Config>) {
    forall k :: 1 <= k < |path| ==> RefersTo(world, path[k - 1], path[k])
  }

  ghost predicate OnReferenceCycle(world: World, c: Config) {
    exists path :: 1 < |path| && IsReferencePath(world, path) && path[0] == c && path[|path| - 1] == c
  }

  /** `a` is the ancestor chain of `config`. */
  ghost predicate IsChainOf(project: Project, a: seq<Config>, config: Config) {
    IsAncestry(project, [], a) && a[0] == config
  }

  /** The expansion of a config: the selection of its ancestor chain, in its own
      directory. */
  ghost predicate ExpandedAs(world: World, config: Config, expansion: Expansion) {
    && expansion.base == world.project.directory(config)
    && exists a :: IsChainOf(world.project, a, config) && Links(world.project, [], a)
         && expansion.selection == Compile(world.glob, Effective(Levels(world.project, a)), config)
  }

  /** What building the selection of `config` reports. */
  ghost predicate ReportedFor(world: World, config: Config, expansion: Expansion, d: ConfigDiagnostic) {
    || (d.InvalidPattern? && d.config == config && d.pattern in expansion.selection.patterns.invalid)
    || exists a :: IsChainOf(world.project, a, config) && Links(world.project, [], a)
         && ReportedOn(world.project, [], a, d)
  }

  lemma {:induction false} ReferenceOfTarget(world: World, config: Config, references: seq<string>, t: nat)
    returns (k: nat)
    requires t < |ExistingTargets(world, config, references)|
    ensures var targets := ExistingTargets(world, config, references);
            && k < |references| && world.resolve(config, references[k]) == Existing(targets[t])
            && forall u, b :: 0 <= u < k && world.resolve(config, references[u]) == Existing(b) ==> b in targets[..t]
  {
    var targets, rest := ExistingTargets(world, config, references), ExistingTargets(world, config, references[1..]);
    if !world.resolve(config, references[0]).Existing? {
      k := ReferenceOfTarget(world, config, references[1..], t);
      EarlierReferences(world, config, references, k, rest[..t]);
      k := k + 1;
    } else if t == 0 {
      k := 0;
    } else {
      k := ReferenceOfTarget(world, config, references[1..], t - 1);
      assert targets[..t] == [targets[0]] + rest[..t - 1];
      EarlierReferences(world, config, references, k, targets[..t]);
      k := k + 1;
    }
  }

  lemma EarlierReferences(world: World, config: Config, references: seq<string>, k: nat, targets: seq<Config>)
    requires references != [] && k < |references[1..]|
    requires forall b :: world.resolve(config, references[0]) == Existing(b) ==> b in targets
    requires forall u, b :: 0 <= u < k && world.resolve(config, references[1..][u]) == Existing(b) ==> b in targets
    ensures forall u, b :: 0 <= u < k + 1 && world.resolve(config, references[u]) == Existing(b) ==> b in targets
  {
    forall u, b | 0 <= u < k + 1 && world.resolve(config, references[u]) == Existing(b)
      ensures b in targets
    {
      if 0 < u {
        assert references[1..][u - 1] == references[u];
      }
    }
  }

  lemma {:induction false} TargetOfReference(world: World, config: Config, references: seq<string>, k: nat)
    requires k < |references| && world.resolve(config, references[k]).Existing?
    ensures world.resolve(config, references[k]).config in ExistingTargets(world, config, references)
  {
    if 0 < k {
      TargetOfReference(world, config, references[1..], k - 1);
    }
  }

  /** The graph that is searched is that of the references. */
  lemma TargetsAreReferences(plan: Plan, world: World, a: Config, b: Config)
    requires Agrees(plan, world)
    ensures b in plan.graph.targets(a) <==> RefersTo(world, a, b)
  {
    assert AgreesAt(plan, world, a);
    var references := References(world, a);
    if b in plan.graph.targets(a) {
      var t :| 0 <= t < |plan.graph.targets(a)| && plan.graph.targets(a)[t] == b;
      var k := ReferenceOfTarget(world, a, references, t);
      assert ReferenceTo(world, a, k, b);
    }
    if RefersTo(world, a, b) {
      var k :| ReferenceTo(world, a, k, b);
      TargetOfReference(world, a, references, k);
    }
  }

  lemma NextIsReference(
    plan: Plan, world: World, before: seq<Config>, n: Config, from: nat, target: nat) returns (k: nat)
    requires Agrees(plan, world) && ComesNext(plan.graph, before, n, from, target)
    ensures NextReference(world, before, n, from, k)
  {
    var a := before[from];
    assert AgreesAt(plan, world, a);
    k := ReferenceOfTarget(world, a, References(world, a), target);
    forall u, b | u < k && ReferenceTo(world, a, u, b)
      ensures b in before
    {
      assert b in plan.graph.targets(a)[..target];
    }
    forall j, u, b | from < j < |before| && ReferenceTo(world, before[j], u, b)
      ensures b in before
    {
      TargetsAreReferences(plan, world, before[j], b);
      assert Saturated(plan.graph, before, before[j]);
    }
  }

  lemma PreorderFollowsReferences(plan: Plan, world: World, order: seq<Config>)
    requires Agrees(plan, world) && IsPreorder(plan.graph, order)
    ensures InReferenceOrder(world, order)
  {
    forall i | 1 <= i < |order|
      ensures FollowedInTurn(world, order, i)
    {
      assert OpenedInTurn(plan.graph, order, i);
      var from: nat, target: nat :| ComesNext(plan.graph, order[..i], order[i], from, target);
      var k := NextIsReference(plan, world, order[..i], order[i], from, target);
    }
  }

  lemma PathsAreReferences(plan: Plan, world: World, path: seq<Config>)
    requires Agrees(plan, world)
    ensures IsPath(plan.graph, path) <==> IsReferencePath(world, path)
  {
    forall k | 1 <= k < |path|
      ensures path[k] in plan.graph.targets(path[k - 1]) <==> RefersTo(world, path[k - 1], path[k])
    {
      TargetsAreReferences(plan, world, path[k - 1], path[k]);
    }
  }

  lemma CyclesAreReferenceCycles(plan: Plan, world: World, c: Config)
    requires Agrees(plan, world)
    ensures OnCycle(plan.graph, c) <==> OnReferenceCycle(world, c)
  {
    if OnCycle(plan.graph, c) {
      var path :| 1 < |path| && PathFromTo(plan.graph, path, c, c);
      PathsAreReferences(plan, world, path);
    }
    if OnReferenceCycle(world, c) {
      var path :| 1 < |path| && IsReferencePath(world, path) && path[0] == c && path[|path| - 1] == c;
      PathsAreReferences(plan, world, path);
      assert PathFromTo(plan.graph, path, c, c);
    }
  }

  /** These clauses determine the walk: two orders from one root that follow the
      references in turn and leave none out are equal. */
  lemma WalkOrderIsUnique(world: World, a: seq<Config>, b: seq<Config>)
    requires a != [] && b != [] && a[0] == b[0]
    requires InReferenceOrder(world, a) && InReferenceOrder(world, b)
    requires ReferencesFollowed(world, a) && ReferencesFollowed(world, b)
    ensures a == b
  {
    if |a| < |b| {
      NoLongerWalk(world, a, b);
    } else if |b| < |a| {
      NoLongerWalk(world, b, a);
    } else {
      WalksAgree(world, a, b, |a|);
      assert a[..|a|] == a && b[..|b|] == b;
    }
  }

  lemma {:induction false} WalksAgree(world: World, a: seq<Config>, b: seq<Config>, n: nat)
    requires InReferenceOrder(world, a) && InReferenceOrder(world, b) && n <= |a| && n <= |b|
    requires a != [] && b != [] && a[0] == b[0]
    ensures a[..n] == b[..n]
    decreases n
  {
    if 1 < n {
      WalksAgree(world, a, b, n - 1);
      assert FollowedInTurn(world, a, n - 1) && FollowedInTurn(world, b, n - 1);
      var before := a[..n - 1];
      var f, k :| NextReference(world, before, a[n - 1], f, k);
      var g, l :| NextReference(world, before, b[n - 1], g, l);
      NextReferenceIsUnique(world, before, a[n - 1], f, k, b[n - 1], g, l);
      assert a[..n] == before + [a[n - 1]] && b[..n] == before + [b[n - 1]];
    }
  }

  lemma NextReferenceIsUnique(
    world: World, before: seq<Config>, n: Config, from: int, k: int, n': Config, from': int, k': int)
    requires NextReference(world, before, n, from, k) && NextReference(world, before, n', from', k')
    ensures n == n'
  {}

  lemma NoLongerWalk(world: World, a: seq<Config>, b: seq<Config>)
    requires InReferenceOrder(world, a) && InReferenceOrder(world, b) && a != [] && |a| < |b| && a[0] == b[0]
    ensures !ReferencesFollowed(world, a)
  {
    WalksAgree(world, a, b, |a|);
    assert FollowedInTurn(world, b, |a|) && b[..|a|] == a[..|a|] == a;
    var from, k :| NextReference(world, a, b[|a|], from, k);
    assert ReferenceTo(world, a[from], k, b[|a|]);
  }

  lemma {:induction false} MissingIsFound(world: World, config: Config, references: seq<string>, f: Finding)
    ensures f in MissingFindings(world, config, references) <==>
            && f.MissingReference? && f.config == config && f.reference in references
            && world.resolve(config, f.reference) == NotThere
  {
    if references != [] {
      MissingIsFound(world, config, references[1..], f);
      assert f.MissingReference? ==>
          (f.reference in references <==> f.reference == references[0] || f.reference in references[1..]);
    }
  }

  lemma FoundInConfig(diagnostics: seq<ConfigDiagnostic>, f: Finding)
    ensures f in AsFindings(diagnostics) <==> f.FromConfig? && f.diagnostic in diagnostics
  {
    if f.FromConfig? && f.diagnostic in diagnostics {
      var k :| 0 <= k < |diagnostics| && diagnostics[k] == f.diagnostic;
      assert AsFindings(diagnostics)[k] == f;
    }
  }

  lemma PatternsAreReported(selection: CompiledSelection, d: ConfigDiagnostic)
    ensures d in PatternDiagnostics(selection) <==>
            d.InvalidPattern? && d.config == selection.config && d.pattern in selection.patterns.invalid
  {
    var invalid := selection.patterns.invalid;
    if d.InvalidPattern? && d.config == selection.config && d.pattern in invalid {
      var k :| 0 <= k < |invalid| && invalid[k] == d.pattern;
      assert PatternDiagnostics(selection)[k] == d;
    }
  }

  /** A missing reference of `c`, or what building its selection reports. */
  ghost predicate FindingOf(world: World, c: Config, expansion: Expansion, f: Finding) {
    match f
    case MissingReference(b, s) =>
      && b == c && world.project.parse(c).Some? && s in world.project.parse(c).value.references
      && world.resolve(c, s) == NotThere
    case FromConfig(d) => ReportedFor(world, c, expansion, d)
  }

  /** What is found on a config that could be built. */
  lemma FindingsWrittenOut(plan: Plan, world: World, c: Config, a: seq<Config>, f: Finding)
    requires Agrees(plan, world) && IsChainOf(world.project, a, c)
    ensures f in plan.graph.findings(c) <==> FindingOf(world, c, plan.expansion(c), f)
  {
    assert AgreesAt(plan, world, c);
    assert a == AncestryOf(world.project, c);
    MissingIsFound(world, c, References(world, c), f);
    FoundInConfig(ConfigDiagnostics(world, c), f);
    if f.FromConfig? {
      PatternsAreReported(SelectionOf(world, c), f.diagnostic);
      AncestryLinks(world.project, [], a);
      ReportsWrittenOut(world.project, [], a, f.diagnostic);
    }
  }

  lemma ExpansionWrittenOut(plan: Plan, world: World, c: Config, a: seq<Config>)
    requires Agrees(plan, world) && IsChainOf(world.project, a, c)
    ensures ExpandedAs(world, c, plan.expansion(c))
  {
    AncestryLinks(world.project, [], a);
    BuildAgrees(plan, world, c, a);
  }

  ghost predicate IsBuilt(project: Project, c: Config) {
    exists a :: IsChainOf(project, a, c)
  }

  ghost predicate AllBuilt(project: Project, order: seq<Config>) {
    forall c :: c in order ==> IsBuilt(project, c)
  }

  /** A finished walk reports what it found on the configs it opened. */
  lemma FindingsOfWalk(plan: Plan, world: World, order: seq<Config>, f: Finding)
    requires Agrees(plan, world) && AllBuilt(world.project, order)
    ensures (exists c :: c in order && f in plan.graph.findings(c)) <==>
            exists i :: 0 <= i < |order| && FindingOf(world, order[i], ExpansionsOf(plan, order)[i], f)
  {
    forall i | 0 <= i < |order|
      ensures f in plan.graph.findings(order[i]) <==> FindingOf(world, order[i], ExpansionsOf(plan, order)[i], f)
    {
      assert order[i] in order && IsBuilt(world.project, order[i]);
      var a :| IsChainOf(world.project, a, order[i]);
      FindingsWrittenOut(plan, world, order[i], a, f);
    }
  }

  /** A path of existing references from the root that is longer than the depth
      budget, through configs that differ but for the last. */
  ghost predicate TooDeep(world: World, root: Config, maxDepth: nat) {
    exists path ::
      && |path| == maxDepth + 1 && path[0] == root && IsReferencePath(world, path)
      && Distinct(path[..maxDepth])
  }

  /** The configs a walk opened, and what it made of them: it starts at the root, each
      further config is the first reference not followed yet of the latest config that
      has one, and no existing reference is left out. */
  ghost predicate WalksFrom(world: World, root: Config, order: seq<Config>, expansions: seq<Expansion>) {
    && order != [] && order[0] == root && Distinct(order)
    && ReferencesFollowed(world, order) && InReferenceOrder(world, order)
    && |expansions| == |order|
    && forall i :: 0 <= i < |order| ==> ExpandedAs(world, order[i], expansions[i])
  }

  /** Its diagnostics: missing references, what building the selections reports, and a
      cycle exactly when there is one. */
  ghost predicate Diagnosed(
    world: World, order: seq<Config>, expansions: seq<Expansion>, diagnostics: seq<TsconfigDiagnostic>)
  {
    && |expansions| == |order|
    && (forall c, s :: Other(MissingReference(c, s)) in diagnostics <==>
          && c in order && world.project.parse(c).Some? && s in world.project.parse(c).value.references
          && world.resolve(c, s) == NotThere)
    && (forall d :: Other(FromConfig(d)) in diagnostics <==>
          exists i :: 0 <= i < |order| && ReportedFor(world, order[i], expansions[i], d))
    && (forall c :: Cycle(c) in diagnostics ==> c in order && OnReferenceCycle(world, c))
    && ((exists c :: c in order && OnReferenceCycle(world, c)) ==> exists c :: Cycle(c) in diagnostics)
  }

  /** Order and expansions of a finished search, told from the references. */
  lemma SearchFollowsReferences(plan: Plan, world: World, root: Config, maxDepth: nat)
    requires Agrees(plan, world) && Visit(plan.graph, maxDepth, root, 0, Start()).Some?
    requires AllBuilt(world.project, Visit(plan.graph, maxDepth, root, 0, Start()).value.order)
    ensures var order := Visit(plan.graph, maxDepth, root, 0, Start()).value.order;
            WalksFrom(world, root, order, ExpansionsOf(plan, order))
  {
    var order := Visit(plan.graph, maxDepth, root, 0, Start()).value.order;
    OpensInPreorder(plan.graph, maxDepth, root);
    PreorderFollowsReferences(plan, world, order);
    OpensExactlyTheReachable(plan.graph, maxDepth, root);
    forall i, k, b | 0 <= i < |order| && ReferenceTo(world, order[i], k, b)
      ensures b in order
    {
      TargetsAreReferences(plan, world, order[i], b);
      assert order[i] in order;
      ReachableStep(plan.graph, root, order[i], b);
    }
    forall i | 0 <= i < |order|
      ensures ExpandedAs(world, order[i], ExpansionsOf(plan, order)[i])
    {
      assert order[i] in order && IsBuilt(world.project, order[i]);
      var a :| IsChainOf(world.project, a, order[i]);
      ExpansionWrittenOut(plan, world, order[i], a);
    }
  }

  /** Its diagnostics, told from the references and the configs. */
  lemma SearchTells(plan: Plan, world: World, root: Config, maxDepth: nat, f: Finding, c: Config)
    requires Agrees(plan, world) && Visit(plan.graph, maxDepth, root, 0, Start()).Some?
    requires AllBuilt(world.project, Visit(plan.graph, maxDepth, root, 0, Start()).value.order)
    ensures var s := Visit(plan.graph, maxDepth, root, 0, Start()).value;
            && (Other(f) in s.reports <==>
                exists i :: 0 <= i < |s.order| && FindingOf(world, s.order[i], ExpansionsOf(plan, s.order)[i], f))
            && (Cycle(c) in s.reports ==> c in s.order && OnReferenceCycle(world, c))
            && (c in s.order && OnReferenceCycle(world, c) ==> ReportsCycle(s.reports))
  {
    var s := Visit(plan.graph, maxDepth, root, 0, Start()).value;
    ReportsTheFindings(plan.graph, maxDepth, root, f);
    FindingsOfWalk(plan, world, s.order, f);
    OpensExactlyTheReachable(plan.graph, maxDepth, root);
    ReportsExactlyTheCycles(plan.graph, maxDepth, root);
    CyclesAreReferenceCycles(plan, world, c);
  }

  lemma DiagnosticsWrittenOut(plan: Plan, world: World, root: Config, maxDepth: nat)
    requires Agrees(plan, world) && Visit(plan.graph, maxDepth, root, 0, Start()).Some?
    requires AllBuilt(world.project, Visit(plan.graph, maxDepth, root, 0, Start()).value.order)
    ensures var s := Visit(plan.graph, maxDepth, root, 0, Start()).value;
            Diagnosed(world, s.order, ExpansionsOf(plan, s.order), s.reports)
  {
    var s := Visit(plan.graph, maxDepth, root, 0, Start()).value;
    forall c | Cycle(c) in s.reports
      ensures c in s.order && OnReferenceCycle(world, c)
    {
      SearchTells(plan, world, root, maxDepth, MissingReference(c, c), c);
    }
    forall c, r
      ensures Other(MissingReference(c, r)) in s.reports <==>
              && c in s.order && world.project.parse(c).Some? && r in world.project.parse(c).value.references
              && world.resolve(c, r) == NotThere
    {
      SearchTells(plan, world, root, maxDepth, MissingReference(c, r), c);
    }
    forall d
      ensures Other(FromConfig(d)) in s.reports <==>
              exists i :: 0 <= i < |s.order| && ReportedFor(world, s.order[i], ExpansionsOf(plan, s.order)[i], d)
    {
      SearchTells(plan, world, root, maxDepth, FromConfig(d), root);
    }
    if c :| c in s.order && OnReferenceCycle(world, c) {
      SearchTells(plan, world, root, maxDepth, MissingReference(c, c), c);
      var k :| 0 <= k < |s.reports| && s.reports[k].Cycle?;
      assert Cycle(s.reports[k].target) in s.reports;
    }
  }

  // ----- The explicit stack and its meaning -----

  /** Building a selection failed, or the references nest too deeply. */
  datatype WalkError = Build(error: LoadError) | ReferenceDepthExhausted

  datatype StackItem = Enter(config: Config, depth: nat) | Exit

  /** What is left to do for `stack` (top last), in terms of the recursive search. */
  function RunStack<D>(graph: Graph<D>, maxDepth: nat, stack: seq<StackItem>, s: Search<D>): Option<Search<D>>
    decreases |stack|
  {
    if stack == [] then Some(s)
    else
      var rest := stack[..|stack| - 1];
      match stack[|stack| - 1]
      case Exit => if s.active == [] then None else RunStack(graph, maxDepth, rest, Left(s))
      case Enter(config, depth) =>
        match Visit(graph, maxDepth, config, depth, s)
        case None => None
        case Some(next) => RunStack(graph, maxDepth, rest, next)
  }

  /** The items pushed for `targets`: the first target ends up on top. */
  function EnterItems(targets: seq<Config>, depth: nat): seq<StackItem> {
    if targets == [] then [] else EnterItems(targets[1..], depth) + [Enter(targets[0], depth)]
  }

  /** Every exit item waits for one active config; every enter item is as deep as
      there will be active configs when it is taken off, and is the root or a
      target of the innermost of them. */
  ghost predicate Grounded<D>(graph: Graph<D>, root: Config, active: seq<Config>, stack: seq<StackItem>)
    decreases |stack|
  {
    if stack == [] then active == []
    else
      match stack[|stack| - 1]
      case Exit => active != [] && Grounded(graph, root, active[..|active| - 1], stack[..|stack| - 1])
      case Enter(config, depth) =>
        depth == |active| && MayEnter(graph, root, active, config)
        && Grounded(graph, root, active, stack[..|stack| - 1])
  }

  /** The active configs are a path from the root, within the depth budget. */
  ghost predicate ActivePath<D>(graph: Graph<D>, root: Config, maxDepth: nat, active: seq<Config>) {
    && IsPath(graph, active) && |active| <= maxDepth && Distinct(active)
    && (active != [] ==> active[0] == root)
  }

  lemma ActivePathGrows<D>(graph: Graph<D>, root: Config, maxDepth: nat, active: seq<Config>, config: Config)
    requires ActivePath(graph, root, maxDepth, active) && MayEnter(graph, root, active, config)
    requires |active| < maxDepth && config !in active
    ensures ActivePath(graph, root, maxDepth, active + [config])
  {
  }

  /** Working off the pushed targets is visiting them all. */
  lemma {:induction false} RunEnterItems<D>(
    graph: Graph<D>, maxDepth: nat, stack: seq<StackItem>, targets: seq<Config>, depth: nat, s: Search<D>)
    ensures RunStack(graph, maxDepth, stack + EnterItems(targets, depth), s) ==
            match VisitAll(graph, maxDepth, targets, depth, s)
            case None => None
            case Some(next) => RunStack(graph, maxDepth, stack, next)
    decreases |targets|
  {
    var items := stack + EnterItems(targets, depth);
    if targets == [] {
      assert items == stack;
    } else {
      assert items[..|items| - 1] == stack + EnterItems(targets[1..], depth);
      var visited := Visit(graph, maxDepth, targets[0], depth, s);
      if visited.Some? {
        RunEnterItems(graph, maxDepth, stack, targets[1..], depth, visited.value);
      }
    }
  }

  lemma RunSingle<D>(graph: Graph<D>, maxDepth: nat, config: Config, depth: nat, s: Search<D>)
    ensures RunStack(graph, maxDepth, [Enter(config, depth)], s) == Visit(graph, maxDepth, config, depth, s)
    ensures Grounded(graph, config, [], [Enter(config, depth)]) <==> depth == 0
  {
    assert [Enter(config, depth)][..0] == [];
  }

  lemma {:induction false} EnterItemsGrounded<D>(
    graph: Graph<D>, root: Config, active: seq<Config>, stack: seq<StackItem>, targets: seq<Config>)
    requires active != [] && Grounded(graph, root, active, stack)
    requires forall k :: 0 <= k < |targets| ==> targets[k] in graph.targets(active[|active| - 1])
    ensures Grounded(graph, root, active, stack + EnterItems(targets, |active|))
    decreases |targets|
  {
    var items := stack + EnterItems(targets, |active|);
    if targets == [] {
      assert items == stack;
    } else {
      assert items[..|items| - 1] == stack + EnterItems(targets[1..], |active|);
      EnterItemsGrounded(graph, root, active, stack, targets[1..]);
    }
  }

  /** What an expansion leaves on the stack is grounded in the longer path. */
  lemma ExpandedGrounded<D>(
    graph: Graph<D>, root: Config, active: seq<Config>, rest: seq<StackItem>, config: Config)
    requires Grounded(graph, root, active, rest)
    ensures Grounded(graph, root, active + [config],
                     rest + [Exit] + EnterItems(graph.targets(config), |active| + 1))
  {
    assert (rest + [Exit])[..|rest|] == rest && (active + [config])[..|active|] == active;
    EnterItemsGrounded(graph, root, active + [config], rest + [Exit], graph.targets(config));
  }

  /** One expansion: the config's targets on top of an exit item do what the
      recursive visit of the config does. */
  lemma ExpandIsVisit<D>(
    graph: Graph<D>, maxDepth: nat, rest: seq<StackItem>, config: Config, depth: nat, s: Search<D>)
    requires depth < maxDepth && config !in s.active && config !in s.visited
    ensures RunStack(graph, maxDepth, rest + [Exit] + EnterItems(graph.targets(config), depth + 1),
                     Entered(graph, config, s))
         == RunStack(graph, maxDepth, rest + [Enter(config, depth)], s)
  {
    var entered := Entered(graph, config, s);
    RunEnterItems(graph, maxDepth, rest + [Exit], graph.targets(config), depth + 1, entered);
    assert (rest + [Exit])[..|rest|] == rest && (rest + [Enter(config, depth)])[..|rest|] == rest;
  }

  // ----- One item -----

  /** What is left to do comes to `outcome`; the active configs are a path from the
      root within the depth budget, and the stack is grounded in it. */
  ghost predicate Continues<D>(graph: Graph<D>, root: Config, maxDepth: nat, stack: seq<StackItem>, s: Search<D>,
                               outcome: Option<Search<D>>)
  {
    && RunStack(graph, maxDepth, stack, s) == outcome
    && Grounded(graph, root, s.active, stack) && ActivePath(graph, root, maxDepth, s.active)
  }

  lemma TakeExit<D>(graph: Graph<D>, root: Config, maxDepth: nat, rest: seq<StackItem>, s: Search<D>,
                    outcome: Option<Search<D>>)
    requires Continues(graph, root, maxDepth, rest + [Exit], s, outcome)
    ensures s.active != [] && Continues(graph, root, maxDepth, rest, Left(s), outcome)
  {
    assert (rest + [Exit])[..|rest|] == rest;
  }

  lemma TakeEnter<D>(graph: Graph<D>, root: Config, maxDepth: nat, rest: seq<StackItem>, config: Config, depth: nat,
                     s: Search<D>, outcome: Option<Search<D>>)
    requires Continues(graph, root, maxDepth, rest + [Enter(config, depth)], s, outcome)
    ensures depth == |s.active| && MayEnter(graph, root, s.active, config)
    ensures depth >= maxDepth ==> outcome.None?
    ensures depth < maxDepth && config in s.active ==>
              Continues(graph, root, maxDepth, rest, Reported(config, s), outcome)
    ensures depth < maxDepth && config !in s.active && config in s.visited ==>
              Continues(graph, root, maxDepth, rest, s, outcome)
  {
    assert (rest + [Enter(config, depth)])[..|rest|] == rest;
  }

  lemma TakeNew<D>(graph: Graph<D>, root: Config, maxDepth: nat, rest: seq<StackItem>, config: Config, depth: nat,
                   s: Search<D>, outcome: Option<Search<D>>)
    requires Continues(graph, root, maxDepth, rest + [Enter(config, depth)], s, outcome)
    requires depth < maxDepth && config !in s.active && config !in s.visited
    ensures Continues(graph, root, maxDepth, rest + [Exit] + EnterItems(graph.targets(config), depth + 1),
                      Entered(graph, config, s), outcome)
  {
    assert (rest + [Enter(config, depth)])[..|rest|] == rest;
    ExpandIsVisit(graph, maxDepth, rest, config, depth, s);
    ExpandedGrounded(graph, root, s.active, rest, config);
    ActivePathGrows(graph, root, maxDepth, s.active, config);
  }

  // ----- Why a walk fails -----

  /** The configs charged for building each config of `order`. */
  ghost function Charged(project: Project, order: seq<Config>): nat {
    if order == [] then 0
    else Charged(project, order[..|order| - 1]) + |AncestryOf(project, order[|order| - 1])|
  }

  lemma ChargedSnoc(project: Project, order: seq<Config>, config: Config)
    ensures Charged(project, order + [config]) == Charged(project, order) + |AncestryOf(project, config)|
  {
    assert (order + [config])[..|order|] == order;
  }

  ghost predicate SomeUnreadable(world: World, config: Config, references: seq<string>) {
    exists k :: 0 <= k < |references| && world.resolve(config, references[k]).NotReadable?
  }

  /** With `count` configs charged, `config` cannot be expanded: no ancestor chain of
      it can be read within the budgets, or one of its references cannot be. */
  ghost predicate Blocked(world: World, maxDepth: nat, maxConfigCount: nat, config: Config, count: nat) {
    || !ChainFits(world.project, maxDepth, maxConfigCount, config, [], count)
    || SomeUnreadable(world, config, References(world, config))
  }

  ghost predicate AllReachable<D>(graph: Graph<D>, root: Config, order: seq<Config>) {
    Distinct(order) && forall k :: 0 <= k < |order| ==> Reachable(graph, root, order[k])
  }

  ghost predicate SameConfigs(visited: set<Config>, order: seq<Config>) {
    forall c :: c in visited <==> c in order
  }

  /** After expanding the reachable configs of `order`, a further one is blocked. */
  ghost predicate BlockedAfter<D>(
    graph: Graph<D>, world: World, maxDepth: nat, maxConfigCount: nat, root: Config, order: seq<Config>)
  {
    && AllReachable(graph, root, order)
    && exists config ::
         && Reachable(graph, root, config) && config !in order
         && Blocked(world, maxDepth, maxConfigCount, config, Charged(world.project, order))
  }

  lemma NextIsReachable<D>(graph: Graph<D>, root: Config, maxDepth: nat, active: seq<Config>, config: Config)
    requires ActivePath(graph, root, maxDepth, active) && MayEnter(graph, root, active, config)
    ensures Reachable(graph, root, config)
  {
    assert PathFromTo(graph, active + [config], root, config);
  }

  lemma ActiveIsTooDeep(
    plan: Plan, world: World, root: Config, maxDepth: nat, active: seq<Config>, config: Config)
    requires Agrees(plan, world) && ActivePath(plan.graph, root, maxDepth, active)
    requires MayEnter(plan.graph, root, active, config) && |active| == maxDepth
    ensures TooDeep(world, root, maxDepth)
  {
    var path := active + [config];
    PathsAreReferences(plan, world, path);
    assert path[..maxDepth] == active;
  }

  lemma ReachableGrows<D>(graph: Graph<D>, root: Config, order: seq<Config>, config: Config)
    requires AllReachable(graph, root, order) && Reachable(graph, root, config) && config !in order
    ensures AllReachable(graph, root, order + [config])
  {
  }

  // ----- The walker -----

  class TsconfigGraphWalker {
    const world: World
    const maxConfigCount: nat
    const maxDepth: nat
    const account: Account
    var visited: set<Config>
    var active: seq<Config>
    var stack: seq<StackItem>
    ghost const plan: Plan
    ghost var order: seq<Config>
    ghost var finished: seq<Config>

    constructor (world: World, maxConfigCount: nat, maxDepth: nat)
      ensures this.world == world && this.maxConfigCount == maxConfigCount && this.maxDepth == maxDepth
      ensures fresh(account) && account.configCount == 0
      ensures State() == Start() && stack == []
      ensures plan == PlanOf(world)
    {
      this.world, this.maxConfigCount, this.maxDepth := world, maxConfigCount, maxDepth;
      account := new Account();
      visited, active, stack, order, finished := {}, [], [], [], [];
      plan := PlanOf(world);
    }

    ghost function State(): Search<Finding>
      reads this, account
    {
      Search(visited, active, order, finished, account.diagnostics)
    }

    ghost predicate Leads(root: Config, outcome: Option<Search<Finding>>)
      reads this, account
    {
      Continues(plan.graph, root, maxDepth, stack, State(), outcome)
    }

    /** The configs opened so far, and what they were charged. */
    ghost predicate Opens(root: Config)
      reads this, account
    {
      && AllReachable(plan.graph, root, order) && SameConfigs(visited, order) && AllBuilt(world.project, order)
      && account.configCount == Charged(world.project, order) <= maxConfigCount
    }

    ghost predicate IsBlocked(config: Config, count: nat) {
      Blocked(world, maxDepth, maxConfigCount, config, count)
    }

    ghost predicate BlockedAt(root: Config, order: seq<Config>) {
      BlockedAfter(plan.graph, world, maxDepth, maxConfigCount, root, order)
    }

    method BuildMerged(config: Config)
      returns (r: Result<(MergedSelection, seq<string>), LoadError>, ghost configs: seq<Config>)
      modifies account
      ensures r.Success? ==>
                && IsChainOf(world.project, configs, config)
                && r.value.0 == Effective(Levels(world.project, configs)) && r.value.1 == References(world, config)
                && account.configCount == old(account.configCount) + |configs| <= maxConfigCount
                && account.diagnostics == old(account.diagnostics)
                                          + Wrapped(ChainDiagnostics(world.project, [], configs))
      ensures r.Failure? && !r.error.Interrupted? ==> IsBlocked(config, old(account.configCount))
    {
      var traversal := new TsconfigTraversal(world.project, maxConfigCount, maxDepth, account);
      r, configs := traversal.BuildInner(config);
    }

    method BuildEffective(config: Config) returns (r: Result<(CompiledSelection, seq<string>), LoadError>)
      requires Agrees(plan, world)
      modifies account
      ensures r.Success? ==>
                && plan.expansion(config) == Expansion(r.value.0, world.project.directory(config))
                && r.value.1 == References(world, config)
                && account.diagnostics == old(account.diagnostics) + AsReports(plan.own(config))
                && old(account.configCount) < account.configCount <= maxConfigCount
                && account.configCount == old(account.configCount) + |AncestryOf(world.project, config)|
                && IsBuilt(world.project, config)
      ensures r.Failure? && !r.error.Interrupted? ==> IsBlocked(config, old(account.configCount))
    {
      var built, configs := BuildMerged(config);
      if built.Failure? {
        return Failure(built.error);
      }
      var selection := Compile(world.glob, built.value.0, config);
      account.diagnostics := account.diagnostics + Wrapped(PatternDiagnostics(selection));
      BuildAgrees(plan, world, config, configs);
      r := Success((selection, built.value.1));
    }

    /** Push the references of `config`, last one first. */
    method PushReferences(config: Config, references: seq<string>, depth: nat) returns (r: Option<LoadError>)
      modifies this`stack, account`diagnostics
      ensures r.None? ==> stack == old(stack) + EnterItems(ExistingTargets(world, config, references), depth)
      ensures r.None? ==>
                account.diagnostics == old(account.diagnostics) + AsReports(MissingFindings(world, config, references))
      ensures r.Some? ==> SomeUnreadable(world, config, references)
    {
      var k := |references|;
      while k > 0
        invariant 0 <= k <= |references|
        invariant stack == old(stack) + EnterItems(ExistingTargets(world, config, references[k..]), depth)
        invariant account.diagnostics ==
                  old(account.diagnostics) + AsReports(MissingFindings(world, config, references[k..]))
      {
        k := k - 1;
        assert references[k..][1..] == references[k + 1..];
        var target := world.resolve(config, references[k]);
        match target
        case Existing(canonical) => stack := stack + [Enter(canonical, depth)];
        case NotThere =>
          account.diagnostics := account.diagnostics + [Other(MissingReference(config, references[k]))];
        case NotReadable => return Some(BrokenLink(config));
      }
      assert references[0..] == references;
      r := None;
    }

    /** Expand a config that is entered for the first time. */
    method Expand(config: Config, depth: nat) returns (r: Result<Expansion, LoadError>)
      requires Agrees(plan, world)
      modifies this`visited, this`active, this`stack, this`order, account
      ensures r.Success? ==>
                && r.value == plan.expansion(config)
                && State() == Entered(plan.graph, config, old(State()))
                && stack == old(stack) + [Exit] + EnterItems(plan.graph.targets(config), depth + 1)
                && old(account.configCount) < account.configCount <= maxConfigCount
                && account.configCount == old(account.configCount) + |AncestryOf(world.project, config)|
                && IsBuilt(world.project, config)
      ensures r.Failure? && !r.error.Interrupted? ==> IsBlocked(config, old(account.configCount))
    {
      visited := visited + {config};
      active := active + [config];
      order := order + [config];
      var built := BuildEffective(config);
      if built.Failure? {
        return Failure(built.error);
      }
      stack := stack + [Exit];
      var error := PushReferences(config, built.value.1, depth + 1);
      if error.Some? {
        return Failure(error.value);
      }
      ExpansionAgrees(plan, world, config, old(account.diagnostics));
      r := Success(Expansion(built.value.0, world.project.directory(config)));
    }

    /** `Expand`, with what it means for the configs opened so far. */
    method Open(config: Config, depth: nat, ghost root: Config) returns (r: Result<Expansion, LoadError>)
      requires Agrees(plan, world) && Opens(root) && config !in visited
      requires ActivePath(plan.graph, root, maxDepth, active) && MayEnter(plan.graph, root, active, config)
      modifies this`visited, this`active, this`stack, this`order, account
      ensures r.Success? ==>
                && r.value == plan.expansion(config)
                && State() == Entered(plan.graph, config, old(State()))
                && stack == old(stack) + [Exit] + EnterItems(plan.graph.targets(config), depth + 1)
                && old(account.configCount) < account.configCount && Opens(root)
      ensures r.Failure? && !r.error.Interrupted? ==> BlockedAt(root, old(order))
    {
      ghost var before := order;
      NextIsReachable(plan.graph, root, maxDepth, active, config);
      r := Expand(config, depth);
      ReachableGrows(plan.graph, root, before, config);
      ChargedSnoc(world.project, before, config);
    }

    /** An enter item, taken off the stack. What is left to do afterwards comes to
        what it came to with the item still in place. */
    method EnterConfig(config: Config, depth: nat, ghost root: Config, ghost outcome: Option<Search<Finding>>)
      returns (r: Result<Option<Expansion>, WalkError>)
      requires Agrees(plan, world) && Opens(root)
      requires Continues(plan.graph, root, maxDepth, stack + [Enter(config, depth)], State(), outcome)
      modifies this`visited, this`active, this`stack, this`order, account
      ensures r.Success? ==>
                && Leads(root, outcome) && Opens(root)
                && old(account.configCount) <= account.configCount
                && (match r.value
                    case None => stack == old(stack) && order == old(order)
                    case Some(expansion) =>
                      expansion == plan.expansion(config) && order == old(order) + [config]
                      && old(account.configCount) < account.configCount)
      ensures r.Failure? && r.error.ReferenceDepthExhausted? ==> outcome.None? && TooDeep(world, root, maxDepth)
      ensures r.Failure? && r.error.Build? && !r.error.error.Interrupted? ==> BlockedAt(root, old(order))
    {
      TakeEnter(plan.graph, root, maxDepth, stack, config, depth, State(), outcome);
      if depth >= maxDepth {
        ActiveIsTooDeep(plan, world, root, maxDepth, active, config);
        return Failure(ReferenceDepthExhausted);
      }
      if config in active {
        account.diagnostics := account.diagnostics + [Cycle(config)];
        return Success(None);
      }
      if config in visited {
        return Success(None);
      }
      TakeNew(plan.graph, root, maxDepth, stack, config, depth, State(), outcome);
      var expanded := Open(config, depth, root);
      r := if expanded.Failure? then Failure(Build(expanded.error)) else Success(Some(expanded.value));
    }

    /** An exit item, taken off the stack. */
    method LeaveConfig(ghost root: Config, ghost outcome: Option<Search<Finding>>)
      requires Continues(plan.graph, root, maxDepth, stack + [Exit], State(), outcome)
      modifies this`active, this`finished
      ensures Leads(root, outcome)
    {
      TakeExit(plan.graph, root, maxDepth, stack, State(), outcome);
      finished := finished + [active[|active| - 1]];
      active := active[..|active| - 1];
    }

    /** Take one item off the stack and handle it. What is left to do stays what it
        was; a config is expanded, or the stack gets shorter. */
    method Step(ghost root: Config, ghost outcome: Option<Search<Finding>>)
      returns (r: Result<Option<Expansion>, WalkError>)
      requires Agrees(plan, world) && Leads(root, outcome) && Opens(root) && stack != []
      modifies this, account
      ensures r.Success? ==>
                && Leads(root, outcome) && Opens(root)
                && old(account.configCount) <= account.configCount
                && (match r.value
                    case None => |stack| < |old(stack)| && order == old(order)
                    case Some(expansion) =>
                      ExpansionsOf(plan, order) == ExpansionsOf(plan, old(order)) + [expansion]
                      && old(account.configCount) < account.configCount)
      ensures r.Failure? && r.error.ReferenceDepthExhausted? ==> outcome.None? && TooDeep(world, root, maxDepth)
      ensures r.Failure? && r.error.Build? && !r.error.error.Interrupted? ==> BlockedAt(root, old(order))
    {
      var item := stack[|stack| - 1];
      assert stack == stack[..|stack| - 1] + [item];
      stack := stack[..|stack| - 1];
      match item
      case Exit =>
        LeaveConfig(root, outcome);
        r := Success(None);
      case Enter(config, depth) =>
        ExpansionsSnoc(plan, order, config);
        r := EnterConfig(config, depth, root, outcome);
    }

    /** The walk from the root config. Whenever an item is taken off the stack the
        active configs are a path from the root within the depth budget, and the
        stack is grounded in it. */
    method Walk(root: Config) returns (r: Result<seq<Expansion>, WalkError>)
      requires Agrees(plan, world)
      requires State() == Start() && stack == [] && account.configCount == 0
      modifies this, account
      ensures r.Success? ==>
                && Visit(plan.graph, maxDepth, root, 0, Start()) == Some(State())
                && r.value == ExpansionsOf(plan, order) && Opens(root)
      ensures r.Failure? && r.error.ReferenceDepthExhausted? ==>
                Visit(plan.graph, maxDepth, root, 0, Start()).None? && TooDeep(world, root, maxDepth)
      ensures r.Failure? && r.error.Build? && !r.error.error.Interrupted? ==> exists order :: BlockedAt(root, order)
    {
      var expansions: seq<Expansion> := [];
      stack := [Enter(root, 0)];
      ghost var outcome := Visit(plan.graph, maxDepth, root, 0, Start());
      RunSingle(plan.graph, maxDepth, root, 0, Start());
      while stack != []
        invariant Leads(root, outcome) && Opens(root)
        invariant expansions == ExpansionsOf(plan, order)
        decreases maxConfigCount - account.configCount, |stack|
      {
        var entered := Step(root, outcome);
        if entered.Failure? {
          return Failure(entered.error);
        }
        if entered.value.Some? {
          expansions := expansions + [entered.value.value];
        }
      }
      r := Success(expansions);
    }
  }

  /** A successful walk expands the root and what it refers to, directly or not, each
      config once and in depth-first preorder; its diagnostics report a reference
      cycle exactly when there is one. A walk that fails to build a config, without an
      interruption, has come to a reachable one that cannot be read within what the
      configs opened before have left of the budgets. */
  method WalkReferences(world: World, root: Config, maxConfigCount: nat, maxDepth: nat)
    returns (r: Result<(seq<Expansion>, seq<TsconfigDiagnostic>), WalkError>, ghost order: seq<Config>)
    // `order` lists the configs opened.
    ensures r.Success? ==> WalksFrom(world, root, order, r.value.0) && Diagnosed(world, order, r.value.0, r.value.1)
    // Told from the recursive search.
    ensures r.Success? ==>
              var graph := PlanOf(world).graph;
              var search := Visit(graph, maxDepth, root, 0, Start());
              && search.Some? && order == search.value.order && r.value.0 == ExpansionsOf(PlanOf(world), order)
              && (forall c :: c in order <==> Reachable(graph, root, c))
    ensures r.Failure? && r.error.ReferenceDepthExhausted? ==>
              && Visit(PlanOf(world).graph, maxDepth, root, 0, Start()).None?
              && TooDeep(world, root, maxDepth)
    ensures r.Failure? && r.error.Build? && !r.error.error.Interrupted? ==>
              exists order :: BlockedAfter(PlanOf(world).graph, world, maxDepth, maxConfigCount, root, order)
  {
    var walker := new TsconfigGraphWalker(world, maxConfigCount, maxDepth);
    forall config
      ensures AgreesAt(walker.plan, world, config)
    {
    }
    var expansions := walker.Walk(root);
    order := walker.order;
    if expansions.Failure? {
      assert forall order :: walker.BlockedAt(root, order) ==>
          BlockedAfter(PlanOf(world).graph, world, maxDepth, maxConfigCount, root, order);
      return Failure(expansions.error), order;
    }
    OpensExactlyTheReachable(walker.plan.graph, maxDepth, root);
    SearchFollowsReferences(walker.plan, world, root, maxDepth);
    DiagnosticsWrittenOut(walker.plan, world, root, maxDepth);
    r := Success((expansions.value, walker.account.diagnostics));
  }
}
