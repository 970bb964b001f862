/** Depth-first search over a directed graph: paths, cycles, and the recursive
    search that the iterative reference walker stands for. */
module DepthFirstSearch {
  import opened Sequences
  import opened Wrappers

  type Node = string

  /** What a search reports: a reference back to an active node, or something
      found on opening a node. */
  datatype Report<+D> = Cycle(target: Node) | Other(diagnostic: D)

  /** `findings(n)` is what opening `n` reports by itself. */
  datatype Graph<D> = Graph(targets: Node -> seq<Node>, findings: Node -> seq<D>)

  // ----- Paths and cycles -----

  ghost predicate IsPath<D>(graph: Graph<D>, path: seq<Node>) {
    forall k :: 1 <= k < |path| ==> path[k] in graph.targets(path[k - 1])
  }

  ghost predicate PathFromTo<D>(graph: Graph<D>, path: seq<Node>, a: Node, b: Node) {
    path != [] && IsPath(graph, path) && path[0] == a && path[|path| - 1] == b
  }

  ghost predicate Reachable<D>(graph: Graph<D>, a: Node, b: Node) {
    exists path :: PathFromTo(graph, path, a, b)
  }

  /** `n` lies on a cycle. */
  ghost predicate OnCycle<D>(graph: Graph<D>, n: Node) {
    exists path :: 1 < |path| && PathFromTo(graph, path, n, n)
  }

  // ----- The recursive search -----

  /** `finished` lists the nodes whose targets have all been followed. */
  datatype Search<+D> = Search(
    visited: set<Node>,
    active: seq<Node>,
    order: seq<Node>,
    finished: seq<Node>,
    reports: seq<Report<D>>)

  function Start<D>(): Search<D> {
    Search({}, [], [], [], [])
  }

  function AsReports<D>(findings: seq<D>): seq<Report<D>> {
    seq(|findings|, k requires 0 <= k < |findings| => Other(findings[k]))
  }

  function Entered<D>(graph: Graph<D>, n: Node, s: Search<D>): Search<D> {
    Search(s.visited + {n}, s.active + [n], s.order + [n], s.finished, s.reports + AsReports(graph.findings(n)))
  }

  function Reported<D>(n: Node, s: Search<D>): Search<D> {
    s.(reports := s.reports + [Cycle(n)])
  }

  function Left<D>(s: Search<D>): Search<D>
    requires s.active != []
  {
    var last := |s.active| - 1;
    s.(active := s.active[..last], finished := s.finished + [s.active[last]])
  }

  /** Recursive depth-first search; `None` when the depth budget is exceeded. */
  function Visit<D>(graph: Graph<D>, maxDepth: nat, n: Node, depth: nat, s: Search<D>): (r: Option<Search<D>>)
    ensures r.Some? ==> r.value.active == s.active
    decreases maxDepth - depth, 0, 0
  {
    if depth >= maxDepth then None
    else if n in s.active then Some(Reported(n, s))
    else if n in s.visited then Some(s)
    else
      match VisitAll(graph, maxDepth, graph.targets(n), depth + 1, Entered(graph, n, s))
      case None => None
      case Some(below) => Some(Left(below))
  }

  function VisitAll<D>(graph: Graph<D>, maxDepth: nat, nodes: seq<Node>, depth: nat, s: Search<D>)
    : (r: Option<Search<D>>)
    ensures r.Some? ==> r.value.active == s.active
    decreases maxDepth - depth, 1, |nodes|
  {
    if nodes == [] then Some(s)
    else
      match Visit(graph, maxDepth, nodes[0], depth, s)
      case None => None
      case Some(next) => VisitAll(graph, maxDepth, nodes[1..], depth, next)
  }

  // ----- What every part of the search keeps -----

  predicate ReportsCycle<D>(reports: seq<Report<D>>) {
    exists k :: 0 <= k < |reports| && reports[k].Cycle?
  }

  ghost predicate CyclesAreReal<D>(graph: Graph<D>, root: Node, reports: seq<Report<D>>) {
    forall k :: 0 <= k < |reports| && reports[k].Cycle? ==>
      Reachable(graph, root, reports[k].target) && OnCycle(graph, reports[k].target)
  }

  /** Every target of a finished node was finished earlier. */
  ghost predicate FinishingOrder<D>(graph: Graph<D>, finished: seq<Node>) {
    forall k, t :: 0 <= k < |finished| && t in graph.targets(finished[k]) ==> t in finished[..k]
  }

  ghost predicate Bookkeeping<D>(s: Search<D>) {
    && Distinct(s.order) && Distinct(s.active)
    && (forall c :: c in s.visited <==> c in s.order)
    && (forall c :: c in s.visited <==> c in s.active || c in s.finished)
    && (forall c :: c in s.active ==> c !in s.finished)
  }

  ghost predicate Explored<D>(graph: Graph<D>, root: Node, s: Search<D>) {
    && IsPath(graph, s.active)
    && (forall c :: c in s.visited ==> Reachable(graph, root, c))
    && (forall c, t :: c in s.finished && t in graph.targets(c) ==> t in s.visited)
  }

  ghost predicate Verdict<D>(graph: Graph<D>, root: Node, s: Search<D>) {
    && CyclesAreReal(graph, root, s.reports)
    && (!ReportsCycle(s.reports) ==> FinishingOrder(graph, s.finished))
  }

  ghost predicate Invariant<D>(graph: Graph<D>, root: Node, s: Search<D>) {
    Bookkeeping(s) && Explored(graph, root, s) && Verdict(graph, root, s)
  }

  /** Nothing that was visited, finished or reported is forgotten. */
  ghost predicate Grows<D>(s: Search<D>, r: Search<D>) {
    && s.visited <= r.visited
    && s.finished <= r.finished
    && s.reports <= r.reports
  }

  /** `n` may be entered: it is the root, or a target of the innermost active node. */
  ghost predicate MayEnter<D>(graph: Graph<D>, root: Node, active: seq<Node>, n: Node) {
    if active == [] then n == root else n in graph.targets(active[|active| - 1])
  }

  lemma ReachableStep<D>(graph: Graph<D>, root: Node, a: Node, b: Node)
    requires Reachable(graph, root, a) && b in graph.targets(a)
    ensures Reachable(graph, root, b)
  {
    var path :| PathFromTo(graph, path, root, a);
    assert PathFromTo(graph, path + [b], root, b);
  }

  lemma ActiveTargetIsOnCycle<D>(graph: Graph<D>, active: seq<Node>, target: Node)
    requires IsPath(graph, active) && target in active && target in graph.targets(active[|active| - 1])
    ensures OnCycle(graph, target)
  {
    var k :| 0 <= k < |active| && active[k] == target;
    var path := active[k..] + [target];
    forall j | 1 <= j < |path|
      ensures path[j] in graph.targets(path[j - 1])
    {
      assert path[j - 1] == active[k + j - 1];
    }
    assert PathFromTo(graph, path, target, target);
  }

  lemma ReportsStay<D>(reports: seq<Report<D>>, more: seq<Report<D>>)
    ensures ReportsCycle(reports) ==> ReportsCycle(reports + more)
    ensures (forall k :: 0 <= k < |more| ==> !more[k].Cycle?) && ReportsCycle(reports + more) ==> ReportsCycle(reports)
  {
    if ReportsCycle(reports) {
      var k :| 0 <= k < |reports| && reports[k].Cycle?;
      assert (reports + more)[k].Cycle?;
    }
  }

  lemma EnteringKeepsBookkeeping<D>(graph: Graph<D>, n: Node, s: Search<D>)
    requires Bookkeeping(s) && n !in s.visited
    ensures Bookkeeping(Entered(graph, n, s))
  {
    assert forall k :: 0 <= k < |s.active| ==> s.active[k] in s.visited;
    assert forall k :: 0 <= k < |s.order| ==> s.order[k] in s.visited;
  }

  lemma EnteringKeepsInvariant<D>(graph: Graph<D>, root: Node, n: Node, s: Search<D>)
    requires Invariant(graph, root, s) && MayEnter(graph, root, s.active, n) && n !in s.visited
    ensures Invariant(graph, root, Entered(graph, n, s))
  {
    EnteringKeepsBookkeeping(graph, n, s);
    ReportsStay(s.reports, AsReports(graph.findings(n)));
    if s.active == [] {
      assert PathFromTo(graph, [n], root, n);
    } else {
      ReachableStep(graph, root, s.active[|s.active| - 1], n);
    }
  }

  lemma LeavingKeepsBookkeeping<D>(s: Search<D>)
    requires Bookkeeping(s) && s.active != []
    ensures Bookkeeping(Left(s))
  {
    var r, last := Left(s), s.active[|s.active| - 1];
    assert s.active == r.active + [last];
    assert last in s.active;
    forall c
      ensures c in s.active <==> c in r.active || c == last
    {
    }
    assert last !in r.active;
  }

  lemma LeavingKeepsInvariant<D>(graph: Graph<D>, root: Node, s: Search<D>)
    requires Invariant(graph, root, s) && s.active != []
    requires forall t :: t in graph.targets(s.active[|s.active| - 1]) ==>
               t in s.visited && (ReportsCycle(s.reports) || t in s.finished)
    ensures Invariant(graph, root, Left(s))
  {
    var r := Left(s);
    LeavingKeepsBookkeeping(s);
    forall k, t | !ReportsCycle(r.reports) && 0 <= k < |r.finished| && t in graph.targets(r.finished[k])
      ensures t in r.finished[..k]
    {
      if k < |s.finished| {
        assert s.finished[..k] == r.finished[..k] && s.finished[k] == r.finished[k];
      } else {
        assert r.finished[..k] == s.finished;
      }
    }
  }

  /** What a visit of `n` that turns `s` into `r` guarantees. */
  ghost predicate GoodVisit<D>(graph: Graph<D>, root: Node, nodes: seq<Node>, s: Search<D>, r: Search<D>) {
    && Invariant(graph, root, r) && Grows(s, r)
    && forall c :: c in nodes ==> c in r.visited && (ReportsCycle(r.reports) || c in r.finished)
  }

  /** Following an edge to an active node closes a real cycle. */
  lemma Revisit<D>(graph: Graph<D>, root: Node, n: Node, s: Search<D>)
    requires Invariant(graph, root, s) && MayEnter(graph, root, s.active, n) && n in s.active
    ensures GoodVisit(graph, root, [n], s, Reported(n, s))
  {
    ActiveTargetIsOnCycle(graph, s.active, n);
    assert Reported(n, s).reports[|s.reports|].Cycle?;
    assert n in s.visited;
  }

  lemma Skip<D>(graph: Graph<D>, root: Node, n: Node, s: Search<D>)
    requires Invariant(graph, root, s) && n in s.visited && n !in s.active
    ensures GoodVisit(graph, root, [n], s, s)
  {
  }

  /** Entering `n`, searching below it, and leaving it again. */
  lemma RoundTrip<D>(graph: Graph<D>, root: Node, n: Node, s: Search<D>, below: Search<D>)
    requires GoodVisit(graph, root, graph.targets(n), Entered(graph, n, s), below)
    requires below.active == s.active + [n]
    ensures GoodVisit(graph, root, [n], s, Left(below))
  {
    var entered, r := Entered(graph, n, s), Left(below);
    LeavingKeepsInvariant(graph, root, below);
    assert r.finished[|below.finished|] == n;
    assert n in entered.visited;
  }

  lemma {:induction false} VisitKeepsInvariant<D>(
    graph: Graph<D>, maxDepth: nat, root: Node, n: Node, depth: nat, s: Search<D>)
    requires Invariant(graph, root, s) && MayEnter(graph, root, s.active, n)
    requires Visit(graph, maxDepth, n, depth, s).Some?
    ensures var r := Visit(graph, maxDepth, n, depth, s).value;
            GoodVisit(graph, root, [n], s, r)
    decreases maxDepth - depth, 0, 0
  {
    if n in s.active {
      Revisit(graph, root, n, s);
    } else if n in s.visited {
      Skip(graph, root, n, s);
    } else {
      var entered := Entered(graph, n, s);
      EnteringKeepsInvariant(graph, root, n, s);
      VisitAllKeepsInvariant(graph, maxDepth, root, graph.targets(n), depth + 1, entered);
      var below := VisitAll(graph, maxDepth, graph.targets(n), depth + 1, entered).value;
      RoundTrip(graph, root, n, s, below);
    }
  }

  lemma {:induction false} VisitAllKeepsInvariant<D>(
    graph: Graph<D>, maxDepth: nat, root: Node, nodes: seq<Node>, depth: nat, s: Search<D>)
    requires Invariant(graph, root, s) && s.active != []
    requires forall c :: c in nodes ==> c in graph.targets(s.active[|s.active| - 1])
    requires VisitAll(graph, maxDepth, nodes, depth, s).Some?
    ensures var r := VisitAll(graph, maxDepth, nodes, depth, s).value;
            GoodVisit(graph, root, nodes, s, r)
    decreases maxDepth - depth, 1, |nodes|
  {
    if nodes != [] {
      assert nodes[0] in nodes && nodes[0] in [nodes[0]];
      assert forall c :: c in nodes <==> c == nodes[0] || c in nodes[1..];
      VisitKeepsInvariant(graph, maxDepth, root, nodes[0], depth, s);
      var next := Visit(graph, maxDepth, nodes[0], depth, s).value;
      VisitAllKeepsInvariant(graph, maxDepth, root, nodes[1..], depth, next);
      var r := VisitAll(graph, maxDepth, nodes[1..], depth, next).value;
      ReportsStay(next.reports, r.reports[|next.reports|..]);
      assert r.reports == next.reports + r.reports[|next.reports|..];
    }
  }

  // ----- The theorems -----

  lemma SearchFromRoot<D>(graph: Graph<D>, maxDepth: nat, root: Node)
    requires Visit(graph, maxDepth, root, 0, Start()).Some?
    ensures var r := Visit(graph, maxDepth, root, 0, Start()).value;
            Invariant(graph, root, r) && r.active == [] && root in r.visited
  {
    VisitKeepsInvariant(graph, maxDepth, root, root, 0, Start());
    assert root in [root];
  }

  lemma TailIsPath<D>(graph: Graph<D>, path: seq<Node>)
    requires 1 < |path| && IsPath(graph, path)
    ensures IsPath(graph, path[1..]) && path[1] in graph.targets(path[0])
  {
    forall k | 1 <= k < |path[1..]|
      ensures path[1..][k] in graph.targets(path[1..][k - 1])
    {
      assert path[k + 1] in graph.targets(path[k + 1 - 1]);
    }
  }

  lemma {:induction false} ClosedUnderPaths<D>(graph: Graph<D>, closed: set<Node>, path: seq<Node>)
    requires path != [] && IsPath(graph, path) && path[0] in closed
    requires forall c, t :: c in closed && t in graph.targets(c) ==> t in closed
    ensures path[|path| - 1] in closed
    decreases |path|
  {
    if 1 < |path| {
      TailIsPath(graph, path);
      ClosedUnderPaths(graph, closed, path[1..]);
    }
  }

  /** A finished search has opened exactly the reachable nodes, each once. */
  lemma OpensExactlyTheReachable<D>(graph: Graph<D>, maxDepth: nat, root: Node)
    requires Visit(graph, maxDepth, root, 0, Start()).Some?
    ensures var r := Visit(graph, maxDepth, root, 0, Start()).value;
            && Distinct(r.order)
            && (forall c :: c in r.order <==> c in r.finished)
            && (forall c :: c in r.order <==> Reachable(graph, root, c))
  {
    var r := Visit(graph, maxDepth, root, 0, Start()).value;
    SearchFromRoot(graph, maxDepth, root);
    forall c | Reachable(graph, root, c)
      ensures c in r.order
    {
      var path :| PathFromTo(graph, path, root, c);
      ClosedUnderPaths(graph, r.visited, path);
    }
  }

  /** Along a path the finishing position strictly decreases. */
  lemma {:induction false} PathsDescend<D>(graph: Graph<D>, finished: seq<Node>, path: seq<Node>, start: nat)
    returns (end: nat)
    requires FinishingOrder(graph, finished)
    requires path != [] && IsPath(graph, path) && start < |finished| && finished[start] == path[0]
    ensures end <= start - (|path| - 1) && finished[end] == path[|path| - 1]
    decreases |path|
  {
    if |path| == 1 {
      end := start;
    } else {
      TailIsPath(graph, path);
      var k :| 0 <= k < |finished[..start]| && finished[..start][k] == path[1];
      end := PathsDescend(graph, finished, path[1..], k);
    }
  }

  lemma {:induction false} FirstIndex(s: seq<Node>, c: Node) returns (k: nat)
    requires c in s
    ensures k < |s| && s[k] == c && c !in s[..k]
  {
    if s[0] == c {
      k := 0;
    } else {
      k := FirstIndex(s[1..], c);
      assert s[..k + 1] == [s[0]] + s[1..][..k];
      k := k + 1;
    }
  }

  /** A cycle would lead from a node's first finishing position to an earlier one. */
  lemma FinishedIsAcyclic<D>(graph: Graph<D>, finished: seq<Node>, n: Node)
    requires FinishingOrder(graph, finished) && n in finished
    ensures !OnCycle(graph, n)
  {
    forall path | 1 < |path|
      ensures !PathFromTo(graph, path, n, n)
    {
      if PathFromTo(graph, path, n, n) {
        var k := FirstIndex(finished, n);
        var end := PathsDescend(graph, finished, path, k);
      }
    }
  }

  /** A finished search has reported a cycle exactly when the graph reachable from
      the root has one, and every reported target is reachable and on a cycle. */
  lemma ReportsExactlyTheCycles<D>(graph: Graph<D>, maxDepth: nat, root: Node)
    requires Visit(graph, maxDepth, root, 0, Start()).Some?
    ensures var r := Visit(graph, maxDepth, root, 0, Start()).value;
            && CyclesAreReal(graph, root, r.reports)
            && (ReportsCycle(r.reports) <==> exists c :: Reachable(graph, root, c) && OnCycle(graph, c))
  {
    var r := Visit(graph, maxDepth, root, 0, Start()).value;
    SearchFromRoot(graph, maxDepth, root);
    OpensExactlyTheReachable(graph, maxDepth, root);
    if !ReportsCycle(r.reports) {
      forall c | Reachable(graph, root, c)
        ensures !OnCycle(graph, c)
      {
        FinishedIsAcyclic(graph, r.finished, c);
      }
    }
  }

  // ----- The order of opening -----

  /** Everything that `n` leads to has been opened. */
  ghost predicate Saturated<D>(graph: Graph<D>, before: seq<Node>, n: Node) {
    forall t :: t in graph.targets(n) ==> t in before
  }

  /** `n` is the next to open after `before`: the first target not opened yet of the
      latest opened node that has such a target. `from` is that node's position. */
  ghost predicate ComesNext<D>(graph: Graph<D>, before: seq<Node>, n: Node, from: nat, target: nat) {
    && n !in before && from < |before|
    && target < |graph.targets(before[from])| && graph.targets(before[from])[target] == n
    && (forall u :: 0 <= u < target ==> graph.targets(before[from])[u] in before)
    && (forall k :: from < k < |before| ==> Saturated(graph, before, before[k]))
  }

  ghost predicate OpenedInTurn<D>(graph: Graph<D>, order: seq<Node>, i: nat)
    requires i < |order|
  {
    exists from, target :: ComesNext(graph, order[..i], order[i], from, target)
  }

  /** Depth-first preorder, node by node. */
  ghost predicate IsPreorder<D>(graph: Graph<D>, order: seq<Node>) {
    forall i :: 1 <= i < |order| ==> OpenedInTurn(graph, order, i)
  }

  ghost predicate Before(order: seq<Node>, c: Node, d: Node) {
    forall i, j :: 0 <= i < |order| && 0 <= j < |order| && order[i] == c && order[j] == d ==> i < j
  }

  /** The active nodes were opened one after the other. */
  ghost predicate Ascending(order: seq<Node>, active: seq<Node>) {
    && (forall c :: c in active ==> c in order)
    && (forall a, b :: 0 <= a < b < |active| ==> Before(order, active[a], active[b]))
  }

  ghost predicate Preordered<D>(graph: Graph<D>, s: Search<D>) {
    IsPreorder(graph, s.order) && Ascending(s.order, s.active)
  }

  lemma PreorderGrows<D>(graph: Graph<D>, order: seq<Node>, n: Node)
    requires IsPreorder(graph, order)
    requires order != [] ==> exists from, target :: ComesNext(graph, order, n, from, target)
    ensures IsPreorder(graph, order + [n])
  {
    var more := order + [n];
    forall i | 1 <= i < |more|
      ensures OpenedInTurn(graph, more, i)
    {
      if i < |order| {
        assert OpenedInTurn(graph, order, i) && more[..i] == order[..i];
        var from, target :| ComesNext(graph, order[..i], order[i], from, target);
        assert ComesNext(graph, more[..i], more[i], from, target);
      } else {
        var from, target :| ComesNext(graph, order, n, from, target);
        assert more[..i] == order && ComesNext(graph, more[..i], more[i], from, target);
      }
    }
  }

  lemma AscendingGrows(order: seq<Node>, more: seq<Node>, active: seq<Node>)
    requires Ascending(order, active) && order <= more && Distinct(more)
    ensures Ascending(more, active)
  {
    forall a, b | 0 <= a < b < |active|
      ensures Before(more, active[a], active[b])
    {
      assert active[a] in order && active[b] in order;
      forall i, j | 0 <= i < |more| && 0 <= j < |more| && more[i] == active[a] && more[j] == active[b]
        ensures i < j
      {
        assert i < |order| && order[i] == active[a] && j < |order| && order[j] == active[b];
      }
    }
  }

  lemma AscendingEnters(order: seq<Node>, active: seq<Node>, n: Node)
    requires Ascending(order, active) && Distinct(order) && n !in order
    ensures Ascending(order + [n], active + [n])
  {
    var more := active + [n];
    AscendingGrows(order, order + [n], active);
    forall a, b | 0 <= a < b < |more|
      ensures Before(order + [n], more[a], more[b])
    {
      if b < |active| {
        assert Before(order + [n], active[a], active[b]);
      } else {
        assert active[a] in active;
      }
    }
  }

  /** A target of the innermost active node, its earlier targets visited, is next. */
  lemma TargetComesNext<D>(graph: Graph<D>, root: Node, s: Search<D>, target: nat) returns (from: nat)
    requires Invariant(graph, root, s) && Preordered(graph, s) && s.active != []
    requires var targets := graph.targets(s.active[|s.active| - 1]);
             && target < |targets| && targets[target] !in s.visited
             && forall u :: 0 <= u < target ==> targets[u] in s.visited
    ensures ComesNext(graph, s.order, graph.targets(s.active[|s.active| - 1])[target], from, target)
  {
    var innermost := s.active[|s.active| - 1];
    assert innermost in s.active;
    from :| 0 <= from < |s.order| && s.order[from] == innermost;
    forall k | from < k < |s.order|
      ensures Saturated(graph, s.order, s.order[k])
    {
      LaterIsInactive(s.order, s.active, from, k);
      assert s.order[k] in s.visited && s.order[k] in s.finished;
    }
  }

  /** What was opened after the innermost active node is not active any more. */
  lemma LaterIsInactive(order: seq<Node>, active: seq<Node>, from: nat, k: nat)
    requires Distinct(order) && Ascending(order, active) && active != []
    requires from < k < |order| && order[from] == active[|active| - 1]
    ensures order[k] !in active
  {
    forall a | 0 <= a < |active|
      ensures active[a] != order[k]
    {
      assert a < |active| - 1 ==> Before(order, active[a], order[from]);
    }
  }

  lemma EnteringIsPreordered<D>(graph: Graph<D>, root: Node, n: Node, s: Search<D>, target: nat)
    requires Invariant(graph, root, s) && Preordered(graph, s) && n !in s.visited
    requires if s.active == [] then s.order == []
             else
               var targets := graph.targets(s.active[|s.active| - 1]);
               && target < |targets| && targets[target] == n
               && forall u :: 0 <= u < target ==> targets[u] in s.visited
    ensures Preordered(graph, Entered(graph, n, s))
  {
    if s.active != [] {
      var from := TargetComesNext(graph, root, s, target);
    }
    PreorderGrows(graph, s.order, n);
    AscendingEnters(s.order, s.active, n);
  }

  lemma LeavingIsPreordered<D>(graph: Graph<D>, s: Search<D>)
    requires Preordered(graph, s) && s.active != []
    ensures Preordered(graph, Left(s))
  {}

  /** Nodes are opened in depth-first preorder: visiting the `target`-th target of the
      innermost active node, or the root. */
  lemma {:induction false} VisitIsPreorder<D>(
    graph: Graph<D>, maxDepth: nat, root: Node, n: Node, depth: nat, s: Search<D>, target: nat)
    requires Invariant(graph, root, s) && MayEnter(graph, root, s.active, n) && Preordered(graph, s)
    requires if s.active == [] then s.order == []
             else
               var targets := graph.targets(s.active[|s.active| - 1]);
               && target < |targets| && targets[target] == n
               && forall u :: 0 <= u < target ==> targets[u] in s.visited
    requires Visit(graph, maxDepth, n, depth, s).Some?
    ensures var r := Visit(graph, maxDepth, n, depth, s).value;
            && Preordered(graph, r) && s.order <= r.order
            && (n !in s.visited ==> s.order + [n] <= r.order)
    decreases maxDepth - depth, 0, 0
  {
    if n in s.active || n in s.visited {
      assert n in s.visited;
    } else {
      var entered := Entered(graph, n, s);
      EnteringIsPreordered(graph, root, n, s, target);
      EnteringKeepsInvariant(graph, root, n, s);
      assert entered.active[|entered.active| - 1] == n;
      VisitAllIsPreorder(graph, maxDepth, root, 0, depth + 1, entered);
      assert graph.targets(n)[0..] == graph.targets(n);
      LeavingIsPreordered(graph, VisitAll(graph, maxDepth, graph.targets(n), depth + 1, entered).value);
    }
  }

  lemma {:induction false} VisitAllIsPreorder<D>(
    graph: Graph<D>, maxDepth: nat, root: Node, from: nat, depth: nat, s: Search<D>)
    requires Invariant(graph, root, s) && Preordered(graph, s) && s.active != []
    requires var targets := graph.targets(s.active[|s.active| - 1]);
             && from <= |targets| && (forall u :: 0 <= u < from ==> targets[u] in s.visited)
             && VisitAll(graph, maxDepth, targets[from..], depth, s).Some?
    ensures var targets := graph.targets(s.active[|s.active| - 1]);
            var r := VisitAll(graph, maxDepth, targets[from..], depth, s).value;
            Preordered(graph, r) && s.order <= r.order
    decreases maxDepth - depth, 1, |graph.targets(s.active[|s.active| - 1])| - from
  {
    var targets := graph.targets(s.active[|s.active| - 1]);
    if from < |targets| {
      assert targets[from..][0] == targets[from] && targets[from..][1..] == targets[from + 1..];
      VisitIsPreorder(graph, maxDepth, root, targets[from], depth, s, from);
      VisitKeepsInvariant(graph, maxDepth, root, targets[from], depth, s);
      var next := Visit(graph, maxDepth, targets[from], depth, s).value;
      assert targets[from] in [targets[from]];
      VisitAllIsPreorder(graph, maxDepth, root, from + 1, depth, next);
    }
  }

  /** A finished search opened the root first and the rest in depth-first preorder. */
  lemma OpensInPreorder<D>(graph: Graph<D>, maxDepth: nat, root: Node)
    requires Visit(graph, maxDepth, root, 0, Start()).Some?
    ensures var order := Visit(graph, maxDepth, root, 0, Start()).value.order;
            order != [] && order[0] == root && IsPreorder(graph, order)
  {
    VisitIsPreorder(graph, maxDepth, root, root, 0, Start(), 0);
    var order := Visit(graph, maxDepth, root, 0, Start()).value.order;
    assert [] + [root] == [root] && [root] <= order;
  }

  // ----- The findings -----

  ghost predicate FoundOn<D>(graph: Graph<D>, order: seq<Node>, d: D) {
    exists k :: 0 <= k < |order| && d in graph.findings(order[k])
  }

  ghost predicate Tells<D>(graph: Graph<D>, s: Search<D>, d: D) {
    Other(d) in s.reports <==> FoundOn(graph, s.order, d)
  }

  lemma EnteringTells<D>(graph: Graph<D>, n: Node, s: Search<D>, d: D)
    requires Tells(graph, s, d)
    ensures Tells(graph, Entered(graph, n, s), d)
  {
    var r, own := Entered(graph, n, s), AsReports(graph.findings(n));
    assert r.order[|s.order|] == n;
    assert forall k :: 0 <= k < |s.order| ==> r.order[k] == s.order[k];
    if d in graph.findings(n) {
      var k :| 0 <= k < |own| && graph.findings(n)[k] == d;
      assert own[k] == Other(d);
    }
  }

  lemma {:induction false} VisitTells<D>(
    graph: Graph<D>, maxDepth: nat, n: Node, depth: nat, s: Search<D>, d: D)
    requires Tells(graph, s, d) && Visit(graph, maxDepth, n, depth, s).Some?
    ensures Tells(graph, Visit(graph, maxDepth, n, depth, s).value, d)
    decreases maxDepth - depth, 0, 0
  {
    if n !in s.active && n !in s.visited {
      EnteringTells(graph, n, s, d);
      VisitAllTells(graph, maxDepth, graph.targets(n), depth + 1, Entered(graph, n, s), d);
    }
  }

  lemma {:induction false} VisitAllTells<D>(
    graph: Graph<D>, maxDepth: nat, nodes: seq<Node>, depth: nat, s: Search<D>, d: D)
    requires Tells(graph, s, d) && VisitAll(graph, maxDepth, nodes, depth, s).Some?
    ensures Tells(graph, VisitAll(graph, maxDepth, nodes, depth, s).value, d)
    decreases maxDepth - depth, 1, |nodes|
  {
    if nodes != [] {
      VisitTells(graph, maxDepth, nodes[0], depth, s, d);
      VisitAllTells(graph, maxDepth, nodes[1..], depth, Visit(graph, maxDepth, nodes[0], depth, s).value, d);
    }
  }

  /** A finished search reports exactly what it found on the nodes it opened. */
  lemma ReportsTheFindings<D>(graph: Graph<D>, maxDepth: nat, root: Node, d: D)
    requires Visit(graph, maxDepth, root, 0, Start()).Some?
    ensures var r := Visit(graph, maxDepth, root, 0, Start()).value;
            Other(d) in r.reports <==> exists c :: c in r.order && d in graph.findings(c)
  {
    VisitTells(graph, maxDepth, root, 0, Start(), d);
    var r := Visit(graph, maxDepth, root, 0, Start()).value;
    if c :| c in r.order && d in graph.findings(c) {
      var k :| 0 <= k < |r.order| && r.order[k] == c;
    }
  }
}
