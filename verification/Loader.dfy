/** The project loader: closing the import frontier in bounded waves under
    budgets on files, requests and source bytes. */
module ProjectLoading {
  import opened Wrappers
  import opened Sequences
  import opened ResolutionCaching

  /** A canonical path. */
  type Node = string

  /** The bytes of a source. */
  type Text = seq<Byte>

  /** A module request as it stands in a source. */
  datatype Occurrence = Occurrence(kind: RequestKind, range: Range)

  /** What the boundary says about the path of an internal target. */
  datatype Classified = Accepted(path: Node) | Dropped | Broken

  /** The filesystem, the source analysis and the resolver, as functions of
      canonical paths. `None` stands for an operational error. */
  datatype Files = Files(
    relative: Node -> string,
    length: Node -> Option<nat>,
    text: Node -> Option<Text>,
    occurrences: Node -> seq<Occurrence>,
    specifier: (Node, Range) -> string,
    resolver: Resolver,
    classify: string -> Classified)

  datatype Limits = Limits(maxFiles: nat, maxRequests: nat, maxSourceBytes: nat)

  datatype LoadError =
    | Timeout
    | TooManyFiles
    | TooManyRequests
    | SourceTooLarge
    | Io
    | AnalysisFailed
    | ResolutionFailed

  // ----- The closure of the import graph -----

  /** The requests of a source. The range of a request is that of its specifier,
      so a range holds one specifier. */
  function RequestsOf(files: Files, n: Node): (requests: seq<Request>)
    ensures forall q :: q in requests ==>
              q.key.importer == files.relative(n) && q.specifier == files.specifier(n, q.key.range)
    ensures |requests| == |files.occurrences(n)|
    ensures forall k :: 0 <= k < |requests| ==>
              var o := files.occurrences(n)[k];
              requests[k] == Request(RequestKey(files.relative(n), o.kind, o.range), files.specifier(n, o.range))
  {
    var found := files.occurrences(n);
    seq(|found|, k requires 0 <= k < |found| =>
          Request(RequestKey(files.relative(n), found[k].kind, found[k].range), files.specifier(n, found[k].range)))
  }

  /** The accepted internal target of a request, if there is one. */
  function Follow(files: Files, request: Request): Option<Node> {
    match files.resolver(Semantics(request.key.importer, request.key.kind, request.specifier))
    case Some(Internal(path)) =>
      (match files.classify(path)
       case Accepted(target) => Some(target)
       case _ => None)
    case _ => None
  }

  /** Occurrence `k` of `n` resolves to the internal path `p`, accepted as `t`. */
  ghost predicate ImportAt(files: Files, n: Node, k: int, p: string, t: Node) {
    && 0 <= k < |files.occurrences(n)| && files.classify(p) == Accepted(t)
    && var o := files.occurrences(n)[k];
       files.resolver(Semantics(files.relative(n), o.kind, files.specifier(n, o.range))) == Some(Internal(p))
  }

  ghost predicate Imports(files: Files, n: Node, t: Node) {
    exists k, p :: ImportAt(files, n, k, p, t)
  }

  /** A chain of imports leads from one of the initial paths to `n`. */
  ghost predicate IsImportChain(files: Files, initial: seq<Node>, chain: seq<Node>, n: Node) {
    && chain != [] && chain[0] in initial && chain[|chain| - 1] == n
    && forall k :: 1 <= k < |chain| ==> Imports(files, chain[k - 1], chain[k])
  }

  ghost predicate Reached(files: Files, initial: seq<Node>, n: Node) {
    exists chain :: IsImportChain(files, initial, chain, n)
  }

  /** Following the requests of a file is following its imports. */
  lemma RequestsAreImports(files: Files, n: Node, t: Node)
    ensures Imports(files, n, t) <==> exists q :: q in RequestsOf(files, n) && Follow(files, q) == Some(t)
  {
    var requests := RequestsOf(files, n);
    if Imports(files, n, t) {
      var k, p :| ImportAt(files, n, k, p, t);
      assert requests[k] in requests && Follow(files, requests[k]) == Some(t);
    }
    if q :| q in requests && Follow(files, q) == Some(t) {
      var k :| 0 <= k < |requests| && requests[k] == q;
      assert ImportAt(files, n, k, files.resolver(Semantics(q.key.importer, q.key.kind, q.specifier)).value.path, t);
    }
  }

  ghost predicate ClosedUnderImports(files: Files, nodes: iset<Node>) {
    forall n, request :: n in nodes && request in RequestsOf(files, n) && Follow(files, request).Some? ==>
      Follow(files, request).value in nodes
  }

  ghost predicate Contains(nodes: iset<Node>, initial: seq<Node>) {
    forall k :: 0 <= k < |initial| ==> initial[k] in nodes
  }

  /** The least set that contains the initial paths and is closed under imports. */
  ghost function Closure(files: Files, initial: seq<Node>): iset<Node> {
    iset n: Node | InEveryClosedSet(files, initial, n)
  }

  ghost predicate InEveryClosedSet(files: Files, initial: seq<Node>, n: Node) {
    forall nodes: iset<Node> :: ClosedUnderImports(files, nodes) && Contains(nodes, initial) ==> n in nodes
  }

  lemma ClosureIsClosed(files: Files, initial: seq<Node>)
    ensures ClosedUnderImports(files, Closure(files, initial)) && Contains(Closure(files, initial), initial)
  {
    forall n, request | n in Closure(files, initial) && request in RequestsOf(files, n) && Follow(files, request).Some?
      ensures Follow(files, request).value in Closure(files, initial)
    {
      forall nodes: iset<Node> | ClosedUnderImports(files, nodes) && Contains(nodes, initial)
        ensures Follow(files, request).value in nodes
      {
        assert n in nodes;
      }
    }
  }

  lemma ReachedGrows(files: Files, initial: seq<Node>, n: Node, t: Node)
    requires Reached(files, initial, n) && Imports(files, n, t)
    ensures Reached(files, initial, t)
  {
    var chain :| IsImportChain(files, initial, chain, n);
    assert IsImportChain(files, initial, chain + [t], t);
  }

  /** Nothing is in the closure that no chain of imports leads to. */
  lemma ClosureIsLeast(files: Files, initial: seq<Node>, n: Node)
    requires n in Closure(files, initial)
    ensures Reached(files, initial, n)
  {
    var reached := iset m: Node | Reached(files, initial, m);
    forall k | 0 <= k < |initial|
      ensures initial[k] in reached
    {
      assert IsImportChain(files, initial, [initial[k]], initial[k]);
    }
    forall m, q | m in reached && q in RequestsOf(files, m) && Follow(files, q).Some?
      ensures Follow(files, q).value in reached
    {
      RequestsAreImports(files, m, Follow(files, q).value);
      ReachedGrows(files, initial, m, Follow(files, q).value);
    }
    assert ClosedUnderImports(files, reached) && Contains(reached, initial);
  }

  lemma ClosureHoldsImports(files: Files, initial: seq<Node>, n: Node, t: Node)
    requires n in Closure(files, initial) && Imports(files, n, t)
    ensures t in Closure(files, initial)
  {
    ClosureIsClosed(files, initial);
    RequestsAreImports(files, n, t);
    var q :| q in RequestsOf(files, n) && Follow(files, q) == Some(t);
  }

  lemma ClosureIsReached(files: Files, initial: seq<Node>, kept: seq<Node>)
    requires forall k :: 0 <= k < |initial| ==> initial[k] in kept
    requires forall k, r :: 0 <= k < |kept| && r in RequestsOf(files, kept[k]) && Follow(files, r).Some? ==>
               Follow(files, r).value in kept
    ensures forall n :: n in Closure(files, initial) ==> n in kept
  {
    var reached := iset n | n in kept;
    assert ClosedUnderImports(files, reached) && Contains(reached, initial);
  }

  /** No two of the files share a project-relative path. */
  ghost predicate OwnPaths(files: Files, nodes: iset<Node>) {
    forall m, n :: m in nodes && n in nodes && files.relative(m) == files.relative(n) ==> m == n
  }

  /** An occurrence key identifies the occurrence, hence its specifier. */
  lemma KeysAreStable(files: Files, nodes: iset<Node>, m: Node, q: Request, n: Node, r: Request)
    requires OwnPaths(files, nodes) && m in nodes && n in nodes
    requires q in RequestsOf(files, m) && r in RequestsOf(files, n) && q.key == r.key
    ensures SemanticsOf(q) == SemanticsOf(r)
  {
  }

  // ----- Retained sources -----

  function TextOf(files: Files, n: Node): Text {
    match files.text(n)
    case Some(text) => text
    case None => []
  }

  function Retained(files: Files, kept: seq<Node>): map<string, Text> {
    if kept == [] then map[]
    else
      var last := kept[|kept| - 1];
      Retained(files, kept[..|kept| - 1])[files.relative(last) := TextOf(files, last)]
  }

  lemma RetainedSnoc(files: Files, kept: seq<Node>, last: Node)
    ensures Retained(files, kept + [last]) == Retained(files, kept)[files.relative(last) := TextOf(files, last)]
  {
    assert (kept + [last])[..|kept|] == kept;
  }

  ghost predicate IsTextFrom(files: Files, nodes: iset<Node>, path: string, text: Text) {
    exists n :: n in nodes && files.relative(n) == path && TextOf(files, n) == text
  }

  /** Every retained text is that of one of the files, and no file is without entry. */
  lemma {:induction false} RetainedFromKept(files: Files, kept: seq<Node>, nodes: iset<Node>)
    requires forall n :: n in kept ==> n in nodes
    ensures |Retained(files, kept)| <= |kept|
    ensures forall path :: path in Retained(files, kept) ==>
              IsTextFrom(files, nodes, path, Retained(files, kept)[path])
    ensures forall n :: n in kept ==> files.relative(n) in Retained(files, kept)
  {
    if kept != [] {
      var init, last := kept[..|kept| - 1], kept[|kept| - 1];
      RetainedFromKept(files, init, nodes);
      assert kept == init + [last] && last in kept;
      assert IsTextFrom(files, nodes, files.relative(last), TextOf(files, last));
    }
  }

  /** When no two retained files share a project-relative path, every one of them
      is found under its own path with its own text, and nothing else is. */
  lemma {:induction false} RetainedEntries(files: Files, kept: seq<Node>)
    requires forall j, k :: 0 <= j < k < |kept| ==> files.relative(kept[j]) != files.relative(kept[k])
    ensures forall k :: 0 <= k < |kept| ==>
              && files.relative(kept[k]) in Retained(files, kept)
              && Retained(files, kept)[files.relative(kept[k])] == TextOf(files, kept[k])
    ensures |Retained(files, kept)| == |kept|
    ensures forall path :: path in Retained(files, kept) ==>
              exists k :: 0 <= k < |kept| && files.relative(kept[k]) == path
  {
    if kept != [] {
      var init, last := kept[..|kept| - 1], kept[|kept| - 1];
      RetainedEntries(files, init);
      assert forall k :: 0 <= k < |init| ==> init[k] == kept[k];
      assert files.relative(last) !in Retained(files, init);
    }
  }

  function TotalLength(files: Files, kept: seq<Node>): nat {
    if kept == [] then 0
    else TotalLength(files, kept[..|kept| - 1]) + |TextOf(files, kept[|kept| - 1])|
  }

  lemma TotalLengthSnoc(files: Files, kept: seq<Node>, last: Node)
    ensures TotalLength(files, kept + [last]) == TotalLength(files, kept) + |TextOf(files, last)|
    ensures files.text(last).Some? ==>
              TotalLength(files, kept + [last]) == TotalLength(files, kept) + |files.text(last).value|
  {
    assert (kept + [last])[..|kept|] == kept;
  }

  lemma {:induction false} TotalLengthConcat(files: Files, a: seq<Node>, b: seq<Node>)
    ensures TotalLength(files, a + b) == TotalLength(files, a) + TotalLength(files, b)
    decreases |b|
  {
    if b == [] {
      assert a + b == a;
    } else {
      assert (a + b)[..|a + b| - 1] == a + b[..|b| - 1];
      TotalLengthConcat(files, a, b[..|b| - 1]);
    }
  }

  lemma DistinctConcat(a: seq<Node>, b: seq<Node>)
    requires Distinct(a) && Distinct(b) && forall k :: 0 <= k < |b| ==> b[k] !in a
    ensures Distinct(a + b)
  {
    assert forall k :: 0 <= k < |a| ==> a[k] in a;
  }

  /** A duplicate-free sequence is no longer than a set that holds it. */
  lemma {:induction false} DistinctFits(s: seq<Node>, bound: set<Node>)
    requires Distinct(s) && forall k :: 0 <= k < |s| ==> s[k] in bound
    ensures |s| <= |bound|
  {
    if s != [] {
      DistinctFits(s[..|s| - 1], bound - {s[|s| - 1]});
    }
  }

  // ----- Queue, acceptance and metrics -----

  /** A first-in first-out queue that takes every path at most once. */
  class PathWorkQueue {
    var queue: seq<Node>
    var seen: set<Node>

    ghost predicate Valid()
      reads this
    {
      Distinct(queue) && forall k :: 0 <= k < |queue| ==> queue[k] in seen
    }

    constructor ()
      ensures Valid() && queue == [] && seen == {}
    {
      queue, seen := [], {};
    }

    method Push(path: Node)
      requires Valid()
      modifies this
      ensures Valid() && seen == old(seen) + {path}
      ensures queue == if path in old(seen) then old(queue) else old(queue) + [path]
    {
      if path !in seen {
        seen := seen + {path};
        queue := queue + [path];
      }
    }

    method PopFront() returns (r: Option<Node>)
      requires Valid()
      modifies this`queue
      ensures Valid()
      ensures r.None? ==> old(queue) == [] && queue == []
      ensures r.Some? ==> old(queue) == [r.value] + queue
    {
      if queue == [] {
        return None;
      }
      r := Some(queue[0]);
      queue := queue[1..];
    }

    method Extend(paths: seq<Node>)
      requires Valid()
      modifies this
      ensures Valid()
      ensures forall n :: n in seen <==> n in old(seen) || n in paths
      ensures forall n :: n in seen && n !in old(seen) ==> n in queue
      ensures old(queue) <= queue
    {
      for k := 0 to |paths|
        invariant Valid()
        invariant forall n :: n in seen ==> n in old(seen) || n in paths
        invariant old(seen) <= seen && forall j :: 0 <= j < k ==> paths[j] in seen
        invariant forall n :: n in seen && n !in old(seen) ==> n in queue
        invariant old(queue) <= queue
      {
        Push(paths[k]);
      }
    }
  }

  /** The accepted paths, charged to a file budget. */
  class AcceptedPaths {
    const limit: nat
    var paths: set<Node>
    var count: nat

    ghost predicate Valid()
      reads this
    {
      count == |paths| && count <= limit
    }

    constructor (limit: nat)
      ensures Valid() && this.limit == limit && paths == {}
    {
      this.limit, paths, count := limit, {}, 0;
    }

    /** Whether the path is new; `None` when it would exceed the budget. */
    method Accept(path: Node) returns (r: Option<bool>)
      requires Valid()
      modifies this
      ensures Valid()
      ensures r == Some(false) <==> path in old(paths)
      ensures r == None <==> path !in old(paths) && |old(paths)| == limit
      ensures paths == if r == Some(true) then old(paths) + {path} else old(paths)
    {
      if path in paths {
        return Some(false);
      }
      if count + 1 > limit {
        return None;
      }
      count := count + 1;
      paths := paths + {path};
      r := Some(true);
    }
  }

  class LoadMetrics {
    var requests: nat
    var edges: nat
    var bytes: nat

    constructor ()
      ensures requests == 0 && edges == 0 && bytes == 0
    {
      requests, edges, bytes := 0, 0, 0;
    }

    /** Charges first and compares afterwards. */
    method AdmitRequests(count: nat, limit: nat) returns (ok: bool)
      modifies this`requests
      ensures requests == old(requests) + count && ok == (requests <= limit)
    {
      requests := requests + count;
      ok := requests <= limit;
    }

    method AdmitSourceBytes(count: nat, limit: nat) returns (ok: bool)
      modifies this`bytes
      ensures bytes == old(bytes) + count && ok == (bytes <= limit)
    {
      bytes := bytes + count;
      ok := bytes <= limit;
    }
  }

  // ----- The load state -----

  datatype ReadOutcome = AlreadyAccepted | Read | Deferred(error: LoadError) | Failed(error: LoadError)

  /** A file that does not fit the byte budget, by its size on disk or as read. */
  ghost predicate Overflows(files: Files, limits: Limits, path: Node, bytes: nat) {
    && files.length(path).Some?
    && (bytes + files.length(path).value > limits.maxSourceBytes
        || (files.text(path).Some? && bytes + |files.text(path).value| > limits.maxSourceBytes))
  }

  ghost predicate HoldsMore(nodes: iset<Node>, n: nat) {
    exists some: set<Node> :: |some| > n && forall node :: node in some ==> node in nodes
  }

  ghost predicate Unreadable(files: Files, n: Node) {
    files.length(n).None? || files.text(n).None?
  }

  predicate IsUnresolvable(files: Files, q: Request) {
    files.resolver(Semantics(q.key.importer, q.key.kind, q.specifier)).None?
  }

  predicate LeadsNowhere(files: Files, q: Request) {
    match files.resolver(Semantics(q.key.importer, q.key.kind, q.specifier))
    case Some(Internal(path)) => files.classify(path).Broken?
    case _ => false
  }

  ghost predicate HasUnresolvable(files: Files, nodes: iset<Node>) {
    exists n, q :: n in nodes && q in RequestsOf(files, n) && IsUnresolvable(files, q)
  }

  ghost predicate HasBrokenTarget(files: Files, nodes: iset<Node>) {
    exists n, q :: n in nodes && q in RequestsOf(files, n) && LeadsNowhere(files, q)
  }

  ghost predicate HasUnreadable(files: Files, nodes: iset<Node>) {
    exists n :: n in nodes && Unreadable(files, n)
  }

  /** Some file of the set, none of those retained, overflows what they leave of the budget. */
  ghost predicate HasOverflow(files: Files, limits: Limits, nodes: iset<Node>, kept: seq<Node>) {
    exists n :: n in nodes && n !in kept && Overflows(files, limits, n, TotalLength(files, kept))
  }

  /** What a failed load says about the files: `nodes` are those it may reach, `kept`
      the distinct ones it had retained. Deadlines and the analysis may fail anyhow. */
  ghost predicate Explains(files: Files, limits: Limits, nodes: iset<Node>, kept: seq<Node>, error: LoadError) {
    match error
    case TooManyFiles => HoldsMore(nodes, limits.maxFiles)
    case TooManyRequests => |Authored(files, kept)| > limits.maxRequests
    case SourceTooLarge => HasOverflow(files, limits, nodes, kept)
    case Io => HasUnreadable(files, nodes) || HasBrokenTarget(files, nodes)
    case ResolutionFailed => HasUnresolvable(files, nodes)
    case Timeout => true
    case AnalysisFailed => true
  }

  lemma {:induction false} AuthoredConcat(files: Files, a: seq<Node>, b: seq<Node>)
    ensures |Authored(files, a + b)| == |Authored(files, a)| + |Authored(files, b)|
  {
    if a == [] {
      assert a + b == b;
    } else {
      assert (a + b)[1..] == a[1..] + b;
      AuthoredConcat(files, a[1..], b);
    }
  }

  /** The accepted paths that fill the file budget and the one that found it full. */
  lemma FullBudget(accepted: set<Node>, wave: seq<Node>, n: Node, nodes: iset<Node>)
    requires n in wave && n !in accepted && forall m :: m in accepted || m in wave ==> m in nodes
    ensures HoldsMore(nodes, |accepted|)
  {
    var some := accepted + {n};
    assert |some| == |accepted| + 1;
  }

  ghost predicate AuthoredIn(files: Files, nodes: iset<Node>, request: Request) {
    exists n :: n in nodes && request in RequestsOf(files, n)
  }

  /** Every cached answer goes back to a request of the files. */
  ghost predicate FirstAuthored(files: Files, nodes: iset<Node>, first: map<RequestKey, Request>) {
    forall key :: key in first ==> AuthoredIn(files, nodes, first[key])
  }

  lemma FirstStayAuthored(files: Files, nodes: iset<Node>, more: iset<Node>, first: map<RequestKey, Request>)
    requires FirstAuthored(files, nodes, first) && nodes <= more
    ensures FirstAuthored(files, more, first)
  {
    forall key | key in first
      ensures AuthoredIn(files, more, first[key])
    {
      assert AuthoredIn(files, nodes, first[key]);
    }
  }

  lemma FirstGrows(files: Files, nodes: iset<Node>, first: map<RequestKey, Request>,
      now: map<RequestKey, Request>, request: Request)
    requires FirstAuthored(files, nodes, first) && AuthoredIn(files, nodes, request)
    requires now == first || now == first[request.key := request]
    ensures FirstAuthored(files, nodes, now)
  {}

  ghost predicate AllAuthored(files: Files, nodes: iset<Node>, requests: seq<Request>) {
    forall k :: 0 <= k < |requests| ==> AuthoredIn(files, nodes, requests[k])
  }

  /** The requests of several files, in some order. */
  function Authored(files: Files, nodes: seq<Node>): seq<Request> {
    if nodes == [] then [] else RequestsOf(files, nodes[0]) + Authored(files, nodes[1..])
  }

  lemma {:induction false} AuthoredMembers(files: Files, nodes: seq<Node>)
    ensures forall r :: r in Authored(files, nodes) ==> exists k :: 0 <= k < |nodes| && r in RequestsOf(files, nodes[k])
    ensures forall k, r :: 0 <= k < |nodes| && r in RequestsOf(files, nodes[k]) ==> r in Authored(files, nodes)
  {
    if nodes != [] {
      AuthoredMembers(files, nodes[1..]);
      forall r | r in Authored(files, nodes)
        ensures exists k :: 0 <= k < |nodes| && r in RequestsOf(files, nodes[k])
      {
        assert r in RequestsOf(files, nodes[0]) + Authored(files, nodes[1..]);
        if r !in RequestsOf(files, nodes[0]) {
          var k :| 0 <= k < |nodes[1..]| && r in RequestsOf(files, nodes[1..][k]);
          assert r in RequestsOf(files, nodes[k + 1]);
        }
      }
      forall k, r | 0 <= k < |nodes| && r in RequestsOf(files, nodes[k])
        ensures r in Authored(files, nodes)
      {
        if 0 < k {
          assert r in RequestsOf(files, nodes[1..][k - 1]);
        }
      }
    }
  }

  /** Distinct accepted files of the closed set, within the byte budget. */
  ghost predicate WithinBounds(files: Files, limits: Limits, kept: seq<Node>, accepted: set<Node>, closed: iset<Node>) {
    && Distinct(kept)
    && (forall k :: 0 <= k < |kept| ==> kept[k] in accepted && kept[k] in closed)
    && TotalLength(files, kept) <= limits.maxSourceBytes
    && AllReadable(files, kept)
  }

  ghost predicate AllReadable(files: Files, nodes: seq<Node>) {
    forall k :: 0 <= k < |nodes| ==> files.text(nodes[k]).Some?
  }

  lemma BoundsGrow(files: Files, limits: Limits, kept: seq<Node>, read: seq<Node>,
      accepted: set<Node>, closed: iset<Node>)
    requires WithinBounds(files, limits, kept, accepted, closed) && Distinct(read) && AllReadable(files, read)
    requires forall k :: 0 <= k < |read| ==> read[k] !in kept && read[k] in accepted && read[k] in closed
    requires TotalLength(files, kept) + TotalLength(files, read) <= limits.maxSourceBytes
    ensures WithinBounds(files, limits, kept + read, accepted, closed)
    ensures TotalLength(files, kept + read) == TotalLength(files, kept) + TotalLength(files, read)
  {
    TotalLengthConcat(files, kept, read);
    DistinctConcat(kept, read);
  }

  /** Every path that was seen is accepted and retained, waits, or is in the wave. */
  ghost predicate AllAccounted(
    accepted: set<Node>, seen: set<Node>, waiting: seq<Node>, kept: seq<Node>, wave: seq<Node>)
  {
    && (forall n :: n in accepted ==> n in seen && n in kept && n !in waiting && n !in wave)
    && (forall n :: n in seen ==> n in accepted || n in waiting || n in wave)
  }

  /** `read` are files of the wave, each new to the accepted paths. */
  ghost predicate NewlyRead(wave: seq<Node>, read: seq<Node>, accepted: set<Node>, more: set<Node>) {
    && Distinct(read) && accepted <= more
    && forall k :: 0 <= k < |read| ==> read[k] in wave && read[k] in more && read[k] !in accepted
  }

  /** The first `n` files of the wave are accepted, and nothing but the files read is new. */
  ghost predicate AcceptedUpTo(wave: seq<Node>, n: nat, read: seq<Node>, accepted: set<Node>, more: set<Node>)
    requires n <= |wave|
  {
    && (forall k :: 0 <= k < n ==> wave[k] in more)
    && (forall n :: n in more ==> n in accepted || n in read)
  }

  /** The files of the wave before `stopped` were accepted before or are among `read`. */
  ghost predicate DoneUpTo(wave: seq<Node>, stopped: nat, accepted: set<Node>, read: seq<Node>)
    requires stopped <= |wave|
  {
    forall k :: 0 <= k < stopped ==> wave[k] in accepted || wave[k] in read
  }

  ghost predicate TakenFrom(wave: seq<Node>, seen: set<Node>, waiting: seq<Node>) {
    forall n :: n in wave ==> n in seen && n !in waiting
  }

  lemma QueuingKeepsAccount(accepted: set<Node>, seen: set<Node>, waiting: seq<Node>, kept: seq<Node>,
      more: set<Node>, longer: seq<Node>)
    requires seen <= more && forall n :: n in more && n !in seen ==> n in longer
    requires forall n :: n in longer && n in seen ==> n in waiting
    requires forall n :: n in waiting ==> n in longer
    ensures AllAccounted(accepted, seen, waiting, kept, []) ==> AllAccounted(accepted, more, longer, kept, [])
  {}

  lemma WaveIsAccounted(accepted: set<Node>, more: set<Node>, seen: set<Node>, waiting: seq<Node>,
      kept: seq<Node>, read: seq<Node>, wave: seq<Node>)
    requires AllAccounted(accepted, seen, waiting, kept, wave) && TakenFrom(wave, seen, waiting)
    requires NewlyRead(wave, read, accepted, more) && AcceptedUpTo(wave, |wave|, read, accepted, more)
    ensures AllAccounted(more, seen, waiting, kept + read, [])
  {
    assert forall n :: n in wave ==> n in more;
  }

  lemma WaveSkips(wave: seq<Node>, n: nat, read: seq<Node>, accepted: set<Node>, more: set<Node>)
    requires n < |wave| && wave[n] in more
    requires AcceptedUpTo(wave, n, read, accepted, more) && DoneUpTo(wave, n, accepted, read)
    ensures AcceptedUpTo(wave, n + 1, read, accepted, more) && DoneUpTo(wave, n + 1, accepted, read)
  {}

  lemma WaveReads(wave: seq<Node>, n: nat, read: seq<Node>, accepted: set<Node>, more: set<Node>)
    requires n < |wave| && wave[n] !in more && NewlyRead(wave, read, accepted, more)
    requires AcceptedUpTo(wave, n, read, accepted, more) && DoneUpTo(wave, n, accepted, read)
    ensures NewlyRead(wave, read + [wave[n]], accepted, more + {wave[n]})
    ensures AcceptedUpTo(wave, n + 1, read + [wave[n]], accepted, more + {wave[n]})
    ensures DoneUpTo(wave, n + 1, accepted, read + [wave[n]])
  {
    assert wave[n] in wave;
  }

  lemma DoneStays(wave: seq<Node>, stopped: nat, accepted: set<Node>, kept: seq<Node>, read: seq<Node>)
    requires stopped <= |wave| && DoneUpTo(wave, stopped, accepted, read)
    ensures DoneUpTo(wave, stopped, accepted, kept + read)
  {}

  lemma ReadIsNew(files: Files, limits: Limits, accepted: set<Node>, more: set<Node>, seen: set<Node>,
      closed: iset<Node>, kept: seq<Node>, read: seq<Node>, wave: seq<Node>)
    requires WithinBounds(files, limits, kept, accepted, closed) && AllIn(seen, closed)
    requires NewlyRead(wave, read, accepted, more) && forall n :: n in wave ==> n in seen
    ensures forall k :: 0 <= k < |read| ==> read[k] !in kept && read[k] in more && read[k] in closed
    ensures WithinBounds(files, limits, kept, more, closed)
  {
    forall k | 0 <= k < |read|
      ensures read[k] !in kept && read[k] in more && read[k] in closed
    {
      assert read[k] in wave && read[k] in seen;
    }
  }

  ghost predicate AllIn(nodes: set<Node>, closed: iset<Node>) {
    forall n :: n in nodes ==> n in closed
  }

  ghost predicate AreTargets(files: Files, targets: map<string, Node>) {
    forall path :: path in targets ==> files.classify(path) == Accepted(targets[path])
  }

  /** The analyzed files of the closed set have paths of their own in the session. */
  ghost predicate InSession(files: Files, closed: iset<Node>, analyzed: iset<Node>, session: set<string>) {
    && OwnPaths(files, analyzed)
    && (forall n :: n in analyzed ==> n in closed && files.relative(n) in session)
  }

  ghost predicate AllFollowed(files: Files, kept: seq<Node>, n: nat, analyzed: iset<Node>, seen: set<Node>)
    requires n <= |kept|
  {
    && (forall k :: 0 <= k < n ==> kept[k] in analyzed)
    && forall k, r :: 0 <= k < n && r in RequestsOf(files, kept[k]) && Follow(files, r).Some? ==>
         Follow(files, r).value in seen
  }

  // ----- What the resolver cache has answered -----

  ghost predicate IsAnswer(answers: map<RequestKey, Outcome>, path: string) {
    exists key :: key in answers && answers[key] == Internal(path)
  }

  /** The answer to a request, if internal, is among the targets. */
  ghost predicate Collected(answers: map<RequestKey, Outcome>, request: Request, targets: seq<string>) {
    && request.key in answers
    && (answers[request.key].Internal? ==> answers[request.key].path in targets)
  }

  /** The first `n` requests are answered and their internal answers collected;
      nothing else is a target. */
  ghost predicate CollectedUpTo(answers: map<RequestKey, Outcome>, requests: seq<Request>, n: nat, targets: seq<string>)
    requires n <= |requests|
  {
    && (forall k :: 0 <= k < n ==> Collected(answers, requests[k], targets))
    && (forall path :: path in targets ==> IsAnswer(answers, path))
  }

  ghost predicate Keeps(answers: map<RequestKey, Outcome>, more: map<RequestKey, Outcome>) {
    forall key :: key in answers ==> key in more && more[key] == answers[key]
  }

  lemma AnswersGrow(answers: map<RequestKey, Outcome>, key: RequestKey, outcome: Outcome)
    requires key in answers ==> answers[key] == outcome
    ensures Keeps(answers, answers[key := outcome])
  {}

  lemma CollectedGrows(answers: map<RequestKey, Outcome>, more: map<RequestKey, Outcome>,
      requests: seq<Request>, n: nat, targets: seq<string>, longer: seq<string>)
    requires n < |requests| && CollectedUpTo(answers, requests, n, targets)
    requires Keeps(answers, more) && targets <= longer && Collected(more, requests[n], longer)
    requires forall path :: path in longer ==> path in targets || IsAnswer(more, path)
    ensures CollectedUpTo(more, requests, n + 1, longer)
  {
    assert longer == targets + longer[|targets|..];
    forall path | path in longer
      ensures IsAnswer(more, path)
    {
      if path in targets {
        var key :| key in answers && answers[key] == Internal(path);
        assert key in more && more[key] == Internal(path);
      }
    }
  }

  class ProjectLoadState {
    const files: Files
    const limits: Limits
    const queue: PathWorkQueue
    const accepted: AcceptedPaths
    const resolved: ResolutionCache
    const metrics: LoadMetrics
    var targetCache: map<string, Node>
    var sources: map<string, Text>
    /** The project-relative paths the analysis session has admitted. */
    var session: set<string>
    /** The files whose sources are retained, in the order they were read. */
    ghost var kept: seq<Node>
    /** The files the session has analyzed. */
    ghost var analyzed: iset<Node>
    /** Any set that contains the initial paths and is closed under imports. */
    ghost const closed: iset<Node>

    /** What every outcome keeps: retained sources are those of distinct accepted
        files in the closed set, within the byte budget. */
    ghost predicate Bounded()
      reads this, accepted
    {
      && accepted.Valid() && accepted.limit == limits.maxFiles
      && WithinBounds(files, limits, kept, accepted.paths, closed)
      && sources == Retained(files, kept)
    }

    ghost predicate SessionAgrees()
      reads this
    {
      InSession(files, closed, analyzed, session)
    }

    ghost predicate CacheAgrees()
      reads this, resolved
    {
      && resolved.Valid() && resolved.resolver == files.resolver
      && FirstAuthored(files, analyzed, resolved.first)
    }

    ghost predicate QueueAgrees()
      reads this, queue
    {
      queue.Valid() && AllIn(queue.seen, closed) && AreTargets(files, targetCache)
    }

    ghost predicate Valid()
      reads this, queue, accepted, resolved
    {
      ClosedUnderImports(files, closed) && Bounded() && SessionAgrees() && CacheAgrees() && QueueAgrees()
    }

    /** Every path that was seen is retained, waits in the queue, or belongs to the
        wave being processed. */
    ghost predicate Accounted(wave: seq<Node>)
      reads this, queue, accepted, metrics
    {
      && AllAccounted(accepted.paths, queue.seen, queue.queue, kept, wave)
      && metrics.bytes == TotalLength(files, kept)
    }

    /** The first `n` retained files are analyzed and their import targets seen. */
    ghost predicate Followed(n: nat)
      requires n <= |kept|
      reads this, queue, metrics
    {
      && AllFollowed(files, kept, n, analyzed, queue.seen)
      && metrics.requests == |Authored(files, kept[..n])| <= limits.maxRequests
    }

    constructor (files: Files, limits: Limits, ghost closed: iset<Node>)
      requires ClosedUnderImports(files, closed)
      ensures Valid() && Accounted([]) && kept == [] && queue.seen == {} && Followed(0)
      ensures this.files == files && this.limits == limits && this.closed == closed
      ensures fresh(queue) && fresh(accepted) && fresh(resolved) && fresh(metrics)
    {
      this.files, this.limits, this.closed := files, limits, closed;
      queue := new PathWorkQueue();
      accepted := new AcceptedPaths(limits.maxFiles);
      resolved := new ResolutionCache(files.resolver);
      metrics := new LoadMetrics();
      targetCache, sources, kept := map[], map[], [];
      session, analyzed := {}, iset{};
    }

    /** Accept and read one file: the file budget first, then the size on disk, then
        the text. A byte budget error is deferred, other errors are immediate. */
    method ReadOne(path: Node) returns (r: ReadOutcome)
      requires accepted.Valid()
      modifies accepted, metrics`bytes
      ensures accepted.Valid() && old(accepted.paths) <= accepted.paths
      ensures r.AlreadyAccepted? <==> path in old(accepted.paths)
      ensures r == Failed(TooManyFiles) <==> path !in old(accepted.paths) && old(|accepted.paths|) == accepted.limit
      ensures accepted.paths == if r == Failed(TooManyFiles) then old(accepted.paths) else old(accepted.paths) + {path}
      ensures path !in old(accepted.paths) && r != Failed(TooManyFiles) ==>
                && (r.Deferred? <==> Overflows(files, limits, path, old(metrics.bytes)))
                && (r.Deferred? ==> r.error == SourceTooLarge)
                && (r == Failed(Io) <==>
                    || files.length(path).None?
                    || (!Overflows(files, limits, path, old(metrics.bytes)) && files.text(path).None?))
                && (r.Read? <==>
                    && files.length(path).Some? && files.text(path).Some?
                    && !Overflows(files, limits, path, old(metrics.bytes)))
      ensures r.Failed? ==> r.error == TooManyFiles || r.error == Io
      ensures r.AlreadyAccepted? ==> metrics.bytes == old(metrics.bytes)
      ensures r.Read? ==> metrics.bytes == old(metrics.bytes) + |TextOf(files, path)| <= limits.maxSourceBytes
    {
      var isNew := accepted.Accept(path);
      if isNew.None? {
        return Failed(TooManyFiles);
      }
      if !isNew.value {
        return AlreadyAccepted;
      }
      var length := files.length(path);
      if length.None? {
        return Failed(Io);
      }
      if metrics.bytes + length.value > limits.maxSourceBytes {
        return Deferred(SourceTooLarge);
      }
      var text := files.text(path);
      if text.None? {
        return Failed(Io);
      }
      var admitted := metrics.AdmitSourceBytes(|text.value|, limits.maxSourceBytes);
      r := if admitted then Read else Deferred(SourceTooLarge);
    }

    /** Accept and read the files of one wave. The second component is a byte
        budget error, deferred until the files read so far are analyzed. */
    method ReadWave(wave: seq<Node>)
      returns (r: Result<(seq<Node>, Option<LoadError>), LoadError>, ghost stopped: nat)
      requires accepted.Valid() && metrics.bytes == TotalLength(files, kept) <= limits.maxSourceBytes
      modifies accepted, metrics`bytes
      ensures accepted.Valid() && old(accepted.paths) <= accepted.paths
      ensures r.Success? ==>
                var (read, deferred) := r.value;
                && NewlyRead(wave, read, old(accepted.paths), accepted.paths) && AllReadable(files, read)
                && TotalLength(files, kept) + TotalLength(files, read) <= limits.maxSourceBytes
                && (deferred.None? ==>
                      && AcceptedUpTo(wave, |wave|, read, old(accepted.paths), accepted.paths)
                      && metrics.bytes == TotalLength(files, kept) + TotalLength(files, read))
                && (deferred.Some? ==>
                      && deferred == Some(SourceTooLarge) && stopped < |wave|
                      && Overflows(files, limits, wave[stopped], TotalLength(files, kept) + TotalLength(files, read))
                      && wave[stopped] !in old(accepted.paths) && wave[stopped] !in read
                      && DoneUpTo(wave, stopped, old(accepted.paths), read))
      ensures forall n :: n in accepted.paths ==> n in old(accepted.paths) || n in wave
      ensures r.Failure? ==> stopped < |wave| && (r.error == TooManyFiles || r.error == Io)
      ensures r == Failure(TooManyFiles) ==>
                wave[stopped] !in accepted.paths && |accepted.paths| == accepted.limit
      ensures r == Failure(Io) ==> Unreadable(files, wave[stopped])
    {
      var read: seq<Node> := [];
      for k := 0 to |wave|
        invariant accepted.Valid() && NewlyRead(wave, read, old(accepted.paths), accepted.paths)
        invariant AllReadable(files, read)
        invariant AcceptedUpTo(wave, k, read, old(accepted.paths), accepted.paths)
        invariant DoneUpTo(wave, k, old(accepted.paths), read)
        invariant metrics.bytes == TotalLength(files, kept) + TotalLength(files, read) <= limits.maxSourceBytes
      {
        ghost var before := accepted.paths;
        var outcome := ReadOne(wave[k]);
        match outcome
        case AlreadyAccepted =>
          WaveSkips(wave, k, read, old(accepted.paths), accepted.paths);
        case Read =>
          WaveReads(wave, k, read, old(accepted.paths), before);
          TotalLengthSnoc(files, read, wave[k]);
          read := read + [wave[k]];
        case Deferred(error) => return Success((read, Some(error))), k;
        case Failed(error) => return Failure(error), k;
      }
      r, stopped := Success((read, None)), |wave|;
    }

    /** Retain the source of one file that was read. */
    method RetainOne(path: Node)
      requires sources == Retained(files, kept)
      modifies this`sources, this`kept
      ensures sources == Retained(files, kept) && kept == old(kept) + [path]
    {
      RetainedSnoc(files, kept, path);
      sources := sources[files.relative(path) := TextOf(files, path)];
      kept := kept + [path];
    }

    /** The loop of `Retain`. */
    method RetainAll(read: seq<Node>)
      requires sources == Retained(files, kept)
      modifies this`sources, this`kept
      ensures sources == Retained(files, kept) && kept == old(kept) + read
    {
      ghost var before := kept;
      for k := 0 to |read|
        invariant sources == Retained(files, kept) && kept == before + read[..k]
      {
        TakeOneMore(before, read, k);
        RetainOne(read[k]);
      }
      assert read[..|read|] == read;
    }

    /** Retain the sources that were read. */
    method Retain(read: seq<Node>)
      requires Bounded() && Distinct(read) && AllReadable(files, read)
      requires forall k :: 0 <= k < |read| ==> read[k] !in kept && read[k] in accepted.paths && read[k] in closed
      requires TotalLength(files, kept) + TotalLength(files, read) <= limits.maxSourceBytes
      modifies this`sources, this`kept
      ensures Bounded() && kept == old(kept) + read
      ensures TotalLength(files, kept) == TotalLength(files, old(kept)) + TotalLength(files, read)
    {
      BoundsGrow(files, limits, kept, read, accepted.paths, closed);
      RetainAll(read);
    }

    /** Hand the sources of one wave to the session: all of them, or none when two
        share a project-relative path or a limit of the session is hit. */
    method AdmitSources(read: seq<Node>) returns (ok: bool)
      requires SessionAgrees() && CacheAgrees()
      requires forall k :: 0 <= k < |read| ==> read[k] in closed
      modifies this`session, this`analyzed
      ensures SessionAgrees() && CacheAgrees()
      ensures forall n :: n in analyzed <==> n in old(analyzed) || (ok && n in read)
    {
      var limited: bool := *;
      var staged := Stage(read);
      if limited || staged.None? {
        return false;
      }
      SessionGrows(read, staged.value);
      session := staged.value;
      analyzed := analyzed + iset n | n in read;
      FirstStayAuthored(files, old(analyzed), analyzed, resolved.first);
      return true;
    }

    /** The session's paths with those of `read`; none when a path would repeat. */
    method Stage(read: seq<Node>) returns (staged: Option<set<string>>)
      ensures staged.Some? ==>
                && session <= staged.value
                && (forall k :: 0 <= k < |read| ==>
                      files.relative(read[k]) in staged.value && files.relative(read[k]) !in session)
                && (forall j, k :: 0 <= j < k < |read| ==> files.relative(read[j]) != files.relative(read[k]))
    {
      var paths := session;
      for k := 0 to |read|
        invariant session <= paths
        invariant forall j :: 0 <= j < k ==> files.relative(read[j]) in paths && files.relative(read[j]) !in session
        invariant forall i, j :: 0 <= i < j < k ==> files.relative(read[i]) != files.relative(read[j])
      {
        if files.relative(read[k]) in paths {
          return None;
        }
        paths := paths + {files.relative(read[k])};
      }
      return Some(paths);
    }

    lemma SessionGrows(read: seq<Node>, staged: set<string>)
      requires SessionAgrees() && session <= staged
      requires forall k :: 0 <= k < |read| ==>
                 files.relative(read[k]) in staged && files.relative(read[k]) !in session
      requires forall j, k :: 0 <= j < k < |read| ==> files.relative(read[j]) != files.relative(read[k])
      ensures OwnPaths(files, analyzed + iset n | n in read)
      ensures forall n :: n in analyzed || n in read ==> files.relative(n) in staged
    {
      forall m, n | (m in analyzed || m in read) && (n in analyzed || n in read)
                    && files.relative(m) == files.relative(n)
        ensures m == n
      {
        if m in read && n in read {
          var j :| 0 <= j < |read| && read[j] == m;
          var k :| 0 <= k < |read| && read[k] == n;
        }
      }
    }

    /** Analyze the sources read in one wave; their requests come in any order. */
    method AnalyzeWave(read: seq<Node>) returns (r: Option<seq<Request>>)
      requires SessionAgrees() && CacheAgrees()
      requires forall k :: 0 <= k < |read| ==> read[k] in closed
      modifies this`session, this`analyzed
      ensures SessionAgrees() && CacheAgrees()
      ensures r.Some? ==> forall n :: n in analyzed <==> n in old(analyzed) || n in read
      ensures forall n :: n in old(analyzed) ==> n in analyzed
      ensures r.Some? ==>
                forall q :: q in r.value <==> exists k :: 0 <= k < |read| && q in RequestsOf(files, read[k])
      ensures r.Some? ==> |r.value| == |Authored(files, read)|
    {
      var admitted := AdmitSources(read);
      var failed: bool := *;
      if !admitted || failed {
        return None;
      }
      var authored := Authored(files, read);
      AuthoredMembers(files, read);
      var requests: seq<Request> :| multiset(requests) == multiset(authored);
      assert |requests| == |multiset(requests)| == |multiset(authored)| == |authored|;
      assert forall q :: q in requests <==> q in multiset(requests);
      assert forall q :: q in authored <==> q in multiset(authored);
      r := Some(requests);
    }

    /** The answer to one request, from the cache or from the resolver. */
    method Answer(request: Request) returns (answer: Option<Outcome>)
      requires CacheAgrees() && AuthoredIn(files, analyzed, request)
      modifies resolved
      ensures CacheAgrees() && Keeps(old(resolved.byKey), resolved.byKey)
      ensures answer.Some? ==> request.key in resolved.byKey && resolved.byKey[request.key] == answer.value
      ensures answer.None? ==> IsUnresolvable(files, request)
    {
      ghost var first, answers := resolved.first, resolved.byKey;
      var cached := resolved.ResolveOrGet(request);
      FirstGrows(files, analyzed, first, resolved.first, request);
      if cached.None? {
        return None;
      }
      AnswersGrow(answers, request.key, cached.value.0);
      answer := Some(cached.value.0);
    }

    method ResolveOne(request: Request, targets: seq<string>) returns (r: Result<seq<string>, LoadError>)
      requires CacheAgrees() && AuthoredIn(files, analyzed, request)
      modifies resolved
      ensures CacheAgrees() && Keeps(old(resolved.byKey), resolved.byKey)
      ensures r.Success? ==> targets <= r.value && Collected(resolved.byKey, request, r.value)
      ensures r.Success? ==> forall path :: path in r.value ==> path in targets || IsAnswer(resolved.byKey, path)
      ensures r.Failure? ==> r.error == Timeout || (r.error == ResolutionFailed && IsUnresolvable(files, request))
    {
      var expired: bool := *;
      if expired {
        return Failure(Timeout);
      }
      var answer := Answer(request);
      if answer.None? {
        return Failure(ResolutionFailed);
      }
      match answer.value
      case Internal(path) =>
        assert IsAnswer(resolved.byKey, path);
        return Success(targets + [path]);
      case Target(_) =>
        return Success(targets);
    }

    /** Resolve the requests of one wave and collect the internal targets. */
    method ResolveRequests(requests: seq<Request>) returns (r: Result<seq<string>, LoadError>)
      requires CacheAgrees() && AllAuthored(files, analyzed, requests)
      modifies resolved
      ensures CacheAgrees()
      ensures r.Success? ==> CollectedUpTo(resolved.byKey, requests, |requests|, r.value)
      ensures r.Failure? ==>
                || r.error == Timeout
                || (r.error == ResolutionFailed && exists q :: q in requests && IsUnresolvable(files, q))
    {
      var targets: seq<string> := [];
      for k := 0 to |requests|
        invariant CacheAgrees()
        invariant CollectedUpTo(resolved.byKey, requests, k, targets)
      {
        ghost var answers := resolved.byKey;
        var more := ResolveOne(requests[k], targets);
        if more.Failure? {
          assert requests[k] in requests;
          return Failure(more.error);
        }
        CollectedGrows(answers, resolved.byKey, requests, k, targets, more.value);
        targets := more.value;
      }
      r := Success(targets);
    }

    method EnqueueInternalTarget(path: string) returns (error: Option<LoadError>)
      requires QueueAgrees()
      requires files.classify(path).Accepted? ==> files.classify(path).path in closed
      modifies queue, this`targetCache, metrics`edges
      ensures QueueAgrees() && old(queue.seen) <= queue.seen && old(queue.queue) <= queue.queue
      ensures forall n :: n in queue.seen && n !in old(queue.seen) ==> n in queue.queue
      ensures forall n :: n in queue.queue && n in old(queue.seen) ==> n in old(queue.queue)
      ensures files.classify(path).Accepted? ==> error.None? && files.classify(path).path in queue.seen
      ensures !files.classify(path).Accepted? ==>
                queue.queue == old(queue.queue) && queue.seen == old(queue.seen) && targetCache == old(targetCache)
      ensures error == if files.classify(path).Broken? then Some(Io) else None
    {
      metrics.edges := metrics.edges + 1;
      if path in targetCache {
        queue.Push(targetCache[path]);
        return None;
      }
      match files.classify(path)
      case Broken => return Some(Io);
      case Dropped => return None;
      case Accepted(target) =>
        targetCache := targetCache[path := target];
        queue.Push(target);
        return None;
    }

    method ApplyRequestResolution(targets: seq<string>) returns (error: Option<LoadError>)
      requires QueueAgrees()
      requires forall k :: 0 <= k < |targets| && files.classify(targets[k]).Accepted? ==>
                 files.classify(targets[k]).path in closed
      modifies queue, this`targetCache, metrics`edges
      ensures QueueAgrees() && old(queue.seen) <= queue.seen
      ensures forall n :: n in queue.seen && n !in old(queue.seen) ==> n in queue.queue
      ensures forall n :: n in queue.queue && n in old(queue.seen) ==> n in old(queue.queue)
      ensures forall n :: n in old(queue.queue) ==> n in queue.queue
      ensures error.None? ==>
                forall k :: 0 <= k < |targets| && files.classify(targets[k]).Accepted? ==>
                  files.classify(targets[k]).path in queue.seen
      ensures error.Some? ==> error == Some(Io) && exists k :: 0 <= k < |targets| && files.classify(targets[k]).Broken?
    {
      for k := 0 to |targets|
        invariant QueueAgrees() && old(queue.seen) <= queue.seen
        invariant forall n :: n in queue.seen && n !in old(queue.seen) ==> n in queue.queue
        invariant forall n :: n in queue.queue && n in old(queue.seen) ==> n in old(queue.queue)
        invariant forall n :: n in old(queue.queue) ==> n in queue.queue
        invariant forall j :: 0 <= j < k && files.classify(targets[j]).Accepted? ==>
                    files.classify(targets[j]).path in queue.seen
      {
        error := EnqueueInternalTarget(targets[k]);
        if error.Some? {
          return;
        }
      }
      error := None;
    }

    /** An answer from the cache leads into the closed set, or nowhere. */
    lemma AnswersStayClosed(path: string)
      requires SessionAgrees() && CacheAgrees() && ClosedUnderImports(files, closed) && IsAnswer(resolved.byKey, path)
      ensures files.classify(path).Accepted? ==> files.classify(path).path in closed
      ensures files.classify(path).Broken? ==> HasBrokenTarget(files, closed)
    {
      var key :| key in resolved.byKey && resolved.byKey[key] == Internal(path);
      var request := resolved.first[key];
      var n :| n in analyzed && request in RequestsOf(files, n);
      assert files.classify(path).Accepted? ==> Follow(files, request) == Some(files.classify(path).path);
      assert files.classify(path).Broken? ==> LeadsNowhere(files, request);
    }

    /** Some collected target is accepted as `node`. */
    ghost predicate LeadTo(targets: seq<string>, node: Node) {
      exists j :: 0 <= j < |targets| && files.classify(targets[j]) == Accepted(node)
    }

    /** The collected answer is the request's own. */
    lemma CollectedIsFollowed(request: Request, targets: seq<string>)
      requires SessionAgrees() && CacheAgrees()
      requires AuthoredIn(files, analyzed, request) && Collected(resolved.byKey, request, targets)
      requires Follow(files, request).Some?
      ensures LeadTo(targets, Follow(files, request).value)
    {
      var first := resolved.first[request.key];
      assert AuthoredIn(files, analyzed, first);
      var m :| m in analyzed && first in RequestsOf(files, m);
      var n :| n in analyzed && request in RequestsOf(files, n);
      KeysAreStable(files, analyzed, m, first, n, request);
      var j :| 0 <= j < |targets| && targets[j] == resolved.byKey[request.key].path;
    }

    /** Why collecting targets fails, when it makes `requests` requests in all. */
    ghost predicate CollectFails(error: LoadError, requests: nat) {
      || error == Timeout || error == AnalysisFailed
      || (error == TooManyRequests && requests > limits.maxRequests)
      || (error == ResolutionFailed && HasUnresolvable(files, closed))
    }

    /** Analyze the files read in this wave and resolve their requests. */
    method CollectTargets(read: seq<Node>) returns (r: Result<seq<string>, LoadError>)
      requires SessionAgrees() && CacheAgrees() && ClosedUnderImports(files, closed)
      requires forall k :: 0 <= k < |read| ==> read[k] in closed
      modifies this`session, this`analyzed, resolved, metrics`requests
      ensures SessionAgrees() && CacheAgrees()
      ensures forall n :: n in old(analyzed) || (r.Success? && n in read) ==> n in analyzed
      ensures r.Success? ==>
                forall k :: 0 <= k < |r.value| && files.classify(r.value[k]).Accepted? ==>
                  files.classify(r.value[k]).path in closed
      ensures r.Success? ==>
                forall k, q :: 0 <= k < |read| && q in RequestsOf(files, read[k]) && Follow(files, q).Some? ==>
                  LeadTo(r.value, Follow(files, q).value)
      ensures r.Success? ==>
                forall k :: 0 <= k < |r.value| && files.classify(r.value[k]).Broken? ==> HasBrokenTarget(files, closed)
      ensures r.Success? ==>
                metrics.requests == old(metrics.requests) + |Authored(files, read)| <= limits.maxRequests
      ensures r.Failure? ==> CollectFails(r.error, old(metrics.requests) + |Authored(files, read)|)
    {
      var requests := AnalyzeWave(read);
      if requests.None? {
        return Failure(AnalysisFailed);
      }
      var admitted := metrics.AdmitRequests(|requests.value|, limits.maxRequests);
      if !admitted {
        return Failure(TooManyRequests);
      }
      forall k | 0 <= k < |requests.value|
        ensures AuthoredIn(files, analyzed, requests.value[k])
      {
        assert requests.value[k] in requests.value;
        var j :| 0 <= j < |read| && requests.value[k] in RequestsOf(files, read[j]);
        assert read[j] in read;
      }
      r := ResolveRequests(requests.value);
      if r.Failure? {
        if r.error == ResolutionFailed {
          UnresolvableIsClosed(requests.value);
        }
        return;
      }
      forall k | 0 <= k < |r.value|
        ensures files.classify(r.value[k]).Accepted? ==> files.classify(r.value[k]).path in closed
        ensures files.classify(r.value[k]).Broken? ==> HasBrokenTarget(files, closed)
      {
        assert r.value[k] in r.value;
        AnswersStayClosed(r.value[k]);
      }
      TargetsAreCollected(read, requests.value, r.value);
    }

    lemma UnresolvableIsClosed(requests: seq<Request>)
      requires SessionAgrees() && AllAuthored(files, analyzed, requests)
      requires exists q :: q in requests && IsUnresolvable(files, q)
      ensures HasUnresolvable(files, closed)
    {
      var q :| q in requests && IsUnresolvable(files, q);
      var k :| 0 <= k < |requests| && requests[k] == q;
      assert AuthoredIn(files, analyzed, requests[k]);
    }

    /** Follow the imports of the files read in this wave: queue the internal
        targets of their requests. */
    method IncorporateRequests(read: seq<Node>, ghost before: seq<Node>) returns (error: Option<LoadError>)
      requires Valid() && kept == before + read && Followed(|before|)
      modifies queue, resolved, this`targetCache, this`session, this`analyzed, metrics`requests, metrics`edges
      ensures Valid() && old(queue.seen) <= queue.seen
      ensures error.Some? ==> error.value != SourceTooLarge && Explains(files, limits, closed, kept, error.value)
      ensures forall n :: n in queue.seen && n !in old(queue.seen) ==> n in queue.queue
      ensures forall n :: n in queue.queue && n in old(queue.seen) ==> n in old(queue.queue)
      ensures forall n :: n in old(queue.queue) ==> n in queue.queue
      ensures error.None? ==> Followed(|kept|)
      ensures old(Accounted([])) ==> Accounted([])
    {
      ghost var analyzed', seen' := analyzed, queue.seen;
      ReadIsClosed(before, read);
      AuthoredOf(before, read);
      var targets := CollectTargets(read);
      if targets.Failure? {
        CollectingExplains(targets.error, |Authored(files, kept)|);
        return Some(targets.error);
      }
      error := QueueTargets(targets.value);
      if error.None? {
        NowFollowed(before, read, targets.value, analyzed', seen');
      }
    }

    /** `ApplyRequestResolution`, with what it means for the whole state. */
    method QueueTargets(targets: seq<string>) returns (error: Option<LoadError>)
      requires Valid()
      requires forall k :: 0 <= k < |targets| && files.classify(targets[k]).Accepted? ==>
                 files.classify(targets[k]).path in closed
      requires forall k :: 0 <= k < |targets| && files.classify(targets[k]).Broken? ==> HasBrokenTarget(files, closed)
      modifies queue, this`targetCache, metrics`edges
      ensures Valid() && old(queue.seen) <= queue.seen
      ensures error.Some? ==> error == Some(Io) && Explains(files, limits, closed, kept, Io)
      ensures forall n :: n in queue.seen && n !in old(queue.seen) ==> n in queue.queue
      ensures forall n :: n in queue.queue && n in old(queue.seen) ==> n in old(queue.queue)
      ensures forall n :: n in old(queue.queue) ==> n in queue.queue
      ensures error.None? ==>
                forall k :: 0 <= k < |targets| && files.classify(targets[k]).Accepted? ==>
                  files.classify(targets[k]).path in queue.seen
      ensures old(Accounted([])) ==> Accounted([])
    {
      ghost var seen, waiting := queue.seen, queue.queue;
      error := ApplyRequestResolution(targets);
      QueuingKeepsAccount(accepted.paths, seen, waiting, kept, queue.seen, queue.queue);
    }

    lemma CollectingExplains(error: LoadError, requests: nat)
      requires CollectFails(error, requests) && requests == |Authored(files, kept)|
      ensures error != SourceTooLarge && Explains(files, limits, closed, kept, error)
    {
    }

    lemma ReadIsClosed(before: seq<Node>, read: seq<Node>)
      requires Bounded() && kept == before + read
      ensures forall k :: 0 <= k < |read| ==> read[k] in closed
    {
      assert forall k :: 0 <= k < |read| ==> read[k] == kept[|before| + k];
    }

    /** The requests counted so far and those of the files just read. */
    lemma AuthoredOf(before: seq<Node>, read: seq<Node>)
      requires kept == before + read
      ensures |Authored(files, kept[..|before|])| + |Authored(files, read)| == |Authored(files, kept)|
    {
      assert kept[..|before|] == before;
      AuthoredConcat(files, before, read);
    }

    lemma NowFollowed(before: seq<Node>, read: seq<Node>, targets: seq<string>, analyzed': iset<Node>, seen': set<Node>)
      requires kept == before + read
      requires AllFollowed(files, kept, |before|, analyzed', seen') && seen' <= queue.seen
      requires forall n :: n in analyzed' || n in read ==> n in analyzed
      requires forall k, q :: 0 <= k < |read| && q in RequestsOf(files, read[k]) && Follow(files, q).Some? ==>
                 LeadTo(targets, Follow(files, q).value)
      requires forall k :: 0 <= k < |targets| && files.classify(targets[k]).Accepted? ==>
                 files.classify(targets[k]).path in queue.seen
      requires metrics.requests == |Authored(files, kept)| <= limits.maxRequests
      ensures Followed(|kept|)
    {
      assert kept[..|kept|] == kept;
      forall k | 0 <= k < |kept|
        ensures kept[k] in analyzed
        ensures forall r :: r in RequestsOf(files, kept[k]) && Follow(files, r).Some? ==>
                  Follow(files, r).value in queue.seen
      {
        if |before| <= k {
          assert kept[k] == read[k - |before|];
        }
      }
    }

    /** Every import target of the files just read is among the collected ones. */
    lemma TargetsAreCollected(read: seq<Node>, requests: seq<Request>, targets: seq<string>)
      requires SessionAgrees() && CacheAgrees()
      requires AllAuthored(files, analyzed, requests)
      requires CollectedUpTo(resolved.byKey, requests, |requests|, targets)
      requires forall q :: q in requests <==> exists k :: 0 <= k < |read| && q in RequestsOf(files, read[k])
      ensures forall k, r :: 0 <= k < |read| && r in RequestsOf(files, read[k]) && Follow(files, r).Some? ==>
                LeadTo(targets, Follow(files, r).value)
    {
      forall k, r | 0 <= k < |read| && r in RequestsOf(files, read[k]) && Follow(files, r).Some?
        ensures LeadTo(targets, Follow(files, r).value)
      {
        assert r in requests;
        var i :| 0 <= i < |requests| && requests[i] == r;
        CollectedIsFollowed(r, targets);
      }
    }

    /** Take up to `waveSize` paths off the queue. */
    method TakeWave(waveSize: nat) returns (wave: seq<Node>)
      requires queue.Valid()
      modifies queue`queue
      ensures queue.Valid()
      ensures |wave| <= waveSize && (wave == [] && 0 < waveSize ==> queue.queue == [])
      ensures forall n :: n in old(queue.queue) <==> n in wave || n in queue.queue
      ensures forall n :: n in wave ==> n in queue.seen && n !in queue.queue
    {
      wave := [];
      while |wave| < waveSize
        invariant queue.Valid() && old(queue.queue) == wave + queue.queue && |wave| <= waveSize
        decreases waveSize - |wave|
      {
        var next := queue.PopFront();
        if next.None? {
          break;
        }
        wave := wave + [next.value];
      }
      ghost var before, rest := old(queue.queue), queue.queue;
      forall k | 0 <= k < |wave|
        ensures wave[k] in queue.seen && wave[k] !in rest
      {
        assert wave[k] == before[k];
        assert forall j :: 0 <= j < |rest| ==> rest[j] == before[|wave| + j];
      }
    }

    lemma ReadingExplains(error: LoadError, more: set<Node>, wave: seq<Node>, stopped: nat)
      requires stopped < |wave| && (error == TooManyFiles || error == Io)
      requires forall n :: n in more || n in wave ==> n in closed
      requires error == TooManyFiles ==> wave[stopped] !in more && |more| == limits.maxFiles
      requires error == Io ==> Unreadable(files, wave[stopped])
      ensures Explains(files, limits, closed, kept, error)
    {
      assert wave[stopped] in wave;
      if error == TooManyFiles {
        FullBudget(more, wave, wave[stopped], closed);
      }
    }

    /** The file that did not fit is one of the closed set and was not retained. */
    lemma DeferringExplains(wave: seq<Node>, stopped: nat, accepted': set<Node>, kept': seq<Node>, read: seq<Node>)
      requires stopped < |wave| && wave[stopped] in closed && kept == kept' + read
      requires forall k :: 0 <= k < |kept'| ==> kept'[k] in accepted'
      requires wave[stopped] !in accepted' && wave[stopped] !in read
      requires Overflows(files, limits, wave[stopped], TotalLength(files, kept))
      ensures Explains(files, limits, closed, kept, SourceTooLarge)
    {
      assert wave[stopped] !in kept';
    }

    /** Read one wave and retain what was read. */
    method ReadAndRetain(wave: seq<Node>)
      returns (r: Result<(seq<Node>, Option<LoadError>), LoadError>, ghost stopped: nat)
      requires Valid() && Accounted(wave)
      requires TakenFrom(wave, queue.seen, queue.queue)
      modifies this`sources, this`kept, accepted, metrics`bytes
      ensures Valid() && old(accepted.paths) <= accepted.paths
      ensures r.Success? ==> kept == old(kept) + r.value.0
      ensures r.Success? && r.value.1.None? ==>
                Accounted([]) && forall k :: 0 <= k < |wave| ==> wave[k] in accepted.paths
      ensures r.Success? && r.value.1.Some? ==>
                && r.value.1 == Some(SourceTooLarge) && stopped < |wave|
                && Overflows(files, limits, wave[stopped], TotalLength(files, kept))
                && DoneUpTo(wave, stopped, old(accepted.paths), kept)
      ensures r.Success? && r.value.1.Some? ==> Explains(files, limits, closed, kept, SourceTooLarge)
      ensures r.Failure? ==>
                kept == old(kept) && r.error != SourceTooLarge && Explains(files, limits, closed, kept, r.error)
    {
      ghost var accepted', kept' := accepted.paths, kept;
      r, stopped := ReadWave(wave);
      if r.Failure? {
        ReadingExplains(r.error, accepted.paths, wave, stopped);
      } else {
        ghost var (read, deferred) := r.value;
        ReadIsNew(files, limits, accepted', accepted.paths, queue.seen, closed, kept', read, wave);
        Retain(r.value.0);
        if deferred.None? {
          WaveIsAccounted(accepted', accepted.paths, queue.seen, queue.queue, kept', read, wave);
        } else {
          DoneStays(wave, stopped, accepted', kept', read);
          assert wave[stopped] in wave;
          DeferringExplains(wave, stopped, accepted', kept', read);
        }
      }
    }

    lemma StillFollowed(before: seq<Node>, read: seq<Node>)
      requires kept == before + read && AllFollowed(files, before, |before|, analyzed, queue.seen)
      requires metrics.requests == |Authored(files, before[..|before|])| <= limits.maxRequests
      ensures Followed(|before|) && (read == [] ==> Followed(|kept|))
    {
      assert kept[..|before|] == before[..|before|] == before;
      assert forall k :: 0 <= k < |before| ==> kept[k] == before[k];
    }

    /** Read, retain and follow one wave. When a file does not fit the byte budget,
        the files of the wave before it are still retained and followed. */
    method ProcessWave(wave: seq<Node>) returns (error: Option<LoadError>, ghost stopped: nat)
      requires Valid() && Accounted(wave) && Followed(|kept|)
      requires TakenFrom(wave, queue.seen, queue.queue)
      modifies this`sources, this`kept, this`targetCache, this`session, this`analyzed
      modifies queue, accepted, resolved, metrics
      ensures Valid() && old(queue.seen) <= queue.seen && old(accepted.paths) <= accepted.paths
      ensures error.None? ==> Accounted([]) && Followed(|kept|)
      ensures error.None? ==> forall k :: 0 <= k < |wave| ==> wave[k] in accepted.paths
      ensures error.Some? ==> Explains(files, limits, closed, kept, error.value)
      ensures error == Some(SourceTooLarge) ==>
                && Followed(|kept|) && stopped < |wave|
                && Overflows(files, limits, wave[stopped], TotalLength(files, kept))
                && DoneUpTo(wave, stopped, old(accepted.paths), kept)
      ensures old(kept) <= kept
    {
      ghost var before := kept;
      var outcome;
      outcome, stopped := ReadAndRetain(wave);
      if outcome.Failure? {
        return Some(outcome.error), stopped;
      }
      var (read, deferred) := outcome.value;
      StillFollowed(before, read);
      if read != [] {
        error := IncorporateRequests(read, before);
        if error.Some? {
          return;
        }
      }
      error := deferred;
    }

    /** One round of the frontier loop: false when the queue was empty. */
    method NextWave(waveSize: nat) returns (r: Result<bool, LoadError>)
      requires 0 < waveSize
      requires Valid() && Accounted([]) && Followed(|kept|)
      modifies this`sources, this`kept, this`targetCache, this`session, this`analyzed
      modifies queue, accepted, resolved, metrics
      ensures Valid() && old(queue.seen) <= queue.seen
      ensures r.Success? ==> Accounted([]) && Followed(|kept|)
      ensures r.Failure? ==> Explains(files, limits, closed, kept, r.error)
      ensures r == Success(false) ==> queue.queue == []
      ensures r == Success(true) ==> old(|accepted.paths|) < |accepted.paths|
    {
      var wave := TakeWave(waveSize);
      if wave == [] {
        return Success(false);
      }
      ghost var before := accepted.paths;
      assert wave[0] in wave && wave[0] !in before;
      var error, stopped := ProcessWave(wave);
      if error.Some? {
        return Failure(error.value);
      }
      SmallerSet(before, accepted.paths, wave[0]);
      r := Success(true);
    }

    lemma RetainsWithinLimits()
      requires Bounded()
      ensures |sources| <= limits.maxFiles && |kept| <= limits.maxFiles
      ensures forall path :: path in sources ==> IsTextFrom(files, closed, path, sources[path])
    {
      DistinctFits(kept, accepted.paths);
      RetainedFromKept(files, kept, closed);
    }

    /** When nothing waits any more, what is retained is the whole closure. */
    lemma RetainsTheClosure(initial: seq<Node>)
      requires Bounded() && SessionAgrees() && QueueAgrees() && closed == Closure(files, initial)
      requires Accounted([]) && Followed(|kept|) && queue.queue == []
      requires forall k :: 0 <= k < |initial| ==> initial[k] in queue.seen
      ensures forall n :: n in kept <==> n in closed
      ensures IsWholeLoad(files, closed, sources)
    {
      ClosureIsReached(files, initial, kept);
      assert forall n :: n in kept ==> n in analyzed;
      RetainingAllIsWhole(files, kept, closed);
    }

    /** Drain the queue in waves. */
    method CloseFrontier(waveSize: nat) returns (error: Option<LoadError>)
      requires 0 < waveSize
      requires Valid() && Accounted([]) && Followed(|kept|)
      modifies this`sources, this`kept, this`targetCache, this`session, this`analyzed
      modifies queue, accepted, resolved, metrics
      ensures Valid() && old(queue.seen) <= queue.seen
      ensures error.None? ==> Accounted([]) && Followed(|kept|) && queue.queue == []
      ensures error.Some? ==> Explains(files, limits, closed, kept, error.value)
    {
      while true
        invariant Valid() && Accounted([]) && Followed(|kept|) && old(queue.seen) <= queue.seen
        modifies this`sources, this`kept, this`targetCache, this`session, this`analyzed
        modifies queue, accepted, resolved, metrics
        decreases limits.maxFiles - |accepted.paths|
      {
        var expired: bool := *;
        if expired {
          return Some(Timeout);
        }
        var advanced := NextWave(waveSize);
        if advanced.Failure? {
          return Some(advanced.error);
        }
        if !advanced.value {
          return None;
        }
      }
    }
  }

  lemma SmallerSet(a: set<Node>, b: set<Node>, n: Node)
    requires a <= b && n in b && n !in a
    ensures |a| < |b|
  {
    assert |b - a| == |b| - |a|;
    assert n in b - a;
  }

  /** `sources` holds every file of `nodes` under its own path, and nothing else. */
  ghost predicate IsWholeLoad(files: Files, nodes: iset<Node>, sources: map<string, Text>) {
    && (forall path :: path in sources ==> IsTextFrom(files, nodes, path, sources[path]))
    && (forall n :: n in nodes ==> files.relative(n) in sources && sources[files.relative(n)] == TextOf(files, n))
  }

  lemma RetainingAllIsWhole(files: Files, kept: seq<Node>, nodes: iset<Node>)
    requires Distinct(kept) && OwnPaths(files, nodes) && forall n :: n in kept <==> n in nodes
    ensures IsWholeLoad(files, nodes, Retained(files, kept))
  {
    RetainedFromKept(files, kept, nodes);
    forall j, k | 0 <= j < k < |kept|
      ensures files.relative(kept[j]) != files.relative(kept[k])
    {
      assert kept[j] in nodes && kept[k] in nodes;
    }
    RetainedEntries(files, kept);
  }

  lemma WholeLoadsAgree(files: Files, nodes: iset<Node>, a: map<string, Text>, b: map<string, Text>)
    requires IsWholeLoad(files, nodes, a) && IsWholeLoad(files, nodes, b)
    ensures a == b
  {
    forall path | path in a
      ensures path in b && a[path] == b[path]
    {
      assert IsTextFrom(files, nodes, path, a[path]);
    }
    forall path | path in b
      ensures path in a
    {
      assert IsTextFrom(files, nodes, path, b[path]);
    }
  }

  /** Every file of `kept` has an entry, and every entry is the text of one of them. */
  ghost predicate HoldsTexts(files: Files, kept: seq<Node>, sources: map<string, Text>) {
    && (forall n :: n in kept ==> files.relative(n) in sources)
    && forall path :: path in sources ==>
         exists n :: n in kept && files.relative(n) == path && files.text(n) == Some(sources[path])
  }

  lemma RetainedTexts(files: Files, kept: seq<Node>)
    requires AllReadable(files, kept)
    ensures HoldsTexts(files, kept, Retained(files, kept))
  {
    var nodes := iset n | n in kept;
    RetainedFromKept(files, kept, nodes);
    forall path | path in Retained(files, kept)
      ensures exists n :: n in kept && files.relative(n) == path && files.text(n) == Some(Retained(files, kept)[path])
    {
      assert IsTextFrom(files, nodes, path, Retained(files, kept)[path]);
      var n :| n in nodes && files.relative(n) == path && TextOf(files, n) == Retained(files, kept)[path];
      var k :| 0 <= k < |kept| && kept[k] == n;
    }
  }

  /** The files loaded contain the initial ones and, with each file, what its imports
      resolve to; each is there under its own path with its own text. */
  ghost predicate LoadsImports(files: Files, initial: seq<Node>, kept: seq<Node>, sources: map<string, Text>) {
    && (forall k :: 0 <= k < |initial| ==> initial[k] in kept)
    && (forall n, k, p, t :: n in kept && ImportAt(files, n, k, p, t) ==> t in kept)
    && (forall n :: n in kept ==>
          files.relative(n) in sources && files.text(n) == Some(sources[files.relative(n)]))
  }

  lemma WholeLoadImports(files: Files, initial: seq<Node>, kept: seq<Node>, sources: map<string, Text>)
    requires AllReadable(files, kept) && forall n :: n in kept <==> n in Closure(files, initial)
    requires IsWholeLoad(files, Closure(files, initial), sources)
    ensures LoadsImports(files, initial, kept, sources)
  {
    ClosureIsClosed(files, initial);
    forall n, k, p, t | n in kept && ImportAt(files, n, k, p, t)
      ensures t in kept
    {
      ClosureHoldsImports(files, initial, n, t);
    }
    forall n | n in kept
      ensures files.relative(n) in sources && files.text(n) == Some(sources[files.relative(n)])
    {
      var k :| 0 <= k < |kept| && kept[k] == n;
    }
  }

  /** The requests of several files are as many as the imports found in them. */
  lemma {:induction false} AuthoredCounts(files: Files, nodes: seq<Node>, last: Node)
    ensures |Authored(files, [])| == 0
    ensures |Authored(files, nodes + [last])| == |Authored(files, nodes)| + |files.occurrences(last)|
  {
    AuthoredConcat(files, nodes, [last]);
    assert [last][1..] == [];
  }

  /** Drain the frontier from the initial paths; `LoadSources` says what that means. */
  method LoadClosure(files: Files, limits: Limits, initial: seq<Node>, waveSize: nat)
    returns (sources: map<string, Text>, error: Option<LoadError>, ghost kept: seq<Node>)
    requires 0 < waveSize
    ensures |sources| <= limits.maxFiles
    ensures forall path :: path in sources ==> IsTextFrom(files, Closure(files, initial), path, sources[path])
    ensures error.None? ==> IsWholeLoad(files, Closure(files, initial), sources)
    ensures Distinct(kept) && sources == Retained(files, kept) && AllReadable(files, kept)
    ensures forall n :: n in kept ==> n in Closure(files, initial)
    ensures |kept| <= limits.maxFiles && TotalLength(files, kept) <= limits.maxSourceBytes
    ensures error.None? ==> |Authored(files, kept)| <= limits.maxRequests
    ensures error.None? ==> forall n :: n in kept <==> n in Closure(files, initial)
    ensures error.Some? ==> Explains(files, limits, Closure(files, initial), kept, error.value)
  {
    ghost var closed := Closure(files, initial);
    ClosureIsClosed(files, initial);
    var state := new ProjectLoadState(files, limits, closed);
    state.queue.Extend(initial);
    error := state.CloseFrontier(waveSize);
    kept, sources := state.kept, state.sources;
    state.RetainsWithinLimits();
    if error.None? {
      state.RetainsTheClosure(initial);
      assert kept[..|kept|] == kept;
    }
  }

  /** Load a project from its initial paths. On any outcome the retained sources
      are those of distinct files in the closure, within the file and byte
      budgets. If the frontier was closed without an error, they are exactly those
      of the closure, each under its own path. */
  method LoadSources(files: Files, limits: Limits, initial: seq<Node>, waveSize: nat)
    returns (sources: map<string, Text>, error: Option<LoadError>, ghost kept: seq<Node>)
    requires 0 < waveSize
    // Nothing is loaded that no chain of imports leads to, and no text is changed.
    ensures HoldsTexts(files, kept, sources) && forall n :: n in kept ==> Reached(files, initial, n)
    // Without an error the initial files are loaded, and all imports are followed.
    ensures error.None? ==> LoadsImports(files, initial, kept, sources)
    // The same, told from the least set closed under imports.
    ensures forall path :: path in sources ==> IsTextFrom(files, Closure(files, initial), path, sources[path])
    ensures error.None? ==> IsWholeLoad(files, Closure(files, initial), sources)
    ensures forall n :: n in kept ==> n in Closure(files, initial)
    ensures error.None? ==> forall n :: n in kept <==> n in Closure(files, initial)
    // How it came about: each file was read and retained at most once.
    ensures Distinct(kept) && sources == Retained(files, kept)
    ensures |kept| <= limits.maxFiles && |sources| <= limits.maxFiles
    ensures TotalLength(files, kept) <= limits.maxSourceBytes
    ensures error.None? ==> |Authored(files, kept)| <= limits.maxRequests
    // Why it failed, if it did.
    ensures error.Some? ==> Explains(files, limits, Closure(files, initial), kept, error.value)
  {
    sources, error, kept := LoadClosure(files, limits, initial, waveSize);
    RetainedTexts(files, kept);
    forall n | n in kept
      ensures Reached(files, initial, n)
    {
      ClosureIsLeast(files, initial, n);
    }
    if error.None? {
      WholeLoadImports(files, initial, kept, sources);
    }
  }

  /** Two loads that close the frontier retain the same sources, whatever their
      limits and wave sizes. */
  method LoadTwice(files: Files, initial: seq<Node>, limits: Limits, waveSize: nat, limits': Limits, waveSize': nat)
    returns (sources: Option<map<string, Text>>, sources': Option<map<string, Text>>)
    requires 0 < waveSize && 0 < waveSize'
    ensures sources.Some? && sources'.Some? ==> sources == sources'
  {
    var first, error, kept := LoadSources(files, limits, initial, waveSize);
    var second, error', kept' := LoadSources(files, limits', initial, waveSize');
    if error.None? && error'.None? {
      WholeLoadsAgree(files, Closure(files, initial), first, second);
    }
    sources := if error.None? then Some(first) else None;
    sources' := if error'.None? then Some(second) else None;
  }
}
