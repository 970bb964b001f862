/** Parent-linked histories: a tree of deltas with a cursor that moves between
    positions by undoing and redoing. */
module ParentLinkedHistories {
  import opened Sequences

  /** `parent` is a position: 0 is the root, `k + 1` is entry `k`. */
  datatype Entry<D> = Entry(parent: nat, depth: nat, delta: D)

  datatype Step<D> = Undo(delta: D) | Redo(delta: D)

  // ----- The tree of positions -----

  function DepthOf<D>(entries: seq<Entry<D>>, position: nat): nat
    requires position <= |entries|
  {
    if position == 0 then 0 else entries[position - 1].depth
  }

  function ParentOf<D>(entries: seq<Entry<D>>, position: nat): nat
    requires position <= |entries|
  {
    if position == 0 then 0 else entries[position - 1].parent
  }

  /** The parent of entry `k` was recorded before it, one level above. */
  ghost predicate Hangs<D>(entries: seq<Entry<D>>, k: nat)
    requires k < |entries|
  {
    entries[k].parent <= k && entries[k].depth == DepthOf(entries, entries[k].parent) + 1
  }

  ghost predicate IsTree<D>(entries: seq<Entry<D>>) {
    forall k :: 0 <= k < |entries| ==> Hangs(entries, k)
  }

  lemma ParentIsAbove<D>(entries: seq<Entry<D>>, position: nat)
    requires IsTree(entries) && 0 < position <= |entries|
    ensures ParentOf(entries, position) < position
    ensures DepthOf(entries, position) == DepthOf(entries, ParentOf(entries, position)) + 1
  {
    assert Hangs(entries, position - 1);
  }

  /** The positions from below the root down to `position`. */
  function Path<D>(entries: seq<Entry<D>>, position: nat): (path: seq<nat>)
    requires IsTree(entries) && position <= |entries|
    ensures |path| == DepthOf(entries, position)
    ensures forall k :: 0 <= k < |path| ==> 0 < path[k] <= position
    ensures 0 < position ==> path != [] && path[|path| - 1] == position
  {
    if position == 0 then []
    else
      ParentIsAbove(entries, position);
      Path(entries, ParentOf(entries, position)) + [position]
  }

  lemma {:induction false} PathsSurvive<D>(entries: seq<Entry<D>>, entry: Entry<D>, position: nat)
    requires IsTree(entries) && IsTree(entries + [entry]) && position <= |entries|
    ensures Path(entries + [entry], position) == Path(entries, position)
    decreases position
  {
    if 0 < position {
      ParentIsAbove(entries, position);
      assert (entries + [entry])[position - 1] == entries[position - 1];
      PathsSurvive(entries, entry, ParentOf(entries, position));
    }
  }

  /** The position at depth `d` of a path. */
  function At(path: seq<nat>, d: nat): nat
    requires d <= |path|
  {
    if d == 0 then 0 else path[d - 1]
  }

  ghost predicate LinkedAt<D>(entries: seq<Entry<D>>, path: seq<nat>, k: nat)
    requires k < |path|
  {
    && 0 < path[k] <= |entries|
    && DepthOf(entries, path[k]) == k + 1
    && ParentOf(entries, path[k]) == At(path, k)
  }

  /** The positions along `path` are each other's parents, from the root down. */
  ghost predicate Descends<D>(entries: seq<Entry<D>>, path: seq<nat>) {
    forall k :: 0 <= k < |path| ==> LinkedAt(entries, path, k)
  }

  lemma OnPath<D>(entries: seq<Entry<D>>, path: seq<nat>, d: nat)
    requires Descends(entries, path) && d <= |path|
    ensures At(path, d) <= |entries| && DepthOf(entries, At(path, d)) == d
    ensures 0 < d ==> 0 < At(path, d) && ParentOf(entries, At(path, d)) == At(path, d - 1)
  {
    if 0 < d {
      assert LinkedAt(entries, path, d - 1);
    }
  }

  lemma {:induction false} PathDescends<D>(entries: seq<Entry<D>>, position: nat)
    requires IsTree(entries) && position <= |entries|
    ensures Descends(entries, Path(entries, position))
    ensures At(Path(entries, position), |Path(entries, position)|) == position
    decreases position
  {
    if 0 < position {
      ParentIsAbove(entries, position);
      var above := ParentOf(entries, position);
      PathDescends(entries, above);
      var path, shorter := Path(entries, position), Path(entries, above);
      forall k | 0 <= k < |path|
        ensures LinkedAt(entries, path, k)
      {
        if k < |shorter| {
          assert LinkedAt(entries, shorter, k);
        }
      }
    }
  }

  /** Two such paths pass through the same position only within their common
      prefix, and at the same depth. */
  lemma {:induction false} MeetAbove<D>(entries: seq<Entry<D>>, a: seq<nat>, b: seq<nat>, i: nat, j: nat)
    requires Descends(entries, a) && Descends(entries, b)
    requires i <= |a| && j <= |b| && At(a, i) == At(b, j)
    ensures i == j && forall k :: 0 <= k < i ==> a[k] == b[k]
    decreases i
  {
    if 0 < i {
      assert LinkedAt(entries, a, i - 1);
    }
    if 0 < j {
      assert LinkedAt(entries, b, j - 1);
    }
    if 0 < i {
      MeetAbove(entries, a, b, i - 1, j - 1);
    }
  }

  /** `a` and `b` agree on exactly the first `n` positions. */
  ghost predicate Fork(a: seq<nat>, b: seq<nat>, n: nat) {
    && n <= |a| && n <= |b|
    && (forall k :: 0 <= k < n ==> a[k] == b[k])
    && (n < |a| && n < |b| ==> a[n] != b[n])
  }

  lemma CommonLengthForks(a: seq<nat>, b: seq<nat>)
    ensures Fork(a, b, CommonLength(a, b))
  {
    var n := CommonLength(a, b);
    assert forall k :: 0 <= k < n ==> a[k] == a[..n][k] && b[k] == b[..n][k];
  }

  lemma Meet<D>(entries: seq<Entry<D>>, a: seq<nat>, b: seq<nat>, shared: nat, i: nat, j: nat)
    requires Descends(entries, a) && Descends(entries, b) && Fork(a, b, shared)
    requires i <= |a| && j <= |b| && At(a, i) == At(b, j)
    ensures i == j <= shared
  {
    MeetAbove(entries, a, b, i, j);
  }

  lemma NotTwice<D>(entries: seq<Entry<D>>, path: seq<nat>, i: nat, j: nat)
    requires Descends(entries, path) && i <= |path| && j <= |path| && At(path, i) == At(path, j)
    ensures i == j
  {
    MeetAbove(entries, path, path, i, j);
  }

  // ----- What a transition emits -----

  /** Undo the entries of a downward path, the deepest first. */
  function Undos<D>(entries: seq<Entry<D>>, path: seq<nat>): seq<Step<D>>
    requires forall k :: 0 <= k < |path| ==> 0 < path[k] <= |entries|
  {
    if path == [] then [] else Undos(entries, path[1..]) + [Undo(entries[path[0] - 1].delta)]
  }

  lemma UndosStep<D>(entries: seq<Entry<D>>, path: seq<nat>, d: nat)
    requires d < |path| && forall k :: 0 <= k < |path| ==> 0 < path[k] <= |entries|
    ensures Undos(entries, path[d..]) == Undos(entries, path[d + 1..]) + [Undo(entries[path[d] - 1].delta)]
  {
    assert path[d..][1..] == path[d + 1..];
  }

  /** Redo the entries of a downward path, the deepest last. */
  function Redos<D>(entries: seq<Entry<D>>, path: seq<nat>): seq<Step<D>>
    requires forall k :: 0 <= k < |path| ==> 0 < path[k] <= |entries|
  {
    seq(|path|, k requires 0 <= k < |path| => Redo(entries[path[k] - 1].delta))
  }

  /** From `source` up to the lowest common ancestor, then down to `target`. */
  function TransitionLog<D>(entries: seq<Entry<D>>, source: nat, target: nat): seq<Step<D>>
    requires IsTree(entries) && source <= |entries| && target <= |entries|
  {
    var up, down := Path(entries, source), Path(entries, target);
    var shared := CommonLength(up, down);
    Undos(entries, up[shared..]) + Redos(entries, down[shared..])
  }

  lemma {:induction false} UndosAt<D>(entries: seq<Entry<D>>, path: seq<nat>, i: nat)
    requires i < |path| && forall k :: 0 <= k < |path| ==> 0 < path[k] <= |entries|
    ensures |Undos(entries, path)| == |path|
    ensures Undos(entries, path)[i] == Undo(entries[path[|path| - 1 - i] - 1].delta)
  {
    if 1 < |path| {
      UndosAt(entries, path[1..], if i < |path| - 1 then i else 0);
    }
  }

  lemma UndosLength<D>(entries: seq<Entry<D>>, path: seq<nat>)
    requires forall k :: 0 <= k < |path| ==> 0 < path[k] <= |entries|
    ensures |Undos(entries, path)| == |path|
  {
    if path != [] {
      UndosAt(entries, path, 0);
    }
  }

  /** A log, step by step: first the undos of the source branch, the deepest first,
      then the redos of the target branch, the deepest last. `shared` positions are
      common to both paths and no step touches them. */
  ghost predicate Crosses<D>(entries: seq<Entry<D>>, up: seq<nat>, down: seq<nat>, shared: nat, log: seq<Step<D>>)
    requires forall k :: 0 <= k < |up| ==> 0 < up[k] <= |entries|
    requires forall k :: 0 <= k < |down| ==> 0 < down[k] <= |entries|
  {
    && shared <= |up| && shared <= |down|
    && (forall k :: 0 <= k < shared ==> up[k] == down[k])
    && (shared < |up| && shared < |down| ==> up[shared] != down[shared])
    && |log| == |up| + |down| - 2 * shared
    && (forall k :: 0 <= k < |up| - shared ==> log[k] == Undo(entries[up[|up| - 1 - k] - 1].delta))
    && (forall k :: |up| - shared <= k < |log| ==>
          log[k] == Redo(entries[down[shared + (k - (|up| - shared))] - 1].delta))
  }

  lemma LogCrosses<D>(
    entries: seq<Entry<D>>, up: seq<nat>, down: seq<nat>, shared: nat, undone: seq<nat>, redone: seq<nat>)
    requires Fork(up, down, shared) && undone == up[shared..] && redone == down[shared..]
    requires forall k :: 0 <= k < |up| ==> 0 < up[k] <= |entries|
    requires forall k :: 0 <= k < |down| ==> 0 < down[k] <= |entries|
    ensures Crosses(entries, up, down, shared, Undos(entries, undone) + Redos(entries, redone))
  {
    UndosLength(entries, undone);
    var log := Undos(entries, undone) + Redos(entries, redone);
    forall k | 0 <= k < |up| - shared
      ensures log[k] == Undo(entries[up[|up| - 1 - k] - 1].delta)
    {
      UndosAt(entries, undone, k);
      assert undone[|undone| - 1 - k] == up[|up| - 1 - k];
    }
    forall k | |up| - shared <= k < |log|
      ensures log[k] == Redo(entries[down[shared + (k - (|up| - shared))] - 1].delta)
    {
      assert log[k] == Redos(entries, redone)[k - |undone|];
      assert redone[k - |undone|] == down[shared + (k - (|up| - shared))];
    }
  }

  /** The specified log consists of exactly the steps between the two positions. */
  lemma TransitionLogCrosses<D>(entries: seq<Entry<D>>, source: nat, target: nat) returns (shared: nat)
    requires IsTree(entries) && source <= |entries| && target <= |entries|
    ensures Crosses(entries, Path(entries, source), Path(entries, target), shared,
                    TransitionLog(entries, source, target))
  {
    var up, down := Path(entries, source), Path(entries, target);
    shared := CommonLength(up, down);
    CommonLengthForks(up, down);
    LogCrosses(entries, up, down, shared, up[shared..], down[shared..]);
  }

  /** Such a log undoes no entry that it redoes: behind its `i`-th step, an undo, and
      its `j`-th step, a redo, stand different entries. */
  lemma NoEntryTwice<D>(
    entries: seq<Entry<D>>, up: seq<nat>, down: seq<nat>, shared: nat, log: seq<Step<D>>, i: nat, j: nat)
    requires Descends(entries, up) && forall k :: 0 <= k < |up| ==> 0 < up[k] <= |entries|
    requires Descends(entries, down) && forall k :: 0 <= k < |down| ==> 0 < down[k] <= |entries|
    requires Crosses(entries, up, down, shared, log)
    requires i < |log| && log[i].Undo? && j < |log| && log[j].Redo?
    ensures exists undone, redone ::
              && 0 < undone <= |entries| && log[i] == Undo(entries[undone - 1].delta)
              && 0 < redone <= |entries| && log[j] == Redo(entries[redone - 1].delta)
              && undone in up && redone in down && undone !in down && redone !in up
  {
    assert i < |up| - shared <= j;
    var atUp, atDown := |up| - 1 - i, shared + (j - (|up| - shared));
    OffTheOther(entries, up, down, shared, atUp);
    OffTheOther(entries, down, up, shared, atDown);
    var undone, redone := up[atUp], down[atDown];
    assert log[i] == Undo(entries[undone - 1].delta) && log[j] == Redo(entries[redone - 1].delta);
  }

  /** Past the shared positions neither path holds a position of the other. */
  lemma OffTheOther<D>(entries: seq<Entry<D>>, a: seq<nat>, b: seq<nat>, shared: nat, i: nat)
    requires Descends(entries, a) && Descends(entries, b) && Fork(a, b, shared)
    requires shared <= i < |a|
    ensures a[i] !in b
  {
    forall j | 0 <= j < |b|
      ensures a[i] != b[j]
    {
      if a[i] == b[j] {
        Meet(entries, a, b, shared, i + 1, j + 1);
      }
    }
  }

  /** Staying emits nothing, going to an ancestor no redo, coming from one no undo. */
  lemma OneWayLogs<D>(entries: seq<Entry<D>>, up: seq<nat>, down: seq<nat>, shared: nat, log: seq<Step<D>>)
    requires forall k :: 0 <= k < |up| ==> 0 < up[k] <= |entries|
    requires forall k :: 0 <= k < |down| ==> 0 < down[k] <= |entries|
    requires Crosses(entries, up, down, shared, log)
    ensures up == down ==> log == []
    ensures down <= up ==> |log| == |up| - |down| && forall k :: 0 <= k < |log| ==> log[k].Undo?
    ensures up <= down ==> |log| == |down| - |up| && forall k :: 0 <= k < |log| ==> log[k].Redo?
  {}

  // ----- The history -----

  class ParentLinkedHistory<D> {
    var entries: seq<Entry<D>>
    var cursor: nat

    ghost predicate Valid()
      reads this
    {
      IsTree(entries) && cursor <= |entries|
    }

    constructor ()
      ensures Valid() && entries == [] && cursor == 0
    {
      entries, cursor := [], 0;
    }

    function Depth(position: nat): (d: nat)
      requires Valid() && position <= |entries|
      reads this
      ensures d == DepthOf(entries, position)
    {
      if position == 0 then 0 else entries[position - 1].depth
    }

    function Parent(position: nat): (p: nat)
      requires Valid() && position <= |entries|
      reads this
      ensures p == ParentOf(entries, position) && p <= position
    {
      if position == 0 then 0
      else
        ParentIsAbove(entries, position);
        entries[position - 1].parent
    }

    method Record(delta: D) returns (position: nat)
      requires Valid()
      modifies this
      ensures Valid()
      ensures entries == old(entries) + [Entry(old(cursor), |Path(old(entries), old(cursor))| + 1, delta)]
      ensures position == cursor == |entries|
      ensures Path(entries, cursor) == Path(old(entries), old(cursor)) + [cursor]
      ensures forall p :: 0 <= p <= |old(entries)| ==> Path(entries, p) == Path(old(entries), p)
    {
      var parent := cursor;
      var depth := Depth(parent) + 1;
      ghost var before, entry := entries, Entry(parent, depth, delta);
      entries := entries + [Entry(parent, depth, delta)];
      cursor := |entries|;
      position := cursor;
      forall k | 0 <= k < |entries|
        ensures Hangs(entries, k)
      {
        if k < |before| {
          assert Hangs(before, k) && entries[k] == before[k];
        }
        var p := entries[k].parent;
        assert 0 < p <= |before| ==> entries[p - 1] == before[p - 1];
      }
      forall p | 0 <= p <= |before|
        ensures Path(entries, p) == Path(before, p)
      {
        PathsSurvive(before, entry, p);
      }
    }

    /** The ancestor of a position at the given depth, or the position itself if
        it is not that deep. */
    method ClimbToDepth(from: nat, depth: nat, ghost path: seq<nat>) returns (p: nat)
      requires Valid() && Descends(entries, path) && from == At(path, |path|)
      ensures p == At(path, if depth < |path| then depth else |path|)
    {
      p := from;
      ghost var d: nat := |path|;
      OnPath(entries, path, d);
      while Depth(p) > depth
        invariant 0 <= d <= |path| && p == At(path, d) <= |entries| && Depth(p) == d
        invariant d == |path| || depth <= d
        decreases d
      {
        OnPath(entries, path, d - 1);
        OnPath(entries, path, d);
        p, d := Parent(p), d - 1;
      }
    }

    /** The lowest common ancestor of two positions, given by their paths. */
    method CommonAncestor(from: nat, to: nat, ghost up: seq<nat>, ghost down: seq<nat>, ghost shared: nat)
      returns (lca: nat)
      requires Valid() && Descends(entries, up) && Descends(entries, down) && Fork(up, down, shared)
      requires from == At(up, |up|) && to == At(down, |down|)
      ensures lca == At(up, shared) == At(down, shared)
    {
      OnPath(entries, up, |up|);
      OnPath(entries, down, |down|);
      var source := ClimbToDepth(from, Depth(to), up);
      var destination := ClimbToDepth(to, Depth(from), down);
      ghost var d: nat := if |up| <= |down| then |up| else |down|;
      OnPath(entries, up, d);
      OnPath(entries, down, d);
      while source != destination
        invariant shared <= d <= |up| && d <= |down|
        invariant source == At(up, d) <= |entries| && destination == At(down, d) <= |entries|
        decreases d
      {
        OnPath(entries, up, d);
        OnPath(entries, up, d - 1);
        OnPath(entries, down, d);
        OnPath(entries, down, d - 1);
        source, destination, d := Parent(source), Parent(destination), d - 1;
      }
      Meet(entries, up, down, shared, d, d);
      lca := source;
    }

    /** Emit the undos from `from` up to its ancestor `lca`, at depth `shared`. */
    method ClimbTo(from: nat, lca: nat, ghost up: seq<nat>, ghost shared: nat) returns (log: seq<Step<D>>)
      requires Valid() && Descends(entries, up) && shared <= |up|
      requires forall k :: 0 <= k < |up| ==> 0 < up[k] <= |entries|
      requires from == At(up, |up|) && lca == At(up, shared)
      ensures log == Undos(entries, up[shared..])
    {
      ghost var d := |up|;
      OnPath(entries, up, d);
      var current := from;
      log := [];
      while current != lca
        invariant shared <= d <= |up| && current == At(up, d) <= |entries|
        invariant log == Undos(entries, up[d..])
        decreases d
      {
        OnPath(entries, up, d);
        UndosStep(entries, up, d - 1);
        log := log + [Undo(entries[current - 1].delta)];
        current, d := Parent(current), d - 1;
      }
      NotTwice(entries, up, d, shared);
    }

    /** The entries from `target` up to its ancestor `lca`, the deepest first. */
    method CollectForward(lca: nat, target: nat, ghost down: seq<nat>, ghost shared: nat) returns (forward: seq<nat>)
      requires Valid() && Descends(entries, down) && shared <= |down|
      requires target == At(down, |down|) && lca == At(down, shared)
      ensures |forward| == |down| - shared
      ensures forall k :: 0 <= k < |forward| ==> forward[k] + 1 == down[|down| - 1 - k]
    {
      ghost var d := |down|;
      OnPath(entries, down, d);
      var current := target;
      forward := [];
      while current != lca
        invariant shared <= d <= |down| && current == At(down, d) <= |entries|
        invariant |forward| == |down| - d
        invariant forall k :: 0 <= k < |forward| ==> forward[k] + 1 == down[|down| - 1 - k]
        decreases d
      {
        OnPath(entries, down, d);
        OnPath(entries, down, d - 1);
        forward := forward + [current - 1];
        current, d := Parent(current), d - 1;
      }
      NotTwice(entries, down, d, shared);
    }

    /** Emit the redos of the collected entries, the last one first. */
    method Descend(forward: seq<nat>, ghost down: seq<nat>, ghost shared: nat) returns (log: seq<Step<D>>)
      requires shared <= |down| && |forward| == |down| - shared
      requires forall k :: 0 <= k < |down| ==> 0 < down[k] <= |entries|
      requires forall k :: 0 <= k < |forward| ==> forward[k] + 1 == down[|down| - 1 - k]
      ensures log == Redos(entries, down[shared..])
    {
      log := [];
      var k := |forward|;
      while k > 0
        invariant 0 <= k <= |forward| && |log| == |forward| - k
        invariant forall j :: 0 <= j < |log| ==> log[j] == Redo(entries[down[shared + j] - 1].delta)
      {
        k := k - 1;
        assert forward[k] + 1 == down[shared + |log|];
        log := log + [Redo(entries[forward[k]].delta)];
      }
    }

    /** Emit the steps from `from` to `to`, given by their paths. */
    method Travel(from: nat, to: nat, ghost up: seq<nat>, ghost down: seq<nat>, ghost shared: nat)
      returns (log: seq<Step<D>>)
      requires Valid() && Descends(entries, up) && Descends(entries, down) && Fork(up, down, shared)
      requires forall k :: 0 <= k < |up| ==> 0 < up[k] <= |entries|
      requires forall k :: 0 <= k < |down| ==> 0 < down[k] <= |entries|
      requires from == At(up, |up|) && to == At(down, |down|)
      ensures log == Undos(entries, up[shared..]) + Redos(entries, down[shared..])
    {
      var lca := CommonAncestor(from, to, up, down, shared);
      var undone := ClimbTo(from, lca, up, shared);
      var forward := CollectForward(lca, to, down, shared);
      var redone := Descend(forward, down, shared);
      log := undone + redone;
    }

    /** Move to `target`, emitting the deltas to undo and to redo. */
    method Transition(target: nat) returns (known: bool, log: seq<Step<D>>)
      requires Valid()
      modifies this`cursor
      ensures Valid()
      ensures known <==> target <= |entries|
      ensures known ==> cursor == target && log == TransitionLog(entries, old(cursor), target)
      // Written out: the undos up to the last shared position, then the redos down from it.
      ensures known ==>
                exists shared :: Crosses(entries, Path(entries, old(cursor)), Path(entries, target), shared, log)
      // Staying emits nothing, going to an ancestor no redo, coming from one no undo.
      ensures known && target == old(cursor) ==> log == []
      ensures known && Path(entries, target) <= Path(entries, old(cursor)) ==>
                forall k :: 0 <= k < |log| ==> log[k].Undo?
      ensures known && Path(entries, old(cursor)) <= Path(entries, target) ==>
                forall k :: 0 <= k < |log| ==> log[k].Redo?
      ensures !known ==> cursor == old(cursor) && log == []
    {
      if target > |entries| {
        return false, [];
      }
      ghost var up, down := Path(entries, cursor), Path(entries, target);
      PathDescends(entries, cursor);
      PathDescends(entries, target);
      CommonLengthForks(up, down);
      log := Travel(cursor, target, up, down, CommonLength(up, down));
      ghost var shared := TransitionLogCrosses(entries, cursor, target);
      OneWayLogs(entries, up, down, shared, log);
      cursor := target;
      known := true;
    }
  }

  // ----- What the emitted steps do to the caller's state -----

  datatype Meaning<!D, !S> = Meaning(redo: (S, D) -> S, undo: (S, D) -> S)

  ghost predicate Inverts<D(!new), S(!new)>(m: Meaning<D, S>) {
    forall s, d :: m.undo(m.redo(s, d), d) == s
  }

  function Apply<D, S>(m: Meaning<D, S>, log: seq<Step<D>>, s: S): S {
    if log == [] then s
    else
      ApplyStep(m, log[|log| - 1], Apply(m, log[..|log| - 1], s))
  }

  /** The state reached by redoing a path from the root. */
  function Replay<D, S>(m: Meaning<D, S>, entries: seq<Entry<D>>, path: seq<nat>, s: S): S
    requires forall k :: 0 <= k < |path| ==> 0 < path[k] <= |entries|
  {
    if path == [] then s
    else m.redo(Replay(m, entries, path[..|path| - 1], s), entries[path[|path| - 1] - 1].delta)
  }

  function ApplyStep<D, S>(m: Meaning<D, S>, step: Step<D>, s: S): S {
    match step
    case Undo(d) => m.undo(s, d)
    case Redo(d) => m.redo(s, d)
  }

  lemma ApplySnoc<D, S>(m: Meaning<D, S>, log: seq<Step<D>>, step: Step<D>, s: S)
    ensures Apply(m, log + [step], s) == ApplyStep(m, step, Apply(m, log, s))
  {
    assert (log + [step])[..|log|] == log;
  }

  lemma ReplaySnoc<D, S>(m: Meaning<D, S>, entries: seq<Entry<D>>, path: seq<nat>, last: nat, s: S)
    requires forall k :: 0 <= k < |path| ==> 0 < path[k] <= |entries|
    requires 0 < last <= |entries|
    ensures Replay(m, entries, path + [last], s) == m.redo(Replay(m, entries, path, s), entries[last - 1].delta)
  {
    assert (path + [last])[..|path|] == path;
  }

  lemma {:induction false} ApplyConcat<D, S>(m: Meaning<D, S>, a: seq<Step<D>>, b: seq<Step<D>>, s: S)
    ensures Apply(m, a + b, s) == Apply(m, b, Apply(m, a, s))
    decreases |b|
  {
    if b == [] {
      assert a + b == a;
    } else {
      assert (a + b)[..|a + b| - 1] == a + b[..|b| - 1];
      ApplyConcat(m, a, b[..|b| - 1], s);
    }
  }

  /** Undoing `below` from the replay of `above + below` leaves that of `above`. */
  lemma {:induction false} UndoingReturns<D(!new), S(!new)>(
    m: Meaning<D, S>, entries: seq<Entry<D>>, above: seq<nat>, below: seq<nat>, s: S)
    requires Inverts(m)
    requires forall k :: 0 <= k < |above| ==> 0 < above[k] <= |entries|
    requires forall k :: 0 <= k < |below| ==> 0 < below[k] <= |entries|
    ensures Apply(m, Undos(entries, below), Replay(m, entries, above + below, s)) == Replay(m, entries, above, s)
    decreases |below|
  {
    if below == [] {
      assert above + below == above;
    } else {
      var first, rest := below[0], below[1..];
      UndoingReturns(m, entries, above + [first], rest, s);
      assert above + below == above + [first] + rest;
      ApplySnoc(m, Undos(entries, rest), Undo(entries[first - 1].delta), Replay(m, entries, above + below, s));
      ReplaySnoc(m, entries, above, first, s);
    }
  }

  lemma RedosSnoc<D>(entries: seq<Entry<D>>, path: seq<nat>, last: nat)
    requires forall k :: 0 <= k < |path| ==> 0 < path[k] <= |entries|
    requires 0 < last <= |entries|
    ensures Redos(entries, path + [last]) == Redos(entries, path) + [Redo(entries[last - 1].delta)]
  {}

  /** Redoing `below` on top of the replay of `above` replays both. */
  lemma {:induction false} RedoingReplays<D, S>(
    m: Meaning<D, S>, entries: seq<Entry<D>>, above: seq<nat>, below: seq<nat>, s: S)
    requires forall k :: 0 <= k < |above| ==> 0 < above[k] <= |entries|
    requires forall k :: 0 <= k < |below| ==> 0 < below[k] <= |entries|
    ensures Apply(m, Redos(entries, below), Replay(m, entries, above, s))
         == Replay(m, entries, above + below, s)
    decreases |below|
  {
    if below == [] {
      assert above + below == above;
    } else {
      var fewer, last := below[..|below| - 1], below[|below| - 1];
      RedoingReplays(m, entries, above, fewer, s);
      RedosSnoc(entries, fewer, last);
      ApplySnoc(m, Redos(entries, fewer), Redo(entries[last - 1].delta), Replay(m, entries, above, s));
      ReplaySnoc(m, entries, above + fewer, last, s);
      assert below == fewer + [last] && above + below == above + fewer + [last];
    }
  }

  /** Undoing one branch, then redoing the other. */
  lemma CrossingReplays<D(!new), S(!new)>(
    m: Meaning<D, S>, entries: seq<Entry<D>>, above: seq<nat>, left: seq<nat>, right: seq<nat>, s: S)
    requires Inverts(m)
    requires forall k :: 0 <= k < |above| ==> 0 < above[k] <= |entries|
    requires forall k :: 0 <= k < |left| ==> 0 < left[k] <= |entries|
    requires forall k :: 0 <= k < |right| ==> 0 < right[k] <= |entries|
    ensures Apply(m, Undos(entries, left) + Redos(entries, right), Replay(m, entries, above + left, s))
         == Replay(m, entries, above + right, s)
  {
    ApplyConcat(m, Undos(entries, left), Redos(entries, right), Replay(m, entries, above + left, s));
    UndoingReturns(m, entries, above, left, s);
    RedoingReplays(m, entries, above, right, s);
  }

  lemma ForkReplays<D(!new), S(!new)>(
    m: Meaning<D, S>, entries: seq<Entry<D>>, up: seq<nat>, down: seq<nat>, shared: nat, s: S)
    requires Inverts(m) && shared <= |up| && shared <= |down| && up[..shared] == down[..shared]
    requires forall k :: 0 <= k < |up| ==> 0 < up[k] <= |entries|
    requires forall k :: 0 <= k < |down| ==> 0 < down[k] <= |entries|
    ensures Apply(m, Undos(entries, up[shared..]) + Redos(entries, down[shared..]), Replay(m, entries, up, s))
         == Replay(m, entries, down, s)
  {
    var above, left, right := up[..shared], up[shared..], down[shared..];
    assert up == above + left && down == above + right;
    CrossingReplays(m, entries, above, left, right, s);
  }

  /** Wherever the caller stands, a transition takes its state to the replay of
      the target's path. */
  lemma TransitionReplaysTarget<D(!new), S(!new)>(
    m: Meaning<D, S>, entries: seq<Entry<D>>, source: nat, target: nat, s: S)
    requires Inverts(m) && IsTree(entries) && source <= |entries| && target <= |entries|
    ensures Apply(m, TransitionLog(entries, source, target), Replay(m, entries, Path(entries, source), s))
         == Replay(m, entries, Path(entries, target), s)
  {
    var up, down := Path(entries, source), Path(entries, target);
    ForkReplays(m, entries, up, down, CommonLength(up, down), s);
  }

  // ----- Whole runs -----

  datatype Command<D> = RecordDelta(delta: D) | MoveTo(target: nat)

  lemma {:induction false} ReplaySurvives<D, S>(
    m: Meaning<D, S>, entries: seq<Entry<D>>, entry: Entry<D>, path: seq<nat>, s: S)
    requires forall k :: 0 <= k < |path| ==> 0 < path[k] <= |entries|
    ensures Replay(m, entries + [entry], path, s) == Replay(m, entries, path, s)
  {
    if path != [] {
      ReplaySurvives(m, entries, entry, path[..|path| - 1], s);
    }
  }

  /** `state` is the replay of the path down to `position`. */
  ghost predicate Mirrors<D, S>(m: Meaning<D, S>, entries: seq<Entry<D>>, position: nat, initial: S, state: S) {
    && IsTree(entries) && position <= |entries|
    && state == Replay(m, entries, Path(entries, position), initial)
  }

  lemma RecordMirrors<D, S>(m: Meaning<D, S>, entries: seq<Entry<D>>, entry: Entry<D>, at: nat, initial: S, state: S)
    requires Mirrors(m, entries, at, initial, state) && IsTree(entries + [entry])
    requires Path(entries + [entry], |entries| + 1) == Path(entries, at) + [|entries| + 1]
    ensures Mirrors(m, entries + [entry], |entries| + 1, initial, m.redo(state, entry.delta))
  {
    ReplaySurvives(m, entries, entry, Path(entries, at), initial);
    ReplaySnoc(m, entries + [entry], Path(entries, at), |entries| + 1, initial);
  }

  lemma TransitionMirrors<D(!new), S(!new)>(
    m: Meaning<D, S>, entries: seq<Entry<D>>, source: nat, target: nat, initial: S, state: S)
    requires Inverts(m) && Mirrors(m, entries, source, initial, state) && target <= |entries|
    ensures Mirrors(m, entries, target, initial, Apply(m, TransitionLog(entries, source, target), state))
  {
    TransitionReplaysTarget(m, entries, source, target, initial);
  }

  /** A checkpoint taken earlier still stands for the state it was taken in. */
  lemma {:induction false} CheckpointsKeepTheirState<D, S>(
    m: Meaning<D, S>, entries: seq<Entry<D>>, entry: Entry<D>, checkpoint: nat, s: S)
    requires IsTree(entries) && IsTree(entries + [entry]) && checkpoint <= |entries|
    ensures Replay(m, entries + [entry], Path(entries + [entry], checkpoint), s)
         == Replay(m, entries, Path(entries, checkpoint), s)
  {
    PathsSurvive(entries, entry, checkpoint);
    ReplaySurvives(m, entries, entry, Path(entries, checkpoint), s);
  }

  // ----- The history as a store of whole states -----

  /** What a caller would hold that kept every state it ever recorded: the state
      recorded at each position, position 0 being the start, and the current one. */
  datatype Snapshots<S> = Snapshots(states: seq<S>, current: S)

  function Keeping<D, S>(m: Meaning<D, S>, commands: seq<Command<D>>, initial: S): (kept: Snapshots<S>) {
    if commands == [] then Snapshots([initial], initial)
    else Kept(m, Keeping(m, commands[..|commands| - 1], initial), commands[|commands| - 1])
  }

  /** Recording keeps one more state; a move to an unknown position does nothing. */
  function Kept<D, S>(m: Meaning<D, S>, kept: Snapshots<S>, command: Command<D>): Snapshots<S> {
    match command
    case RecordDelta(delta) =>
      var next := m.redo(kept.current, delta);
      Snapshots(kept.states + [next], next)
    case MoveTo(target) =>
      if target < |kept.states| then kept.(current := kept.states[target]) else kept
  }

  /** Every position's path replays to the state that was kept for it. */
  ghost predicate Remembers<D, S>(m: Meaning<D, S>, entries: seq<Entry<D>>, initial: S, states: seq<S>) {
    && |states| == |entries| + 1
    && forall p: nat :: p <= |entries| ==> Mirrors(m, entries, p, initial, states[p])
  }

  lemma RecordRemembers<D, S>(
    m: Meaning<D, S>, entries: seq<Entry<D>>, entry: Entry<D>, initial: S, states: seq<S>, next: S)
    requires Remembers(m, entries, initial, states)
    requires Mirrors(m, entries + [entry], |entries| + 1, initial, next)
    ensures Remembers(m, entries + [entry], initial, states + [next])
  {
    forall p: nat | p <= |entries|
      ensures Mirrors(m, entries + [entry], p, initial, states[p])
    {
      assert Mirrors(m, entries, p, initial, states[p]);
      CheckpointsKeepTheirState(m, entries, entry, p, initial);
    }
  }

  method Execute<D(!new), S(!new)>(m: Meaning<D, S>, history: ParentLinkedHistory<D>, command: Command<D>,
                                   state: S, ghost initial: S, ghost kept: Snapshots<S>)
    returns (next: S)
    requires Inverts(m) && history.Valid() && state == kept.current
    requires Mirrors(m, history.entries, history.cursor, initial, state)
    requires Remembers(m, history.entries, initial, kept.states)
    modifies history
    ensures history.Valid() && next == Kept(m, kept, command).current
    ensures Mirrors(m, history.entries, history.cursor, initial, next)
    ensures Remembers(m, history.entries, initial, Kept(m, kept, command).states)
  {
    ghost var before, at := history.entries, history.cursor;
    match command
    case RecordDelta(delta) =>
      var position := history.Record(delta);
      next := m.redo(state, delta);
      RecordMirrors(m, before, history.entries[|before|], at, initial, state);
      RecordRemembers(m, before, history.entries[|before|], initial, kept.states, next);
    case MoveTo(target) =>
      var known, log := history.Transition(target);
      if known {
        TransitionMirrors(m, before, at, target, initial, state);
        assert Mirrors(m, before, target, initial, kept.states[target]);
      }
      next := Apply(m, log, state);
  }

  /** From wherever the run ended, a transition restores every kept state. */
  lemma TransitionsRestore<D(!new), S(!new)>(
    m: Meaning<D, S>, entries: seq<Entry<D>>, cursor: nat, initial: S, state: S, states: seq<S>)
    requires Inverts(m) && Mirrors(m, entries, cursor, initial, state) && Remembers(m, entries, initial, states)
    ensures forall p: nat :: p <= |entries| ==> Apply(m, TransitionLog(entries, cursor, p), state) == states[p]
  {
    forall p: nat | p <= |entries|
      ensures Apply(m, TransitionLog(entries, cursor, p), state) == states[p]
    {
      TransitionMirrors(m, entries, cursor, p, initial, state);
      assert Mirrors(m, entries, p, initial, states[p]);
    }
  }

  /** A caller that keeps only its current state next to a history. After any run
      of records and moves that state is the one a caller keeping every state would
      be in, and a transition to any position restores the state recorded there. */
  method Run<D(!new), S(!new)>(m: Meaning<D, S>, initial: S, commands: seq<Command<D>>)
    returns (state: S, entries: seq<Entry<D>>, cursor: nat)
    requires Inverts(m)
    ensures Mirrors(m, entries, cursor, initial, state)
    ensures var kept := Keeping(m, commands, initial);
            && state == kept.current && |kept.states| == |entries| + 1
            && forall p: nat :: p <= |entries| ==>
                 Apply(m, TransitionLog(entries, cursor, p), state) == kept.states[p]
  {
    var history := new ParentLinkedHistory<D>();
    state := initial;
    ghost var kept := Snapshots([initial], initial);
    for k := 0 to |commands|
      invariant history.Valid() && fresh(history)
      invariant kept == Keeping(m, commands[..k], initial) && state == kept.current
      invariant Mirrors(m, history.entries, history.cursor, initial, state)
      invariant Remembers(m, history.entries, initial, kept.states)
    {
      state := Execute(m, history, commands[k], state, initial, kept);
      kept := Kept(m, kept, commands[k]);
      assert commands[..k + 1][..k] == commands[..k];
    }
    assert commands[..|commands|] == commands;
    entries, cursor := history.entries, history.cursor;
    TransitionsRestore(m, entries, cursor, initial, state, kept.states);
  }
}
