/** Evidence traces shared in an arena: one node for each distinct chain of
    steps, named by its last step. */
module EvidenceTraces {
  import opened Sequences
  import opened Wrappers

  datatype EvidenceRole = Source | Assignment | Requirement | Call | Return | Sink | Occurrence

  datatype QualifiedEvent = QualifiedEvent(moduleId: nat, fact: nat)

  datatype TraceStep = TraceStep(event: QualifiedEvent, role: EvidenceRole)

  datatype TraceNodeId = TraceNodeId(arena: nat, node: nat)

  datatype TraceNode = TraceNode(parent: Option<TraceNodeId>, step: TraceStep)

  // ----- What a node stands for -----

  ghost predicate Given(arena: nat, size: nat, id: TraceNodeId) {
    id.arena == arena && id.node < size
  }

  ghost predicate Hangs(nodes: seq<TraceNode>, arena: nat, k: nat)
    requires k < |nodes|
  {
    nodes[k].parent.Some? ==> Given(arena, k, nodes[k].parent.value)
  }

  ghost predicate IsForest(nodes: seq<TraceNode>, arena: nat) {
    forall k :: 0 <= k < |nodes| ==> Hangs(nodes, arena, k)
  }

  ghost function TraceOf(nodes: seq<TraceNode>, arena: nat, k: nat): (steps: seq<TraceStep>)
    requires IsForest(nodes, arena) && k < |nodes|
    ensures steps != [] && steps[|steps| - 1] == nodes[k].step
    decreases k
  {
    assert Hangs(nodes, arena, k);
    match nodes[k].parent
    case None => [nodes[k].step]
    case Some(p) => TraceOf(nodes, arena, p.node) + [nodes[k].step]
  }

  /** The steps up to and with an optional parent. */
  ghost function StepsTo(nodes: seq<TraceNode>, arena: nat, parent: Option<TraceNodeId>): seq<TraceStep>
    requires IsForest(nodes, arena) && (parent.Some? ==> Given(arena, |nodes|, parent.value))
  {
    if parent.Some? then TraceOf(nodes, arena, parent.value.node) else []
  }

  lemma TraceEnds(nodes: seq<TraceNode>, arena: nat, k: nat)
    requires IsForest(nodes, arena) && k < |nodes|
    ensures Hangs(nodes, arena, k)
    ensures TraceOf(nodes, arena, k) == StepsTo(nodes, arena, nodes[k].parent) + [nodes[k].step]
  {
    assert Hangs(nodes, arena, k);
  }

  lemma {:induction false} HeadSurvives(nodes: seq<TraceNode>, more: seq<TraceNode>, arena: nat, k: nat)
    requires IsForest(nodes, arena) && IsForest(more, arena) && nodes <= more && k < |nodes|
    ensures TraceOf(more, arena, k) == TraceOf(nodes, arena, k)
    decreases k
  {
    assert Hangs(nodes, arena, k) && more[k] == nodes[k];
    if nodes[k].parent.Some? {
      HeadSurvives(nodes, more, arena, nodes[k].parent.value.node);
    }
  }

  // ----- The intern map -----

  type Keys = map<(Option<TraceNodeId>, TraceStep), TraceNodeId>

  ghost predicate Filed(nodes: seq<TraceNode>, arena: nat, keys: Keys, k: nat)
    requires k < |nodes|
  {
    && (nodes[k].parent, nodes[k].step) in keys
    && keys[(nodes[k].parent, nodes[k].step)] == TraceNodeId(arena, k)
  }

  ghost predicate LeadsTo(nodes: seq<TraceNode>, arena: nat, keys: Keys, parent: Option<TraceNodeId>, step: TraceStep)
    requires (parent, step) in keys
  {
    var id := keys[(parent, step)];
    Given(arena, |nodes|, id) && nodes[id.node] == TraceNode(parent, step)
  }

  ghost predicate Indexes(nodes: seq<TraceNode>, arena: nat, keys: Keys) {
    && (forall k :: 0 <= k < |nodes| ==> Filed(nodes, arena, keys, k))
    && (forall parent, step :: (parent, step) in keys ==> LeadsTo(nodes, arena, keys, parent, step))
  }

  /** One node for each chain. */
  lemma {:induction false} TraceIsCanonical(nodes: seq<TraceNode>, arena: nat, keys: Keys, j: nat, k: nat)
    requires IsForest(nodes, arena) && Indexes(nodes, arena, keys) && j < |nodes| && k < |nodes|
    requires TraceOf(nodes, arena, j) == TraceOf(nodes, arena, k)
    ensures j == k
    decreases j
  {
    TraceEnds(nodes, arena, j);
    TraceEnds(nodes, arena, k);
    var above, other := StepsTo(nodes, arena, nodes[j].parent), StepsTo(nodes, arena, nodes[k].parent);
    var last := |TraceOf(nodes, arena, j)| - 1;
    assert above == TraceOf(nodes, arena, j)[..last] == TraceOf(nodes, arena, k)[..last] == other;
    assert Filed(nodes, arena, keys, j) && Filed(nodes, arena, keys, k);
    if nodes[j].parent.Some? && nodes[k].parent.Some? {
      TraceIsCanonical(nodes, arena, keys, nodes[j].parent.value.node, nodes[k].parent.value.node);
    }
  }

  /** A chain with a node has nodes for all its non-empty prefixes. */
  lemma {:induction false} PrefixHasNode(nodes: seq<TraceNode>, arena: nat, k: nat, n: nat) returns (j: nat)
    requires IsForest(nodes, arena) && k < |nodes| && 0 < n <= |TraceOf(nodes, arena, k)|
    ensures j < |nodes| && TraceOf(nodes, arena, j) == TraceOf(nodes, arena, k)[..n]
    decreases k
  {
    var steps := TraceOf(nodes, arena, k);
    if n == |steps| {
      assert steps[..n] == steps;
      j := k;
    } else {
      TraceEnds(nodes, arena, k);
      var above := nodes[k].parent.value.node;
      assert steps[..n] == TraceOf(nodes, arena, above)[..n];
      j := PrefixHasNode(nodes, arena, above, n);
    }
  }

  lemma NewNodeFits(nodes: seq<TraceNode>, arena: nat, keys: Keys, node: TraceNode)
    requires IsForest(nodes, arena) && Indexes(nodes, arena, keys)
    requires node.parent.Some? ==> Given(arena, |nodes|, node.parent.value)
    requires (node.parent, node.step) !in keys
    ensures IsForest(nodes + [node], arena)
    ensures Indexes(nodes + [node], arena, keys[(node.parent, node.step) := TraceNodeId(arena, |nodes|)])
  {
    var more, key := nodes + [node], (node.parent, node.step);
    var grown := keys[key := TraceNodeId(arena, |nodes|)];
    forall k | 0 <= k < |more|
      ensures Hangs(more, arena, k) && Filed(more, arena, grown, k)
    {
      assert k < |nodes| ==> Hangs(nodes, arena, k) && Filed(nodes, arena, keys, k) && more[k] == nodes[k];
    }
    forall parent, step | (parent, step) in grown
      ensures LeadsTo(more, arena, grown, parent, step)
    {
      if (parent, step) != key {
        assert LeadsTo(nodes, arena, keys, parent, step);
      }
    }
  }

  // ----- The arena -----

  class TraceArena {
    const arena: nat
    const limit: nat
    var nodes: seq<TraceNode>
    var keys: Keys
    var exhausted: bool

    ghost predicate Valid()
      reads this
    {
      && IsForest(nodes, arena) && Indexes(nodes, arena, keys)
      && |nodes| <= limit && |nodes| <= U32_MAX + 1
    }

    constructor (arena: nat, limit: nat)
      ensures Valid() && this.arena == arena && this.limit == limit && nodes == [] && !exhausted
    {
      this.arena, this.limit := arena, limit;
      nodes, keys, exhausted := [], map[], false;
    }

    ghost predicate Known(id: TraceNodeId)
      reads this
    {
      Given(arena, |nodes|, id)
    }

    /** Handles are opaque: one that carries this arena's name was given out by it. */
    ghost predicate Obtainable(id: TraceNodeId)
      reads this
    {
      id.arena == arena ==> Known(id)
    }

    /** The chain a handle of this arena stands for. */
    ghost function Trace(id: TraceNodeId): seq<TraceStep>
      requires Valid() && Known(id)
      reads this
    {
      TraceOf(nodes, arena, id.node)
    }

    ghost predicate HasNode(steps: seq<TraceStep>)
      requires Valid()
      reads this
    {
      exists k :: 0 <= k < |nodes| && TraceOf(nodes, arena, k) == steps
    }

    /** Two heads are the same exactly when they stand for the same chain. */
    lemma HeadsAreCanonical(a: TraceNodeId, b: TraceNodeId)
      requires Valid() && Known(a) && Known(b)
      ensures a == b <==> Trace(a) == Trace(b)
    {
      if Trace(a) == Trace(b) {
        TraceIsCanonical(nodes, arena, keys, a.node, b.node);
      }
    }

    lemma HeadsSurvive(before: seq<TraceNode>)
      requires Valid() && IsForest(before, arena) && before <= nodes
      ensures forall k :: 0 <= k < |before| ==> TraceOf(nodes, arena, k) == TraceOf(before, arena, k)
    {
      forall k | 0 <= k < |before|
        ensures TraceOf(nodes, arena, k) == TraceOf(before, arena, k)
      {
        HeadSurvives(before, nodes, arena, k);
      }
    }

    lemma ChildHasKey(parent: Option<TraceNodeId>, step: TraceStep)
      requires Valid() && (parent.Some? ==> Known(parent.value))
      ensures HasNode(StepsTo(nodes, arena, parent) + [step]) <==> (parent, step) in keys
      ensures (parent, step) in keys ==>
                Known(keys[(parent, step)]) && Trace(keys[(parent, step)]) == StepsTo(nodes, arena, parent) + [step]
    {
      if (parent, step) in keys {
        assert LeadsTo(nodes, arena, keys, parent, step);
        TraceEnds(nodes, arena, keys[(parent, step)].node);
      }
      if HasNode(StepsTo(nodes, arena, parent) + [step]) {
        var k :| 0 <= k < |nodes| && TraceOf(nodes, arena, k) == StepsTo(nodes, arena, parent) + [step];
        TraceEnds(nodes, arena, k);
        var last := |TraceOf(nodes, arena, k)| - 1;
        assert StepsTo(nodes, arena, nodes[k].parent) == TraceOf(nodes, arena, k)[..last]
            == StepsTo(nodes, arena, parent);
        if nodes[k].parent.Some? && parent.Some? {
          TraceIsCanonical(nodes, arena, keys, nodes[k].parent.value.node, parent.value.node);
        }
        assert Filed(nodes, arena, keys, k);
      }
    }

    lemma PrefixesHaveNodes(steps: seq<TraceStep>, n: nat)
      requires Valid() && HasNode(steps) && 0 < n <= |steps|
      ensures HasNode(steps[..n])
    {
      var k :| 0 <= k < |nodes| && TraceOf(nodes, arena, k) == steps;
      var j := PrefixHasNode(nodes, arena, k, n);
    }

    /** The node one step below `parent`; every refusal leaves the arena exhausted. */
    method Intern(parent: Option<TraceNodeId>, step: TraceStep) returns (r: Option<TraceNodeId>)
      requires Valid() && (parent.Some? ==> Obtainable(parent.value))
      modifies this
      ensures Valid() && old(nodes) <= nodes
      ensures r.Some? <==>
                && (parent.Some? ==> old(Known(parent.value)))
                && old(|| HasNode(StepsTo(nodes, arena, parent) + [step])
                       || (|nodes| < limit && |nodes| <= 0xFFFF_FFFF))
      ensures exhausted == (old(exhausted) || r.None?)
      ensures r.Some? ==> Known(r.value) && Trace(r.value) == old(StepsTo(nodes, arena, parent)) + [step]
      ensures r.None? || old(HasNode(StepsTo(nodes, arena, parent) + [step])) ==> nodes == old(nodes)
    {
      if parent.Some? && parent.value.arena != arena {
        exhausted := true;
        return None;
      }
      ChildHasKey(parent, step);
      if (parent, step) in keys {
        return Some(keys[(parent, step)]);
      }
      if |nodes| >= limit {
        exhausted := true;
        return None;
      }
      if |nodes| > U32_MAX {
        exhausted := true;
        return None;
      }
      var id := TraceNodeId(arena, |nodes|);
      ghost var before := nodes;
      NewNodeFits(nodes, arena, keys, TraceNode(parent, step));
      nodes := nodes + [TraceNode(parent, step)];
      keys := keys[(parent, step) := id];
      HeadsSurvive(before);
      TraceEnds(nodes, arena, id.node);
      return Some(id);
    }

    /** Intern a chain from its first step to its last, returning the last node. */
    method InternChain(steps: seq<TraceStep>) returns (head: Option<TraceNodeId>)
      requires Valid()
      modifies this
      ensures Valid() && old(nodes) <= nodes
      ensures head.Some? ==> Known(head.value) && Trace(head.value) == steps
      ensures steps == [] ==> head.None?
      ensures exhausted == (old(exhausted) || (steps != [] && head.None?))
      ensures head.None? && steps != [] ==> |nodes| >= limit || |nodes| > 0xFFFF_FFFF
      ensures old(HasNode(steps)) ==> head.Some? && nodes == old(nodes)
      ensures forall k :: 0 <= k < |old(nodes)| ==> TraceOf(nodes, arena, k) == TraceOf(old(nodes), arena, k)
    {
      head := None;
      for i := 0 to |steps|
        invariant Valid() && old(nodes) <= nodes
        invariant head.Some? <==> 0 < i
        invariant head.Some? ==> Known(head.value) && Trace(head.value) == steps[..i]
        invariant exhausted == old(exhausted)
        invariant old(HasNode(steps)) ==> nodes == old(nodes)
      {
        assert steps[..i + 1] == steps[..i] + [steps[i]];
        assert StepsTo(nodes, arena, head) == steps[..i];
        if old(HasNode(steps)) {
          PrefixesHaveNodes(steps, i + 1);
        }
        var next := Intern(head, steps[i]);
        if next.None? {
          HeadsSurvive(old(nodes));
          return None;
        }
        head := next;
      }
      assert steps[..|steps|] == steps;
      HeadsSurvive(old(nodes));
    }

    /** A lifecycle: its source, what it required, the sinks passed, the last sink. */
    method InternLifecycleTrace(source: QualifiedEvent, requirements: seq<QualifiedEvent>,
        priorSinks: seq<QualifiedEvent>, terminal: QualifiedEvent, priorSinkRole: EvidenceRole)
      returns (head: Option<TraceNodeId>)
      requires Valid()
      modifies this
      ensures Valid() && old(nodes) <= nodes
      ensures head.Some? ==>
                && Known(head.value)
                && Trace(head.value) == LifecycleSteps(source, requirements, priorSinks, terminal, priorSinkRole)
      // Step by step: the source, the requirements, the prior sinks, the last sink.
      ensures head.Some? ==>
                var steps, sinks := Trace(head.value), 1 + |requirements|;
                && |steps| == sinks + |priorSinks| + 1
                && steps[0] == TraceStep(source, Source) && steps[|steps| - 1] == TraceStep(terminal, Sink)
                && (forall k :: 1 <= k < sinks ==> steps[k] == TraceStep(requirements[k - 1], Requirement))
                && (forall k :: sinks <= k < |steps| - 1 ==>
                      steps[k] == TraceStep(priorSinks[k - sinks], priorSinkRole))
      ensures exhausted == (old(exhausted) || head.None?)
      ensures forall k :: 0 <= k < |old(nodes)| ==> TraceOf(nodes, arena, k) == TraceOf(old(nodes), arena, k)
    {
      head := InternChain(LifecycleSteps(source, requirements, priorSinks, terminal, priorSinkRole));
    }

    /** The whole chain of a handle, or none for a handle of another arena. */
    method ReconstructTrace(head: TraceNodeId) returns (r: Option<seq<TraceStep>>)
      requires Valid() && Obtainable(head)
      ensures r.Some? <==> Known(head)
      ensures r.Some? ==> r.value == Trace(head)
    {
      if head.arena != arena {
        return None;
      }
      var current, steps := Some(head), [];
      while current.Some?
        invariant current.Some? ==> Known(current.value)
        invariant StepsTo(nodes, arena, current) + Reversed(steps) == Trace(head)
        decreases if current.Some? then current.value.node + 1 else 0
      {
        var k := current.value.node;
        TraceEnds(nodes, arena, k);
        ReversedShift(StepsTo(nodes, arena, nodes[k].parent), nodes[k].step, steps);
        steps := steps + [nodes[k].step];
        current := nodes[k].parent;
      }
      assert [] + Reversed(steps) == Reversed(steps);
      return Some(Reversed(steps));
    }
  }

  /** Intern any number of chains one after the other, exhausted or not. The heads
      handed out name exactly their chains for the rest of the run. */
  method InternAll(arena: TraceArena, chains: seq<seq<TraceStep>>) returns (heads: seq<Option<TraceNodeId>>)
    requires arena.Valid()
    modifies arena
    ensures arena.Valid() && |heads| == |chains|
    ensures forall i :: 0 <= i < |heads| && heads[i].Some? ==>
              arena.Known(heads[i].value) && arena.Trace(heads[i].value) == chains[i]
    ensures forall i, j :: 0 <= i < |heads| && 0 <= j < |heads| && heads[i].Some? && heads[j].Some? ==>
              (heads[i] == heads[j] <==> chains[i] == chains[j])
    ensures !arena.exhausted ==> forall i :: 0 <= i < |heads| ==> (heads[i].Some? <==> chains[i] != [])
  {
    heads := [];
    for n := 0 to |chains|
      invariant arena.Valid() && |heads| == n
      invariant forall i :: 0 <= i < n && heads[i].Some? ==>
                  arena.Known(heads[i].value) && arena.Trace(heads[i].value) == chains[i]
      invariant !arena.exhausted ==> forall i :: 0 <= i < n ==> (heads[i].Some? <==> chains[i] != [])
    {
      var head := arena.InternChain(chains[n]);
      heads := heads + [head];
    }
    forall i, j | 0 <= i < |heads| && 0 <= j < |heads| && heads[i].Some? && heads[j].Some?
      ensures heads[i] == heads[j] <==> chains[i] == chains[j]
    {
      arena.HeadsAreCanonical(heads[i].value, heads[j].value);
    }
  }

  // ----- Lifecycles -----

  function Tagged(events: seq<QualifiedEvent>, role: EvidenceRole): seq<TraceStep> {
    seq(|events|, k requires 0 <= k < |events| => TraceStep(events[k], role))
  }

  function LifecycleSteps(source: QualifiedEvent, requirements: seq<QualifiedEvent>,
      priorSinks: seq<QualifiedEvent>, terminal: QualifiedEvent, priorSinkRole: EvidenceRole): seq<TraceStep>
  {
    [TraceStep(source, Source)] + Tagged(requirements, Requirement)
    + Tagged(priorSinks, priorSinkRole) + [TraceStep(terminal, Sink)]
  }

  datatype Lifecycle = Lifecycle(
    source: QualifiedEvent,
    requirements: seq<QualifiedEvent>,
    priorSinks: seq<QualifiedEvent>,
    terminal: QualifiedEvent)

  function StepsOf(cycle: Lifecycle, role: EvidenceRole): seq<TraceStep> {
    LifecycleSteps(cycle.source, cycle.requirements, cycle.priorSinks, cycle.terminal, role)
  }

  function Middle(cycle: Lifecycle): seq<QualifiedEvent> {
    cycle.requirements + cycle.priorSinks
  }

  /** A trace tells the lifecycle it came from, except that it cannot tell the
      requirements from the prior sinks where both carry the requirement role. */
  lemma LifecycleTracesTell(a: Lifecycle, b: Lifecycle, role: EvidenceRole)
    ensures StepsOf(a, role) == StepsOf(b, role) <==>
            && a.source == b.source && a.terminal == b.terminal && Middle(a) == Middle(b)
            && (role == Requirement || |a.requirements| == |b.requirements|)
  {
    if StepsOf(a, role) == StepsOf(b, role) {
      EqualTracesTell(a, b, role);
    } else {
      EqualLifecyclesTrace(a, b, role);
    }
  }

  lemma EqualTracesTell(a: Lifecycle, b: Lifecycle, role: EvidenceRole)
    requires StepsOf(a, role) == StepsOf(b, role)
    ensures a.source == b.source && a.terminal == b.terminal && Middle(a) == Middle(b)
    ensures role == Requirement || |a.requirements| == |b.requirements|
  {
    LifecycleAt(a, role);
    LifecycleAt(b, role);
    var steps := StepsOf(a, role);
    assert forall k :: 0 <= k < |Middle(a)| ==> Middle(a)[k] == steps[k + 1].event == Middle(b)[k];
    var n := if |a.requirements| < |b.requirements| then |a.requirements| else |b.requirements|;
    assert n < |Middle(a)| ==> steps[n + 1].role == if n < |a.requirements| then Requirement else role;
  }

  lemma EqualLifecyclesTrace(a: Lifecycle, b: Lifecycle, role: EvidenceRole)
    ensures && a.source == b.source && a.terminal == b.terminal && Middle(a) == Middle(b)
            && (role == Requirement || |a.requirements| == |b.requirements|) ==>
              StepsOf(a, role) == StepsOf(b, role)
  {
    if role == Requirement {
      TaggedConcat(a.requirements, a.priorSinks, role);
      TaggedConcat(b.requirements, b.priorSinks, role);
      assert StepsOf(a, role) ==
             [TraceStep(a.source, Source)] + Tagged(Middle(a), role) + [TraceStep(a.terminal, Sink)];
      assert StepsOf(b, role) ==
             [TraceStep(b.source, Source)] + Tagged(Middle(b), role) + [TraceStep(b.terminal, Sink)];
    } else if Middle(a) == Middle(b) && |a.requirements| == |b.requirements| {
      assert a.requirements == Middle(a)[..|a.requirements|] == b.requirements;
      assert a.priorSinks == Middle(a)[|a.requirements|..] == b.priorSinks;
    }
  }

  lemma TaggedConcat(a: seq<QualifiedEvent>, b: seq<QualifiedEvent>, role: EvidenceRole)
    ensures Tagged(a + b, role) == Tagged(a, role) + Tagged(b, role)
  {}

  lemma LifecycleAt(cycle: Lifecycle, role: EvidenceRole)
    ensures var steps, middle := StepsOf(cycle, role), Middle(cycle);
            && |steps| == |middle| + 2
            && steps[0] == TraceStep(cycle.source, Source)
            && steps[|middle| + 1] == TraceStep(cycle.terminal, Sink)
            && forall k :: 0 <= k < |middle| ==>
                 steps[k + 1] == TraceStep(middle[k], if k < |cycle.requirements| then Requirement else role)
  {}
}
