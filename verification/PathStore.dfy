/** Hash-consed member paths: every path is one node of a trie, so paths are
    compared, extended and shortened through handles. */
module PathTrie {
  import opened Sequences
  import opened Wrappers

  datatype PathSegment = Property(name: nat) | Index(index: nat)

  datatype PathId = PathId(index: nat, owner: nat)

  /** The empty path, which all stores share. */
  const EMPTY := PathId(0, 0)

  /** A path of one store used as a parent in another. */
  datatype PathLink = PathLink(path: PathId, depth: nat)

  datatype ParentRef = Local(id: PathId) | Linked(link: PathLink)

  datatype PathNode = PathNode(parent: ParentRef, depth: nat, segment: Option<PathSegment>)

  // ----- What a node stands for -----

  /** The segments below a link into another store, or below the empty path. */
  datatype Path = Path(root: Option<PathLink>, segments: seq<PathSegment>)

  function PathDepth(path: Path): nat {
    (if path.root.Some? then path.root.value.depth else 0) + |path.segments|
  }

  function Child(path: Path, segment: PathSegment): Path {
    Path(path.root, path.segments + [segment])
  }

  /** `id` is the empty path or one of the first `size` nodes of the store `owner`. */
  ghost predicate Owned(owner: nat, size: nat, id: PathId) {
    id == EMPTY || (id.owner == owner && 0 < id.index < size)
  }

  ghost predicate Placed(nodes: seq<PathNode>, owner: nat, k: nat)
    requires k < |nodes|
  {
    if k == 0 then nodes[0] == PathNode(Local(EMPTY), 0, None)
    else
      && nodes[k].segment.Some? && nodes[k].depth <= U32_MAX
      && match nodes[k].parent
         case Local(p) =>
           && Owned(owner, k, p)
           && nodes[k].depth == nodes[p.index].depth + 1
         case Linked(link) => nodes[k].depth == link.depth + 1
  }

  ghost predicate IsTrie(nodes: seq<PathNode>, owner: nat) {
    nodes != [] && forall k :: 0 <= k < |nodes| ==> Placed(nodes, owner, k)
  }

  ghost function MeaningOf(nodes: seq<PathNode>, owner: nat, k: nat): (path: Path)
    requires IsTrie(nodes, owner) && k < |nodes|
    ensures path.segments == [] <==> k == 0
    ensures path.segments == [] ==> path.root == None
    ensures nodes[k].depth == PathDepth(path)
    decreases k
  {
    assert Placed(nodes, owner, k);
    if k == 0 then Path(None, [])
    else match nodes[k].parent
      case Local(p) => Child(MeaningOf(nodes, owner, p.index), nodes[k].segment.value)
      case Linked(link) => Path(Some(link), [nodes[k].segment.value])
  }

  /** Nodes added later leave every earlier handle's meaning alone. */
  lemma {:induction false} HandlesSurvive(nodes: seq<PathNode>, more: seq<PathNode>, owner: nat, k: nat)
    requires IsTrie(nodes, owner) && IsTrie(more, owner) && nodes <= more && k < |nodes|
    ensures MeaningOf(more, owner, k) == MeaningOf(nodes, owner, k)
    decreases k
  {
    assert Placed(nodes, owner, k) && more[k] == nodes[k];
    if 0 < k && nodes[k].parent.Local? {
      HandlesSurvive(nodes, more, owner, nodes[k].parent.id.index);
    }
  }

  // ----- The edge index -----

  type Edges = map<(ParentRef, PathSegment), PathId>

  ghost predicate Filed(nodes: seq<PathNode>, owner: nat, edges: Edges, k: nat)
    requires 0 < k < |nodes|
  {
    && nodes[k].segment.Some?
    && (nodes[k].parent, nodes[k].segment.value) in edges
    && edges[(nodes[k].parent, nodes[k].segment.value)] == PathId(k, owner)
  }

  ghost predicate LeadsTo(nodes: seq<PathNode>, owner: nat, edges: Edges, parent: ParentRef, segment: PathSegment)
    requires (parent, segment) in edges
  {
    var id := edges[(parent, segment)];
    && id.owner == owner && 0 < id.index < |nodes|
    && nodes[id.index].parent == parent && nodes[id.index].segment == Some(segment)
  }

  ghost predicate Indexes(nodes: seq<PathNode>, owner: nat, edges: Edges) {
    && (forall k :: 0 < k < |nodes| ==> Filed(nodes, owner, edges, k))
    && (forall parent, segment :: (parent, segment) in edges ==> LeadsTo(nodes, owner, edges, parent, segment))
  }

  /** One node for each path. */
  lemma {:induction false} MeaningIsCanonical(nodes: seq<PathNode>, owner: nat, edges: Edges, j: nat, k: nat)
    requires IsTrie(nodes, owner) && Indexes(nodes, owner, edges) && j < |nodes| && k < |nodes|
    requires MeaningOf(nodes, owner, j) == MeaningOf(nodes, owner, k)
    ensures j == k
    decreases j
  {
    if 0 < j {
      assert Placed(nodes, owner, j) && Placed(nodes, owner, k);
      assert Filed(nodes, owner, edges, j) && Filed(nodes, owner, edges, k);
      var last := |MeaningOf(nodes, owner, j).segments| - 1;
      assert nodes[j].segment.value == MeaningOf(nodes, owner, j).segments[last] == nodes[k].segment.value;
      if nodes[j].parent.Local? && nodes[k].parent.Local? {
        var p, q := nodes[j].parent.id.index, nodes[k].parent.id.index;
        assert MeaningOf(nodes, owner, p).segments == MeaningOf(nodes, owner, j).segments[..last];
        assert MeaningOf(nodes, owner, q).segments == MeaningOf(nodes, owner, k).segments[..last];
        MeaningIsCanonical(nodes, owner, edges, p, q);
      }
    }
  }

  /** A path with a node has nodes for all its prefixes. */
  lemma {:induction false} PrefixHasNode(nodes: seq<PathNode>, owner: nat, k: nat, n: nat) returns (j: nat)
    requires IsTrie(nodes, owner) && k < |nodes|
    requires n <= |MeaningOf(nodes, owner, k).segments| && (n == 0 ==> MeaningOf(nodes, owner, k).root == None)
    ensures j < |nodes|
    ensures MeaningOf(nodes, owner, j) ==
            Path(MeaningOf(nodes, owner, k).root, MeaningOf(nodes, owner, k).segments[..n])
    decreases k
  {
    var path := MeaningOf(nodes, owner, k);
    if n == |path.segments| {
      assert path.segments[..n] == path.segments;
      j := k;
    } else {
      assert Placed(nodes, owner, k);
      var above := MeaningOf(nodes, owner, nodes[k].parent.id.index);
      assert path.segments[..n] == above.segments[..n];
      j := PrefixHasNode(nodes, owner, nodes[k].parent.id.index, n);
    }
  }

  /** A local edge is found exactly when the longer path has a node. */
  lemma EdgeIsChild(nodes: seq<PathNode>, owner: nat, edges: Edges, parent: PathId, segment: PathSegment, k: nat)
    requires 0 < owner && IsTrie(nodes, owner) && Indexes(nodes, owner, edges) && k < |nodes|
    requires Owned(owner, |nodes|, parent)
    requires MeaningOf(nodes, owner, k) == Child(MeaningOf(nodes, owner, parent.index), segment)
    ensures (Local(parent), segment) in edges && edges[(Local(parent), segment)] == PathId(k, owner)
  {
    var above, path := MeaningOf(nodes, owner, parent.index), MeaningOf(nodes, owner, k);
    assert Placed(nodes, owner, k) && Filed(nodes, owner, edges, k);
    assert path.segments[|above.segments|] == segment;
    assert path.segments[..|above.segments|] == above.segments;
    if nodes[k].parent.Local? {
      var p := nodes[k].parent.id;
      assert MeaningOf(nodes, owner, p.index).segments == path.segments[..|above.segments|];
      MeaningIsCanonical(nodes, owner, edges, p.index, parent.index);
    }
  }

  // ----- The store -----

  class PathStore {
    var nodes: seq<PathNode>
    var byEdge: Edges
    const maxNodes: nat
    const owner: nat

    ghost predicate Valid()
      reads this
    {
      && 0 < owner && IsTrie(nodes, owner) && Indexes(nodes, owner, byEdge)
      && |nodes| <= U32_MAX + 1
      && |nodes| <= (if maxNodes == 0 then 1 else maxNodes)
    }

    constructor (maxNodes: nat, owner: nat)
      requires 0 < owner
      ensures Valid() && this.maxNodes == maxNodes && this.owner == owner
      ensures nodes == [PathNode(Local(EMPTY), 0, None)]
    {
      nodes := [PathNode(Local(EMPTY), 0, None)];
      byEdge := map[];
      this.maxNodes := maxNodes;
      this.owner := owner;
    }

    function LocalId(id: PathId): Option<PathId>
    {
      if id == EMPTY then Some(EMPTY)
      else if id.owner == owner then Some(id) else None
    }

    function Node(id: PathId): Option<PathNode>
      reads this
    {
      match LocalId(id)
      case Some(local) => if local.index < |nodes| then Some(nodes[local.index]) else None
      case None => None
    }

    predicate IsValid(id: PathId)
      reads this
    {
      Node(id).Some?
    }

    function Depth(id: PathId): Option<nat>
      reads this
    {
      match Node(id)
      case Some(node) => Some(node.depth)
      case None => None
    }

    function Parent(id: PathId): Option<ParentRef>
      reads this
    {
      match Node(id)
      case Some(node) => Some(node.parent)
      case None => None
    }

    function Segment(id: PathId): Option<PathSegment>
      reads this
    {
      match Node(id)
      case Some(node) => if id == EMPTY then None else node.segment
      case None => None
    }

    function FindEdge(parent: PathId, segment: PathSegment): Option<PathId>
      reads this
    {
      match LocalId(parent)
      case Some(local) => if (Local(local), segment) in byEdge then Some(byEdge[(Local(local), segment)]) else None
      case None => None
    }

    /** A handle this store has given out. */
    ghost predicate Known(id: PathId)
      reads this
    {
      Owned(owner, |nodes|, id)
    }

    /** Handles are opaque: one that carries this store's name was given out by it. */
    ghost predicate Obtainable(id: PathId)
      reads this
    {
      id.owner == owner ==> Known(id)
    }

    ghost predicate HasNode(path: Path)
      requires Valid()
      reads this
    {
      exists k :: 0 <= k < |nodes| && MeaningOf(nodes, owner, k) == path
    }

    /** What a handle of this store stands for. */
    ghost function Means(id: PathId): (path: Path)
      requires Valid() && Known(id)
      reads this
      ensures id == EMPTY <==> path.segments == []
      ensures nodes[id.index].depth == PathDepth(path)
    {
      MeaningOf(nodes, owner, id.index)
    }

    /** One step towards the root, which ends at a link or at the empty path. */
    lemma StepUp(id: PathId)
      requires Valid() && Known(id) && id != EMPTY
      ensures Segment(id).Some?
      ensures Parent(id).value.Linked? ==> Means(id) == Path(Some(Parent(id).value.link), [Segment(id).value])
      ensures Parent(id).value.Local? ==>
                var above := Parent(id).value.id;
                Known(above) && above.index < id.index && Means(id) == Child(Means(above), Segment(id).value)
    {
      assert Placed(nodes, owner, id.index);
    }

    /** Two handles are the same exactly when they stand for the same path. */
    lemma HandlesAreCanonical(a: PathId, b: PathId)
      requires Valid() && Known(a) && Known(b)
      ensures a == b <==> Means(a) == Means(b)
    {
      if Means(a) == Means(b) {
        MeaningIsCanonical(nodes, owner, byEdge, a.index, b.index);
      }
    }

    // ----- Reading -----

    method StartsWith(path: PathId, prefix: PathId) returns (r: bool)
      requires Valid() && Obtainable(path) && Obtainable(prefix)
      ensures r <==> && Known(path) && Known(prefix)
                     && Means(path).root == Means(prefix).root
                     && Means(prefix).segments <= Means(path).segments
    {
      if Depth(path).None? || Depth(prefix).None? {
        return false;
      }
      if Depth(prefix).value > Depth(path).value {
        return false;
      }
      ghost var whole, start := Means(path), Means(prefix);
      var current := path;
      for i := 0 to Depth(path).value - Depth(prefix).value
        invariant i < |whole.segments| || (i == |whole.segments| && whole.root == None)
        invariant Known(current) && Means(current) == Path(whole.root, whole.segments[..|whole.segments| - i])
      {
        if current != EMPTY {
          StepUp(current);
        }
        match Parent(current)
        case Some(Local(next)) => current := next;
        case _ => return false;
      }
      HandlesAreCanonical(current, prefix);
      return current == prefix;
    }

    /** The segments from the root down; none for a path below a link. */
    method CollectSegments(id: PathId) returns (r: Option<seq<PathSegment>>)
      requires Valid() && Obtainable(id)
      ensures r.Some? <==> Known(id) && Means(id).root == None
      ensures r.Some? ==> r.value == Means(id).segments
    {
      if LocalId(id).None? || !IsValid(id) {
        return None;
      }
      ghost var whole := Means(id);
      var current, buf := id, [];
      while current != EMPTY
        invariant Known(current) && Means(current).root == whole.root
        invariant whole.segments == Means(current).segments + Reversed(buf)
        decreases current.index
      {
        StepUp(current);
        match Parent(current).value
        case Local(next) =>
          ReversedShift(Means(next).segments, Segment(current).value, buf);
          buf := buf + [Segment(current).value];
          current := next;
        case Linked(_) => return None;
      }
      return Some(Reversed(buf));
    }

    method FirstSegmentOf(id: PathId) returns (r: Option<PathSegment>)
      requires Valid() && Obtainable(id)
      ensures r.Some? <==> Known(id) && Means(id).root == None && Means(id).segments != []
      ensures r.Some? ==> r.value == Means(id).segments[0]
    {
      if LocalId(id).None? || !IsValid(id) {
        return None;
      }
      ghost var whole := Means(id);
      var current := id;
      r := None;
      while current != EMPTY
        invariant Known(current) && Means(current).root == whole.root
        invariant Means(current).segments <= whole.segments
        invariant current == id ==> r == None
        invariant current != id ==>
                    |Means(current).segments| < |whole.segments| && r == Some(whole.segments[|Means(current).segments|])
        decreases current.index
      {
        StepUp(current);
        r := Some(Segment(current).value);
        match Parent(current).value
        case Local(next) => current := next;
        case Linked(_) => return None;
      }
    }

    /** The handle of the path without its first segment, if it has one. */
    method WithoutFirst(id: PathId) returns (r: Option<PathId>)
      requires Valid() && Obtainable(id)
      ensures r.Some? <==>
                && Known(id) && id != EMPTY
                && (Means(id).root == None || Means(id).root.value.path == EMPTY)
                && HasNode(Path(None, Means(id).segments[1..]))
      ensures r.Some? ==> Known(r.value) && Means(r.value) == Path(None, Means(id).segments[1..])
    {
      if Known(id) && id != EMPTY {
        StepUp(id);
      }
      if Segment(id).None? {
        return None;
      }
      var tail := SegmentsBelowTop(id);
      if tail.None? {
        return None;
      }
      r := Descend(tail.value);
    }

    /** Climb to the node below the empty path, of this store or of a linked one. */
    method SegmentsBelowTop(id: PathId) returns (tail: Option<seq<PathSegment>>)
      requires Valid() && Known(id) && id != EMPTY
      ensures tail.Some? <==> Means(id).root == None || Means(id).root.value.path == EMPTY
      ensures tail.Some? ==> tail.value == Means(id).segments[1..]
    {
      ghost var whole := Means(id);
      var current, below := id, [];
      while true
        invariant Known(current) && current != EMPTY && Means(current).root == whole.root
        invariant whole.segments == Means(current).segments + Reversed(below)
        decreases current.index
      {
        StepUp(current);
        match Parent(current).value
        case Local(next) =>
          if next == EMPTY {
            return Some(Reversed(below));
          }
          ReversedShift(Means(next).segments, Segment(current).value, below);
          below := below + [Segment(current).value];
          current := next;
        case Linked(link) =>
          return if link.path == EMPTY then Some(Reversed(below)) else None;
      }
    }

    /** Look a path up from the empty path, one edge at a time. */
    method Descend(segments: seq<PathSegment>) returns (r: Option<PathId>)
      requires Valid()
      ensures r.Some? <==> HasNode(Path(None, segments))
      ensures r.Some? ==> Known(r.value) && Means(r.value) == Path(None, segments)
    {
      var result := EMPTY;
      for i := 0 to |segments|
        invariant Known(result) && Means(result) == Path(None, segments[..i])
      {
        var edge := FindEdge(result, segments[i]);
        if edge.None? {
          forall k | 0 <= k < |nodes|
            ensures MeaningOf(nodes, owner, k) != Path(None, segments)
          {
            if MeaningOf(nodes, owner, k) == Path(None, segments) {
              var j := PrefixHasNode(nodes, owner, k, i + 1);
              assert segments[..i + 1] == segments[..i] + [segments[i]];
              EdgeIsChild(nodes, owner, byEdge, result, segments[i], j);
            }
          }
          return None;
        }
        assert LeadsTo(nodes, owner, byEdge, Local(result), segments[i]);
        StepUp(edge.value);
        assert segments[..i + 1] == segments[..i] + [segments[i]];
        result := edge.value;
      }
      assert segments[..|segments|] == segments;
      return Some(result);
    }

    // ----- Growing -----

    function ParentDepth(parent: ParentRef): Option<nat>
      reads this
    {
      match parent
      case Local(id) =>
        if id.index < |nodes| && nodes[id.index].depth < U32_MAX then Some(nodes[id.index].depth + 1) else None
      case Linked(link) => if link.depth < U32_MAX then Some(link.depth + 1) else None
    }

    /** How deep a parent lies; a link carries the depth in its own store. */
    ghost function DepthAt(parent: ParentRef): (depth: nat)
      requires Valid() && (parent.Local? ==> Known(parent.id))
      reads this
      ensures depth == match parent
                       case Local(id) => PathDepth(Means(id))
                       case Linked(link) => link.depth
    {
      match parent
      case Local(id) => nodes[id.index].depth
      case Linked(link) => link.depth
    }

    method AppendNode(parent: ParentRef, segment: PathSegment) returns (r: Option<PathId>)
      requires Valid() && (parent, segment) !in byEdge && (parent.Local? ==> Known(parent.id))
      modifies this
      ensures Valid()
      ensures r.Some? <==>
                |old(nodes)| < maxNodes && |old(nodes)| <= 0xFFFF_FFFF && old(DepthAt(parent)) < 0xFFFF_FFFF
      ensures r.None? ==> nodes == old(nodes) && byEdge == old(byEdge)
      ensures r.Some? ==>
                && r.value == PathId(|old(nodes)|, owner)
                && nodes == old(nodes) + [PathNode(parent, old(DepthAt(parent)) + 1, Some(segment))]
                && byEdge == old(byEdge)[(parent, segment) := r.value]
    {
      if |nodes| >= maxNodes || |nodes| > U32_MAX || ParentDepth(parent).None? {
        return None;
      }
      var child := PathId(|nodes|, owner);
      var node := PathNode(parent, ParentDepth(parent).value, Some(segment));
      NewNodeFits(nodes, owner, byEdge, node);
      nodes := nodes + [node];
      byEdge := byEdge[(parent, segment) := child];
      return Some(child);
    }

    /** The child of a path of this store: the existing node, or a new one. */
    method Append(parent: PathId, segment: PathSegment) returns (r: Option<PathId>)
      requires Valid() && Obtainable(parent)
      modifies this
      ensures Valid() && old(nodes) <= nodes
      ensures !old(Known(parent)) ==> r.None? && nodes == old(nodes)
      ensures old(Known(parent)) ==>
                var root, segments := old(Means(parent).root), old(Means(parent).segments);
                var path := Path(root, segments + [segment]);
                && (r.Some? <==>
                     || old(HasNode(path))
                     || (&& |old(nodes)| < maxNodes && |old(nodes)| <= 0xFFFF_FFFF
                         && (if root.Some? then root.value.depth else 0) + |segments| < 0xFFFF_FFFF))
                && (r.Some? ==> Known(r.value) && Means(r.value) == path)
                && |nodes| == |old(nodes)| + (if r.Some? && !old(HasNode(path)) then 1 else 0)
      ensures forall k :: 0 <= k < |old(nodes)| ==> MeaningOf(nodes, owner, k) == MeaningOf(old(nodes), owner, k)
    {
      if LocalId(parent).None? {
        return None;
      }
      var edge := FindEdge(parent, segment);
      ChildHasEdge(parent, segment);
      if edge.Some? {
        return edge;
      }
      ghost var before := nodes;
      r := AppendNode(Local(parent), segment);
      MeaningsSurvive(before);
      if r.Some? {
        StepUp(r.value);
      }
    }

    lemma ChildHasEdge(parent: PathId, segment: PathSegment)
      requires Valid() && Known(parent)
      ensures HasNode(Child(Means(parent), segment)) <==> FindEdge(parent, segment).Some?
      ensures FindEdge(parent, segment).Some? ==>
                Known(FindEdge(parent, segment).value)
                && Means(FindEdge(parent, segment).value) == Child(Means(parent), segment)
    {
      if FindEdge(parent, segment).Some? {
        assert LeadsTo(nodes, owner, byEdge, Local(parent), segment);
        StepUp(FindEdge(parent, segment).value);
      }
      if HasNode(Child(Means(parent), segment)) {
        var k :| 0 <= k < |nodes| && MeaningOf(nodes, owner, k) == Child(Means(parent), segment);
        EdgeIsChild(nodes, owner, byEdge, parent, segment, k);
      }
    }

    lemma MeaningsSurvive(before: seq<PathNode>)
      requires Valid() && IsTrie(before, owner) && before <= nodes
      ensures forall k :: 0 <= k < |before| ==> MeaningOf(nodes, owner, k) == MeaningOf(before, owner, k)
    {
      forall k | 0 <= k < |before|
        ensures MeaningOf(nodes, owner, k) == MeaningOf(before, owner, k)
      {
        HandlesSurvive(before, nodes, owner, k);
      }
    }

    function Link(parent: PathId): (r: Option<PathLink>)
      reads this
      ensures r.Some? <==> IsValid(parent)
      ensures r.Some? ==> r.value.path == parent && Depth(parent) == Some(r.value.depth)
    {
      match Node(parent)
      case Some(node) => Some(PathLink(parent, node.depth))
      case None => None
    }

    /** The child of a path of another store. */
    method AppendLinked(parent: PathLink, segment: PathSegment) returns (r: Option<PathId>)
      requires Valid()
      modifies this
      ensures Valid() && old(nodes) <= nodes
      ensures r.Some? <==>
                || old(HasNode(Path(Some(parent), [segment])))
                || (|old(nodes)| < maxNodes && |old(nodes)| <= 0xFFFF_FFFF && parent.depth < 0xFFFF_FFFF)
      ensures r.Some? ==> Known(r.value) && Means(r.value) == Path(Some(parent), [segment])
      ensures |nodes| == |old(nodes)| +
                (if r.Some? && !old(HasNode(Path(Some(parent), [segment]))) then 1 else 0)
      ensures forall k :: 0 <= k < |old(nodes)| ==> MeaningOf(nodes, owner, k) == MeaningOf(old(nodes), owner, k)
    {
      LinkedChildHasEdge(parent, segment);
      if (Linked(parent), segment) in byEdge {
        return Some(byEdge[(Linked(parent), segment)]);
      }
      ghost var before := nodes;
      r := AppendNode(Linked(parent), segment);
      MeaningsSurvive(before);
      if r.Some? {
        StepUp(r.value);
      }
    }

    lemma LinkedChildHasEdge(parent: PathLink, segment: PathSegment)
      requires Valid()
      ensures HasNode(Path(Some(parent), [segment])) <==> (Linked(parent), segment) in byEdge
      ensures (Linked(parent), segment) in byEdge ==>
                Known(byEdge[(Linked(parent), segment)])
                && Means(byEdge[(Linked(parent), segment)]) == Path(Some(parent), [segment])
    {
      if (Linked(parent), segment) in byEdge {
        assert LeadsTo(nodes, owner, byEdge, Linked(parent), segment);
        StepUp(byEdge[(Linked(parent), segment)]);
      }
      if HasNode(Path(Some(parent), [segment])) {
        var k :| 0 <= k < |nodes| && MeaningOf(nodes, owner, k) == Path(Some(parent), [segment]);
        assert Placed(nodes, owner, k) && Filed(nodes, owner, byEdge, k);
        assert MeaningOf(nodes, owner, k).segments[0] == segment;
      }
    }

    /** Append every segment of `suffix` below `prefix`. */
    method Concat(prefix: PathId, suffix: PathId) returns (r: Option<PathId>)
      requires Valid() && Obtainable(prefix) && Obtainable(suffix)
      modifies this
      ensures Valid() && old(nodes) <= nodes
      ensures r.Some? ==>
                && old(Known(prefix) && Known(suffix) && Means(suffix).root == None)
                && Known(r.value)
                && Means(r.value) == old(Path(Means(prefix).root, Means(prefix).segments + Means(suffix).segments))
      ensures r.None? && old(Known(prefix) && Known(suffix) && Means(suffix).root == None) ==>
                || |nodes| >= maxNodes || |nodes| > 0xFFFF_FFFF
                || old(PathDepth(Means(prefix)) + |Means(suffix).segments|) > 0xFFFF_FFFF
      ensures old(&& Known(prefix) && Known(suffix) && Means(suffix).root == None
                  && HasNode(Path(Means(prefix).root, Means(prefix).segments + Means(suffix).segments))) ==>
                r.Some? && nodes == old(nodes)
      ensures forall k :: 0 <= k < |old(nodes)| ==> MeaningOf(nodes, owner, k) == MeaningOf(old(nodes), owner, k)
    {
      var buf := CollectSegments(suffix);
      if buf.None? || LocalId(prefix).None? {
        return None;
      }
      r := AppendAll(prefix, buf.value);
    }

    method AppendAll(prefix: PathId, segments: seq<PathSegment>) returns (r: Option<PathId>)
      requires Valid() && Known(prefix)
      modifies this
      ensures Valid() && old(nodes) <= nodes
      ensures r.Some? ==>
                && Known(r.value)
                && Means(r.value) == Path(old(Means(prefix)).root, old(Means(prefix)).segments + segments)
      ensures r.None? ==>
                || |nodes| >= maxNodes || |nodes| > 0xFFFF_FFFF
                || old(PathDepth(Means(prefix))) + |segments| > 0xFFFF_FFFF
      ensures old(HasNode(Path(Means(prefix).root, Means(prefix).segments + segments))) ==>
                r.Some? && nodes == old(nodes)
      ensures forall k :: 0 <= k < |old(nodes)| ==> MeaningOf(nodes, owner, k) == MeaningOf(old(nodes), owner, k)
    {
      ghost var start := Means(prefix);
      var result := prefix;
      for i := 0 to |segments|
        invariant Valid() && old(nodes) <= nodes
        invariant Known(result) && Means(result) == Path(start.root, start.segments + segments[..i])
        invariant old(HasNode(Path(start.root, start.segments + segments))) ==> nodes == old(nodes)
      {
        var child := AppendNext(result, start, segments, i);
        if child.None? {
          MeaningsSurvive(old(nodes));
          return None;
        }
        result := child.value;
      }
      assert segments[..|segments|] == segments;
      MeaningsSurvive(old(nodes));
      return Some(result);
    }

    /** The loop body of `AppendAll`: one segment below those appended so far. */
    method AppendNext(result: PathId, ghost start: Path, segments: seq<PathSegment>, i: nat)
      returns (child: Option<PathId>)
      requires Valid() && i < |segments|
      requires Known(result) && Means(result) == Path(start.root, start.segments + segments[..i])
      modifies this
      ensures Valid() && old(nodes) <= nodes
      ensures child.Some? ==>
                Known(child.value) && Means(child.value) == Path(start.root, start.segments + segments[..i + 1])
      ensures child.None? ==>
                || |nodes| >= maxNodes || |nodes| > 0xFFFF_FFFF
                || PathDepth(old(Means(result))) + 1 > 0xFFFF_FFFF
      ensures old(HasNode(Path(start.root, start.segments + segments))) ==> child.Some? && nodes == old(nodes)
    {
      ghost var whole := Path(start.root, start.segments + segments);
      OneMoreSegment(start.segments, segments, i);
      if HasNode(whole) {
        PrefixesHaveNodes(whole, |start.segments| + i + 1);
      }
      child := Append(result, segments[i]);
    }

    lemma PrefixesHaveNodes(path: Path, n: nat)
      requires Valid() && HasNode(path) && 0 < n <= |path.segments|
      ensures HasNode(Path(path.root, path.segments[..n]))
    {
      var k :| 0 <= k < |nodes| && MeaningOf(nodes, owner, k) == path;
      var j := PrefixHasNode(nodes, owner, k, n);
    }
  }

  lemma OneMoreSegment<T>(start: seq<T>, segments: seq<T>, i: nat)
    requires i < |segments|
    ensures start + segments[..i + 1] == start + segments[..i] + [segments[i]]
    ensures (start + segments)[..|start| + i + 1] == start + segments[..i + 1]
  {}

  lemma NewNodeFits(nodes: seq<PathNode>, owner: nat, edges: Edges, node: PathNode)
    requires 0 < owner && IsTrie(nodes, owner) && Indexes(nodes, owner, edges)
    requires node.segment.Some? && (node.parent, node.segment.value) !in edges
    requires Placed(nodes + [node], owner, |nodes|)
    ensures IsTrie(nodes + [node], owner)
    ensures Indexes(nodes + [node], owner, edges[(node.parent, node.segment.value) := PathId(|nodes|, owner)])
  {
    var more, edge := nodes + [node], (node.parent, node.segment.value);
    var grown := edges[edge := PathId(|nodes|, owner)];
    forall k | 0 <= k < |more|
      ensures Placed(more, owner, k)
    {
      assert k < |nodes| ==> Placed(nodes, owner, k) && more[k] == nodes[k];
    }
    forall k | 0 < k < |more|
      ensures Filed(more, owner, grown, k)
    {
      assert k < |nodes| ==> Filed(nodes, owner, edges, k) && more[k] == nodes[k];
    }
    forall parent, segment | (parent, segment) in grown
      ensures LeadsTo(more, owner, grown, parent, segment)
    {
      if (parent, segment) != edge {
        assert LeadsTo(nodes, owner, edges, parent, segment);
      }
    }
  }
}
