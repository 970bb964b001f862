/** Host environments: merging them, and the byte form that identifies them. */
module HostEnvironments {
  import opened Sequences
  import opened Wrappers
  import opened SourceLines

  /** A binding name, as the bytes of its UTF-8 text. */
  type Name = seq<Byte>

  const U64_BYTES := 8
  const CONFIGURED_TAG: Byte := 0
  const RESTRICTED_TAG: Byte := 1
  const TERMINATOR: Byte := 0

  datatype Members = ConfiguredGlobals | Restricted(names: set<Name>)

  datatype Inner = Inner(bindings: set<Name>, objects: map<Name, Members>)

  datatype EnvironmentError = EnvironmentError(name: seq<Scalar>)

  // ----- Names -----

  /** What JavaScript says of identifiers; NUL is part of none. */
  datatype Syntax = Syntax(starts: Scalar -> bool, continues: Scalar -> bool, reserved: seq<Scalar> -> bool)

  ghost predicate Sane(syntax: Syntax) {
    !syntax.starts(0) && !syntax.continues(0)
  }

  predicate IsIdentifier(syntax: Syntax, name: seq<Scalar>) {
    && name != []
    && (forall k :: 0 <= k < |name| ==> if k == 0 then syntax.starts(name[k]) else syntax.continues(name[k]))
    && !syntax.reserved(name)
  }

  function ValidatedIdentifier(syntax: Syntax, name: seq<Scalar>): (r: Result<Name, EnvironmentError>)
    requires Sane(syntax)
    ensures r.Success? <==> IsIdentifier(syntax, name)
    ensures r.Success? ==> r.value == Encode(name) && TERMINATOR !in r.value
  {
    if IsIdentifier(syntax, name) then
      assert 0 !in name;
      NoNulEncoded(name);
      Success(Encode(name))
    else Failure(EnvironmentError(name))
  }

  lemma {:induction false} NoNulEncoded(text: seq<Scalar>)
    requires 0 !in text
    ensures TERMINATOR !in Encode(text)
  {
    if text != [] {
      NoNulEncoded(text[..|text| - 1]);
      var bytes := EncodeScalar(text[|text| - 1]);
      assert forall k :: 0 <= k < |bytes| ==> bytes[k] != 0;
    }
  }

  // ----- Ordered sets -----

  /** Byte order, the order of a sorted set of names. */
  predicate Less(a: Name, b: Name) {
    if a == [] then b != []
    else b != [] && (a[0] < b[0] || (a[0] == b[0] && Less(a[1..], b[1..])))
  }

  lemma {:induction false} LessIsTotal(a: Name, b: Name)
    ensures a == b || Less(a, b) || Less(b, a)
    ensures !(Less(a, b) && Less(b, a)) && !Less(a, a)
  {
    if a != [] && b != [] {
      LessIsTotal(a[1..], b[1..]);
      LessIsTotal(a[1..], a[1..]);
      if a[0] == b[0] && a[1..] == b[1..] {
        assert a == [a[0]] + a[1..] && b == [b[0]] + b[1..];
      }
    } else if a != [] {
      LessIsTotal(a[1..], a[1..]);
    }
  }

  /** A smaller name is a proper prefix, or smaller at the first byte that differs. */
  lemma {:induction false} LessIsLexicographic(a: Name, b: Name) returns (n: nat)
    requires Less(a, b)
    ensures n <= |a| && n < |b| && a[..n] == b[..n] && (n < |a| ==> a[n] < b[n])
  {
    if a == [] || a[0] < b[0] {
      n := 0;
    } else {
      n := LessIsLexicographic(a[1..], b[1..]);
      n := n + 1;
      assert a[..n] == [a[0]] + a[1..][..n - 1] && b[..n] == [b[0]] + b[1..][..n - 1];
    }
  }

  lemma {:induction false} LessIsTransitive(a: Name, b: Name, c: Name)
    requires Less(a, b) && Less(b, c)
    ensures Less(a, c)
  {
    if a != [] && a[0] == b[0] && b[0] == c[0] {
      LessIsTransitive(a[1..], b[1..], c[1..]);
    }
  }

  ghost predicate IsLeast(m: Name, names: set<Name>) {
    m in names && forall x :: x in names && x != m ==> Less(m, x)
  }

  lemma {:induction false} LeastExists(names: set<Name>)
    requires names != {}
    ensures exists m :: IsLeast(m, names)
  {
    var x :| x in names;
    if names == {x} {
      assert IsLeast(x, names);
    } else {
      LeastExists(names - {x});
      var least :| IsLeast(least, names - {x});
      LessIsTotal(x, least);
      var m := if Less(x, least) then x else least;
      forall y | y in names && y != m
        ensures Less(m, y)
      {
        if m == x && y != least {
          LessIsTransitive(x, least, y);
        }
      }
      assert IsLeast(m, names);
    }
  }

  ghost function Least(names: set<Name>): (m: Name)
    requires names != {}
    ensures IsLeast(m, names)
  {
    LeastExists(names);
    var m :| IsLeast(m, names);
    m
  }

  /** The names of a set in ascending order. */
  ghost function Listing(names: set<Name>): (list: seq<Name>)
    ensures |list| == |names|
    ensures forall x :: x in list <==> x in names
  {
    if names == {} then [] else [Least(names)] + Listing(names - {Least(names)})
  }

  lemma LeastIsBefore(names: set<Name>, later: seq<Name>, k: nat)
    requires names != {} && k < |later| && forall x :: x in later ==> x in names - {Least(names)}
    ensures Less(Least(names), later[k])
  {
    assert later[k] in later;
  }

  lemma {:induction false} ListingAscends(names: set<Name>, j: nat, k: nat)
    requires j < k < |names|
    ensures Less(Listing(names)[j], Listing(names)[k])
  {
    var rest := names - {Least(names)};
    assert Listing(names) == [Least(names)] + Listing(rest);
    if j == 0 {
      LeastIsBefore(names, Listing(rest), k - 1);
    } else {
      ListingAscends(rest, j - 1, k - 1);
    }
  }

  lemma ListingRepeatsNone(names: set<Name>, k: nat)
    requires k < |names|
    ensures Listing(names)[k] !in Listing(names)[..k]
  {
    forall j | 0 <= j < k
      ensures Listing(names)[j] != Listing(names)[k]
    {
      ListingAscends(names, j, k);
      LessIsTotal(Listing(names)[j], Listing(names)[k]);
    }
  }

  lemma ListingStep(list: seq<Name>, rest: set<Name>, m: Name)
    requires IsLeast(m, rest)
    ensures list + Listing(rest) == list + [m] + Listing(rest - {m})
  {
    LessIsTotal(m, Least(rest));
    assert Listing(rest) == [m] + Listing(rest - {m});
  }

  /** Walk a sorted set: take the least name left until none is. */
  method InOrder(names: set<Name>) returns (list: seq<Name>)
    ensures list == Listing(names)
  {
    list := [];
    var rest := names;
    while rest != {}
      invariant Listing(names) == list + Listing(rest)
      decreases rest
    {
      LeastExists(rest);
      var m :| m in rest && forall x :: x in rest && x != m ==> Less(m, x);
      ListingStep(list, rest, m);
      list, rest := list + [m], rest - {m};
    }
  }

  // ----- The bytes of an environment -----

  /** `width` is the number of bytes of a count, always eight here. */
  function LittleEndian(n: nat, width: nat): (bytes: seq<Byte>)
    ensures |bytes| == width
  {
    if width == 0 then [] else [n % 0x100] + LittleEndian(n / 0x100, width - 1)
  }

  function NamesBytes(list: seq<Name>): seq<Byte> {
    if list == [] then [] else list[0] + [TERMINATOR] + NamesBytes(list[1..])
  }

  ghost function SetBytes(names: set<Name>, width: nat): seq<Byte> {
    LittleEndian(|names|, width) + NamesBytes(Listing(names))
  }

  ghost function MembersBytes(members: Members, width: nat): seq<Byte> {
    match members
    case ConfiguredGlobals => [CONFIGURED_TAG]
    case Restricted(names) => [RESTRICTED_TAG] + SetBytes(names, width)
  }

  ghost function ObjectsBytes(list: seq<Name>, objects: map<Name, Members>, width: nat): seq<Byte>
    requires forall k :: 0 <= k < |list| ==> list[k] in objects
  {
    if list == [] then []
    else
      list[0] + [TERMINATOR] + MembersBytes(objects[list[0]], width) + ObjectsBytes(list[1..], objects, width)
  }

  ghost function InnerBytes(inner: Inner, width: nat): seq<Byte> {
    SetBytes(inner.bindings, width)
    + (LittleEndian(|inner.objects|, width) + ObjectsBytes(Listing(inner.objects.Keys), inner.objects, width))
  }

  // ----- Reading the bytes back -----

  /** What was read, and the bytes after it. */
  datatype Read<T> = Read(value: T, rest: seq<Byte>) | Malformed

  function ReadCount(bytes: seq<Byte>, width: nat): Read<nat>
    decreases width
  {
    if width == 0 then Read(0, bytes)
    else if bytes == [] then Malformed
    else match ReadCount(bytes[1..], width - 1)
      case Read(high, rest) => Read(bytes[0] + 0x100 * high, rest)
      case Malformed => Malformed
  }

  function ReadName(bytes: seq<Byte>): Read<Name> {
    if bytes == [] then Malformed
    else if bytes[0] == TERMINATOR then Read([], bytes[1..])
    else match ReadName(bytes[1..])
      case Read(name, rest) => Read([bytes[0]] + name, rest)
      case Malformed => Malformed
  }

  function ReadNames(count: nat, bytes: seq<Byte>): Read<seq<Name>>
    decreases count
  {
    if count == 0 then Read([], bytes)
    else match ReadName(bytes)
      case Malformed => Malformed
      case Read(name, after) =>
        match ReadNames(count - 1, after)
        case Read(names, rest) => Read([name] + names, rest)
        case Malformed => Malformed
  }

  function ReadSet(bytes: seq<Byte>, width: nat): Read<set<Name>> {
    match ReadCount(bytes, width)
    case Malformed => Malformed
    case Read(count, after) =>
      match ReadNames(count, after)
      case Read(list, rest) => Read(Elements(list), rest)
      case Malformed => Malformed
  }

  function Elements(list: seq<Name>): set<Name> {
    set x | x in list
  }

  function ReadMembers(bytes: seq<Byte>, width: nat): Read<Members> {
    if bytes == [] then Malformed
    else if bytes[0] == CONFIGURED_TAG then Read(ConfiguredGlobals, bytes[1..])
    else if bytes[0] == RESTRICTED_TAG then
      match ReadSet(bytes[1..], width)
      case Read(names, rest) => Read(Restricted(names), rest)
      case Malformed => Malformed
    else Malformed
  }

  function ReadObjects(count: nat, bytes: seq<Byte>, width: nat): Read<map<Name, Members>>
    decreases count
  {
    if count == 0 then Read(map[], bytes)
    else match ReadName(bytes)
      case Malformed => Malformed
      case Read(name, afterName) =>
        match ReadMembers(afterName, width)
        case Malformed => Malformed
        case Read(members, after) =>
          match ReadObjects(count - 1, after, width)
          case Read(objects, rest) => Read(objects[name := members], rest)
          case Malformed => Malformed
  }

  function ReadInner(bytes: seq<Byte>, width: nat): Read<Inner> {
    match ReadSet(bytes, width)
    case Malformed => Malformed
    case Read(bindings, afterSet) =>
      match ReadCount(afterSet, width)
      case Malformed => Malformed
      case Read(count, after) =>
        match ReadObjects(count, after, width)
        case Read(objects, rest) => Read(Inner(bindings, objects), rest)
        case Malformed => Malformed
  }

  function Power(width: nat): (p: nat)
    ensures p > 0
  {
    if width == 0 then 1 else 0x100 * Power(width - 1)
  }

  /** A count fits its bytes, and no name holds the terminator. */
  ghost predicate Writable(names: set<Name>, width: nat) {
    |names| < Power(width) && forall x :: x in names ==> TERMINATOR !in x
  }

  ghost predicate WritableMembers(members: Members, width: nat) {
    members.Restricted? ==> Writable(members.names, width)
  }

  ghost predicate WritableInner(inner: Inner, width: nat) {
    && Writable(inner.bindings, width) && Writable(inner.objects.Keys, width)
    && forall x :: x in inner.objects ==> WritableMembers(inner.objects[x], width)
  }

  /** A single zero-padded count, its low byte first. */
  lemma SmallCount(n: nat)
    requires n < 0x100
    ensures LittleEndian(n, 8) == [n, 0, 0, 0, 0, 0, 0, 0]
  {
    assert LittleEndian(n, 8) == [n] + LittleEndian(0, 7);
    assert LittleEndian(0, 7) == [0, 0, 0, 0] + LittleEndian(0, 3);
    assert LittleEndian(0, 3) == [0, 0, 0];
  }

  lemma ListingOfOne(x: Name)
    ensures Listing({x}) == [x]
  {
    assert Least({x}) == x && {x} - {x} == {};
  }

  /** An environment of one binding that is also an object, byte for byte. */
  lemma FingerprintOfOne(x: Name, members: Members)
    ensures InnerBytes(Inner({x}, map[x := members]), 8) ==
            [1, 0, 0, 0, 0, 0, 0, 0] + (x + [0])
            + ([1, 0, 0, 0, 0, 0, 0, 0] + (x + [0] + MembersBytes(members, 8)))
    ensures MembersBytes(ConfiguredGlobals, 8) == [0]
    ensures MembersBytes(Restricted({x}), 8) == [1] + ([1, 0, 0, 0, 0, 0, 0, 0] + (x + [0]))
  {
    SmallCount(1);
    ListingOfOne(x);
    var objects := map[x := members];
    assert objects.Keys == {x} && |objects| == 1;
    assert NamesBytes([x]) == x + [0] + NamesBytes([]) == x + [0];
    assert ObjectsBytes([x], objects, 8) == x + [0] + MembersBytes(members, 8) + [];
  }

  lemma {:induction false} CountReads(n: nat, width: nat, rest: seq<Byte>)
    requires n < Power(width)
    ensures ReadCount(LittleEndian(n, width) + rest, width) == Read(n, rest)
  {
    var bytes := LittleEndian(n, width) + rest;
    if width == 0 {
      assert bytes == rest;
    } else {
      CountReads(n / 0x100, width - 1, rest);
      assert bytes[1..] == LittleEndian(n / 0x100, width - 1) + rest;
    }
  }

  lemma {:induction false} NameReads(name: Name, rest: seq<Byte>)
    requires TERMINATOR !in name
    ensures ReadName(name + [TERMINATOR] + rest) == Read(name, rest)
  {
    var bytes := name + [TERMINATOR] + rest;
    if name == [] {
      assert bytes[1..] == rest;
    } else {
      NameReads(name[1..], rest);
      assert bytes[1..] == name[1..] + [TERMINATOR] + rest;
      assert [name[0]] + name[1..] == name;
    }
  }

  lemma {:induction false} NamesRead(list: seq<Name>, rest: seq<Byte>)
    requires forall k :: 0 <= k < |list| ==> TERMINATOR !in list[k]
    ensures ReadNames(|list|, NamesBytes(list) + rest) == Read(list, rest)
  {
    if list == [] {
      assert NamesBytes(list) + rest == rest;
    } else {
      var after := NamesBytes(list[1..]) + rest;
      NamesRead(list[1..], rest);
      NameReads(list[0], after);
      ConcatAssoc(list[0] + [TERMINATOR], NamesBytes(list[1..]), rest);
      assert [list[0]] + list[1..] == list;
    }
  }

  lemma SetReads(names: set<Name>, width: nat, rest: seq<Byte>)
    requires Writable(names, width)
    ensures ReadSet(SetBytes(names, width) + rest, width) == Read(names, rest)
  {
    var list := Listing(names);
    CountReads(|names|, width, NamesBytes(list) + rest);
    NamesRead(list, rest);
    ConcatAssoc(LittleEndian(|names|, width), NamesBytes(list), rest);
    ListingElements(names);
  }

  lemma ListingElements(names: set<Name>)
    ensures Elements(Listing(names)) == names
  {
  }

  lemma RestrictedReads(names: set<Name>, body: seq<Byte>, width: nat, rest: seq<Byte>)
    requires ReadSet(body + rest, width) == Read(names, rest)
    ensures ReadMembers([RESTRICTED_TAG] + body + rest, width) == Read(Restricted(names), rest)
  {
    assert ([RESTRICTED_TAG] + body + rest)[1..] == body + rest;
  }

  lemma ConfiguredReads(width: nat, rest: seq<Byte>)
    ensures ReadMembers([CONFIGURED_TAG] + rest, width) == Read(ConfiguredGlobals, rest)
  {
    assert ([CONFIGURED_TAG] + rest)[1..] == rest;
  }

  lemma MembersRead(members: Members, width: nat, rest: seq<Byte>)
    requires WritableMembers(members, width)
    ensures ReadMembers(MembersBytes(members, width) + rest, width) == Read(members, rest)
  {
    match members
    case ConfiguredGlobals => ConfiguredReads(width, rest);
    case Restricted(names) =>
      SetReads(names, width, rest);
      RestrictedReads(names, SetBytes(names, width), width, rest);
  }

  function Restrict(objects: map<Name, Members>, list: seq<Name>): map<Name, Members> {
    map x | x in list && x in objects :: objects[x]
  }

  lemma RestrictCons(objects: map<Name, Members>, list: seq<Name>)
    requires list != [] && list[0] in objects
    ensures Restrict(objects, list) == Restrict(objects, list[1..])[list[0] := objects[list[0]]]
  {
    assert list == [list[0]] + list[1..];
  }

  lemma ObjectReads(name: Name, members: Members, body: seq<Byte>, tail: seq<Byte>,
      count: nat, objects: map<Name, Members>, width: nat, rest: seq<Byte>)
    requires TERMINATOR !in name
    requires ReadMembers(body + tail, width) == Read(members, tail)
    requires ReadObjects(count, tail, width) == Read(objects, rest)
    ensures ReadObjects(count + 1, name + [TERMINATOR] + (body + tail), width) == Read(objects[name := members], rest)
  {
    NameReads(name, body + tail);
  }

  lemma {:induction false} ObjectsRead(list: seq<Name>, objects: map<Name, Members>, width: nat, rest: seq<Byte>)
    requires forall k :: 0 <= k < |list| ==> list[k] in objects && TERMINATOR !in list[k]
    requires forall x :: x in objects ==> WritableMembers(objects[x], width)
    ensures ReadObjects(|list|, ObjectsBytes(list, objects, width) + rest, width) == Read(Restrict(objects, list), rest)
  {
    if list == [] {
      assert ObjectsBytes(list, objects, width) + rest == rest;
    } else {
      ObjectsRead(list[1..], objects, width, rest);
      var body, more := MembersBytes(objects[list[0]], width), ObjectsBytes(list[1..], objects, width);
      MembersRead(objects[list[0]], width, more + rest);
      ObjectReads(list[0], objects[list[0]], body, more + rest, |list[1..]|, Restrict(objects, list[1..]), width, rest);
      Regroup(list[0] + [TERMINATOR], body, more, rest);
      RestrictCons(objects, list);
    }
  }

  lemma Regroup(a: seq<Byte>, b: seq<Byte>, c: seq<Byte>, rest: seq<Byte>)
    ensures a + b + c + rest == a + (b + (c + rest)) == a + (b + c) + rest
  {}

  lemma Regroup3(a: seq<Byte>, b: seq<Byte>, c: seq<Byte>)
    ensures a + b + c == a + (b + c)
  {}

  lemma Regroup5(a: seq<Byte>, b: seq<Byte>, c: seq<Byte>, d: seq<Byte>, rest: seq<Byte>)
    ensures a + b + c + d + rest == a + (b + c + d + rest)
  {}

  lemma PartsRead(bytes: seq<Byte>, bindings: set<Name>, afterSet: seq<Byte>, count: nat, after: seq<Byte>,
      objects: map<Name, Members>, width: nat, rest: seq<Byte>)
    requires ReadSet(bytes, width) == Read(bindings, afterSet)
    requires ReadCount(afterSet, width) == Read(count, after)
    requires ReadObjects(count, after, width) == Read(objects, rest)
    ensures ReadInner(bytes, width) == Read(Inner(bindings, objects), rest)
  {}

  /** The bytes can be read back, whatever is written after them. */
  lemma InnerReads(inner: Inner, width: nat, rest: seq<Byte>)
    requires WritableInner(inner, width)
    ensures ReadInner(InnerBytes(inner, width) + rest, width) == Read(inner, rest)
  {
    var list := Listing(inner.objects.Keys);
    var bindings, count := SetBytes(inner.bindings, width), LittleEndian(|inner.objects|, width);
    var objects := ObjectsBytes(list, inner.objects, width);
    SetReads(inner.bindings, width, count + (objects + rest));
    CountReads(|inner.objects|, width, objects + rest);
    ObjectsRead(list, inner.objects, width, rest);
    assert Restrict(inner.objects, list) == inner.objects;
    Regroup(bindings, count, objects, rest);
    PartsRead(bindings + (count + (objects + rest)), inner.bindings, count + (objects + rest),
              |inner.objects|, objects + rest, inner.objects, width, rest);
  }

  /** Two environments write the same bytes exactly when they are equal. */
  lemma BytesIdentify(a: Inner, b: Inner, width: nat)
    requires WritableInner(a, width) && WritableInner(b, width)
    ensures InnerBytes(a, width) == InnerBytes(b, width) <==> a == b
  {
    InnerReads(a, width, []);
    InnerReads(b, width, []);
    assert InnerBytes(a, width) + [] == InnerBytes(a, width) && InnerBytes(b, width) + [] == InnerBytes(b, width);
  }

  // ----- Merging -----

  function Get(objects: map<Name, Members>, name: Name): Option<Members> {
    if name in objects then Some(objects[name]) else None
  }

  function MergeMembers(mine: Option<Members>, theirs: Option<Members>): Option<Members> {
    match (mine, theirs)
    case (None, _) => theirs
    case (_, None) => mine
    case (Some(Restricted(a)), Some(Restricted(b))) => Some(Restricted(a + b))
    case (Some(_), Some(_)) => Some(ConfiguredGlobals)
  }

  function MergeObjects(a: map<Name, Members>, b: map<Name, Members>): map<Name, Members> {
    map x | x in a.Keys + b.Keys :: MergeMembers(Get(a, x), Get(b, x)).value
  }

  function Merge(a: Inner, b: Inner): Inner {
    Inner(a.bindings + b.bindings, MergeObjects(a.objects, b.objects))
  }

  lemma MergeGets(a: Inner, b: Inner, x: Name)
    ensures Get(Merge(a, b).objects, x) == MergeMembers(Get(a.objects, x), Get(b.objects, x))
  {}

  lemma SameInner(a: Inner, b: Inner)
    requires a.bindings == b.bindings && forall x :: Get(a.objects, x) == Get(b.objects, x)
    ensures a == b
  {
    assert forall x :: x in a.objects <==> Get(a.objects, x).Some?;
    assert forall x :: x in b.objects <==> Get(b.objects, x).Some?;
    assert forall x | x in a.objects ::
        Get(a.objects, x) == Some(a.objects[x]) && Get(b.objects, x) == Some(b.objects[x]);
    assert a.objects == b.objects;
  }

  lemma MembersSemilattice(p: Option<Members>, q: Option<Members>, r: Option<Members>)
    ensures MergeMembers(p, q) == MergeMembers(q, p)
    ensures MergeMembers(MergeMembers(p, q), r) == MergeMembers(p, MergeMembers(q, r))
    ensures MergeMembers(p, p) == p
  {
    if p.Some? && q.Some? && p.value.Restricted? && q.value.Restricted? {
      var a, b := p.value.names, q.value.names;
      assert a + b == b + a;
      if r.Some? && r.value.Restricted? {
        assert (a + b) + r.value.names == a + (b + r.value.names);
      }
    }
    if p.Some? && p.value.Restricted? {
      assert p.value.names + p.value.names == p.value.names;
    }
  }

  /** The order in which environments are merged does not matter. */
  lemma MergeIsSemilattice(a: Inner, b: Inner, c: Inner)
    ensures Merge(a, b) == Merge(b, a)
    ensures Merge(Merge(a, b), c) == Merge(a, Merge(b, c))
    ensures Merge(a, a) == a
  {
    forall x
      ensures Get(Merge(a, b).objects, x) == Get(Merge(b, a).objects, x)
      ensures Get(Merge(Merge(a, b), c).objects, x) == Get(Merge(a, Merge(b, c)).objects, x)
      ensures Get(Merge(a, a).objects, x) == Get(a.objects, x)
    {
      MergeGets(a, b, x);
      MergeGets(b, a, x);
      MergeGets(b, c, x);
      MergeGets(a, a, x);
      MergeGets(Merge(a, b), c, x);
      MergeGets(a, Merge(b, c), x);
      MembersSemilattice(Get(a.objects, x), Get(b.objects, x), Get(c.objects, x));
    }
    SameInner(Merge(a, b), Merge(b, a));
    SameInner(Merge(Merge(a, b), c), Merge(a, Merge(b, c)));
    SameInner(Merge(a, a), a);
  }

  predicate IsGlobalMember(inner: Inner, owner: Name, member: Name) {
    match Get(inner.objects, owner)
    case Some(ConfiguredGlobals) => member in inner.bindings
    case Some(Restricted(names)) => member in names
    case None => false
  }

  /** Merging is additive on bindings and objects, but a promoted member gets lost
      where a restricted object meets a full one and the member is no binding. */
  lemma MergeKeepsPromotions(a: Inner, b: Inner, owner: Name, member: Name)
    requires IsGlobalMember(a, owner, member)
    ensures IsGlobalMember(Merge(a, b), owner, member) <==>
            !(&& a.objects[owner].Restricted?
              && Get(b.objects, owner) == Some(ConfiguredGlobals)
              && member !in a.bindings + b.bindings)
  {
    MergeGets(a, b, owner);
  }

  /** What is a member after merging was one before, or is a binding of one of the two
      where one of them has the full object. */
  lemma MergeAddsNothing(a: Inner, b: Inner, owner: Name, member: Name)
    requires IsGlobalMember(Merge(a, b), owner, member)
    ensures || IsGlobalMember(a, owner, member) || IsGlobalMember(b, owner, member)
            || (&& member in a.bindings + b.bindings
                && (|| Get(a.objects, owner) == Some(ConfiguredGlobals)
                    || Get(b.objects, owner) == Some(ConfiguredGlobals)))
  {
    MergeGets(a, b, owner);
  }

  lemma MergeCanDropAMember(owner: Name, member: Name)
    ensures var a := Inner({owner}, map[owner := Restricted({member})]);
            var b := Inner({owner}, map[owner := ConfiguredGlobals]);
            && IsGlobalMember(a, owner, member)
            && (IsGlobalMember(Merge(a, b), owner, member) <==> member == owner)
  {
    var a := Inner({owner}, map[owner := Restricted({member})]);
    var b := Inner({owner}, map[owner := ConfiguredGlobals]);
    MergeKeepsPromotions(a, b, owner, member);
  }

  // ----- The environment -----

  /** Every name entered as a validated identifier; objects are bindings too. */
  ghost predicate Sound(inner: Inner) {
    && (forall x :: x in inner.bindings ==> TERMINATOR !in x)
    && inner.objects.Keys <= inner.bindings
    && (forall x :: x in inner.objects && inner.objects[x].Restricted? ==>
          forall y :: y in inner.objects[x].names ==> TERMINATOR !in y)
  }

  /** What the machine's size type guarantees. */
  ghost predicate CountsFit(inner: Inner, width: nat) {
    && |inner.bindings| < Power(width) && |inner.objects| < Power(width)
    && forall x :: x in inner.objects && inner.objects[x].Restricted? ==> |inner.objects[x].names| < Power(width)
  }

  lemma SoundIsWritable(inner: Inner, width: nat)
    requires Sound(inner) && CountsFit(inner, width)
    ensures WritableInner(inner, width)
  {
    forall x | x in inner.objects
      ensures WritableMembers(inner.objects[x], width) && TERMINATOR !in x
    {
      assert x in inner.objects.Keys;
    }
    assert |inner.objects.Keys| == |inner.objects|;
  }

  /** Environments as they are built write the same bytes exactly when they are equal. */
  lemma FingerprintsIdentify(a: Inner, b: Inner)
    requires Sound(a) && Sound(b) && CountsFit(a, U64_BYTES) && CountsFit(b, U64_BYTES)
    ensures InnerBytes(a, U64_BYTES) == InnerBytes(b, U64_BYTES) <==> a == b
  {
    SoundIsWritable(a, U64_BYTES);
    SoundIsWritable(b, U64_BYTES);
    BytesIdentify(a, b, U64_BYTES);
  }

  lemma MergeIsSound(a: Inner, b: Inner)
    requires Sound(a) && Sound(b)
    ensures Sound(Merge(a, b))
  {
    forall x | x in Merge(a, b).objects
      ensures x in Merge(a, b).bindings
      ensures Merge(a, b).objects[x].Restricted? ==>
                forall y :: y in Merge(a, b).objects[x].names ==> TERMINATOR !in y
    {
      MergeGets(a, b, x);
      assert x in a.objects.Keys || x in b.objects.Keys;
    }
  }

  /** The objects `list[..k]` of `theirs` are merged into `now`, the others not yet. */
  ghost predicate MergedUpTo(before: Inner, theirs: Inner, list: seq<Name>, k: nat, now: Inner)
    requires k <= |list|
  {
    forall x :: Get(now.objects, x) ==
      if x in list[..k] then MergeMembers(Get(before.objects, x), Get(theirs.objects, x)) else Get(before.objects, x)
  }

  method MergeNext(ghost before: Inner, theirs: Inner, list: seq<Name>, k: nat, now: Inner) returns (next: Inner)
    requires k < |list| && list[k] in theirs.objects && MergedUpTo(before, theirs, list, k, now)
    requires list[k] !in list[..k]
    ensures next.bindings == now.bindings && MergedUpTo(before, theirs, list, k + 1, next)
  {
    var name := list[k];
    assert Get(now.objects, name) == Get(before.objects, name);
    var members := match (Get(now.objects, name), theirs.objects[name])
      case (None, members) => members
      case (Some(Restricted(mine)), Restricted(more)) => Restricted(mine + more)
      case (Some(_), _) => ConfiguredGlobals;
    next := now.(objects := now.objects[name := members]);
    forall x
      ensures x in list[..k + 1] <==> x in list[..k] || x == name
      ensures Get(next.objects, x) == if x == name then Some(members) else Get(now.objects, x)
    {
      assert list[..k + 1] == list[..k] + [name];
    }
  }

  lemma MergedAll(before: Inner, theirs: Inner, list: seq<Name>, now: Inner)
    requires list == Listing(theirs.objects.Keys) && MergedUpTo(before, theirs, list, |list|, now)
    requires now.bindings == before.bindings + theirs.bindings
    ensures now == Merge(before, theirs)
  {
    assert list[..|list|] == list;
    forall x
      ensures Get(now.objects, x) == Get(Merge(before, theirs).objects, x)
    {
      assert x in list <==> x in theirs.objects.Keys;
      MergeGets(before, theirs, x);
    }
    SameInner(now, Merge(before, theirs));
  }

  class ByteStream {
    var bytes: seq<Byte>

    constructor ()
      ensures bytes == []
    {
      bytes := [];
    }

    method Write(more: seq<Byte>)
      modifies this
      ensures bytes == old(bytes) + more
    {
      bytes := bytes + more;
    }
  }

  class Environment {
    var inner: Inner

    ghost predicate Valid()
      reads this
    {
      Sound(inner)
    }

    constructor Ecmascript(builtins: set<Name>, globalThis: Name)
      requires globalThis in builtins && forall x :: x in builtins ==> TERMINATOR !in x
      ensures Valid() && inner == Inner(builtins, map[globalThis := ConfiguredGlobals])
    {
      inner := Inner(builtins, map[globalThis := ConfiguredGlobals]);
    }

    /** All the names, or the first one that is no identifier. */
    static method ValidatedIdentifiers(syntax: Syntax, names: seq<seq<Scalar>>)
      returns (r: Result<set<Name>, EnvironmentError>)
      requires Sane(syntax)
      ensures r.Success? <==> forall k :: 0 <= k < |names| ==> IsIdentifier(syntax, names[k])
      ensures r.Success? ==> r.value == set k | 0 <= k < |names| :: Encode(names[k])
      ensures r.Success? ==> forall x :: x in r.value ==> TERMINATOR !in x
    {
      var valid: set<Name> := {};
      for k := 0 to |names|
        invariant forall j :: 0 <= j < k ==> IsIdentifier(syntax, names[j])
        invariant valid == set j | 0 <= j < k :: Encode(names[j])
        invariant forall x :: x in valid ==> TERMINATOR !in x
      {
        match ValidatedIdentifier(syntax, names[k])
        case Failure(e) => return Failure(e);
        case Success(name) => valid := valid + {name};
      }
      return Success(valid);
    }

    method RegisterGlobal(name: Name, members: Option<Members>)
      requires Valid() && TERMINATOR !in name
      requires members.Some? && members.value.Restricted? ==> forall y :: y in members.value.names ==> TERMINATOR !in y
      modifies this
      ensures Valid() && inner.bindings == old(inner).bindings + {name}
      ensures inner.objects == if members.Some? then old(inner).objects[name := members.value] else old(inner).objects
    {
      inner := inner.(bindings := inner.bindings + {name});
      if members.Some? {
        inner := inner.(objects := inner.objects[name := members.value]);
      }
    }

    method AddGlobal(syntax: Syntax, name: seq<Scalar>) returns (r: Result<(), EnvironmentError>)
      requires Valid() && Sane(syntax)
      modifies this
      ensures Valid() && (r.Success? <==> IsIdentifier(syntax, name))
      ensures inner == if r.Failure? then old(inner)
                       else Inner(old(inner).bindings + {Encode(name)}, old(inner).objects)
    {
      match ValidatedIdentifier(syntax, name)
      case Failure(e) => return Failure(e);
      case Success(valid) =>
        RegisterGlobal(valid, None);
        return Success(());
    }

    /** Add several bindings, or none if one of them is no identifier. */
    method AddGlobals(syntax: Syntax, names: seq<seq<Scalar>>) returns (r: Result<(), EnvironmentError>)
      requires Valid() && Sane(syntax)
      modifies this
      ensures Valid()
      ensures r.Success? <==> forall k :: 0 <= k < |names| ==> IsIdentifier(syntax, names[k])
      ensures r.Success? ==> inner.objects == old(inner).objects
      ensures r.Success? ==> inner.bindings == old(inner).bindings + (set k | 0 <= k < |names| :: Encode(names[k]))
      ensures r.Failure? ==> inner == old(inner)
    {
      var valid := ValidatedIdentifiers(syntax, names);
      match valid
      case Failure(e) => return Failure(e);
      case Success(added) =>
        inner := inner.(bindings := inner.bindings + added);
        return Success(());
    }

    method AddGlobalObject(syntax: Syntax, name: seq<Scalar>) returns (r: Result<(), EnvironmentError>)
      requires Valid() && Sane(syntax)
      modifies this
      ensures Valid() && (r.Success? <==> IsIdentifier(syntax, name))
      ensures inner == if r.Success? then Inner(old(inner).bindings + {Encode(name)},
                                                old(inner).objects[Encode(name) := ConfiguredGlobals])
                       else old(inner)
    {
      match ValidatedIdentifier(syntax, name)
      case Failure(e) => return Failure(e);
      case Success(valid) =>
        RegisterGlobal(valid, Some(ConfiguredGlobals));
        return Success(());
    }

    method AddGlobalObjectWithMembers(syntax: Syntax, name: seq<Scalar>, members: seq<seq<Scalar>>)
      returns (r: Result<(), EnvironmentError>)
      requires Valid() && Sane(syntax)
      modifies this
      ensures Valid()
      ensures r.Success? <==> && IsIdentifier(syntax, name)
                              && forall k :: 0 <= k < |members| ==> IsIdentifier(syntax, members[k])
      ensures r.Success? ==> inner == Inner(old(inner).bindings + {Encode(name)},
        old(inner).objects[Encode(name) := Restricted(set k | 0 <= k < |members| :: Encode(members[k]))])
      ensures r.Failure? ==> inner == old(inner)
    {
      match ValidatedIdentifier(syntax, name)
      case Failure(e) => return Failure(e);
      case Success(valid) =>
        var names := ValidatedIdentifiers(syntax, members);
        match names
        case Failure(e) => return Failure(e);
        case Success(promoted) =>
          RegisterGlobal(valid, Some(Restricted(promoted)));
          return Success(());
    }

    /** Merge another environment into this one. */
    method Extend(other: Environment)
      requires Valid() && other.Valid()
      modifies this
      ensures Valid() && inner == Merge(old(inner), old(other.inner))
    {
      ghost var before := inner;
      var theirs := other.inner;
      inner := inner.(bindings := inner.bindings + theirs.bindings);
      var list := InOrder(theirs.objects.Keys);
      for k := 0 to |list|
        invariant inner.bindings == before.bindings + theirs.bindings
        invariant MergedUpTo(before, theirs, list, k, inner)
      {
        ListingRepeatsNone(theirs.objects.Keys, k);
        inner := MergeNext(before, theirs, list, k, inner);
      }
      MergedAll(before, theirs, list, inner);
      MergeIsSound(before, theirs);
    }

    static method WriteNames(list: seq<Name>, stream: ByteStream)
      modifies stream
      ensures stream.bytes == old(stream.bytes) + NamesBytes(list)
    {
      for k := 0 to |list|
        invariant stream.bytes + NamesBytes(list[k..]) == old(stream.bytes) + NamesBytes(list)
      {
        assert list[k..][1..] == list[k + 1..];
        ghost var before := stream.bytes;
        stream.Write(list[k]);
        stream.Write([TERMINATOR]);
        Regroup(before, list[k], [TERMINATOR], NamesBytes(list[k + 1..]));
        assert before + NamesBytes(list[k..]) == before + (list[k] + [TERMINATOR] + NamesBytes(list[k + 1..]));
      }
      assert stream.bytes + [] == stream.bytes;
    }

    static method WriteSet(names: set<Name>, stream: ByteStream)
      modifies stream
      ensures stream.bytes == old(stream.bytes) + SetBytes(names, U64_BYTES)
    {
      var list := InOrder(names);
      ghost var before := stream.bytes;
      stream.Write(LittleEndian(|names|, U64_BYTES));
      WriteNames(list, stream);
      Regroup3(before, LittleEndian(|names|, U64_BYTES), NamesBytes(list));
    }

    static method WriteMembers(members: Members, stream: ByteStream)
      modifies stream
      ensures stream.bytes == old(stream.bytes) + MembersBytes(members, U64_BYTES)
    {
      match members
      case ConfiguredGlobals =>
        stream.Write([CONFIGURED_TAG]);
      case Restricted(names) =>
        ghost var before := stream.bytes;
        stream.Write([RESTRICTED_TAG]);
        WriteSet(names, stream);
        Regroup3(before, [RESTRICTED_TAG], SetBytes(names, U64_BYTES));
    }

    static method WriteObjects(list: seq<Name>, objects: map<Name, Members>, stream: ByteStream)
      requires forall k :: 0 <= k < |list| ==> list[k] in objects
      modifies stream
      ensures stream.bytes == old(stream.bytes) + ObjectsBytes(list, objects, U64_BYTES)
    {
      for k := 0 to |list|
        invariant stream.bytes + ObjectsBytes(list[k..], objects, U64_BYTES)
               == old(stream.bytes) + ObjectsBytes(list, objects, U64_BYTES)
      {
        assert list[k..][1..] == list[k + 1..];
        ghost var before := stream.bytes;
        stream.Write(list[k]);
        stream.Write([TERMINATOR]);
        WriteMembers(objects[list[k]], stream);
        Regroup5(before, list[k], [TERMINATOR], MembersBytes(objects[list[k]], U64_BYTES),
                 ObjectsBytes(list[k + 1..], objects, U64_BYTES));
      }
      assert stream.bytes + [] == stream.bytes;
    }

    /** What a cache key absorbs of an environment. */
    method WriteFingerprintBytes(stream: ByteStream)
      modifies stream
      ensures stream.bytes == old(stream.bytes) + InnerBytes(inner, U64_BYTES)
    {
      ghost var before := stream.bytes;
      WriteSet(inner.bindings, stream);
      var list := InOrder(inner.objects.Keys);
      var count := LittleEndian(|inner.objects|, U64_BYTES);
      stream.Write(count);
      WriteObjects(list, inner.objects, stream);
      Regroup(before, SetBytes(inner.bindings, U64_BYTES), count, ObjectsBytes(list, inner.objects, U64_BYTES));
    }
  }
}
