/** From byte offsets in a UTF-8 source to one-based lines and columns. */
module SourceLines {
  import opened Wrappers

  const MAX_SOURCE_BYTES := 8 * 1024 * 1024
  const CHECKPOINT_BYTES := 256
  const NEWLINE := 0x0A

  /** A Unicode scalar value: a code point that is no surrogate. */
  type Scalar = c: int | 0 <= c < 0x11_0000 && !(0xD800 <= c < 0xE000)

  datatype Position = Position(line: nat, column: nat)

  datatype ByteRange = ByteRange(start: nat, end: nat)

  datatype SourceRange = SourceRange(start: Position, end: Position)

  datatype InvalidSourceBoundary = OutOfBounds | NotCharacterBoundary

  predicate Before(p: Position, q: Position) {
    p.line < q.line || (p.line == q.line && p.column < q.column)
  }

  // ----- UTF-8, section 3 of RFC 3629 -----

  predicate IsContinuation(b: Byte) {
    0x80 <= b < 0xC0
  }

  function EncodeScalar(c: Scalar): (bytes: seq<Byte>)
    ensures 1 <= |bytes| <= 4 && !IsContinuation(bytes[0])
    ensures forall k :: 0 < k < |bytes| ==> IsContinuation(bytes[k])
    ensures bytes[0] < 0x80 <==> c < 0x80
    ensures c < 0x80 ==> bytes == [c]
  {
    if c < 0x80 then [c]
    else if c < 0x800 then [0xC0 + c / 0x40, 0x80 + c % 0x40]
    else if c < 0x1_0000 then [0xE0 + c / 0x1000, 0x80 + c / 0x40 % 0x40, 0x80 + c % 0x40]
    else [0xF0 + c / 0x4_0000, 0x80 + c / 0x1000 % 0x40, 0x80 + c / 0x40 % 0x40, 0x80 + c % 0x40]
  }

  /** Six more bits, from a continuation byte. */
  function Continued(high: int, b: int): int {
    high * 0x40 + (b - 0x80)
  }

  lemma SixBitsEach(n: int)
    ensures n / 0x1000 == n / 0x40 / 0x40 && n / 0x4_0000 == n / 0x40 / 0x40 / 0x40
  {}

  /** The bytes are those of the table in section 3 of RFC 3629: the bits of the scalar
      behind the mark of the length, and no longer form than needed. */
  lemma EncodesByTable(c: Scalar)
    ensures var b: seq<int> := EncodeScalar(c);
            && (|b| == 1 ==> c < 0x80 && b[0] == c)
            && (|b| == 2 ==> c >= 0x80 && 0xC0 <= b[0] < 0xE0 && Continued(b[0] - 0xC0, b[1]) == c)
            && (|b| == 3 ==> c >= 0x800 && 0xE0 <= b[0] < 0xF0
                             && Continued(Continued(b[0] - 0xE0, b[1]), b[2]) == c)
            && (|b| == 4 ==> c >= 0x1_0000 && 0xF0 <= b[0] < 0xF5
                             && Continued(Continued(Continued(b[0] - 0xF0, b[1]), b[2]), b[3]) == c)
  {
    SixBitsEach(c);
    var low, mid := c / 0x40, c / 0x40 / 0x40;
    assert Continued(low, 0x80 + c % 0x40) == c;
    assert Continued(mid, 0x80 + low % 0x40) == low;
    assert Continued(mid / 0x40, 0x80 + mid % 0x40) == mid;
  }

  function Encode(text: seq<Scalar>): seq<Byte> {
    if text == [] then [] else Encode(text[..|text| - 1]) + EncodeScalar(text[|text| - 1])
  }

  predicate IsCharBoundary(source: seq<Byte>, offset: nat) {
    offset == 0 || offset == |source| || (offset < |source| && !IsContinuation(source[offset]))
  }

  /** A boundary before the end of one more scalar lies within what comes before it. */
  lemma BoundaryIsEarlier(init: seq<Byte>, last: Scalar, offset: nat)
    requires IsCharBoundary(init + EncodeScalar(last), offset) && offset != |init + EncodeScalar(last)|
    ensures offset <= |init| && IsCharBoundary(init, offset)
    ensures (init + EncodeScalar(last))[..offset] == init[..offset]
  {
    if offset < |init| {
      assert (init + EncodeScalar(last))[offset] == init[offset];
    } else {
      assert (init + EncodeScalar(last))[offset] == EncodeScalar(last)[offset - |init|];
    }
  }

  /** The boundaries of an encoded text are exactly the ends of its prefixes. */
  lemma {:induction false} BoundaryEndsPrefix(text: seq<Scalar>, offset: nat) returns (n: nat)
    requires IsCharBoundary(Encode(text), offset)
    ensures n <= |text| && offset <= |Encode(text)| && Encode(text)[..offset] == Encode(text[..n])
    decreases |text|
  {
    if offset == |Encode(text)| {
      assert text[..|text|] == text && Encode(text)[..offset] == Encode(text);
      n := |text|;
    } else {
      var shorter := text[..|text| - 1];
      BoundaryIsEarlier(Encode(shorter), text[|text| - 1], offset);
      n := BoundaryEndsPrefix(shorter, offset);
      assert text[..n] == shorter[..n];
    }
  }

  lemma {:induction false} PrefixEndsAtBoundary(text: seq<Scalar>, n: nat)
    requires n <= |text|
    ensures |Encode(text[..n])| <= |Encode(text)|
    ensures Encode(text)[..|Encode(text[..n])|] == Encode(text[..n])
    ensures IsCharBoundary(Encode(text), |Encode(text[..n])|)
    decreases |text|
  {
    if n == |text| {
      assert text[..n] == text && Encode(text)[..|Encode(text)|] == Encode(text);
    } else {
      var shorter := text[..|text| - 1];
      PrefixEndsAtBoundary(shorter, n);
      assert shorter[..n] == text[..n];
      assert Encode(text)[..|Encode(shorter)|] == Encode(shorter);
      var offset := |Encode(text[..n])|;
      if offset == |Encode(shorter)| {
        assert Encode(text)[offset] == EncodeScalar(text[|text| - 1])[0];
      }
    }
  }

  /** No encoded text has four continuation bytes in a row. */
  lemma {:induction false} LeadWithinFour(text: seq<Scalar>, offset: nat) returns (lead: nat)
    requires offset + 4 <= |Encode(text)|
    ensures offset <= lead < offset + 4 && !IsContinuation(Encode(text)[lead])
    decreases |text|
  {
    var init := Encode(text[..|text| - 1]);
    if offset + 4 <= |init| {
      lead := LeadWithinFour(text[..|text| - 1], offset);
      assert Encode(text)[lead] == init[lead];
    } else {
      lead := |init|;
      assert Encode(text)[lead] == EncodeScalar(text[|text| - 1])[0];
    }
  }

  lemma {:induction false} NewlineEndsCharacter(text: seq<Scalar>, offset: nat)
    requires offset < |Encode(text)| && Encode(text)[offset] == NEWLINE
    ensures IsCharBoundary(Encode(text), offset + 1)
    decreases |text|
  {
    var init, last := Encode(text[..|text| - 1]), EncodeScalar(text[|text| - 1]);
    if offset < |init| {
      NewlineEndsCharacter(text[..|text| - 1], offset);
      assert Encode(text)[offset + 1] == if offset + 1 < |init| then init[offset + 1] else last[0];
    } else {
      assert Encode(text)[offset] == last[offset - |init|];
    }
  }

  // ----- Counting by hand -----

  function StepChar(p: Position, c: Scalar): Position {
    if c == NEWLINE then Position(p.line + 1, 1) else Position(p.line, p.column + 1)
  }

  /** The position after a text: one more line for each newline, one more column
      for each other character since. */
  ghost function PositionAfter(text: seq<Scalar>): Position {
    if text == [] then Position(1, 1)
    else StepChar(PositionAfter(text[..|text| - 1]), text[|text| - 1])
  }

  /** `p` lies behind the first `n` characters: its line is one more than the newlines
      among them, its column one more than the characters since the last newline,
      behind which the line starts at character `start`. */
  ghost predicate LiesBehind(text: seq<Scalar>, n: int, start: int, p: Position) {
    && 0 <= start <= n <= |text|
    && p.line == 1 + multiset(text[..n])[0x0A]
    && 0x0A !in text[start..n] && (start == 0 || text[start - 1] == 0x0A)
    && p.column == 1 + n - start
  }

  lemma {:induction false} PositionCounts(text: seq<Scalar>) returns (start: nat)
    ensures LiesBehind(text, |text|, start, PositionAfter(text))
  {
    assert text[..|text|] == text;
    if text == [] {
      start := 0;
    } else {
      var init, last := text[..|text| - 1], text[|text| - 1];
      start := PositionCounts(init);
      assert text == init + [last] && init[..|init|] == init;
      if last == 0x0A {
        start := |text|;
      } else {
        assert text[start..|text|] == init[start..|init|] + [last];
      }
    }
  }

  lemma BehindPrefix(text: seq<Scalar>, n: nat) returns (start: nat)
    requires n <= |text|
    ensures LiesBehind(text, n, start, PositionAfter(text[..n]))
  {
    start := PositionCounts(text[..n]);
    assert text[..n][..n] == text[..n] && text[..n][start..n] == text[start..n];
  }

  function StepByte(p: Position, b: Byte): Position {
    if b == NEWLINE then Position(p.line + 1, 1)
    else if IsContinuation(b) then p
    else Position(p.line, p.column + 1)
  }

  ghost function Walk(bytes: seq<Byte>): Position {
    if bytes == [] then Position(1, 1) else StepByte(Walk(bytes[..|bytes| - 1]), bytes[|bytes| - 1])
  }

  lemma WalkStep(bytes: seq<Byte>, offset: nat)
    requires offset < |bytes|
    ensures Walk(bytes[..offset + 1]) == StepByte(Walk(bytes[..offset]), bytes[offset])
  {
    assert bytes[..offset + 1][..offset] == bytes[..offset];
  }

  lemma {:induction false} WalkScalar(bytes: seq<Byte>, c: Scalar, n: nat)
    requires 0 < n <= |EncodeScalar(c)|
    ensures Walk(bytes + EncodeScalar(c)[..n]) == StepChar(Walk(bytes), c)
    decreases n
  {
    var more := bytes + EncodeScalar(c)[..n];
    WalkStep(more, |more| - 1);
    assert more[..|more|] == more && more[..|more| - 1] == bytes + EncodeScalar(c)[..n - 1];
    if n == 1 {
      assert bytes + EncodeScalar(c)[..0] == bytes;
    } else {
      WalkScalar(bytes, c, n - 1);
    }
  }

  /** Counting bytes that start a character is counting characters. */
  lemma {:induction false} WalkCountsCharacters(text: seq<Scalar>)
    ensures Walk(Encode(text)) == PositionAfter(text)
  {
    if text != [] {
      var last := text[|text| - 1];
      WalkCountsCharacters(text[..|text| - 1]);
      WalkScalar(Encode(text[..|text| - 1]), last, |EncodeScalar(last)|);
      assert EncodeScalar(last)[..|EncodeScalar(last)|] == EncodeScalar(last);
    }
  }

  lemma {:induction false} WalkNeverFallsBack(bytes: seq<Byte>, a: nat, b: nat)
    requires a <= b <= |bytes|
    ensures Walk(bytes[..a]) == Walk(bytes[..b]) || Before(Walk(bytes[..a]), Walk(bytes[..b]))
    decreases b
  {
    if a < b {
      WalkNeverFallsBack(bytes, a, b - 1);
      WalkStep(bytes, b - 1);
    }
  }

  /** Later boundaries have later positions, so no two of them share one. */
  lemma PositionsIncrease(bytes: seq<Byte>, a: nat, b: nat)
    requires a < b <= |bytes| && IsCharBoundary(bytes, a) && !IsContinuation(bytes[0])
    ensures Before(Walk(bytes[..a]), Walk(bytes[..b]))
  {
    WalkStep(bytes, a);
    WalkNeverFallsBack(bytes, a + 1, b);
  }

  lemma {:induction false} WalkIsBounded(bytes: seq<Byte>)
    ensures 1 <= Walk(bytes).line <= |bytes| + 1 && 1 <= Walk(bytes).column <= |bytes| + 1
  {
    if bytes != [] {
      WalkIsBounded(bytes[..|bytes| - 1]);
    }
  }

  /** The number of characters in a slice between two boundaries. */
  function CharCount(bytes: seq<Byte>): (n: nat)
    ensures n <= |bytes|
  {
    if bytes == [] then 0
    else CharCount(bytes[..|bytes| - 1]) + (if IsContinuation(bytes[|bytes| - 1]) then 0 else 1)
  }

  lemma CharCountStep(bytes: seq<Byte>, a: nat, b: nat)
    requires a <= b < |bytes|
    ensures CharCount(bytes[a..b + 1]) == CharCount(bytes[a..b]) + (if IsContinuation(bytes[b]) then 0 else 1)
  {
    assert bytes[a..b + 1][..b - a] == bytes[a..b];
  }

  lemma {:induction false} CharCountSplits(bytes: seq<Byte>, a: nat, m: nat, b: nat)
    requires a <= m <= b <= |bytes|
    ensures CharCount(bytes[a..b]) == CharCount(bytes[a..m]) + CharCount(bytes[m..b])
    decreases b
  {
    if m < b {
      CharCountSplits(bytes, a, m, b - 1);
      CharCountStep(bytes, a, b - 1);
      CharCountStep(bytes, m, b - 1);
    }
  }

  lemma {:induction false} AsciiCount(bytes: seq<Byte>)
    requires forall k :: 0 <= k < |bytes| ==> bytes[k] < 0x80
    ensures CharCount(bytes) == |bytes|
  {
    if bytes != [] {
      AsciiCount(bytes[..|bytes| - 1]);
    }
  }

  lemma {:induction false} WalkAlongLine(bytes: seq<Byte>, a: nat, b: nat)
    requires a <= b <= |bytes| && forall k :: a <= k < b ==> bytes[k] != NEWLINE
    ensures Walk(bytes[..b]).line == Walk(bytes[..a]).line
    ensures Walk(bytes[..b]).column == Walk(bytes[..a]).column + CharCount(bytes[a..b])
    decreases b
  {
    if a < b {
      WalkAlongLine(bytes, a, b - 1);
      WalkStep(bytes, b - 1);
      CharCountStep(bytes, a, b - 1);
    }
  }

  // ----- Line starts -----

  /** Up to byte `n` of the source, line `i` starts at `starts[i]`. */
  ghost predicate LineAt(source: seq<Byte>, starts: seq<nat>, n: nat, i: nat)
    requires i < |starts| && n <= |source|
  {
    && starts[i] <= n && IsCharBoundary(source, starts[i])
    && Walk(source[..starts[i]]) == Position(i + 1, 1)
    && forall k :: starts[i] <= k < (if i + 1 < |starts| then starts[i + 1] - 1 else n) ==>
         k < n && source[k] != NEWLINE
  }

  ghost predicate AreStarts(source: seq<Byte>, starts: seq<nat>, n: nat)
    requires n <= |source|
  {
    && starts != [] && starts[0] == 0
    && (forall i, j :: 0 <= i < j < |starts| ==> starts[i] < starts[j])
    && (forall i :: 0 <= i < |starts| ==> LineAt(source, starts, n, i))
  }

  lemma LineGoesOn(source: seq<Byte>, starts: seq<nat>, n: nat)
    requires n < |source| && AreStarts(source, starts, n) && source[n] != NEWLINE
    ensures AreStarts(source, starts, n + 1)
  {
    var next := n + 1;
    forall i | 0 <= i < |starts|
      ensures LineAt(source, starts, next, i)
    {
      assert LineAt(source, starts, n, i);
    }
  }

  lemma LineBegins(source: seq<Byte>, starts: seq<nat>, n: nat)
    requires n < |source| && AreStarts(source, starts, n) && source[n] == NEWLINE
    requires IsCharBoundary(source, n + 1)
    ensures AreStarts(source, starts + [n + 1], n + 1)
  {
    var next, last, more := n + 1, |starts| - 1, starts + [n + 1];
    assert LineAt(source, starts, n, last);
    WalkAlongLine(source, starts[last], n);
    WalkStep(source, n);
    forall i | 0 <= i < |more|
      ensures LineAt(source, more, next, i) && (i <= last ==> more[i] < next)
    {
      if i <= last {
        assert LineAt(source, starts, n, i) && more[i] == starts[i];
      }
    }
  }

  method FindStarts(source: seq<Byte>, ghost text: seq<Scalar>) returns (starts: seq<nat>)
    requires source == Encode(text)
    ensures AreStarts(source, starts, |source|)
  {
    starts := [0];
    assert source[..0] == [];
    for j := 0 to |source|
      invariant AreStarts(source, starts, j)
    {
      if source[j] == NEWLINE {
        NewlineEndsCharacter(text, j);
        LineBegins(source, starts, j);
        starts := starts + [j + 1];
      } else {
        LineGoesOn(source, starts, j);
      }
    }
  }

  /** The number of leading indexes for which `below` holds, by binary search. */
  method PartitionPoint(n: nat, below: nat -> bool) returns (p: nat)
    requires forall i, j :: 0 <= i < j < n && below(j) ==> below(i)
    ensures p <= n
    ensures forall i :: 0 <= i < n ==> (below(i) <==> i < p)
  {
    var low, high := 0, n;
    while low < high
      invariant 0 <= low <= high <= n
      invariant forall i :: 0 <= i < low ==> below(i)
      invariant forall i :: high <= i < n ==> !below(i)
    {
      var middle := (low + high) / 2;
      if below(middle) {
        low := middle + 1;
      } else {
        high := middle;
      }
    }
    return low;
  }

  // ----- Checkpoints -----

  datatype Checkpoint = Checkpoint(byteOffset: nat, charCount: nat)

  ghost predicate CheckpointAt(source: seq<Byte>, start: nat, end: nat, k: nat, c: Checkpoint)
    requires start <= end <= |source|
  {
    && k * CHECKPOINT_BYTES <= c.byteOffset < k * CHECKPOINT_BYTES + 4
    && start + c.byteOffset < end && IsCharBoundary(source, start + c.byteOffset)
    && c.charCount == CharCount(source[start..start + c.byteOffset])
  }

  ghost predicate AreCheckpoints(source: seq<Byte>, start: nat, end: nat, checkpoints: seq<Checkpoint>)
    requires start <= end <= |source|
  {
    forall k :: 0 <= k < |checkpoints| ==> CheckpointAt(source, start, end, k, checkpoints[k])
  }

  lemma CheckpointsGrow(source: seq<Byte>, start: nat, end: nat, checkpoints: seq<Checkpoint>, c: Checkpoint)
    requires start <= end <= |source| && AreCheckpoints(source, start, end, checkpoints)
    requires CheckpointAt(source, start, end, |checkpoints|, c)
    ensures AreCheckpoints(source, start, end, checkpoints + [c])
  {
    var more := checkpoints + [c];
    forall k | 0 <= k < |more|
      ensures CheckpointAt(source, start, end, k, more[k])
    {
      assert k < |checkpoints| ==> more[k] == checkpoints[k] && CheckpointAt(source, start, end, k, checkpoints[k]);
    }
  }

  /** Short lines have no checkpoints; long ones have one at the first character of
      every 256 bytes. */
  ghost predicate Checkpointed(source: seq<Byte>, start: nat, end: nat, checkpoints: seq<Checkpoint>)
    requires start <= end <= |source|
  {
    if end - start < CHECKPOINT_BYTES then checkpoints == []
    else
      && checkpoints != [] && checkpoints[0] == Checkpoint(0, 0)
      && AreCheckpoints(source, start, end, checkpoints)
      && end - start <= |checkpoints| * CHECKPOINT_BYTES + 3
  }

  /** No character starts from the marker on up to `end`. */
  ghost predicate NoLead(source: seq<Byte>, marker: nat, end: nat)
    requires end <= |source|
  {
    forall i :: marker <= i < end ==> IsContinuation(source[i])
  }

  lemma LeadIsDue(text: seq<Scalar>, marker: nat, offset: nat)
    requires offset < |Encode(text)| && offset <= marker + 3 && NoLead(Encode(text), marker, offset)
    ensures offset == marker + 3 ==> !IsContinuation(Encode(text)[offset])
    ensures IsContinuation(Encode(text)[offset]) ==> NoLead(Encode(text), marker, offset + 1)
  {
    if offset == marker + 3 {
      var lead := LeadWithinFour(text, marker);
    }
  }

  /** The markers before byte `j` of a line have their checkpoints, but for the next
      one if no character has started since. */
  ghost predicate MarkedUpTo(
    source: seq<Byte>, start: nat, end: nat, j: nat, checkpoints: seq<Checkpoint>, charCount: nat)
    requires start <= j <= end <= |source|
  {
    var marker := start + |checkpoints| * CHECKPOINT_BYTES;
    && AreCheckpoints(source, start, end, checkpoints)
    && checkpoints != [] && checkpoints[0] == Checkpoint(0, 0)
    && charCount == CharCount(source[start..j])
    && NoLead(source, marker, j) && j <= marker + 3
  }

  lemma ByteContinues(source: seq<Byte>, start: nat, end: nat, j: nat, checkpoints: seq<Checkpoint>, charCount: nat)
    requires start <= j < end <= |source| && MarkedUpTo(source, start, end, j, checkpoints, charCount)
    requires IsContinuation(source[j]) && j != start + |checkpoints| * CHECKPOINT_BYTES + 3
    ensures MarkedUpTo(source, start, end, j + 1, checkpoints, charCount)
  {
    CharCountStep(source, start, j);
  }

  lemma CharacterStarts(source: seq<Byte>, start: nat, end: nat, j: nat, checkpoints: seq<Checkpoint>, charCount: nat)
    requires start <= j < end <= |source| && MarkedUpTo(source, start, end, j, checkpoints, charCount)
    requires !IsContinuation(source[j]) && j < start + |checkpoints| * CHECKPOINT_BYTES
    ensures MarkedUpTo(source, start, end, j + 1, checkpoints, charCount + 1)
  {
    CharCountStep(source, start, j);
  }

  lemma MarkerIsPassed(source: seq<Byte>, start: nat, end: nat, j: nat, checkpoints: seq<Checkpoint>, charCount: nat)
    requires start <= j < end <= |source| && MarkedUpTo(source, start, end, j, checkpoints, charCount)
    requires !IsContinuation(source[j]) && start + |checkpoints| * CHECKPOINT_BYTES <= j
    ensures MarkedUpTo(source, start, end, j + 1, checkpoints + [Checkpoint(j - start, charCount)], charCount + 1)
  {
    CharCountStep(source, start, j);
    CheckpointsGrow(source, start, end, checkpoints, Checkpoint(j - start, charCount));
  }

  method CheckpointLine(source: seq<Byte>, start: nat, end: nat, ghost text: seq<Scalar>)
    returns (checkpoints: seq<Checkpoint>)
    requires source == Encode(text) && start <= end <= |source| && IsCharBoundary(source, start)
    ensures Checkpointed(source, start, end, checkpoints)
  {
    if end - start < CHECKPOINT_BYTES {
      return [];
    }
    CheckpointsGrow(source, start, end, [], Checkpoint(0, 0));
    checkpoints := [] + [Checkpoint(0, 0)];
    var nextMarker := CHECKPOINT_BYTES;
    var charCount := 0;
    for j := start to end
      invariant nextMarker == |checkpoints| * CHECKPOINT_BYTES
      invariant MarkedUpTo(source, start, end, j, checkpoints, charCount)
    {
      LeadIsDue(text, start + nextMarker, j);
      if IsContinuation(source[j]) {
        ByteContinues(source, start, end, j, checkpoints, charCount);
      } else {
        if j - start < nextMarker {
          CharacterStarts(source, start, end, j, checkpoints, charCount);
        } else {
          MarkerIsPassed(source, start, end, j, checkpoints, charCount);
          checkpoints := checkpoints + [Checkpoint(j - start, charCount)];
          nextMarker := nextMarker + CHECKPOINT_BYTES;
        }
        charCount := charCount + 1;
      }
    }
  }

  ghost predicate AllCheckpointed(source: seq<Byte>, starts: seq<nat>, checkpoints: seq<seq<Checkpoint>>)
    requires AreStarts(source, starts, |source|)
  {
    && |checkpoints| == |starts|
    && forall i :: 0 <= i < |starts| ==>
         Checkpointed(source, starts[i], LineEnd(source, starts, i), checkpoints[i])
  }

  function LineEnd(source: seq<Byte>, starts: seq<nat>, i: nat): (end: nat)
    requires i < |starts| && AreStarts(source, starts, |source|)
    ensures starts[i] <= end <= |source|
  {
    if i + 1 < |starts| then
      assert LineAt(source, starts, |source|, i + 1);
      starts[i + 1]
    else
      assert LineAt(source, starts, |source|, i);
      |source|
  }

  method ComputeCheckpoints(source: seq<Byte>, starts: seq<nat>, ghost text: seq<Scalar>)
    returns (checkpoints: seq<seq<Checkpoint>>)
    requires source == Encode(text) && AreStarts(source, starts, |source|)
    ensures AllCheckpointed(source, starts, checkpoints)
  {
    checkpoints := [];
    for i := 0 to |starts|
      invariant |checkpoints| == i
      invariant forall k :: 0 <= k < i ==> Checkpointed(source, starts[k], LineEnd(source, starts, k), checkpoints[k])
    {
      assert LineAt(source, starts, |source|, i);
      var line := CheckpointLine(source, starts[i], LineEnd(source, starts, i), text);
      checkpoints := checkpoints + [line];
    }
  }

  /** The last checkpoint at or before a byte of the line; it is less than one
      interval and one character away. */
  method LastPassed(ghost source: seq<Byte>, ghost start: nat, ghost end: nat,
      checkpoints: seq<Checkpoint>, byteOffset: nat) returns (last: nat)
    requires start + byteOffset <= end <= |source|
    requires checkpoints != [] && Checkpointed(source, start, end, checkpoints)
    ensures last < |checkpoints| && checkpoints[last].byteOffset <= byteOffset
    ensures byteOffset < checkpoints[last].byteOffset + CHECKPOINT_BYTES + 4
  {
    ghost var n := |checkpoints|;
    forall j, k | 0 <= j < k < n
      ensures checkpoints[j].byteOffset < checkpoints[k].byteOffset
    {
      assert CheckpointAt(source, start, end, j, checkpoints[j]);
      assert CheckpointAt(source, start, end, k, checkpoints[k]);
    }
    var isPassed := (k: nat) => k < |checkpoints| && checkpoints[k].byteOffset <= byteOffset;
    var passed := PartitionPoint(|checkpoints|, isPassed);
    assert isPassed(0);
    last := if passed == 0 then 0 else passed - 1;
    assert isPassed(last) && !isPassed(last + 1);
    assert CheckpointAt(source, start, end, last, checkpoints[last]);
    if last + 1 < |checkpoints| {
      assert CheckpointAt(source, start, end, last + 1, checkpoints[last + 1]);
    }
  }

  // ----- The index -----

  /** `offset` is where some prefix of the text ends, and `p` the position after it. */
  ghost predicate Locates(text: seq<Scalar>, offset: nat, p: Position) {
    exists n, start :: LiesBehind(text, n, start, p) && offset == |Encode(text[..n])|
  }

  lemma WalkLocates(text: seq<Scalar>, offset: nat)
    requires offset <= |Encode(text)| && IsCharBoundary(Encode(text), offset)
    ensures Locates(text, offset, Walk(Encode(text)[..offset]))
  {
    var n := BoundaryEndsPrefix(text, offset);
    WalkCountsCharacters(text[..n]);
    var start := BehindPrefix(text, n);
    assert |Encode(text)[..offset]| == offset;
  }

  predicate Fits(p: Position) {
    p.line <= U32_MAX && p.column <= U32_MAX
  }

  class SourceLineIndex {
    const source: seq<Byte>
    const starts: seq<nat>
    const isAscii: bool
    var checkpoints: Option<seq<seq<Checkpoint>>>
    ghost const text: seq<Scalar>

    ghost predicate Valid()
      reads this
    {
      && source == Encode(text) && AreStarts(source, starts, |source|)
      && (isAscii <==> forall k :: 0 <= k < |source| ==> source[k] < 0x80)
      && (checkpoints.Some? ==> AllCheckpointed(source, starts, checkpoints.value))
    }

    constructor (source: seq<Byte>, ghost text: seq<Scalar>)
      requires source == Encode(text)
      ensures Valid() && this.source == source && this.text == text && checkpoints == None
    {
      var starts := FindStarts(source, text);
      this.source, this.text, this.starts := source, text, starts;
      isAscii := forall k :: 0 <= k < |source| ==> source[k] < 0x80;
      checkpoints := None;
    }

    /** The bytes between two boundaries. */
    function Slice(start: nat, end: nat): seq<Byte>
      requires start <= end <= |source| && IsCharBoundary(source, start) && IsCharBoundary(source, end)
    {
      source[start..end]
    }

    method EnsureCheckpoints() returns (all: seq<seq<Checkpoint>>)
      requires Valid()
      modifies this`checkpoints
      ensures Valid() && checkpoints == Some(all)
    {
      if checkpoints.None? {
        var computed := ComputeCheckpoints(source, starts, text);
        checkpoints := Some(computed);
      }
      all := checkpoints.value;
    }

    /** The last line that starts at or before `offset`. */
    method FindLine(offset: nat) returns (line: nat)
      requires Valid() && offset <= |source|
      ensures line < |starts| && starts[line] <= offset && LineAt(source, starts, |source|, line)
      ensures offset <= LineEnd(source, starts, line)
      ensures forall k :: starts[line] <= k < offset ==> source[k] != NEWLINE
    {
      var begins := (i: nat) => i < |starts| && starts[i] <= offset;
      var begun := PartitionPoint(|starts|, begins);
      assert begins(0);
      line := if begun == 0 then 0 else begun - 1;
      assert begins(line) && !begins(line + 1);
      assert LineAt(source, starts, |source|, line);
    }

    /** The number of characters from the line's start to `offset`. */
    method Column(line: nat, offset: nat) returns (column: nat)
      requires Valid() && offset <= |source| && IsCharBoundary(source, offset)
      requires line < |starts| && starts[line] <= offset <= LineEnd(source, starts, line)
      requires LineAt(source, starts, |source|, line)
      modifies this`checkpoints
      ensures Valid() && column == CharCount(source[starts[line]..offset])
    {
      var lineStart := starts[line];
      if isAscii {
        AsciiCount(source[lineStart..offset]);
        return offset - lineStart;
      }
      var all := EnsureCheckpoints();
      var lineCheckpoints := all[line];
      assert Checkpointed(source, lineStart, LineEnd(source, starts, line), lineCheckpoints);
      if lineCheckpoints == [] {
        return CharCount(Slice(lineStart, offset));
      }
      column := FromCheckpoint(lineCheckpoints, lineStart, LineEnd(source, starts, line), offset);
    }

    /** Count on from the last checkpoint at or before `offset`. */
    method FromCheckpoint(lineCheckpoints: seq<Checkpoint>, lineStart: nat, lineEnd: nat, offset: nat)
      returns (column: nat)
      requires lineStart <= offset <= lineEnd <= |source| && IsCharBoundary(source, offset)
      requires lineCheckpoints != [] && Checkpointed(source, lineStart, lineEnd, lineCheckpoints)
      ensures column == CharCount(source[lineStart..offset])
    {
      var last := LastPassed(source, lineStart, lineEnd, lineCheckpoints, offset - lineStart);
      var checkpoint := lineCheckpoints[last];
      assert CheckpointAt(source, lineStart, lineEnd, last, checkpoint);
      CharCountSplits(source, lineStart, lineStart + checkpoint.byteOffset, offset);
      return checkpoint.charCount + CharCount(Slice(lineStart + checkpoint.byteOffset, offset));
    }

    method LineAndColumn(offset: nat) returns (line: nat, column: nat)
      requires Valid() && offset <= |source| && IsCharBoundary(source, offset)
      modifies this`checkpoints
      ensures Valid() && Walk(source[..offset]) == Position(line + 1, column + 1)
    {
      line := FindLine(offset);
      column := Column(line, offset);
      WalkAlongLine(source, starts[line], offset);
    }

    /** The one-based position of a boundary is the one counting by hand gives. */
    method PositionOf(offset: nat) returns (r: Option<Position>)
      requires Valid() && offset <= |source| && IsCharBoundary(source, offset)
      modifies this`checkpoints
      ensures Valid()
      ensures r == if Fits(Walk(source[..offset])) then Some(Walk(source[..offset])) else None
      ensures r.Some? ==> Locates(text, offset, r.value)
    {
      var line, column := LineAndColumn(offset);
      WalkLocates(text, offset);
      if line + 1 > U32_MAX || column + 1 > U32_MAX {
        return None;
      }
      return Some(Position(line + 1, column + 1));
    }

    /** Sources of the accepted size fail only for ranges outside the source or
        inside a character. */
    method TryRange(range: ByteRange) returns (r: Result<SourceRange, InvalidSourceBoundary>)
      requires Valid() && range.start <= range.end
      modifies this`checkpoints
      ensures Valid()
      ensures range.end > |source| ==> r == Failure(OutOfBounds)
      ensures range.end <= |source| ==>
                (r == Failure(NotCharacterBoundary) <==>
                 !IsCharBoundary(source, range.start) || !IsCharBoundary(source, range.end))
      ensures r.Success? ==>
                Locates(text, range.start, r.value.start) && Locates(text, range.end, r.value.end)
      ensures |source| <= MAX_SOURCE_BYTES ==>
                (r.Success? <==> && range.end <= |source|
                                 && IsCharBoundary(source, range.start) && IsCharBoundary(source, range.end))
    {
      if range.end > |source| {
        return Failure(OutOfBounds);
      }
      if !IsCharBoundary(source, range.start) || !IsCharBoundary(source, range.end) {
        return Failure(NotCharacterBoundary);
      }
      WalkIsBounded(source[..range.start]);
      WalkIsBounded(source[..range.end]);
      WalkNeverFallsBack(source, range.start, range.end);
      var start := PositionOf(range.start);
      var end := PositionOf(range.end);
      if start.None? || end.None? || Before(end.value, start.value) {
        return Failure(OutOfBounds);
      }
      return Success(SourceRange(start.value, end.value));
    }
  }
}
