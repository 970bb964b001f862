/** Wildcard rule selectors and the evaluation of a rule selection. */
module RuleSelecting {
  import opened Wrappers
  import opened Sequences
  import opened Strings

  // ----- The meaning of a selector -----

  /** `*` stands for any string, every other character for itself. */
  ghost predicate Means(selector: string, id: string)
    decreases |selector|
  {
    if selector == "" then id == ""
    else if selector[0] == '*' then exists k :: 0 <= k <= |id| && Means(selector[1..], id[k..])
    else id != "" && id[0] == selector[0] && Means(selector[1..], id[1..])
  }

  /** The parts of a selector with one string in place of each `*` between them. */
  ghost function Filled(parts: seq<string>, fillings: seq<string>): string
    requires |parts| == |fillings| + 1
    decreases |parts|
  {
    if fillings == [] then parts[0] else parts[0] + fillings[0] + Filled(parts[1..], fillings[1..])
  }

  /** Whatever stands in place of the stars, the selector means the result... */
  lemma {:induction false} FilledIsMeant(selector: string, fillings: seq<string>)
    requires |Split(selector, '*')| == |fillings| + 1
    ensures Means(selector, Filled(Split(selector, '*'), fillings))
    decreases |selector|
  {
    if selector != "" {
      var parts, rest := Split(selector, '*'), Split(selector[1..], '*');
      var id := Filled(parts, fillings);
      if selector[0] == '*' {
        assert parts[1..] == rest;
        FilledIsMeant(selector[1..], fillings[1..]);
        assert id[|fillings[0]|..] == Filled(rest, fillings[1..]);
      } else {
        FilledIsMeant(selector[1..], fillings);
        assert parts[1..] == rest[1..] && id == [selector[0]] + Filled(rest, fillings);
      }
    }
  }

  /** ... and it means nothing else. */
  lemma {:induction false} MeantIsFilled(selector: string, id: string) returns (fillings: seq<string>)
    requires Means(selector, id)
    ensures |Split(selector, '*')| == |fillings| + 1 && Filled(Split(selector, '*'), fillings) == id
    decreases |selector|
  {
    if selector == "" {
      fillings := [];
    } else {
      var parts, rest := Split(selector, '*'), Split(selector[1..], '*');
      if selector[0] == '*' {
        var k :| 0 <= k <= |id| && Means(selector[1..], id[k..]);
        var more := MeantIsFilled(selector[1..], id[k..]);
        fillings := [id[..k]] + more;
        assert parts[1..] == rest && fillings[1..] == more;
      } else {
        fillings := MeantIsFilled(selector[1..], id[1..]);
        assert parts[1..] == rest[1..] && id == [selector[0]] + Filled(rest, fillings);
      }
    }
  }

  // ----- Parsed patterns -----

  datatype Segment = Literal(text: string) | Wildcard

  datatype RulePattern = RulePattern(segments: seq<Segment>, endsWithWildcard: bool)

  ghost predicate SegmentsMatch(segments: seq<Segment>, id: string)
    decreases |segments|
  {
    if segments == [] then id == ""
    else
      match segments[0]
      case Wildcard => exists k :: 0 <= k <= |id| && SegmentsMatch(segments[1..], id[k..])
      case Literal(text) => text <= id && SegmentsMatch(segments[1..], id[|text|..])
  }

  function LiteralIfAny(part: string): seq<Segment> {
    if part == "" then [] else [Literal(part)]
  }

  function SegmentsOf(parts: seq<string>): seq<Segment>
    requires parts != []
    decreases |parts|
  {
    if |parts| == 1 then LiteralIfAny(parts[0])
    else LiteralIfAny(parts[0]) + [Wildcard] + SegmentsOf(parts[1..])
  }

  function PatternOf(selector: string): RulePattern {
    RulePattern(SegmentsOf(Split(selector, '*')), selector != "" && selector[|selector| - 1] == '*')
  }

  lemma LiteralExtends(c: char, part: string, rest: seq<Segment>, id: string)
    ensures SegmentsMatch(LiteralIfAny([c] + part) + rest, id) <==>
            id != "" && id[0] == c && SegmentsMatch(LiteralIfAny(part) + rest, id[1..])
  {
    var long := [c] + part;
    assert (LiteralIfAny(long) + rest)[1..] == rest;
    assert long <= id ==> id != "" && id[0] == long[0];
    if id != "" && id[0] == c {
      assert id == [c] + id[1..];
      if part == "" {
        assert LiteralIfAny(part) + rest == rest && long <= id;
      } else {
        assert (LiteralIfAny(part) + rest)[1..] == rest;
        assert long <= id <==> part <= id[1..];
        assert part <= id[1..] ==> id[1..][|part|..] == id[|long|..];
      }
    }
  }

  /** The parsed segments mean what the selector means. */
  lemma {:induction false} SegmentsMeanSelector(selector: string, id: string)
    ensures SegmentsMatch(SegmentsOf(Split(selector, '*')), id) <==> Means(selector, id)
    decreases |selector|
  {
    if selector != "" {
      var rest := Split(selector[1..], '*');
      var parts := Split(selector, '*');
      if selector[0] == '*' {
        assert parts[1..] == rest;
        assert SegmentsOf(parts) == [Wildcard] + SegmentsOf(rest);
        assert SegmentsOf(parts)[1..] == SegmentsOf(rest);
        forall k | 0 <= k <= |id| {
          SegmentsMeanSelector(selector[1..], id[k..]);
        }
      } else {
        var tail := if |rest| == 1 then [] else [Wildcard] + SegmentsOf(rest[1..]);
        assert parts[1..] == rest[1..];
        assert SegmentsOf(rest) == LiteralIfAny(rest[0]) + tail;
        assert SegmentsOf(parts) == LiteralIfAny([selector[0]] + rest[0]) + tail;
        LiteralExtends(selector[0], rest[0], tail, id);
        if id != "" {
          SegmentsMeanSelector(selector[1..], id[1..]);
        }
      }
    }
  }

  // ----- Parsing -----

  predicate IsSeparator(c: char) {
    c == '-' || c == '_' || c == '.'
  }

  predicate HasDoubleDot(part: string) {
    exists k :: 0 <= k < |part| - 1 && part[k] == '.' && part[k + 1] == '.'
  }

  predicate ValidBoundaries(part: string) {
    part != "" && !IsSeparator(part[0]) && !IsSeparator(part[|part| - 1]) && !HasDoubleDot(part)
  }

  predicate ValidCharacter(index: nat, c: char, allowDot: bool) {
    'a' <= c <= 'z' || (0 < index && '0' <= c <= '9') || c == '-' || c == '_' || (allowDot && c == '.')
  }

  predicate ValidPatternPart(part: string, allowDot: bool) {
    ValidBoundaries(part) && forall k :: 0 <= k < |part| ==> part[k] == '*' || ValidCharacter(k, part[k], allowDot)
  }

  predicate ValidIdPart(part: string, allowDot: bool) {
    ValidBoundaries(part) && forall k :: 0 <= k < |part| ==> ValidCharacter(k, part[k], allowDot)
  }

  /** A provider and a name, separated by the only colon. */
  predicate ValidPattern(selector: string) {
    var parts := Split(selector, ':');
    |parts| == 2 && ValidPatternPart(parts[0], false) && ValidPatternPart(parts[1], true)
  }

  predicate ValidRuleId(id: string) {
    var parts := Split(id, ':');
    |parts| == 2 && ValidIdPart(parts[0], false) && ValidIdPart(parts[1], true)
  }

  method ParsePattern(selector: string) returns (r: Option<RulePattern>)
    ensures r == if ValidPattern(selector) then Some(PatternOf(selector)) else None
  {
    if !ValidPattern(selector) {
      return None;
    }
    var parts := Split(selector, '*');
    var segments: seq<Segment> := [];
    for k := 0 to |parts|
      invariant 0 < k ==> segments + SegmentsAfter(parts, k) == SegmentsOf(parts) + [Wildcard]
      invariant k == 0 ==> segments == []
    {
      ghost var before := segments;
      if parts[k] != "" {
        segments := segments + [Literal(parts[k])];
      }
      segments := segments + [Wildcard];
      SegmentsAfterStep(before, parts, k);
      assert segments == before + (LiteralIfAny(parts[k]) + [Wildcard]);
    }
    assert segments + [] == segments;
    segments := segments[..|segments| - 1];
    assert segments == SegmentsOf(parts);
    r := Some(RulePattern(segments, selector != "" && selector[|selector| - 1] == '*'));
  }

  /** What the parts from `k` on still contribute, with a wildcard after each. */
  ghost function SegmentsAfter(parts: seq<string>, k: nat): seq<Segment>
    requires k <= |parts|
    decreases |parts| - k
  {
    if k == |parts| then [] else LiteralIfAny(parts[k]) + [Wildcard] + SegmentsAfter(parts, k + 1)
  }

  lemma {:induction false} SegmentsAfterIs(parts: seq<string>, k: nat)
    requires k < |parts|
    ensures SegmentsAfter(parts, k) == SegmentsOf(parts[k..]) + [Wildcard]
    decreases |parts| - k
  {
    if k + 1 < |parts| {
      SegmentsAfterIs(parts, k + 1);
      assert parts[k..][1..] == parts[k + 1..];
    }
  }

  /** One more part: its segments move behind what has been collected. */
  lemma SegmentsAfterStep(before: seq<Segment>, parts: seq<string>, k: nat)
    requires k < |parts|
    requires k == 0 ==> before == []
    requires 0 < k ==> before + SegmentsAfter(parts, k) == SegmentsOf(parts) + [Wildcard]
    ensures before + (LiteralIfAny(parts[k]) + [Wildcard]) + SegmentsAfter(parts, k + 1) ==
            SegmentsOf(parts) + [Wildcard]
  {
    ConcatAssoc(before, LiteralIfAny(parts[k]) + [Wildcard], SegmentsAfter(parts, k + 1));
    if k == 0 {
      SegmentsAfterIs(parts, 0);
      assert parts[0..] == parts;
    }
  }

  // ----- Greedy matching -----

  /** The shape the parser produces for a selector with a wildcard. */
  ghost predicate WellFormed(pattern: RulePattern) {
    && Wildcard in pattern.segments
    && (forall k :: 0 <= k < |pattern.segments| - 1 ==>
          pattern.segments[k].Wildcard? || pattern.segments[k + 1].Wildcard?)
    && (pattern.endsWithWildcard <==> pattern.segments[|pattern.segments| - 1].Wildcard?)
  }

  predicate StartsAt(id: string, k: nat, text: string)
    requires k <= |id|
  {
    text <= id[k..]
  }

  predicate EndsWith(id: string, text: string) {
    |text| <= |id| && id[|id| - |text|..] == text
  }

  /** The leftmost occurrence of `text` at or after `from`. */
  method Find(id: string, from: nat, text: string) returns (r: Option<nat>)
    requires from <= |id|
    ensures r.Some? ==> from <= r.value && r.value + |text| <= |id| && StartsAt(id, r.value, text)
    ensures forall k :: from <= k <= |id| && StartsAt(id, k, text) ==> r.Some? && r.value <= k
  {
    for k := from to |id| + 1
      invariant forall j :: from <= j < k && j <= |id| ==> !StartsAt(id, j, text)
    {
      if StartsAt(id, k, text) {
        return Some(k);
      }
    }
    r := None;
  }

  /** A pattern that starts with a wildcard also matches with more in front. */
  lemma WildcardAbsorbs(rest: seq<Segment>, id: string, from: nat, k: nat)
    requires from <= k <= |id|
    requires rest != [] && rest[0].Wildcard? && SegmentsMatch(rest, id[k..])
    ensures SegmentsMatch(rest, id[from..])
  {
    var j :| 0 <= j <= |id[k..]| && SegmentsMatch(rest[1..], id[k..][j..]);
    assert id[k..][j..] == id[from..][k - from + j..];
  }

  lemma DoubleWildcard(rest: seq<Segment>, id: string)
    requires rest != [] && rest[0].Wildcard?
    ensures SegmentsMatch([Wildcard] + rest, id) <==> SegmentsMatch(rest, id)
  {
    assert ([Wildcard] + rest)[1..] == rest;
    assert id[0..] == id;
    if SegmentsMatch([Wildcard] + rest, id) {
      var k :| 0 <= k <= |id| && SegmentsMatch(rest, id[k..]);
      WildcardAbsorbs(rest, id, 0, k);
    }
  }

  lemma LiteralAt(text: string, rest: seq<Segment>, id: string, k: nat)
    requires k <= |id|
    ensures SegmentsMatch([Literal(text)] + rest, id[k..]) <==>
            StartsAt(id, k, text) && SegmentsMatch(rest, id[k + |text|..])
  {
    assert ([Literal(text)] + rest)[1..] == rest;
    assert StartsAt(id, k, text) ==> id[k..][|text|..] == id[k + |text|..];
  }

  lemma WildcardAt(tail: seq<Segment>, id: string, from: nat)
    requires from <= |id|
    ensures SegmentsMatch([Wildcard] + tail, id[from..]) <==>
            exists k :: from <= k <= |id| && SegmentsMatch(tail, id[k..])
  {
    assert ([Wildcard] + tail)[1..] == tail;
    assert forall j :: 0 <= j <= |id[from..]| ==> id[from..][j..] == id[from + j..];
    if k :| from <= k <= |id| && SegmentsMatch(tail, id[k..]) {
      assert id[from..][k - from..] == id[k..];
    }
  }

  /** Taking the leftmost occurrence loses nothing. */
  lemma LeftmostSuffices(text: string, rest: seq<Segment>, id: string, from: nat, found: Option<nat>)
    requires from <= |id| && rest != [] && rest[0].Wildcard?
    requires found.Some? ==> from <= found.value && found.value + |text| <= |id| && StartsAt(id, found.value, text)
    requires forall k :: from <= k <= |id| && StartsAt(id, k, text) ==> found.Some? && found.value <= k
    ensures SegmentsMatch([Wildcard, Literal(text)] + rest, id[from..]) <==>
            found.Some? && SegmentsMatch(rest, id[found.value + |text|..])
  {
    var tail := [Literal(text)] + rest;
    assert [Wildcard, Literal(text)] + rest == [Wildcard] + tail;
    WildcardAt(tail, id, from);
    if found.Some? {
      LiteralAt(text, rest, id, found.value);
    }
    forall k | from <= k <= |id| && SegmentsMatch(tail, id[k..])
      ensures found.Some? && SegmentsMatch(rest, id[found.value + |text|..])
    {
      LaterOccurrence(text, rest, id, k, found);
    }
  }

  lemma LaterOccurrence(text: string, rest: seq<Segment>, id: string, k: nat, found: Option<nat>)
    requires k <= |id| && rest != [] && rest[0].Wildcard?
    requires StartsAt(id, k, text) ==> found.Some? && found.value <= k
    requires SegmentsMatch([Literal(text)] + rest, id[k..])
    ensures found.Some? && found.value + |text| <= |id| && SegmentsMatch(rest, id[found.value + |text|..])
  {
    LiteralAt(text, rest, id, k);
    WildcardAbsorbs(rest, id, found.value + |text|, k + |text|);
  }

  lemma OneLiteral(text: string, id: string)
    ensures SegmentsMatch([Literal(text)], id) <==> id == text
  {
    assert [Literal(text)][1..] == [];
    assert text <= id && id[|text|..] == "" ==> id == text;
  }

  lemma LastLiteral(text: string, id: string)
    ensures SegmentsMatch([Wildcard, Literal(text)], id) <==> EndsWith(id, text)
  {
    var all := [Wildcard, Literal(text)];
    assert all[1..] == [Literal(text)];
    forall k | 0 <= k <= |id|
      ensures SegmentsMatch(all[1..], id[k..]) <==> id[k..] == text
    {
      OneLiteral(text, id[k..]);
    }
    if EndsWith(id, text) {
      assert SegmentsMatch(all[1..], id[|id| - |text|..]);
    }
  }

  /** What is left to match before segment `k`: a wildcard just passed may still
      skip characters. */
  ghost function Remaining(segments: seq<Segment>, k: nat): seq<Segment>
    requires k <= |segments|
  {
    if 0 < k && segments[k - 1].Wildcard? then [Wildcard] + segments[k..] else segments[k..]
  }

  /** The first segment is a literal: it must be a prefix. */
  lemma LeadingLiteral(segments: seq<Segment>, id: string)
    requires segments != [] && segments[0].Literal?
    ensures SegmentsMatch(segments, id) <==>
            segments[0].text <= id && SegmentsMatch(Remaining(segments, 1), id[|segments[0].text|..])
  {
  }

  /** Passing a wildcard. */
  lemma PassWildcard(segments: seq<Segment>, k: nat, id: string)
    requires k < |segments| && segments[k].Wildcard?
    ensures SegmentsMatch(Remaining(segments, k), id) <==> SegmentsMatch(Remaining(segments, k + 1), id)
  {
    assert segments[k..] == [segments[k]] + segments[k + 1..];
    if 0 < k && segments[k - 1].Wildcard? {
      DoubleWildcard(segments[k..], id);
    }
  }

  method Matches(pattern: RulePattern, id: string) returns (matched: bool)
    requires WellFormed(pattern)
    ensures matched <==> SegmentsMatch(pattern.segments, id)
  {
    var segments := pattern.segments;
    var pos: nat := 0;
    assert id[0..] == id && Remaining(segments, 0) == segments;
    for k := 0 to |segments|
      invariant pos <= |id|
      invariant k < |segments| || pattern.endsWithWildcard ==>
                  (SegmentsMatch(Remaining(segments, k), id[pos..]) <==> SegmentsMatch(segments, id))
      invariant k == |segments| && !pattern.endsWithWildcard ==> SegmentsMatch(segments, id)
    {
      match segments[k]
      case Wildcard => PassWildcard(segments, k, id[pos..]);
      case Literal(text) =>
        if k == 0 {
          LeadingLiteral(segments, id);
          if !(text <= id) {
            return false;
          }
          pos := |text|;
        } else if k == |segments| - 1 && !pattern.endsWithWildcard {
          assert Remaining(segments, k) == [Wildcard, Literal(text)];
          LastLiteral(text, id[pos..]);
          if !EndsWith(id[pos..], text) {
            return false;
          }
        } else {
          assert Remaining(segments, k) == [Wildcard, Literal(text)] + segments[k + 1..];
          var found := Find(id, pos, text);
          LeftmostSuffices(text, segments[k + 1..], id, pos, found);
          if found.None? {
            return false;
          }
          pos := found.value + |text|;
        }
    }
    if pattern.endsWithWildcard {
      assert Remaining(segments, |segments|) == [Wildcard];
      AnythingMatches(id[pos..]);
    }
    matched := true;
  }

  lemma AnythingMatches(id: string)
    ensures SegmentsMatch([Wildcard], id)
  {
    assert [Wildcard][1..] == [];
    assert id[|id|..] == "";
  }

  /** Every selector with a wildcard parses into a well-formed pattern. */
  lemma ParsedIsWellFormed(selector: string)
    requires '*' in selector
    ensures WellFormed(PatternOf(selector))
  {
    SplitCount(selector);
    SegmentsShape(Split(selector, '*'));
    SplitLast(selector);
  }

  lemma {:induction false} SplitCount(selector: string)
    ensures 1 < |Split(selector, '*')| <==> '*' in selector
  {
    if selector != "" {
      SplitCount(selector[1..]);
    }
  }

  lemma {:induction false} SplitLast(selector: string)
    ensures var parts := Split(selector, '*');
            parts[|parts| - 1] == "" <==> selector == "" || selector[|selector| - 1] == '*'
  {
    if selector != "" {
      SplitLast(selector[1..]);
      SplitCount(selector[1..]);
      if |selector| == 1 {
        assert selector[1..] == "";
      }
    }
  }

  lemma {:induction false} SegmentsShape(parts: seq<string>)
    requires parts != []
    ensures var segments := SegmentsOf(parts);
            && (1 < |parts| ==> Wildcard in segments)
            && (forall k :: 0 <= k < |segments| - 1 ==> segments[k].Wildcard? || segments[k + 1].Wildcard?)
            && (1 < |parts| ==> (segments[|segments| - 1].Wildcard? <==> parts[|parts| - 1] == ""))
            && (|parts| == 1 ==> |segments| <= 1 && Wildcard !in segments)
    decreases |parts|
  {
    if 1 < |parts| {
      var head, tail := LiteralIfAny(parts[0]) + [Wildcard], SegmentsOf(parts[1..]);
      SegmentsShape(parts[1..]);
      assert SegmentsOf(parts) == head + tail;
      assert head[|head| - 1].Wildcard?;
      forall k | 0 <= k < |head + tail| - 1
        ensures (head + tail)[k].Wildcard? || (head + tail)[k + 1].Wildcard?
      {
        if |head| <= k {
          assert (head + tail)[k] == tail[k - |head|] && (head + tail)[k + 1] == tail[k + 1 - |head|];
        }
      }
    }
  }

  // ----- Selectors and selections -----

  datatype RuleSelector = RuleSelector(raw: string, pattern: Option<RulePattern>)

  predicate ForbiddenCharacter(c: char) {
    c == '?' || c == '[' || c == ']' || c == '{' || c == '}'
  }

  predicate ValidSelector(selector: string) {
    && selector != ""
    && (forall k :: 0 <= k < |selector| ==> !ForbiddenCharacter(selector[k]))
    && (if '*' in selector then ValidPattern(selector) else ValidRuleId(selector))
  }

  ghost predicate Parsed(selector: RuleSelector) {
    && ValidSelector(selector.raw)
    && selector.pattern == if '*' in selector.raw then Some(PatternOf(selector.raw)) else None
  }

  method ParseSelector(selector: string) returns (r: Option<RuleSelector>)
    ensures r.Some? <==> ValidSelector(selector)
    ensures r.Some? ==> r.value.raw == selector && Parsed(r.value)
  {
    if selector == "" || exists k :: 0 <= k < |selector| && ForbiddenCharacter(selector[k]) {
      return None;
    }
    if '*' in selector {
      var pattern := ParsePattern(selector);
      if pattern.None? {
        return None;
      }
      return Some(RuleSelector(selector, pattern));
    }
    if !ValidRuleId(selector) {
      return None;
    }
    r := Some(RuleSelector(selector, None));
  }

  lemma {:induction false} ExactMeaning(selector: string, id: string)
    requires '*' !in selector
    ensures Means(selector, id) <==> id == selector
  {
    if selector != "" {
      if id != "" {
        ExactMeaning(selector[1..], id[1..]);
        assert id == [id[0]] + id[1..] && selector == [selector[0]] + selector[1..];
      }
    }
  }

  /** A parsed selector matches exactly the ids it means. */
  method SelectorMatches(selector: RuleSelector, id: string) returns (matched: bool)
    requires Parsed(selector)
    ensures matched <==> Means(selector.raw, id)
  {
    if selector.pattern.None? {
      ExactMeaning(selector.raw, id);
      return id == selector.raw;
    }
    ParsedIsWellFormed(selector.raw);
    SegmentsMeanSelector(selector.raw, id);
    matched := Matches(selector.pattern.value, id);
  }

  datatype Confidence = High | Medium | Low

  function Rank(c: Confidence): nat {
    match c case High => 0 case Medium => 1 case Low => 2
  }

  datatype Baseline = All | Nothing | MinimumConfidence(confidence: Confidence)

  datatype RuleOverride = RuleOverride(selector: RuleSelector, enabled: bool)

  datatype Rule = Rule(id: string, confidence: Confidence)

  datatype Selection = Selection(baseline: Baseline, overrides: seq<RuleOverride>)

  datatype ConfigError = UnknownRule(id: string) | InvalidSelector(selector: string)

  ghost predicate AllParsed(overrides: seq<RuleOverride>) {
    forall k :: 0 <= k < |overrides| ==> Parsed(overrides[k].selector)
  }

  predicate InBaseline(baseline: Baseline, rule: Rule) {
    match baseline
    case All => true
    case Nothing => false
    case MinimumConfidence(minimum) => Rank(rule.confidence) <= Rank(minimum)
  }

  ghost predicate Applies(override_: RuleOverride, rule: Rule) {
    Means(override_.selector.raw, rule.id)
  }

  /** The override's selector means some rule of the catalog. */
  ghost predicate MeansSome(override_: RuleOverride, rules: seq<Rule>) {
    exists i :: 0 <= i < |rules| && Means(override_.selector.raw, rules[i].id)
  }

  /** The last override that applies decides; without one the baseline does. */
  ghost predicate IsEnabled(selection: Selection, rule: Rule) {
    var overrides := selection.overrides;
    || (exists k :: 0 <= k < |overrides| && Applies(overrides[k], rule) && overrides[k].enabled
                    && forall j :: k < j < |overrides| ==> !Applies(overrides[j], rule))
    || (InBaseline(selection.baseline, rule) && forall j :: 0 <= j < |overrides| ==> !Applies(overrides[j], rule))
  }

  /** The inner loop of `Evaluate`: one rule against all overrides. */
  method EvaluateRule(selection: Selection, rule: Rule, matched: seq<bool>) returns (state: bool, marked: seq<bool>)
    requires AllParsed(selection.overrides) && |matched| == |selection.overrides|
    ensures state <==> IsEnabled(selection, rule)
    ensures |marked| == |matched|
    ensures forall k :: 0 <= k < |matched| ==>
              (marked[k] <==> matched[k] || Applies(selection.overrides[k], rule))
  {
    var overrides := selection.overrides;
    marked, state := matched, InBaseline(selection.baseline, rule);
    for k := 0 to |overrides|
      invariant |marked| == |matched|
      invariant forall j :: 0 <= j < k ==> (marked[j] <==> matched[j] || Applies(overrides[j], rule))
      invariant forall j :: k <= j < |matched| ==> marked[j] == matched[j]
      invariant state <==> IsEnabled(Selection(selection.baseline, overrides[..k]), rule)
    {
      var applies := SelectorMatches(overrides[k].selector, rule.id);
      LastOverrideDecides(selection.baseline, overrides, k, rule);
      if applies {
        marked := marked[k := true];
        state := overrides[k].enabled;
      }
    }
    assert overrides[..|overrides|] == overrides;
  }

  lemma LastOverrideDecides(baseline: Baseline, overrides: seq<RuleOverride>, k: nat, rule: Rule)
    requires k < |overrides|
    ensures IsEnabled(Selection(baseline, overrides[..k + 1]), rule) <==>
            if Applies(overrides[k], rule) then overrides[k].enabled
            else IsEnabled(Selection(baseline, overrides[..k]), rule)
  {
    var longer, shorter := overrides[..k + 1], overrides[..k];
    assert forall j :: 0 <= j < k ==> longer[j] == shorter[j];
    assert longer[k] == overrides[k];
  }

  /** `enabled` lists the enabled rules among the first `n`, in ascending order. */
  ghost predicate EnabledUpTo(selection: Selection, rules: seq<Rule>, n: nat, enabled: seq<nat>)
    requires AllParsed(selection.overrides) && n <= |rules|
  {
    && (forall j, k :: 0 <= j < k < |enabled| ==> enabled[j] < enabled[k])
    && (forall j :: j in enabled <==> 0 <= j < n && IsEnabled(selection, rules[j]))
  }

  lemma EnabledGrows(selection: Selection, rules: seq<Rule>, n: nat, enabled: seq<nat>)
    requires AllParsed(selection.overrides) && n < |rules| && EnabledUpTo(selection, rules, n, enabled)
    ensures EnabledUpTo(selection, rules, n + 1, if IsEnabled(selection, rules[n]) then enabled + [n] else enabled)
  {
    assert forall k :: 0 <= k < |enabled| ==> enabled[k] in enabled;
  }

  ghost predicate AppliesBefore(override_: RuleOverride, rules: seq<Rule>, n: nat)
    requires n <= |rules|
  {
    exists j :: 0 <= j < n && Applies(override_, rules[j])
  }

  /** The overrides marked are those that apply to one of the first `n` rules. */
  ghost predicate MatchedUpTo(overrides: seq<RuleOverride>, rules: seq<Rule>, n: nat, matched: seq<bool>)
    requires n <= |rules|
  {
    && |matched| == |overrides|
    && forall k :: 0 <= k < |matched| ==> (matched[k] <==> AppliesBefore(overrides[k], rules, n))
  }

  lemma MatchedGrows(overrides: seq<RuleOverride>, rules: seq<Rule>, n: nat, matched: seq<bool>, marked: seq<bool>)
    requires n < |rules| && MatchedUpTo(overrides, rules, n, matched) && |marked| == |matched|
    requires forall k :: 0 <= k < |matched| ==> (marked[k] <==> matched[k] || Applies(overrides[k], rules[n]))
    ensures MatchedUpTo(overrides, rules, n + 1, marked)
  {
    forall k | 0 <= k < |marked|
      ensures marked[k] <==> AppliesBefore(overrides[k], rules, n + 1)
    {
      assert matched[k] <==> AppliesBefore(overrides[k], rules, n);
    }
  }

  lemma NothingEvaluated(selection: Selection, rules: seq<Rule>, matched: seq<bool>)
    requires AllParsed(selection.overrides) && |matched| == |selection.overrides|
    requires forall k :: 0 <= k < |matched| ==> !matched[k]
    ensures MatchedUpTo(selection.overrides, rules, 0, matched) && EnabledUpTo(selection, rules, 0, [])
  {
  }

  lemma EverythingEvaluated(selection: Selection, rules: seq<Rule>, matched: seq<bool>, enabled: seq<nat>)
    requires AllParsed(selection.overrides)
    requires MatchedUpTo(selection.overrides, rules, |rules|, matched)
    requires EnabledUpTo(selection, rules, |rules|, enabled)
    ensures |matched| == |selection.overrides|
    ensures forall k :: 0 <= k < |matched| ==> (matched[k] <==> MeansSome(selection.overrides[k], rules))
    ensures forall j, k :: 0 <= j < k < |enabled| ==> enabled[j] < enabled[k]
    ensures forall i :: i in enabled <==> 0 <= i < |rules| && IsEnabled(selection, rules[i])
  {
    forall k | 0 <= k < |matched|
      ensures matched[k] <==> MeansSome(selection.overrides[k], rules)
    {
      assert matched[k] <==> AppliesBefore(selection.overrides[k], rules, |rules|);
    }
  }

  /** The loop of `Evaluate`. */
  method EvaluateAll(selection: Selection, rules: seq<Rule>) returns (matched: seq<bool>, enabled: seq<nat>)
    requires AllParsed(selection.overrides)
    ensures MatchedUpTo(selection.overrides, rules, |rules|, matched)
    ensures EnabledUpTo(selection, rules, |rules|, enabled)
  {
    matched := seq(|selection.overrides|, _ => false);
    enabled := [];
    NothingEvaluated(selection, rules, matched);
    for i := 0 to |rules|
      invariant MatchedUpTo(selection.overrides, rules, i, matched)
      invariant EnabledUpTo(selection, rules, i, enabled)
    {
      EnabledGrows(selection, rules, i, enabled);
      var state, marked := EvaluateRule(selection, rules[i], matched);
      MatchedGrows(selection.overrides, rules, i, matched, marked);
      matched := marked;
      if state {
        enabled := enabled + [i];
      }
    }
  }

  /** Confidence is the better the stronger the evidence: a minimum lets through what
      is at least as strong. */
  ghost predicate MeetsBaseline(baseline: Baseline, confidence: Confidence) {
    || baseline == All
    || baseline == MinimumConfidence(Low)
    || (baseline == MinimumConfidence(Medium) && confidence != Low)
    || (baseline == MinimumConfidence(High) && confidence == High)
  }

  /** Override `k` is the last one whose selector means the rule. */
  ghost predicate DecidedBy(overrides: seq<RuleOverride>, k: int, rule: Rule) {
    && 0 <= k < |overrides| && Means(overrides[k].selector.raw, rule.id)
    && forall j :: k < j < |overrides| ==> !Means(overrides[j].selector.raw, rule.id)
  }

  /** No override's selector means the rule. */
  ghost predicate Undecided(overrides: seq<RuleOverride>, rule: Rule) {
    forall j :: 0 <= j < |overrides| ==> !Means(overrides[j].selector.raw, rule.id)
  }

  /** The verdict on one rule, written out. */
  lemma VerdictOnRule(selection: Selection, rule: Rule)
    ensures forall k :: DecidedBy(selection.overrides, k, rule) ==>
              (IsEnabled(selection, rule) <==> selection.overrides[k].enabled)
    ensures Undecided(selection.overrides, rule) ==>
              (IsEnabled(selection, rule) <==> MeetsBaseline(selection.baseline, rule.confidence))
  {
    var overrides := selection.overrides;
    forall k | DecidedBy(overrides, k, rule)
      ensures IsEnabled(selection, rule) <==> overrides[k].enabled
    {
      assert Applies(overrides[k], rule);
    }
  }

  /** A stricter minimum enables a part of what a weaker one does, whatever the
      overrides. */
  lemma StricterEnablesFewer(overrides: seq<RuleOverride>, strict: Confidence, weak: Confidence, rule: Rule)
    requires strict == weak || strict == High || weak == Low
    requires IsEnabled(Selection(MinimumConfidence(strict), overrides), rule)
    ensures IsEnabled(Selection(MinimumConfidence(weak), overrides), rule)
  {}

  /** The enabled rules, in ascending order, and which overrides matched. */
  method Evaluate(selection: Selection, rules: seq<Rule>) returns (matched: seq<bool>, enabled: seq<nat>)
    requires AllParsed(selection.overrides)
    ensures |matched| == |selection.overrides|
    ensures forall k :: 0 <= k < |matched| ==> (matched[k] <==> MeansSome(selection.overrides[k], rules))
    ensures forall j, k :: 0 <= j < k < |enabled| ==> enabled[j] < enabled[k]
    ensures forall i :: i in enabled <==> 0 <= i < |rules| && IsEnabled(selection, rules[i])
    // Written out: the last override whose selector means the rule decides...
    ensures forall i, k :: 0 <= i < |rules| && DecidedBy(selection.overrides, k, rules[i]) ==>
              (i in enabled <==> selection.overrides[k].enabled)
    // ... and where there is none, the baseline.
    ensures forall i :: 0 <= i < |rules| && Undecided(selection.overrides, rules[i]) ==>
              (i in enabled <==> MeetsBaseline(selection.baseline, rules[i].confidence))
  {
    matched, enabled := EvaluateAll(selection, rules);
    EverythingEvaluated(selection, rules, matched, enabled);
    forall i | 0 <= i < |rules| {
      VerdictOnRule(selection, rules[i]);
    }
  }

  /** Succeeds when every override matched; otherwise names the first that did not. */
  method ValidateOverrideMatches(overrides: seq<RuleOverride>, matched: seq<bool>) returns (r: Option<ConfigError>)
    requires |matched| == |overrides| && AllParsed(overrides)
    ensures r.None? <==> forall k :: 0 <= k < |overrides| ==> matched[k]
    ensures r.Some? ==> exists k ::
              && 0 <= k < |overrides| && !matched[k] && (forall j :: 0 <= j < k ==> matched[j])
              && r.value == (if '*' in overrides[k].selector.raw then InvalidSelector(overrides[k].selector.raw)
                             else UnknownRule(overrides[k].selector.raw))
  {
    for k := 0 to |overrides|
      invariant forall j :: 0 <= j < k ==> matched[j]
    {
      if matched[k] {
        continue;
      }
      if overrides[k].selector.pattern.None? {
        return Some(UnknownRule(overrides[k].selector.raw));
      }
      return Some(InvalidSelector(overrides[k].selector.raw));
    }
    r := None;
  }

  /** Resolving a selection succeeds exactly when every override's selector means some
      rule, and then yields the enabled rules in catalog order; otherwise it names the
      first selector that means none. */
  method Resolve(selection: Selection, rules: seq<Rule>) returns (r: Result<seq<nat>, ConfigError>)
    requires AllParsed(selection.overrides)
    ensures r.Success? <==> forall k :: 0 <= k < |selection.overrides| ==> MeansSome(selection.overrides[k], rules)
    ensures r.Success? ==>
              && (forall i :: i in r.value <==> 0 <= i < |rules| && IsEnabled(selection, rules[i]))
              && (forall j, k :: 0 <= j < k < |r.value| ==> r.value[j] < r.value[k])
    ensures r.Failure? ==> exists k ::
              && 0 <= k < |selection.overrides| && !MeansSome(selection.overrides[k], rules)
              && (forall j :: 0 <= j < k ==> MeansSome(selection.overrides[j], rules))
              && var raw := selection.overrides[k].selector.raw;
                 r.error == if '*' in raw then InvalidSelector(raw) else UnknownRule(raw)
  {
    var matched, enabled := Evaluate(selection, rules);
    var error := ValidateOverrideMatches(selection.overrides, matched);
    r := if error.Some? then Failure(error.value) else Success(enabled);
  }
}
