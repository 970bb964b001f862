/** Lexical normalization of project paths and of targets outside the project. */
module ProjectInput {
  import opened Wrappers
  import opened Strings

  datatype InvalidPath = InvalidPath(original: string)

  predicate IsAsciiAlphabetic(c: char) {
    'a' <= c <= 'z' || 'A' <= c <= 'Z'
  }

  /** POSIX root, drive root (`C:/`) or UNC prefix, after backslashes became slashes. */
  predicate IsAbsoluteForm(path: string) {
    || (0 < |path| && path[0] == '/')
    || (3 <= |path| && IsAsciiAlphabetic(path[0]) && path[1] == ':' && path[2] == '/')
  }

  predicate IsDrivePrefix(s: string) {
    |s| == 2 && IsAsciiAlphabetic(s[0]) && s[1] == ':'
  }

  // ----- normalize_outside_target -----

  /** One segment of the path, applied to the segments kept so far. */
  function Step(kept: seq<string>, part: string, absolute: bool): seq<string> {
    if part == "" || part == "." then kept
    else if part != ".." then kept + [part]
    else if absolute then
      if kept != [] && kept[|kept| - 1] != ".." && !IsDrivePrefix(kept[|kept| - 1])
      then kept[..|kept| - 1] else kept
    else if kept != [] && kept[|kept| - 1] != ".." then kept[..|kept| - 1]
    else kept + [part]
  }

  function Reduce(parts: seq<string>, absolute: bool): seq<string> {
    if parts == [] then []
    else Step(Reduce(parts[..|parts| - 1], absolute), parts[|parts| - 1], absolute)
  }

  function Slashed(path: string): string {
    ReplaceChar(path, '\\', '/')
  }

  function OutsideSegments(path: string): seq<string> {
    Reduce(Split(Slashed(path), '/'), IsAbsoluteForm(Slashed(path)))
  }

  function Rendered(leadingSlash: bool, parts: seq<string>): string {
    if leadingSlash then "/" + Join(parts, '/') else Join(parts, '/')
  }

  function OutsideTarget(path: string): Result<string, InvalidPath> {
    if path == "" || '\0' in path || OutsideSegments(path) == [] then Failure(InvalidPath(path))
    else Success(Rendered(Slashed(path)[0] == '/', OutsideSegments(path)))
  }

  method NormalizeOutsideTarget(path: string) returns (r: Result<string, InvalidPath>)
    ensures r == OutsideTarget(path)
  {
    var slashed := ReplaceChar(path, '\\', '/');
    if slashed == "" || '\0' in slashed {
      assert '\0' in slashed ==> '\0' in path;
      return Failure(InvalidPath(path));
    }
    assert forall k :: 0 <= k < |path| ==> (slashed[k] == '\0' <==> path[k] == '\0');
    var absolute := IsAbsoluteForm(slashed);
    var hadLeadingSlash := slashed[0] == '/';
    var segments := Split(slashed, '/');
    var parts: seq<string> := [];
    for k := 0 to |segments|
      invariant parts == Reduce(segments[..k], absolute)
    {
      var part := segments[k];
      assert segments[..k + 1][..k] == segments[..k];
      if part == "" || part == "." {
        continue;
      }
      if part == ".." {
        if absolute {
          if parts != [] && parts[|parts| - 1] != ".." && !IsDrivePrefix(parts[|parts| - 1]) {
            parts := parts[..|parts| - 1];
          }
          continue;
        }
        if parts != [] && parts[|parts| - 1] != ".." {
          parts := parts[..|parts| - 1];
        } else {
          parts := parts + [part];
        }
      } else {
        parts := parts + [part];
      }
    }
    assert segments[..|segments|] == segments;
    if parts == [] {
      return Failure(InvalidPath(path));
    }
    r := Success(if hadLeadingSlash then "/" + Join(parts, '/') else Join(parts, '/'));
  }

  /** Real segments only; parent steps form a leading run, which is empty in an
      absolute path. */
  ghost predicate Canonical(parts: seq<string>, absolute: bool) {
    && (forall k :: 0 <= k < |parts| ==>
          parts[k] != "" && parts[k] != "." && '/' !in parts[k] && '\\' !in parts[k] && '\0' !in parts[k])
    && (absolute ==> forall k :: 0 <= k < |parts| ==> parts[k] != "..")
    && (forall j, k :: 0 <= j < k < |parts| && parts[k] == ".." ==> parts[j] == "..")
  }

  lemma {:induction false} ReduceIsCanonical(parts: seq<string>, absolute: bool)
    requires forall k :: 0 <= k < |parts| ==> '/' !in parts[k] && '\\' !in parts[k] && '\0' !in parts[k]
    ensures Canonical(Reduce(parts, absolute), absolute)
  {
    if parts != [] {
      ReduceIsCanonical(parts[..|parts| - 1], absolute);
    }
  }

  lemma {:induction false} ReduceKeepsCanonical(parts: seq<string>, absolute: bool)
    requires Canonical(parts, absolute)
    ensures Reduce(parts, absolute) == parts
  {
    if parts != [] {
      var init := parts[..|parts| - 1];
      ReduceKeepsCanonical(init, absolute);
      assert parts[|parts| - 1] == ".." && init != [] ==> init[|init| - 1] == "..";
    }
  }

  lemma {:induction false} ReduceSkipsFirst(skipped: string, parts: seq<string>, absolute: bool)
    requires !RealSegment(skipped)
    ensures Reduce([skipped] + parts, absolute) == Reduce(parts, absolute)
  {
    var padded := [skipped] + parts;
    if parts == [] {
      assert padded[..0] == [];
    } else {
      assert padded[..|padded| - 1] == [skipped] + parts[..|parts| - 1];
      ReduceSkipsFirst(skipped, parts[..|parts| - 1], absolute);
    }
  }

  lemma SegmentsAreCanonical(path: string)
    requires '\0' !in path
    ensures Canonical(OutsideSegments(path), IsAbsoluteForm(Slashed(path)))
  {
    var parts := Split(Slashed(path), '/');
    forall k: nat, c | k < |parts| && c in parts[k]
      ensures c != '\\' && c != '\0'
    {
      SplitChars(Slashed(path), '/', k, c);
    }
    SplitParts(Slashed(path), '/');
    assert forall k :: 0 <= k < |parts| ==> parts[k] in parts;
    ReduceIsCanonical(parts, IsAbsoluteForm(Slashed(path)));
  }

  lemma RenderedSplits(leadingSlash: bool, parts: seq<string>)
    requires parts != [] && forall k :: 0 <= k < |parts| ==> '/' !in parts[k]
    ensures Split(Rendered(leadingSlash, parts), '/') == (if leadingSlash then [""] else []) + parts
  {
    SplitJoin(parts, '/');
    if leadingSlash {
      SplitAtFirst("", '/', Join(parts, '/'));
      assert "" + ['/'] + Join(parts, '/') == Rendered(true, parts);
    } else {
      assert [] + parts == parts;
    }
  }

  /** Every accepted target is a rendering of canonical segments: no empty or `.`
      segment, no `..` at all for an absolute input, only leading ones otherwise.
      The segments can be read back from the output. */
  lemma OutputShape(path: string)
    requires OutsideTarget(path).Success?
    ensures Canonical(OutsideSegments(path), IsAbsoluteForm(Slashed(path)))
    ensures Split(OutsideTarget(path).value, '/') ==
            (if Slashed(path)[0] == '/' then [""] else []) + OutsideSegments(path)
  {
    SegmentsAreCanonical(path);
    RenderedSplits(Slashed(path)[0] == '/', OutsideSegments(path));
  }

  /** The first characters of a relative rendering are those of its first segment. */
  lemma RelativeHead(parts: seq<string>)
    requires 0 < |parts| && Canonical(parts, false)
    ensures Join(parts, '/') != "" && Join(parts, '/')[0] != '/'
    ensures IsAbsoluteForm(Join(parts, '/')) <==> 1 < |parts| && IsDrivePrefix(parts[0])
  {
    var out := Join(parts, '/');
    if 1 < |parts| {
      assert out == parts[0] + ['/'] + Join(parts[1..], '/');
      assert out[|parts[0]|] == '/';
      assert forall k :: 0 <= k < |parts[0]| ==> out[k] == parts[0][k] && parts[0][k] != '/';
      if parts[0] == "." || parts[0] == ".." { }
      if 1 < |parts| && IsDrivePrefix(parts[0]) {
        assert |out| >= 3;
      }
    }
  }

  lemma OutputCharacters(path: string)
    requires OutsideTarget(path).Success?
    ensures '\\' !in OutsideTarget(path).value && '\0' !in OutsideTarget(path).value
    ensures OutsideTarget(path).value != ""
  {
    SegmentsAreCanonical(path);
    var parts := OutsideSegments(path);
    forall c | c in Join(parts, '/')
      ensures c != '\\' && c != '\0'
    {
      JoinChars(parts, '/', c);
    }
  }

  /** The output keeps its leading slash, and an output in absolute form has no
      parent steps. */
  lemma RelativeHeadOrSlash(path: string)
    requires OutsideTarget(path).Success?
    ensures var out, parts := OutsideTarget(path).value, OutsideSegments(path);
            && out != "" && (out[0] == '/' <==> Slashed(path)[0] == '/')
            && Canonical(parts, IsAbsoluteForm(out))
  {
    SegmentsAreCanonical(path);
    var out, parts := OutsideTarget(path).value, OutsideSegments(path);
    if Slashed(path)[0] != '/' {
      RelativeHead(parts);
      assert out == Join(parts, '/');
      assert parts[0] == ".." ==> !IsDrivePrefix(parts[0]);
    }
  }

  /** Normalizing twice is normalizing once. */
  lemma NormalizeOutsideIsIdempotent(path: string)
    requires OutsideTarget(path).Success?
    ensures OutsideTarget(OutsideTarget(path).value) == OutsideTarget(path)
  {
    var out, parts := OutsideTarget(path).value, OutsideSegments(path);
    var leading := Slashed(path)[0] == '/';
    OutputShape(path);
    OutputCharacters(path);
    ReplaceCharAbsent(out, '\\', '/');
    RelativeHeadOrSlash(path);
    assert OutsideSegments(out) == parts by {
      if leading {
        ReduceSkipsFirst("", parts, true);
        ReduceKeepsCanonical(parts, true);
      } else {
        assert [] + parts == parts;
        ReduceKeepsCanonical(parts, IsAbsoluteForm(out));
      }
    }
  }

  // ----- Absoluteness, told from the input -----

  /** The segments of the input that name something. */
  function RawSegments(path: string): seq<string> {
    KeepReal(Split(Slashed(path), '/'))
  }

  lemma ReduceSnoc(init: seq<string>, last: string, absolute: bool)
    ensures Reduce(init + [last], absolute) == Step(Reduce(init, absolute), last, absolute)
  {
    assert (init + [last])[..|init|] == init;
  }

  lemma {:induction false} ReduceSkipsEmpty(parts: seq<string>, absolute: bool)
    ensures Reduce(parts, absolute) == Reduce(KeepReal(parts), absolute)
  {
    if parts != [] {
      var init, last := parts[..|parts| - 1], parts[|parts| - 1];
      ReduceSkipsEmpty(init, absolute);
      assert parts == init + [last];
      KeepRealSnoc(init, last);
      if RealSegment(last) {
        ReduceSnoc(KeepReal(init), last, absolute);
      } else {
        assert KeepReal(parts) == KeepReal(init);
      }
    }
  }

  /** Names go one level up, `..` one level down but not below zero. */
  function Height(parts: seq<string>): nat {
    if parts == [] then 0
    else
      var before := Height(parts[..|parts| - 1]);
      if parts[|parts| - 1] != ".." then before + 1 else if before == 0 then 0 else before - 1
  }

  predicate NamesDrive(parts: seq<string>) {
    exists k :: 0 <= k < |parts| && IsDrivePrefix(parts[k])
  }

  /** Below a drive, what remains is counted by the height; a further drive is
      never removed. */
  lemma {:induction false} ReduceBelowDrive(drive: string, rest: seq<string>)
    requires IsDrivePrefix(drive) && forall k :: 0 <= k < |rest| ==> RealSegment(rest[k])
    ensures var r := Reduce([drive] + rest, true);
            && r != [] && r[0] == drive && ".." !in r && (NamesDrive(rest) <==> NamesDrive(r[1..]))
            && (!NamesDrive(rest) ==> |r| == 1 + Height(rest))
  {
    if rest == [] {
      ReduceSnoc([], drive, true);
      assert [drive] + rest == [] + [drive];
      assert Reduce([drive] + rest, true) == [drive];
    } else {
      var init, last := rest[..|rest| - 1], rest[|rest| - 1];
      ReduceBelowDrive(drive, init);
      assert rest == init + [last] && [drive] + rest == [drive] + init + [last];
      ReduceSnoc([drive] + init, last, true);
      DriveSnoc(init, last);
      StepBelowDrive(Reduce([drive] + init, true), last);
    }
  }

  lemma StepBelowDrive(kept: seq<string>, part: string)
    requires kept != [] && IsDrivePrefix(kept[0]) && ".." !in kept && RealSegment(part)
    ensures var r := Step(kept, part, true);
            && r != [] && r[0] == kept[0] && ".." !in r
            && (NamesDrive(r[1..]) <==> NamesDrive(kept[1..]) || IsDrivePrefix(part))
            && (part != ".." ==> |r| == |kept| + 1)
            && (part == ".." && !NamesDrive(kept[1..]) ==> |r| == if |kept| == 1 then 1 else |kept| - 1)
  {
    var r, top := Step(kept, part, true), kept[|kept| - 1];
    if part != ".." {
      assert r[1..] == kept[1..] + [part];
      DriveSnoc(kept[1..], part);
    } else if 1 < |kept| {
      assert kept[1..] == kept[1..|kept| - 1] + [top];
      DriveSnoc(kept[1..|kept| - 1], top);
      if !IsDrivePrefix(top) {
        assert r[1..] == kept[1..|kept| - 1];
      }
    }
  }

  lemma DriveSnoc(parts: seq<string>, last: string)
    ensures NamesDrive(parts + [last]) <==> NamesDrive(parts) || IsDrivePrefix(last)
  {
    var more := parts + [last];
    if NamesDrive(parts) {
      var k :| 0 <= k < |parts| && IsDrivePrefix(parts[k]);
      assert more[k] == parts[k];
    }
    assert more[|parts|] == last;
  }

  /** Names count up and `..` counts down, also below zero. */
  function Climb(parts: seq<string>): int {
    if parts == [] then 0
    else Climb(parts[..|parts| - 1]) + (if parts[|parts| - 1] == ".." then -1 else 1)
  }

  ghost predicate NeverBelow(parts: seq<string>) {
    forall j :: 0 <= j <= |parts| ==> 0 <= Climb(parts[..j])
  }

  /** Segment `k` starts at level zero, and the rest stays above it. */
  ghost predicate IsBase(parts: seq<string>, k: nat) {
    && k < |parts| && parts[k] != ".." && Climb(parts[..k]) == 0
    && forall j :: k < j <= |parts| ==> 0 < Climb(parts[..j])
  }

  /** A relative input whose remaining segments start with a drive prefix and go on. */
  ghost predicate HidesDrive(parts: seq<string>) {
    NeverBelow(parts) && 1 < Climb(parts) && exists k: nat :: IsBase(parts, k) && IsDrivePrefix(parts[k])
  }

  lemma NeverBelowSnoc(init: seq<string>, last: string)
    ensures NeverBelow(init + [last]) <==> NeverBelow(init) && 0 <= Climb(init + [last])
    ensures Climb(init + [last]) == Climb(init) + (if last == ".." then -1 else 1)
  {
    var parts := init + [last];
    assert parts[..|init|] == init && parts[..|parts|] == parts;
    assert forall j :: 0 <= j <= |init| ==> parts[..j] == init[..j];
  }

  lemma BaseSnoc(init: seq<string>, last: string, k: nat)
    requires IsBase(init + [last], k)
    ensures 0 < Climb(init + [last])
    ensures k == |init| ==> Climb(init) == 0 && last != ".."
    ensures k < |init| ==> IsBase(init, k) && 0 < Climb(init)
  {
    var parts := init + [last];
    assert parts[..|init|] == init && parts[..|parts|] == parts;
    assert forall j :: 0 <= j <= |init| ==> parts[..j] == init[..j];
    assert init[..|init|] == init;
  }

  lemma {:induction false} BaseExists(parts: seq<string>) returns (k: nat)
    requires NeverBelow(parts) && 0 < Climb(parts)
    ensures IsBase(parts, k)
  {
    var init, last := parts[..|parts| - 1], parts[|parts| - 1];
    assert parts == init + [last];
    NeverBelowSnoc(init, last);
    assert parts[..|init|] == init && parts[..|parts|] == parts;
    assert forall j :: 0 <= j <= |init| ==> parts[..j] == init[..j];
    if Climb(init) == 0 {
      k := |init|;
    } else {
      k := BaseExists(init);
    }
  }

  lemma {:induction false} ReduceRelative(parts: seq<string>)
    requires forall k :: 0 <= k < |parts| ==> RealSegment(parts[k])
    ensures NeverBelow(parts) ==>
              |Reduce(parts, false)| == Climb(parts) && ".." !in Reduce(parts, false)
    ensures !NeverBelow(parts) ==> Reduce(parts, false) != [] && Reduce(parts, false)[0] == ".."
    ensures forall k: nat :: NeverBelow(parts) && IsBase(parts, k) ==>
              Reduce(parts, false) != [] && Reduce(parts, false)[0] == parts[k]
  {
    if parts != [] {
      var init, last := parts[..|parts| - 1], parts[|parts| - 1];
      assert parts == init + [last];
      ReduceRelative(init);
      ReduceSnoc(init, last, false);
      NeverBelowSnoc(init, last);
      forall k: nat | NeverBelow(parts) && IsBase(parts, k)
        ensures Reduce(parts, false) != [] && Reduce(parts, false)[0] == parts[k]
      {
        BaseSnoc(init, last, k);
      }
    }
  }

  /** Absoluteness is not always kept. A drive is lost when nothing is left below
      it; a relative input turns absolute when it comes down to a hidden drive. */
  lemma OutputAbsoluteness(path: string)
    requires OutsideTarget(path).Success?
    ensures Slashed(path)[0] == '/' ==> IsAbsoluteForm(OutsideTarget(path).value)
    ensures Slashed(path)[0] != '/' && IsAbsoluteForm(Slashed(path)) ==>
              && RawSegments(path) != [] && IsDrivePrefix(RawSegments(path)[0])
              && (IsAbsoluteForm(OutsideTarget(path).value) <==>
                  NamesDrive(RawSegments(path)[1..]) || 0 < Height(RawSegments(path)[1..]))
    ensures !IsAbsoluteForm(Slashed(path)) ==>
              (IsAbsoluteForm(OutsideTarget(path).value) <==> HidesDrive(RawSegments(path)))
  {
    var raw, slashed := RawSegments(path), Slashed(path);
    ReduceSkipsEmpty(Split(slashed, '/'), IsAbsoluteForm(slashed));
    RawIsReal(path);
    if slashed[0] == '/' {
    } else if IsAbsoluteForm(slashed) {
      DriveComesFirst(slashed);
      ReduceBelowDrive(raw[0], raw[1..]);
      assert [raw[0]] + raw[1..] == raw;
      AbsoluteOutput(path);
    } else {
      ReduceRelative(raw);
      AbsoluteOutput(path);
      if NeverBelow(raw) && 0 < Climb(raw) {
        var k := BaseExists(raw);
      }
    }
  }

  lemma RawIsReal(path: string)
    ensures forall k :: 0 <= k < |RawSegments(path)| ==> RealSegment(RawSegments(path)[k])
  {
    KeepRealSource(Split(Slashed(path), '/'));
    assert forall k :: 0 <= k < |RawSegments(path)| ==> RawSegments(path)[k] in RawSegments(path);
  }

  lemma AbsoluteOutput(path: string)
    requires OutsideTarget(path).Success? && Slashed(path)[0] != '/'
    ensures IsAbsoluteForm(OutsideTarget(path).value) <==>
            1 < |OutsideSegments(path)| && IsDrivePrefix(OutsideSegments(path)[0])
  {
    SegmentsAreCanonical(path);
    RelativeHead(OutsideSegments(path));
    assert OutsideTarget(path).value == Join(OutsideSegments(path), '/');
  }

  lemma DriveComesFirst(slashed: string)
    requires IsAbsoluteForm(slashed) && slashed[0] != '/'
    ensures KeepReal(Split(slashed, '/')) != [] && IsDrivePrefix(KeepReal(Split(slashed, '/'))[0])
  {
    var drive := slashed[..2];
    assert slashed == drive + ['/'] + slashed[3..];
    SplitAtFirst(drive, '/', slashed[3..]);
  }

  lemma ParentOfDrive(drive: string, up: string)
    requires IsDrivePrefix(drive) && up == ".."
    ensures OutsideTarget(drive + ['/'] + up) == Success(drive) && IsAbsoluteForm(Slashed(drive + ['/'] + up))
  {
    var path := drive + ['/'] + up;
    ReplaceCharAbsent(path, '\\', '/');
    SplitAtFirst(drive, '/', up);
    SplitWhole(up, '/');
    ReduceSnoc([], drive, true);
    ReduceSnoc([drive], up, true);
    assert [] + [drive] == [drive] && Split(path, '/') == [drive] + [up];
  }

  /** Both ways of changing absoluteness do occur: the parent of a drive root, as
      in `C:/..`, loses it... */
  lemma DriveRootLosesAbsoluteness(drive: string)
    requires IsDrivePrefix(drive)
    ensures var path := drive + ['/'] + "..";
            IsAbsoluteForm(Slashed(path)) && OutsideTarget(path) == Success(drive) && !IsAbsoluteForm(drive)
  {
    ParentOfDrive(drive, "..");
  }

  /** ... and `./` in front of anything that looks like a drive root hides it. */
  lemma HiddenDriveGainsAbsoluteness(parts: seq<string>)
    requires Canonical(parts, true) && 1 < |parts| && IsDrivePrefix(parts[0])
    ensures var path := "." + ['/'] + Join(parts, '/');
            && !IsAbsoluteForm(Slashed(path))
            && OutsideTarget(path) == Success(Join(parts, '/'))
            && IsAbsoluteForm(Join(parts, '/'))
  {
    var out := Join(parts, '/');
    var path := "." + ['/'] + out;
    forall c | c in path
      ensures c != '\\' && c != '\0'
    {
      if c in out {
        JoinChars(parts, '/', c);
      }
    }
    ReplaceCharAbsent(path, '\\', '/');
    assert OutsideSegments(path) == parts by {
      SplitAtFirst(".", '/', out);
      SplitJoin(parts, '/');
      ReduceSkipsFirst(".", parts, false);
      ReduceKeepsCanonical(parts, false);
    }
    assert Canonical(parts, false);
    RelativeHead(parts);
  }

  lemma {:induction false} KeepRealIsReduce(parts: seq<string>, absolute: bool)
    requires ".." !in parts
    ensures KeepReal(parts) == Reduce(parts, absolute)
    decreases |parts|
  {
    if parts != [] {
      var init, last := parts[..|parts| - 1], parts[|parts| - 1];
      KeepRealIsReduce(init, absolute);
      KeepRealSnoc(init, last);
      assert parts == init + [last];
    }
  }

  // ----- Laws of the operation -----

  /** Both fail, or both succeed with the same target. */
  ghost predicate SameOutcome(a: Result<string, InvalidPath>, b: Result<string, InvalidPath>) {
    (a.Success? <==> b.Success?) && (a.Success? ==> a.value == b.value)
  }

  lemma ReduceBehind(init: seq<string>, rest: seq<string>, absolute: bool)
    requires rest != []
    ensures Reduce(init + rest, absolute)
         == Step(Reduce(init + rest[..|rest| - 1], absolute), rest[|rest| - 1], absolute)
  {
    assert (init + rest)[..|init + rest| - 1] == init + rest[..|rest| - 1];
  }

  lemma {:induction false} ReduceAlike(a: seq<string>, b: seq<string>, rest: seq<string>, absolute: bool)
    requires Reduce(a, absolute) == Reduce(b, absolute)
    ensures Reduce(a + rest, absolute) == Reduce(b + rest, absolute)
  {
    if rest == [] {
      assert a + rest == a && b + rest == b;
    } else {
      ReduceAlike(a, b, rest[..|rest| - 1], absolute);
      ReduceBehind(a, rest, absolute);
      ReduceBehind(b, rest, absolute);
    }
  }

  /** What stands behind a separator has no part in whether a path is absolute. */
  lemma FormOfHead(head: string, tail: string)
    ensures var p, q := head + ['/'], head + ['/'] + tail;
            (IsAbsoluteForm(Slashed(p)) <==> IsAbsoluteForm(Slashed(q))) && Slashed(p)[0] == Slashed(q)[0]
  {
    assert forall k :: 0 <= k <= |head| ==> (head + ['/'] + tail)[k] == (head + ['/'])[k];
  }

  lemma SegmentsOfConcat(head: string, tail: string)
    ensures OutsideSegments(head + ['/'] + tail) ==
            Reduce(Split(Slashed(head), '/') + Split(Slashed(tail), '/'), IsAbsoluteForm(Slashed(head + ['/'])))
  {
    FormOfHead(head, tail);
    SplitConcat(Slashed(head), '/', Slashed(tail));
    assert Slashed(head + ['/'] + tail) == Slashed(head) + ['/'] + Slashed(tail);
  }

  lemma OutcomesAlike(p: string, q: string)
    requires p != "" && q != "" && ('\0' in p <==> '\0' in q)
    requires (Slashed(p)[0] == '/' <==> Slashed(q)[0] == '/') && OutsideSegments(p) == OutsideSegments(q)
    ensures SameOutcome(OutsideTarget(p), OutsideTarget(q))
  {}

  /** Two heads after which the same segments are kept may stand for each other. */
  lemma HeadsAlike(a: string, b: string, y: string)
    requires '\0' in a <==> '\0' in b
    requires var p, q := Slashed(a + ['/']), Slashed(b + ['/']);
             && (p[0] == '/' <==> q[0] == '/') && IsAbsoluteForm(p) == IsAbsoluteForm(q)
             && Reduce(Split(Slashed(a), '/'), IsAbsoluteForm(p)) == Reduce(Split(Slashed(b), '/'), IsAbsoluteForm(q))
    ensures SameOutcome(OutsideTarget(a + ['/'] + y), OutsideTarget(b + ['/'] + y))
  {
    SegmentsOfConcat(a, y);
    SegmentsOfConcat(b, y);
    FormOfHead(a, y);
    FormOfHead(b, y);
    ReduceAlike(Split(Slashed(a), '/'), Split(Slashed(b), '/'), Split(Slashed(y), '/'),
                IsAbsoluteForm(Slashed(a + ['/'])));
    OutcomesAlike(a + ['/'] + y, b + ['/'] + y);
  }

  lemma MiddleInHead(x: string, middle: string)
    requires '\\' !in middle
    ensures Slashed(x + ['/'] + middle) == Slashed(x) + ['/'] + middle
    ensures var p, q := Slashed(x + ['/'] + middle + ['/']), Slashed(x + ['/']);
            IsAbsoluteForm(p) == IsAbsoluteForm(q) && p[0] == q[0]
  {
    FormOfHead(x, middle + ['/']);
    assert x + ['/'] + middle + ['/'] == x + ['/'] + (middle + ['/']);
  }

  /** A middle that leaves the segments kept so far alone may be left out. */
  lemma MiddleIsDropped(x: string, middle: string, y: string)
    requires '\\' !in middle && '\0' !in middle
    requires var absolute, before := IsAbsoluteForm(Slashed(x + ['/'])), Split(Slashed(x), '/');
             Reduce(before + Split(middle, '/'), absolute) == Reduce(before, absolute)
    ensures SameOutcome(OutsideTarget(x + ['/'] + middle + ['/'] + y), OutsideTarget(x + ['/'] + y))
  {
    MiddleInHead(x, middle);
    SplitConcat(Slashed(x), '/', middle);
    HeadsAlike(x + ['/'] + middle, x, y);
  }

  lemma StepOverTwo(parts: seq<string>, a: string, b: string, absolute: bool)
    ensures Reduce(parts + [a] + [b], absolute) == Step(Step(Reduce(parts, absolute), a, absolute), b, absolute)
  {
    ReduceSnoc(parts, a, absolute);
    ReduceSnoc(parts + [a], b, absolute);
  }

  /** An empty segment and a `.` change nothing. */
  lemma SkippedSegment(x: string, skipped: string, y: string)
    requires skipped == "" || skipped == "."
    ensures SameOutcome(OutsideTarget(x + ['/'] + skipped + ['/'] + y), OutsideTarget(x + ['/'] + y))
  {
    SplitWhole(skipped, '/');
    ReduceSnoc(Split(Slashed(x), '/'), skipped, IsAbsoluteForm(Slashed(x + ['/'])));
    MiddleIsDropped(x, skipped, y);
  }

  /** A name of one segment that a `..` behind it takes away. */
  predicate IsName(a: string) {
    a != "" && a != "." && a != ".." && '/' !in a && '\\' !in a && '\0' !in a
  }

  lemma TwoSegments(a: string, up: string)
    requires IsName(a) && up == ".."
    ensures Split(a + ['/'] + up, '/') == [a] + [up]
    ensures '\\' !in a + ['/'] + up && '\0' !in a + ['/'] + up
  {
    SplitAtFirst(a, '/', up);
    SplitWhole(up, '/');
  }

  /** A `..` takes away the name in front of it, wherever the two stand; in an
      absolute path a drive prefix is no such name. */
  lemma ParentCancelsName(x: string, a: string, y: string)
    requires IsName(a) && (IsAbsoluteForm(Slashed(x + ['/'])) ==> !IsDrivePrefix(a))
    ensures SameOutcome(OutsideTarget(x + ['/'] + a + ['/'] + ".." + ['/'] + y), OutsideTarget(x + ['/'] + y))
  {
    var before, absolute, up := Split(Slashed(x), '/'), IsAbsoluteForm(Slashed(x + ['/'])), "..";
    TwoSegments(a, up);
    StepOverTwo(before, a, up, absolute);
    assert before + [a] + [up] == before + ([a] + [up]);
    MiddleIsDropped(x, a + ['/'] + up, y);
    assert x + ['/'] + (a + ['/'] + up) + ['/'] + y == x + ['/'] + a + ['/'] + up + ['/'] + y;
  }

  /** At the start of a relative path a name and its `..` come to a `.`. */
  lemma ParentCancelsFirstName(a: string, y: string)
    requires IsName(a) && !IsDrivePrefix(a)
    ensures SameOutcome(OutsideTarget(a + ['/'] + ".." + ['/'] + y), OutsideTarget("." + ['/'] + y))
  {
    var up, dot := "..", ".";
    var head := a + ['/'] + up;
    TwoSegments(a, up);
    ReplaceCharAbsent(head, '\\', '/');
    ReplaceCharAbsent(dot, '\\', '/');
    SplitWhole(dot, '/');
    StepOverTwo([], a, up, false);
    ReduceSnoc([], dot, false);
    assert [] + [a] == [a] && [] + [dot] == [dot];
    FirstNameIsRelative(a, up + ['/']);
    assert a + ['/'] + (up + ['/']) == head + ['/'];
    HeadsAlike(head, dot, y);
  }

  lemma FirstNameIsRelative(a: string, rest: string)
    requires IsName(a) && !IsDrivePrefix(a)
    ensures !IsAbsoluteForm(Slashed(a + ['/'] + rest)) && Slashed(a + ['/'] + rest)[0] != '/'
  {
    assert forall k :: 0 <= k < |a| ==> (a + ['/'] + rest)[k] == a[k];
  }

  /** A `..` right behind the root is dropped... */
  lemma ParentOfRootIsDropped(y: string)
    ensures SameOutcome(OutsideTarget(['/'] + ".." + ['/'] + y), OutsideTarget(['/'] + y))
  {
    var none, up := "", "..";
    SplitWhole(none, '/');
    SplitWhole(up, '/');
    ReduceSnoc([], none, true);
    ReduceSnoc([none], up, true);
    assert [] + [none] == [none];
    MiddleIsDropped(none, up, y);
    assert none + ['/'] + up + ['/'] + y == ['/'] + up + ['/'] + y && none + ['/'] + y == ['/'] + y;
  }

  /** ... and so is one behind a drive prefix in an absolute path. */
  lemma ParentOfDriveIsDropped(x: string, drive: string, y: string)
    requires IsDrivePrefix(drive) && (x == "" || x[|x| - 1] == '/') && IsAbsoluteForm(Slashed(x + drive + ['/']))
    ensures SameOutcome(OutsideTarget(x + drive + ['/'] + ".." + ['/'] + y), OutsideTarget(x + drive + ['/'] + y))
  {
    var up := "..";
    var above := EndsInSegment(x, drive);
    SplitWhole(up, '/');
    ReduceSnoc(above, drive, true);
    ReduceSnoc(above + [drive], up, true);
    MiddleIsDropped(x + drive, up, y);
  }

  lemma EndsInSegment(x: string, last: string) returns (above: seq<string>)
    requires '/' !in last && '\\' !in last && (x == "" || x[|x| - 1] == '/')
    ensures Split(Slashed(x + last), '/') == above + [last]
  {
    ReplaceCharAbsent(last, '\\', '/');
    SplitWhole(last, '/');
    if x == "" {
      above := [];
      assert x + last == last && above + [last] == [last];
    } else {
      var head := x[..|x| - 1];
      above := Split(Slashed(head), '/');
      assert x + last == head + ['/'] + last;
      assert Slashed(x + last) == Slashed(head) + ['/'] + last;
      SplitConcat(Slashed(head), '/', last);
    }
  }

  /** A separator at the end changes nothing. */
  lemma TrailingSeparator(path: string)
    ensures SameOutcome(OutsideTarget(path + ['/']), OutsideTarget(path))
  {
    var slashed := Slashed(path);
    var parts := Split(slashed, '/');
    assert Slashed(path + ['/']) == slashed + ['/'] + [];
    SplitConcat(slashed, '/', []);
    ReduceSnoc(parts, [], IsAbsoluteForm(slashed + ['/'] + []));
    if IsAbsoluteForm(slashed + ['/'] + []) != IsAbsoluteForm(slashed) {
      assert path == "" || IsDrivePrefix(slashed);
      SplitWhole(slashed, '/');
      ReduceSnoc([], slashed, true);
      ReduceSnoc([], slashed, false);
      assert [] + [slashed] == [slashed];
    }
  }

  /** Where no `..` occurs, the segments that name something are all kept. */
  lemma NamesAreKept(path: string)
    requires ".." !in Split(Slashed(path), '/')
    ensures OutsideSegments(path) == RawSegments(path)
  {
    KeepRealIsReduce(Split(Slashed(path), '/'), IsAbsoluteForm(Slashed(path)));
  }

  lemma RenderedCharacters(leadingSlash: bool, parts: seq<string>, absolute: bool)
    requires Canonical(parts, absolute)
    ensures Slashed(Rendered(leadingSlash, parts)) == Rendered(leadingSlash, parts)
    ensures '\0' !in Rendered(leadingSlash, parts)
  {
    forall c | c in Join(parts, '/')
      ensures c != '\\' && c != '\0'
    {
      JoinChars(parts, '/', c);
    }
    ReplaceCharAbsent(Rendered(leadingSlash, parts), '\\', '/');
  }

  lemma SegmentsStay(path: string, skipped: seq<string>, parts: seq<string>)
    requires Slashed(path) == path && Canonical(parts, IsAbsoluteForm(path))
    requires Split(path, '/') == skipped + parts && (skipped == [] || skipped == [""])
    ensures OutsideSegments(path) == parts
  {
    ReduceKeepsCanonical(parts, IsAbsoluteForm(path));
    if skipped == [] {
      assert skipped + parts == parts;
    } else {
      ReduceSkipsFirst(skipped[0], parts, IsAbsoluteForm(path));
    }
  }

  /** Where no law applies any more the path is its own target: names only, in a
      relative path behind a run of `..`. */
  lemma CanonicalStays(leadingSlash: bool, parts: seq<string>)
    requires parts != [] && Canonical(parts, IsAbsoluteForm(Rendered(leadingSlash, parts)))
    ensures OutsideTarget(Rendered(leadingSlash, parts)) == Success(Rendered(leadingSlash, parts))
  {
    var path := Rendered(leadingSlash, parts);
    RenderedCharacters(leadingSlash, parts, IsAbsoluteForm(path));
    RenderedSplits(leadingSlash, parts);
    SegmentsStay(path, if leadingSlash then [""] else [], parts);
    if !leadingSlash {
      assert Canonical(parts, false);
      RelativeHead(parts);
    }
  }

  // ----- normalize_relative -----

  function RelativeSegments(path: string): seq<string> {
    KeepReal(Split(Slashed(path), '/'))
  }

  function NormalizeRelative(path: string): Result<string, InvalidPath> {
    var slashed := Slashed(path);
    if slashed == "" || IsAbsoluteForm(slashed) || '\0' in slashed || ".." in Split(slashed, '/') then
      Failure(InvalidPath(path))
    else if RelativeSegments(path) == [] then Failure(InvalidPath(path))
    else Success(Join(RelativeSegments(path), '/'))
  }

  lemma RelativeSegmentsAreCanonical(path: string)
    requires NormalizeRelative(path).Success?
    ensures Canonical(RelativeSegments(path), true) && RelativeSegments(path) != []
  {
    var parts := Split(Slashed(path), '/');
    forall k: nat, c | k < |parts| && c in parts[k]
      ensures c != '\\' && c != '\0'
    {
      SplitChars(Slashed(path), '/', k, c);
    }
    SplitParts(Slashed(path), '/');
    KeepRealSource(parts);
    forall k | 0 <= k < |RelativeSegments(path)|
      ensures RealSegment(RelativeSegments(path)[k]) && RelativeSegments(path)[k] in parts
    {
      assert RelativeSegments(path)[k] in RelativeSegments(path);
    }
  }

  /** A relative path normalizes to itself the second time exactly when its first
      segment does not turn into a drive root, as in `./C:/x`. */
  lemma NormalizeRelativeIdempotence(path: string)
    requires NormalizeRelative(path).Success?
    ensures NormalizeRelative(NormalizeRelative(path).value) == NormalizeRelative(path) <==>
            !(1 < |RelativeSegments(path)| && IsDrivePrefix(RelativeSegments(path)[0]))
  {
    var parts := RelativeSegments(path);
    var out := Join(parts, '/');
    RelativeSegmentsAreCanonical(path);
    assert Canonical(parts, false);
    RelativeHead(parts);
    SplitJoin(parts, '/');
    forall c | c in out
      ensures c != '\\' && c != '\0'
    {
      JoinChars(parts, '/', c);
    }
    ReplaceCharAbsent(out, '\\', '/');
    KeepRealOfReal(parts);
  }

  lemma BehindDot(parts: seq<string>)
    requires Canonical(parts, true) && parts != []
    ensures Slashed(Join(parts, '/')) == Join(parts, '/')
    ensures Slashed("." + ['/'] + Join(parts, '/')) == "." + ['/'] + Join(parts, '/')
    ensures '\0' !in "." + ['/'] + Join(parts, '/')
    ensures Split("." + ['/'] + Join(parts, '/'), '/') == ["."] + parts
  {
    forall c | c in Join(parts, '/')
      ensures c != '\\' && c != '\0'
    {
      JoinChars(parts, '/', c);
    }
    ReplaceCharAbsent(Join(parts, '/'), '\\', '/');
    ReplaceCharAbsent("." + ['/'] + Join(parts, '/'), '\\', '/');
    SplitAtFirst(".", '/', Join(parts, '/'));
    SplitJoin(parts, '/');
  }

  lemma NormalizesTo(path: string, parts: seq<string>)
    requires path != "" && Slashed(path) == path && !IsAbsoluteForm(path) && '\0' !in path
    requires ".." !in Split(path, '/') && KeepReal(Split(path, '/')) == parts && parts != []
    ensures NormalizeRelative(path) == Success(Join(parts, '/'))
  {}

  lemma RealBehindDot(parts: seq<string>)
    requires Canonical(parts, true)
    ensures KeepReal(["."] + parts) == parts && ".." !in ["."] + parts
  {
    KeepRealSkipsFirst(".", parts);
    KeepRealOfReal(parts);
  }

  lemma KeepRealSkipsFirst(first: string, rest: seq<string>)
    requires !RealSegment(first)
    ensures KeepReal([first] + rest) == KeepReal(rest)
  {
    assert ([first] + rest)[1..] == rest;
  }

  /** A drive root hidden behind `./` is accepted once and refused the second time. */
  lemma HiddenDriveIsRefusedLater(parts: seq<string>)
    requires Canonical(parts, true) && 1 < |parts| && IsDrivePrefix(parts[0])
    ensures NormalizeRelative("." + ['/'] + Join(parts, '/')) == Success(Join(parts, '/'))
    ensures NormalizeRelative(Join(parts, '/')).Failure?
  {
    var path := "." + ['/'] + Join(parts, '/');
    BehindDot(parts);
    HiddenDriveGainsAbsoluteness(parts);
    RealBehindDot(parts);
    NormalizesTo(path, parts);
  }

  /** For example `./C:/x`. */
  lemma DriveRootIsRefusedLater()
    ensures NormalizeRelative("./C:/x") == Success("C:/x") && NormalizeRelative("C:/x").Failure?
  {
    var parts := ["C:", "x"];
    assert parts[1..] == ["x"] && Join(parts, '/') == "C:/x";
    assert "." + ['/'] + "C:/x" == "./C:/x";
    HiddenDriveIsRefusedLater(parts);
  }

  /** For a path that stays relative the two normalizations agree. */
  lemma NormalizationsAgree(path: string)
    requires NormalizeRelative(path).Success?
    ensures OutsideTarget(path) == NormalizeRelative(path)
  {
    KeepRealIsReduce(Split(Slashed(path), '/'), false);
    assert forall k :: 0 <= k < |path| ==> (Slashed(path)[k] == '\0' <==> path[k] == '\0');
  }
}
