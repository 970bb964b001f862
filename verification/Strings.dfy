/** Splitting strings at a separator and joining them again. */
module Strings {
  import opened Sequences

  function Split(s: string, sep: char): (parts: seq<string>)
    ensures 0 < |parts|
  {
    if s == "" then [""]
    else if s[0] == sep then [""] + Split(s[1..], sep)
    else
      var rest := Split(s[1..], sep);
      [[s[0]] + rest[0]] + rest[1..]
  }

  lemma {:induction false} SplitParts(s: string, sep: char)
    ensures forall part :: part in Split(s, sep) ==> sep !in part
  {
    if s != "" {
      SplitParts(s[1..], sep);
      var rest := Split(s[1..], sep);
      assert rest[0] in rest && forall part :: part in rest[1..] ==> part in rest;
    }
  }

  function Join(parts: seq<string>, sep: char): string {
    if |parts| == 0 then ""
    else if |parts| == 1 then parts[0]
    else parts[0] + [sep] + Join(parts[1..], sep)
  }

  function ReplaceChar(s: string, from: char, to: char): (r: string)
    ensures |r| == |s|
    ensures forall k :: 0 <= k < |s| ==> r[k] == if s[k] == from then to else s[k]
  {
    seq(|s|, k requires 0 <= k < |s| => if s[k] == from then to else s[k])
  }

  lemma {:induction false} SplitAtFirst(a: string, sep: char, b: string)
    requires sep !in a
    ensures Split(a + [sep] + b, sep) == [a] + Split(b, sep)
  {
    var s := a + [sep] + b;
    if a == "" {
      assert s[1..] == b;
    } else {
      SplitAtFirst(a[1..], sep, b);
      assert s[1..] == a[1..] + [sep] + b;
      assert [a[0]] + a[1..] == a;
    }
  }

  lemma {:induction false} SplitConcat(a: string, sep: char, b: string)
    ensures Split(a + [sep] + b, sep) == Split(a, sep) + Split(b, sep)
  {
    var s := a + [sep] + b;
    if a == "" {
      assert s[1..] == b;
    } else {
      SplitConcat(a[1..], sep, b);
      assert s[1..] == a[1..] + [sep] + b && s[0] == a[0];
      GrowConcat(a[0], Split(a[1..], sep), Split(b, sep));
    }
  }

  /** Putting an empty part, or one more character, in front of some parts. */
  lemma GrowConcat(c: char, first: seq<string>, rest: seq<string>)
    requires first != []
    ensures [""] + (first + rest) == [""] + first + rest
    ensures [[c] + (first + rest)[0]] + (first + rest)[1..] == [[c] + first[0]] + first[1..] + rest
  {}

  lemma {:induction false} SplitWhole(a: string, sep: char)
    requires sep !in a
    ensures Split(a, sep) == [a]
  {
    if a != "" {
      SplitWhole(a[1..], sep);
      assert [a[0]] + a[1..] == a;
    }
  }

  lemma {:induction false} SplitChars(s: string, sep: char, k: nat, c: char)
    requires k < |Split(s, sep)| && c in Split(s, sep)[k]
    ensures c in s
  {
    if s != "" && s[0] == sep {
      assert 0 < k && Split(s, sep)[k] == Split(s[1..], sep)[k - 1];
      SplitChars(s[1..], sep, k - 1, c);
    } else if s != "" && !(k == 0 && c == s[0]) {
      SplitChars(s[1..], sep, k, c);
    }
  }

  /** Splitting recovers the joined parts. */
  lemma {:induction false} SplitJoin(parts: seq<string>, sep: char)
    requires 0 < |parts|
    requires forall k :: 0 <= k < |parts| ==> sep !in parts[k]
    ensures Split(Join(parts, sep), sep) == parts
  {
    if |parts| == 1 {
      SplitWhole(parts[0], sep);
    } else {
      SplitAtFirst(parts[0], sep, Join(parts[1..], sep));
      SplitJoin(parts[1..], sep);
    }
  }

  lemma {:induction false} JoinConcat(a: seq<string>, sep: char, b: seq<string>)
    requires a != [] && b != []
    ensures Join(a + b, sep) == Join(a, sep) + [sep] + Join(b, sep)
  {
    assert (a + b)[1..] == a[1..] + b;
    if 1 < |a| {
      JoinConcat(a[1..], sep, b);
      assert Join(a + b, sep) == a[0] + [sep] + Join(a[1..], sep) + [sep] + Join(b, sep);
    }
  }

  lemma {:induction false} JoinChars(parts: seq<string>, sep: char, c: char)
    requires c in Join(parts, sep)
    ensures c == sep || exists k :: 0 <= k < |parts| && c in parts[k]
  {
    if 1 < |parts| && c !in parts[0] && c != sep {
      JoinChars(parts[1..], sep, c);
      var k :| 0 <= k < |parts[1..]| && c in parts[1..][k];
      assert c in parts[k + 1];
    } else if 0 < |parts| && c in parts[0] {
    }
  }

  lemma ReplaceCharAbsent(s: string, from: char, to: char)
    requires from !in s
    ensures ReplaceChar(s, from, to) == s
  {
  }

  /** A path segment that names something: neither empty nor `.`. */
  predicate RealSegment(part: string) {
    part != "" && part != "."
  }

  function KeepReal(parts: seq<string>): seq<string> {
    if parts == [] then []
    else (if RealSegment(parts[0]) then [parts[0]] else []) + KeepReal(parts[1..])
  }

  lemma {:induction false} KeepRealSource(parts: seq<string>)
    ensures forall part :: part in KeepReal(parts) ==> RealSegment(part) && part in parts
  {
    if parts != [] {
      KeepRealSource(parts[1..]);
    }
  }

  lemma {:induction false} KeepRealOfReal(parts: seq<string>)
    requires forall k :: 0 <= k < |parts| ==> RealSegment(parts[k])
    ensures KeepReal(parts) == parts
  {
    if parts != [] {
      KeepRealOfReal(parts[1..]);
    }
  }

  lemma {:induction false} KeepRealSnoc(parts: seq<string>, last: string)
    ensures KeepReal(parts + [last]) == KeepReal(parts) + (if RealSegment(last) then [last] else [])
  {
    if parts == [] {
      assert parts + [last] == [last];
    } else {
      assert (parts + [last])[1..] == parts[1..] + [last];
      KeepRealSnoc(parts[1..], last);
    }
  }

  lemma {:induction false} KeepRealConcat(a: seq<string>, b: seq<string>)
    ensures KeepReal(a + b) == KeepReal(a) + KeepReal(b)
  {
    if a == [] {
      assert a + b == b;
    } else {
      KeepRealConcat(a[1..], b);
      assert (a + b)[1..] == a[1..] + b;
      ConcatAssoc(if RealSegment(a[0]) then [a[0]] else [], KeepReal(a[1..]), KeepReal(b));
    }
  }
}
