/** The syntactic depth of a token stream, and the guard that keeps deep sources
    away from the parser. */
module SyntaxDepth {
  import opened Wrappers
  import opened SourceLines

  datatype Delimiter = Parenthesis | Bracket | Brace

  /** `Resetting` stands for every operator and separator that ends a member chain. */
  datatype Token =
    | LParen | LBracket | LBrace | DollarLBrace | TemplateHead
    | RParen | RBracket | RBrace
    | Dot | OptionalChain | Resetting | Error | Other

  function Opens(token: Token): Option<Delimiter> {
    match token
    case LParen => Some(Parenthesis)
    case LBracket => Some(Bracket)
    case LBrace | DollarLBrace | TemplateHead => Some(Brace)
    case _ => None
  }

  function Closes(token: Token): Option<Delimiter> {
    match token
    case RParen => Some(Parenthesis)
    case RBracket => Some(Bracket)
    case RBrace => Some(Brace)
    case _ => None
  }

  predicate Separates(token: Token) {
    token == Dot || token == OptionalChain
  }

  function Max(a: nat, b: nat): nat {
    if a < b then b else a
  }

  // ----- The depth of a token stream -----

  function StackStep(stack: seq<Delimiter>, token: Token): seq<Delimiter> {
    if Opens(token).Some? then stack + [Opens(token).value]
    else if Closes(token).Some? && stack != [] && stack[|stack| - 1] == Closes(token).value then stack[..|stack| - 1]
    else stack
  }

  /** The open delimiters after `tokens`, starting from `stack`. */
  function StackAfter(stack: seq<Delimiter>, tokens: seq<Token>): seq<Delimiter> {
    if tokens == [] then stack
    else StackStep(StackAfter(stack, tokens[..|tokens| - 1]), tokens[|tokens| - 1])
  }

  /** The most delimiters open at any point. */
  function Deepest(stack: seq<Delimiter>, tokens: seq<Token>): nat {
    if tokens == [] then |stack|
    else Max(Deepest(stack, tokens[..|tokens| - 1]), |StackAfter(stack, tokens)|)
  }

  /** The member separators since the last token that ends a chain. */
  function ChainAfter(tokens: seq<Token>): nat {
    if tokens == [] then 0
    else if Separates(tokens[|tokens| - 1]) then ChainAfter(tokens[..|tokens| - 1]) + 1
    else if tokens[|tokens| - 1] == Resetting then 0
    else ChainAfter(tokens[..|tokens| - 1])
  }

  function LongestChain(tokens: seq<Token>): nat {
    if tokens == [] then 0
    else Max(LongestChain(tokens[..|tokens| - 1]), ChainAfter(tokens))
  }

  function Maximum(tokens: seq<Token>): nat {
    Max(Deepest([], tokens), LongestChain(tokens))
  }

  /** Some delimiter opens when the depth or a chain seen so far is over the limit. */
  ghost predicate Excess(tokens: seq<Token>, limit: nat) {
    exists p :: 0 <= p < |tokens| && OpensOver(tokens, p, limit)
  }

  ghost predicate OpensOver(tokens: seq<Token>, p: nat, limit: nat)
    requires p < |tokens|
  {
    Opens(tokens[p]).Some? && Maximum(tokens[..p + 1]) > limit
  }

  lemma ExcessStays(tokens: seq<Token>, more: seq<Token>, limit: nat)
    ensures Excess(tokens, limit) ==> Excess(tokens + more, limit)
  {
    if p :| 0 <= p < |tokens| && OpensOver(tokens, p, limit) {
      assert (tokens + more)[..p + 1] == tokens[..p + 1];
      assert OpensOver(tokens + more, p, limit);
    }
  }

  lemma ExcessGrows(tokens: seq<Token>, token: Token, limit: nat)
    ensures Excess(tokens + [token], limit) <==>
            Excess(tokens, limit) || (Opens(token).Some? && Maximum(tokens + [token]) > limit)
  {
    var more := tokens + [token];
    assert more[..|tokens| + 1] == more;
    assert OpensOver(more, |tokens|, limit) <==> Opens(token).Some? && Maximum(more) > limit;
    ExcessStays(tokens, [token], limit);
    if p :| 0 <= p < |more| && OpensOver(more, p, limit) {
      if p < |tokens| {
        assert more[..p + 1] == tokens[..p + 1];
        assert OpensOver(tokens, p, limit);
      }
    }
  }

  lemma Snoc(tokens: seq<Token>, token: Token)
    ensures StackAfter([], tokens + [token]) == StackStep(StackAfter([], tokens), token)
    ensures Deepest([], tokens + [token]) == Max(Deepest([], tokens), |StackStep(StackAfter([], tokens), token)|)
    ensures LongestChain(tokens + [token]) == Max(LongestChain(tokens), ChainAfter(tokens + [token]))
    ensures ChainAfter(tokens + [token]) ==
            if Separates(token) then ChainAfter(tokens) + 1 else if token == Resetting then 0 else ChainAfter(tokens)
  {
    assert (tokens + [token])[..|tokens|] == tokens;
  }

  lemma {:induction false} CurrentIsWithinMaximum(tokens: seq<Token>)
    ensures |StackAfter([], tokens)| <= Deepest([], tokens) && ChainAfter(tokens) <= LongestChain(tokens)
  {}

  lemma MaximumSnoc(tokens: seq<Token>, token: Token)
    ensures Maximum(tokens + [token]) ==
            if Opens(token).Some? then Max(Maximum(tokens), |StackAfter([], tokens)| + 1)
            else if Separates(token) then Max(Maximum(tokens), ChainAfter(tokens) + 1)
            else Maximum(tokens)
  {
    Snoc(tokens, token);
    CurrentIsWithinMaximum(tokens);
  }

  // ----- The scanner -----

  datatype SyntaxDepthOutcome = WithinLimit(depth: nat) | Exceeded

  class DepthScanner {
    var delimiters: seq<Delimiter>
    var depth: nat
    var maximum: nat
    var memberDepth: nat
    const maxDepth: nat

    /** The state after observing `seen` without excess. */
    ghost predicate Tracks(seen: seq<Token>)
      reads this
    {
      && delimiters == StackAfter([], seen) && depth == |delimiters|
      && memberDepth == ChainAfter(seen) && maximum == Maximum(seen)
    }

    constructor (maxDepth: nat)
      ensures Tracks([]) && this.maxDepth == maxDepth
    {
      delimiters, depth, maximum, memberDepth := [], 0, 0, 0;
      this.maxDepth := maxDepth;
    }

    method PushDelimiter(delimiter: Delimiter) returns (exceeded: bool)
      modifies this
      ensures depth == old(depth) + 1 && maximum == Max(old(maximum), depth) && memberDepth == old(memberDepth)
      ensures exceeded <==> maximum > maxDepth
      ensures delimiters == if exceeded then old(delimiters) else old(delimiters) + [delimiter]
    {
      depth := depth + 1;
      maximum := Max(maximum, depth);
      if maximum > maxDepth {
        return true;
      }
      delimiters := delimiters + [delimiter];
      return false;
    }

    method PopDelimiter(expected: Delimiter)
      requires depth == |delimiters|
      modifies this`delimiters, this`depth
      ensures depth == |delimiters|
      ensures delimiters == if old(delimiters) != [] && old(delimiters)[|old(delimiters)| - 1] == expected
                            then old(delimiters)[..|old(delimiters)| - 1] else old(delimiters)
    {
      if delimiters == [] || delimiters[|delimiters| - 1] != expected {
        return;
      }
      delimiters := delimiters[..|delimiters| - 1];
      depth := Max(depth, 1) - 1;
    }

    method Observe(token: Token, ghost seen: seq<Token>) returns (exceeded: bool)
      requires Tracks(seen)
      modifies this
      ensures exceeded <==> Opens(token).Some? && Maximum(seen + [token]) > maxDepth
      ensures !exceeded ==> Tracks(seen + [token])
    {
      Snoc(seen, token);
      MaximumSnoc(seen, token);
      match token
      case LParen => exceeded := PushDelimiter(Parenthesis);
      case LBracket => exceeded := PushDelimiter(Bracket);
      case LBrace | DollarLBrace | TemplateHead => exceeded := PushDelimiter(Brace);
      case RParen =>
        PopDelimiter(Parenthesis);
        exceeded := false;
      case RBracket =>
        PopDelimiter(Bracket);
        exceeded := false;
      case RBrace =>
        PopDelimiter(Brace);
        exceeded := false;
      case Dot | OptionalChain =>
        memberDepth := memberDepth + 1;
        maximum := Max(maximum, memberDepth);
        exceeded := false;
      case Resetting =>
        memberDepth := 0;
        exceeded := false;
      case Error | Other =>
        exceeded := false;
    }

    /** Observe the tokens that are not skipped, up to a lexer error. */
    method Scan(items: seq<Option<Token>>) returns (outcome: SyntaxDepthOutcome)
      requires Tracks([])
      modifies this
      ensures outcome.Exceeded? <==> Excess(Seen(items), maxDepth)
      ensures outcome.WithinLimit? ==> outcome.depth == Maximum(Seen(items))
    {
      ghost var seen: seq<Token> := [];
      for k := 0 to |items|
        invariant Tracks(seen) && Seen(items) == seen + Seen(items[k..])
        invariant !Excess(seen, maxDepth)
      {
        assert items[k..][1..] == items[k + 1..];
        if items[k].None? {
          continue;
        }
        var token := items[k].value;
        if token == Error {
          break;
        }
        ghost var before := seen;
        seen := seen + [token];
        assert Seen(items) == seen + Seen(items[k + 1..]);
        var exceeded := Observe(token, before);
        ExcessGrows(before, token, maxDepth);
        if exceeded {
          ExcessStays(seen, Seen(items[k + 1..]), maxDepth);
          return Exceeded;
        }
      }
      assert Seen(items) == seen;
      return WithinLimit(maximum);
    }
  }

  function Seen(items: seq<Option<Token>>): seq<Token> {
    if items == [] then []
    else if items[0].None? then Seen(items[1..])
    else if items[0].value == Error then []
    else [items[0].value] + Seen(items[1..])
  }

  lemma SeenFirst(items: seq<Option<Token>>, more: seq<Option<Token>>)
    requires items != [] && items[0] != Some(Error)
    ensures Seen(items + more) == (if items[0].None? then [] else [items[0].value]) + Seen(items[1..] + more)
  {
    assert (items + more)[1..] == items[1..] + more;
  }

  lemma {:induction false} SeenConcat(items: seq<Option<Token>>, more: seq<Option<Token>>)
    requires forall k :: 0 <= k < |items| ==> items[k] != Some(Error)
    ensures Seen(items + more) == Seen(items) + Seen(more)
  {
    if items == [] {
      assert items + more == more;
    } else {
      SeenConcat(items[1..], more);
      SeenFirst(items, more);
    }
  }

  /** The tokens seen are all of them, but for skipped ones... */
  lemma SkippedIsUnseen(items: seq<Option<Token>>, more: seq<Option<Token>>)
    requires forall k :: 0 <= k < |items| ==> items[k] != Some(Error)
    ensures Seen(items + [None] + more) == Seen(items + more)
  {
    SeenConcat(items, more);
    SeenConcat(items, [None] + more);
    assert items + [None] + more == items + ([None] + more) && ([None] + more)[1..] == more;
  }

  /** ... and what stands behind the first lexer error. */
  lemma SeenUpToError(items: seq<Option<Token>>, more: seq<Option<Token>>)
    requires forall k :: 0 <= k < |items| ==> items[k] != Some(Error)
    ensures Seen(items + [Some(Error)] + more) == Seen(items)
  {
    SeenConcat(items, [Some(Error)] + more);
    assert items + [Some(Error)] + more == items + ([Some(Error)] + more);
  }

  lemma {:induction false} AllAreSeen(tokens: seq<Token>)
    requires Error !in tokens
    ensures Seen(All(tokens)) == tokens
  {
    if tokens != [] {
      AllAreSeen(tokens[1..]);
      assert All(tokens)[1..] == All(tokens[1..]);
    }
  }

  // ----- Chains -----

  /** The member separators of a stretch of tokens. */
  function Members(tokens: seq<Token>): nat {
    multiset(tokens)[Dot] + multiset(tokens)[OptionalChain]
  }

  lemma MembersSnoc(tokens: seq<Token>, token: Token)
    ensures Members(tokens + [token]) == Members(tokens) + if token == Dot || token == OptionalChain then 1 else 0
  {}

  /** The current chain is the most separators of a stretch up to the end that no
      operator or separator ends. */
  lemma {:induction false} ChainIsStretch(tokens: seq<Token>, lo: nat) returns (start: nat)
    requires lo <= |tokens| && Resetting !in tokens[lo..]
    ensures start <= |tokens| && Resetting !in tokens[start..]
    ensures Members(tokens[lo..]) <= ChainAfter(tokens) == Members(tokens[start..])
    decreases |tokens|
  {
    if tokens == [] {
      start := 0;
    } else {
      var fewer, last := tokens[..|tokens| - 1], tokens[|tokens| - 1];
      if lo == |tokens| {
        if last == Resetting {
          start := |tokens|;
        } else {
          start := ChainIsStretch(fewer, |fewer|);
          StretchSnoc(tokens, start);
        }
      } else {
        StretchSnoc(tokens, lo);
        start := ChainIsStretch(fewer, lo);
        StretchSnoc(tokens, start);
      }
    }
  }

  lemma StretchSnoc(tokens: seq<Token>, lo: nat)
    requires lo < |tokens|
    ensures var fewer, last := tokens[..|tokens| - 1], tokens[|tokens| - 1];
            && tokens[lo..] == fewer[lo..] + [last]
            && (last != Resetting && Resetting !in fewer[lo..] <==> Resetting !in tokens[lo..])
            && Members(tokens[lo..]) == Members(fewer[lo..]) + if last == Dot || last == OptionalChain then 1 else 0
  {
    var fewer, last := tokens[..|tokens| - 1], tokens[|tokens| - 1];
    assert tokens[lo..] == fewer[lo..] + [last];
    MembersSnoc(fewer[lo..], last);
  }

  /** The longest chain is the most `.` and `?.` in any stretch of tokens that holds
      no operator or separator ending a chain: no stretch has more, and one has as
      many. */
  lemma {:induction false} LongestChainIsStretch(tokens: seq<Token>) returns (start: nat, end: nat)
    ensures start <= end <= |tokens| && Resetting !in tokens[start..end]
    ensures LongestChain(tokens) == multiset(tokens[start..end])[Dot] + multiset(tokens[start..end])[OptionalChain]
    decreases |tokens|
  {
    if tokens == [] {
      start, end := 0, 0;
    } else {
      var fewer := tokens[..|tokens| - 1];
      start, end := LongestChainIsStretch(fewer);
      assert fewer[start..end] == tokens[start..end];
      if ChainAfter(tokens) > LongestChain(fewer) {
        end := |tokens|;
        start := ChainIsStretch(tokens, end);
        assert tokens[start..end] == tokens[start..];
      }
    }
  }

  lemma {:induction false} NoLongerStretch(tokens: seq<Token>, start: nat, end: nat)
    requires start <= end <= |tokens| && Resetting !in tokens[start..end]
    ensures multiset(tokens[start..end])[Dot] + multiset(tokens[start..end])[OptionalChain] <= LongestChain(tokens)
    decreases |tokens|
  {
    if end == |tokens| {
      assert tokens[start..end] == tokens[start..];
      var _ := ChainIsStretch(tokens, start);
      CurrentIsWithinMaximum(tokens);
    } else {
      var fewer := tokens[..|tokens| - 1];
      assert fewer[start..end] == tokens[start..end];
      NoLongerStretch(fewer, start, end);
    }
  }

  // ----- Where excess is noticed -----

  predicate IsOpening(token: Token) {
    token == LParen || token == LBracket || token == LBrace || token == DollarLBrace || token == TemplateHead
  }

  /** Without an opening delimiter any chain passes, however long: excess is only
      ever noticed where a delimiter opens. */
  lemma NoOpeningNoExcess(tokens: seq<Token>, limit: nat)
    requires forall p :: 0 <= p < |tokens| ==> !IsOpening(tokens[p])
    ensures !Excess(tokens, limit)
  {}

  /** So a chain of `.` and `?.` passes at any length. */
  lemma LongChainPasses(tokens: seq<Token>, limit: nat)
    requires forall p :: 0 <= p < |tokens| ==> tokens[p] == Dot || tokens[p] == OptionalChain
    ensures Maximum(tokens) == |tokens| && !Excess(tokens, limit)
  {
    NoOpeningNoExcess(tokens, limit);
    AllMembers(tokens);
    assert tokens[0..|tokens|] == tokens;
    NoLongerStretch(tokens, 0, |tokens|);
    MaximumWithinRaising(tokens);
    RaisingWithinLength(tokens);
  }

  lemma {:induction false} AllMembers(tokens: seq<Token>)
    requires forall p :: 0 <= p < |tokens| ==> tokens[p] == Dot || tokens[p] == OptionalChain
    ensures Members(tokens) == |tokens|
  {
    if tokens != [] {
      var fewer, last := tokens[..|tokens| - 1], tokens[|tokens| - 1];
      AllMembers(fewer);
      MembersSnoc(fewer, last);
      assert tokens == fewer + [last];
    }
  }

  lemma {:induction false} RaisingWithinLength(tokens: seq<Token>)
    ensures Raising(tokens) <= |tokens|
  {
    if tokens != [] {
      RaisingWithinLength(tokens[..|tokens| - 1]);
    }
  }

  /** A stream passes exactly when the maximum stays within the limit up to its
      last opening delimiter; what follows is not limited. */
  lemma ExcessIsAtTheLastOpening(tokens: seq<Token>, last: nat, limit: nat)
    requires last < |tokens| && IsOpening(tokens[last])
    requires forall p :: last < p < |tokens| ==> !IsOpening(tokens[p])
    ensures Excess(tokens, limit) <==> Maximum(tokens[..last + 1]) > limit
  {
    if Maximum(tokens[..last + 1]) > limit {
      assert OpensOver(tokens, last, limit);
    }
    forall p | 0 <= p < |tokens| && OpensOver(tokens, p, limit)
      ensures Maximum(tokens[..last + 1]) > limit
    {
      assert p <= last && tokens[..last + 1][..p + 1] == tokens[..p + 1];
      PrefixIsShallower(tokens[..last + 1], p + 1);
    }
  }

  lemma {:induction false} PrefixIsShallower(tokens: seq<Token>, n: nat)
    requires n <= |tokens|
    ensures Maximum(tokens[..n]) <= Maximum(tokens)
    decreases |tokens|
  {
    if n == |tokens| {
      assert tokens[..n] == tokens;
    } else {
      var fewer := tokens[..|tokens| - 1];
      PrefixIsShallower(fewer, n);
      assert fewer[..n] == tokens[..n];
      assert Maximum(fewer) <= Maximum(tokens);
    }
  }

  // ----- The raw bound -----

  predicate Raises(token: Token) {
    Opens(token).Some? || Separates(token)
  }

  predicate IsRaisingByte(b: Byte) {
    b == 0x28 || b == 0x5B || b == 0x7B || b == 0x2E
  }

  /** The bytes `(`, `[`, `{` and `.` of a source. */
  function RawBound(source: seq<Byte>): nat {
    if source == [] then 0
    else RawBound(source[..|source| - 1]) + (if IsRaisingByte(source[|source| - 1]) then 1 else 0)
  }

  /** Each of the four characters counts once for every time it occurs. */
  lemma {:induction false} RawBoundCounts(source: seq<Byte>)
    ensures RawBound(source)
         == multiset(source)[0x28] + multiset(source)[0x5B] + multiset(source)[0x7B] + multiset(source)[0x2E]
  {
    if source != [] {
      var fewer, last := source[..|source| - 1], source[|source| - 1];
      RawBoundCounts(fewer);
      assert source == fewer + [last];
    }
  }

  /** A token and the bytes of the source it covers. */
  datatype Span = Span(token: Token, lo: nat, hi: nat)

  /** Tokens cover disjoint bytes in order; a delimiter that opens and a member
      separator are spelled with their character. */
  ghost predicate Covers(source: seq<Byte>, spans: seq<Span>) {
    && (forall k :: 0 <= k < |spans| ==> spans[k].lo <= spans[k].hi <= |source| && Spelled(source, spans[k]))
    && (forall j, k :: 0 <= j < k < |spans| ==> spans[j].hi <= spans[k].lo)
  }

  /** `(`, `[` and `{` stand in the tokens they open, `${` and a template's head hold
      a `{`, and `.` and `?.` hold a `.`. */
  ghost predicate Spelled(source: seq<Byte>, span: Span)
    requires span.lo <= span.hi <= |source|
  {
    match span.token
    case LParen => 0x28 in source[span.lo..span.hi]
    case LBracket => 0x5B in source[span.lo..span.hi]
    case LBrace | DollarLBrace | TemplateHead => 0x7B in source[span.lo..span.hi]
    case Dot | OptionalChain => 0x2E in source[span.lo..span.hi]
    case _ => true
  }

  lemma RaisingIsSpelled(source: seq<Byte>, span: Span)
    requires span.lo <= span.hi <= |source| && Spelled(source, span) && Raises(span.token)
    ensures exists b :: span.lo <= b < span.hi && IsRaisingByte(source[b])
  {
    var slice := source[span.lo..span.hi];
    var k :| 0 <= k < |slice| && IsRaisingByte(slice[k]);
    assert source[span.lo + k] == slice[k];
  }

  function TokensOf(spans: seq<Span>): (tokens: seq<Token>)
    ensures |tokens| == |spans| && forall k :: 0 <= k < |spans| ==> tokens[k] == spans[k].token
  {
    seq(|spans|, k requires 0 <= k < |spans| => spans[k].token)
  }

  function Raising(tokens: seq<Token>): nat {
    if tokens == [] then 0
    else Raising(tokens[..|tokens| - 1]) + (if Raises(tokens[|tokens| - 1]) then 1 else 0)
  }

  lemma {:induction false} MaximumWithinRaising(tokens: seq<Token>)
    ensures |StackAfter([], tokens)| <= Raising(tokens) && Deepest([], tokens) <= Raising(tokens)
    ensures ChainAfter(tokens) <= Raising(tokens) && LongestChain(tokens) <= Raising(tokens)
  {
    if tokens != [] {
      MaximumWithinRaising(tokens[..|tokens| - 1]);
    }
  }

  lemma {:induction false} RawBoundGrows(source: seq<Byte>, a: nat, b: nat)
    requires a <= b <= |source|
    ensures RawBound(source[..a]) <= RawBound(source[..b])
    ensures (exists k :: a <= k < b && IsRaisingByte(source[k])) ==> RawBound(source[..a]) < RawBound(source[..b])
    decreases b
  {
    if a < b {
      RawBoundGrows(source, a, b - 1);
      assert source[..b][..b - 1] == source[..b - 1];
    }
  }

  lemma {:induction false} RaisingWithinRawBound(source: seq<Byte>, spans: seq<Span>)
    requires Covers(source, spans)
    ensures End(spans) <= |source| && Raising(TokensOf(spans)) <= RawBound(source[..End(spans)])
    decreases |spans|
  {
    if spans != [] {
      var fewer, last := spans[..|spans| - 1], spans[|spans| - 1];
      FewerCover(source, spans);
      RaisingWithinRawBound(source, fewer);
      assert TokensOf(spans)[..|spans| - 1] == TokensOf(fewer);
      RawBoundGrows(source, End(fewer), last.lo);
      RawBoundGrows(source, last.lo, last.hi);
      if Raises(last.token) {
        RaisingIsSpelled(source, last);
      }
    }
  }

  /** Where the covered part of the source ends. */
  function End(spans: seq<Span>): nat {
    if spans == [] then 0 else spans[|spans| - 1].hi
  }

  lemma FewerCover(source: seq<Byte>, spans: seq<Span>)
    requires Covers(source, spans) && spans != []
    ensures Covers(source, spans[..|spans| - 1]) && End(spans[..|spans| - 1]) <= spans[|spans| - 1].lo
  {
    var fewer := spans[..|spans| - 1];
    assert forall k :: 0 <= k < |fewer| ==> fewer[k] == spans[k];
  }

  /** No stream of tokens of a source is deeper than the source's raw bound. */
  lemma MaximumWithinRawBound(source: seq<Byte>, spans: seq<Span>)
    requires Covers(source, spans)
    ensures Maximum(TokensOf(spans)) <= RawBound(source)
  {
    MaximumWithinRaising(TokensOf(spans));
    RaisingWithinRawBound(source, spans);
    assert source[..|source|] == source;
    RawBoundGrows(source, End(spans), |source|);
  }

  // ----- The guard -----

  datatype SyntaxDepthPhase = PreParse | PostParse

  datatype SyntaxDepthGuard = SyntaxDepthGuard(maxDepth: nat, phase: SyntaxDepthPhase)

  function NewGuard(rawBound: nat, maxDepth: nat): SyntaxDepthGuard {
    SyntaxDepthGuard(maxDepth, if rawBound > maxDepth then PreParse else PostParse)
  }

  method CheckBeforeParse(guard: SyntaxDepthGuard, items: seq<Option<Token>>) returns (exceeded: bool)
    ensures exceeded <==> guard.phase == PreParse && Excess(Seen(items), guard.maxDepth)
  {
    match guard.phase
    case PreParse =>
      var scanner := new DepthScanner(guard.maxDepth);
      var outcome := scanner.Scan(items);
      exceeded := outcome.Exceeded?;
    case PostParse => exceeded := false;
  }

  method CheckAfterParse(guard: SyntaxDepthGuard, tokens: seq<Token>) returns (exceeded: bool)
    ensures exceeded <==> guard.phase == PostParse && Excess(Seen(All(tokens)), guard.maxDepth)
  {
    match guard.phase
    case PreParse => exceeded := false;
    case PostParse =>
      var scanner := new DepthScanner(guard.maxDepth);
      var outcome := scanner.Scan(All(tokens));
      exceeded := outcome.Exceeded?;
  }

  function All(tokens: seq<Token>): (items: seq<Option<Token>>)
    ensures |items| == |tokens| && forall k :: 0 <= k < |tokens| ==> items[k] == Some(tokens[k])
  {
    seq(|tokens|, k requires 0 <= k < |tokens| => Some(tokens[k]))
  }

  lemma {:induction false} SeenIsPrefix(tokens: seq<Token>)
    ensures Seen(All(tokens)) <= tokens
  {
    if tokens != [] {
      SeenIsPrefix(tokens[1..]);
      assert All(tokens)[1..] == All(tokens[1..]);
    }
  }

  /** The check after parsing never reports excess: it only runs on sources whose
      raw bound is within the limit already. */
  lemma LateCheckNeverExceeds(source: seq<Byte>, spans: seq<Span>, maxDepth: nat)
    requires Covers(source, spans)
    ensures NewGuard(RawBound(source), maxDepth).phase == PostParse ==>
              !Excess(Seen(All(TokensOf(spans))), maxDepth)
  {
    SeenIsPrefix(TokensOf(spans));
    MaximumWithinRawBound(source, spans);
    if RawBound(source) <= maxDepth {
      ShallowNeverExceeds(TokensOf(spans), Seen(All(TokensOf(spans))), maxDepth);
    }
  }

  lemma ShallowNeverExceeds(tokens: seq<Token>, seen: seq<Token>, limit: nat)
    requires seen <= tokens && Maximum(tokens) <= limit
    ensures !Excess(seen, limit)
  {
    forall p | 0 <= p < |seen|
      ensures !OpensOver(seen, p, limit)
    {
      assert seen[..p + 1] == tokens[..p + 1];
      PrefixIsShallower(tokens, p + 1);
    }
  }

  // ----- What the depth of a stream is -----

  /** `close` ends what `open` starts. */
  predicate Pairs(open: Token, close: Token) {
    || (open == LParen && close == RParen)
    || (open == LBracket && close == RBracket)
    || ((open == LBrace || open == DollarLBrace || open == TemplateHead) && close == RBrace)
  }

  /** A stream read as groups: single tokens, groups between an opening delimiter and
      the closing one of its kind, and a group that is still open at the end. */
  datatype Forest =
    | Nothing
    | Leaf(token: Token, next: Forest)
    | Group(open: Token, inner: Forest, close: Token, next: Forest)
    | Unclosed(open: Token, inner: Forest)

  /** Nothing in `forest` is still open at its end. */
  predicate Closed(forest: Forest) {
    match forest
    case Nothing => true
    case Leaf(_, next) => Closed(next)
    case Group(_, _, _, next) => Closed(next)
    case Unclosed(_, _) => false
  }

  /** A single token opens nothing and does not close the group it stands in: a
      closing delimiter of another kind, or one outside all groups, is such a token. */
  predicate WellFormed(forest: Forest, enclosing: Option<Token>) {
    match forest
    case Nothing => true
    case Leaf(token, next) =>
      !IsOpening(token) && (enclosing.Some? ==> !Pairs(enclosing.value, token)) && WellFormed(next, enclosing)
    case Group(open, inner, close, next) =>
      IsOpening(open) && Pairs(open, close) && Closed(inner) && WellFormed(inner, Some(open))
      && WellFormed(next, enclosing)
    case Unclosed(open, inner) => IsOpening(open) && WellFormed(inner, Some(open))
  }

  function Flatten(forest: Forest): seq<Token> {
    match forest
    case Nothing => []
    case Leaf(token, next) => [token] + Flatten(next)
    case Group(open, inner, close, next) => [open] + Flatten(inner) + [close] + Flatten(next)
    case Unclosed(open, inner) => [open] + Flatten(inner)
  }

  function Nesting(forest: Forest): nat {
    match forest
    case Nothing => 0
    case Leaf(_, next) => Nesting(next)
    case Group(_, inner, _, next) => Max(1 + Nesting(inner), Nesting(next))
    case Unclosed(_, inner) => 1 + Nesting(inner)
  }

  lemma ConcatGroup(
    tokens: seq<Token>, inner: seq<Token>, from: seq<Token>, next: seq<Token>, rest: seq<Token>)
    requires tokens != [] && tokens[1..] == inner + from
    requires from != [] && from[1..] == next + rest
    ensures tokens == [tokens[0]] + inner + [from[0]] + next + rest
  {
    assert tokens == [tokens[0]] + tokens[1..] && from == [from[0]] + from[1..];
    assert tokens == [tokens[0]] + inner + from;
  }

  lemma ConcatFirst(tokens: seq<Token>, next: seq<Token>, rest: seq<Token>)
    requires tokens != [] && tokens[1..] == next + rest
    ensures tokens == [tokens[0]] + next + rest
  {
    assert tokens == [tokens[0]] + tokens[1..];
  }

  /** Every stream reads as groups: up to its end, or up to the token that closes the
      group it stands in. */
  lemma {:induction false} EveryStreamReads(tokens: seq<Token>, enclosing: Option<Token>)
    returns (forest: Forest, rest: seq<Token>)
    ensures WellFormed(forest, enclosing) && tokens == Flatten(forest) + rest
    ensures rest != [] ==> Closed(forest) && enclosing.Some? && Pairs(enclosing.value, rest[0])
    decreases |tokens|, 1
  {
    if tokens == [] || (enclosing.Some? && Pairs(enclosing.value, tokens[0])) {
      forest, rest := Nothing, tokens;
      assert [] + tokens == tokens;
    } else if !IsOpening(tokens[0]) {
      var next;
      next, rest := EveryStreamReads(tokens[1..], enclosing);
      forest := Leaf(tokens[0], next);
      ConcatFirst(tokens, Flatten(next), rest);
    } else {
      var inner, from := EveryStreamReads(tokens[1..], Some(tokens[0]));
      forest, rest := AfterInner(tokens, enclosing, inner, from);
    }
  }

  lemma {:induction false} AfterInner(
    tokens: seq<Token>, enclosing: Option<Token>, inner: Forest, from: seq<Token>)
    returns (forest: Forest, rest: seq<Token>)
    requires tokens != [] && IsOpening(tokens[0]) && tokens[1..] == Flatten(inner) + from
    requires WellFormed(inner, Some(tokens[0])) && (from != [] ==> Closed(inner) && Pairs(tokens[0], from[0]))
    ensures WellFormed(forest, enclosing) && tokens == Flatten(forest) + rest
    ensures rest != [] ==> Closed(forest) && enclosing.Some? && Pairs(enclosing.value, rest[0])
    decreases |tokens|, 0
  {
    if from == [] {
      forest, rest := Unclosed(tokens[0], inner), from;
      ConcatFirst(tokens, Flatten(inner), from);
    } else {
      var next;
      next, rest := EveryStreamReads(from[1..], enclosing);
      forest := Group(tokens[0], inner, from[0], next);
      ConcatGroup(tokens, Flatten(inner), from, Flatten(next), rest);
    }
  }

  lemma {:induction false} Concat(stack: seq<Delimiter>, a: seq<Token>, b: seq<Token>)
    ensures StackAfter(stack, a + b) == StackAfter(StackAfter(stack, a), b)
    ensures Deepest(stack, a + b) == Max(Deepest(stack, a), Deepest(StackAfter(stack, a), b))
    decreases |b|
  {
    if b == [] {
      assert a + b == a;
      EndIsWithinDeepest(stack, a);
    } else {
      Concat(stack, a, b[..|b| - 1]);
      assert (a + b)[..|a + b| - 1] == a + b[..|b| - 1];
    }
  }

  lemma EndIsWithinDeepest(stack: seq<Delimiter>, tokens: seq<Token>)
    ensures |StackAfter(stack, tokens)| <= Deepest(stack, tokens)
  {}

  lemma One(stack: seq<Delimiter>, token: Token)
    ensures StackAfter(stack, [token]) == StackStep(stack, token)
    ensures Deepest(stack, [token]) == Max(|stack|, |StackStep(stack, token)|)
  {
    assert [token][..0] == [];
  }

  /** The innermost open delimiter is the one `enclosing` opened. */
  ghost predicate StandsIn(stack: seq<Delimiter>, enclosing: Option<Token>) {
    if enclosing.None? then stack == []
    else stack != [] && Opens(enclosing.value) == Some(stack[|stack| - 1])
  }

  lemma OpenStep(stack: seq<Delimiter>, open: Token) returns (deeper: seq<Delimiter>)
    requires IsOpening(open)
    ensures StackStep(stack, open) == deeper && |deeper| == |stack| + 1 && StandsIn(deeper, Some(open))
    ensures deeper[..|stack|] == stack
  {
    deeper := stack + [Opens(open).value];
  }

  lemma CloseStep(stack: seq<Delimiter>, open: Token, close: Token)
    requires Pairs(open, close) && StandsIn(stack, Some(open))
    ensures StackStep(stack, close) == stack[..|stack| - 1]
  {}

  lemma LeafDepth(stack: seq<Delimiter>, token: Token, next: seq<Token>)
    requires StackStep(stack, token) == stack
    ensures StackAfter(stack, [token] + next) == StackAfter(stack, next)
    ensures Deepest(stack, [token] + next) == Deepest(stack, next)
  {
    One(stack, token);
    Concat(stack, [token], next);
    StartIsWithinDeepest(stack, next);
  }

  lemma UnclosedDepth(stack: seq<Delimiter>, deeper: seq<Delimiter>, open: Token, inner: seq<Token>)
    requires StackStep(stack, open) == deeper && |stack| < |deeper|
    ensures Deepest(stack, [open] + inner) == Deepest(deeper, inner)
  {
    One(stack, open);
    Concat(stack, [open], inner);
    StartIsWithinDeepest(deeper, inner);
  }

  /** A stream goes exactly as deep as its groups nest, and leaves the open delimiters
      as they were unless a group of it is still open. */
  lemma {:induction false} StreamDepth(stack: seq<Delimiter>, enclosing: Option<Token>, forest: Forest)
    requires StandsIn(stack, enclosing) && WellFormed(forest, enclosing)
    ensures Closed(forest) ==> StackAfter(stack, Flatten(forest)) == stack
    ensures Deepest(stack, Flatten(forest)) == |stack| + Nesting(forest)
    decreases forest
  {
    match forest
    case Nothing =>
    case Leaf(token, next) =>
      StreamDepth(stack, enclosing, next);
      LeafDepth(stack, token, Flatten(next));
    case Group(open, inner, close, next) =>
      var deeper := OpenStep(stack, open);
      StreamDepth(deeper, Some(open), inner);
      StreamDepth(stack, enclosing, next);
      CloseStep(deeper, open, close);
      GroupDepth(stack, deeper, open, Flatten(inner), close, Flatten(next));
    case Unclosed(open, inner) =>
      var deeper := OpenStep(stack, open);
      StreamDepth(deeper, Some(open), inner);
      UnclosedDepth(stack, deeper, open, Flatten(inner));
  }

  lemma GroupDepth(
    stack: seq<Delimiter>, deeper: seq<Delimiter>, open: Token, inner: seq<Token>, close: Token, next: seq<Token>)
    requires StackStep(stack, open) == deeper && StackAfter(deeper, inner) == deeper
    requires StackStep(deeper, close) == stack && |stack| < |deeper|
    ensures StackAfter(stack, [open] + inner + [close] + next) == StackAfter(stack, next)
    ensures Deepest(stack, [open] + inner + [close] + next)
         == Max(Max(Deepest(deeper, inner), |deeper|), Deepest(stack, next))
  {
    One(stack, open);
    One(deeper, close);
    Concat(stack, [open], inner);
    Concat(stack, [open] + inner, [close]);
    Concat(stack, [open] + inner + [close], next);
    EndIsWithinDeepest(deeper, inner);
    StartIsWithinDeepest(stack, next);
  }

  lemma {:induction false} StartIsWithinDeepest(stack: seq<Delimiter>, tokens: seq<Token>)
    ensures |stack| <= Deepest(stack, tokens)
  {
    if tokens != [] {
      StartIsWithinDeepest(stack, tokens[..|tokens| - 1]);
    }
  }

  lemma {:induction false} NoSeparatorNoChain(tokens: seq<Token>)
    requires Dot !in tokens && OptionalChain !in tokens
    ensures ChainAfter(tokens) == 0 && LongestChain(tokens) == 0
  {
    if tokens != [] {
      assert tokens[|tokens| - 1] in tokens;
      NoSeparatorNoChain(tokens[..|tokens| - 1]);
    }
  }

  /** The maximum of a stream is how deep its groups nest, or its longest chain. */
  lemma ReadingMaximum(forest: Forest)
    requires WellFormed(forest, None)
    ensures Maximum(Flatten(forest)) == Max(Nesting(forest), LongestChain(Flatten(forest)))
  {
    StreamDepth([], None, forest);
  }

  /** And every stream has such a reading. */
  lemma StreamMaximum(tokens: seq<Token>) returns (forest: Forest)
    ensures WellFormed(forest, None) && Flatten(forest) == tokens
    ensures Maximum(tokens) == Max(Nesting(forest), LongestChain(tokens))
  {
    var rest;
    forest, rest := EveryStreamReads(tokens, None);
    assert Flatten(forest) + rest == Flatten(forest);
    ReadingMaximum(forest);
  }

  /** Without member separators excess means nesting beyond the limit. */
  lemma ExcessiveNesting(forest: Forest, limit: nat)
    requires WellFormed(forest, None) && Dot !in Flatten(forest) && OptionalChain !in Flatten(forest)
    ensures Excess(Flatten(forest), limit) <==> Nesting(forest) > limit
  {
    ReadingMaximum(forest);
    NoSeparatorNoChain(Flatten(forest));
    ExcessIsDepth(Flatten(forest), limit);
  }

  /** Without separators the maximum only grows where a delimiter opens. */
  lemma {:induction false} ExcessIsDepth(tokens: seq<Token>, limit: nat)
    requires Dot !in tokens && OptionalChain !in tokens
    ensures Excess(tokens, limit) <==> Maximum(tokens) > limit
  {
    if tokens != [] {
      var fewer, last := tokens[..|tokens| - 1], tokens[|tokens| - 1];
      ExcessIsDepth(fewer, limit);
      assert tokens == fewer + [last];
      ExcessGrows(fewer, last, limit);
      MaximumSnoc(fewer, last);
    }
  }
}
