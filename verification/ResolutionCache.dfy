/** The two-level cache in front of the module resolver. */
module ResolutionCaching {
  import opened Wrappers
  import opened Sequences

  datatype RequestKind = StaticImport | DynamicImport | Require

  datatype Range = Range(startLine: nat, startColumn: nat, endLine: nat, endColumn: nat)

  /** One occurrence of a module request. */
  datatype RequestKey = RequestKey(importer: string, kind: RequestKind, range: Range)

  datatype Request = Request(key: RequestKey, specifier: string)

  /** What resolution depends on: everything but the range. */
  datatype Semantics = Semantics(importer: string, kind: RequestKind, specifier: string)

  datatype Outcome = Internal(path: string) | Target(description: string)

  /** The module resolver; `None` is an operational error. */
  type Resolver = Semantics -> Option<Outcome>

  function SemanticsOf(request: Request): Semantics {
    Semantics(request.key.importer, request.key.kind, request.specifier)
  }

  class ResolutionCache {
    const resolver: Resolver
    var byKey: map<RequestKey, Outcome>
    var bySpecifier: map<Semantics, Outcome>
    /** The request that first asked under each occurrence key. */
    ghost var first: map<RequestKey, Request>
    /** The resolver runs so far. */
    ghost var runs: seq<Semantics>

    ghost predicate Valid()
      reads this
    {
      && first.Keys == byKey.Keys
      && (forall key :: key in byKey ==>
            first[key].key == key && resolver(SemanticsOf(first[key])) == Some(byKey[key]))
      && (forall s :: s in bySpecifier ==> resolver(s) == Some(bySpecifier[s]))
      && Distinct(runs)
      && (forall s :: s in bySpecifier ==> s in runs)
      && (forall k :: 0 <= k < |runs| ==> runs[k] in bySpecifier)
    }

    constructor (resolver: Resolver)
      ensures Valid() && this.resolver == resolver && byKey == map[] && runs == [] && first == map[]
    {
      this.resolver := resolver;
      byKey, bySpecifier, first, runs := map[], map[], map[], [];
    }

    /** The cached or fresh outcome; the flag tells whether the resolver ran. */
    method ResolveOrGet(request: Request) returns (r: Option<(Outcome, bool)>)
      requires Valid()
      modifies this
      ensures Valid()
      ensures r.Some? ==>
                && byKey == old(byKey)[request.key := r.value.0]
                && first == (if request.key in old(first) then old(first) else old(first)[request.key := request])
                && (request.key in old(byKey) ==> byKey == old(byKey))
      // The resolver is asked about importer, kind and specifier, at most once each.
      ensures var question := Semantics(request.key.importer, request.key.kind, request.specifier);
              && (r.None? ==> resolver(question).None?)
              && (r.Some? && request.key !in old(byKey) ==> resolver(question) == Some(r.value.0))
              && (r.Some? ==> (r.value.1 <==> request.key !in old(byKey) && question !in old(runs)))
              && (r.Some? ==> runs == old(runs) + (if r.value.1 then [question] else []))
      ensures r.None? ==>
                && byKey == old(byKey) && first == old(first) && runs == old(runs)
    {
      if request.key in byKey {
        assert byKey == byKey[request.key := byKey[request.key]];
        return Some((byKey[request.key], false));
      }
      var semantics := SemanticsOf(request);
      var didResolve := semantics !in bySpecifier;
      if didResolve {
        var resolved := resolver(semantics);
        if resolved.None? {
          return None;
        }
        bySpecifier := bySpecifier[semantics := resolved.value];
        runs := runs + [semantics];
      }
      var outcome := bySpecifier[semantics];
      byKey := byKey[request.key := outcome];
      first := first[request.key := request];
      r := Some((outcome, didResolve));
    }
  }

  // ----- A whole sequence of requests -----

  /** The first request under every occurrence key of a sequence. */
  function FirstRequests(requests: seq<Request>): (first: map<RequestKey, Request>)
    ensures forall k :: 0 <= k < |requests| ==> requests[k].key in first
    ensures forall key :: key in first ==> first[key].key == key
  {
    if requests == [] then map[]
    else
      var before, last := FirstRequests(requests[..|requests| - 1]), requests[|requests| - 1];
      if last.key in before then before else before[last.key := last]
  }

  lemma FirstRequestsStep(requests: seq<Request>, k: nat)
    requires k < |requests|
    ensures var before := FirstRequests(requests[..k]);
            FirstRequests(requests[..k + 1]) ==
            if requests[k].key in before then before else before[requests[k].key := requests[k]]
  {
    assert requests[..k + 1][..k] == requests[..k];
  }

  lemma {:induction false} FirstRequestIsEarliest(requests: seq<Request>, key: RequestKey) returns (i: nat)
    requires key in FirstRequests(requests)
    ensures i < |requests| && requests[i] == FirstRequests(requests)[key]
    ensures forall j :: 0 <= j < i ==> requests[j].key != key
    decreases |requests|
  {
    var before, last := FirstRequests(requests[..|requests| - 1]), requests[|requests| - 1];
    if key in before {
      i := FirstRequestIsEarliest(requests[..|requests| - 1], key);
    } else {
      i := |requests| - 1;
    }
  }

  /** The occurrence table after a sequence of requests: every entry is what the
      resolver says to the first request under that key, and the resolver ran at
      most once per importer, kind and specifier. An operational error ends the
      sequence without a table. */
  method ResolveSequence(resolver: Resolver, requests: seq<Request>)
    returns (answers: Option<map<RequestKey, Outcome>>, ghost runs: seq<Semantics>)
    ensures answers.Some? ==>
              && answers.value.Keys == FirstRequests(requests).Keys
              && forall key :: key in answers.value ==>
                   && FirstRequests(requests)[key].key == key
                   && resolver(Semantics(key.importer, key.kind, FirstRequests(requests)[key].specifier))
                      == Some(answers.value[key])
    ensures answers.None? ==> exists k ::
              && 0 <= k < |requests|
              && resolver(Semantics(requests[k].key.importer, requests[k].key.kind, requests[k].specifier)).None?
    ensures Distinct(runs)
  {
    var cache := new ResolutionCache(resolver);
    for k := 0 to |requests|
      invariant cache.Valid() && fresh(cache) && cache.resolver == resolver
      invariant cache.first == FirstRequests(requests[..k])
    {
      FirstRequestsStep(requests, k);
      var answer := cache.ResolveOrGet(requests[k]);
      if answer.None? {
        return None, cache.runs;
      }
    }
    assert requests[..|requests|] == requests;
    answers, runs := Some(cache.byKey), cache.runs;
  }

  ghost predicate Transparent(resolver: Resolver, requests: seq<Request>) {
    forall k :: 0 <= k < |requests| ==>
      resolver(SemanticsOf(FirstRequests(requests)[requests[k].key])) == resolver(SemanticsOf(requests[k]))
  }

  ghost predicate StableKeys(requests: seq<Request>) {
    forall j, k :: 0 <= j < |requests| && 0 <= k < |requests| && requests[j].key == requests[k].key ==>
      requests[j].specifier == requests[k].specifier
  }

  /** The cache answers like the resolver, whatever the resolver is, exactly when
      an occurrence key always comes with the same specifier. */
  lemma TransparentExactlyForStableKeys(requests: seq<Request>)
    ensures (forall resolver: Resolver :: Transparent(resolver, requests)) <==> StableKeys(requests)
  {
    if StableKeys(requests) {
      forall resolver: Resolver, k | 0 <= k < |requests|
        ensures resolver(SemanticsOf(FirstRequests(requests)[requests[k].key])) == resolver(SemanticsOf(requests[k]))
      {
        var i := FirstRequestIsEarliest(requests, requests[k].key);
      }
    } else {
      var j, k :| 0 <= j < |requests| && 0 <= k < |requests| && requests[j].key == requests[k].key
                  && requests[j].specifier != requests[k].specifier;
      var resolver := (s: Semantics) => Some(Target(s.specifier));
      assert resolver(SemanticsOf(requests[j])) != resolver(SemanticsOf(requests[k]));
      assert !Transparent(resolver, requests);
    }
  }
}
