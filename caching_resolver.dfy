/** `CachingDependencyResolver`: memoises resolution results per dependency, re-validates
    results resolved earlier (at build time), and otherwise takes the first answer of its
    repository enquirers. */
module Resolver {
  import opened Wrappers
  import opened Dependencies
  import opened Results
  import opened Enquirers

  /** The enquirers `attemptResolve` consults: the enforced ones when there are any,
      otherwise the ones built by the constructor. */
  function UsedEnquirers(enforced: seq<Enquirer>, defaults: seq<Enquirer>): seq<Enquirer>
  {
    if |enforced| == 0 then defaults else enforced
  }

  /** `enquirers.stream().map(e -> e.enquire(d)).filter(Objects::nonNull).findFirst()`:
      the answer of the first enquirer, in order, that answers at all. */
  function FirstAnswer(enquirers: seq<Enquirer>, d: Dependency): (r: Option<ResolutionResult>)
    ensures r.None? <==> forall i :: 0 <= i < |enquirers| ==> Enquire(enquirers[i], d).None?
    ensures r.Some? ==> exists i :: (0 <= i < |enquirers| && r == Enquire(enquirers[i], d)
      && (forall j :: 0 <= j < i ==> Enquire(enquirers[j], d).None?))
    ensures r.Some? ==> Consistent(r.value) && CheckedOrAggregator(r.value)
  {
    if enquirers == [] then None
    else if Enquire(enquirers[0], d).Some? then Enquire(enquirers[0], d)
    else
      var r := FirstAnswer(enquirers[1..], d);
      assert forall i :: 1 <= i < |enquirers| ==> enquirers[i] == enquirers[1..][i - 1];
      r
  }

  /** What a resolver with no earlier results answers for each coordinate it is asked for
      the first time: the first answer of the enquirers `used`. */
  function FirstAnswers(used: seq<Enquirer>): Dependency -> Option<ResolutionResult>
  {
    d => FirstAnswer(used, d)
  }

  /** The enforced list does not exclude the repository a pre-resolved result names:
      it is empty, or one of its enquirers prints as that repository's URL. Since an
      enquirer prints as its own repository's URL string, this matches repositories by
      URL string. */
  predicate EnforcedAccepts(enforced: seq<Enquirer>, p: ResolutionResult)
  {
    |enforced| == 0 || exists i :: 0 <= i < |enforced| && ToString(enforced[i]) == p.repository.url.spec
  }

  /** `urlPinger.ping(url)` for a URL that may be null; a null URL never pings. */
  predicate PingsUrl(ping: Url -> bool, u: Option<Url>)
  {
    u.Some? && ping(u.value)
  }

  /** `isDependencyValid && isChecksumValid` for an unchecked pre-resolved result. */
  predicate Revalidates(ping: Url -> bool, enforced: seq<Enquirer>, p: ResolutionResult)
  {
    EnforcedAccepts(enforced, p) && PingsUrl(ping, p.dependencyUrl)
    && (p.checksumUrl.None? || ping(p.checksumUrl.value))
  }

  /** The earlier result `attemptResolve` starts from: the pre-resolved entry for the
      dependency's coordinate, else the cached one. */
  function EarlierResult(pre: map<Coordinate, ResolutionResult>, cached: map<Coordinate, ResolutionResult>, k: Coordinate): Option<ResolutionResult>
  {
    if k in pre then Some(pre[k]) else if k in cached then Some(cached[k]) else None
  }

  /** What `attemptResolve` returns together with the two maps after it: `setChecked` on a
      re-validated earlier result shows as that entry raised to checked. */
  datatype Attempt = Attempt(
    result: Option<ResolutionResult>,
    preResolved: map<Coordinate, ResolutionResult>,
    cached: map<Coordinate, ResolutionResult>)

  /** Raising `checked` is the only change an attempt makes to a map of results. */
  predicate OnlyChecksRaised(before: map<Coordinate, ResolutionResult>, after: map<Coordinate, ResolutionResult>)
  {
    after.Keys == before.Keys
    && forall k :: k in before ==> after[k] == before[k] || after[k] == SetChecked(before[k])
  }

  /** The outcome of `attemptResolve(d, enforced)` from the given state. */
  function AttemptOutcome(
    ping: Url -> bool,
    defaults: seq<Enquirer>,
    pre: map<Coordinate, ResolutionResult>,
    cached: map<Coordinate, ResolutionResult>,
    d: Dependency,
    enforced: seq<Enquirer>
  ): (a: Attempt)
    ensures a.result.Some? ==> CheckedOrAggregator(a.result.value)
    ensures OnlyChecksRaised(pre, a.preResolved) && OnlyChecksRaised(cached, a.cached)
    ensures a.result.None? ==> a.preResolved == pre && a.cached == cached
    ensures KeyOf(d) !in cached ==> a.cached == cached
  {
    var k := KeyOf(d);
    var earlier := EarlierResult(pre, cached, k);
    if earlier.Some? && CheckedOrAggregator(earlier.value) then
      Attempt(earlier, pre, cached)
    else if earlier.Some? && Revalidates(ping, enforced, earlier.value) then
      var marked := SetChecked(earlier.value);
      if k in pre then Attempt(Some(marked), pre[k := marked], cached)
      else Attempt(Some(marked), pre, cached[k := marked])
    else
      Attempt(FirstAnswer(UsedEnquirers(enforced, defaults), d), pre, cached)
  }

  /** A pre-resolved result that is already checked, or is an aggregator, is returned as it
      is, with no ping and no enquiry. */
  lemma CheckedPreResolvedReturnedAsIs(
    ping: Url -> bool, defaults: seq<Enquirer>, pre: map<Coordinate, ResolutionResult>,
    cached: map<Coordinate, ResolutionResult>, d: Dependency, enforced: seq<Enquirer>)
    requires KeyOf(d) in pre && CheckedOrAggregator(pre[KeyOf(d)])
    ensures AttemptOutcome(ping, defaults, pre, cached, d, enforced) == Attempt(Some(pre[KeyOf(d)]), pre, cached)
  {
  }

  /** An unchecked, non-aggregator pre-resolved result is reused, and marked checked, when
      the enforced list accepts its repository, its URL pings and its checksum location is
      absent or pings; otherwise the enquirers in use are asked, and nothing is marked. */
  lemma UncheckedPreResolved(
    ping: Url -> bool, defaults: seq<Enquirer>, pre: map<Coordinate, ResolutionResult>,
    cached: map<Coordinate, ResolutionResult>, d: Dependency, enforced: seq<Enquirer>)
    requires KeyOf(d) in pre && !CheckedOrAggregator(pre[KeyOf(d)])
    ensures var a := AttemptOutcome(ping, defaults, pre, cached, d, enforced);
      var p := pre[KeyOf(d)];
      if Revalidates(ping, enforced, p)
      then a.result == Some(SetChecked(p)) && a.preResolved == pre[KeyOf(d) := SetChecked(p)]
      else a.result == FirstAnswer(UsedEnquirers(enforced, defaults), d) && a.preResolved == pre
  {
  }

  /** Without an earlier result, the answer is the first present answer of the enforced
      enquirers when there are any, else of the default ones. */
  lemma NoEarlierResult(
    ping: Url -> bool, defaults: seq<Enquirer>, pre: map<Coordinate, ResolutionResult>,
    cached: map<Coordinate, ResolutionResult>, d: Dependency, enforced: seq<Enquirer>)
    requires KeyOf(d) !in pre && KeyOf(d) !in cached
    ensures var r := AttemptOutcome(ping, defaults, pre, cached, d, enforced).result;
      (r.None? <==> forall i :: 0 <= i < |UsedEnquirers(enforced, defaults)| ==>
        Enquire(UsedEnquirers(enforced, defaults)[i], d).None?)
      && (|enforced| > 0 ==> r == FirstAnswer(enforced, d))
      && (|enforced| == 0 ==> r == FirstAnswer(defaults, d))
  {
  }

  /** A resolver with no pre-resolved results, asked for a dependency it has not cached,
      answers with the first answer of the enquirers in use and changes no map. */
  lemma FreshAttempt(ping: Url -> bool, defaults: seq<Enquirer>, cached: map<Coordinate, ResolutionResult>,
                     d: Dependency, enforced: seq<Enquirer>)
    requires KeyOf(d) !in cached
    ensures AttemptOutcome(ping, defaults, map[], cached, d, enforced)
      == Attempt(FirstAnswer(UsedEnquirers(enforced, defaults), d), map[], cached)
  {
  }

  class CachingDependencyResolver {
    const urlPinger: Url -> bool
    const repositories: seq<Enquirer>
    var cachedResults: map<Coordinate, ResolutionResult>
    var preResolvedResults: map<Coordinate, ResolutionResult>

    /** Every memoised result is checked or an aggregator. Since `setChecked` is only ever
        applied to unchecked non-aggregators, it can never change a memoised result. */
    ghost predicate Valid()
      reads this
    {
      forall k :: k in cachedResults ==> CheckedOrAggregator(cachedResults[k])
    }

    /** One enquirer per repository; the pre-resolved map is copied, so the caller's later
        changes to its map are not seen. */
    constructor(urlPinger: Url -> bool, repos: seq<Repository>, factory: EnquirerFactory,
                preResolved: map<Coordinate, ResolutionResult>)
      ensures Valid()
      ensures this.urlPinger == urlPinger && repositories == EnquirersFor(factory, repos)
      ensures cachedResults == map[] && preResolvedResults == preResolved
    {
      this.urlPinger := urlPinger;
      repositories := EnquirersFor(factory, repos);
      cachedResults := map[];
      preResolvedResults := preResolved;
    }

    /** `resolve(dependency)`: the enforced list is empty. */
    method Resolve(dependency: Dependency) returns (r: Option<ResolutionResult>)
      requires Valid()
      modifies this
      ensures Valid()
      ensures KeyOf(dependency) in old(cachedResults) ==>
        r == Some(old(cachedResults)[KeyOf(dependency)])
        && cachedResults == old(cachedResults) && preResolvedResults == old(preResolvedResults)
      ensures KeyOf(dependency) !in old(cachedResults) ==>
        var a := AttemptOutcome(urlPinger, repositories, old(preResolvedResults), old(cachedResults), dependency, []);
        r == a.result && preResolvedResults == a.preResolved
        && cachedResults == (if r.Some? then old(cachedResults)[KeyOf(dependency) := r.value] else old(cachedResults))
    {
      r := ResolveWith(dependency, []);
    }

    /** `resolve(dependency, enforcedRepositories)` = `computeIfAbsent`: a memoised result
        is returned whatever the enforced list; otherwise `attemptResolve` runs and its
        result is memoised only when present, so a failure is asked again next time. */
    method ResolveWith(dependency: Dependency, enforced: seq<Enquirer>) returns (r: Option<ResolutionResult>)
      requires Valid()
      modifies this
      ensures Valid()
      ensures KeyOf(dependency) in old(cachedResults) ==>
        r == Some(old(cachedResults)[KeyOf(dependency)])
        && cachedResults == old(cachedResults) && preResolvedResults == old(preResolvedResults)
      ensures KeyOf(dependency) !in old(cachedResults) ==>
        var a := AttemptOutcome(urlPinger, repositories, old(preResolvedResults), old(cachedResults), dependency, enforced);
        r == a.result && preResolvedResults == a.preResolved
        && cachedResults == (if r.Some? then old(cachedResults)[KeyOf(dependency) := r.value] else old(cachedResults))
      ensures OnlyChecksRaised(old(preResolvedResults), preResolvedResults)
    {
      var key := KeyOf(dependency);
      if key in cachedResults {
        r := Some(cachedResults[key]);
        return;
      }
      r := AttemptResolve(dependency, enforced);
      if r.Some? {
        cachedResults := cachedResults[key := r.value];
      }
    }

    /** `attemptResolve(dependency, enforcedRepositories)` */
    method AttemptResolve(dependency: Dependency, enforced: seq<Enquirer>) returns (r: Option<ResolutionResult>)
      modifies this
      ensures var a := AttemptOutcome(urlPinger, repositories, old(preResolvedResults), old(cachedResults), dependency, enforced);
        r == a.result && preResolvedResults == a.preResolved && cachedResults == a.cached
    {
      var key := KeyOf(dependency);
      var earlier := if key in preResolvedResults then Some(preResolvedResults[key])
                     else if key in cachedResults then Some(cachedResults[key]) else None;
      assert earlier == EarlierResult(preResolvedResults, cachedResults, key);
      if earlier.Some? {
        var p := earlier.value;
        if p.checked {
          return earlier;
        }
        if p.isAggregator {
          return earlier;
        }
        var preResolvedUrl := p.repository.url.spec;
        var isDependencyValid := (|enforced| == 0 || exists i :: 0 <= i < |enforced| && ToString(enforced[i]) == preResolvedUrl)
          && PingsUrl(urlPinger, p.dependencyUrl);
        var isChecksumValid := p.checksumUrl.None? || urlPinger(p.checksumUrl.value);
        assert isDependencyValid && isChecksumValid <==> Revalidates(urlPinger, enforced, p);
        if isDependencyValid && isChecksumValid {
          var marked := SetChecked(p);
          if key in preResolvedResults {
            preResolvedResults := preResolvedResults[key := marked];
          } else {
            cachedResults := cachedResults[key := marked];
          }
          return Some(marked);
        }
      }
      var used := if |enforced| == 0 then repositories else enforced;
      r := FirstAnswer(used, dependency);
    }
  }

  /** Resolving the same dependency twice against unchanged repositories gives the same
      answer: a present result is memoised, and a failure leaves the state as it was. */
  method ResolveTwice(resolver: CachingDependencyResolver, d: Dependency)
    returns (first: Option<ResolutionResult>, second: Option<ResolutionResult>)
    requires resolver.Valid()
    modifies resolver
    ensures second == first
    ensures first.None? ==> resolver.cachedResults == old(resolver.cachedResults)
  {
    first := resolver.Resolve(d);
    second := resolver.Resolve(d);
  }
}
