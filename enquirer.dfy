/** `PingingRepositoryEnquirer`: asks one repository for a dependency by pinging the
    candidate URLs its path strategies produce. Path strategies, the URL parser, the pinger
    and the SHA-256 download-and-digest fallback are supplied as functions. */
module Enquirers {
  import opened Wrappers
  import opened Dependencies
  import opened Results

  /** `PathResolutionStrategy.pathTo(repository, dependency)`: candidate URL strings, in the
      order the returned collection is iterated. */
  type PathStrategy = (Repository, Dependency) -> seq<string>

  /** One enquirer per repository. `isWellFormed` says which strings `new URL(path)`
      accepts; `ping` is the `URLPinger`; `fallbackChecksum(url)` is the fallback branch that
      downloads and digests the artifact at `url`, with `None` when that throws. */
  datatype Enquirer = PingingRepositoryEnquirer(
    repository: Repository,
    dependencyStrategy: PathStrategy,
    checksumStrategy: PathStrategy,
    pomStrategy: PathStrategy,
    ping: Url -> bool,
    isWellFormed: string -> bool,
    fallbackChecksum: Url -> Option<Url>)

  /** `PingingRepositoryEnquirerFactory`: the strategies and pinger shared by every
      enquirer it creates. */
  datatype EnquirerFactory = PingingRepositoryEnquirerFactory(
    dependencyStrategy: PathStrategy,
    checksumStrategy: PathStrategy,
    pomStrategy: PathStrategy,
    ping: Url -> bool,
    isWellFormed: string -> bool,
    fallbackChecksum: Url -> Option<Url>)

  /** `factory.create(repository)` */
  function Create(f: EnquirerFactory, repository: Repository): (e: Enquirer)
    ensures e.repository == repository && ToString(e) == repository.url.spec
    ensures e.ping == f.ping && e.isWellFormed == f.isWellFormed
  {
    PingingRepositoryEnquirer(repository, f.dependencyStrategy, f.checksumStrategy, f.pomStrategy,
      f.ping, f.isWellFormed, f.fallbackChecksum)
  }

  /** `repositories.stream().map(factory::create)`: one enquirer per repository. */
  function EnquirersFor(f: EnquirerFactory, repositories: seq<Repository>): (es: seq<Enquirer>)
    ensures |es| == |repositories|
    ensures forall i :: 0 <= i < |es| ==> es[i] == Create(f, repositories[i])
  {
    seq(|repositories|, i requires 0 <= i < |repositories| => Create(f, repositories[i]))
  }

  /** `toString()`: the repository's URL string; the caching resolver matches enforced
      repositories by it. */
  function ToString(e: Enquirer): string
  {
    e.repository.url.spec
  }

  /** `createURL(path)`: `None` where `new URL(path)` throws MalformedURLException. */
  function CreateUrl(e: Enquirer, path: string): (u: Option<Url>)
    ensures u.Some? <==> e.isWellFormed(path)
    ensures u.Some? ==> u.value.spec == path
  {
    if e.isWellFormed(path) then Some(Url(path)) else None
  }

  /** `path` survives `.map(this::createURL).filter(urlPinger::ping)`; a malformed path
      (a `null` URL) never pings. */
  predicate Pings(e: Enquirer, path: string)
  {
    var u := CreateUrl(e, path);
    u.Some? && e.ping(u.value)
  }

  /** `paths.stream().map(this::createURL).filter(urlPinger::ping).findFirst()`: the first
      candidate, in strategy order, that is well-formed and pings. */
  function FirstPinging(e: Enquirer, paths: seq<string>): (u: Option<Url>)
    ensures u.None? <==> forall i :: 0 <= i < |paths| ==> !Pings(e, paths[i])
    ensures u.Some? ==> exists i :: (0 <= i < |paths| && Pings(e, paths[i]) && u.value == Url(paths[i])
      && (forall j :: 0 <= j < i ==> !Pings(e, paths[j])))
  {
    if paths == [] then None
    else if Pings(e, paths[0]) then CreateUrl(e, paths[0])
    else
      var u := FirstPinging(e, paths[1..]);
      assert forall i :: 1 <= i < |paths| ==> paths[i] == paths[1..][i - 1];
      u
  }

  /** `enquire(dependency)`. The first pinging artifact URL wins; its checksum location is
      the first pinging checksum candidate or, failing that, the fallback. Without an
      artifact, a pinging POM gives an aggregator result, and otherwise `None`. */
  function Enquire(e: Enquirer, d: Dependency): (r: Option<ResolutionResult>)
    ensures r.Some? ==> Consistent(r.value) && CheckedOrAggregator(r.value)
    ensures r.Some? ==> r.value.repository == e.repository
  {
    match FirstPinging(e, e.dependencyStrategy(e.repository, d))
    case Some(url) =>
      var resolvedChecksum := FirstPinging(e, e.checksumStrategy(e.repository, d));
      if resolvedChecksum.None? then
        var url1 := FirstPinging(e, e.dependencyStrategy(e.repository, d));
        if url1.Some? && e.fallbackChecksum(url1.value).Some? then
          Some(ResolutionResult(e.repository, Some(url), e.fallbackChecksum(url1.value), false, true))
        else
          Some(ResolutionResult(e.repository, Some(url), None, false, true))
      else
        Some(ResolutionResult(e.repository, Some(url), resolvedChecksum, false, true))
    case None =>
      match FirstPinging(e, e.pomStrategy(e.repository, d))
      case Some(_) => Some(ResolutionResult(e.repository, None, None, true, false))
      case None => None
  }

  /** Whenever some artifact candidate pings, the result is present, not an aggregator,
      checked, from this repository, and its URL is the first pinging candidate in strategy
      order -- whether or not a checksum was found. */
  lemma ArtifactFound(e: Enquirer, d: Dependency, i: nat)
    requires var paths := e.dependencyStrategy(e.repository, d);
      i < |paths| && Pings(e, paths[i]) && forall j :: 0 <= j < i ==> !Pings(e, paths[j])
    ensures var r := Enquire(e, d);
      r.Some? && !r.value.isAggregator && r.value.checked && r.value.repository == e.repository
      && r.value.dependencyUrl == Some(Url(e.dependencyStrategy(e.repository, d)[i]))
  {
    var paths := e.dependencyStrategy(e.repository, d);
    var u := FirstPinging(e, paths);
    var k :| 0 <= k < |paths| && Pings(e, paths[k]) && u.value == Url(paths[k])
      && (forall j :: 0 <= j < k ==> !Pings(e, paths[j]));
    assert k == i;
  }

  /** The checksum location is the first pinging checksum candidate when there is one; the
      fallback is consulted only when there is none. */
  lemma ChecksumSelection(e: Enquirer, d: Dependency)
    requires FirstPinging(e, e.dependencyStrategy(e.repository, d)).Some?
    ensures var cs := FirstPinging(e, e.checksumStrategy(e.repository, d));
      var url := FirstPinging(e, e.dependencyStrategy(e.repository, d)).value;
      Enquire(e, d).value.checksumUrl == (if cs.Some? then cs else e.fallbackChecksum(url))
  {
  }

  /** With no pinging artifact, the result is an aggregator with no URL and not checked
      exactly when some POM candidate pings, and absent otherwise. */
  lemma NoArtifact(e: Enquirer, d: Dependency)
    requires forall i :: 0 <= i < |e.dependencyStrategy(e.repository, d)| ==>
      !Pings(e, e.dependencyStrategy(e.repository, d)[i])
    ensures var poms := e.pomStrategy(e.repository, d);
      Enquire(e, d) == if exists i :: 0 <= i < |poms| && Pings(e, poms[i])
        then Some(ResolutionResult(e.repository, None, None, true, false))
        else None
  {
  }

  /** `enquire` returns null exactly when neither an artifact nor a POM candidate pings. */
  lemma EnquireAbsent(e: Enquirer, d: Dependency)
    ensures Enquire(e, d).None? <==>
      (forall i :: 0 <= i < |e.dependencyStrategy(e.repository, d)| ==>
        !Pings(e, e.dependencyStrategy(e.repository, d)[i]))
      && (forall i :: 0 <= i < |e.pomStrategy(e.repository, d)| ==>
        !Pings(e, e.pomStrategy(e.repository, d)[i]))
  {
  }

  /** A strategy that yields only malformed paths, used for artifacts, checksums and POMs
      alike, gives a null enquiry whatever the pinger says. */
  lemma MalformedPathsOnly(e: Enquirer, d: Dependency)
    requires e.checksumStrategy == e.dependencyStrategy && e.pomStrategy == e.dependencyStrategy
    requires forall i :: 0 <= i < |e.dependencyStrategy(e.repository, d)| ==>
      !e.isWellFormed(e.dependencyStrategy(e.repository, d)[i])
    ensures Enquire(e, d).None?
  {
  }

  /** A pinger that accepts everything and a strategy yielding one well-formed URL give a
      present, checked result at that URL. */
  lemma AcceptingPinger(e: Enquirer, d: Dependency, path: string)
    requires forall u :: e.ping(u)
    requires e.dependencyStrategy(e.repository, d) == [path] && e.isWellFormed(path)
    ensures Enquire(e, d).Some? && Enquire(e, d).value.dependencyUrl == Some(Url(path))
  {
    ArtifactFound(e, d, 0);
  }
}
