/** `SlimJar.kt`'s `generateResolvedDependenciesFile`, the older twin of the Gradle task in
    `SlimJarTask.kt`: no global repositories and no policies; every dispatched dependency
    gets an entry, null (`None`) when it stays unresolved, and the earlier map is merged in
    with `putIfAbsent`, which also fills keys mapped to null. */
module SlimJarLegacy {
  import opened Wrappers
  import opened Dependencies
  import opened Results
  import opened Enquirers
  import opened Resolver
  import opened GradleDependencies
  import opened Maps

  /** The flow over the flattened dependencies, in order: the reuse filter, then
      `result[dep.toString()] = resolver.resolve(dep).orElse(null)`. */
  function DispatchAll(
    deps: seq<Dependency>,
    preResolved: map<Coordinate, ResolutionResult>,
    repositories: seq<Repository>,
    answer: Dependency -> Option<ResolutionResult>,
    acc: map<Coordinate, Option<ResolutionResult>>
  ): map<Coordinate, Option<ResolutionResult>>
  {
    if |deps| == 0 then acc
    else if NeedsResolution(deps[0], preResolved, repositories) then
      DispatchAll(deps[1..], preResolved, repositories, answer, acc[KeyOf(deps[0]) := answer(deps[0])])
    else DispatchAll(deps[1..], preResolved, repositories, answer, acc)
  }

  /** `putIfAbsent` of every earlier entry into the fresh results. */
  function MergeEarlier(results: map<Coordinate, Option<ResolutionResult>>, preResolved: map<Coordinate, ResolutionResult>)
    : map<Coordinate, Option<ResolutionResult>>
  {
    map k | k in results.Keys + preResolved.Keys ::
      if k in preResolved && (k !in results || results[k].None?) then Some(preResolved[k]) else results[k]
  }

  /** What `putIfAbsent` of the earlier entries leaves is `MergeEarlier`. */
  lemma MergedIsMergeEarlier(
    results: map<Coordinate, Option<ResolutionResult>>, preResolved: map<Coordinate, ResolutionResult>,
    merged: map<Coordinate, Option<ResolutionResult>>)
    requires merged.Keys == results.Keys + preResolved.Keys
    requires forall k :: k in merged ==>
      merged[k] == (if k in preResolved && (k !in results || results[k].None?) then Some(preResolved[k]) else results[k])
    ensures merged == MergeEarlier(results, preResolved)
  {
  }

  function Generate(
    slimDependencies: seq<Dependency>,
    declared: seq<DeclaredRepository>,
    selectMirrors: seq<Repository> -> seq<Repository>,
    factory: EnquirerFactory,
    preResolved: map<Coordinate, ResolutionResult>
  ): map<Coordinate, Option<ResolutionResult>>
  {
    var repositories := GetMavenRepos(declared);
    var answer := FirstAnswers(EnquirersFor(factory, selectMirrors(repositories)));
    MergeEarlier(DispatchAll(Flatten(DedupByKey(slimDependencies)), preResolved, repositories, answer, map[]), preResolved)
  }

  /** Over distinct coordinates, starting from no fresh entries: exactly the dispatched
      dependencies get an entry, and it is their answer, null included. */
  lemma {:induction false} DispatchEntries(
    deps: seq<Dependency>, preResolved: map<Coordinate, ResolutionResult>, repositories: seq<Repository>,
    answer: Dependency -> Option<ResolutionResult>, acc: map<Coordinate, Option<ResolutionResult>>)
    requires UniqueKeys(deps)
    requires forall i :: 0 <= i < |deps| ==> KeyOf(deps[i]) !in acc
    ensures var m := DispatchAll(deps, preResolved, repositories, answer, acc);
      (forall k :: k in acc ==> k in m && m[k] == acc[k])
      && (forall i :: 0 <= i < |deps| ==>
            if NeedsResolution(deps[i], preResolved, repositories)
            then KeyOf(deps[i]) in m && m[KeyOf(deps[i])] == answer(deps[i])
            else KeyOf(deps[i]) !in m)
      && (forall k :: k in m ==> k in acc || exists i :: (0 <= i < |deps| && KeyOf(deps[i]) == k
            && NeedsResolution(deps[i], preResolved, repositories)))
    decreases |deps|
  {
    if |deps| > 0 {
      var d := deps[0];
      var rest := deps[1..];
      assert forall i :: 1 <= i < |deps| ==> deps[i] == rest[i - 1];
      var acc' := if NeedsResolution(d, preResolved, repositories) then acc[KeyOf(d) := answer(d)] else acc;
      assert forall i :: 0 <= i < |rest| ==> KeyOf(rest[i]) != KeyOf(d);
      DispatchEntries(rest, preResolved, repositories, answer, acc');
    }
  }

  /** The written map: a dispatched dependency keeps a non-null fresh answer, and an earlier
      entry replaces a null answer; a dependency that is not dispatched keeps its earlier
      entry; every earlier key is present. */
  lemma MergedEntries(
    deps: seq<Dependency>, preResolved: map<Coordinate, ResolutionResult>, repositories: seq<Repository>,
    answer: Dependency -> Option<ResolutionResult>)
    requires UniqueKeys(deps)
    ensures var out := MergeEarlier(DispatchAll(deps, preResolved, repositories, answer, map[]), preResolved);
      (forall k :: k in preResolved ==> k in out && out[k].Some?)
      && (forall i :: 0 <= i < |deps| && NeedsResolution(deps[i], preResolved, repositories) ==>
            KeyOf(deps[i]) in out
            && out[KeyOf(deps[i])] == (if answer(deps[i]).None? && KeyOf(deps[i]) in preResolved
                                       then Some(preResolved[KeyOf(deps[i])]) else answer(deps[i])))
      && (forall i :: 0 <= i < |deps| && !NeedsResolution(deps[i], preResolved, repositories) ==>
            KeyOf(deps[i]) in out && out[KeyOf(deps[i])] == Some(preResolved[KeyOf(deps[i])]))
      && (forall k :: k in out ==> k in preResolved || exists i :: (0 <= i < |deps| && KeyOf(deps[i]) == k
            && NeedsResolution(deps[i], preResolved, repositories)))
  {
    DispatchEntries(deps, preResolved, repositories, answer, map[]);
  }

  /** The flow as a loop writing into `result`. */
  method RunFlow(
    resolver: CachingDependencyResolver,
    dependencies: seq<Dependency>,
    preResolved: map<Coordinate, ResolutionResult>,
    repositories: seq<Repository>
  ) returns (result: map<Coordinate, Option<ResolutionResult>>)
    requires UniqueKeys(dependencies)
    requires resolver.Valid() && resolver.preResolvedResults == map[] && resolver.cachedResults == map[]
    modifies resolver
    ensures result == DispatchAll(dependencies, preResolved, repositories, FirstAnswers(resolver.repositories), map[])
  {
    ghost var answer := FirstAnswers(resolver.repositories);
    result := map[];
    for i := 0 to |dependencies|
      invariant resolver.Valid() && resolver.preResolvedResults == map[]
      invariant resolver.cachedResults.Keys <= Keys(dependencies[..i])
      invariant DispatchAll(dependencies, preResolved, repositories, answer, map[])
        == DispatchAll(dependencies[i..], preResolved, repositories, answer, result)
    {
      var dep := dependencies[i];
      KeysStep(dependencies, i);
      if !NeedsResolution(dep, preResolved, repositories) {
        continue;
      }
      FreshAttempt(resolver.urlPinger, resolver.repositories, resolver.cachedResults, dep, []);
      var resolved := resolver.Resolve(dep);
      assert resolved == answer(dep);
      result := result[KeyOf(dep) := resolved];
    }
    assert dependencies[|dependencies|..] == [];
  }

  /** `generateResolvedDependenciesFile` as the source writes it. */
  method GenerateResolvedDependenciesFile(
    slimDependencies: seq<Dependency>,
    declared: seq<DeclaredRepository>,
    selectMirrors: seq<Repository> -> seq<Repository>,
    factory: EnquirerFactory,
    preResolved: map<Coordinate, ResolutionResult>
  ) returns (result: map<Coordinate, Option<ResolutionResult>>)
    ensures result == Generate(slimDependencies, declared, selectMirrors, factory, preResolved)
  {
    var dependencies := Flatten(DedupByKey(slimDependencies));
    var repositories := GetMavenRepos(declared);
    var resolver := new CachingDependencyResolver(factory.ping, selectMirrors(repositories), factory, map[]);
    var results := RunFlow(resolver, dependencies, preResolved, repositories);
    var earlier := map k | k in preResolved :: Some(preResolved[k]);
    result := PutAllIfAbsent(results, earlier, (v: Option<ResolutionResult>) => v.None?);
    assert earlier.Keys == preResolved.Keys;
    MergedIsMergeEarlier(results, preResolved, result);
  }
}
