/** `SlimJarTask.kt`'s `generateResolvedDependenciesFile`: the dependencies of the build are
    flattened, those without a reusable earlier resolution are resolved, the
    `requirePreResolve` and `requireChecksum` policies are applied, and the fresh results are
    merged with the earlier ones. Reading and writing the JSON file are not part of this
    model: the earlier map is a parameter and the merged map is the outcome. */
module SlimJarTask {
  import opened Wrappers
  import opened Dependencies
  import opened Results
  import opened Enquirers
  import opened Resolver
  import opened GradleDependencies
  import opened Maps

  /** The `error(...)` calls of the pipeline, and the `MalformedURLException` of a global
      repository string. */
  datatype TaskError =
    | UnresolvedDependency(dependency: Coordinate)
    | MissingChecksum(dependency: Coordinate)
    | MalformedGlobalRepository(spec: string)

  /** The two switches of the extension. */
  datatype Policy = Policy(requirePreResolve: bool, requireChecksum: bool)

  /** A dispatched dependency aborts the Gradle task: it stays unresolved while resolution is
      required, or it resolves without a checksum location while checksums are required. */
  predicate Fatal(answer: Option<ResolutionResult>, policy: Policy)
  {
    (answer.None? && policy.requirePreResolve)
    || (answer.Some? && policy.requireChecksum && answer.value.checksumUrl.None?)
  }

  function ErrorFor(d: Dependency, answer: Option<ResolutionResult>): TaskError
  {
    if answer.None? then UnresolvedDependency(KeyOf(d)) else MissingChecksum(KeyOf(d))
  }

  /** The enquirers for the global repositories: `URL(repoString)` for each string, failing at
      the first malformed one; no global repositories gives the empty (not enforced) list. */
  function GlobalEnquirers(factory: EnquirerFactory, globals: Option<seq<string>>, parseUrl: string -> Option<Url>)
    : (r: Result<seq<Enquirer>, TaskError>)
    ensures globals.None? ==> r == Ok([])
    ensures r.Ok? && globals.Some? ==> (|r.value| == |globals.value|
      && forall i :: 0 <= i < |globals.value| ==>
        parseUrl(globals.value[i]).Some? && r.value[i] == Enquirers.Create(factory, Repository(parseUrl(globals.value[i]).value)))
    ensures r.Err? <==> globals.Some? && exists i :: 0 <= i < |globals.value| && parseUrl(globals.value[i]).None?
    decreases if globals.Some? then |globals.value| else 0
  {
    match globals
    case None => Ok([])
    case Some(specs) =>
      if |specs| == 0 then Ok([])
      else
        var rest := GlobalEnquirers(factory, Some(specs[1..]), parseUrl);
        assert forall i :: 1 <= i < |specs| ==> specs[i] == specs[1..][i - 1];
        match parseUrl(specs[0])
        case None => Err(MalformedGlobalRepository(specs[0]))
        case Some(u) =>
          match rest
          case Err(e) => Err(e)
          case Ok(es) => Ok([Enquirers.Create(factory, Repository(u))] + es)
  }

  /** The flow over the flattened dependencies, in order, from the fresh results `acc`: the
      reuse filter, resolution (`answer`), the two policies (the first fatal dependency
      aborts), and `results[dep.toString()] = result`. */
  function Dispatch(
    deps: seq<Dependency>,
    preResolved: map<Coordinate, ResolutionResult>,
    repositories: seq<Repository>,
    answer: Dependency -> Option<ResolutionResult>,
    policy: Policy,
    acc: map<Coordinate, ResolutionResult>
  ): Result<map<Coordinate, ResolutionResult>, TaskError>
  {
    if |deps| == 0 then Ok(acc)
    else
      var d := deps[0];
      if !NeedsResolution(d, preResolved, repositories) then
        Dispatch(deps[1..], preResolved, repositories, answer, policy, acc)
      else if Fatal(answer(d), policy) then Err(ErrorFor(d, answer(d)))
      else if answer(d).None? then Dispatch(deps[1..], preResolved, repositories, answer, policy, acc)
      else Dispatch(deps[1..], preResolved, repositories, answer, policy, acc[KeyOf(d) := answer(d).value])
  }

  /** The whole of `generateResolvedDependenciesFile`, after the earlier map has been read:
      the fresh results take precedence and the earlier entries fill the rest. */
  function Generate(
    slimDependencies: seq<Dependency>,
    declared: seq<DeclaredRepository>,
    selectMirrors: seq<Repository> -> seq<Repository>,
    factory: EnquirerFactory,
    preResolved: map<Coordinate, ResolutionResult>,
    globals: Option<seq<string>>,
    parseUrl: string -> Option<Url>,
    policy: Policy
  ): Result<map<Coordinate, ResolutionResult>, TaskError>
  {
    var repositories := GetMavenRepos(declared);
    var defaults := EnquirersFor(factory, selectMirrors(repositories));
    match GlobalEnquirers(factory, globals, parseUrl)
    case Err(e) => Err(e)
    case Ok(enforced) =>
      match Dispatch(Flatten(DedupByKey(slimDependencies)), preResolved, repositories, FirstAnswers(UsedEnquirers(enforced, defaults)), policy, map[])
      case Err(e) => Err(e)
      case Ok(results) => Ok(preResolved + results)
  }

  /** A dispatched dependency is fatal. */
  predicate FatalAt(deps: seq<Dependency>, i: int, preResolved: map<Coordinate, ResolutionResult>,
                    repositories: seq<Repository>, answer: Dependency -> Option<ResolutionResult>, policy: Policy)
    requires 0 <= i < |deps|
  {
    NeedsResolution(deps[i], preResolved, repositories) && Fatal(answer(deps[i]), policy)
  }

  /** The flow fails exactly when some dispatched dependency is fatal, and then with the error
      of the first such dependency. */
  lemma {:induction false} DispatchFails(
    deps: seq<Dependency>, preResolved: map<Coordinate, ResolutionResult>, repositories: seq<Repository>,
    answer: Dependency -> Option<ResolutionResult>, policy: Policy, acc: map<Coordinate, ResolutionResult>)
    ensures var r := Dispatch(deps, preResolved, repositories, answer, policy, acc);
      (r.Err? <==> exists i :: 0 <= i < |deps| && FatalAt(deps, i, preResolved, repositories, answer, policy))
      && (r.Err? ==> exists i :: (0 <= i < |deps| && FatalAt(deps, i, preResolved, repositories, answer, policy)
            && r.error == ErrorFor(deps[i], answer(deps[i]))
            && (forall j :: 0 <= j < i ==> !FatalAt(deps, j, preResolved, repositories, answer, policy))))
    decreases |deps|
  {
    if |deps| > 0 {
      var d := deps[0];
      var rest := deps[1..];
      if !FatalAt(deps, 0, preResolved, repositories, answer, policy) {
        var acc' := if NeedsResolution(d, preResolved, repositories) && answer(d).Some? then acc[KeyOf(d) := answer(d).value] else acc;
        DispatchFails(rest, preResolved, repositories, answer, policy, acc');
        assert forall i :: 1 <= i < |deps| ==>
          (FatalAt(deps, i, preResolved, repositories, answer, policy) <==> FatalAt(rest, i - 1, preResolved, repositories, answer, policy));
        var r := Dispatch(deps, preResolved, repositories, answer, policy, acc);
        if r.Err? {
          var i :| 0 <= i < |rest| && FatalAt(rest, i, preResolved, repositories, answer, policy)
            && r.error == ErrorFor(rest[i], answer(rest[i]))
            && (forall j :: 0 <= j < i ==> !FatalAt(rest, j, preResolved, repositories, answer, policy));
          assert FatalAt(deps, i + 1, preResolved, repositories, answer, policy);
        }
      }
    }
  }

  /** A successful flow, over dependencies with distinct coordinates none of which is among
      the fresh results yet, keeps `acc`, records every dispatched dependency that resolves
      with its answer, records no unresolved one, and adds nothing else. */
  lemma {:induction false} DispatchRecords(
    deps: seq<Dependency>, preResolved: map<Coordinate, ResolutionResult>, repositories: seq<Repository>,
    answer: Dependency -> Option<ResolutionResult>, policy: Policy, acc: map<Coordinate, ResolutionResult>)
    requires UniqueKeys(deps)
    requires forall i :: 0 <= i < |deps| ==> KeyOf(deps[i]) !in acc
    requires Dispatch(deps, preResolved, repositories, answer, policy, acc).Ok?
    ensures var m := Dispatch(deps, preResolved, repositories, answer, policy, acc).value;
      (forall k :: k in acc ==> k in m && m[k] == acc[k])
      && (forall i :: 0 <= i < |deps| && NeedsResolution(deps[i], preResolved, repositories) ==>
            if answer(deps[i]).Some? then KeyOf(deps[i]) in m && m[KeyOf(deps[i])] == answer(deps[i]).value
            else KeyOf(deps[i]) !in m)
      && (forall k :: k in m ==> k in acc || exists i :: (0 <= i < |deps| && KeyOf(deps[i]) == k
            && NeedsResolution(deps[i], preResolved, repositories) && answer(deps[i]).Some?))
    decreases |deps|
  {
    if |deps| > 0 {
      var d := deps[0];
      var rest := deps[1..];
      assert forall i :: 1 <= i < |deps| ==> deps[i] == rest[i - 1];
      var acc' := if NeedsResolution(d, preResolved, repositories) && answer(d).Some? then acc[KeyOf(d) := answer(d).value] else acc;
      assert forall i :: 0 <= i < |rest| ==> KeyOf(rest[i]) != KeyOf(d);
      DispatchRecords(rest, preResolved, repositories, answer, policy, acc');
    }
  }

  /** With `requirePreResolve`, a flow that succeeds has resolved every dispatched
      dependency; with `requireChecksum`, every resolved one has a checksum location. */
  lemma PoliciesHold(
    deps: seq<Dependency>, preResolved: map<Coordinate, ResolutionResult>, repositories: seq<Repository>,
    answer: Dependency -> Option<ResolutionResult>, policy: Policy, acc: map<Coordinate, ResolutionResult>)
    requires Dispatch(deps, preResolved, repositories, answer, policy, acc).Ok?
    ensures forall i :: 0 <= i < |deps| && NeedsResolution(deps[i], preResolved, repositories) ==>
      (policy.requirePreResolve ==> answer(deps[i]).Some?)
      && (policy.requireChecksum && answer(deps[i]).Some? ==> answer(deps[i]).value.checksumUrl.Some?)
  {
    DispatchFails(deps, preResolved, repositories, answer, policy, acc);
    forall i | 0 <= i < |deps| && NeedsResolution(deps[i], preResolved, repositories)
      ensures (policy.requirePreResolve ==> answer(deps[i]).Some?)
        && (policy.requireChecksum && answer(deps[i]).Some? ==> answer(deps[i]).value.checksumUrl.Some?)
    {
      assert !FatalAt(deps, i, preResolved, repositories, answer, policy);
    }
  }

  /** The map the Gradle task writes after a successful flow over distinct coordinates, `preResolved
      + results` (see `Generate`): every earlier entry is kept unless a dispatched dependency
      resolved afresh, which then gives the entry, and no other key appears. */
  lemma MergedResult(
    deps: seq<Dependency>, preResolved: map<Coordinate, ResolutionResult>, repositories: seq<Repository>,
    answer: Dependency -> Option<ResolutionResult>, policy: Policy)
    requires UniqueKeys(deps)
    requires Dispatch(deps, preResolved, repositories, answer, policy, map[]).Ok?
    ensures var out := preResolved + Dispatch(deps, preResolved, repositories, answer, policy, map[]).value;
      (forall k :: k in preResolved ==> k in out)
      && (forall i :: 0 <= i < |deps| ==>
            if NeedsResolution(deps[i], preResolved, repositories) && answer(deps[i]).Some?
            then KeyOf(deps[i]) in out && out[KeyOf(deps[i])] == answer(deps[i]).value
            else (KeyOf(deps[i]) in out <==> KeyOf(deps[i]) in preResolved))
      && (forall k :: k in out && k !in preResolved ==>
            exists i :: (0 <= i < |deps| && KeyOf(deps[i]) == k
              && NeedsResolution(deps[i], preResolved, repositories) && answer(deps[i]).Some?))
      && (forall k :: k in preResolved ==>
            out[k] == preResolved[k]
            || exists i :: (0 <= i < |deps| && KeyOf(deps[i]) == k
                 && NeedsResolution(deps[i], preResolved, repositories) && answer(deps[i]).Some?))
  {
    DispatchRecords(deps, preResolved, repositories, answer, policy, map[]);
  }

  /** The flow of `generateResolvedDependenciesFile` as a loop: each dispatched dependency is
      resolved by `resolver`, the policies are checked, and the answer is written into
      `results`. */
  method RunFlow(
    resolver: CachingDependencyResolver,
    dependencies: seq<Dependency>,
    preResolved: map<Coordinate, ResolutionResult>,
    repositories: seq<Repository>,
    enforced: seq<Enquirer>,
    policy: Policy
  ) returns (outcome: Result<map<Coordinate, ResolutionResult>, TaskError>)
    requires UniqueKeys(dependencies)
    requires resolver.Valid() && resolver.preResolvedResults == map[] && resolver.cachedResults == map[]
    modifies resolver
    ensures outcome == Dispatch(dependencies, preResolved, repositories,
      FirstAnswers(UsedEnquirers(enforced, resolver.repositories)), policy, map[])
  {
    ghost var answer := FirstAnswers(UsedEnquirers(enforced, resolver.repositories));
    var results: map<Coordinate, ResolutionResult> := map[];
    for i := 0 to |dependencies|
      invariant resolver.Valid() && resolver.preResolvedResults == map[]
      invariant resolver.cachedResults.Keys <= Keys(dependencies[..i])
      invariant forall j :: i <= j < |dependencies| ==> KeyOf(dependencies[j]) !in results
      invariant Dispatch(dependencies, preResolved, repositories, answer, policy, map[])
        == Dispatch(dependencies[i..], preResolved, repositories, answer, policy, results)
    {
      var dep := dependencies[i];
      KeysStep(dependencies, i);
      if !NeedsResolution(dep, preResolved, repositories) {
        continue;
      }
      FreshAttempt(resolver.urlPinger, resolver.repositories, resolver.cachedResults, dep, enforced);
      var result := resolver.ResolveWith(dep, enforced);
      assert result == answer(dep);
      if result.None? {
        if policy.requirePreResolve {
          return Err(UnresolvedDependency(KeyOf(dep)));
        }
        continue;
      }
      if policy.requireChecksum && result.value.checksumUrl.None? {
        return Err(MissingChecksum(KeyOf(dep)));
      }
      results := results[KeyOf(dep) := result.value];
    }
    assert dependencies[|dependencies|..] == [];
    return Ok(results);
  }

  /** `generateResolvedDependenciesFile` as the source writes it: a resolver with an empty
      earlier map over the mirrored repositories, the flow, and the `putIfAbsent` merge of
      the earlier map into the fresh results. */
  method GenerateResolvedDependenciesFile(
    slimDependencies: seq<Dependency>,
    declared: seq<DeclaredRepository>,
    selectMirrors: seq<Repository> -> seq<Repository>,
    factory: EnquirerFactory,
    preResolved: map<Coordinate, ResolutionResult>,
    globals: Option<seq<string>>,
    parseUrl: string -> Option<Url>,
    policy: Policy
  ) returns (outcome: Result<map<Coordinate, ResolutionResult>, TaskError>)
    ensures outcome == Generate(slimDependencies, declared, selectMirrors, factory, preResolved, globals, parseUrl, policy)
  {
    var dependencies := Flatten(DedupByKey(slimDependencies));
    var repositories := GetMavenRepos(declared);
    var resolver := new CachingDependencyResolver(factory.ping, selectMirrors(repositories), factory, map[]);
    var global := GlobalEnquirers(factory, globals, parseUrl);
    if global.Err? {
      return Err(global.error);
    }
    var flow := RunFlow(resolver, dependencies, preResolved, repositories, global.value, policy);
    if flow.Err? {
      return Err(flow.error);
    }
    var merged := PutAllIfAbsent(flow.value, preResolved, _ => false);
    outcome := Ok(merged);
  }
}
