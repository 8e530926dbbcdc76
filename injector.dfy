/** `SimpleDependencyInjector`: injects the jars of dependencies and, after each, of its
    transitive dependencies, into an `Injectable`, guarded by the list of dependencies being
    processed and by the helper's "already injected" test. */
module Injector {
  import opened Wrappers
  import opened Dependencies
  import opened Results

  /** What `injectionHelper.fetch(dependency)` followed by `injectable.inject(url)` does: no
      jar (null), a jar whose URL is injected, or an exception of one of the three kinds the
      source treats differently. An exception from `inject` has the same effect as one from
      `fetch`: the jar is not added. */
  datatype FetchOutcome =
    | NoJar
    | Jar(url: Url)
    | IoFailure          // IOException
    | SwallowedFailure   // IllegalAccessException, InvocationTargetException, URISyntaxException
    | FatalFailure       // any other ReflectiveOperationException, InterruptedException

  /** `InjectionHelper`: the two questions the injector asks about a dependency. */
  datatype InjectionHelper = InjectionHelper(isInjected: Dependency -> bool, fetch: Dependency -> FetchOutcome)

  /** The exceptions that leave `injectDependencies`. */
  datatype Failure =
    | InjectionFailed(dependency: Coordinate)   // InjectionFailedException
    | Fatal(dependency: Coordinate)             // RuntimeException wrapping the cause

  /** The dependencies being processed and the jar URLs injected so far. */
  datatype State = State(processing: seq<Coordinate>, injected: seq<Url>)

  datatype Outcome = Outcome(state: State, failure: Option<Failure>)

  /** `List.remove(Object)`: the first occurrence of `c`, if any, is removed. */
  function Remove(s: seq<Coordinate>, c: Coordinate): (r: seq<Coordinate>)
    ensures c !in s ==> r == s
    ensures c in s ==> |r| == |s| - 1
    ensures forall x :: x in r ==> x in s
    ensures forall x :: x in s && x != c ==> x in r
  {
    if |s| == 0 then []
    else if s[0] == c then s[1..]
    else [s[0]] + Remove(s[1..], c)
  }

  /** No coordinate is listed twice. */
  predicate NoDuplicates(s: seq<Coordinate>)
  {
    forall i, j :: 0 <= i < j < |s| ==> s[i] != s[j]
  }

  lemma {:induction false} RemoveNoDuplicates(s: seq<Coordinate>, c: Coordinate)
    ensures NoDuplicates(s) ==> NoDuplicates(Remove(s, c)) && c !in Remove(s, c)
  {
    if !NoDuplicates(s) {
    } else if |s| > 0 && s[0] != c {
      var t := s[1..];
      assert NoDuplicates(t) by {
        forall i, j | 0 <= i < j < |t| ensures t[i] != t[j] {
          assert t[i] == s[i + 1] && t[j] == s[j + 1];
        }
      }
      RemoveNoDuplicates(t, c);
      assert s[0] !in t;
    } else if |s| > 0 {
      assert forall i :: 1 <= i < |s| ==> s[i] != s[0];
    }
  }

  /** Some dependency of the forest `ds`, at any depth, was fetched as the jar `u`. */
  ghost predicate FetchedIn(h: InjectionHelper, ds: seq<Dependency>, u: Url)
  {
    exists x :: Occurs(x, ds) && h.fetch(x) == Jar(u)
  }

  /** The URLs injected from `st` to `o` were appended, and each was fetched for a dependency
      of the forest `ds`. */
  ghost predicate InjectedFrom(h: InjectionHelper, ds: seq<Dependency>, st: State, o: Outcome)
  {
    st.injected <= o.state.injected
    && forall j :: |st.injected| <= j < |o.state.injected| ==> FetchedIn(h, ds, o.state.injected[j])
  }

  /** `injectDependencies(injectable, helper, dependencies)`: the dependencies in order; the
      first exception ends the walk. */
  function InjectAll(h: InjectionHelper, ds: seq<Dependency>, st: State): (o: Outcome)
    decreases ds
    ensures InjectedFrom(h, ds, st, o)
    ensures forall c :: c in st.processing ==> c in o.state.processing
    ensures NoDuplicates(st.processing) ==> NoDuplicates(o.state.processing)
  {
    if |ds| == 0 then Outcome(st, None)
    else
      var before := InjectAll(h, ds[..|ds| - 1], st);
      InjectedFromGrow(h, ds, st, before);
      if before.failure.Some? then before
      else
        var o := InjectOne(h, ds[|ds| - 1], before.state);
        InjectedFromLast(h, ds, st, before, o);
        o
  }

  /** The `forEach` body for one dependency. */
  function InjectOne(h: InjectionHelper, d: Dependency, st: State): (o: Outcome)
    decreases d
    ensures InjectedFrom(h, [d], st, o)
    ensures forall c :: c in st.processing ==> c in o.state.processing
    ensures NoDuplicates(st.processing) ==> NoDuplicates(o.state.processing)
  {
    var k := KeyOf(d);
    if h.isInjected(d) || k in st.processing then Outcome(st, None)
    else
      var processing := st.processing + [k];
      assert NoDuplicates(st.processing) ==> NoDuplicates(processing);
      match h.fetch(d)
      case NoJar => Outcome(State(processing, st.injected), None)
      case IoFailure => Outcome(State(processing, st.injected), Some(InjectionFailed(k)))
      case FatalFailure => Outcome(State(processing, st.injected), Some(Fatal(k)))
      case SwallowedFailure =>
        RemoveKeeps(processing, k, st.processing);
        RemoveNoDuplicates(processing, k);
        Outcome(State(Remove(processing, k), st.injected), None)
      case Jar(u) =>
        var o := InjectAll(h, d.transitive, State(processing, st.injected + [u]));
        InjectedFromJar(h, d, st, u, o);
        if o.failure.Some? then o
        else
          RemoveKeeps(o.state.processing, k, st.processing);
          RemoveNoDuplicates(o.state.processing, k);
          Outcome(State(Remove(o.state.processing, k), o.state.injected), None)
  }

  lemma RemoveKeeps(s: seq<Coordinate>, c: Coordinate, kept: seq<Coordinate>)
    requires forall x :: x in kept ==> x in s
    requires c !in kept
    ensures forall x :: x in kept ==> x in Remove(s, c)
  {
  }

  lemma InjectedFromGrow(h: InjectionHelper, ds: seq<Dependency>, st: State, o: Outcome)
    requires |ds| > 0 && InjectedFrom(h, ds[..|ds| - 1], st, o)
    ensures InjectedFrom(h, ds, st, o)
  {
    OccursSplitLast(ds);
    forall j | |st.injected| <= j < |o.state.injected| ensures FetchedIn(h, ds, o.state.injected[j]) {
      var u := o.state.injected[j];
      var x :| Occurs(x, ds[..|ds| - 1]) && h.fetch(x) == Jar(u);
      assert Occurs(x, ds);
    }
  }

  lemma OccursInSingleton(d: Dependency)
    ensures forall x :: Occurs(x, [d]) <==> x == d || Occurs(x, d.transitive)
  {
    assert [d][0] == d;
  }

  lemma InjectedFromLast(h: InjectionHelper, ds: seq<Dependency>, st: State, mid: Outcome, o: Outcome)
    requires |ds| > 0 && InjectedFrom(h, ds, st, mid) && InjectedFrom(h, [ds[|ds| - 1]], mid.state, o)
    ensures InjectedFrom(h, ds, st, o)
  {
    OccursSplitLast(ds);
    OccursInSingleton(ds[|ds| - 1]);
    forall j | |st.injected| <= j < |o.state.injected| ensures FetchedIn(h, ds, o.state.injected[j]) {
      var u := o.state.injected[j];
      if j < |mid.state.injected| {
        assert u == mid.state.injected[j];
      } else {
        var x :| Occurs(x, [ds[|ds| - 1]]) && h.fetch(x) == Jar(u);
        assert Occurs(x, ds);
      }
    }
  }

  lemma InjectedFromJar(h: InjectionHelper, d: Dependency, st: State, u: Url, o: Outcome)
    requires h.fetch(d) == Jar(u)
    requires InjectedFrom(h, d.transitive, State(st.processing + [KeyOf(d)], st.injected + [u]), o)
    ensures InjectedFrom(h, [d], st, o)
  {
    OccursInSingleton(d);
    forall j | |st.injected| <= j < |o.state.injected| ensures FetchedIn(h, [d], o.state.injected[j]) {
      var v := o.state.injected[j];
      if j == |st.injected| {
        assert v == u;
        assert Occurs(d, [d]) && h.fetch(d) == Jar(v);
      } else {
        var x :| Occurs(x, d.transitive) && h.fetch(x) == Jar(v);
        assert Occurs(x, [d]);
      }
    }
  }

  /** `Remove` takes back an append of a coordinate that was not yet listed. */
  lemma {:induction false} RemoveAppended(s: seq<Coordinate>, c: Coordinate)
    requires c !in s
    ensures Remove(s + [c], c) == s
  {
    if |s| > 0 {
      assert (s + [c])[1..] == s[1..] + [c];
      RemoveAppended(s[1..], c);
      assert [s[0]] + s[1..] == s;
    }
  }

  /** Once a dependency fails, the walk over the rest of the list adds nothing. */
  lemma {:induction false} InjectAllStops(h: InjectionHelper, ds: seq<Dependency>, n: nat, st: State)
    requires n <= |ds| && InjectAll(h, ds[..n], st).failure.Some?
    ensures InjectAll(h, ds, st) == InjectAll(h, ds[..n], st)
    decreases |ds|
  {
    if n == |ds| {
      assert ds[..n] == ds;
    } else {
      var init := ds[..|ds| - 1];
      assert init[..n] == ds[..n];
      InjectAllStops(h, init, n, st);
    }
  }

  /** One more dependency of the list: the walk over `ds[..i + 1]` continues that over `ds[..i]`. */
  lemma InjectAllStep(h: InjectionHelper, ds: seq<Dependency>, i: nat, st: State)
    requires i < |ds|
    ensures var before := InjectAll(h, ds[..i], st);
      InjectAll(h, ds[..i + 1], st)
      == if before.failure.Some? then before else InjectOne(h, ds[i], before.state)
  {
    assert ds[..i + 1][..i] == ds[..i];
  }

  /** line 61 and line 63: a dependency the helper reports as injected, or one already being
      processed, is passed over and nothing changes. */
  lemma SkipsInjectedOrProcessing(h: InjectionHelper, d: Dependency, st: State)
    requires h.isInjected(d) || KeyOf(d) in st.processing
    ensures InjectOne(h, d, st) == Outcome(st, None)
  {
  }

  /** The only ways for a dependency to leave the state exactly as it was: it is skipped, or
      its fetch fails with an exception that is only printed. */
  lemma UnchangedExactly(h: InjectionHelper, d: Dependency, st: State)
    ensures InjectOne(h, d, st) == Outcome(st, None)
      <==> h.isInjected(d) || KeyOf(d) in st.processing || h.fetch(d) == SwallowedFailure
  {
    var k := KeyOf(d);
    if !h.isInjected(d) && k !in st.processing {
      match h.fetch(d)
      case SwallowedFailure =>
        RemoveAppended(st.processing, k);
      case NoJar =>
        assert |st.processing + [k]| != |st.processing|;
      case IoFailure =>
      case FatalFailure =>
      case Jar(u) =>
        var o := InjectOne(h, d, st);
        assert st.injected + [u] <= o.state.injected;
        assert |o.state.injected| > |st.injected|;
    }
  }

  /** After a jar is fetched, its URL is injected first, and every URL injected after it was
      fetched for one of its transitive dependencies. */
  lemma JarBeforeTransitives(h: InjectionHelper, d: Dependency, st: State, u: Url)
    requires !h.isInjected(d) && KeyOf(d) !in st.processing && h.fetch(d) == Jar(u)
    ensures var o := InjectOne(h, d, st);
      && st.injected + [u] <= o.state.injected
      && (forall j :: |st.injected| < j < |o.state.injected| ==> FetchedIn(h, d.transitive, o.state.injected[j]))
  {
    var o := InjectAll(h, d.transitive, State(st.processing + [KeyOf(d)], st.injected + [u]));
    assert InjectOne(h, d, st).state.injected == o.state.injected;
  }

  /** Without a jar nothing is injected and the dependency stays in the processing list, so
      every later encounter of it is passed over. */
  lemma NoJarStaysProcessing(h: InjectionHelper, d: Dependency, st: State, later: seq<Dependency>)
    requires !h.isInjected(d) && KeyOf(d) !in st.processing && h.fetch(d) == NoJar
    ensures var o := InjectOne(h, d, st);
      && o == Outcome(State(st.processing + [KeyOf(d)], st.injected), None)
      && (forall rest :: InjectOne(h, d, InjectAll(h, rest, o.state).state) == Outcome(InjectAll(h, rest, o.state).state, None))
  {
    var o := InjectOne(h, d, st);
    forall rest ensures InjectOne(h, d, InjectAll(h, rest, o.state).state) == Outcome(InjectAll(h, rest, o.state).state, None) {
      assert KeyOf(d) in o.state.processing;
    }
  }

  /** A dependency whose walk ends normally, or whose fetch fails with an exception that is
      only printed, is no longer being processed afterwards. */
  lemma CompletedRemoved(h: InjectionHelper, d: Dependency, st: State)
    requires NoDuplicates(st.processing)
    requires !h.isInjected(d) && KeyOf(d) !in st.processing
    requires h.fetch(d).Jar? || h.fetch(d) == SwallowedFailure
    ensures var o := InjectOne(h, d, st);
      o.failure.None? ==> KeyOf(d) !in o.state.processing
  {
    var k := KeyOf(d);
    var processing := st.processing + [k];
    assert NoDuplicates(processing);
    RemoveNoDuplicates(processing, k);
    if h.fetch(d).Jar? {
      var o := InjectAll(h, d.transitive, State(processing, st.injected + [h.fetch(d).url]));
      RemoveNoDuplicates(o.state.processing, k);
    }
  }

  /** An `IOException` becomes an `InjectionFailedException` for the dependency, which stays
      in the processing list; so does every dependency whose transitive walk fails. */
  lemma FailureKeepsProcessing(h: InjectionHelper, d: Dependency, st: State)
    requires !h.isInjected(d) && KeyOf(d) !in st.processing
    ensures var o := InjectOne(h, d, st);
      && (h.fetch(d) == IoFailure ==> o.failure == Some(InjectionFailed(KeyOf(d))))
      && (h.fetch(d) == FatalFailure ==> o.failure == Some(Fatal(KeyOf(d))))
      && (o.failure.Some? ==> KeyOf(d) in o.state.processing)
  {
  }

  /** `f` is the exception that fetching `x` raises. */
  predicate Raised(h: InjectionHelper, x: Dependency, f: Failure)
  {
    KeyOf(x) == f.dependency
    && (if f.InjectionFailed? then h.fetch(x) == IoFailure else h.fetch(x) == FatalFailure)
  }

  /** A failure of `o` was raised by fetching a dependency of the forest `ds`. */
  ghost predicate FailureFrom(h: InjectionHelper, ds: seq<Dependency>, o: Outcome)
  {
    o.failure.Some? ==> exists x :: Occurs(x, ds) && Raised(h, x, o.failure.value)
  }

  /** Every exception that leaves `injectDependencies` names a dependency of the walked forest
      whose fetch raised it: an `IOException` as `InjectionFailedException`, the others wrapped. */
  lemma {:induction false} FailureSoundAll(h: InjectionHelper, ds: seq<Dependency>, st: State)
    ensures FailureFrom(h, ds, InjectAll(h, ds, st))
    decreases ds
  {
    if |ds| > 0 {
      var init := ds[..|ds| - 1];
      var last := ds[|ds| - 1];
      var before := InjectAll(h, init, st);
      OccursSplitLast(ds);
      FailureSoundAll(h, init, st);
      if before.failure.Some? {
        var x :| Occurs(x, init) && Raised(h, x, before.failure.value);
        assert Occurs(x, ds);
      } else {
        var o := InjectOne(h, last, before.state);
        FailureSoundOne(h, last, before.state);
        if o.failure.Some? {
          OccursInSingleton(last);
          var x :| Occurs(x, [last]) && Raised(h, x, o.failure.value);
          assert Occurs(x, ds);
        }
      }
    }
  }

  lemma {:induction false} FailureSoundOne(h: InjectionHelper, d: Dependency, st: State)
    ensures FailureFrom(h, [d], InjectOne(h, d, st))
    decreases d
  {
    var k := KeyOf(d);
    OccursInSingleton(d);
    if !h.isInjected(d) && k !in st.processing {
      var o := InjectOne(h, d, st);
      match h.fetch(d)
      case NoJar =>
      case SwallowedFailure =>
      case IoFailure =>
        assert Raised(h, d, o.failure.value);
      case FatalFailure =>
        assert Raised(h, d, o.failure.value);
      case Jar(u) =>
        var t := InjectAll(h, d.transitive, State(st.processing + [k], st.injected + [u]));
        FailureSoundAll(h, d.transitive, State(st.processing + [k], st.injected + [u]));
        if t.failure.Some? {
          var x :| Occurs(x, d.transitive) && Raised(h, x, t.failure.value);
          assert Occurs(x, [d]);
        }
    }
  }

  /** `DependencyData`: the dependencies of an application and where to find them. */
  datatype DependencyData = DependencyData(repositories: seq<Repository>, dependencies: seq<Dependency>)

  /** `Injectable`: the class path the jars are added to, as the URLs it has received. */
  class Injectable {
    var urls: seq<Url>

    constructor ()
      ensures urls == []
    {
      urls := [];
    }

    method Inject(u: Url)
      modifies this
      ensures urls == old(urls) + [u]
    {
      urls := urls + [u];
    }
  }

  class SimpleDependencyInjector {
    const injectionHelperFactory: (DependencyData, map<Coordinate, ResolutionResult>) -> InjectionHelper
    var processingDependencies: seq<Coordinate>

    constructor (injectionHelperFactory: (DependencyData, map<Coordinate, ResolutionResult>) -> InjectionHelper)
      ensures this.injectionHelperFactory == injectionHelperFactory
      ensures processingDependencies == []
    {
      this.injectionHelperFactory := injectionHelperFactory;
      processingDependencies := [];
    }

    /** `inject`: a helper for `data`, and a walk over exactly `data.dependencies()`. The
        exception that ends the walk, if any, is the returned failure. */
    method Inject(injectable: Injectable, data: DependencyData, preResolvedResults: map<Coordinate, ResolutionResult>)
      returns (failure: Option<Failure>)
      modifies this, injectable
      ensures var o := InjectAll(injectionHelperFactory(data, preResolvedResults), data.dependencies,
                                 State(old(processingDependencies), old(injectable.urls)));
        && processingDependencies == o.state.processing
        && injectable.urls == o.state.injected
        && failure == o.failure
    {
      var helper := injectionHelperFactory(data, preResolvedResults);
      failure := InjectDependencies(injectable, helper, data.dependencies);
    }

    /** `injectDependencies`: the `forEach` over `dependencies`. */
    method InjectDependencies(injectable: Injectable, h: InjectionHelper, dependencies: seq<Dependency>)
      returns (failure: Option<Failure>)
      modifies this, injectable
      decreases dependencies
      ensures var o := InjectAll(h, dependencies, State(old(processingDependencies), old(injectable.urls)));
        && processingDependencies == o.state.processing
        && injectable.urls == o.state.injected
        && failure == o.failure
    {
      ghost var st := State(processingDependencies, injectable.urls);
      for i := 0 to |dependencies|
        invariant InjectAll(h, dependencies[..i], st) == Outcome(State(processingDependencies, injectable.urls), None)
      {
        InjectAllStep(h, dependencies, i, st);
        failure := InjectDependency(injectable, h, dependencies[i]);
        if failure.Some? {
          InjectAllStops(h, dependencies, i + 1, st);
          return;
        }
      }
      assert dependencies[..|dependencies|] == dependencies;
      failure := None;
    }

    /** The body of the `forEach` for one dependency. */
    method InjectDependency(injectable: Injectable, h: InjectionHelper, dependency: Dependency)
      returns (failure: Option<Failure>)
      modifies this, injectable
      decreases dependency
      ensures var o := InjectOne(h, dependency, State(old(processingDependencies), old(injectable.urls)));
        && processingDependencies == o.state.processing
        && injectable.urls == o.state.injected
        && failure == o.failure
    {
      failure := None;
      var k := KeyOf(dependency);
      if h.isInjected(dependency) || k in processingDependencies {
        return;
      }
      processingDependencies := processingDependencies + [k];
      match h.fetch(dependency) {
        case NoJar =>
          return;
        case IoFailure =>
          return Some(InjectionFailed(k));
        case FatalFailure =>
          return Some(Fatal(k));
        case SwallowedFailure =>
        case Jar(u) =>
          injectable.Inject(u);
          failure := InjectDependencies(injectable, h, dependency.transitive);
          if failure.Some? {
            return;
          }
      }
      processingDependencies := Remove(processingDependencies, k);
    }
  }
}
