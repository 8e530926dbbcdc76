/** The value types the resolver works on: URLs, repositories and dependencies. The
    `Dependency` class itself is not part of this model; its equality and `toString` are
    represented by the `Coordinate` it carries. */
module Dependencies {
  import opened Wrappers

  /** A `java.net.URL` that has been constructed successfully; `spec` is its `toString()`. */
  datatype Url = Url(spec: string)

  /** A Maven-layout repository root. */
  datatype Repository = Repository(url: Url)

  /** `group:artifact:version[:snapshot]`, the identity of a dependency: two dependencies are
      `equals` and have the same `toString()` exactly when their coordinates are equal. */
  datatype Coordinate = Coordinate(groupId: string, artifactId: string, version: string, snapshotId: Option<string>)

  /** A dependency and the transitive dependencies recorded for it, in insertion order. */
  datatype Dependency = Dependency(
    groupId: string,
    artifactId: string,
    version: string,
    snapshotId: Option<string>,
    transitive: seq<Dependency>)

  function KeyOf(d: Dependency): Coordinate
  {
    Coordinate(d.groupId, d.artifactId, d.version, d.snapshotId)
  }

  /** The coordinates of the elements of `ds`. */
  function Keys(ds: seq<Dependency>): set<Coordinate>
  {
    set i | 0 <= i < |ds| :: KeyOf(ds[i])
  }

  /** No two elements of `ds` are `equals`, as in a Java or Kotlin set. */
  predicate UniqueKeys(ds: seq<Dependency>)
  {
    forall i, j :: 0 <= i < j < |ds| ==> KeyOf(ds[i]) != KeyOf(ds[j])
  }

  /** `x` is one of `ds` or, at any depth, one of their transitive dependencies. */
  ghost predicate Occurs(x: Dependency, ds: seq<Dependency>)
  {
    exists i :: 0 <= i < |ds| && (ds[i] == x || Occurs(x, ds[i].transitive))
  }

  lemma {:induction false} KeysOfPrefix(ds: seq<Dependency>, n: nat)
    requires n <= |ds|
    ensures Keys(ds[..n]) <= Keys(ds)
  {
    forall k | k in Keys(ds[..n]) ensures k in Keys(ds) {
      var i :| 0 <= i < n && KeyOf(ds[..n][i]) == k;
      assert KeyOf(ds[i]) == k;
    }
  }

  lemma {:induction false} KeysOfAppend(ds: seq<Dependency>, d: Dependency)
    ensures Keys(ds + [d]) == Keys(ds) + {KeyOf(d)}
  {
    var e := ds + [d];
    assert e[|ds|] == d;
    forall k | k in Keys(ds) ensures k in Keys(e) {
      var i :| 0 <= i < |ds| && KeyOf(ds[i]) == k;
      assert e[i] == ds[i];
    }
  }

  /** Membership in a forest split at its last tree. */
  lemma OccursSplitLast(ds: seq<Dependency>)
    requires |ds| > 0
    ensures forall x :: Occurs(x, ds) <==>
      (Occurs(x, ds[..|ds| - 1]) || ds[|ds| - 1] == x || Occurs(x, ds[|ds| - 1].transitive))
  {
    var init := ds[..|ds| - 1];
    forall x ensures Occurs(x, ds) <==> (Occurs(x, init) || ds[|ds| - 1] == x || Occurs(x, ds[|ds| - 1].transitive)) {
      if Occurs(x, ds) {
        var i :| 0 <= i < |ds| && (ds[i] == x || Occurs(x, ds[i].transitive));
        if i < |ds| - 1 {
          assert init[i] == ds[i];
        }
      }
      if Occurs(x, init) {
        var i :| 0 <= i < |init| && (init[i] == x || Occurs(x, init[i].transitive));
        assert ds[i] == init[i];
      }
    }
  }

  /** One step of a left-to-right walk over `ds`: the rest, the coordinates seen so far, and,
      for distinct coordinates, that the current one is new. */
  lemma KeysStep(ds: seq<Dependency>, i: nat)
    requires i < |ds|
    ensures ds[i..][1..] == ds[i + 1..]
    ensures Keys(ds[..i + 1]) == Keys(ds[..i]) + {KeyOf(ds[i])}
    ensures UniqueKeys(ds) ==> KeyOf(ds[i]) !in Keys(ds[..i])
  {
    assert ds[..i + 1] == ds[..i] + [ds[i]];
    KeysOfAppend(ds[..i], ds[i]);
    if UniqueKeys(ds) {
      forall j | 0 <= j < i
        ensures KeyOf(ds[..i][j]) != KeyOf(ds[i])
      {
        assert ds[..i][j] == ds[j];
      }
    }
  }
}
