/** The dependency-graph side of the Gradle tasks, shared by `SlimJarTask.kt` and its older
    twin `SlimJar.kt`: parsing coordinate strings, collecting transitive dependencies from the
    resolved graph, flattening, and selecting Maven repositories. The two files differ only in
    the `-bom` filter, which is the `skipBom` parameter here (true for `SlimJarTask.kt`). */
module GradleDependencies {
  import opened Wrappers
  import opened Text
  import opened Dependencies
  import opened Results

  /** The `group:artifact:version[:snapshot]` string of a dependency. */
  function CoordinateString(d: Dependency): string
  {
    Join([d.groupId, d.artifactId, d.version] + (if d.snapshotId.Some? then [d.snapshotId.value] else []), ':')
  }

  /** At most four colon-separated fields, the inputs the reflective constructor call accepts. */
  predicate FitsConstructor(s: string)
  {
    |Split(s, ':')| <= 4
  }

  /** `String.toDependency(transitive)`: null for fewer than three fields; otherwise group,
      artifact and version are the first three fields and the snapshot is the fourth, if any. */
  function DependencyOf(s: string, transitive: seq<Dependency>): (r: Option<Dependency>)
    requires FitsConstructor(s)
    ensures r.None? <==> |Split(s, ':')| < 3
    ensures r.Some? ==> CoordinateString(r.value) == s && r.value.transitive == transitive
    ensures r.Some? ==> (r.value.snapshotId.Some? <==> |Split(s, ':')| == 4)
  {
    var parts := Split(s, ':');
    if |parts| < 3 then None
    else
      var d := Dependency(parts[0], parts[1], parts[2], if |parts| == 4 then Some(parts[3]) else None, transitive);
      assert [d.groupId, d.artifactId, d.version] + (if d.snapshotId.Some? then [d.snapshotId.value] else []) == parts;
      Some(d)
  }

  /** Reading back a coordinate string whose fields hold no colon gives the same fields. */
  lemma ParseCoordinateString(d: Dependency, transitive: seq<Dependency>)
    requires ':' !in d.groupId && ':' !in d.artifactId && ':' !in d.version
    requires d.snapshotId.Some? ==> ':' !in d.snapshotId.value
    ensures FitsConstructor(CoordinateString(d))
    ensures DependencyOf(CoordinateString(d), transitive) == Some(d.(transitive := transitive))
  {
    var parts := [d.groupId, d.artifactId, d.version] + (if d.snapshotId.Some? then [d.snapshotId.value] else []);
    SplitJoin(parts, ':');
  }

  /** `toDependency` as the source writes it: the fields are copied, by index, into the
      constructor's argument array, whose last slot holds the transitive set. */
  method ToDependency(s: string, transitive: seq<Dependency>) returns (d: Option<Dependency>)
    requires FitsConstructor(s)
    ensures d == DependencyOf(s, transitive)
  {
    var parts := Split(s, ':');
    if |parts| < 3 {
      return None;
    }
    var slots := new Option<string>[4](_ => None);
    for i := 0 to |parts|
      invariant forall j :: 0 <= j < i ==> slots[j] == Some(parts[j])
      invariant forall j :: i <= j < 4 ==> slots[j] == None
    {
      slots[i] := Some(parts[i]);
    }
    d := Some(Dependency(slots[0].value, slots[1].value, slots[2].value, slots[3], transitive));
  }

  /** The resolved Gradle graph: each node's id string and the id strings of its children.
      Gradle keeps one node per module version, so equal ids have equal children. */
  type Graph = map<string, seq<string>>

  function Children(g: Graph, id: string): seq<string>
  {
    if id in g then g[id] else []
  }

  /** Every id that is some node's child. */
  function Mentioned(g: Graph): set<string>
  {
    set k, i | k in g && 0 <= i < |g[k]| :: g[k][i]
  }

  /** Every id in the graph fits the constructor (see `FitsConstructor`). */
  predicate WellFormed(g: Graph)
  {
    forall k, i :: k in g && 0 <= i < |g[k]| ==> FitsConstructor(g[k][i])
  }

  /** The id names a dependency: it has three or four fields. */
  predicate Parses(id: string)
  {
    FitsConstructor(id) && |Split(id, ':')| >= 3
  }

  /** The dependency an id names, with no transitives, as `collectTransitive` builds it. */
  function Leaf(id: string): (d: Dependency)
    requires Parses(id)
    ensures d.transitive == [] && CoordinateString(d) == id
  {
    DependencyOf(id, []).value
  }

  predicate IsBom(d: Dependency)
  {
    EndsWith(d.artifactId, "-bom")
  }

  /** `collectTransitive` takes a child: it parses and, when `-bom` artifacts are skipped,
      it is not one. */
  predicate Eligible(id: string, skipBom: bool)
  {
    Parses(id) && !(skipBom && IsBom(Leaf(id)))
  }

  /** Every eligible id of `ids` names a coordinate in `ks`. */
  predicate Covers(ids: seq<string>, skipBom: bool, ks: set<Coordinate>)
  {
    forall i :: 0 <= i < |ids| && Eligible(ids[i], skipBom) ==> KeyOf(Leaf(ids[i])) in ks
  }

  /** The coordinates `collectTransitive` can ever add. */
  function Universe(g: Graph, skipBom: bool): set<Coordinate>
  {
    set id | id in Mentioned(g) && Eligible(id, skipBom) :: KeyOf(Leaf(id))
  }

  /** Two ids that name the same coordinate are the same string. */
  lemma LeafDeterminedByKey(a: string, b: string)
    requires Parses(a) && Parses(b) && KeyOf(Leaf(a)) == KeyOf(Leaf(b))
    ensures a == b
  {
    assert Leaf(a) == Leaf(b);
  }

  /** The elements of `result` from index `base` on are eligible leaves. */
  predicate AddedLeaves(base: nat, result: seq<Dependency>, skipBom: bool)
  {
    forall j :: base <= j < |result| ==>
      (Eligible(CoordinateString(result[j]), skipBom) && result[j] == Leaf(CoordinateString(result[j])))
  }

  /** No element of `result` from index `base` on repeats the coordinate of an earlier one. */
  predicate AddedFresh(base: nat, result: seq<Dependency>)
  {
    forall j :: base <= j < |result| ==> KeyOf(result[j]) !in Keys(result[..j])
  }

  /** Each element of `result` from index `base` on is one of `dependencies` or a child of an
      earlier such element. */
  predicate AddedFrom(base: nat, result: seq<Dependency>, dependencies: seq<string>, g: Graph)
  {
    forall j :: base <= j < |result| ==>
      (CoordinateString(result[j]) in dependencies
       || exists k :: base <= k < j && CoordinateString(result[j]) in Children(g, CoordinateString(result[k])))
  }

  /** The eligible children of each element of `result` from index `base` on are present. */
  predicate AddedClosed(base: nat, result: seq<Dependency>, g: Graph, skipBom: bool)
  {
    forall j :: base <= j < |result| ==> Covers(Children(g, CoordinateString(result[j])), skipBom, Keys(result))
  }

  lemma CoversMonotone(ids: seq<string>, skipBom: bool, ks: set<Coordinate>, ks': set<Coordinate>)
    requires Covers(ids, skipBom, ks) && ks <= ks'
    ensures Covers(ids, skipBom, ks')
  {
  }

  /** Covering one more id of `ids`. */
  lemma {:induction false} CoversStep(ids: seq<string>, i: nat, skipBom: bool, ks: set<Coordinate>, ks': set<Coordinate>)
    requires i < |ids| && Covers(ids[..i], skipBom, ks) && ks <= ks'
    requires Eligible(ids[i], skipBom) ==> KeyOf(Leaf(ids[i])) in ks'
    ensures Covers(ids[..i + 1], skipBom, ks')
  {
    var prefix := ids[..i + 1];
    forall j | 0 <= j < i + 1 && Eligible(prefix[j], skipBom)
      ensures KeyOf(Leaf(prefix[j])) in ks'
    {
      if j < i {
        assert prefix[j] == ids[..i][j];
      }
    }
  }

  lemma KeysGrow(r: seq<Dependency>, r': seq<Dependency>)
    requires r <= r'
    ensures Keys(r) <= Keys(r')
  {
    KeysOfPrefix(r', |r|);
    assert r'[..|r|] == r;
  }

  /** Adding one eligible child `id` with a fresh coordinate, then whatever the collection of
      its own children added (from index `|r| + 1` on), keeps the four properties of the
      elements from `base` on. */
  lemma {:induction false} ExtendLeaves(base: nat, r: seq<Dependency>, id: string, r': seq<Dependency>, skipBom: bool)
    requires base <= |r| && AddedLeaves(base, r, skipBom)
    requires Eligible(id, skipBom) && r + [Leaf(id)] <= r'
    requires AddedLeaves(|r| + 1, r', skipBom)
    ensures AddedLeaves(base, r', skipBom)
  {
    forall j | base <= j < |r'|
      ensures Eligible(CoordinateString(r'[j]), skipBom) && r'[j] == Leaf(CoordinateString(r'[j]))
    {
      if j < |r| {
        assert r'[j] == r[j];
      } else if j == |r| {
        assert r'[j] == Leaf(id);
      }
    }
  }

  lemma {:induction false} ExtendFresh(base: nat, r: seq<Dependency>, id: string, r': seq<Dependency>)
    requires base <= |r| && AddedFresh(base, r)
    requires Parses(id) && KeyOf(Leaf(id)) !in Keys(r) && r + [Leaf(id)] <= r'
    requires AddedFresh(|r| + 1, r')
    ensures AddedFresh(base, r')
  {
    forall j | base <= j < |r'| ensures KeyOf(r'[j]) !in Keys(r'[..j]) {
      if j <= |r| {
        assert r'[..j] == r[..j];
        KeysOfPrefix(r, j);
        if j == |r| {
          assert r'[j] == Leaf(id);
        } else {
          assert r'[j] == r[j];
        }
      }
    }
  }

  lemma {:induction false} ExtendFrom(base: nat, r: seq<Dependency>, id: string, r': seq<Dependency>,
                                      dependencies: seq<string>, g: Graph)
    requires base <= |r| && AddedFrom(base, r, dependencies, g)
    requires Parses(id) && id in dependencies && r + [Leaf(id)] <= r'
    requires AddedFrom(|r| + 1, r', Children(g, id), g)
    ensures AddedFrom(base, r', dependencies, g)
  {
    forall j | base <= j < |r'|
      ensures CoordinateString(r'[j]) in dependencies
        || exists k :: base <= k < j && CoordinateString(r'[j]) in Children(g, CoordinateString(r'[k]))
    {
      if j < |r| {
        assert r'[j] == r[j];
        if CoordinateString(r[j]) !in dependencies {
          var k :| base <= k < j && CoordinateString(r[j]) in Children(g, CoordinateString(r[k]));
          assert r'[k] == r[k];
        }
      } else if j == |r| {
        assert r'[j] == Leaf(id);
      } else if CoordinateString(r'[j]) in Children(g, id) {
        assert r'[|r|] == Leaf(id);
        assert |r| < j && CoordinateString(r'[j]) in Children(g, CoordinateString(r'[|r|]));
      }
    }
  }

  lemma {:induction false} ExtendClosed(base: nat, r: seq<Dependency>, id: string, r': seq<Dependency>, g: Graph, skipBom: bool)
    requires base <= |r| && AddedClosed(base, r, g, skipBom)
    requires Parses(id) && r + [Leaf(id)] <= r'
    requires Covers(Children(g, id), skipBom, Keys(r'))
    requires AddedClosed(|r| + 1, r', g, skipBom)
    ensures AddedClosed(base, r', g, skipBom)
  {
    KeysGrow(r, r');
    forall j | base <= j < |r'| ensures Covers(Children(g, CoordinateString(r'[j])), skipBom, Keys(r')) {
      if j < |r| {
        assert r'[j] == r[j];
        CoversMonotone(Children(g, CoordinateString(r[j])), skipBom, Keys(r), Keys(r'));
      } else if j == |r| {
        assert r'[j] == Leaf(id);
      }
    }
  }

  /** The loop of `collectTransitive` keeps its invariants when child `i` is added and its
      own children are collected into `r'`. */
  lemma ExtendAll(base: nat, r: seq<Dependency>, dependencies: seq<string>, i: nat, r': seq<Dependency>,
                  g: Graph, skipBom: bool)
    requires base <= |r| && i < |dependencies|
    requires AddedLeaves(base, r, skipBom) && AddedFresh(base, r) && AddedFrom(base, r, dependencies, g)
    requires Covers(dependencies[..i], skipBom, Keys(r)) && AddedClosed(base, r, g, skipBom)
    requires var id := dependencies[i];
      Eligible(id, skipBom) && KeyOf(Leaf(id)) !in Keys(r) && r + [Leaf(id)] <= r'
      && AddedLeaves(|r| + 1, r', skipBom) && AddedFresh(|r| + 1, r') && AddedFrom(|r| + 1, r', Children(g, id), g)
      && Covers(Children(g, id), skipBom, Keys(r')) && AddedClosed(|r| + 1, r', g, skipBom)
    ensures AddedLeaves(base, r', skipBom) && AddedFresh(base, r') && AddedFrom(base, r', dependencies, g)
    ensures Covers(dependencies[..i + 1], skipBom, Keys(r')) && AddedClosed(base, r', g, skipBom)
  {
    var id := dependencies[i];
    ExtendLeaves(base, r, id, r', skipBom);
    ExtendFresh(base, r, id, r');
    ExtendFrom(base, r, id, r', dependencies, g);
    ExtendClosed(base, r, id, r', g, skipBom);
    KeysGrow(r + [Leaf(id)], r');
    KeysOfAppend(r, Leaf(id));
    CoversStep(dependencies, i, skipBom, Keys(r), Keys(r'));
  }

  /** Adding a fresh eligible child shrinks what remains to be collected. */
  lemma Progress(g: Graph, skipBom: bool, transitive: seq<Dependency>, r: seq<Dependency>, id: string)
    requires transitive <= r && id in Mentioned(g) && Eligible(id, skipBom) && KeyOf(Leaf(id)) !in Keys(r)
    ensures Universe(g, skipBom) - Keys(r + [Leaf(id)]) < Universe(g, skipBom) - Keys(transitive)
  {
    KeysGrow(transitive, r);
    KeysOfAppend(r, Leaf(id));
    assert KeyOf(Leaf(id)) in Universe(g, skipBom) - Keys(transitive);
  }

  /** `collectTransitive(transitive, dependencies)`: for each child in order, one that
      parses, is not yet present and is eligible is added and its own children are collected
      next; a child skipped for any reason has its subtree left unvisited. */
  method CollectTransitive(transitive: seq<Dependency>, dependencies: seq<string>, g: Graph, skipBom: bool)
    returns (result: seq<Dependency>)
    requires WellFormed(g)
    requires forall i :: 0 <= i < |dependencies| ==> dependencies[i] in Mentioned(g)
    decreases Universe(g, skipBom) - Keys(transitive)
    ensures transitive <= result
    ensures AddedLeaves(|transitive|, result, skipBom)
    ensures AddedFresh(|transitive|, result)
    ensures AddedFrom(|transitive|, result, dependencies, g)
    ensures Covers(dependencies, skipBom, Keys(result))
    ensures AddedClosed(|transitive|, result, g, skipBom)
  {
    result := transitive;
    for i := 0 to |dependencies|
      invariant transitive <= result
      invariant AddedLeaves(|transitive|, result, skipBom)
      invariant AddedFresh(|transitive|, result)
      invariant AddedFrom(|transitive|, result, dependencies, g)
      invariant Covers(dependencies[..i], skipBom, Keys(result))
      invariant AddedClosed(|transitive|, result, g, skipBom)
    {
      var id := dependencies[i];
      var dep := ToDependency(id, []);
      if dep.None? || KeyOf(dep.value) in Keys(result) || (skipBom && IsBom(dep.value)) {
        CoversStep(dependencies, i, skipBom, Keys(result), Keys(result));
        continue;
      }
      ghost var before := result;
      assert dep.value == Leaf(id);
      result := result + [dep.value];
      Progress(g, skipBom, transitive, before, id);
      result := CollectTransitive(result, Children(g, id), g, skipBom);
      ExtendAll(|transitive|, before, dependencies, i, result, g, skipBom);
    }
    assert dependencies[..|dependencies|] == dependencies;
  }

  /** A chain of eligible ids that starts at a child of `root` and goes from parent to child. */
  ghost predicate EligiblePath(g: Graph, root: string, p: seq<string>, skipBom: bool)
  {
    |p| >= 1 && p[0] in Children(g, root)
    && (forall i :: 0 <= i < |p| ==> Eligible(p[i], skipBom))
    && (forall i :: 1 <= i < |p| ==> p[i] in Children(g, p[i - 1]))
  }

  /** `id` is reachable from `root` through eligible ids only. */
  ghost predicate Reachable(g: Graph, root: string, id: string, skipBom: bool)
  {
    exists p :: EligiblePath(g, root, p, skipBom) && p[|p| - 1] == id
  }

  lemma PathExtend(g: Graph, root: string, p: seq<string>, id: string, skipBom: bool)
    requires EligiblePath(g, root, p, skipBom) && Eligible(id, skipBom) && id in Children(g, p[|p| - 1])
    ensures EligiblePath(g, root, p + [id], skipBom)
  {
    var q := p + [id];
    forall i | 0 <= i < |q| ensures Eligible(q[i], skipBom) {
      if i < |p| { assert q[i] == p[i]; }
    }
    forall i | 1 <= i < |q| ensures q[i] in Children(g, q[i - 1]) {
      if i < |p| { assert q[i] == p[i] && q[i - 1] == p[i - 1]; }
    }
  }

  /** A collected element is the leaf of any id whose coordinate it has. */
  lemma LeafCollected(t: seq<Dependency>, id: string, skipBom: bool)
    requires AddedLeaves(0, t, skipBom) && Parses(id) && KeyOf(Leaf(id)) in Keys(t)
    ensures Leaf(id) in t
  {
    var j :| 0 <= j < |t| && KeyOf(t[j]) == KeyOf(Leaf(id));
    LeafDeterminedByKey(CoordinateString(t[j]), id);
  }

  lemma {:induction false} CollectedSound(g: Graph, root: string, skipBom: bool, t: seq<Dependency>, j: nat)
    requires AddedLeaves(0, t, skipBom) && AddedFrom(0, t, Children(g, root), g)
    requires j < |t|
    ensures Reachable(g, root, CoordinateString(t[j]), skipBom)
    decreases j
  {
    var id := CoordinateString(t[j]);
    assert Eligible(id, skipBom);
    if id in Children(g, root) {
      assert EligiblePath(g, root, [id], skipBom);
    } else {
      var k :| 0 <= k < j && id in Children(g, CoordinateString(t[k]));
      CollectedSound(g, root, skipBom, t, k);
      var p :| EligiblePath(g, root, p, skipBom) && p[|p| - 1] == CoordinateString(t[k]);
      PathExtend(g, root, p, id, skipBom);
      assert (p + [id])[|p + [id]| - 1] == id;
    }
  }

  lemma {:induction false} CollectedComplete(g: Graph, root: string, skipBom: bool, t: seq<Dependency>, p: seq<string>)
    requires AddedLeaves(0, t, skipBom) && Covers(Children(g, root), skipBom, Keys(t)) && AddedClosed(0, t, g, skipBom)
    requires EligiblePath(g, root, p, skipBom)
    ensures Leaf(p[|p| - 1]) in t
    decreases |p|
  {
    var last := p[|p| - 1];
    if |p| == 1 {
      var i :| 0 <= i < |Children(g, root)| && Children(g, root)[i] == last;
      LeafCollected(t, last, skipBom);
    } else {
      var parent := p[..|p| - 1];
      assert EligiblePath(g, root, parent, skipBom);
      CollectedComplete(g, root, skipBom, t, parent);
      var j :| 0 <= j < |t| && t[j] == Leaf(parent[|parent| - 1]);
      assert CoordinateString(t[j]) == p[|p| - 2];
      var i :| 0 <= i < |Children(g, p[|p| - 2])| && Children(g, p[|p| - 2])[i] == last;
      LeafCollected(t, last, skipBom);
    }
  }

  /** What `collectTransitive` gathers from the empty set under `root`: no two elements share a
      coordinate, each is the leaf of an id reachable from `root` through eligible ids, and
      every such id's leaf is there. */
  lemma CollectedIsReachable(g: Graph, root: string, skipBom: bool, t: seq<Dependency>)
    requires AddedLeaves(0, t, skipBom) && AddedFresh(0, t) && AddedFrom(0, t, Children(g, root), g)
    requires Covers(Children(g, root), skipBom, Keys(t)) && AddedClosed(0, t, g, skipBom)
    ensures UniqueKeys(t)
    ensures forall j :: 0 <= j < |t| ==> Reachable(g, root, CoordinateString(t[j]), skipBom)
    ensures forall id :: Reachable(g, root, id, skipBom) ==> Eligible(id, skipBom) && Leaf(id) in t
  {
    forall i, j | 0 <= i < j < |t| ensures KeyOf(t[i]) != KeyOf(t[j]) {
      assert t[..j][i] == t[i];
    }
    forall j | 0 <= j < |t| ensures Reachable(g, root, CoordinateString(t[j]), skipBom) {
      CollectedSound(g, root, skipBom, t, j);
    }
    forall id | Reachable(g, root, id, skipBom) ensures Eligible(id, skipBom) && Leaf(id) in t {
      var p :| EligiblePath(g, root, p, skipBom) && p[|p| - 1] == id;
      CollectedComplete(g, root, skipBom, t, p);
    }
  }

  /** `d` is what `toSlimDependency` builds for the node `id`: its coordinate is the one `id`
      names, and its transitives are, once each, exactly the leaves of the ids reachable
      from `id` through eligible ids. */
  ghost predicate SlimDependencyOf(g: Graph, id: string, skipBom: bool, d: Dependency)
  {
    Parses(id) && KeyOf(d) == KeyOf(Leaf(id)) && CoordinateString(d) == id
    && UniqueKeys(d.transitive)
    && (forall j :: 0 <= j < |d.transitive| ==>
          (Eligible(CoordinateString(d.transitive[j]), skipBom)
           && d.transitive[j] == Leaf(CoordinateString(d.transitive[j]))
           && Reachable(g, id, CoordinateString(d.transitive[j]), skipBom)))
    && (forall x :: Reachable(g, id, x, skipBom) ==> Eligible(x, skipBom) && Leaf(x) in d.transitive)
  }

  /** `RenderableDependency.toSlimDependency()`: the transitives are collected first, then the
      node's own id is parsed; null when the id does not parse. */
  method ToSlimDependency(g: Graph, id: string, skipBom: bool) returns (d: Option<Dependency>)
    requires WellFormed(g) && FitsConstructor(id)
    ensures d.None? <==> !Parses(id)
    ensures d.Some? ==> SlimDependencyOf(g, id, skipBom, d.value)
    ensures Eligible(id, skipBom) <==> d.Some? && !(skipBom && IsBom(d.value))
  {
    var transitive := CollectTransitive([], Children(g, id), g, skipBom);
    CollectedIsReachable(g, id, skipBom, transitive);
    d := ToDependency(id, transitive);
    assert d.Some? ==> KeyOf(d.value) == KeyOf(Leaf(id));
  }

  lemma BuiltAppend(g: Graph, roots: seq<string>, skipBom: bool, from: seq<nat>, ds: seq<Dependency>, i: nat, d: Dependency)
    requires |from| == |ds| && i < |roots| && forall j :: 0 <= j < |ds| ==> from[j] < |roots|
    requires forall j :: 0 <= j < |ds| ==> SlimDependencyOf(g, roots[from[j]], skipBom, ds[j])
    requires SlimDependencyOf(g, roots[i], skipBom, d)
    ensures forall j :: 0 <= j < |ds| + 1 ==> SlimDependencyOf(g, roots[(from + [i])[j]], skipBom, (ds + [d])[j])
  {
    forall j | 0 <= j < |ds| + 1 ensures SlimDependencyOf(g, roots[(from + [i])[j]], skipBom, (ds + [d])[j]) {
      if j < |ds| {
        assert (from + [i])[j] == from[j] && (ds + [d])[j] == ds[j];
      }
    }
  }

  /** Which roots are eligible. */
  ghost function EligibleFlags(roots: seq<string>, skipBom: bool): (bs: seq<bool>)
    ensures |bs| == |roots|
    ensures forall k :: 0 <= k < |roots| ==> (bs[k] <==> Eligible(roots[k], skipBom))
  {
    seq(|roots|, k requires 0 <= k < |roots| => Eligible(roots[k], skipBom))
  }

  /** The indices of the `true` entries, in order. */
  ghost function TrueIndices(bs: seq<bool>): seq<nat>
  {
    if bs == [] then [] else TrueIndices(bs[..|bs| - 1]) + (if bs[|bs| - 1] then [|bs| - 1] else [])
  }

  lemma {:induction false} TrueIndicesSound(bs: seq<bool>)
    ensures var from := TrueIndices(bs);
      && (forall j :: 0 <= j < |from| ==> from[j] < |bs|)
      && (forall j, j' :: 0 <= j < j' < |from| ==> from[j] < from[j'])
      && (forall k :: 0 <= k < |bs| ==> (bs[k] <==> k in from))
  {
    if bs != [] {
      var init := bs[..|bs| - 1];
      TrueIndicesSound(init);
      forall k | 0 <= k < |init| ensures bs[k] == init[k] { }
    }
  }

  /** What `getSlimDependencies` has built so far: `ds[j]` is made from root `from[j]`,
      and no `-bom` is kept when they are skipped. */
  ghost predicate SlimBuilt(g: Graph, roots: seq<string>, skipBom: bool, ds: seq<Dependency>, from: seq<nat>)
  {
    && |from| == |ds| && (forall j :: 0 <= j < |ds| ==> from[j] < |roots|)
    && (forall j :: 0 <= j < |ds| ==> SlimDependencyOf(g, roots[from[j]], skipBom, ds[j]))
    && (skipBom ==> forall j :: 0 <= j < |ds| ==> !IsBom(ds[j]))
  }

  lemma SlimBuiltStep(g: Graph, roots: seq<string>, skipBom: bool, ds: seq<Dependency>, from: seq<nat>, i: nat, d: Dependency)
    requires SlimBuilt(g, roots, skipBom, ds, from) && i < |roots|
    requires SlimDependencyOf(g, roots[i], skipBom, d) && !(skipBom && IsBom(d))
    ensures SlimBuilt(g, roots, skipBom, ds + [d], from + [i])
  {
    BuiltAppend(g, roots, skipBom, from, ds, i, d);
    var ds' := ds + [d];
    assert forall j :: 0 <= j < |ds| ==> ds'[j] == ds[j];
  }

  /** `getSlimDependencies()`: the children of the project node that parse and, when `-bom`
      artifacts are skipped, are not one, each made into its dependency, in order; `from`
      gives the child each element comes from. */
  method GetSlimDependencies(g: Graph, project: string, skipBom: bool) returns (ds: seq<Dependency>, ghost from: seq<nat>)
    requires WellFormed(g)
    ensures |from| == |ds|
    ensures forall j :: 0 <= j < |ds| ==> from[j] < |Children(g, project)|
    ensures forall j, j' :: 0 <= j < j' < |ds| ==> from[j] < from[j']
    ensures forall k :: 0 <= k < |Children(g, project)| ==> (Eligible(Children(g, project)[k], skipBom) <==> k in from)
    ensures forall j :: 0 <= j < |ds| ==> SlimDependencyOf(g, Children(g, project)[from[j]], skipBom, ds[j])
    ensures skipBom ==> forall j :: 0 <= j < |ds| ==> !IsBom(ds[j])
  {
    var roots := Children(g, project);
    ds := [];
    from := [];
    for i := 0 to |roots|
      invariant from == TrueIndices(EligibleFlags(roots, skipBom)[..i])
      invariant SlimBuilt(g, roots, skipBom, ds, from)
    {
      var d := ToSlimDependency(g, roots[i], skipBom);
      assert EligibleFlags(roots, skipBom)[..i + 1][..i] == EligibleFlags(roots, skipBom)[..i];
      if d.Some? && !(skipBom && IsBom(d.value)) {
        SlimBuiltStep(g, roots, skipBom, ds, from, i, d.value);
        ds := ds + [d.value];
        from := from + [i];
      }
    }
    assert EligibleFlags(roots, skipBom)[..|roots|] == EligibleFlags(roots, skipBom);
    TrueIndicesSound(EligibleFlags(roots, skipBom));
  }


  lemma {:induction false} KeysOfConcat(a: seq<Dependency>, b: seq<Dependency>)
    ensures Keys(a + b) == Keys(a) + Keys(b)
  {
    var c := a + b;
    forall k | k in Keys(c) ensures k in Keys(a) + Keys(b) {
      var i :| 0 <= i < |c| && KeyOf(c[i]) == k;
      if i < |a| { assert c[i] == a[i]; } else { assert c[i] == b[i - |a|]; }
    }
    forall k | k in Keys(a) ensures k in Keys(c) {
      var i :| 0 <= i < |a| && KeyOf(a[i]) == k;
      assert c[i] == a[i];
    }
    forall k | k in Keys(b) ensures k in Keys(c) {
      var i :| 0 <= i < |b| && KeyOf(b[i]) == k;
      assert c[|a| + i] == b[i];
    }
  }

  /** `toMutableSet()` on dependencies: the first dependency of each coordinate, in order. */
  function DedupByKey(s: seq<Dependency>): (r: seq<Dependency>)
    ensures UniqueKeys(r) && Keys(r) == Keys(s)
    ensures forall j :: 0 <= j < |r| ==> r[j] in s
  {
    if |s| == 0 then []
    else
      var init := s[..|s| - 1];
      var x := s[|s| - 1];
      var p := DedupByKey(init);
      assert s == init + [x];
      KeysOfAppend(init, x);
      if KeyOf(x) in Keys(p) then p
      else
        KeysOfAppend(p, x);
        assert forall i :: 0 <= i < |p| ==> KeyOf(p[i]) in Keys(p);
        p + [x]
  }

  lemma FlatMappedStep(ds: seq<Dependency>, init: seq<Dependency>, last: seq<Dependency>)
    requires |ds| > 0
    requires forall j :: 0 <= j < |init| ==> Occurs(init[j], ds[..|ds| - 1])
    requires forall x :: Occurs(x, ds[..|ds| - 1]) ==> KeyOf(x) in Keys(init)
    requires forall j :: 0 <= j < |last| ==> last[j] == ds[|ds| - 1] || Occurs(last[j], ds[|ds| - 1].transitive)
    requires KeyOf(ds[|ds| - 1]) in Keys(last)
    requires forall x :: Occurs(x, ds[|ds| - 1].transitive) ==> KeyOf(x) in Keys(last)
    ensures forall j :: 0 <= j < |init + last| ==> Occurs((init + last)[j], ds)
    ensures forall x :: Occurs(x, ds) ==> KeyOf(x) in Keys(init + last)
  {
    OccursSplitLast(ds);
    KeysOfConcat(init, last);
    var r := init + last;
    forall j | 0 <= j < |r| ensures Occurs(r[j], ds) {
      if j < |init| {
        assert r[j] == init[j];
      } else {
        assert r[j] == last[j - |init|];
      }
    }
  }

  /** `Collection<Dependency>.flatten()`: every dependency together with all its transitives at
      any depth, one per coordinate, each listed after its own transitives. */
  function Flatten(ds: seq<Dependency>): (r: seq<Dependency>)
    decreases ds, 1
    ensures UniqueKeys(r)
    ensures forall j :: 0 <= j < |r| ==> Occurs(r[j], ds)
    ensures forall x :: Occurs(x, ds) ==> KeyOf(x) in Keys(r)
  {
    DedupByKey(FlatMapped(ds))
  }

  /** `flatMap { it.transitive().flatten() + it }` */
  function FlatMapped(ds: seq<Dependency>): (r: seq<Dependency>)
    decreases ds, 0
    ensures forall j :: 0 <= j < |r| ==> Occurs(r[j], ds)
    ensures forall x :: Occurs(x, ds) ==> KeyOf(x) in Keys(r)
  {
    if |ds| == 0 then []
    else
      var init := FlatMapped(ds[..|ds| - 1]);
      var last := FlattenOne(ds[|ds| - 1]);
      FlatMappedStep(ds, init, last);
      init + last
  }

  /** `it.transitive().flatten() + it` for one dependency. */
  function FlattenOne(d: Dependency): (r: seq<Dependency>)
    decreases d
    ensures forall j :: 0 <= j < |r| ==> r[j] == d || Occurs(r[j], d.transitive)
    ensures KeyOf(d) in Keys(r)
    ensures forall x :: Occurs(x, d.transitive) ==> KeyOf(x) in Keys(r)
  {
    var below := Flatten(d.transitive);
    KeysOfAppend(below, d);
    DedupByKey(below + [d])
  }

  /** What a Gradle repository handler holds: Maven repositories with their URL strings, and
      repositories of other kinds. */
  datatype DeclaredRepository = MavenArtifactRepository(url: string) | OtherRepository

  /** `RepositoryHandler.getMavenRepos()`: the Maven repositories, in order, except those
      whose URL string starts with "file". */
  function GetMavenRepos(declared: seq<DeclaredRepository>): (rs: seq<Repository>)
    ensures |rs| <= |declared|
    ensures forall j :: 0 <= j < |rs| ==>
      (!StartsWith(rs[j].url.spec, "file")
       && exists i :: 0 <= i < |declared| && declared[i] == MavenArtifactRepository(rs[j].url.spec))
    ensures forall i :: 0 <= i < |declared| && declared[i].MavenArtifactRepository? && !StartsWith(declared[i].url, "file") ==>
      Repository(Url(declared[i].url)) in rs
  {
    if |declared| == 0 then []
    else
      var init := declared[..|declared| - 1];
      var last := declared[|declared| - 1];
      var rs := GetMavenRepos(init);
      assert forall i :: 0 <= i < |init| ==> declared[i] == init[i];
      if last.MavenArtifactRepository? && !StartsWith(last.url, "file") then rs + [Repository(Url(last.url))]
      else rs
  }

  /** The reuse filter of `generateResolvedDependenciesFile`: a dependency is sent to the
      resolver unless the earlier resolution map has an entry for it whose repository URL
      string is the URL string of one of the current repositories. */
  predicate NeedsResolution(d: Dependency, preResolved: map<Coordinate, ResolutionResult>, repositories: seq<Repository>)
  {
    KeyOf(d) !in preResolved
    || forall i :: 0 <= i < |repositories| ==> preResolved[KeyOf(d)].repository.url.spec != repositories[i].url.spec
  }
}
