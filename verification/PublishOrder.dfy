/** The publish order of workspace crates: a depth-first walk that appends a crate after its dependencies
    and stops at a dependency cycle. */
module PublishOrder {
  import opened Wrappers
  import opened Collections

  type Name = string

  datatype Dependency = Dependency(name: Name, dev: bool, req: Option<string>)

  datatype Package = Package(publishable: bool, dependencies: seq<Dependency>)

  /** Workspace members that are published: not those marked otherwise, and not the one that other jobs ship. */
  function Publishable(metadata: map<Name, Package>): map<Name, Package> {
    map name | name in metadata && metadata[name].publishable && name !in NOT_ON_CRATES_IO :: metadata[name]
  }

  const NOT_ON_CRATES_IO: set<Name> := {"_glrmask"}

  /** Dependencies that order the publish: on another publishable crate, and not a versionless dev dependency. */
  function OrderingDeps(packages: map<Name, Package>, name: Name): set<Name>
    requires name in packages
  {
    set d | d in packages[name].dependencies && d.name in packages && d.name != name && (!d.dev || (d.req != None && d.req != Some("*"))) :: d.name
  }

  type Deps = map<Name, seq<Name>>

  /** Every dependency is a listed crate. */
  predicate Closed(deps: Deps) {
    forall name, i :: name in deps && 0 <= i < |deps[name]| ==> deps[name][i] in deps
  }

  ghost predicate Lists(deps: Deps, packages: map<Name, Package>) {
    deps.Keys == packages.Keys && forall name, d :: name in deps ==> (d in deps[name] <==> d in OrderingDeps(packages, name))
  }

  /** The dependency map built from the packages names only publishable crates, and no crate under itself. */
  lemma BuiltDepsClosed(deps: Deps, packages: map<Name, Package>)
    requires Lists(deps, packages)
    ensures Closed(deps) && forall name :: name in deps ==> name !in deps[name]
  {
    forall name, i | name in deps && 0 <= i < |deps[name]| ensures deps[name][i] in deps {
      assert deps[name][i] in deps[name];
    }
  }

  /** A chain of dependencies from its first crate to its last. */
  ghost predicate Chain(deps: Deps, path: seq<Name>) {
    |path| >= 2 && forall i :: 0 <= i < |path| - 1 ==> path[i] in deps && path[i + 1] in deps[path[i]]
  }

  ghost predicate Cyclic(deps: Deps) {
    exists path :: Chain(deps, path) && path[0] == path[|path| - 1]
  }

  ghost predicate DependsOn(deps: Deps, a: Name, b: Name) {
    exists path :: Chain(deps, path) && path[0] == a && path[|path| - 1] == b
  }

  lemma DependsFurther(deps: Deps, a: Name, b: Name, c: Name)
    requires DependsOn(deps, a, b) && b in deps && c in deps[b]
    ensures DependsOn(deps, a, c)
  {
    var path :| Chain(deps, path) && path[0] == a && path[|path| - 1] == b;
    assert Chain(deps, path + [c]);
  }

  lemma DependsDirectly(deps: Deps, a: Name, b: Name)
    requires a in deps && b in deps[a]
    ensures DependsOn(deps, a, b)
  {
    assert Chain(deps, [a, b]);
  }

  // ----- Good orders -----

  /** Each crate comes after everything it depends on. */
  ghost predicate DependenciesFirst(deps: Deps, order: seq<Name>) {
    forall j :: 0 <= j < |order| ==> order[j] in deps && forall d :: d in deps[order[j]] ==> d in order[..j]
  }

  lemma {:induction false} ChainGoesBack(deps: Deps, order: seq<Name>, path: seq<Name>, j: nat)
    requires DependenciesFirst(deps, order) && Chain(deps, path)
    requires j < |order| && order[j] == path[0]
    ensures path[|path| - 1] in order[..j]
    decreases |path|
  {
    assert path[1] in order[..j];
    if |path| > 2 {
      var k :| 0 <= k < j && order[k] == path[1];
      ChainGoesBack(deps, order, path[1..], k);
      assert order[..k] <= order[..j];
    }
  }

  lemma OrderedIsAcyclic(deps: Deps, order: seq<Name>)
    requires DependenciesFirst(deps, order) && Distinct(order)
    requires forall name :: name in deps ==> name in order
    ensures !Cyclic(deps)
  {
    forall path | Chain(deps, path)
      ensures path[0] != path[|path| - 1]
    {
      assert path[0] in order;
      var j :| 0 <= j < |order| && order[j] == path[0];
      ChainGoesBack(deps, order, path, j);
      var k :| 0 <= k < j && order[k] == path[|path| - 1];
    }
  }

  // ----- The walk -----

  class Walk {
    const deps: Deps
    var order: seq<Name>
    var visiting: set<Name>

    constructor (deps: Deps)
      requires Closed(deps)
      ensures this.deps == deps && order == [] && visiting == {} && Valid()
    {
      this.deps := deps;
      order, visiting := [], {};
    }

    ghost predicate Valid()
      reads this
    {
      && Closed(deps) && Distinct(order) && DependenciesFirst(deps, order)
      && visiting <= deps.Keys
      && (forall name :: name in visiting ==> name !in order)
    }

    /** False stands for the exit on a cycle. Everything being visited leads to `name`. */
    method Visit(name: Name) returns (ok: bool)
      requires Valid() && name in deps
      requires forall v :: v in visiting ==> DependsOn(deps, v, name)
      modifies this
      ensures ok ==> Valid() && visiting == old(visiting)
      ensures ok ==> old(order) <= order && name in order
      ensures !ok ==> Cyclic(deps)
      decreases deps.Keys - visiting
    {
      if name in order {
        return true;
      }
      if name in visiting {
        return false;
      }
      visiting := visiting + {name};
      ghost var chain := visiting;
      for i := 0 to |deps[name]|
        invariant Valid() && visiting == chain && old(order) <= order
        invariant forall k :: 0 <= k < i ==> deps[name][k] in order
        invariant name !in order
      {
        var dep := deps[name][i];
        assert dep in deps[name];
        DependsDirectly(deps, name, dep);
        forall v | v in visiting ensures DependsOn(deps, v, dep) {
          if v != name {
            DependsFurther(deps, v, name, dep);
          }
        }
        ghost var before := order;
        ok := Visit(dep);
        if !ok {
          return;
        }
        assert forall k :: 0 <= k < i ==> deps[name][k] in before;
        assert forall x :: x in before ==> x in order;
      }
      visiting := visiting - {name};
      assert visiting == old(visiting);
      ghost var finished := order;
      order := order + [name];
      forall j | 0 <= j < |order|
        ensures order[j] in deps && forall d :: d in deps[order[j]] ==> d in order[..j]
      {
        if j < |finished| {
          assert order[j] == finished[j] && order[..j] == finished[..j];
        } else {
          assert order[..j] == finished;
        }
      }
      ok := true;
    }
  }

  /** Visit every crate. */
  method OrderOf(names: seq<Name>, deps: Deps) returns (ok: bool, order: seq<Name>)
    requires Closed(deps) && forall name :: name in names <==> name in deps
    ensures ok <==> !Cyclic(deps)
    ensures ok ==> Distinct(order) && DependenciesFirst(deps, order) && forall name :: name in order <==> name in deps
  {
    var walk := new Walk(deps);
    for i := 0 to |names|
      invariant walk.Valid() && walk.deps == deps && walk.visiting == {}
      invariant fresh(walk)
      invariant forall k :: 0 <= k < i ==> names[k] in walk.order
    {
      assert names[i] in names;
      ghost var before := walk.order;
      ok := walk.Visit(names[i]);
      if !ok {
        return false, [];
      }
      assert forall x :: x in before ==> x in walk.order;
    }
    ok, order := true, walk.order;
    forall name | name in deps ensures name in order {
      assert name in names;
    }
    OrderedIsAcyclic(deps, order);
  }

  // ----- Stated on the workspace metadata -----

  /** `name` is published. */
  ghost predicate IsPublished(metadata: map<Name, Package>, name: Name) {
    name in metadata && metadata[name].publishable && name != "_glrmask"
  }

  /** `name` needs `d` on the index before it: `d` is published too, and some dependency on it is either no dev
      dependency or names a version. */
  ghost predicate Needs(metadata: map<Name, Package>, name: Name, d: Name) {
    && IsPublished(metadata, name) && IsPublished(metadata, d) && d != name
    && exists dep :: dep in metadata[name].dependencies && dep.name == d && !(dep.dev && (dep.req == None || dep.req == Some("*")))
  }

  /** Each crate on the path needs the next. */
  ghost predicate NeedsAlong(metadata: map<Name, Package>, path: seq<Name>) {
    |path| >= 2 && forall i :: 0 <= i < |path| - 1 ==> Needs(metadata, path[i], path[i + 1])
  }

  ghost predicate NeedsItself(metadata: map<Name, Package>) {
    exists path :: NeedsAlong(metadata, path) && path[0] == path[|path| - 1]
  }

  lemma ListedIsNeeded(metadata: map<Name, Package>, deps: Deps, name: Name, d: Name)
    requires Lists(deps, Publishable(metadata))
    ensures name in deps <==> IsPublished(metadata, name)
    ensures name in deps && d in deps[name] <==> Needs(metadata, name, d)
  {
    assert name in deps.Keys <==> name in Publishable(metadata).Keys;
    if name in deps {
      assert d in deps[name] <==> d in OrderingDeps(Publishable(metadata), name);
    }
  }

  lemma SameChain(metadata: map<Name, Package>, deps: Deps, path: seq<Name>)
    requires Lists(deps, Publishable(metadata))
    ensures Chain(deps, path) <==> NeedsAlong(metadata, path)
  {
    if Chain(deps, path) {
      forall i | 0 <= i < |path| - 1 ensures Needs(metadata, path[i], path[i + 1]) {
        ListedIsNeeded(metadata, deps, path[i], path[i + 1]);
      }
    }
    if NeedsAlong(metadata, path) {
      forall i | 0 <= i < |path| - 1 ensures path[i] in deps && path[i + 1] in deps[path[i]] {
        assert Needs(metadata, path[i], path[i + 1]);
        ListedIsNeeded(metadata, deps, path[i], path[i + 1]);
      }
    }
  }

  lemma SameCycles(metadata: map<Name, Package>, deps: Deps)
    requires Lists(deps, Publishable(metadata))
    ensures Cyclic(deps) <==> NeedsItself(metadata)
  {
    forall path ensures Chain(deps, path) <==> NeedsAlong(metadata, path) {
      SameChain(metadata, deps, path);
    }
  }

  /** Every published crate exactly once, each after the crates it needs; it fails exactly when a crate needs itself. */
  method PublishableCrates(metadata: map<Name, Package>, names: seq<Name>, deps: Deps) returns (ok: bool, order: seq<Name>)
    requires Lists(deps, Publishable(metadata)) && forall name :: name in names <==> name in deps
    ensures ok <==> !NeedsItself(metadata)
    ensures ok ==> Distinct(order) && forall name :: name in order <==> IsPublished(metadata, name)
    ensures ok ==> forall j, d :: 0 <= j < |order| && Needs(metadata, order[j], d) ==> d in order[..j]
  {
    BuiltDepsClosed(deps, Publishable(metadata));
    SameCycles(metadata, deps);
    ok, order := OrderOf(names, deps);
    if ok {
      forall name, d
        ensures name in deps <==> IsPublished(metadata, name)
        ensures name in deps && d in deps[name] <==> Needs(metadata, name, d)
      {
        ListedIsNeeded(metadata, deps, name, d);
      }
    }
  }
}
