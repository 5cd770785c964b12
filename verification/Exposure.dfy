/**
 Which dependencies of requested meta-packages get their executables exposed
 (src/depends.rs, `get_meta_package_exposures`).

 Whether a package looks like a meta-package (it has no binaries of its own) is an attribute of
 the package here; the program finds it out from the file list.
 */
module Exposure {
  type Key = string

  datatype Package = Package(requested: bool, isMeta: bool, depends: set<Key>)

  type Packages = map<Key, Package>

  /** One or more depends edges, walked through packages of the map. */
  ghost predicate Path(packages: Packages, c: seq<Key>) {
    |c| >= 2 && forall i | 0 <= i < |c| - 1 :: c[i] in packages && c[i + 1] in packages[c[i]].depends
  }

  ghost predicate PathFromTo(packages: Packages, c: seq<Key>, a: Key, b: Key) {
    Path(packages, c) && c[0] == a && c[|c| - 1] == b
  }

  ghost predicate Reaches(packages: Packages, a: Key, b: Key) {
    exists c :: PathFromTo(packages, c, a, b)
  }

  /** Everything some package depends on. */
  function Mentioned(packages: Packages): set<Key> {
    set p, d | p in packages && d in packages[p].depends :: d
  }

  predicate IsSource(packages: Packages, m: Key) {
    m in packages && packages[m].requested && packages[m].isMeta
  }

  predicate Exposable(packages: Packages, k: Key) {
    k in packages && !packages[k].requested
  }

  /** The requested meta-packages that pull `k` in. */
  ghost function Sources(packages: Packages, k: Key): set<Key> {
    set m | m in packages && IsSource(packages, m) && Reaches(packages, m, k)
  }

  lemma ReachesOne(packages: Packages, a: Key, b: Key)
    requires a in packages && b in packages[a].depends
    ensures Reaches(packages, a, b)
  {
    assert PathFromTo(packages, [a, b], a, b);
  }

  lemma ReachesMore(packages: Packages, a: Key, b: Key, d: Key)
    requires Reaches(packages, a, b) && b in packages && d in packages[b].depends
    ensures Reaches(packages, a, d)
  {
    var c :| PathFromTo(packages, c, a, b);
    assert PathFromTo(packages, c + [d], a, d);
  }

  /** A set that holds the root's dependencies and is closed holds every reachable package. */
  lemma {:induction false} ClosedHoldsPath(packages: Packages, root: Key, found: set<Key>, c: seq<Key>, i: nat)
    requires Path(packages, c) && c[0] == root && 0 < i < |c|
    requires root in packages && packages[root].depends <= found
    requires forall k | k in found && k in packages :: packages[k].depends <= found
    ensures c[i] in found
    decreases i
  {
    if i > 1 {
      ClosedHoldsPath(packages, root, found, c, i - 1);
    }
    assert c[i - 1 + 1] in packages[c[i - 1]].depends;
  }

  /** Put what is new into the set and at the end of the queue. */
  method Enqueue(found0: set<Key>, queue0: seq<Key>, deps: set<Key>) returns (found: set<Key>, queue: seq<Key>)
    ensures found == found0 + deps
    ensures forall k :: k in queue <==> k in queue0 || (k in deps && k !in found0)
    ensures found == found0 ==> queue == queue0
  {
    found, queue := found0, queue0;
    var todo := deps;
    while todo != {}
      invariant todo <= deps && found == found0 + (deps - todo)
      invariant forall k :: k in queue <==> k in queue0 || (k in deps - todo && k !in found0)
      invariant found == found0 ==> queue == queue0
    {
      var d :| d in todo;
      if d !in found {
        found := found + {d};
        queue := queue + [d];
      }
      todo := todo - {d};
    }
  }

  /** The worklist for one meta-package: exactly what it reaches. */
  method AllDependencies(packages: Packages, root: Key) returns (found: set<Key>)
    requires root in packages
    ensures forall k :: k in found <==> Reaches(packages, root, k)
    ensures packages[root].depends <= found && forall k | k in found && k in packages :: packages[k].depends <= found
    ensures forall closed: set<Key> | packages[root].depends <= closed
              && (forall k | k in closed && k in packages :: packages[k].depends <= closed) :: found <= closed
  {
    var queue: seq<Key>;
    found, queue := Enqueue({}, [], packages[root].depends);
    forall k | k in found
      ensures Reaches(packages, root, k)
    {
      ReachesOne(packages, root, k);
    }
    assert found <= Mentioned(packages);
    while queue != []
      invariant packages[root].depends <= found <= Mentioned(packages)
      invariant forall k | k in queue :: k in found
      invariant forall k | k in found :: Reaches(packages, root, k)
      invariant forall k | k in found && k in packages && k !in queue :: packages[k].depends <= found
      decreases Mentioned(packages) - found, |queue|
    {
      var dep := queue[0];
      queue := queue[1..];
      ghost var found0, queue0 := found, queue;
      if dep in packages {
        found, queue := Enqueue(found, queue, packages[dep].depends);
        forall k | k in found
          ensures Reaches(packages, root, k)
        {
          if k !in found0 {
            ReachesMore(packages, root, dep, k);
          }
        }
      }
    }
    forall k | Reaches(packages, root, k)
      ensures k in found
    {
      ClosedHolds(packages, root, found, k);
    }
    forall closed: set<Key> | packages[root].depends <= closed
        && (forall k | k in closed && k in packages :: packages[k].depends <= closed)
      ensures found <= closed
    {
      forall k | k in found
        ensures k in closed
      {
        ClosedHolds(packages, root, closed, k);
      }
    }
  }

  lemma ClosedHolds(packages: Packages, root: Key, closed: set<Key>, k: Key)
    requires root in packages && packages[root].depends <= closed && Reaches(packages, root, k)
    requires forall j | j in closed && j in packages :: packages[j].depends <= closed
    ensures k in closed
  {
    var c :| PathFromTo(packages, c, root, k);
    ClosedHoldsPath(packages, root, closed, c, |c| - 1);
  }

  /**
   `get_meta_package_exposures`. The list holds a package once for every requested meta-package that
   reaches it; as a set it is what some requested meta-package reaches, without the requested ones.
   */
  method MetaPackageExposures(packages: Packages) returns (exposed: seq<Key>)
    ensures forall k :: multiset(exposed)[k] == if Exposable(packages, k) then |Sources(packages, k)| else 0
    ensures forall k :: k in exposed <==>
              && k in packages && !packages[k].requested
              && exists m :: m in packages && packages[m].requested && packages[m].isMeta && Reaches(packages, m, k)
  {
    exposed := [];
    var todo := set m | m in packages && packages[m].requested;
    NoSourceYet(packages, todo);
    while todo != {}
      invariant todo <= packages.Keys
      invariant Collected(packages, exposed, todo)
    {
      var m :| m in todo;
      ghost var exposed0 := exposed;
      if packages[m].isMeta {
        var found := AllDependencies(packages, m);
        exposed := Collect(packages, exposed, found);
        assert forall k :: k in found <==> Reaches(packages, m, k);
      }
      forall k
        ensures CollectedAt(packages, exposed, todo - {m}, k)
      {
        assert CollectedAt(packages, exposed0, todo, k);
        SourceDone(packages, todo, m, k);
      }
      todo := todo - {m};
    }
    forall k
      ensures multiset(exposed)[k] == if Exposable(packages, k) then |Sources(packages, k)| else 0
      ensures k in exposed <==> Exposable(packages, k) && exists m :: IsSource(packages, m) && Reaches(packages, m, k)
    {
      assert CollectedAt(packages, exposed, todo, k);
      assert Sources(packages, k) - {} == Sources(packages, k);
      InExposed(packages, exposed, k);
    }
  }

  lemma InExposed(packages: Packages, exposed: seq<Key>, k: Key)
    requires multiset(exposed)[k] == if Exposable(packages, k) then |Sources(packages, k)| else 0
    ensures k in exposed <==> Exposable(packages, k) && exists m :: IsSource(packages, m) && Reaches(packages, m, k)
  {
    assert k in exposed <==> k in multiset(exposed);
    if m :| IsSource(packages, m) && Reaches(packages, m, k) {
      assert m in Sources(packages, k);
    } else {
      assert Sources(packages, k) == {};
    }
  }

  ghost predicate CollectedAt(packages: Packages, exposed: seq<Key>, todo: set<Key>, k: Key) {
    multiset(exposed)[k] == if Exposable(packages, k) then |Sources(packages, k) - todo| else 0
  }

  /** How often each package is in the list once all sources outside `todo` are handled. */
  ghost predicate Collected(packages: Packages, exposed: seq<Key>, todo: set<Key>) {
    forall k :: CollectedAt(packages, exposed, todo, k)
  }

  lemma NoSourceYet(packages: Packages, todo: set<Key>)
    requires forall m | m in packages && packages[m].requested :: m in todo
    ensures Collected(packages, [], todo)
  {
    forall k
      ensures CollectedAt(packages, [], todo, k)
    {
      assert Sources(packages, k) - todo == {};
    }
  }

  lemma SourceDone(packages: Packages, todo: set<Key>, m: Key, k: Key)
    requires m in todo && m in packages && packages[m].requested
    ensures |Sources(packages, k) - (todo - {m})| ==
            |Sources(packages, k) - todo| + if packages[m].isMeta && Reaches(packages, m, k) then 1 else 0
  {
    var all := Sources(packages, k);
    if packages[m].isMeta && Reaches(packages, m, k) {
      assert all - (todo - {m}) == (all - todo) + {m};
    } else {
      assert all - (todo - {m}) == all - todo;
    }
  }

  /** The dependencies of one meta-package that are in the map and were not requested. */
  method Collect(packages: Packages, exposed0: seq<Key>, found: set<Key>) returns (exposed: seq<Key>)
    ensures forall k :: multiset(exposed)[k] ==
              multiset(exposed0)[k] + if Exposable(packages, k) && k in found then 1 else 0
  {
    exposed := exposed0;
    var todo := found;
    while todo != {}
      invariant todo <= found
      invariant forall k :: multiset(exposed)[k] ==
                  multiset(exposed0)[k] + if Exposable(packages, k) && k in found - todo then 1 else 0
    {
      var d :| d in todo;
      todo := todo - {d};
      if d in packages && !packages[d].requested {
        exposed := exposed + [d];
      }
    }
  }
}
