/**
 The program that computes dependency depths (src/depends.rs), proved to perform a run of
 DependencyDepth and to start it from the inverse of the dependency graph.
 */
module DepthLoop {
  import opened Wrappers
  import opened DependencyDepth

  newtype u16 = x: int | 0 <= x < 0x1_0000

  /** A depth as the table stores it: release builds wrap a `u16`. */
  function Wrapped(n: nat): u16 {
    (n % 0x1_0000) as u16
  }

  function WrappedAll(depth: map<Key, nat>): map<Key, u16> {
    map k | k in depth :: Wrapped(depth[k])
  }

  function Keys(ks: seq<Key>): set<Key> {
    set k | k in ks
  }

  function Struck(remaining: Edges, targets: set<Key>, node: Key): Edges {
    map k | k in remaining :: if k in targets then remaining[k] - {node} else remaining[k]
  }

  /** Remaining reverse dependencies and the depths given so far. */
  class DepthTable {
    var remaining: Edges
    var depth: map<Key, u16>

    constructor (rdepends: Edges)
      ensures remaining == rdepends && depth == map[]
    {
      remaining := rdepends;
      depth := map[];
    }

    /** Strike `node` from the reverse dependencies of each of its `targets` that is left. */
    method Strike(targets: set<Key>, node: Key)
      modifies this`remaining
      ensures remaining == Struck(old(remaining), targets, node)
    {
      var todo := targets;
      while todo != {}
        invariant todo <= targets
        invariant remaining == Struck(old(remaining), targets - todo, node)
      {
        var d :| d in todo;
        if d in remaining {
          remaining := remaining[d := remaining[d] - {node}];
        }
        todo := todo - {d};
      }
      assert targets - todo == targets;
    }

    /** `remove_node_and_update_dependencies` */
    method RemoveNode(node: Key, g: Graph, level: u16)
      modifies this
      ensures remaining == Without(old(remaining), g, {node})
      ensures depth == old(depth)[node := level]
    {
      depth := depth[node := level];
      remaining := remaining - {node};
      StruckNone(remaining, node);
      if node in g.depends {
        Strike(g.depends[node], node);
      }
      StruckNone(remaining, node);
      if node in g.bdepends {
        Strike(g.bdepends[node], node);
      }
      StruckIsWithout(old(remaining), g, node);
    }

    /** `process_leaf_nodes` */
    method ProcessLeaves(leaves: seq<Key>, g: Graph, level: u16)
      modifies this
      ensures remaining == Without(old(remaining), g, Keys(leaves))
      ensures depth == old(depth) + map k | k in Keys(leaves) :: level
    {
      hide Without, Keys;
      WithoutNone(remaining, g);
      KeysNone(leaves);
      for i := 0 to |leaves|
        invariant remaining == Without(old(remaining), g, Keys(leaves[..i]))
        invariant depth == old(depth) + map k | k in Keys(leaves[..i]) :: level
      {
        WithoutOneMore(old(remaining), g, Keys(leaves[..i]), leaves[i]);
        KeysOneMore(leaves, i);
        RemoveNode(leaves[i], g, level);
      }
      assert leaves[..|leaves|] == leaves;
    }

    /** `find_leaf_nodes_by_rdepends`, in whatever order the map is walked. */
    method FindLeaves() returns (leaves: seq<Key>)
      ensures Keys(leaves) == Leaves(remaining)
      ensures forall i, j | 0 <= i < j < |leaves| :: leaves[i] != leaves[j]
    {
      leaves := [];
      var todo := remaining.Keys;
      while todo != {}
        invariant todo <= remaining.Keys
        invariant Keys(leaves) == set k | k in remaining && k !in todo && remaining[k] == {}
        invariant forall i, j | 0 <= i < j < |leaves| :: leaves[i] != leaves[j]
      {
        var k :| k in todo;
        todo := todo - {k};
        if remaining[k] == {} {
          assert k !in Keys(leaves);
          assert Keys(leaves + [k]) == Keys(leaves) + {k};
          leaves := leaves + [k];
        }
      }
    }

    /** `find_candidate_with_least_weighted_rdepends`: some package of least weight among those
        that still have dependents; ties fall as the map is walked. */
    method FindCandidate(requested: set<Key>) returns (c: Option<Key>)
      ensures c.None? ==> forall k | k in remaining :: remaining[k] == {}
      ensures c.Some? ==> IsCandidate(remaining, requested, c.value)
    {
      c := None;
      var least := 0;
      var todo := remaining.Keys;
      while todo != {}
        invariant todo <= remaining.Keys
        invariant c.None? ==> forall k | k in remaining && k !in todo :: remaining[k] == {}
        invariant c.Some? ==> c.value in remaining && remaining[c.value] != {}
        invariant c.Some? ==> least == Weight(remaining, requested, c.value)
        invariant c.Some? ==> forall k | k in remaining && k !in todo && remaining[k] != {} ::
                    least <= Weight(remaining, requested, k)
      {
        var k :| k in todo;
        todo := todo - {k};
        if remaining[k] != {} {
          var weight := WeightOf(k, requested);
          if c.None? || weight < least {
            c, least := Some(k), weight;
          }
        }
      }
    }

    /** The weight computed inside the candidate search. */
    method WeightOf(k: Key, requested: set<Key>) returns (weight: nat)
      requires k in remaining
      ensures weight == Weight(remaining, requested, k)
    {
      hide *;
      weight := 0;
      var todo := remaining[k];
      NoneWeighed(remaining[k]);
      while todo != {}
        invariant todo <= remaining[k]
        invariant weight == SumOf(remaining[k] - todo)
      {
        var r :| r in todo;
        OneMore(remaining[k] - todo, r);
        assert remaining[k] - (todo - {r}) == (remaining[k] - todo) + {r};
        todo := todo - {r};
        if IsLib(r) {
          weight := weight + 10;
        } else {
          weight := weight + 1;
        }
      }
      assert remaining[k] - todo == remaining[k];
      if IsLib(k) {
        weight := weight * 2;
      }
      if k in requested {
        weight := weight / 2;
      }
      WeightIs(remaining, requested, k);
    }

    /** `break_circular_dependency` */
    method BreakCycle(g: Graph, requested: set<Key>, level: u16) returns (broke: bool, ghost c: Key)
      modifies this
      ensures broke <==> exists k :: k in old(remaining) && old(remaining)[k] != {}
      ensures broke ==> IsCandidate(old(remaining), requested, c)
                        && remaining == Without(old(remaining), g, {c}) && depth == old(depth)[c := level]
      ensures !broke ==> remaining == old(remaining) && depth == old(depth)
    {
      c := "";
      var candidate := FindCandidate(requested);
      if candidate.None? {
        return false, c;
      }
      c := candidate.value;
      RemoveNode(candidate.value, g, level);
      return true, c;
    }

    /** The body of the loop: peel all leaves, or break one cycle. */
    method Iterate(g: Graph, requested: set<Key>, level: u16, ghost s: State) returns (ghost gone: set<Key>)
      requires remaining == s.remaining && remaining != map[]
      modifies this
      ensures Takes(requested, s, gone)
      ensures remaining == Without(s.remaining, g, gone)
      ensures depth == old(depth) + map k | k in gone :: level
    {
      hide Without, Weight;
      var leaves := FindLeaves();
      if leaves == [] {
        NothingPeels(remaining);
        var broke, c := BreakCycle(g, requested, level);
        // The program's last resort, giving all remaining packages this level, is unreachable.
        assert broke;
        gone := {c};
      } else {
        assert leaves[0] in Keys(leaves);
        ProcessLeaves(leaves, g, level);
        gone := Keys(leaves);
      }
    }
  }

  lemma KeysNone(ks: seq<Key>)
    ensures Keys(ks[..0]) == {}
  {
  }

  lemma KeysOneMore(ks: seq<Key>, i: nat)
    requires i < |ks|
    ensures Keys(ks[..i + 1]) == Keys(ks[..i]) + {ks[i]}
  {
    assert ks[..i + 1] == ks[..i] + [ks[i]];
  }

  /** Ten per "lib" package and one per other. */
  function SumOf(ks: set<Key>): nat {
    |ks| + 9 * |Libs(ks)|
  }

  lemma NoneWeighed(ks: set<Key>)
    ensures ks - ks == {} && SumOf({}) == 0
  {
    assert Libs({}) == {};
  }

  lemma OneMore(ks: set<Key>, r: Key)
    requires r !in ks
    ensures SumOf(ks + {r}) == SumOf(ks) + if IsLib(r) then 10 else 1
  {
    hide IsLib;
    assert |ks + {r}| == |ks| + 1;
    if IsLib(r) {
      assert Libs(ks + {r}) == Libs(ks) + {r};
      assert r !in Libs(ks);
    } else {
      assert Libs(ks + {r}) == Libs(ks);
    }
  }

  lemma WeightIs(remaining: Edges, requested: set<Key>, k: Key)
    requires k in remaining
    ensures var doubled := if IsLib(k) then SumOf(remaining[k]) * 2 else SumOf(remaining[k]);
            Weight(remaining, requested, k) == if k in requested then doubled / 2 else doubled
  {
    hide IsLib, Libs;
  }

  lemma WithoutNone(remaining: Edges, g: Graph)
    ensures Without(remaining, g, {}) == remaining
  {
    forall k | k in remaining
      ensures Without(remaining, g, {})[k] == remaining[k]
    {
    }
  }

  /** Taking packages out one by one is taking them out together. */
  lemma WithoutOneMore(remaining: Edges, g: Graph, gone: set<Key>, k: Key)
    ensures Without(Without(remaining, g, gone), g, {k}) == Without(remaining, g, gone + {k})
  {
    var a, b := Without(Without(remaining, g, gone), g, {k}), Without(remaining, g, gone + {k});
    assert a.Keys == b.Keys;
    forall j | j in a
      ensures a[j] == b[j]
    {
      forall p
        ensures p in a[j] <==> p in b[j]
      {
      }
    }
  }

  lemma StruckNone(remaining: Edges, node: Key)
    ensures Struck(remaining, {}, node) == remaining
  {
  }

  /** Striking over both dependency lists is the specification's removal. */
  lemma StruckIsWithout(remaining: Edges, g: Graph, node: Key)
    ensures Struck(Struck(remaining - {node}, Targets(g.depends, node), node), Targets(g.bdepends, node), node)
            == Without(remaining, g, {node})
  {
    var a := Struck(Struck(remaining - {node}, Targets(g.depends, node), node), Targets(g.bdepends, node), node);
    var b := Without(remaining, g, {node});
    assert a.Keys == b.Keys;
    forall k | k in a
      ensures a[k] == b[k]
    {
      assert (set p | p in {node} && k in g.Outgoing(p)) == if k in g.Outgoing(node) then {node} else {};
    }
  }

  // ---------------------------------------------------------------- the loop

  /**
   `calculate_depths_from_graph`. `run` is the run of DependencyDepth performed; the table holds
   its depths modulo 2^16, which is exactly those depths for up to 65536 packages.
   */
  method CalculateDepths(g: Graph, rdepends: Edges, requested: set<Key>)
    returns (depths: map<Key, u16>, ghost run: seq<State>)
    ensures depths.Keys == rdepends.Keys
    ensures |run| > 0 && Finished(g, requested, rdepends, run)
    ensures depths == WrappedAll(Last(run).depth)
    ensures |rdepends| <= 0x1_0000 ==>
              forall k | k in rdepends :: k in depths && k in Last(run).depth && depths[k] as int == Last(run).depth[k]
  {
    hide *;
    var table := new DepthTable(rdepends);
    var level: u16 := 0;
    run := [Initial(rdepends)];
    StartsRun(g, requested, rdepends);
    while table.remaining != map[]
      invariant |run| > 0 && IsRun(g, requested, rdepends, run)
      invariant table.remaining == Last(run).remaining
      invariant table.depth == WrappedAll(Last(run).depth)
      invariant level == Wrapped(Last(run).level)
      decreases table.remaining.Keys
    {
      ghost var s := Last(run);
      ghost var gone := table.Iterate(g, requested, level, s);
      ghost var t := Advance(g, s, gone, Leaves(s.remaining) == {});
      TableAdvances(g, requested, s, gone, table.remaining, table.depth, level);
      RunExtends(g, requested, rdepends, run, t);
      run := run + [t];
      level := if level == 0xFFFF then 0 else level + 1;
    }
    depths := table.depth;
    RunEnds(g, requested, rdepends, run);
  }

  lemma StartsRun(g: Graph, requested: set<Key>, rdepends: Edges)
    ensures IsRun(g, requested, rdepends, [Initial(rdepends)])
    ensures Last([Initial(rdepends)]) == State(rdepends, map[], 0, {})
    ensures WrappedAll(map[]) == map[] && Wrapped(0) == 0
  {
  }

  lemma RunExtends(g: Graph, requested: set<Key>, rdepends: Edges, run: seq<State>, t: State)
    requires |run| > 0 && IsRun(g, requested, rdepends, run) && Next(g, requested, Last(run), t)
    ensures IsRun(g, requested, rdepends, run + [t]) && Last(run + [t]) == t
    ensures t.remaining.Keys < Last(run).remaining.Keys
  {
    hide Next, Layered;
    RunLayered(g, requested, rdepends, run, |run| - 1);
    NextLayered(g, requested, rdepends, Last(run), t);
    forall i | 0 <= i < |run|
      ensures Next(g, requested, (run + [t])[i], (run + [t])[i + 1])
    {
      if i < |run| - 1 {
        assert Next(g, requested, run[i], run[i + 1]);
      }
    }
  }

  lemma RunEnds(g: Graph, requested: set<Key>, rdepends: Edges, run: seq<State>)
    requires |run| > 0 && IsRun(g, requested, rdepends, run) && Last(run).remaining == map[]
    ensures Finished(g, requested, rdepends, run) && WrappedAll(Last(run).depth).Keys == rdepends.Keys
    ensures var depths := WrappedAll(Last(run).depth);
            |rdepends| <= 0x1_0000 ==>
              forall k | k in rdepends :: k in depths && k in Last(run).depth && depths[k] as int == Last(run).depth[k]
  {
    hide LevelTaken, IsRun;
    DepthsAreLevels(g, requested, rdepends, run);
  }

  lemma NothingPeels(remaining: Edges)
    requires remaining != map[] && Leaves(remaining) == {}
    ensures exists k :: k in remaining && remaining[k] != {}
  {
    var k :| k in remaining;
    assert k !in Leaves(remaining);
  }

  /** The table after an iteration shows the next state of the run. */
  lemma TableAdvances(g: Graph, requested: set<Key>, s: State, gone: set<Key>, remaining: Edges,
                      depth: map<Key, u16>, level: u16)
    requires level == Wrapped(s.level) && remaining == Without(s.remaining, g, gone)
    requires depth == WrappedAll(s.depth) + map k | k in gone :: level
    requires Takes(requested, s, gone)
    ensures var t := Advance(g, s, gone, Leaves(s.remaining) == {});
            && Next(g, requested, s, t) && remaining == t.remaining && depth == WrappedAll(t.depth)
            && Wrapped(t.level) == if level == 0xFFFF then 0 else level + 1
  {
    hide Takes, Without, WrappedAll, Wrapped;
    WrappedLevel(s, gone, level);
    WrappedNext(s.level);
  }

  lemma WrappedLevel(s: State, gone: set<Key>, level: u16)
    requires level == Wrapped(s.level)
    ensures WrappedAll(s.depth) + (map k | k in gone :: level) == WrappedAll(s.depth + map k | k in gone :: s.level)
  {
    hide Wrapped;
  }

  lemma WrappedNext(n: nat)
    ensures Wrapped(n + 1) == if Wrapped(n) == 0xFFFF then 0 else Wrapped(n) + 1
  {
  }

  // ---------------------------------------------------------------- from dependency lists to the loop

  /** A resolved package; `known` is absent when it or its dependencies could not be loaded. */
  datatype Solvable = Solvable(key: Key, known: Option<set<Key>>)

  function Deps(s: Solvable): set<Key> {
    if s.known.Some? then s.known.value else {}
  }

  ghost predicate DistinctKeys(solvables: seq<Solvable>) {
    forall i, j | 0 <= i < j < |solvables| :: solvables[i].key != solvables[j].key
  }

  /** `back` says the same as `edges`, read the other way. */
  ghost predicate Mirror(edges: Edges, back: Edges) {
    forall d, p :: p in Targets(back, d) <==> d in Targets(edges, p)
  }

  /** `build_dependency_graph`, given the dependencies that the provider found. */
  method BuildDependencyGraph(solvables: seq<Solvable>) returns (depends: Edges, rdepends: Edges)
    requires DistinctKeys(solvables)
    ensures depends.Keys == (set s | s in solvables :: s.key)
    ensures forall i | 0 <= i < |solvables| :: Targets(depends, solvables[i].key) == Deps(solvables[i])
    ensures Mirror(depends, rdepends)
    ensures AsListed(depends, solvables)
    ensures forall d | d in rdepends :: rdepends[d] != {}
  {
    depends, rdepends := map[], map[];
    for i := 0 to |solvables|
      invariant depends.Keys == (set s | s in solvables[..i] :: s.key)
      invariant forall j | 0 <= j < i :: Targets(depends, solvables[j].key) == Deps(solvables[j])
      invariant Mirror(depends, rdepends)
      invariant forall d | d in rdepends :: rdepends[d] != {}
    {
      var s := solvables[i];
      ghost var depends0, rdepends0 := depends, rdepends;
      assert solvables[..i + 1] == solvables[..i] + [s];
      assert s.key !in depends;
      depends := depends[s.key := {}];
      if s.known.Some? {
        depends := depends[s.key := s.known.value];
        rdepends := AddDependent(rdepends, s.key, s.known.value);
      }
      MirrorGrows(depends0, rdepends0, s.key, Deps(s), rdepends);
      assert depends == depends0[s.key := Deps(s)];
    }
    assert solvables[..|solvables|] == solvables;
    forall p, d
      ensures d in Targets(depends, p) <==> Lists(solvables, p, d)
    {
      ListsIsTarget(depends, solvables, p, d);
    }
  }

  lemma MirrorGrows(depends: Edges, rdepends: Edges, k: Key, deps: set<Key>, more: Edges)
    requires Mirror(depends, rdepends) && k !in depends
    requires forall d :: Targets(more, d) == Targets(rdepends, d) + if d in deps then {k} else {}
    ensures Mirror(depends[k := deps], more)
  {
    forall d, p
      ensures p in Targets(more, d) <==> d in Targets(depends[k := deps], p)
    {
      assert p in Targets(rdepends, d) <==> d in Targets(depends, p);
    }
  }

  /** Enter `k` as a dependent of everything in `deps`. */
  method AddDependent(before: Edges, k: Key, deps: set<Key>) returns (rdepends: Edges)
    requires forall d | d in before :: before[d] != {}
    ensures forall d :: Targets(rdepends, d) == Targets(before, d) + if d in deps then {k} else {}
    ensures forall d | d in rdepends :: rdepends[d] != {}
  {
    rdepends := before;
    var todo := deps;
    while todo != {}
      invariant todo <= deps
      invariant forall d :: Targets(rdepends, d) == Targets(before, d) + if d in deps - todo then {k} else {}
      invariant forall d | d in rdepends :: rdepends[d] != {}
    {
      var d :| d in todo;
      ghost var last := rdepends;
      rdepends := rdepends[d := Targets(rdepends, d) + {k}];
      assert forall x :: Targets(rdepends, x) == Targets(last, x) + if x == d then {k} else {};
      todo := todo - {d};
    }
  }

  /** `update_remaining_rdepends_with_filter`; the table of filtered pairs is empty. */
  method AddReverse(before: Edges, k: Key, rdeps: set<Key>) returns (remaining: Edges)
    ensures remaining == before[k := Targets(before, k) + rdeps]
  {
    remaining := before[k := Targets(before, k)];
    var todo := rdeps;
    assert Targets(before, k) + (rdeps - todo) == Targets(before, k);
    while todo != {}
      invariant todo <= rdeps
      invariant remaining == before[k := Targets(before, k) + (rdeps - todo)]
    {
      var r :| r in todo;
      remaining := remaining[k := remaining[k] + {r}];
      assert Targets(before, k) + (rdeps - todo) + {r} == Targets(before, k) + (rdeps - (todo - {r}));
      todo := todo - {r};
    }
    assert rdeps - todo == rdeps;
  }

  function Union(a: Edges, b: Edges): Edges {
    map k | k in a.Keys + b.Keys :: Targets(a, k) + Targets(b, k)
  }

  /** The loops of `combine_and_filter_reverse_dependencies` over one map. */
  method AddAllReverse(before: Edges, more: Edges) returns (remaining: Edges)
    ensures remaining == Union(before, more)
  {
    hide Union;
    remaining := before;
    var todo := more.Keys;
    ghost var done: Edges := map[];
    UnionStart(before);
    while todo != {}
      invariant todo <= more.Keys && done == more - todo
      invariant remaining == Union(before, done)
    {
      var k :| k in todo;
      UnionStep(before, done, k, more[k]);
      remaining := AddReverse(remaining, k, more[k]);
      done := done[k := more[k]];
      todo := todo - {k};
    }
    assert done == more;
  }

  lemma UnionStart(a: Edges)
    ensures Union(a, map[]) == a
  {
    assert forall k | k in a :: Targets(a, k) + {} == a[k];
  }

  lemma UnionStep(a: Edges, b: Edges, k: Key, ks: set<Key>)
    requires k !in b
    ensures var u := Union(a, b);
            Union(a, b[k := ks]) == u[k := Targets(u, k) + ks]
  {
    var u, c := Union(a, b), b[k := ks];
    forall j
      ensures Targets(Union(a, c), j) == Targets(u[k := Targets(u, k) + ks], j)
    {
      hide Union;
      UnionTargets(a, b, j);
      UnionTargets(a, c, j);
    }
    SameTargets(Union(a, c), u[k := Targets(u, k) + ks]);
  }

  /** `combine_and_filter_reverse_dependencies` */
  method CombineReverse(rdepends: Edges, rbdepends: Edges, depends: Edges) returns (remaining: Edges)
    ensures remaining == Combined(rdepends, rbdepends, depends)
  {
    hide Union, Combined;
    remaining := AddAllReverse(map[], rdepends);
    remaining := AddAllReverse(remaining, rbdepends);
    remaining := AddAllReverse(remaining, Bare(depends));
    CombinedSteps(rdepends, rbdepends, depends);
  }

  /** Every package of the plan, with no dependents. */
  function Bare(depends: Edges): Edges {
    map k | k in depends :: {}
  }

  lemma CombinedSteps(rdepends: Edges, rbdepends: Edges, depends: Edges)
    ensures Union(Union(Union(map[], rdepends), rbdepends), Bare(depends)) == Combined(rdepends, rbdepends, depends)
  {
    hide *;
    var all := Union(Union(Union(map[], rdepends), rbdepends), Bare(depends));
    var sum := Combined(rdepends, rbdepends, depends);
    forall k
      ensures Targets(all, k) == Targets(sum, k) && (k in all <==> k in sum)
    {
      CombinedTargets(rdepends, rbdepends, depends, k);
    }
    SameTargets(all, sum);
  }

  lemma CombinedTargets(rdepends: Edges, rbdepends: Edges, depends: Edges, k: Key)
    ensures var (all, sum) := (Union(Union(Union(map[], rdepends), rbdepends), Bare(depends)),
                               Combined(rdepends, rbdepends, depends));
            Targets(all, k) == Targets(sum, k) && (k in all <==> k in sum)
  {
    hide Union;
    var one := Union(map[], rdepends);
    var two := Union(one, rbdepends);
    UnionTargets(map[], rdepends, k);
    UnionTargets(one, rbdepends, k);
    UnionTargets(two, Bare(depends), k);
  }

  lemma UnionTargets(a: Edges, b: Edges, k: Key)
    ensures Targets(Union(a, b), k) == Targets(a, k) + Targets(b, k)
    ensures Union(a, b).Keys == a.Keys + b.Keys
  {
  }

  lemma SameTargets(a: Edges, b: Edges)
    requires a.Keys == b.Keys && forall k :: Targets(a, k) == Targets(b, k)
    ensures a == b
  {
    forall k | k in a
      ensures a[k] == b[k]
    {
      assert Targets(a, k) == Targets(b, k);
    }
  }

  function Combined(rdepends: Edges, rbdepends: Edges, depends: Edges): Edges {
    map k | k in rdepends.Keys + rbdepends.Keys + depends.Keys :: Targets(rdepends, k) + Targets(rbdepends, k)
  }

  /** Nothing points outside the packages being installed. */
  ghost predicate Within(edges: Edges, keys: set<Key>) {
    edges.Keys <= keys && forall k | k in edges :: edges[k] <= keys
  }

  /** The loop starts from the inverse of the graph, over exactly the packages of the plan. */
  lemma CombinedIsInverse(depends: Edges, rdepends: Edges, bdepends: Edges, rbdepends: Edges)
    requires Mirror(depends, rdepends) && Mirror(bdepends, rbdepends)
    requires Within(depends, depends.Keys) && Within(bdepends, depends.Keys)
    requires forall d | d in rdepends :: rdepends[d] != {}
    requires forall d | d in rbdepends :: rbdepends[d] != {}
    ensures Combined(rdepends, rbdepends, depends).Keys == depends.Keys
    ensures Inverse(Graph(depends, bdepends), Combined(rdepends, rbdepends, depends))
  {
    forall d | d in rdepends
      ensures d in depends
    {
      var p :| p in rdepends[d];
      assert p in Targets(rdepends, d);
      assert d in Targets(depends, p);
    }
    forall d | d in rbdepends
      ensures d in depends
    {
      var p :| p in rbdepends[d];
      assert p in Targets(rbdepends, d);
      assert d in Targets(bdepends, p);
    }
    var all := Combined(rdepends, rbdepends, depends);
    var g := Graph(depends, bdepends);
    forall k, p | k in all
      ensures p in all[k] <==> p in all && k in g.Outgoing(p)
    {
      assert p in Targets(rdepends, k) <==> k in Targets(depends, p);
      assert p in Targets(rbdepends, k) <==> k in Targets(bdepends, p);
    }
  }

  /** `calculate_pkgkey_to_depth` */
  method CalculatePkgkeyToDepth(depends: Edges, rdepends: Edges, bdepends: Edges, rbdepends: Edges, requested: set<Key>)
    returns (depths: map<Key, u16>, ghost run: seq<State>)
    ensures depths.Keys == rdepends.Keys + rbdepends.Keys + depends.Keys
    ensures Finished(Graph(depends, bdepends), requested, Combined(rdepends, rbdepends, depends), run)
    ensures depths == WrappedAll(Last(run).depth)
  {
    var remaining := CombineReverse(rdepends, rbdepends, depends);
    depths, run := CalculateDepths(Graph(depends, bdepends), remaining, requested);
  }

  /**
   The whole pipeline, from the dependency lists of at most 65536 resolved packages: every package
   gets a depth, and one that is not reached from a cycle gets the length of the longest chain of
   dependents above it, build dependencies included.
   */
  method DepthsOfSolvables(solvables: seq<Solvable>, building: seq<Solvable>, requested: set<Key>)
    returns (depths: map<Key, u16>, ghost g: Graph, ghost rdepends: Edges)
    requires DistinctKeys(solvables) && DistinctKeys(building) && |solvables| <= 0x1_0000
    requires forall s | s in solvables :: Deps(s) <= set t | t in solvables :: t.key
    requires forall s | s in building :: s.key in set t | t in solvables :: t.key
    requires forall s | s in building :: Deps(s) <= set t | t in solvables :: t.key
    ensures GraphOf(g, solvables, building) && Inverse(g, rdepends)
    ensures depths.Keys == set s | s in solvables :: s.key
    ensures rdepends.Keys == depths.Keys
    ensures Dependents(rdepends, solvables, building)
    ensures forall k | k in depths :: !AfterCycle(rdepends, k) ==> LongestChain(rdepends, k, depths[k] as int)
  {
    hide Inverse, AfterCycle, LongestChain, Mirror, Within, Finished, WrappedAll, Combined, AsListed, Dependents;
    var depends, rdeps := BuildDependencyGraph(solvables);
    var bdepends, rbdeps := BuildDependencyGraph(building);
    g := Graph(depends, bdepends);
    GraphWithin(g, solvables, building);
    CombinedIsInverse(depends, rdeps, bdepends, rbdeps);
    rdepends := Combined(rdeps, rbdeps, depends);
    ghost var run;
    depths, run := CalculatePkgkeyToDepth(depends, rdeps, bdepends, rbdeps, requested);
    KeysAtMost(solvables);
    DependentsAreListed(g, rdepends, solvables, building);
    ExactDepths(g, requested, rdepends, run, depths);
  }

  lemma ExactDepths(g: Graph, requested: set<Key>, rdepends: Edges, run: seq<State>, depths: map<Key, u16>)
    requires Inverse(g, rdepends) && Finished(g, requested, rdepends, run) && |rdepends.Keys| <= 0x1_0000
    requires depths == WrappedAll(Last(run).depth)
    ensures depths.Keys == rdepends.Keys
    ensures forall k | k in depths :: !AfterCycle(rdepends, k) ==> LongestChain(rdepends, k, depths[k] as int)
  {
    hide LevelTaken, AfterCycle, LongestChain, Inverse, IsRun;
    DepthsAreLevels(g, requested, rdepends, run);
    forall k | k in depths && !AfterCycle(rdepends, k)
      ensures LongestChain(rdepends, k, depths[k] as int)
    {
      DepthIsLongestChain(g, requested, rdepends, run, k);
    }
  }

  /** A package with key `p` was resolved, its dependencies are known and `d` is one of them. */
  ghost predicate Lists(solvables: seq<Solvable>, p: Key, d: Key) {
    exists i :: 0 <= i < |solvables| && solvables[i].key == p && solvables[i].known.Some?
                && d in solvables[i].known.value
  }

  ghost predicate AsListed(depends: Edges, solvables: seq<Solvable>) {
    forall p, d :: d in Targets(depends, p) <==> Lists(solvables, p, d)
  }

  lemma ListsIsTarget(edges: Edges, solvables: seq<Solvable>, p: Key, d: Key)
    requires edges.Keys == set s | s in solvables :: s.key
    requires forall i | 0 <= i < |solvables| :: Targets(edges, solvables[i].key) == Deps(solvables[i])
    ensures Lists(solvables, p, d) <==> d in Targets(edges, p)
  {
    if d in Targets(edges, p) {
      var i :| 0 <= i < |solvables| && solvables[i].key == p;
      assert Targets(edges, solvables[i].key) == Deps(solvables[i]);
    }
    if Lists(solvables, p, d) {
      var i :| 0 <= i < |solvables| && solvables[i].key == p && solvables[i].known.Some?
               && d in solvables[i].known.value;
      assert Targets(edges, solvables[i].key) == Deps(solvables[i]);
    }
  }

  /** The map that the loop starts from holds exactly the dependents listed. */
  ghost predicate Dependents(rdepends: Edges, solvables: seq<Solvable>, building: seq<Solvable>) {
    forall d, p | d in rdepends :: p in rdepends[d] <==> Lists(solvables, p, d) || Lists(building, p, d)
  }

  lemma DependentsAreListed(g: Graph, rdepends: Edges, solvables: seq<Solvable>, building: seq<Solvable>)
    requires AsListed(g.depends, solvables) && AsListed(g.bdepends, building) && Inverse(g, rdepends)
    requires Within(g.depends, rdepends.Keys) && Within(g.bdepends, rdepends.Keys)
    ensures Dependents(rdepends, solvables, building)
  {
    hide Lists;
    forall d, p | d in rdepends
      ensures p in rdepends[d] <==> Lists(solvables, p, d) || Lists(building, p, d)
    {
      assert Lists(solvables, p, d) <==> d in Targets(g.depends, p);
      assert Lists(building, p, d) <==> d in Targets(g.bdepends, p);
      assert d in g.Outgoing(p) <==> d in Targets(g.depends, p) || d in Targets(g.bdepends, p);
      assert d in g.Outgoing(p) ==> p in rdepends;
      assert p in rdepends[d] <==> p in rdepends && d in g.Outgoing(p);
    }
  }

  ghost predicate GraphOf(g: Graph, solvables: seq<Solvable>, building: seq<Solvable>) {
    && g.depends.Keys == (set s | s in solvables :: s.key)
    && g.bdepends.Keys == (set s | s in building :: s.key)
    && (forall i | 0 <= i < |solvables| :: Targets(g.depends, solvables[i].key) == Deps(solvables[i]))
    && (forall i | 0 <= i < |building| :: Targets(g.bdepends, building[i].key) == Deps(building[i]))
  }

  lemma GraphWithin(g: Graph, solvables: seq<Solvable>, building: seq<Solvable>)
    requires GraphOf(g, solvables, building)
    requires forall s | s in solvables :: Deps(s) <= g.depends.Keys
    requires forall s | s in building :: s.key in g.depends.Keys && Deps(s) <= g.depends.Keys
    ensures Within(g.depends, g.depends.Keys) && Within(g.bdepends, g.depends.Keys)
  {
    forall k | k in g.depends
      ensures g.depends[k] <= g.depends.Keys
    {
      var i :| 0 <= i < |solvables| && solvables[i].key == k;
      assert Targets(g.depends, solvables[i].key) == Deps(solvables[i]);
    }
    forall k | k in g.bdepends
      ensures g.bdepends[k] <= g.depends.Keys && k in g.depends
    {
      var i :| 0 <= i < |building| && building[i].key == k;
      assert Targets(g.bdepends, building[i].key) == Deps(building[i]);
    }
  }

  lemma {:induction false} KeysAtMost(solvables: seq<Solvable>)
    ensures |set s | s in solvables :: s.key| <= |solvables|
  {
    if solvables != [] {
      var rest := solvables[..|solvables| - 1];
      KeysAtMost(rest);
      var last := solvables[|solvables| - 1];
      assert solvables == rest + [last];
      assert (set s | s in solvables :: s.key) == (set s | s in rest :: s.key) + {last.key};
    }
  }
}
