/**
 The specification of dependency depths (src/depends.rs, `calculate_depths_from_graph`).

 The loop peels, level by level, the packages that no remaining package depends on. When there
 is none it removes one package of least weight and goes on. A run of the loop is a sequence of
 states; which least-weighted package is removed is not determined (hash map order), so every
 theorem here is about all runs.
 */
module DependencyDepth {
  import opened Substitution

  type Key = string

  /** Package to packages, as `HashMap<String, BTreeSet<String>>`. */
  type Edges = map<Key, set<Key>>

  function Targets(edges: Edges, k: Key): set<Key> {
    if k in edges then edges[k] else {}
  }

  /** Dependencies and build dependencies of every package. */
  datatype Graph = Graph(depends: Edges, bdepends: Edges) {
    function Outgoing(k: Key): set<Key> {
      Targets(depends, k) + Targets(bdepends, k)
    }
  }

  // ---------------------------------------------------------------- one iteration

  datatype State = State(remaining: Edges, depth: map<Key, nat>, level: nat, broken: set<Key>)

  function Initial(rdepends: Edges): State {
    State(rdepends, map[], 0, {})
  }

  /** The packages nobody remaining depends on. */
  function Leaves(remaining: Edges): set<Key> {
    set k | k in remaining && remaining[k] == {}
  }

  /** Take out `gone` and strike it from the reverse dependencies of what it depends on. */
  function Without(remaining: Edges, g: Graph, gone: set<Key>): Edges {
    map k | k in remaining && k !in gone :: remaining[k] - (set p | p in gone && k in g.Outgoing(p))
  }

  predicate IsLib(k: Key) {
    Find(k, "lib").Some?
  }

  function Libs(ks: set<Key>): set<Key> {
    set k | k in ks && IsLib(k)
  }

  /** A dependent whose key contains "lib" weighs ten, any other weighs one; the sum is doubled for
      a "lib" package and then halved for a requested one. */
  function Weight(remaining: Edges, requested: set<Key>, k: Key): nat
    requires k in remaining
  {
    var sum := |remaining[k]| + 9 * |Libs(remaining[k])|;
    var doubled := if IsLib(k) then sum * 2 else sum;
    if k in requested then doubled / 2 else doubled
  }

  /** A package that `find_candidate_with_least_weighted_rdepends` may return. */
  ghost predicate IsCandidate(remaining: Edges, requested: set<Key>, c: Key) {
    && c in remaining && remaining[c] != {}
    && forall k | k in remaining && remaining[k] != {} ::
         Weight(remaining, requested, c) <= Weight(remaining, requested, k)
  }

  /** `gone` leaves at the current level, peeled or broken out. */
  function Advance(g: Graph, s: State, gone: set<Key>, breaks: bool): State {
    State(Without(s.remaining, g, gone), s.depth + (map k | k in gone :: s.level), s.level + 1,
          if breaks then s.broken + gone else s.broken)
  }

  /** One iteration of the loop: the packages it takes out. */
  ghost predicate Takes(requested: set<Key>, s: State, gone: set<Key>) {
    if Leaves(s.remaining) != {} then gone == Leaves(s.remaining)
    else exists c :: IsCandidate(s.remaining, requested, c) && gone == {c}
  }

  ghost predicate Next(g: Graph, requested: set<Key>, s: State, t: State) {
    exists gone :: Takes(requested, s, gone) && t == Advance(g, s, gone, Leaves(s.remaining) == {})
  }

  ghost predicate IsRun(g: Graph, requested: set<Key>, rdepends: Edges, run: seq<State>) {
    && |run| > 0 && run[0] == Initial(rdepends)
    && forall i | 0 <= i < |run| - 1 :: Next(g, requested, run[i], run[i + 1])
  }

  function Last(run: seq<State>): State
    requires |run| > 0
  {
    run[|run| - 1]
  }

  // ---------------------------------------------------------------- on every input

  /** Each package is either waiting or has one depth; every level below the current one is
      taken; so there are at most as many levels as packages with a depth. */
  ghost predicate Layered(rdepends: Edges, s: State) {
    && s.depth.Keys !! s.remaining.Keys && s.depth.Keys + s.remaining.Keys == rdepends.Keys
    && s.broken <= s.depth.Keys
    && (forall k | k in s.depth :: s.depth[k] < s.level)
    && (forall l: nat | l < s.level :: LevelTaken(s, l))
    && s.level <= |s.depth|
  }

  ghost predicate LevelTaken(s: State, l: nat) {
    exists k :: k in s.depth && s.depth[k] == l
  }

  lemma TakesSome(requested: set<Key>, s: State, gone: set<Key>)
    requires Takes(requested, s, gone)
    ensures gone != {} && gone <= s.remaining.Keys
  {
  }

  /** What an iteration does, told about packages. */
  ghost predicate Advanced(s: State, t: State, gone: set<Key>) {
    && t.level == s.level + 1 && t.remaining.Keys == s.remaining.Keys - gone && t.depth.Keys == s.depth.Keys + gone
    && (forall j | j in s.depth :: j in t.depth && t.depth[j] == s.depth[j])
    && (forall j | j in gone :: j in t.depth && t.depth[j] == s.level)
  }

  lemma AdvanceAdvances(g: Graph, s: State, gone: set<Key>, breaks: bool)
    requires s.depth.Keys !! s.remaining.Keys && gone <= s.remaining.Keys
    ensures Advanced(s, Advance(g, s, gone, breaks), gone)
  {
  }

  lemma LevelsNext(s: State, t: State, gone: set<Key>)
    requires Advanced(s, t, gone) && gone != {} && forall l: nat | l < s.level :: LevelTaken(s, l)
    ensures forall l: nat | l < t.level :: LevelTaken(t, l)
  {
    var k0 :| k0 in gone;
    forall l: nat | l < t.level
      ensures LevelTaken(t, l)
    {
      if l == s.level {
        assert k0 in t.depth && t.depth[k0] == l;
      } else {
        assert LevelTaken(s, l);
        var k :| k in s.depth && s.depth[k] == l;
        assert k in t.depth && t.depth[k] == l;
      }
    }
  }

  lemma DepthGrows(s: State, t: State, gone: set<Key>)
    requires Advanced(s, t, gone) && gone != {} && gone <= s.remaining.Keys && s.depth.Keys !! s.remaining.Keys
    ensures |s.depth| < |t.depth| && t.remaining.Keys < s.remaining.Keys
    ensures t.depth.Keys !! t.remaining.Keys && t.depth.Keys + t.remaining.Keys == s.depth.Keys + s.remaining.Keys
  {
    MoveSome(s.depth.Keys, s.remaining.Keys, gone);
    assert |s.depth| == |s.depth.Keys| && |t.depth| == |t.depth.Keys|;
  }

  lemma LayeredNext(rdepends: Edges, s: State, t: State, gone: set<Key>)
    requires Layered(rdepends, s) && Advanced(s, t, gone) && gone != {} && gone <= s.remaining.Keys
    requires t.broken <= s.broken + gone
    ensures Layered(rdepends, t) && t.remaining.Keys < s.remaining.Keys
  {
    hide *;
    LayeredGives(rdepends, s);
    AdvancedGives(s, t, gone);
    DepthGrows(s, t, gone);
    LevelsNext(s, t, gone);
    DepthsBelow(s, t, gone);
    LayeredFrom(rdepends, t);
  }

  lemma LayeredGives(rdepends: Edges, s: State)
    requires Layered(rdepends, s)
    ensures s.depth.Keys !! s.remaining.Keys && s.depth.Keys + s.remaining.Keys == rdepends.Keys
    ensures s.broken <= s.depth.Keys && s.level <= |s.depth|
    ensures forall k | k in s.depth :: s.depth[k] < s.level
    ensures forall l: nat | l < s.level :: LevelTaken(s, l)
  {
  }

  lemma AdvancedGives(s: State, t: State, gone: set<Key>)
    requires Advanced(s, t, gone)
    ensures t.level == s.level + 1 && t.depth.Keys == s.depth.Keys + gone
  {
  }

  lemma LayeredFrom(rdepends: Edges, s: State)
    requires s.depth.Keys !! s.remaining.Keys && s.depth.Keys + s.remaining.Keys == rdepends.Keys
    requires s.broken <= s.depth.Keys && s.level <= |s.depth|
    requires forall k | k in s.depth :: s.depth[k] < s.level
    requires forall l: nat | l < s.level :: LevelTaken(s, l)
    ensures Layered(rdepends, s)
  {
    hide LevelTaken;
  }

  lemma DepthsBelow(s: State, t: State, gone: set<Key>)
    requires Advanced(s, t, gone) && forall k | k in s.depth :: s.depth[k] < s.level
    ensures forall k | k in t.depth :: t.depth[k] < t.level
  {
    assert forall k | k in t.depth :: k in s.depth || k in gone;
  }

  lemma MoveSome<T>(done: set<T>, waiting: set<T>, gone: set<T>)
    requires done !! waiting && gone != {} && gone <= waiting
    ensures |done + gone| > |done| && waiting - gone < waiting
    ensures (done + gone) !! (waiting - gone) && (done + gone) + (waiting - gone) == done + waiting
  {
    assert |done + gone| == |done| + |gone|;
    var x :| x in gone;
    assert x in waiting && x !in waiting - gone;
  }

  /** The loop's "last resort" is unreachable: where nothing can be peeled something can be broken. */
  lemma {:induction false} CandidateExists(remaining: Edges, requested: set<Key>)
    requires remaining != map[] && Leaves(remaining) == {}
    ensures exists c :: IsCandidate(remaining, requested, c)
  {
    var k :| k in remaining;
    assert forall j | j in remaining :: j !in Leaves(remaining);
    var c := LeastOf(remaining, requested, remaining.Keys - {k}, k);
    assert IsCandidate(remaining, requested, c);
  }

  lemma {:induction false} LeastOf(remaining: Edges, requested: set<Key>, ks: set<Key>, best: Key) returns (c: Key)
    requires ks <= remaining.Keys && best in remaining && forall j | j in remaining :: remaining[j] != {}
    ensures c in remaining && (c == best || c in ks)
    ensures forall k | k in ks + {best} :: Weight(remaining, requested, c) <= Weight(remaining, requested, k)
    decreases ks
  {
    if ks == {} {
      c := best;
    } else {
      var k :| k in ks;
      var better := if Weight(remaining, requested, k) < Weight(remaining, requested, best) then k else best;
      c := LeastOf(remaining, requested, ks - {k}, better);
    }
  }

  // ---------------------------------------------------------------- when the two directions agree

  /** The reverse map is the inverse of the graph, restricted to the packages it knows. */
  ghost predicate Inverse(g: Graph, rdepends: Edges) {
    forall k, p | k in rdepends :: p in rdepends[k] <==> p in rdepends && k in g.Outgoing(p)
  }

  ghost predicate Peeled(s: State, k: Key) {
    k in s.depth && k !in s.broken
  }

  /** A peeled package lies exactly one level below its deepest dependent. */
  ghost predicate RightBelow(rdepends: Edges, s: State, k: Key)
    requires k in rdepends && k in s.depth
  {
    && (forall p | p in rdepends[k] :: p in s.depth && s.depth[p] < s.depth[k])
    && (s.depth[k] > 0 ==> exists p :: p in rdepends[k] && p in s.depth && s.depth[p] == s.depth[k] - 1)
  }

  /** A waiting package has a dependent that is waiting too or left at the previous level. */
  ghost predicate Waits(rdepends: Edges, s: State, k: Key)
    requires k in rdepends
  {
    exists p :: p in rdepends[k] && (p in s.remaining || (p in s.depth && s.depth[p] == s.level - 1))
  }

  /** `remaining` is the reverse map restricted to the packages that are left. */
  ghost predicate Restricted(rdepends: Edges, remaining: Edges) {
    forall k | k in remaining :: k in rdepends && remaining[k] == rdepends[k] * remaining.Keys
  }

  ghost predicate Closed(rdepends: Edges) {
    forall k | k in rdepends :: rdepends[k] <= rdepends.Keys
  }

  ghost predicate Faithful(rdepends: Edges, s: State) {
    && Layered(rdepends, s)
    && Restricted(rdepends, s.remaining)
    && (forall k | Peeled(s, k) :: RightBelow(rdepends, s, k))
    && (s.level > 0 ==> forall k | k in s.remaining :: Waits(rdepends, s, k))
    && (forall k | k in s.broken :: AfterCycle(rdepends, k))
  }

  // Chains of dependents: each element depends on the next.
  ghost predicate Chain(rdepends: Edges, c: seq<Key>) {
    && |c| > 0 && (forall i | 0 <= i < |c| :: c[i] in rdepends)
    && forall i | 0 <= i < |c| - 1 :: c[i] in rdepends[c[i + 1]]
  }

  ghost predicate ChainTo(rdepends: Edges, c: seq<Key>, k: Key) {
    Chain(rdepends, c) && c[|c| - 1] == k
  }

  ghost predicate Repeats(c: seq<Key>) {
    exists i, j :: 0 <= i < j < |c| && c[i] == c[j]
  }

  /** `k` is reached from a dependency cycle along dependent-to-dependency edges. */
  ghost predicate AfterCycle(rdepends: Edges, k: Key) {
    exists c :: ChainTo(rdepends, c, k) && Repeats(c)
  }

  lemma {:induction false} RepeatsWhenLong(c: seq<Key>, universe: set<Key>)
    requires (forall i | 0 <= i < |c| :: c[i] in universe) && |c| > |universe|
    ensures Repeats(c)
    decreases |c|
  {
    var n := |c| - 1;
    if i :| 0 <= i < n && c[i] == c[n] {
    } else {
      var d := c[..n];
      RepeatsWhenLong(d, universe - {c[n]});
      var i, j :| 0 <= i < j < |d| && d[i] == d[j];
      assert c[i] == c[j];
    }
  }

  /** While nobody is a leaf, chains ending at a waiting package can be extended for ever. */
  lemma {:induction false} LongChain(remaining: Edges, k: Key, n: nat) returns (c: seq<Key>)
    requires k in remaining && Leaves(remaining) == {} && n > 0
    requires forall j | j in remaining :: remaining[j] <= remaining.Keys
    ensures ChainTo(remaining, c, k) && |c| == n
    decreases n
  {
    if n == 1 {
      c := [k];
    } else {
      assert k !in Leaves(remaining);
      var p :| p in remaining[k];
      var d := LongChain(remaining, p, n - 1);
      c := d + [k];
    }
  }

  /** A break fires only when every waiting package is on or after a cycle of waiting packages. */
  lemma BreakMeansCycle(rdepends: Edges, remaining: Edges, k: Key)
    requires Restricted(rdepends, remaining) && Leaves(remaining) == {} && k in remaining
    ensures AfterCycle(remaining, k) && AfterCycle(rdepends, k)
  {
    var c := LongChain(remaining, k, |remaining.Keys| + 1);
    RepeatsWhenLong(c, remaining.Keys);
    ChainWidens(rdepends, remaining, c);
    assert ChainTo(rdepends, c, k);
  }

  lemma ChainWidens(rdepends: Edges, remaining: Edges, c: seq<Key>)
    requires Restricted(rdepends, remaining) && Chain(remaining, c)
    ensures Chain(rdepends, c)
  {
    forall i | 0 <= i < |c| - 1
      ensures c[i] in rdepends[c[i + 1]]
    {
      assert c[i] in remaining[c[i + 1]];
    }
  }

  lemma AdvanceRestricted(g: Graph, rdepends: Edges, remaining: Edges, gone: set<Key>)
    requires Inverse(g, rdepends) && Restricted(rdepends, remaining) && gone <= remaining.Keys
    ensures Restricted(rdepends, Without(remaining, g, gone))
  {
    var after := Without(remaining, g, gone);
    assert after.Keys == remaining.Keys - gone;
    forall k | k in after
      ensures after[k] == rdepends[k] * after.Keys
    {
      assert forall p | p in rdepends[k] :: k in g.Outgoing(p);
    }
  }

  /** A package that already has its depth keeps its relation to its dependents. */
  lemma StillRightBelow(rdepends: Edges, s: State, t: State, k: Key)
    requires k in rdepends && k in s.depth && RightBelow(rdepends, s, k)
    requires forall j | j in s.depth :: j in t.depth && t.depth[j] == s.depth[j]
    ensures RightBelow(rdepends, t, k)
  {
    if t.depth[k] > 0 {
      var p :| p in rdepends[k] && p in s.depth && s.depth[p] == s.depth[k] - 1;
      assert p in t.depth;
    }
  }

  /** A leaf has only dependents that left earlier, one of them in the previous iteration. */
  lemma LeafRightBelow(rdepends: Edges, s: State, t: State, k: Key)
    requires Faithful(rdepends, s) && k in Leaves(s.remaining)
    requires forall p | p in rdepends[k] :: p in rdepends
    requires forall j | j in s.depth :: j in t.depth && t.depth[j] == s.depth[j]
    requires k in t.depth && t.depth[k] == s.level
    ensures k in rdepends && RightBelow(rdepends, t, k)
  {
    forall p | p in rdepends[k]
      ensures p in s.depth
    {
      assert p !in s.remaining[k];
    }
    if s.level > 0 {
      assert Waits(rdepends, s, k);
      var p :| p in rdepends[k] && (p in s.remaining || (p in s.depth && s.depth[p] == s.level - 1));
      assert p in t.depth && t.depth[p] == t.depth[k] - 1;
    }
  }

  /** Who was no leaf goes on waiting. */
  lemma NextWaits(rdepends: Edges, s: State, t: State, gone: set<Key>, k: Key)
    requires k in s.remaining && k in rdepends && s.remaining[k] == rdepends[k] * s.remaining.Keys
    requires s.remaining[k] != {}
    requires t.level == s.level + 1 && t.remaining.Keys == s.remaining.Keys - gone
    requires forall j | j in gone :: j in t.depth && t.depth[j] == s.level
    ensures Waits(rdepends, t, k)
  {
    var p :| p in s.remaining[k];
    assert p in rdepends[k] && (p in t.remaining || p in gone);
  }

  lemma NextRightBelow(rdepends: Edges, s: State, t: State, gone: set<Key>, k: Key)
    requires Faithful(rdepends, s) && Closed(rdepends) && Advanced(s, t, gone)
    requires gone == Leaves(s.remaining) || gone <= t.broken
    requires s.broken <= t.broken && Peeled(t, k)
    ensures k in rdepends && k in t.depth && RightBelow(rdepends, t, k)
  {
    if k in s.depth {
      assert Peeled(s, k);
      StillRightBelow(rdepends, s, t, k);
    } else {
      LeafRightBelow(rdepends, s, t, k);
    }
  }

  lemma InverseClosed(g: Graph, rdepends: Edges)
    requires Inverse(g, rdepends)
    ensures Closed(rdepends)
  {
  }

  lemma NextBroken(rdepends: Edges, s: State, t: State, gone: set<Key>)
    requires Faithful(rdepends, s) && gone <= s.remaining.Keys
    requires t.broken == s.broken || (t.broken == s.broken + gone && Leaves(s.remaining) == {})
    ensures forall k | k in t.broken :: AfterCycle(rdepends, k)
  {
    forall k | k in t.broken
      ensures AfterCycle(rdepends, k)
    {
      if k !in s.broken {
        BreakMeansCycle(rdepends, s.remaining, k);
      }
    }
  }

  lemma NextFaithful(g: Graph, requested: set<Key>, rdepends: Edges, s: State, t: State)
    requires Inverse(g, rdepends) && Faithful(rdepends, s) && Next(g, requested, s, t)
    ensures Faithful(rdepends, t) && t.remaining.Keys < s.remaining.Keys
  {
    hide *;
    var gone := Taken(g, requested, s, t);
    AdvanceFaithful(g, rdepends, s, gone, Leaves(s.remaining) == {});
  }

  lemma Taken(g: Graph, requested: set<Key>, s: State, t: State) returns (gone: set<Key>)
    requires Next(g, requested, s, t)
    ensures t == Advance(g, s, gone, Leaves(s.remaining) == {})
    ensures gone != {} && gone <= s.remaining.Keys && (Leaves(s.remaining) != {} ==> gone == Leaves(s.remaining))
  {
    gone :| Takes(requested, s, gone) && t == Advance(g, s, gone, Leaves(s.remaining) == {});
    TakesSome(requested, s, gone);
  }

  lemma AdvanceFaithful(g: Graph, rdepends: Edges, s: State, gone: set<Key>, breaks: bool)
    requires Inverse(g, rdepends) && Faithful(rdepends, s) && gone != {} && gone <= s.remaining.Keys
    requires if Leaves(s.remaining) == {} then breaks else !breaks && gone == Leaves(s.remaining)
    ensures Faithful(rdepends, Advance(g, s, gone, breaks))
    ensures Advance(g, s, gone, breaks).remaining.Keys < s.remaining.Keys
  {
    hide *;
    var t := Advance(g, s, gone, breaks);
    FaithfulGives(g, rdepends, s);
    AdvanceAdvances(g, s, gone, breaks);
    WaitingAreNoLeaves(g, s, gone, breaks);
    LayeredNext(rdepends, s, t, gone);
    AdvanceRestricted(g, rdepends, s.remaining, gone);
    NextBroken(rdepends, s, t, gone);
    forall k | Peeled(t, k)
      ensures k in rdepends && k in t.depth && RightBelow(rdepends, t, k)
    {
      NextRightBelow(rdepends, s, t, gone, k);
    }
    forall k | k in t.remaining
      ensures k in rdepends && Waits(rdepends, t, k)
    {
      RestrictedAt(rdepends, s.remaining, k);
      NextWaits(rdepends, s, t, gone, k);
    }
    FaithfulParts(rdepends, t);
  }

  lemma FaithfulGives(g: Graph, rdepends: Edges, s: State)
    requires Inverse(g, rdepends) && Faithful(rdepends, s)
    ensures Layered(rdepends, s) && Restricted(rdepends, s.remaining) && Closed(rdepends)
    ensures s.depth.Keys !! s.remaining.Keys
  {
    hide Restricted, RightBelow, Waits, AfterCycle, LevelTaken, Peeled;
    InverseClosed(g, rdepends);
  }

  lemma RestrictedAt(rdepends: Edges, remaining: Edges, k: Key)
    requires Restricted(rdepends, remaining) && k in remaining
    ensures k in rdepends && remaining[k] == rdepends[k] * remaining.Keys
  {
  }

  /** The packages that go on waiting were no leaves. */
  lemma WaitingAreNoLeaves(g: Graph, s: State, gone: set<Key>, breaks: bool)
    requires if Leaves(s.remaining) == {} then breaks else !breaks && gone == Leaves(s.remaining)
    ensures var t := Advance(g, s, gone, breaks);
            && t.remaining == Without(s.remaining, g, gone)
            && t.broken == (if breaks then s.broken + gone else s.broken)
            && (forall k | k in t.remaining :: k in s.remaining && k !in gone && s.remaining[k] != {})
  {
    forall k | k in s.remaining && k !in gone
      ensures s.remaining[k] != {}
    {
      assert k !in Leaves(s.remaining);
    }
  }

  lemma FaithfulParts(rdepends: Edges, s: State)
    requires Layered(rdepends, s) && Restricted(rdepends, s.remaining)
    requires forall k | Peeled(s, k) :: k in rdepends && k in s.depth && RightBelow(rdepends, s, k)
    requires forall k | k in s.remaining :: k in rdepends && Waits(rdepends, s, k)
    requires forall k | k in s.broken :: AfterCycle(rdepends, k)
    ensures Faithful(rdepends, s)
  {
  }

  lemma InitialFaithful(g: Graph, rdepends: Edges)
    requires Inverse(g, rdepends)
    ensures Faithful(rdepends, Initial(rdepends))
  {
    assert forall k | k in rdepends :: rdepends[k] == rdepends[k] * rdepends.Keys;
  }

  lemma {:induction false} RunFaithful(g: Graph, requested: set<Key>, rdepends: Edges, run: seq<State>, i: nat)
    requires Inverse(g, rdepends) && IsRun(g, requested, rdepends, run) && i < |run|
    ensures Faithful(rdepends, run[i])
  {
    hide Inverse, Faithful, Next, Initial;
    if i == 0 {
      InitialFaithful(g, rdepends);
    } else {
      RunFaithful(g, requested, rdepends, run, i - 1);
      assert Next(g, requested, run[i - 1], run[i - 1 + 1]);
      NextFaithful(g, requested, rdepends, run[i - 1], run[i]);
    }
  }

  // ---------------------------------------------------------------- theorems about finished runs

  ghost predicate Finished(g: Graph, requested: set<Key>, rdepends: Edges, run: seq<State>) {
    IsRun(g, requested, rdepends, run) && Last(run).remaining == map[]
  }

  lemma {:induction false} RunLayered(g: Graph, requested: set<Key>, rdepends: Edges, run: seq<State>, i: nat)
    requires IsRun(g, requested, rdepends, run) && i < |run|
    ensures Layered(rdepends, run[i])
  {
    hide Next, Layered;
    if i == 0 {
      InitialLayered(rdepends);
    } else {
      RunLayered(g, requested, rdepends, run, i - 1);
      assert Next(g, requested, run[i - 1], run[i - 1 + 1]);
      NextLayered(g, requested, rdepends, run[i - 1], run[i]);
    }
  }

  lemma InitialLayered(rdepends: Edges)
    ensures Layered(rdepends, Initial(rdepends))
  {
  }

  lemma NextLayered(g: Graph, requested: set<Key>, rdepends: Edges, s: State, t: State)
    requires Layered(rdepends, s) && Next(g, requested, s, t)
    ensures Layered(rdepends, t) && t.remaining.Keys < s.remaining.Keys
  {
    hide Next, Leaves;
    var gone := Taken(g, requested, s, t);
    AdvanceAdvances(g, s, gone, Leaves(s.remaining) == {});
    LayeredNext(rdepends, s, t, gone);
  }

  /** On every input, however inconsistent its reverse map: each package gets one depth, the
      depths are 0 up to some maximum without a gap, and lie below the number of packages. */
  lemma DepthsAreLevels(g: Graph, requested: set<Key>, rdepends: Edges, run: seq<State>)
    requires Finished(g, requested, rdepends, run)
    ensures Last(run).depth.Keys == rdepends.Keys
    ensures forall k | k in rdepends :: Last(run).depth[k] < |rdepends|
    ensures forall k, l: nat | k in rdepends && l < Last(run).depth[k] :: LevelTaken(Last(run), l)
  {
    hide LevelTaken, Next, Initial, Layered;
    RunLayered(g, requested, rdepends, run, |run| - 1);
    LayeredEnd(rdepends, Last(run));
  }

  lemma LayeredEnd(rdepends: Edges, s: State)
    requires Layered(rdepends, s) && s.remaining == map[]
    ensures s.depth.Keys == rdepends.Keys
    ensures forall k | k in rdepends :: s.depth[k] < |rdepends|
    ensures forall k, l: nat | k in rdepends && l < s.depth[k] :: LevelTaken(s, l)
  {
    hide LevelTaken;
    assert |s.depth.Keys| == |rdepends.Keys|;
  }

  /** A dependency is strictly deeper than its dependents, unless it was itself broken out of a
      cycle. */
  lemma DependencyIsDeeper(g: Graph, requested: set<Key>, rdepends: Edges, run: seq<State>, p: Key, k: Key)
    requires Inverse(g, rdepends) && Finished(g, requested, rdepends, run)
    requires p in rdepends && k in rdepends && k in g.Outgoing(p)
    ensures var s := Last(run);
            && p in s.depth && k in s.depth
            && (s.depth[p] >= s.depth[k] ==> k in s.broken && AfterCycle(rdepends, k))
  {
    RunFaithful(g, requested, rdepends, run, |run| - 1);
    var s := Last(run);
    if k !in s.broken {
      assert Peeled(s, k);
    }
  }

  lemma AfterCycleForward(rdepends: Edges, p: Key, k: Key)
    requires k in rdepends && p in rdepends[k] && AfterCycle(rdepends, p)
    ensures AfterCycle(rdepends, k)
  {
    var c :| ChainTo(rdepends, c, p) && Repeats(c);
    var d := c + [k];
    assert ChainTo(rdepends, d, k);
    var i, j :| 0 <= i < j < |c| && c[i] == c[j];
    assert d[i] == d[j];
  }

  /** A chain of `n` dependents above `k`, and none longer. */
  ghost predicate LongestChain(rdepends: Edges, k: Key, n: nat) {
    && (exists c :: ChainTo(rdepends, c, k) && |c| == n + 1)
    && (forall c | ChainTo(rdepends, c, k) :: |c| <= n + 1)
  }

  lemma ChainAppend(rdepends: Edges, c: seq<Key>, p: Key, k: Key)
    requires ChainTo(rdepends, c, p) && k in rdepends && p in rdepends[k]
    ensures ChainTo(rdepends, c + [k], k)
  {
  }

  /** The dependent one level above a package that is not reached from a cycle. */
  lemma DependentAbove(rdepends: Edges, s: State, k: Key) returns (p: Key)
    requires Faithful(rdepends, s) && k in s.depth && k in rdepends && !AfterCycle(rdepends, k) && s.depth[k] > 0
    requires Closed(rdepends)
    ensures p in rdepends && p in rdepends[k] && !AfterCycle(rdepends, p)
    ensures p in s.depth && s.depth[p] == s.depth[k] - 1
  {
    assert Peeled(s, k);
    p :| p in rdepends[k] && p in s.depth && s.depth[p] == s.depth[k] - 1;
    if AfterCycle(rdepends, p) {
      AfterCycleForward(rdepends, p, k);
    }
  }

  lemma {:induction false} ChainAbove(rdepends: Edges, s: State, k: Key) returns (c: seq<Key>)
    requires Faithful(rdepends, s) && k in s.depth && k in rdepends && !AfterCycle(rdepends, k)
    requires Closed(rdepends)
    ensures ChainTo(rdepends, c, k) && |c| == s.depth[k] + 1
    decreases s.depth[k]
  {
    hide AfterCycle, Faithful;
    if s.depth[k] == 0 {
      c := [k];
    } else {
      var p := DependentAbove(rdepends, s, k);
      c := ChainAbove(rdepends, s, p);
      ChainAppend(rdepends, c, p, k);
      c := c + [k];
    }
  }

  lemma {:induction false} NoLongerChain(rdepends: Edges, s: State, k: Key, c: seq<Key>)
    requires Faithful(rdepends, s) && s.remaining == map[] && !AfterCycle(rdepends, k)
    requires ChainTo(rdepends, c, k)
    ensures k in s.depth && |c| <= s.depth[k] + 1
    decreases |c|
  {
    assert k in rdepends;
    assert Peeled(s, k);
    if |c| > 1 {
      var d := c[..|c| - 1];
      var p := d[|d| - 1];
      assert p in rdepends[c[|d| - 1 + 1]];
      assert ChainTo(rdepends, d, p);
      if AfterCycle(rdepends, p) {
        AfterCycleForward(rdepends, p, k);
      }
      NoLongerChain(rdepends, s, p, d);
    }
  }

  /** Whatever is broken: a package not reached from a cycle gets as depth exactly the length of
      the longest chain of dependents above it. */
  lemma DepthIsLongestChain(g: Graph, requested: set<Key>, rdepends: Edges, run: seq<State>, k: Key)
    requires Inverse(g, rdepends) && Finished(g, requested, rdepends, run)
    requires k in rdepends && !AfterCycle(rdepends, k)
    ensures k in Last(run).depth && LongestChain(rdepends, k, Last(run).depth[k])
  {
    var s := Last(run);
    RunFaithful(g, requested, rdepends, run, |run| - 1);
    InverseClosed(g, rdepends);
    var c := ChainAbove(rdepends, s, k);
    forall d | ChainTo(rdepends, d, k)
      ensures |d| <= s.depth[k] + 1
    {
      NoLongerChain(rdepends, s, k, d);
    }
  }

  /** Without cycles nothing is ever broken, and the depth is forced for every package: any two
      runs agree. */
  lemma AcyclicIsDeterministic(g: Graph, requested: set<Key>, rdepends: Edges, run: seq<State>, other: seq<State>)
    requires Inverse(g, rdepends) && forall k | k in rdepends :: !AfterCycle(rdepends, k)
    requires Finished(g, requested, rdepends, run) && Finished(g, requested, rdepends, other)
    ensures Last(run).broken == {} && Last(run).depth == Last(other).depth
  {
    NothingBroken(g, requested, rdepends, run);
    NothingBroken(g, requested, rdepends, other);
    hide AfterCycle, LongestChain, Inverse, IsRun;
    forall k | k in rdepends
      ensures k in Last(run).depth && k in Last(other).depth && Last(run).depth[k] == Last(other).depth[k]
    {
      DepthIsLongestChain(g, requested, rdepends, run, k);
      DepthIsLongestChain(g, requested, rdepends, other, k);
      LongestChainUnique(rdepends, k, Last(run).depth[k], Last(other).depth[k]);
    }
  }

  /** Without cycles a finished run has broken nothing and given every package its depth. */
  lemma NothingBroken(g: Graph, requested: set<Key>, rdepends: Edges, run: seq<State>)
    requires Inverse(g, rdepends) && forall k | k in rdepends :: !AfterCycle(rdepends, k)
    requires Finished(g, requested, rdepends, run)
    ensures Last(run).broken == {} && Last(run).depth.Keys == rdepends.Keys
  {
    hide AfterCycle, Inverse, Next, Initial, RightBelow, Waits, Restricted, LevelTaken;
    RunFaithful(g, requested, rdepends, run, |run| - 1);
  }

  lemma LongestChainUnique(rdepends: Edges, k: Key, m: nat, n: nat)
    requires LongestChain(rdepends, k, m) && LongestChain(rdepends, k, n)
    ensures m == n
  {
    var c :| ChainTo(rdepends, c, k) && |c| == m + 1;
    var d :| ChainTo(rdepends, d, k) && |d| == n + 1;
  }
}
