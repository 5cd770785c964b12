/**
 Which package the loop breaks out of a cycle (src/depends.rs), told about the text of package keys:
 a package counts as a library when "lib" stands anywhere in its key.
 */
module DepthCandidates {
  import opened Wrappers
  import opened Substitution
  import opened DependencyDepth

  /** `str::contains("lib")` */
  lemma LibIff(k: Key)
    ensures IsLib(k) <==> exists a, b :: k == a + "lib" + b
  {
    FindIff(k, "lib");
  }

  ghost predicate HasLib(k: Key) {
    exists a, b :: k == a + "lib" + b
  }

  lemma LibsAre(ks: set<Key>, libs: set<Key>, others: set<Key>)
    requires ks == libs + others && (forall p | p in libs :: HasLib(p)) && forall p | p in others :: !HasLib(p)
    ensures Libs(ks) == libs && |ks| == |libs| + |others|
  {
    forall p | p in ks
      ensures p in libs <==> IsLib(p)
    {
      LibIff(p);
    }
    assert libs !! others;
    assert |ks| == |libs| + |others|;
  }

  /** What a package weighs: ten for every dependent with "lib" in its key and one for any other,
      twice the sum when its own key has "lib", and half of that when it was requested. */
  lemma WeightMeans(remaining: Edges, requested: set<Key>, k: Key, libs: set<Key>, others: set<Key>)
    requires k in remaining && remaining[k] == libs + others
    requires (forall p | p in libs :: HasLib(p)) && forall p | p in others :: !HasLib(p)
    ensures var own := (10 * |libs| + |others|) * if HasLib(k) then 2 else 1;
            var weight := Weight(remaining, requested, k);
            if k in requested then own == 2 * weight || own == 2 * weight + 1 else own == weight
  {
    hide IsLib, Libs;
    LibsAre(remaining[k], libs, others);
    LibIff(k);
  }

  // ---------------------------------------------------------------- two packages that depend on each other

  function TwoCycle(k: Key, l: Key): Edges {
    map[k := {l}, l := {k}]
  }

  lemma CycleWeight(requested: set<Key>, k: Key, l: Key)
    requires k != l
    ensures var own := (if HasLib(l) then 10 else 1) * if HasLib(k) then 2 else 1;
            var weight := Weight(TwoCycle(k, l), requested, k);
            if k in requested then own == 2 * weight || own == 2 * weight + 1 else own == weight
  {
    hide Weight;
    assert TwoCycle(k, l)[k] == {l};
    if HasLib(l) {
      WeightMeans(TwoCycle(k, l), requested, k, {l}, {});
    } else {
      WeightMeans(TwoCycle(k, l), requested, k, {}, {l});
    }
  }

  /** Of two packages that depend on each other, `k` has to go first: it is the only library of the
      two, or both or none are libraries and it is the only one requested. */
  ghost predicate GoesFirst(requested: set<Key>, k: Key, l: Key) {
    if HasLib(k) == HasLib(l) then k in requested && l !in requested else HasLib(k)
  }

  lemma CandidateOfTwo(requested: set<Key>, k: Key, l: Key)
    requires k != l
    ensures IsCandidate(TwoCycle(k, l), requested, k) <==> !GoesFirst(requested, l, k)
    ensures IsCandidate(TwoCycle(k, l), requested, l) <==> !GoesFirst(requested, k, l)
  {
    hide Weight, HasLib;
    var remaining := TwoCycle(k, l);
    CycleWeight(requested, k, l);
    CycleWeight(requested, l, k);
    assert TwoCycle(l, k) == remaining;
    assert remaining[k] == {l} && remaining[l] == {k};
  }

  /** The states after `c` was broken out and after the other one was peeled. */
  function Broken(c: Key, other: Key): State {
    State(map[other := {}], map[c := 0], 1, {c})
  }

  function Done(c: Key, other: Key): State {
    State(map[], map[c := 0, other := 1], 2, {c})
  }

  lemma OtherIsLeft(g: Graph, k: Key, l: Key)
    requires k != l && g.Outgoing(k) == {l}
    ensures Without(TwoCycle(k, l), g, {k}) == map[l := {}]
  {
    var left := Without(TwoCycle(k, l), g, {k});
    assert left.Keys == {l} && left[l] == {};
  }

  lemma BreakOut(g: Graph, k: Key, l: Key)
    requires k != l && g.Outgoing(k) == {l}
    ensures Advance(g, Initial(TwoCycle(k, l)), {k}, true) == Broken(k, l)
    ensures TwoCycle(k, l) == TwoCycle(l, k)
  {
    hide Without;
    OtherIsLeft(g, k, l);
  }

  lemma NoLeaf(k: Key, l: Key)
    requires k != l
    ensures Leaves(TwoCycle(k, l)) == {}
  {
    assert TwoCycle(k, l)[k] == {l} && TwoCycle(k, l)[l] == {k};
  }

  lemma FirstOfTwo(g: Graph, requested: set<Key>, k: Key, l: Key, t: State)
    requires k != l && g.Outgoing(k) == {l} && g.Outgoing(l) == {k}
    requires Next(g, requested, Initial(TwoCycle(k, l)), t)
    ensures (t == Broken(k, l) && !GoesFirst(requested, l, k)) || (t == Broken(l, k) && !GoesFirst(requested, k, l))
  {
    hide IsCandidate, GoesFirst, Advance, Leaves;
    var s := Initial(TwoCycle(k, l));
    NoLeaf(k, l);
    var gone :| Takes(requested, s, gone) && t == Advance(g, s, gone, true);
    var c :| IsCandidate(s.remaining, requested, c) && gone == {c};
    CandidateWaits(s.remaining, requested, c);
    CandidateOfTwo(requested, k, l);
    BreakOut(g, c, if c == k then l else k);
  }

  lemma BreaksFirst(g: Graph, requested: set<Key>, k: Key, l: Key)
    requires k != l && g.Outgoing(k) == {l} && g.Outgoing(l) == {k} && !GoesFirst(requested, l, k)
    ensures Next(g, requested, Initial(TwoCycle(k, l)), Broken(k, l))
  {
    hide IsCandidate, GoesFirst, Advance, Leaves;
    var s := Initial(TwoCycle(k, l));
    NoLeaf(k, l);
    CandidateOfTwo(requested, k, l);
    BreakOut(g, k, l);
    assert Takes(requested, s, {k});
  }

  lemma CandidateWaits(remaining: Edges, requested: set<Key>, c: Key)
    requires IsCandidate(remaining, requested, c)
    ensures c in remaining
  {
  }

  lemma SecondOfTwo(g: Graph, requested: set<Key>, c: Key, other: Key, t: State)
    requires c != other
    ensures Next(g, requested, Broken(c, other), t) <==> t == Done(c, other)
  {
    var s := Broken(c, other);
    assert Leaves(s.remaining) == {other};
    assert Takes(requested, s, {other});
    assert Advance(g, s, {other}, false) == Done(c, other);
  }

  lemma NothingAfter(g: Graph, requested: set<Key>, s: State, t: State)
    requires s.remaining == map[]
    ensures !Next(g, requested, s, t)
  {
    assert Leaves(s.remaining) == {};
  }

  /** Two packages that depend on each other get the depths 0 and 1. One that has to go first gets 0;
      when none has to, which one does is open (EitherMayGoFirst). */
  lemma CycleOfTwo(g: Graph, requested: set<Key>, k: Key, l: Key, run: seq<State>)
    requires k != l && g.Outgoing(k) == {l} && g.Outgoing(l) == {k}
    requires Finished(g, requested, TwoCycle(k, l), run)
    ensures Last(run).depth == map[k := 0, l := 1] || Last(run).depth == map[l := 0, k := 1]
    ensures GoesFirst(requested, k, l) ==> Last(run).depth == map[k := 0, l := 1]
    ensures GoesFirst(requested, l, k) ==> Last(run).depth == map[l := 0, k := 1]
  {
    hide Next, GoesFirst;
    assert k in TwoCycle(k, l);
    assert |run| > 1 && Next(g, requested, run[0], run[0 + 1]);
    FirstOfTwo(g, requested, k, l, run[1]);
    var c, other := if run[1] == Broken(k, l) then k else l, if run[1] == Broken(k, l) then l else k;
    assert other in run[1].remaining;
    assert |run| > 2 && Next(g, requested, run[1], run[1 + 1]);
    SecondOfTwo(g, requested, c, other, run[2]);
    if |run| > 3 {
      assert Next(g, requested, run[2], run[2 + 1]);
      NothingAfter(g, requested, run[2], run[3]);
    }
  }

  lemma EitherMayGoFirst(g: Graph, requested: set<Key>, k: Key, l: Key) returns (run: seq<State>)
    requires k != l && g.Outgoing(k) == {l} && g.Outgoing(l) == {k} && !GoesFirst(requested, l, k)
    ensures Finished(g, requested, TwoCycle(k, l), run) && Last(run).depth == map[k := 0, l := 1]
  {
    hide Next, GoesFirst;
    run := [Initial(TwoCycle(k, l)), Broken(k, l), Done(k, l)];
    BreaksFirst(g, requested, k, l);
    SecondOfTwo(g, requested, k, l, run[2]);
  }

  /** In particular the library of two goes first, whatever was requested. */
  lemma LibraryGoesFirst(g: Graph, requested: set<Key>, k: Key, a: string, b: string, run: seq<State>)
    requires var l := a + "lib" + b;
             && g.Outgoing(k) == {l} && g.Outgoing(l) == {k} && Finished(g, requested, TwoCycle(k, l), run)
    requires !exists x, y :: k == x + "lib" + y
    ensures Last(run).depth == map[a + "lib" + b := 0, k := 1]
  {
    var l := a + "lib" + b;
    assert HasLib(l) && !HasLib(k);
    CycleOfTwo(g, requested, k, l, run);
  }
}
