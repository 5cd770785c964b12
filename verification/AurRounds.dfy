/**
 The rounds of `build_and_install_aur_packages` (src/aur.rs): after every built base the plan is
 re-keyed, and the skipped reinstalls once at the end.
 */
module AurRounds {
  import opened Wrappers
  import opened AurPlan
  import opened AurRenaming

  // ---------------------------------------------------------------- facts carried from round to round

  /** All rounds together give fresh keys, and rounds do not meddle with each other. */
  ghost predicate Orderly(rounds: seq<Mapping>, known: set<Key>) {
    CompatibleRounds(rounds) && FreshKeys(Accumulated(rounds), known)
  }

  lemma {:induction false} AccumulatedHas(rounds: seq<Mapping>, i: nat, k: Key)
    requires CompatibleRounds(rounds) && i < |rounds| && k in rounds[i]
    ensures k in Accumulated(rounds) && Accumulated(rounds)[k] == rounds[i][k]
    decreases |rounds|
  {
    var n := |rounds| - 1;
    if i < n {
      AccumulatedHas(rounds[..n], i, k);
      assert Compatible(rounds[i], rounds[n]);
    }
  }

  lemma {:induction false} AccumulatedFrom(rounds: seq<Mapping>, k: Key)
    requires k in Accumulated(rounds)
    ensures exists i :: 0 <= i < |rounds| && k in rounds[i]
    decreases |rounds|
  {
    var n := |rounds| - 1;
    if k in rounds[n] {
    } else {
      AccumulatedFrom(rounds[..n], k);
      var i :| 0 <= i < n && k in rounds[..n][i];
      assert k in rounds[i];
    }
  }

  lemma AccumulatedDisjoint(rounds: seq<Mapping>, n: nat, k: Key)
    requires CompatibleRounds(rounds) && n < |rounds| && k in rounds[n]
    ensures k !in Accumulated(rounds[..n])
  {
    forall i | 0 <= i < n
      ensures k !in rounds[..n][i]
    {
      assert Compatible(rounds[i], rounds[n]);
    }
    AccumulatedLacks(rounds[..n], k);
  }

  lemma {:induction false} AccumulatedLacks(rounds: seq<Mapping>, k: Key)
    requires forall i | 0 <= i < |rounds| :: k !in rounds[i]
    ensures k !in Accumulated(rounds)
    decreases |rounds|
  {
    if rounds != [] {
      AccumulatedLacks(rounds[..|rounds| - 1], k);
    }
  }

  /** A prefix of the rounds has the same images as all of them. */
  lemma AccumulatedPrefix(rounds: seq<Mapping>, n: nat, k: Key)
    requires CompatibleRounds(rounds) && n <= |rounds| && k in Accumulated(rounds[..n])
    ensures k in Accumulated(rounds) && Accumulated(rounds)[k] == Accumulated(rounds[..n])[k]
  {
    AccumulatedFrom(rounds[..n], k);
    var i :| 0 <= i < n && k in rounds[..n][i];
    AccumulatedHas(rounds[..n], i, k);
    AccumulatedHas(rounds, i, k);
  }

  /** Every key of `now` is a key of `pkgs`, renamed. */
  ghost predicate KeysFrom(m: Mapping, pkgs: Packages, now: Packages) {
    forall a | a in now :: RenamedFrom(m, pkgs, a)
  }

  /** The keys a round brings in are new to the plan as the earlier rounds left it. */
  lemma RoundIsFresh(rounds: seq<Mapping>, n: nat, pkgs: Packages, now: Packages)
    requires Orderly(rounds, pkgs.Keys) && n < |rounds|
    requires KeysFrom(Accumulated(rounds[..n]), pkgs, now)
    ensures FreshKeys(rounds[n], now.Keys)
  {
    var before, all := Accumulated(rounds[..n]), Accumulated(rounds);
    forall k | k in rounds[n]
      ensures rounds[n][k] !in rounds[n] && rounds[n][k] !in now
      ensures k in all && all[k] == rounds[n][k]
    {
      ImageIsFresh(rounds, n, pkgs, k);
      assert !RenamedFrom(before, pkgs, rounds[n][k]);
    }
  }

  lemma ImageIsFresh(rounds: seq<Mapping>, n: nat, pkgs: Packages, k: Key)
    requires Orderly(rounds, pkgs.Keys) && n < |rounds| && k in rounds[n]
    ensures k in Accumulated(rounds) && Accumulated(rounds)[k] == rounds[n][k]
    ensures rounds[n][k] !in rounds[n] && !RenamedFrom(Accumulated(rounds[..n]), pkgs, rounds[n][k])
  {
    var image := rounds[n][k];
    AccumulatedHas(rounds, n, k);
    if image in rounds[n] {
      AccumulatedHas(rounds, n, image);
    }
    if RenamedFrom(Accumulated(rounds[..n]), pkgs, image) {
      var j :| j in pkgs && Rename(Accumulated(rounds[..n]), j) == image;
      AccumulatedDisjoint(rounds, n, k);
      if j in Accumulated(rounds[..n]) {
        AccumulatedPrefix(rounds, n, j);
      }
    }
  }

  /** An operation for a package that is not renamed yet still lists it. */
  lemma StillListed(m: Mapping, ops: seq<Operation>, k: Key)
    requires Listed(ops, k) && k !in m
    ensures Listed(FixOperations(m, ops), k)
  {
    var i :| 0 <= i < |ops| && ops[i].newKey == Some(k);
    assert FixOperations(m, ops)[i] == FixOperation(m, ops[i]);
  }

  lemma RoundIsListed(rounds: seq<Mapping>, n: nat, pkgs: Packages, now: Packages, ops: seq<Operation>)
    requires Orderly(rounds, pkgs.Keys) && n < |rounds| && AllListed(Accumulated(rounds), ops, pkgs)
    requires KeysFrom(Accumulated(rounds[..n]), pkgs, now)
    ensures AllListed(rounds[n], FixOperations(Accumulated(rounds[..n]), ops), now)
  {
    hide Listed, FixOperations, FreshKeys;
    var before := Accumulated(rounds[..n]);
    forall k | k in rounds[n] && k in now
      ensures Listed(FixOperations(before, ops), k)
    {
      KeyWasThere(rounds, n, pkgs, k);
      StillListed(before, ops, k);
    }
  }

  /** A key that a round renames has not been touched by the rounds before. */
  lemma KeyWasThere(rounds: seq<Mapping>, n: nat, pkgs: Packages, k: Key)
    requires Orderly(rounds, pkgs.Keys) && n < |rounds| && k in rounds[n]
    requires RenamedFrom(Accumulated(rounds[..n]), pkgs, k)
    ensures k in pkgs && k in Accumulated(rounds) && k !in Accumulated(rounds[..n])
  {
    var before := Accumulated(rounds[..n]);
    AccumulatedHas(rounds, n, k);
    AccumulatedDisjoint(rounds, n, k);
    var j :| j in pkgs && Rename(before, j) == k;
    if j in before {
      AccumulatedPrefix(rounds, n, j);
    }
  }

  lemma FixOperationsTwice(first: Mapping, second: Mapping, ops: seq<Operation>)
    requires Compatible(first, second)
    ensures FixOperations(second, FixOperations(first, ops)) == FixOperations(first + second, ops)
  {
    forall i | 0 <= i < |ops|
      ensures FixOperation(second, FixOperation(first, ops[i])) == FixOperation(first + second, ops[i])
    {
      if ops[i].newKey.Some? {
        RenameTwice(first, second, ops[i].newKey.value);
      }
    }
  }

  lemma NoRename(ks: set<Key>)
    ensures RenameAll(map[], ks) == ks
  {
    assert forall k | k in ks :: Rename(map[], k) == k;
  }

  // ---------------------------------------------------------------- the rounds

  /** One package base: what it renamed, and the packages it built under their new keys. */
  datatype Round = Round(mapping: Mapping, built: Packages)

  /** The mappings that take effect; a round that built nothing is skipped. */
  function Performed(rounds: seq<Round>): seq<Mapping> {
    if rounds == [] then []
    else
      var last := rounds[|rounds| - 1];
      Performed(rounds[..|rounds| - 1]) + if last.built == map[] then [] else [last.mapping]
  }

  /** What all rounds built, each round's values fixed with its own mapping. */
  function Completed(rounds: seq<Round>, host: string): Packages {
    if rounds == [] then map[]
    else
      var last := rounds[|rounds| - 1];
      Completed(rounds[..|rounds| - 1], host) + FixValues(last.mapping, host, last.built)
  }

  /** The plan as the rounds leave it, and what every round renamed and built. */
  datatype Run = Run(pkgs: Packages, ops: seq<Operation>, rounds: seq<Round>)

  function OneRound(run: Run, host: string, items: seq<Built>): Run {
    var round := Round(MappingOf(items), BuiltOf(run.pkgs, items));
    var noted := Noted(run.pkgs, items);
    if round.built == map[] then Run(noted, run.ops, run.rounds + [round])
    else Run(FixValues(round.mapping, host, MoveEntries(round.mapping, noted, run.ops)),
             FixOperations(round.mapping, run.ops), run.rounds + [round])
  }

  function RunOf(builds: seq<seq<Built>>, host: string, pkgs: Packages, ops: seq<Operation>): Run {
    if builds == [] then Run(pkgs, ops, [])
    else OneRound(RunOf(builds[..|builds| - 1], host, pkgs, ops), host, builds[|builds| - 1])
  }

  /**
   The re-keying done by `build_and_install_aur_packages`, given the files that each base built.
   Round by round entries are updated, the plan is re-keyed and the round's packages are completed;
   the skipped reinstalls are fixed once at the end.
   */
  method RekeyInRounds(plan: Plan, builds: seq<seq<Built>>, host: string, skipped0: Packages)
    returns (completed: Packages, skipped: Packages)
    modifies plan
    ensures var run := RunOf(builds, host, old(plan.newPkgs), old(plan.operations));
            var all := Accumulated(Performed(run.rounds));
            && plan.newPkgs == run.pkgs && plan.operations == run.ops && plan.allRounds == all
            && completed == Completed(run.rounds, host)
            && skipped == if all != map[] then FixValues(all, host, skipped0) else skipped0
  {
    hide *;
    ghost var pkgs, ops := plan.newPkgs, plan.operations;
    ghost var run := RunOf(builds[..0], host, pkgs, ops);
    NothingPerformed(host);
    NoRounds(builds, host, pkgs, ops);
    plan.allRounds := map[];
    completed := map[];
    for n := 0 to |builds|
      invariant run == RunOf(builds[..n], host, pkgs, ops)
      invariant plan.newPkgs == run.pkgs && plan.operations == run.ops
      invariant plan.allRounds == Accumulated(Performed(run.rounds)) && completed == Completed(run.rounds, host)
    {
      OneMoreRound(builds, n, host, pkgs, ops);
      RoundAdds(run, host, builds[n]);
      run := OneRound(run, host, builds[n]);
      var built, mapping := plan.UnpackLinkBuilt(builds[n]);
      if built != map[] {
        var fixed := plan.PostinstallRound(mapping, host, built);
        completed := completed + fixed;
      }
    }
    assert builds[..|builds|] == builds;
    skipped := skipped0;
    if skipped != map[] && plan.allRounds != map[] {
      skipped := FixupPackageValues(plan.allRounds, host, skipped);
    } else if skipped == map[] {
      NoneSkipped(plan.allRounds, host, skipped0);
    }
  }

  lemma NoRounds(builds: seq<seq<Built>>, host: string, pkgs: Packages, ops: seq<Operation>)
    ensures RunOf(builds[..0], host, pkgs, ops) == Run(pkgs, ops, [])
  {
  }

  lemma OneMoreRound(builds: seq<seq<Built>>, n: nat, host: string, pkgs: Packages, ops: seq<Operation>)
    requires n < |builds|
    ensures RunOf(builds[..n + 1], host, pkgs, ops) == OneRound(RunOf(builds[..n], host, pkgs, ops), host, builds[n])
  {
    hide OneRound;
    assert builds[..n + 1][..n] == builds[..n];
  }

  /** What a round adds to the mapping and to the completed packages. */
  lemma RoundAdds(run: Run, host: string, items: seq<Built>)
    ensures var (m, built) := (MappingOf(items), BuiltOf(run.pkgs, items));
            var (noted, next) := (Noted(run.pkgs, items), OneRound(run, host, items));
            var (all, done) := (Accumulated(Performed(run.rounds)), Completed(run.rounds, host));
            if built == map[] then
              && next == Run(noted, run.ops, run.rounds + [Round(m, built)])
              && Accumulated(Performed(next.rounds)) == all && Completed(next.rounds, host) == done
            else
              && next == Run(FixValues(m, host, MoveEntries(m, noted, run.ops)), FixOperations(m, run.ops),
                             run.rounds + [Round(m, built)])
              && Accumulated(Performed(next.rounds)) == all + m
              && Completed(next.rounds, host) == done + FixValues(m, host, built)
  {
    hide FixValues, MoveEntries, FixOperations, Noted, MappingOf, BuiltOf, Accumulated, Performed, Completed;
    var round := Round(MappingOf(items), BuiltOf(run.pkgs, items));
    PerformedAppend(run.rounds, round, host);
    AccumulatedAppend(Performed(run.rounds), round.mapping);
  }

  lemma PerformedAppend(rounds: seq<Round>, round: Round, host: string)
    ensures Performed(rounds + [round]) ==
            if round.built == map[] then Performed(rounds) else Performed(rounds) + [round.mapping]
    ensures Completed(rounds + [round], host) ==
            if round.built == map[] then Completed(rounds, host)
            else Completed(rounds, host) + FixValues(round.mapping, host, round.built)
  {
    hide FixValues;
    assert (rounds + [round])[..|rounds|] == rounds;
    if round.built == map[] {
      NoneSkipped(round.mapping, host, round.built);
    }
  }

  lemma AccumulatedAppend(rounds: seq<Mapping>, m: Mapping)
    ensures Accumulated(rounds + [m]) == Accumulated(rounds) + m
  {
    assert (rounds + [m])[..|rounds|] == rounds;
  }

  lemma NothingPerformed(host: string)
    ensures Performed([]) == [] && Completed([], host) == map[] && Accumulated([]) == map[]
  {
  }

  lemma {:induction false} PerformedPrefix(rounds: seq<Round>, n: nat)
    requires n <= |rounds|
    ensures Performed(rounds[..n]) <= Performed(rounds)
    decreases |rounds|
  {
    if n == |rounds| {
      assert rounds[..n] == rounds;
    } else {
      var shorter := rounds[..|rounds| - 1];
      assert shorter[..n] == rounds[..n];
      PerformedPrefix(shorter, n);
    }
  }

  lemma NoneSkipped(m: Mapping, host: string, skipped: Packages)
    requires skipped == map[]
    ensures FixValues(m, host, skipped) == skipped
  {
  }
}
