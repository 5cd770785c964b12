/**
 What the rounds of AurRounds promise: the plan's package graph is renamed, every built package has
 the key, the pkgline and the architecture of its build, and which entries end up to date.
 */
module AurRebuilt {
  import opened AurPlan
  import opened AurRenaming
  import opened AurRounds
  import opened Wrappers

  // ---------------------------------------------------------------- what was built

  /** The last file for every planned key. */
  function NotesOf(items: seq<Built>): map<Key, Built> {
    if items == [] then map[]
    else NotesOf(items[..|items| - 1])[items[|items| - 1].original := items[|items| - 1]]
  }

  function AllNotes(builds: seq<seq<Built>>): map<Key, Built> {
    if builds == [] then map[] else AllNotes(builds[..|builds| - 1]) + NotesOf(builds[|builds| - 1])
  }

  /** All files for a planned key agree on the key it got. */
  ghost predicate OneKeyEach(items: seq<Built>) {
    forall i, j | 0 <= i < j < |items| && items[i].original == items[j].original :: items[i].actual == items[j].actual
  }

  lemma {:induction false} NotesFrom(items: seq<Built>, k: Key)
    requires k in NotesOf(items)
    ensures exists i :: 0 <= i < |items| && items[i].original == k && NotesOf(items)[k] == items[i]
  {
    var n := |items| - 1;
    if items[n].original != k {
      NotesFrom(items[..n], k);
      var i :| 0 <= i < n && items[..n][i].original == k && NotesOf(items[..n])[k] == items[..n][i];
      assert items[i] == items[..n][i];
    }
  }

  lemma {:induction false} NotesHave(items: seq<Built>, i: nat)
    requires i < |items|
    ensures items[i].original in NotesOf(items)
  {
    var n := |items| - 1;
    if i < n {
      NotesHave(items[..n], i);
      assert items[..n][i] == items[i];
    }
  }

  /** The mapping of a round has the built packages that changed their key. */
  lemma {:induction false} MappingFromNotes(items: seq<Built>, k: Key)
    requires OneKeyEach(items)
    ensures k in MappingOf(items) <==> k in NotesOf(items) && NotesOf(items)[k].actual != k
    ensures k in MappingOf(items) ==> MappingOf(items)[k] == NotesOf(items)[k].actual
    decreases |items|
  {
    if items != [] {
      var n := |items| - 1;
      var before := items[..n];
      assert OneKeyEach(before);
      MappingFromNotes(before, k);
      if k == items[n].original && k in NotesOf(before) {
        NotesFrom(before, k);
        var i :| 0 <= i < n && before[i].original == k && NotesOf(before)[k] == before[i];
        assert items[i].original == items[n].original;
      }
    }
  }

  lemma {:induction false} NotedAt(pkgs: Packages, items: seq<Built>, k: Key)
    requires k in pkgs
    ensures k in Noted(pkgs, items)
    ensures Noted(pkgs, items)[k] == if k in NotesOf(items) then Note(pkgs[k], NotesOf(items)[k]) else pkgs[k]
    decreases |items|
  {
    if items != [] {
      NotedKeys(pkgs, items[..|items| - 1]);
      NotedAt(pkgs, items[..|items| - 1], k);
    }
  }

  lemma {:induction false} BuiltNothing(pkgs: Packages, items: seq<Built>)
    ensures BuiltOf(pkgs, items) == map[] <==> NotesOf(items).Keys !! pkgs.Keys
    ensures BuiltOf(pkgs, items) == map[] ==> Noted(pkgs, items) == pkgs
    decreases |items|
  {
    if items != [] {
      var n := |items| - 1;
      BuiltNothing(pkgs, items[..n]);
      NotedKeys(pkgs, items[..n]);
      assert NotesOf(items).Keys == NotesOf(items[..n]).Keys + {items[n].original};
      if items[n].original in pkgs {
        assert items[n].actual in BuiltOf(pkgs, items);
      }
    }
  }

  // ---------------------------------------------------------------- the plan after some rounds

  /** The entry of `k` in the end: renamed, and with what its build found out. */
  function RebuiltInfo(notes: map<Key, Built>, m: Mapping, host: string, k: Key, info: Info): Info {
    if k in notes then
      RenamedInfo(m, host, k, info.(pkgline := notes[k].pkgline)).(arch := notes[k].actual.arch)
    else RenamedInfo(m, host, k, info)
  }

  /** The entry is in its place. */
  ghost predicate RebuiltAt(notes: map<Key, Built>, m: Mapping, host: string, pkgs: Packages, after: Packages, k: Key)
    requires k in pkgs
  {
    && (k in notes ==> Rename(m, k) == notes[k].actual)
    && Rename(m, k) in after && after[Rename(m, k)] == RebuiltInfo(notes, m, host, k, pkgs[k])
  }

  /** `after` is `pkgs` renamed, nothing lost and nothing added, and the built entries up to date. */
  ghost predicate IsRebuilt(notes: map<Key, Built>, m: Mapping, host: string, pkgs: Packages, after: Packages) {
    && (forall k | k in pkgs :: RebuiltAt(notes, m, host, pkgs, after, k))
    && KeysFrom(m, pkgs, after) && |after.Keys| == |pkgs.Keys|
    && m.Keys <= notes.Keys
  }

  lemma NothingRebuilt(host: string, pkgs: Packages, ops: seq<Operation>)
    requires ArchInSync(host, pkgs)
    ensures IsRebuilt(map[], map[], host, pkgs, pkgs) && FixOperations(map[], ops) == ops
  {
    hide FixPkgline;
    forall k | k in pkgs
      ensures RebuiltAt(map[], map[], host, pkgs, pkgs, k) && RenamedFrom(map[], pkgs, k)
    {
      assert Rename(map[], k) == k;
      var info := pkgs[k];
      NoRename(info.depends);
      NoRename(info.rdepends);
      NoRename(info.bdepends);
      NoRename(info.rbdepends);
    }
  }

  // ---------------------------------------------------------------- one entry in one round

  /** What a round does to the entry that stands under `a`. */
  ghost predicate RoundAt(last: map<Key, Built>, m: Mapping, host: string, now: Packages, after: Packages, a: Key) {
    && a in now && (a in m <==> a in last && last[a].actual != a) && (a in m ==> m[a] == last[a].actual)
    && Rename(m, a) in after
    && after[Rename(m, a)] == RenamedInfo(m, host, a, if a in last then Note(now[a], last[a]) else now[a])
  }

  lemma RenamedDeps(first: Mapping, second: Mapping, info: Info)
    requires Compatible(first, second)
    ensures RenameAll(second, RenameAll(first, info.depends)) == RenameAll(first + second, info.depends)
    ensures RenameAll(second, RenameAll(first, info.rdepends)) == RenameAll(first + second, info.rdepends)
    ensures RenameAll(second, RenameAll(first, info.bdepends)) == RenameAll(first + second, info.bdepends)
    ensures RenameAll(second, RenameAll(first, info.rbdepends)) == RenameAll(first + second, info.rbdepends)
  {
    hide *;
    RenameAllTwice(first, second, info.depends);
    RenameAllTwice(first, second, info.rdepends);
    RenameAllTwice(first, second, info.bdepends);
    RenameAllTwice(first, second, info.rbdepends);
  }

  /** The package is built in this round. */
  lemma BuiltNow(notes: map<Key, Built>, last: map<Key, Built>, before: Mapping, m: Mapping, host: string,
                 pkgs: Packages, now: Packages, after: Packages, k: Key)
    requires k in pkgs && RebuiltAt(notes, before, host, pkgs, now, k) && k in last && k !in notes && k !in before
    requires RoundAt(last, m, host, now, after, k) && Compatible(before, m)
    ensures RebuiltAt(notes + last, before + m, host, pkgs, after, k)
  {
    hide FixPkgline, RenameAll, Compatible;
    RenamedDeps(before, m, pkgs[k]);
    assert Rename(before, k) == k && Rename(before + m, k) == Rename(m, k) == last[k].actual;
  }

  /** It was built in an earlier round. */
  lemma BuiltEarlier(notes: map<Key, Built>, last: map<Key, Built>, before: Mapping, m: Mapping, host: string,
                     pkgs: Packages, now: Packages, after: Packages, k: Key)
    requires k in pkgs && RebuiltAt(notes, before, host, pkgs, now, k) && k in notes && k !in last && k !in m
    requires notes[k].actual !in last && RoundAt(last, m, host, now, after, notes[k].actual) && Compatible(before, m)
    ensures RebuiltAt(notes + last, before + m, host, pkgs, after, k)
  {
    hide FixPkgline, RenameAll, Compatible;
    RenamedDeps(before, m, pkgs[k]);
    var a := notes[k].actual;
    assert Rename(m, a) == a && Rename(before + m, k) == Rename(before, k) == a;
  }

  /** It is not built up to this round. */
  lemma NotBuilt(notes: map<Key, Built>, last: map<Key, Built>, before: Mapping, m: Mapping, host: string,
                 pkgs: Packages, now: Packages, after: Packages, k: Key)
    requires k in pkgs && RebuiltAt(notes, before, host, pkgs, now, k) && k !in notes && k !in last && k !in before
    requires RoundAt(last, m, host, now, after, k) && Compatible(before, m)
    requires pkgs[k].arch == k.arch || pkgs[k].arch == host
    ensures RebuiltAt(notes + last, before + m, host, pkgs, after, k)
  {
    hide RenamedInfo, Compatible;
    assert Rename(before, k) == k && Rename(m, k) == k && Rename(before + m, k) == k;
    RenamedInfoTwice(before, m, host, k, pkgs[k]);
  }

  /** The notes of earlier rounds and of the next. */
  ghost predicate NotesApart(notes: map<Key, Built>, last: map<Key, Built>) {
    notes.Keys !! last.Keys && forall k | k in notes :: notes[k].actual !in last
  }

  lemma EntryOfRound(notes: map<Key, Built>, last: map<Key, Built>, before: Mapping, m: Mapping, host: string,
                     pkgs: Packages, now: Packages, after: Packages, k: Key)
    requires k in pkgs && RebuiltAt(notes, before, host, pkgs, now, k) && before.Keys <= notes.Keys
    requires RoundAt(last, m, host, now, after, Rename(before, k)) && Compatible(before, m)
    requires NotesApart(notes, last) && m.Keys <= last.Keys
    requires pkgs[k].arch == k.arch || pkgs[k].arch == host
    ensures RebuiltAt(notes + last, before + m, host, pkgs, after, k)
  {
    hide RebuiltInfo, RenamedInfo, Compatible;
    if k in notes {
      BuiltEarlier(notes, last, before, m, host, pkgs, now, after, k);
    } else if k in last {
      BuiltNow(notes, last, before, m, host, pkgs, now, after, k);
    } else {
      NotBuilt(notes, last, before, m, host, pkgs, now, after, k);
    }
  }

  // ---------------------------------------------------------------- one round

  lemma RoundIsAt(items: seq<Built>, m: Mapping, host: string, now: Packages, after: Packages, a: Key)
    requires OneKeyEach(items) && m == MappingOf(items) && a in now
    requires IsRenamed(m, host, Noted(now, items), after)
    ensures RoundAt(NotesOf(items), m, host, now, after, a)
  {
    hide RenamedInfo, OneKeyEach, Noted, MappingOf, NotesOf, Note;
    MappingFromNotes(items, a);
    NotedAt(now, items, a);
    assert RenamedAt(m, host, Noted(now, items), after, a);
  }

  lemma NotedSame(m: Mapping, pkgs: Packages, now: Packages, items: seq<Built>)
    ensures KeysFrom(m, pkgs, now) ==> KeysFrom(m, pkgs, Noted(now, items))
    ensures |Noted(now, items).Keys| == |now.Keys|
  {
    NotedKeys(now, items);
  }

  lemma KeysTwice(before: Mapping, m: Mapping, host: string, pkgs: Packages, now: Packages, after: Packages)
    requires Compatible(before, m) && KeysFrom(before, pkgs, now) && IsRenamed(m, host, now, after)
    ensures KeysFrom(before + m, pkgs, after) && |after.Keys| == |now.Keys|
  {
    hide Compatible, RenamedAt, RenamedFrom;
    forall a | a in after
      ensures RenamedFrom(before + m, pkgs, a)
    {
      RenamedTwiceFrom(before, m, pkgs, now, a);
    }
  }

  /** A round that renames the map as it found it, after taking its notes. */
  lemma RoundRebuilds(items: seq<Built>, notes: map<Key, Built>, before: Mapping, host: string,
                      pkgs: Packages, now: Packages, after: Packages)
    requires OneKeyEach(items) && IsRebuilt(notes, before, host, pkgs, now) && ArchInSync(host, pkgs)
    requires Compatible(before, MappingOf(items)) && NotesApart(notes, NotesOf(items))
    requires IsRenamed(MappingOf(items), host, Noted(now, items), after)
    ensures IsRebuilt(notes + NotesOf(items), before + MappingOf(items), host, pkgs, after)
  {
    var m, last := MappingOf(items), NotesOf(items);
    hide OneKeyEach, Compatible, NotesApart, Noted, MappingOf, NotesOf, KeysFrom, RenamedAt, RebuiltAt, RoundAt;
    NotedSame(before, pkgs, now, items);
    KeysTwice(before, m, host, pkgs, Noted(now, items), after);
    forall k
      ensures k in m ==> k in last
    {
      MappingFromNotes(items, k);
    }
    forall k | k in pkgs
      ensures RebuiltAt(notes + last, before + m, host, pkgs, after, k)
    {
      StandsUnder(notes, before, host, pkgs, now, k);
      RoundIsAt(items, m, host, now, after, Rename(before, k));
      EntryOfRound(notes, last, before, m, host, pkgs, now, after, k);
    }
  }

  lemma StandsUnder(notes: map<Key, Built>, before: Mapping, host: string, pkgs: Packages, now: Packages, k: Key)
    requires k in pkgs && RebuiltAt(notes, before, host, pkgs, now, k)
    ensures Rename(before, k) in now
  {
  }

  // ---------------------------------------------------------------- all rounds

  /** Every planned package is built in one round and under one key, and no key that came out of a
      build is built again. */
  ghost predicate BuiltOnce(builds: seq<seq<Built>>) {
    && (forall n | 0 <= n < |builds| :: OneKeyEach(builds[n]))
    && forall i, j | 0 <= i < j < |builds| :: RoundsApart(builds[i], builds[j])
  }

  ghost predicate RoundsApart(earlier: seq<Built>, later: seq<Built>) {
    forall p, q | 0 <= p < |earlier| && 0 <= q < |later| ::
      later[q].original != earlier[p].original && later[q].original != earlier[p].actual
  }

  lemma {:induction false} AllNotesFrom(builds: seq<seq<Built>>, k: Key) returns (n: nat)
    requires k in AllNotes(builds)
    ensures n < |builds| && k in NotesOf(builds[n]) && AllNotes(builds)[k] == NotesOf(builds[n])[k]
    decreases |builds|
  {
    hide NotesOf;
    n := |builds| - 1;
    if k !in NotesOf(builds[n]) {
      var before := builds[..n];
      n := AllNotesFrom(before, k);
      assert builds[n] == before[n];
    }
  }

  lemma BuildsApart(builds: seq<seq<Built>>, n: nat)
    requires BuiltOnce(builds) && n < |builds|
    ensures NotesApart(AllNotes(builds[..n]), NotesOf(builds[n]))
  {
    hide AllNotes, NotesOf, OneKeyEach;
    var notes, last := AllNotes(builds[..n]), NotesOf(builds[n]);
    forall k | k in notes
      ensures k !in last && notes[k].actual !in last
    {
      var i := AllNotesFrom(builds[..n], k);
      assert builds[..n][i] == builds[i];
      assert RoundsApart(builds[i], builds[n]);
      NoteIsApart(builds[i], builds[n], k);
    }
  }

  lemma NoteIsApart(earlier: seq<Built>, later: seq<Built>, k: Key)
    requires RoundsApart(earlier, later) && k in NotesOf(earlier)
    ensures k !in NotesOf(later) && NotesOf(earlier)[k].actual !in NotesOf(later)
  {
    hide NotesOf;
    NotesFrom(earlier, k);
    var p :| 0 <= p < |earlier| && earlier[p].original == k && NotesOf(earlier)[k] == earlier[p];
    forall a | a in NotesOf(later)
      ensures a != k && a != earlier[p].actual
    {
      NotesFrom(later, a);
      var q :| 0 <= q < |later| && later[q].original == a && NotesOf(later)[a] == later[q];
    }
  }

  /** The rounds of some bases are the first rounds of all. */
  lemma {:induction false} RoundsOfPrefix(builds: seq<seq<Built>>, n: nat, host: string,
                                         pkgs: Packages, ops: seq<Operation>)
    requires n <= |builds|
    ensures |RunOf(builds, host, pkgs, ops).rounds| == |builds|
    ensures RunOf(builds[..n], host, pkgs, ops).rounds == RunOf(builds, host, pkgs, ops).rounds[..n]
    decreases |builds|
  {
    hide FixValues, MoveEntries, FixOperations, Noted, MappingOf, BuiltOf;
    if builds == [] {
      assert builds[..n] == builds;
    } else {
      var shorter := builds[..|builds| - 1];
      if n < |builds| {
        RoundsOfPrefix(shorter, n, host, pkgs, ops);
        assert shorter[..n] == builds[..n];
      } else {
        RoundsOfPrefix(shorter, 0, host, pkgs, ops);
        assert builds[..n] == builds;
      }
    }
  }

  lemma StartsWithBoth(s: seq<Mapping>, a: seq<Mapping>, m: Mapping)
    requires a + [m] <= s
    ensures |a| < |s| && s[|a|] == m && s[..|a|] == a
  {
    assert (a + [m])[|a|] == m;
  }

  /** The mapping of a round that built something has its place among those performed. */
  lemma PerformedIndex(rounds: seq<Round>, n: nat) returns (i: nat)
    requires n < |rounds| && rounds[n].built != map[]
    ensures i == |Performed(rounds[..n])| < |Performed(rounds)| && Performed(rounds)[i] == rounds[n].mapping
    ensures Performed(rounds)[..i] == Performed(rounds[..n])
  {
    hide Performed, Completed;
    PerformedPrefix(rounds, n + 1);
    TakeOneMore(rounds, n);
    PerformedAppend(rounds[..n], rounds[n], "");
    i := |Performed(rounds[..n])|;
    StartsWithBoth(Performed(rounds), Performed(rounds[..n]), rounds[n].mapping);
  }

  /** What the theorems about all rounds ask for: the built packages of the plan are listed in
      operations, keys that builds give are new, and each package is built once. */
  ghost predicate Sound(builds: seq<seq<Built>>, host: string, pkgs: Packages, ops: seq<Operation>) {
    var all := Performed(RunOf(builds, host, pkgs, ops).rounds);
    && BuiltOnce(builds) && ArchInSync(host, pkgs)
    && Orderly(all, pkgs.Keys) && AllListed(Accumulated(all), ops, pkgs)
  }

  /** The plan after `n` rounds: operations renamed, packages renamed and with their notes. */
  ghost predicate AfterRounds(builds: seq<seq<Built>>, n: nat, host: string, pkgs: Packages, ops: seq<Operation>)
    requires n <= |builds|
  {
    var run := RunOf(builds[..n], host, pkgs, ops);
    var all := Accumulated(Performed(run.rounds));
    run.ops == FixOperations(all, ops) && IsRebuilt(AllNotes(builds[..n]), all, host, pkgs, run.pkgs)
  }

  lemma AllNotesNext(builds: seq<seq<Built>>, n: nat)
    requires n < |builds|
    ensures AllNotes(builds[..n + 1]) == AllNotes(builds[..n]) + NotesOf(builds[n])
  {
    assert builds[..n + 1][..n] == builds[..n];
  }

  /** A round that built something. */
  lemma RoundPerformed(all: seq<Mapping>, i: nat, items: seq<Built>, notes: map<Key, Built>, host: string,
                       pkgs: Packages, ops: seq<Operation>, now: Packages)
    requires Orderly(all, pkgs.Keys) && AllListed(Accumulated(all), ops, pkgs) && ArchInSync(host, pkgs)
    requires i < |all| && all[i] == MappingOf(items) && OneKeyEach(items) && NotesApart(notes, NotesOf(items))
    requires IsRebuilt(notes, Accumulated(all[..i]), host, pkgs, now)
    ensures var (before, m) := (Accumulated(all[..i]), MappingOf(items));
            var nowOps := FixOperations(before, ops);
            && FixOperations(m, nowOps) == FixOperations(before + m, ops)
            && IsRebuilt(notes + NotesOf(items), before + m, host, pkgs,
                         FixValues(m, host, MoveEntries(m, Noted(now, items), nowOps)))
  {
    var before, m := Accumulated(all[..i]), MappingOf(items);
    var nowOps, noted := FixOperations(before, ops), Noted(now, items);
    hide Noted, MappingOf, NotesOf, OneKeyEach, NotesApart;
    hide FixOperations, MoveEntries, FixValues, RebuiltAt, Accumulated;
    RoundCompatible(all, i);
    FixOperationsTwice(before, m, ops);
    NotedSame(before, pkgs, now, items);
    RoundIsFresh(all, i, pkgs, noted);
    RoundIsListed(all, i, pkgs, noted, ops);
    RoundRenames(m, host, noted, nowOps);
    RoundRebuilds(items, notes, before, host, pkgs, now, FixValues(m, host, MoveEntries(m, noted, nowOps)));
  }

  lemma RoundCompatible(all: seq<Mapping>, i: nat)
    requires CompatibleRounds(all) && i < |all|
    ensures Compatible(Accumulated(all[..i]), all[i])
  {
    hide Compatible;
    forall j | 0 <= j < i
      ensures Compatible(all[..i][j], all[i])
    {
      assert Compatible(all[j], all[i]);
    }
    AccumulatedCompatible(all[..i], all[i]);
  }

  /** A round that built nothing of the plan. */
  lemma NoteNothing(items: seq<Built>, notes: map<Key, Built>, m: Mapping, host: string, pkgs: Packages, now: Packages)
    requires IsRebuilt(notes, m, host, pkgs, now) && BuiltOf(now, items) == map[] && NotesApart(notes, NotesOf(items))
    ensures Noted(now, items) == now && IsRebuilt(notes + NotesOf(items), m, host, pkgs, now)
  {
    hide BuiltOf, NotesOf, Noted, RebuiltInfo, KeysFrom;
    BuiltNothing(now, items);
    var last := NotesOf(items);
    forall k | k in pkgs
      ensures RebuiltAt(notes + last, m, host, pkgs, now, k)
    {
      assert RebuiltAt(notes, m, host, pkgs, now, k);
      if k !in notes {
        assert Rename(m, k) == k;
      }
      SameNote(notes, last, m, host, k, pkgs[k]);
    }
  }

  lemma SameNote(notes: map<Key, Built>, last: map<Key, Built>, m: Mapping, host: string, k: Key, info: Info)
    requires k !in last
    ensures RebuiltInfo(notes + last, m, host, k, info) == RebuiltInfo(notes, m, host, k, info)
  {
    hide RenamedInfo;
  }

  lemma NextRound(builds: seq<seq<Built>>, n: nat, host: string, pkgs: Packages, ops: seq<Operation>)
    requires Sound(builds, host, pkgs, ops) && n < |builds| && AfterRounds(builds, n, host, pkgs, ops)
    ensures AfterRounds(builds, n + 1, host, pkgs, ops)
  {
    var run, last := RunOf(builds[..n], host, pkgs, ops), builds[n];
    var all := Performed(RunOf(builds, host, pkgs, ops).rounds);
    hide Performed, Accumulated, Completed, FixOperations, FixValues, MoveEntries, Noted, MappingOf, BuiltOf,
         NotesOf, AllNotes, IsRebuilt, OneRound, RunOf, Orderly, AllListed, ArchInSync, OneKeyEach, RoundsApart;
    BuildsApart(builds, n);
    AllNotesNext(builds, n);
    OneMoreRound(builds, n, host, pkgs, ops);
    RoundAdds(run, host, last);
    if BuiltOf(run.pkgs, last) == map[] {
      NoteNothing(last, AllNotes(builds[..n]), Accumulated(Performed(run.rounds)), host, pkgs, run.pkgs);
    } else {
      RoundOfBuild(builds, n, host, pkgs, ops);
      var i := PerformedIndex(RunOf(builds, host, pkgs, ops).rounds, n);
      RoundPerformed(all, i, last, AllNotes(builds[..n]), host, pkgs, ops, run.pkgs);
    }
  }

  lemma RoundOfBuild(builds: seq<seq<Built>>, n: nat, host: string, pkgs: Packages, ops: seq<Operation>)
    requires n < |builds|
    ensures var (run, all) := (RunOf(builds[..n], host, pkgs, ops), RunOf(builds, host, pkgs, ops).rounds);
            && n < |all| && all[..n] == run.rounds
            && all[n] == Round(MappingOf(builds[n]), BuiltOf(run.pkgs, builds[n]))
  {
    hide FixValues, MoveEntries, FixOperations, Noted, MappingOf, BuiltOf, RunOf;
    RoundsOfPrefix(builds, n, host, pkgs, ops);
    RoundsOfPrefix(builds, n + 1, host, pkgs, ops);
    RoundsOfPrefix(builds[..n], n, host, pkgs, ops);
    OneMoreRound(builds, n, host, pkgs, ops);
    var all := RunOf(builds, host, pkgs, ops).rounds;
    assert all[..n + 1][n] == all[n];
  }

  /** After all rounds the plan is the original one renamed by the accumulated mapping, operations
      and packages, and every built package has the key, the pkgline and the architecture that its
      build gave it. */
  lemma PlanIsRebuilt(builds: seq<seq<Built>>, host: string, pkgs: Packages, ops: seq<Operation>)
    requires Sound(builds, host, pkgs, ops)
    ensures var run := RunOf(builds, host, pkgs, ops);
            var all := Accumulated(Performed(run.rounds));
            run.ops == FixOperations(all, ops) && IsRebuilt(AllNotes(builds), all, host, pkgs, run.pkgs)
  {
    AfterSomeRounds(builds, |builds|, host, pkgs, ops);
    assert builds[..|builds|] == builds;
  }

  lemma {:induction false} AfterSomeRounds(builds: seq<seq<Built>>, n: nat, host: string,
                                          pkgs: Packages, ops: seq<Operation>)
    requires Sound(builds, host, pkgs, ops) && n <= |builds|
    ensures AfterRounds(builds, n, host, pkgs, ops)
  {
    hide AfterRounds;
    if n == 0 {
      AfterNoRound(builds, host, pkgs, ops);
    } else {
      AfterSomeRounds(builds, n - 1, host, pkgs, ops);
      NextRound(builds, n - 1, host, pkgs, ops);
    }
  }

  lemma AfterNoRound(builds: seq<seq<Built>>, host: string, pkgs: Packages, ops: seq<Operation>)
    requires ArchInSync(host, pkgs)
    ensures AfterRounds(builds, 0, host, pkgs, ops)
  {
    hide IsRebuilt, FixOperations, ArchInSync;
    NoRounds(builds, host, pkgs, ops);
    NothingPerformed(host);
    NothingRebuilt(host, pkgs, ops);
  }

  // ---------------------------------------------------------------- which entries are up to date

  /** Every key an entry mentions. */
  function MentionedBy(info: Info): set<Key> {
    info.depends + info.rdepends + info.bdepends + info.rbdepends
  }

  /** No key in the entry is one that was replaced. */
  ghost predicate UpToDate(all: Mapping, info: Info) {
    MentionedBy(info) !! all.Keys
  }

  lemma FixedMentions(m: Mapping, host: string, k: Key, info: Info, d: Key)
    ensures d in MentionedBy(FixInfo(m, host, k, info)) <==> exists e :: e in MentionedBy(info) && Rename(m, e) == d
  {
  }

  /** After all rounds every entry of the plan names post-build keys only. */
  lemma PlanIsUpToDate(builds: seq<seq<Built>>, host: string, pkgs: Packages, ops: seq<Operation>, a: Key)
    requires Sound(builds, host, pkgs, ops) && a in RunOf(builds, host, pkgs, ops).pkgs
    ensures var run := RunOf(builds, host, pkgs, ops);
            UpToDate(Accumulated(Performed(run.rounds)), run.pkgs[a])
  {
    hide RunOf, Performed, Accumulated, AllNotes, RebuiltInfo, MentionedBy, CompatibleRounds, BuiltOnce, FixOperations,
         ArchInSync, AllListed;
    PlanIsRebuilt(builds, host, pkgs, ops);
    var run := RunOf(builds, host, pkgs, ops);
    var all, notes := Accumulated(Performed(run.rounds)), AllNotes(builds);
    assert RenamedFrom(all, pkgs, a);
    var k :| k in pkgs && Rename(all, k) == a;
    assert RebuiltAt(notes, all, host, pkgs, run.pkgs, k);
    forall d | d in MentionedBy(run.pkgs[a])
      ensures d !in all
    {
      RebuiltMentions(notes, all, host, k, pkgs[k], d);
    }
  }

  lemma RebuiltMentions(notes: map<Key, Built>, m: Mapping, host: string, k: Key, info: Info, d: Key)
    ensures d in MentionedBy(RebuiltInfo(notes, m, host, k, info))
            <==> exists e :: e in MentionedBy(info) && Rename(m, e) == d
  {
    hide FixPkgline;
  }

  /** The round that a completed package comes from is the last that built it. */
  lemma {:induction false} CompletedBy(rounds: seq<Round>, host: string, a: Key) returns (n: nat)
    requires a in Completed(rounds, host)
    ensures n < |rounds| && a in rounds[n].built && forall j | n < j < |rounds| :: a !in rounds[j].built
    ensures Completed(rounds, host)[a] == FixInfo(rounds[n].mapping, host, a, rounds[n].built[a])
    decreases |rounds|
  {
    hide FixInfo;
    n := |rounds| - 1;
    if a !in rounds[n].built {
      var before := rounds[..n];
      var k := CompletedBy(before, host, a);
      assert rounds[k] == before[k];
      forall j | k < j < n
        ensures a !in rounds[j].built
      {
        assert rounds[j] == before[j];
      }
      n := k;
    }
  }

  /** The entries handed back are fixed in their own round only: one names post-build keys only
      if and only if no other round renamed a key that it mentioned when it was built. */
  lemma CompletedIsUpToDate(rounds: seq<Mapping>, n: nat, host: string, known: set<Key>, a: Key, info: Info)
    requires Orderly(rounds, known) && n < |rounds|
    ensures UpToDate(Accumulated(rounds), FixInfo(rounds[n], host, a, info))
            <==> MentionedBy(info) * Accumulated(rounds).Keys <= rounds[n].Keys
  {
    var all := Accumulated(rounds);
    forall e | e in rounds[n]
      ensures e in all && all[e] == rounds[n][e] && rounds[n][e] !in all
    {
      AccumulatedHas(rounds, n, e);
    }
    hide FixInfo, MentionedBy, Accumulated, CompatibleRounds;
    forall d
      ensures d in MentionedBy(FixInfo(rounds[n], host, a, info)) && d in all
              <==> d in MentionedBy(info) && d in all && d !in rounds[n]
    {
      FixedMentions(rounds[n], host, a, info, d);
      if d in MentionedBy(info) && d !in rounds[n] {
        assert Rename(rounds[n], d) == d;
      }
    }
    if MentionedBy(info) * all.Keys <= rounds[n].Keys {
      assert forall d | d in all :: d !in MentionedBy(FixInfo(rounds[n], host, a, info));
    } else {
      var d :| d in MentionedBy(info) * all.Keys && d !in rounds[n];
      assert d in MentionedBy(FixInfo(rounds[n], host, a, info));
    }
  }

  /** An entry of the map handed back names post-build keys only if and only if every key that it
      mentioned when it was built, and that some round renamed, was renamed in its own round. */
  lemma HandedBackIsUpToDate(rounds: seq<Round>, host: string, known: set<Key>, a: Key) returns (n: nat)
    requires Orderly(Performed(rounds), known) && a in Completed(rounds, host)
    ensures n < |rounds| && a in rounds[n].built
    ensures var all := Accumulated(Performed(rounds));
            UpToDate(all, Completed(rounds, host)[a])
            <==> MentionedBy(rounds[n].built[a]) * all.Keys <= rounds[n].mapping.Keys
  {
    hide *;
    n := CompletedBy(rounds, host, a);
    var i := PerformedIndex(rounds, n);
    CompletedIsUpToDate(Performed(rounds), i, host, known, a, rounds[n].built[a]);
  }

  // ---------------------------------------------------------------- told about the original plan

  lemma {:induction false} BuiltFrom(pkgs: Packages, items: seq<Built>, a: Key) returns (i: nat)
    requires a in BuiltOf(pkgs, items)
    ensures i < |items| && items[i].original in pkgs && items[i].actual == a
    ensures BuiltOf(pkgs, items)[a] == Note(pkgs[items[i].original], items[i])
    decreases |items|
  {
    hide Note;
    i := |items| - 1;
    if !(items[i].original in pkgs && items[i].actual == a) {
      var before := items[..i];
      i := BuiltFrom(pkgs, before, a);
      assert items[i] == before[i];
    }
  }

  lemma {:induction false} BuiltHas(pkgs: Packages, items: seq<Built>, i: nat)
    requires i < |items| && items[i].original in pkgs
    ensures items[i].actual in BuiltOf(pkgs, items)
    decreases |items|
  {
    hide Note;
    var n := |items| - 1;
    if i < n {
      BuiltHas(pkgs, items[..n], i);
      assert items[..n][i] == items[i];
    }
  }

  /** File `i` of base `n` is of a package of the plan. */
  ghost predicate OfPlan(builds: seq<seq<Built>>, n: nat, i: nat, pkgs: Packages) {
    n < |builds| && i < |builds[n]| && builds[n][i].original in pkgs
  }

  /** A package of the plan stands under its planned key until it is built. */
  lemma StillPlanned(builds: seq<seq<Built>>, n: nat, host: string, pkgs: Packages, ops: seq<Operation>, k: Key)
    requires Sound(builds, host, pkgs, ops) && n < |builds| && k in NotesOf(builds[n])
    ensures var run := RunOf(builds[..n], host, pkgs, ops);
            (k in run.pkgs <==> k in pkgs) && k !in Accumulated(Performed(run.rounds))
            && (k in pkgs ==> run.pkgs[k] == FixInfo(Accumulated(Performed(run.rounds)), host, k, pkgs[k]))
  {
    hide RunOf, Performed, Accumulated, AllNotes, NotesOf, FixOperations, BuiltOnce, Orderly, AllListed, FixInfo;
    var run, notes := RunOf(builds[..n], host, pkgs, ops), AllNotes(builds[..n]);
    var before := Accumulated(Performed(run.rounds));
    AfterSomeRounds(builds, n, host, pkgs, ops);
    BuildsApart(builds, n);
    assert k !in notes && k !in before;
    if k in pkgs {
      assert RebuiltAt(notes, before, host, pkgs, run.pkgs, k);
    }
    if k in run.pkgs {
      assert RenamedFrom(before, pkgs, k);
      var j :| j in pkgs && Rename(before, j) == k;
      assert RebuiltAt(notes, before, host, pkgs, run.pkgs, j);
    }
  }

  /** A built package of the plan that changed its key is in the accumulated mapping. */
  lemma FileIsMapped(builds: seq<seq<Built>>, n: nat, i: nat, host: string, pkgs: Packages, ops: seq<Operation>)
    requires Sound(builds, host, pkgs, ops) && OfPlan(builds, n, i, pkgs)
    ensures var (b, all) := (builds[n][i], Accumulated(Performed(RunOf(builds, host, pkgs, ops).rounds)));
            b.original != b.actual ==> b.original in all && all[b.original] == b.actual
  {
    hide RunOf, Performed, Accumulated, NotesOf, MappingOf, BuiltOf, AllListed, ArchInSync, FreshKeys, RoundsApart;
    var b, rounds := builds[n][i], RunOf(builds, host, pkgs, ops).rounds;
    NotesHave(builds[n], i);
    StillPlanned(builds, n, host, pkgs, ops, b.original);
    RoundOfBuild(builds, n, host, pkgs, ops);
    BuiltHas(RunOf(builds[..n], host, pkgs, ops).pkgs, builds[n], i);
    var p := PerformedIndex(rounds, n);
    if b.original != b.actual {
      NoteOfFile(builds[n], i);
      MappingFromNotes(builds[n], b.original);
      AccumulatedHas(Performed(rounds), p, b.original);
    }
  }

  lemma NoteOfFile(items: seq<Built>, i: nat)
    requires OneKeyEach(items) && i < |items|
    ensures items[i].original in NotesOf(items) && NotesOf(items)[items[i].original].actual == items[i].actual
  {
    hide NotesOf;
    NotesHave(items, i);
    NotesFrom(items, items[i].original);
    var k := items[i].original;
    var j :| 0 <= j < |items| && items[j].original == k && NotesOf(items)[k] == items[j];
  }

  /** Two files of packages of the plan that got the same key are of the same package, and made in
      the same round. */
  lemma OneFilePerKey(builds: seq<seq<Built>>, n: nat, i: nat, m: nat, j: nat, host: string,
                      pkgs: Packages, ops: seq<Operation>)
    requires Sound(builds, host, pkgs, ops) && OfPlan(builds, n, i, pkgs) && OfPlan(builds, m, j, pkgs) && n <= m
    requires builds[n][i].actual == builds[m][j].actual
    ensures n == m && builds[n][i].original == builds[m][j].original
  {
    FileIsMapped(builds, n, i, host, pkgs, ops);
    FileIsMapped(builds, m, j, host, pkgs, ops);
    hide RunOf, Performed, Accumulated, AllListed, ArchInSync, OneKeyEach, CompatibleRounds;
    assert n < m ==> RoundsApart(builds[n], builds[m]);
  }

  /** The entry that a round of the plan builds for the key `a`. */
  lemma BuiltInRound(builds: seq<seq<Built>>, n: nat, i: nat, host: string, pkgs: Packages, ops: seq<Operation>)
    requires Sound(builds, host, pkgs, ops) && OfPlan(builds, n, i, pkgs)
    ensures var run := RunOf(builds[..n], host, pkgs, ops);
            var (before, a) := (Accumulated(Performed(run.rounds)), builds[n][i].actual);
            && a in BuiltOf(run.pkgs, builds[n])
            && MentionedBy(BuiltOf(run.pkgs, builds[n])[a])
               == MentionedBy(FixInfo(before, host, builds[n][i].original, pkgs[builds[n][i].original]))
  {
    hide RunOf, Performed, Accumulated, NotesOf, BuiltOf, Sound, FixInfo;
    var run, items := RunOf(builds[..n], host, pkgs, ops), builds[n];
    NotesHave(items, i);
    StillPlanned(builds, n, host, pkgs, ops, items[i].original);
    BuiltHas(run.pkgs, items, i);
    var j := BuiltFrom(run.pkgs, items, items[i].actual);
    NotesHave(items, j);
    StillPlanned(builds, n, host, pkgs, ops, items[j].original);
    OneFilePerKey(builds, n, i, n, j, host, pkgs, ops);
  }

  /** No later round builds the same key. */
  lemma NotBuiltLater(builds: seq<seq<Built>>, n: nat, i: nat, m: nat, host: string,
                      pkgs: Packages, ops: seq<Operation>)
    requires Sound(builds, host, pkgs, ops) && OfPlan(builds, n, i, pkgs) && n < m < |builds|
    ensures builds[n][i].actual !in BuiltOf(RunOf(builds[..m], host, pkgs, ops).pkgs, builds[m])
  {
    hide RunOf, Performed, Accumulated, NotesOf, BuiltOf, Sound, FixInfo;
    var run := RunOf(builds[..m], host, pkgs, ops);
    if builds[n][i].actual in BuiltOf(run.pkgs, builds[m]) {
      var j := BuiltFrom(run.pkgs, builds[m], builds[n][i].actual);
      NotesHave(builds[m], j);
      StillPlanned(builds, m, host, pkgs, ops, builds[m][j].original);
      OneFilePerKey(builds, n, i, m, j, host, pkgs, ops);
    }
  }

  /** Keys that no round up to `n` renames are those that a fixed entry still mentions. */
  lemma MentionsAfterFix(before: Mapping, m: Mapping, all: Mapping, host: string, k: Key, info: Info)
    requires forall e | e in before :: e in all && before[e] !in all
    ensures MentionedBy(FixInfo(before, host, k, info)) * all.Keys <= m.Keys
            <==> MentionedBy(info) * all.Keys <= (before + m).Keys
  {
    hide FixInfo, MentionedBy;
    var fixed := MentionedBy(FixInfo(before, host, k, info));
    forall d
      ensures d in fixed * all.Keys <==> d in MentionedBy(info) * all.Keys && d !in before
    {
      FixedMentions(before, host, k, info, d);
      if d in MentionedBy(info) && d !in before {
        assert Rename(before, d) == d;
      }
    }
    if fixed * all.Keys <= m.Keys {
      forall e | e in MentionedBy(info) * all.Keys
        ensures e in before + m
      {
        assert e in before || e in fixed * all.Keys;
      }
    }
  }

  /** The package built from file `i` of base `n` is handed back, and its entry names post-build
      keys only if and only if its planned entry mentions no key that a later round renames. */
  lemma HandedBackIff(builds: seq<seq<Built>>, n: nat, i: nat, host: string, pkgs: Packages, ops: seq<Operation>)
    requires Sound(builds, host, pkgs, ops) && OfPlan(builds, n, i, pkgs)
    ensures var rounds := RunOf(builds, host, pkgs, ops).rounds;
            var sofar := RunOf(builds[..n + 1], host, pkgs, ops).rounds;
            var (all, upTo, b) := (Accumulated(Performed(rounds)), Accumulated(Performed(sofar)), builds[n][i]);
            && b.actual in Completed(rounds, host)
            && (UpToDate(all, Completed(rounds, host)[b.actual])
                <==> MentionedBy(pkgs[b.original]) * all.Keys <= upTo.Keys)
  {
    hide RunOf, Performed, Accumulated, BuiltOf, MappingOf, Completed, FixInfo, MentionedBy, UpToDate, AllListed,
         ArchInSync, OneKeyEach, RoundsApart;
    var run, rounds := RunOf(builds[..n], host, pkgs, ops), RunOf(builds, host, pkgs, ops).rounds;
    var b, m := builds[n][i], MappingOf(builds[n]);
    BuiltInRound(builds, n, i, host, pkgs, ops);
    RoundOfBuild(builds, n, host, pkgs, ops);
    RoundsOfPrefix(builds, |builds|, host, pkgs, ops);
    CompletedHas(rounds, host, n, b.actual);
    var k := HandedBackIsUpToDate(rounds, host, pkgs.Keys, b.actual);
    BuiltOnlyIn(builds, n, i, k, host, pkgs, ops);
    OneMoreRound(builds, n, host, pkgs, ops);
    RoundAdds(run, host, builds[n]);
    var p := PerformedIndex(rounds, n);
    BeforeIsGone(Performed(rounds), p, pkgs.Keys);
    MentionsAfterFix(Accumulated(Performed(run.rounds)), m, Accumulated(Performed(rounds)), host, b.original,
                     pkgs[b.original]);
  }

  lemma BeforeIsGone(all: seq<Mapping>, p: nat, known: set<Key>)
    requires Orderly(all, known) && p <= |all|
    ensures forall e | e in Accumulated(all[..p]) ::
              e in Accumulated(all) && Accumulated(all[..p])[e] !in Accumulated(all)
  {
    hide Accumulated;
    forall e | e in Accumulated(all[..p])
      ensures e in Accumulated(all) && Accumulated(all[..p])[e] == Accumulated(all)[e]
    {
      AccumulatedPrefix(all, p, e);
    }
  }

  lemma {:induction false} CompletedHas(rounds: seq<Round>, host: string, n: nat, a: Key)
    requires n < |rounds| && a in rounds[n].built
    ensures a in Completed(rounds, host)
    decreases |rounds|
  {
    hide FixInfo;
    var last := |rounds| - 1;
    if n < last {
      CompletedHas(rounds[..last], host, n, a);
    }
  }

  /** The only round that builds this key is that of its file. */
  lemma BuiltOnlyIn(builds: seq<seq<Built>>, n: nat, i: nat, k: nat, host: string, pkgs: Packages, ops: seq<Operation>)
    requires Sound(builds, host, pkgs, ops) && OfPlan(builds, n, i, pkgs) && k < |builds|
    requires |RunOf(builds, host, pkgs, ops).rounds| == |builds|
    requires builds[n][i].actual in RunOf(builds, host, pkgs, ops).rounds[k].built
    ensures k == n
  {
    hide RunOf, Performed, Accumulated, NotesOf, BuiltOf, Sound, FixInfo, MappingOf;
    RoundOfBuild(builds, k, host, pkgs, ops);
    if n < k {
      NotBuiltLater(builds, n, i, k, host, pkgs, ops);
    } else if k < n {
      var run := RunOf(builds[..k], host, pkgs, ops);
      var j := BuiltFrom(run.pkgs, builds[k], builds[n][i].actual);
      NotesHave(builds[k], j);
      StillPlanned(builds, k, host, pkgs, ops, builds[k][j].original);
      OneFilePerKey(builds, k, j, n, i, host, pkgs, ops);
    }
  }

  lemma TwoRounds(rounds: seq<Round>, host: string)
    requires |rounds| == 2 && rounds[0].built != map[] && rounds[1].built != map[]
    ensures Performed(rounds) == [rounds[0].mapping, rounds[1].mapping]
    ensures Accumulated(Performed(rounds)) == rounds[0].mapping + rounds[1].mapping
    ensures Completed(rounds, host) == FixValues(rounds[0].mapping, host, rounds[0].built)
                                       + FixValues(rounds[1].mapping, host, rounds[1].built)
  {
    hide *;
    var a, b := rounds[0], rounds[1];
    NothingPerformed(host);
    PerformedAppend([], a, host);
    PerformedAppend([a], b, host);
    assert [] + [a] == [a] && [a] + [b] == rounds;
    AccumulatedAppend([], a.mapping);
    AccumulatedAppend([a.mapping], b.mapping);
    FromNothing(a.mapping, FixValues(a.mapping, host, a.built));
    assert [a.mapping] + [b.mapping] == [a.mapping, b.mapping];
  }

  lemma FromNothing(m: Mapping, pkgs: Packages)
    ensures map[] + m == m && map[] + pkgs == pkgs && [] + [m] == [m]
  {
  }

  /** A package built before a dependency of it is handed back with the dependency's old key. */
  lemma BuiltBeforeItsDependency(host: string, tool: Key, lib: Key, builtTool: Key, builtLib: Key)
    requires tool != lib && builtTool != builtLib
    ensures var rounds := [Round(map[tool := builtTool], map[builtTool := Info("", "x86_64", {lib}, {}, {}, {})]),
                           Round(map[lib := builtLib], map[builtLib := Info("", "x86_64", {}, {}, {}, {})])];
            && builtTool in Completed(rounds, host) && Completed(rounds, host)[builtTool].depends == {lib}
            && lib in Accumulated(Performed(rounds))
  {
    var rounds := [Round(map[tool := builtTool], map[builtTool := Info("", "x86_64", {lib}, {}, {}, {})]),
                   Round(map[lib := builtLib], map[builtLib := Info("", "x86_64", {}, {}, {}, {})])];
    assert builtTool in rounds[0].built && builtLib in rounds[1].built;
    TwoRounds(rounds, host);
    hide Completed, Performed;
    assert RenameAll(rounds[0].mapping, {lib}) == {lib} by {
      assert Rename(rounds[0].mapping, lib) == lib;
    }
  }
}
