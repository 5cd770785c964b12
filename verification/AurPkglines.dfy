/**
 What the entries of a re-keyed plan say (src/aur.rs), told in terms of their text: how a key is
 written, what moving an entry does to its pkgline, and what every entry of the final plan holds.
 */
module AurPkglines {
  import opened Wrappers
  import opened Substitution
  import opened AurPlan
  import opened AurRenaming
  import opened AurRounds
  import opened AurRebuilt

  // ---------------------------------------------------------------- one pattern replaced

  /** The first occurrence of the pattern is replaced, and what follows likewise. */
  lemma FirstReplaced(a: string, b: string, p: string, r: string)
    requires p != [] && forall i: nat | i < |a| :: !OccursAt(a + p + b, i, p)
    ensures Find(a + p + b, p).Some?
    ensures Replaced(a + p + b, p, r) == a + r + Replaced(b, p, r)
  {
    var s, rules := a + p + b, [Rule(p, r)];
    PartOccurs(a, p, b);
    assert s[..|a|] == a;
    OneSilent(s, rules, |a|);
    SubstituteAt(s, rules, |a|, 0);
    assert s[|a| + |p|..] == b;
  }

  lemma OneSilent(s: string, rules: seq<Rule<char>>, n: nat)
    requires |rules| == 1 && forall i: nat | i < n :: !OccursAt(s, i, rules[0].pattern)
    ensures Silent(s, rules, n)
  {
    forall i | 0 <= i < n
      ensures NoneStarts(s, i, rules)
    {
      assert !OccursAt(s, i, rules[0].pattern);
    }
  }

  // ---------------------------------------------------------------- keys as text

  lemma {:induction false} ColonsReplaced(version: string, safe: string)
    requires |safe| == |version|
    requires forall i | 0 <= i < |version| :: safe[i] == if version[i] == ':' then '#' else version[i]
    ensures Replaced(version, ":", "#") == safe
    decreases |version|
  {
    if version != [] {
      ColonsReplaced(version[1..], safe[1..]);
      assert safe == [safe[0]] + safe[1..];
    }
  }

  /** A key is written as name, version and architecture with two underscores between; every colon of
      the version is written as a number sign. */
  lemma KeyTextIs(k: Key, safe: string)
    requires |safe| == |k.version|
    requires forall i | 0 <= i < |safe| :: safe[i] == if k.version[i] == ':' then '#' else k.version[i]
    ensures KeyText(k) == k.name + "__" + safe + "__" + k.arch
  {
    hide Replaced;
    ColonsReplaced(k.version, safe);
  }

  // ---------------------------------------------------------------- the pkgline of a moved entry

  lemma PkglineKept(line: string, before: Key, after: Key)
    requires !exists a, b :: line == a + KeyText(before) + b
    ensures FixPkgline(line, before, after) == line
  {
    hide KeyText, Replaced;
    FindIff(line, KeyText(before));
  }

  /** In a pkgline that contains the old key the first occurrence becomes the new key, and so do the
      ones behind it. */
  lemma PkglineMoved(a: string, b: string, before: Key, after: Key)
    requires forall i: nat | i < |a| :: !OccursAt(a + KeyText(before) + b, i, KeyText(before))
    ensures FixPkgline(a + KeyText(before) + b, before, after) == a + KeyText(after) + FixPkgline(b, before, after)
  {
    hide KeyText, Replaced;
    var p, r := KeyText(before), KeyText(after);
    FirstReplaced(a, b, p, r);
    if Find(b, p).None? {
      NotFoundNotReplaced(b, p, r);
    }
  }

  /** With one occurrence the new key takes its place. */
  lemma PkglineOnce(a: string, b: string, before: Key, after: Key)
    requires forall i: nat | OccursAt(a + KeyText(before) + b, i, KeyText(before)) :: i == |a|
    ensures FixPkgline(a + KeyText(before) + b, before, after) == a + KeyText(after) + b
  {
    hide KeyText, Replaced, FixPkgline;
    var p := KeyText(before);
    PkglineMoved(a, b, before, after);
    forall x, y
      ensures b != x + p + y
    {
      PartOccurs(a + p + x, p, y);
      assert a + p + x + p + y == a + p + (x + p + y);
    }
    PkglineKept(b, before, after);
  }

  lemma NotFoundNotReplaced(s: string, p: string, r: string)
    requires p != [] && Find(s, p).None?
    ensures Replaced(s, p, r) == s
  {
    SubstituteNothing(s, [Rule(p, r)]);
  }

  /** A longer replacement makes no text shorter, a shorter one none longer. */
  lemma {:induction false} ReplacedLength(s: string, p: string, r: string)
    requires p != []
    ensures |r| >= |p| ==> |Replaced(s, p, r)| >= |s|
    ensures |r| <= |p| ==> |Replaced(s, p, r)| <= |s|
    decreases |s|
  {
    if s != [] {
      ReplacedLength(if p <= s then s[|p|..] else s[1..], p, r);
    }
  }

  /** So moving an entry leaves its pkgline alone if and only if the old key is not in it, or both
      keys are written alike. */
  lemma PkglineKeptIff(line: string, before: Key, after: Key)
    ensures FixPkgline(line, before, after) == line
            <==> (!exists a, b :: line == a + KeyText(before) + b) || KeyText(before) == KeyText(after)
  {
    hide KeyText, Replaced;
    var p, r := KeyText(before), KeyText(after);
    FindIff(line, p);
    if Find(line, p).Some? {
      var n := Find(line, p).value;
      OccurrenceCuts(line, n, p);
      var a, b := line[..n], line[n + |p|..];
      FirstReplaced(a, b, p, r);
      assert line == a + p + b;
      ReplacedLength(b, p, r);
      SameAtFirst(a, p, b, r, Replaced(b, p, r));
      SameTextReplaced(b, p);
    }
  }

  lemma SameAtFirst(a: string, p: string, b: string, r: string, c: string)
    requires |r| >= |p| ==> |c| >= |b|
    requires |r| <= |p| ==> |c| <= |b|
    ensures a + p + b == a + r + c ==> p == r && b == c
  {
    if a + p + b == a + r + c {
      assert |p| + |b| == |r| + |c|;
      assert (a + p + b)[|a|..] == p + b && (a + r + c)[|a|..] == r + c;
      assert (p + b)[..|p|] == p && (r + c)[..|r|] == r;
      assert (p + b)[|p|..] == b && (r + c)[|r|..] == c;
    }
  }

  lemma {:induction false} SameTextReplaced(s: string, p: string)
    requires p != []
    ensures Replaced(s, p, p) == s
    decreases |s|
  {
    if s != [] {
      if p <= s {
        SameTextReplaced(s[|p|..], p);
        assert s == p + s[|p|..];
      } else {
        SameTextReplaced(s[1..], p);
        assert s == [s[0]] + s[1..];
      }
    }
  }

  // ---------------------------------------------------------------- the entries of the final plan

  /** A dependency set with every key of the mapping replaced. */
  ghost predicate Renamed(all: Mapping, before: set<Key>, after: set<Key>) {
    forall a :: a in after <==> exists d :: d in before && a == if d in all then all[d] else d
  }

  lemma RenameAllRenames(all: Mapping, ks: set<Key>)
    ensures Renamed(all, ks, RenameAll(all, ks))
  {
    forall a
      ensures a in RenameAll(all, ks) <==> exists d :: d in ks && a == if d in all then all[d] else d
    {
      assert forall d :: Rename(all, d) == if d in all then all[d] else d;
    }
  }

  lemma FixRenames(all: Mapping, host: string, k: Key, info: Info)
    ensures var fixed := FixInfo(all, host, k, info);
            && Renamed(all, info.depends, fixed.depends) && Renamed(all, info.rdepends, fixed.rdepends)
            && Renamed(all, info.bdepends, fixed.bdepends) && Renamed(all, info.rbdepends, fixed.rbdepends)
            && fixed.pkgline == info.pkgline && fixed.arch == if info.arch == host then host else k.arch
  {
    hide RenameAll, Renamed;
    RenameAllRenames(all, info.depends);
    RenameAllRenames(all, info.rdepends);
    RenameAllRenames(all, info.bdepends);
    RenameAllRenames(all, info.rbdepends);
  }

  /** What the planned package `k` is after all rounds. Its four dependency sets are renamed. If it was
      built it stands under the key of its build, with that architecture, and its pkgline is the one of
      the build exactly when the planned key is not in that text (or was not changed); otherwise key,
      pkgline and architecture are the planned ones. */
  lemma EntryIsRebuilt(builds: seq<seq<Built>>, host: string, pkgs: Packages, ops: seq<Operation>, k: Key)
    returns (a: Key)
    requires Sound(builds, host, pkgs, ops) && k in pkgs
    ensures var (run, notes, info) := (RunOf(builds, host, pkgs, ops), AllNotes(builds), pkgs[k]);
            var all := Accumulated(Performed(run.rounds));
            && a in run.pkgs && a == (if k in notes then notes[k].actual else k)
            && (var entry := run.pkgs[a];
                && Renamed(all, info.depends, entry.depends) && Renamed(all, info.rdepends, entry.rdepends)
                && Renamed(all, info.bdepends, entry.bdepends) && Renamed(all, info.rbdepends, entry.rbdepends)
                && entry.arch == (if k in notes then notes[k].actual.arch else info.arch)
                && (k !in notes ==> entry.pkgline == info.pkgline)
                && (k in notes ==>
                      (entry.pkgline == notes[k].pkgline <==>
                         || KeyText(a) == KeyText(k)
                         || !exists x, y :: notes[k].pkgline == x + KeyText(k) + y)))
  {
    hide RunOf, Performed, Accumulated, AllNotes, FixInfo, Renamed, FixPkgline, KeyText, BuiltOnce, Orderly, AllListed;
    PlanIsRebuilt(builds, host, pkgs, ops);
    var run, notes := RunOf(builds, host, pkgs, ops), AllNotes(builds);
    var all := Accumulated(Performed(run.rounds));
    assert RebuiltAt(notes, all, host, pkgs, run.pkgs, k);
    a := Rename(all, k);
    var start := if k in notes then pkgs[k].(pkgline := notes[k].pkgline) else pkgs[k];
    var moved := if k in all then start.(pkgline := FixPkgline(start.pkgline, k, all[k])) else start;
    FixRenames(all, host, a, moved);
    if k in notes {
      PkglineKeptIff(notes[k].pkgline, k, a);
    }
  }

  /** In the operations only keys of new packages are replaced. */
  lemma OperationsAreRebuilt(builds: seq<seq<Built>>, host: string, pkgs: Packages, ops: seq<Operation>)
    requires Sound(builds, host, pkgs, ops)
    ensures var run := RunOf(builds, host, pkgs, ops);
            var all := Accumulated(Performed(run.rounds));
            && |run.ops| == |ops|
            && forall i | 0 <= i < |ops| ::
                 && run.ops[i].oldKey == ops[i].oldKey
                 && (ops[i].newKey.None? ==> run.ops[i].newKey == None)
                 && (ops[i].newKey.Some? ==> var k := ops[i].newKey.value;
                                             run.ops[i].newKey == Some(if k in all then all[k] else k))
  {
    hide RunOf, Performed, Accumulated, AllNotes, Sound, IsRebuilt;
    PlanIsRebuilt(builds, host, pkgs, ops);
  }

  /** The files that a planned package was built from: the note is the last of them. */
  lemma NotesAreFiles(builds: seq<seq<Built>>, k: Key)
    ensures k in AllNotes(builds) <==>
              exists n, i :: 0 <= n < |builds| && 0 <= i < |builds[n]| && builds[n][i].original == k
    ensures k in AllNotes(builds) ==>
              exists n, i :: 0 <= n < |builds| && 0 <= i < |builds[n]| && builds[n][i].original == k
                             && AllNotes(builds)[k] == builds[n][i]
  {
    hide AllNotes, NotesOf;
    if k in AllNotes(builds) {
      var n := AllNotesFrom(builds, k);
      NotesFrom(builds[n], k);
    }
    if n, i :| 0 <= n < |builds| && 0 <= i < |builds[n]| && builds[n][i].original == k {
      NotesHave(builds[n], i);
      AllNotesHave(builds, n, k);
    }
  }

  lemma {:induction false} AllNotesHave(builds: seq<seq<Built>>, n: nat, k: Key)
    requires n < |builds| && k in NotesOf(builds[n])
    ensures k in AllNotes(builds)
    decreases |builds|
  {
    hide NotesOf;
    var last := |builds| - 1;
    if n < last {
      assert builds[..last][n] == builds[n];
      AllNotesHave(builds[..last], n, k);
    }
  }

  // ---------------------------------------------------------------- the entries handed back

  /** A planned package is handed back with the pkgline and the architecture of its build, and its
      dependency sets are renamed by the rounds up to its own. */
  lemma HandedBackEntry(builds: seq<seq<Built>>, n: nat, i: nat, host: string, pkgs: Packages, ops: seq<Operation>)
    returns (j: nat)
    requires Sound(builds, host, pkgs, ops) && OfPlan(builds, n, i, pkgs)
    ensures j < |builds[n]| && builds[n][j].original == builds[n][i].original
            && builds[n][j].actual == builds[n][i].actual
    ensures var (b, rounds) := (builds[n][j], RunOf(builds, host, pkgs, ops).rounds);
            var upTo := Accumulated(Performed(RunOf(builds[..n + 1], host, pkgs, ops).rounds));
            && b.actual in Completed(rounds, host)
            && (var (info, entry) := (pkgs[b.original], Completed(rounds, host)[b.actual]);
                && entry.pkgline == b.pkgline && entry.arch == b.actual.arch
                && Renamed(upTo, info.depends, entry.depends) && Renamed(upTo, info.rdepends, entry.rdepends)
                && Renamed(upTo, info.bdepends, entry.bdepends) && Renamed(upTo, info.rbdepends, entry.rbdepends))
  {
    hide RunOf, Performed, Accumulated, BuiltOf, MappingOf, Completed, FixInfo, Sound, Compatible, Renamed;
    var run, rounds := RunOf(builds[..n], host, pkgs, ops), RunOf(builds, host, pkgs, ops).rounds;
    var a, m, before := builds[n][i].actual, MappingOf(builds[n]), Accumulated(Performed(run.rounds));
    BuiltInRound(builds, n, i, host, pkgs, ops);
    RoundOfBuild(builds, n, host, pkgs, ops);
    RoundsOfPrefix(builds, |builds|, host, pkgs, ops);
    CompletedHas(rounds, host, n, a);
    var k := CompletedBy(rounds, host, a);
    BuiltOnlyIn(builds, n, i, k, host, pkgs, ops);
    j := BuiltFrom(run.pkgs, builds[n], a);
    NotesHave(builds[n], j);
    StillPlanned(builds, n, host, pkgs, ops, builds[n][j].original);
    OneFilePerKey(builds, n, i, n, j, host, pkgs, ops);
    OneMoreRound(builds, n, host, pkgs, ops);
    RoundAdds(run, host, builds[n]);
    var p := PerformedIndex(rounds, n);
    PerformedCompatible(builds, p, host, pkgs, ops);
    FixTwice(before, m, host, builds[n][j], pkgs[builds[n][j].original]);
  }

  lemma PerformedCompatible(builds: seq<seq<Built>>, p: nat, host: string, pkgs: Packages, ops: seq<Operation>)
    requires Sound(builds, host, pkgs, ops) && p < |Performed(RunOf(builds, host, pkgs, ops).rounds)|
    ensures var all := Performed(RunOf(builds, host, pkgs, ops).rounds);
            Compatible(Accumulated(all[..p]), all[p])
  {
    hide RunOf, Performed, Accumulated, BuiltOnce, ArchInSync, AllListed, CompatibleRounds;
    RoundCompatible(Performed(RunOf(builds, host, pkgs, ops).rounds), p);
  }

  lemma FixTwice(before: Mapping, m: Mapping, host: string, b: Built, info: Info)
    requires Compatible(before, m)
    ensures var entry := FixInfo(m, host, b.actual, Note(FixInfo(before, host, b.original, info), b));
            && entry.pkgline == b.pkgline && entry.arch == b.actual.arch
            && Renamed(before + m, info.depends, entry.depends) && Renamed(before + m, info.rdepends, entry.rdepends)
            && Renamed(before + m, info.bdepends, entry.bdepends)
            && Renamed(before + m, info.rbdepends, entry.rbdepends)
  {
    hide RenameAll, Renamed, Compatible;
    RenameAllTwice(before, m, info.depends);
    RenameAllTwice(before, m, info.rdepends);
    RenameAllTwice(before, m, info.bdepends);
    RenameAllTwice(before, m, info.rbdepends);
    RenameAllRenames(before + m, info.depends);
    RenameAllRenames(before + m, info.rdepends);
    RenameAllRenames(before + m, info.bdepends);
    RenameAllRenames(before + m, info.rbdepends);
  }

  /** A base that built nothing of the plan changes nothing, whatever keys its files got. */
  lemma ForeignBase(builds: seq<seq<Built>>, n: nat, host: string, pkgs: Packages, ops: seq<Operation>)
    requires n < |builds|
    requires forall i | 0 <= i < |builds[n]| :: builds[n][i].original !in RunOf(builds[..n], host, pkgs, ops).pkgs
    ensures var (before, after) := (RunOf(builds[..n], host, pkgs, ops), RunOf(builds[..n + 1], host, pkgs, ops));
            && after.pkgs == before.pkgs && after.ops == before.ops
            && Accumulated(Performed(after.rounds)) == Accumulated(Performed(before.rounds))
            && Completed(after.rounds, host) == Completed(before.rounds, host)
  {
    hide RunOf, Performed, Accumulated, Completed, OneRound;
    var run := RunOf(builds[..n], host, pkgs, ops);
    OneMoreRound(builds, n, host, pkgs, ops);
    RoundAdds(run, host, builds[n]);
    BuiltNothing(run.pkgs, builds[n]);
    forall k | k in NotesOf(builds[n])
      ensures k !in run.pkgs
    {
      NotesFrom(builds[n], k);
    }
  }
}
