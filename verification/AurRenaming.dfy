/**
 What re-keying an AUR plan promises (src/aur.rs): the package graph is renamed, not changed, and
 the rounds add up to one renaming.
 */
module AurRenaming {
  import opened AurPlan

  /** The entry of `k` under its post-build key. */
  function RenamedInfo(m: Mapping, host: string, k: Key, info: Info): Info {
    FixInfo(m, host, Rename(m, k), if k in m then info.(pkgline := FixPkgline(info.pkgline, k, m[k])) else info)
  }

  ghost predicate RenamedAt(m: Mapping, host: string, pkgs: Packages, after: Packages, k: Key)
    requires k in pkgs
  {
    Rename(m, k) in after && after[Rename(m, k)] == RenamedInfo(m, host, k, pkgs[k])
  }

  ghost predicate RenamedFrom(m: Mapping, pkgs: Packages, a: Key) {
    exists k :: k in pkgs && Rename(m, k) == a
  }

  /** `after` is `pkgs` with every key replaced, in the map and in every entry: nothing is lost,
      nothing is added. */
  ghost predicate IsRenamed(m: Mapping, host: string, pkgs: Packages, after: Packages) {
    && (forall k | k in pkgs :: RenamedAt(m, host, pkgs, after, k))
    && (forall a | a in after :: RenamedFrom(m, pkgs, a))
    && |after.Keys| == |pkgs.Keys|
  }

  ghost predicate AllListed(m: Mapping, ops: seq<Operation>, pkgs: Packages) {
    forall k | k in m && k in pkgs :: Listed(ops, k)
  }

  lemma MovedAsListed(m: Mapping, host: string, ops: seq<Operation>, pkgs: Packages, moved: Packages, k: Key)
    requires k in pkgs && (k in m ==> Listed(ops, k)) && Placed(m, ops, pkgs, moved, k)
    ensures RenamedAt(m, host, pkgs, FixValues(m, host, moved), k)
  {
    hide FixPkgline, Listed, FixInfo;
  }

  /** One round renames the plan's package map, when every built package of the map is listed in
      some operation. */
  lemma RoundRenames(m: Mapping, host: string, pkgs: Packages, ops: seq<Operation>)
    requires FreshKeys(m, pkgs.Keys) && AllListed(m, ops, pkgs)
    ensures IsRenamed(m, host, pkgs, FixValues(m, host, MoveEntries(m, pkgs, ops)))
  {
    MoveEntriesMoves(m, pkgs, ops);
    hide *;
    IsRenamedParts(m, host, ops, pkgs, MoveEntries(m, pkgs, ops));
  }

  lemma IsRenamedParts(m: Mapping, host: string, ops: seq<Operation>, pkgs: Packages, moved: Packages)
    requires AllListed(m, ops, pkgs) && IsMoved(m, ops, pkgs, moved)
    ensures IsRenamed(m, host, pkgs, FixValues(m, host, moved))
  {
    hide Placed, Stems, RenamedAt, RenamedFrom, Listed, FixInfo;
    forall k | k in pkgs
      ensures RenamedAt(m, host, pkgs, FixValues(m, host, moved), k)
    {
      MovedAsListed(m, host, ops, pkgs, moved, k);
    }
    forall a | a in moved
      ensures RenamedFrom(m, pkgs, a)
    {
      StemsAsListed(m, ops, pkgs, a);
    }
    assert FixValues(m, host, moved).Keys == moved.Keys;
  }

  lemma StemsAsListed(m: Mapping, ops: seq<Operation>, pkgs: Packages, a: Key)
    requires AllListed(m, ops, pkgs) && Stems(m, ops, pkgs, a)
    ensures RenamedFrom(m, pkgs, a)
  {
    var k :| k in pkgs && MovedKey(m, ops, k) == a;
    assert Rename(m, k) == a;
  }

  /** And only then: a built package that no operation lists stays under its pre-build key, while
      every reference to it is rewritten. */
  lemma MovedIffListed(m: Mapping, pkgs: Packages, ops: seq<Operation>, k: Key)
    requires FreshKeys(m, pkgs.Keys) && k in m && k in pkgs
    ensures var after := MoveEntries(m, pkgs, ops);
            (m[k] in after <==> Listed(ops, k)) && (k in after <==> !Listed(ops, k))
  {
    MoveEntriesMoves(m, pkgs, ops);
    hide MoveEntries, FixPkgline, Listed;
    var after := MoveEntries(m, pkgs, ops);
    assert Placed(m, ops, pkgs, after, k);
    if Listed(ops, k) {
      assert !Stems(m, ops, pkgs, k);
    } else {
      assert !Stems(m, ops, pkgs, m[k]);
    }
  }

  // ---------------------------------------------------------------- the graph is the same graph

  lemma RenameInjective(m: Mapping, known: set<Key>, a: Key, b: Key)
    requires FreshKeys(m, known) && a in known && b in known && Rename(m, a) == Rename(m, b)
    ensures a == b
  {
  }

  lemma RenameAllMember(m: Mapping, known: set<Key>, ks: set<Key>, d: Key)
    requires FreshKeys(m, known) && ks <= known && d in known
    ensures Rename(m, d) in RenameAll(m, ks) <==> d in ks
  {
    if Rename(m, d) in RenameAll(m, ks) {
      var k :| k in ks && Rename(m, k) == Rename(m, d);
      RenameInjective(m, known, k, d);
    }
  }

  /** The same edge in both graphs, in all four relations. */
  ghost predicate SameEdges(m: Mapping, pkgs: Packages, after: Packages, p: Key, d: Key)
    requires p in pkgs && Rename(m, p) in after
  {
    var before, now, r := pkgs[p], after[Rename(m, p)], Rename(m, d);
    && (r in now.depends <==> d in before.depends) && (r in now.rdepends <==> d in before.rdepends)
    && (r in now.bdepends <==> d in before.bdepends) && (r in now.rbdepends <==> d in before.rbdepends)
  }

  /** Renaming is a graph isomorphism on everything the plan mentions. */
  lemma RenamingIsIsomorphism(m: Mapping, host: string, pkgs: Packages, after: Packages, p: Key, d: Key)
    requires FreshKeys(m, Mentioned(pkgs)) && IsRenamed(m, host, pkgs, after)
    requires p in pkgs && d in Mentioned(pkgs)
    ensures Rename(m, p) in after && SameEdges(m, pkgs, after, p, d)
  {
    hide FixPkgline, FreshKeys, RenameAll;
    assert RenamedAt(m, host, pkgs, after, p);
    var known := Mentioned(pkgs);
    InfoMentioned(pkgs, p);
    RenameAllMember(m, known, pkgs[p].depends, d);
    RenameAllMember(m, known, pkgs[p].rdepends, d);
    RenameAllMember(m, known, pkgs[p].bdepends, d);
    RenameAllMember(m, known, pkgs[p].rbdepends, d);
  }

  lemma InfoMentioned(pkgs: Packages, p: Key)
    requires p in pkgs
    ensures pkgs[p].depends <= Mentioned(pkgs) && pkgs[p].rdepends <= Mentioned(pkgs)
    ensures pkgs[p].bdepends <= Mentioned(pkgs) && pkgs[p].rbdepends <= Mentioned(pkgs)
    ensures p in Mentioned(pkgs)
  {
  }

  /** Dependencies and reverse dependencies say the same. */
  ghost predicate Mirrored(pkgs: Packages, p: Key, d: Key)
    requires p in pkgs && d in pkgs
  {
    && (d in pkgs[p].depends <==> p in pkgs[d].rdepends)
    && (d in pkgs[p].bdepends <==> p in pkgs[d].rbdepends)
  }

  ghost predicate Mirror(pkgs: Packages) {
    forall p, d | p in pkgs && d in pkgs :: Mirrored(pkgs, p, d)
  }

  /** If they were mutual inverses before, they still are. */
  lemma RenamingKeepsMirror(m: Mapping, host: string, pkgs: Packages, after: Packages)
    requires FreshKeys(m, Mentioned(pkgs)) && IsRenamed(m, host, pkgs, after) && Mirror(pkgs)
    ensures Mirror(after)
  {
    hide Mentioned, FreshKeys, RenamedAt, Rename;
    forall a, b | a in after && b in after
      ensures Mirrored(after, a, b)
    {
      assert RenamedFrom(m, pkgs, a) && RenamedFrom(m, pkgs, b);
      var p :| p in pkgs && Rename(m, p) == a;
      var d :| d in pkgs && Rename(m, d) == b;
      InfoMentioned(pkgs, p);
      InfoMentioned(pkgs, d);
      RenamingIsIsomorphism(m, host, pkgs, after, p, d);
      RenamingIsIsomorphism(m, host, pkgs, after, d, p);
      assert Mirrored(pkgs, p, d);
    }
  }

  // ---------------------------------------------------------------- rounds add up

  /** A later round renames neither what an earlier one renamed nor what it produced. */
  ghost predicate Compatible(first: Mapping, second: Mapping) {
    first.Keys !! second.Keys && forall k | k in first :: first[k] !in second
  }

  lemma RenameTwice(first: Mapping, second: Mapping, k: Key)
    requires Compatible(first, second)
    ensures Rename(second, Rename(first, k)) == Rename(first + second, k)
  {
  }

  lemma RenameAllTwice(first: Mapping, second: Mapping, ks: set<Key>)
    requires Compatible(first, second)
    ensures RenameAll(second, RenameAll(first, ks)) == RenameAll(first + second, ks)
  {
    forall k
      ensures Rename(second, Rename(first, k)) == Rename(first + second, k)
    {
      RenameTwice(first, second, k);
    }
    var twice := RenameAll(second, RenameAll(first, ks));
    forall a | a in RenameAll(first + second, ks)
      ensures a in twice
    {
      var k :| k in ks && Rename(first + second, k) == a;
      assert Rename(first, k) in RenameAll(first, ks);
    }
  }

  lemma FixInfoTwice(first: Mapping, second: Mapping, host: string, k: Key, info: Info)
    requires Compatible(first, second)
    ensures FixInfo(second, host, k, FixInfo(first, host, k, info)) == FixInfo(first + second, host, k, info)
  {
    RenameAllTwice(first, second, info.depends);
    RenameAllTwice(first, second, info.rdepends);
    RenameAllTwice(first, second, info.bdepends);
    RenameAllTwice(first, second, info.rbdepends);
  }

  /** The recorded architecture agrees with the key, or is already the machine's own. */
  ghost predicate ArchInSync(host: string, pkgs: Packages) {
    forall k | k in pkgs :: pkgs[k].arch == k.arch || pkgs[k].arch == host
  }

  lemma RenamedInfoTwice(first: Mapping, second: Mapping, host: string, k: Key, info: Info)
    requires Compatible(first, second) && (info.arch == k.arch || info.arch == host)
    ensures RenamedInfo(second, host, Rename(first, k), RenamedInfo(first, host, k, info))
            == RenamedInfo(first + second, host, k, info)
  {
    hide FixPkgline, RenameAll;
    RenameAllTwice(first, second, info.depends);
    RenameAllTwice(first, second, info.rdepends);
    RenameAllTwice(first, second, info.bdepends);
    RenameAllTwice(first, second, info.rbdepends);
  }

  /** Two rounds one after the other rename the plan as their union does in one. */
  lemma RenamedTwice(first: Mapping, second: Mapping, host: string, pkgs: Packages, middle: Packages, after: Packages)
    requires Compatible(first, second) && ArchInSync(host, pkgs)
    requires IsRenamed(first, host, pkgs, middle) && IsRenamed(second, host, middle, after)
    ensures IsRenamed(first + second, host, pkgs, after)
  {
    hide RenamedInfo, RenamedFrom, Compatible;
    forall k | k in pkgs
      ensures RenamedAt(first + second, host, pkgs, after, k)
    {
      RenamedTwiceAt(first, second, host, pkgs, middle, after, k);
    }
    forall a | a in after
      ensures RenamedFrom(first + second, pkgs, a)
    {
      RenamedTwiceFrom(first, second, pkgs, middle, a);
    }
  }

  lemma RenamedTwiceAt(first: Mapping, second: Mapping, host: string, pkgs: Packages, middle: Packages,
                       after: Packages, k: Key)
    requires Compatible(first, second) && k in pkgs && (pkgs[k].arch == k.arch || pkgs[k].arch == host)
    requires RenamedAt(first, host, pkgs, middle, k)
    requires Rename(first, k) in middle && RenamedAt(second, host, middle, after, Rename(first, k))
    ensures RenamedAt(first + second, host, pkgs, after, k)
  {
    hide RenamedInfo, Rename, Compatible;
    RenameTwice(first, second, k);
    RenamedInfoTwice(first, second, host, k, pkgs[k]);
  }

  lemma RenamedTwiceFrom(first: Mapping, second: Mapping, pkgs: Packages, middle: Packages, a: Key)
    requires Compatible(first, second) && RenamedFrom(second, middle, a)
    requires forall b | b in middle :: RenamedFrom(first, pkgs, b)
    ensures RenamedFrom(first + second, pkgs, a)
  {
    hide Rename, Compatible;
    var b :| b in middle && Rename(second, b) == a;
    assert RenamedFrom(first, pkgs, b);
    var k :| k in pkgs && Rename(first, k) == b;
    RenameTwice(first, second, k);
  }

  /** `aur_mapping_all_rounds` after the given rounds. */
  function Accumulated(rounds: seq<Mapping>): Mapping {
    if rounds == [] then map[] else Accumulated(rounds[..|rounds| - 1]) + rounds[|rounds| - 1]
  }

  ghost predicate CompatibleRounds(rounds: seq<Mapping>) {
    forall i, j | 0 <= i < j < |rounds| :: Compatible(rounds[i], rounds[j])
  }

  lemma {:induction false} AccumulatedCompatible(rounds: seq<Mapping>, last: Mapping)
    requires forall i | 0 <= i < |rounds| :: Compatible(rounds[i], last)
    ensures Compatible(Accumulated(rounds), last)
  {
    if rounds != [] {
      var n := |rounds| - 1;
      AccumulatedCompatible(rounds[..n], last);
      assert Compatible(rounds[n], last);
    }
  }

  lemma {:induction false} RoundsRename(rounds: seq<Mapping>, host: string, plans: seq<Packages>)
    requires CompatibleRounds(rounds) && |plans| == |rounds| + 1 && |rounds| > 0 && ArchInSync(host, plans[0])
    requires forall i | 0 <= i < |rounds| :: IsRenamed(rounds[i], host, plans[i], plans[i + 1])
    ensures IsRenamed(Accumulated(rounds), host, plans[0], plans[|rounds|])
    decreases |rounds|
  {
    hide IsRenamed, ArchInSync, Compatible;
    var n := |rounds| - 1;
    assert IsRenamed(rounds[n], host, plans[n], plans[n + 1]);
    if n == 0 {
      assert rounds[..0] == [];
      assert map[] + rounds[0] == rounds[0];
    } else {
      var before := rounds[..n];
      RoundsRename(before, host, plans[..n + 1]);
      assert plans[..n + 1][n] == plans[n] && plans[..n + 1][0] == plans[0];
      AccumulatedCompatible(before, rounds[n]);
      RenamedTwice(Accumulated(before), rounds[n], host, plans[0], plans[n], plans[n + 1]);
    }
  }

  /** The values of a package map fixed after every round. */
  function FixRounds(rounds: seq<Mapping>, host: string, pkgs: Packages): Packages {
    if rounds == [] then pkgs
    else FixValues(rounds[|rounds| - 1], host, FixRounds(rounds[..|rounds| - 1], host, pkgs))
  }

  lemma FixValuesTwice(first: Mapping, second: Mapping, host: string, pkgs: Packages)
    requires Compatible(first, second)
    ensures FixValues(second, host, FixValues(first, host, pkgs)) == FixValues(first + second, host, pkgs)
  {
    hide FixInfo;
    forall k | k in pkgs
      ensures FixInfo(second, host, k, FixInfo(first, host, k, pkgs[k])) == FixInfo(first + second, host, k, pkgs[k])
    {
      FixInfoTwice(first, second, host, k, pkgs[k]);
    }
  }

  /** Skipped reinstalls are fixed once at the end, with the accumulated mapping; that equals
      fixing them round by round. */
  lemma {:induction false} OnceIsEveryRound(rounds: seq<Mapping>, host: string, pkgs: Packages)
    requires CompatibleRounds(rounds) && |rounds| > 0
    ensures FixValues(Accumulated(rounds), host, pkgs) == FixRounds(rounds, host, pkgs)
    decreases |rounds|
  {
    hide Compatible, FixValues;
    var n := |rounds| - 1;
    if n == 0 {
      assert rounds[..0] == [];
      assert map[] + rounds[0] == rounds[0];
    } else {
      var before := rounds[..n];
      OnceIsEveryRound(before, host, pkgs);
      AccumulatedCompatible(before, rounds[n]);
      FixValuesTwice(Accumulated(before), rounds[n], host, pkgs);
    }
  }
}
