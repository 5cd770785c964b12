/**
 Re-keying of an installation plan after AUR packages are built (src/aur.rs).

 A package is planned under arch "any" and gets its real key when it is built. In rounds, the
 plan's operations, its package map and the four dependency sets of every package are renamed.
 */
module AurPlan {
  import opened Wrappers
  import opened Substitution

  /** A parsed pkgkey. */
  datatype Key = Key(name: string, version: string, arch: string)

  /** `str::replace` */
  function Replaced(s: string, pattern: string, replacement: string): string
    requires pattern != []
  {
    Substitute(s, [Rule(pattern, replacement)])
  }

  /** `format_pkgkey`: the colon after an epoch is written as a number sign. */
  function KeyText(k: Key): (s: string)
    ensures s != []
  {
    k.name + "__" + Replaced(k.version, ":", "#") + "__" + k.arch
  }

  datatype Info = Info(pkgline: string, arch: string,
                       depends: set<Key>, rdepends: set<Key>, bdepends: set<Key>, rbdepends: set<Key>)

  type Packages = map<Key, Info>

  /** Pre-build key to post-build key. */
  type Mapping = map<Key, Key>

  datatype Operation = Operation(newKey: Option<Key>, oldKey: Option<Key>)

  // ---------------------------------------------------------------- renaming

  function Rename(m: Mapping, k: Key): Key {
    if k in m then m[k] else k
  }

  function RenameAll(m: Mapping, ks: set<Key>): set<Key> {
    set k | k in ks :: Rename(m, k)
  }

  /** The pkgline of an entry that moves: the old key in it becomes the new one. */
  function FixPkgline(line: string, before: Key, after: Key): string {
    if Find(line, KeyText(before)).Some? then Replaced(line, KeyText(before), KeyText(after)) else line
  }

  /** What one package's entry becomes under its key `k` of the fixed map. */
  function FixInfo(m: Mapping, host: string, k: Key, info: Info): Info {
    Info(info.pkgline, if info.arch != host then k.arch else info.arch,
         RenameAll(m, info.depends), RenameAll(m, info.rdepends),
         RenameAll(m, info.bdepends), RenameAll(m, info.rbdepends))
  }

  function FixValues(m: Mapping, host: string, pkgs: Packages): Packages {
    map k | k in pkgs :: FixInfo(m, host, k, pkgs[k])
  }

  /** Move one entry to its new key. */
  function MoveEntry(m: Mapping, pkgs: Packages, k: Key): Packages {
    if k in m && k in pkgs then
      (pkgs - {k})[m[k] := pkgs[k].(pkgline := FixPkgline(pkgs[k].pkgline, k, m[k]))]
    else pkgs
  }

  function FixOperation(m: Mapping, op: Operation): Operation {
    if op.newKey.Some? then op.(newKey := Some(Rename(m, op.newKey.value))) else op
  }

  function FixOperations(m: Mapping, ops: seq<Operation>): (r: seq<Operation>)
    ensures |r| == |ops|
  {
    seq(|ops|, i requires 0 <= i < |ops| => FixOperation(m, ops[i]))
  }

  /** The package map after the operations were walked in order. */
  function MoveEntries(m: Mapping, pkgs: Packages, ops: seq<Operation>): Packages {
    if ops == [] then pkgs
    else
      var moved := MoveEntries(m, pkgs, ops[..|ops| - 1]);
      var last := ops[|ops| - 1];
      if last.newKey.Some? then MoveEntry(m, moved, last.newKey.value) else moved
  }

  // ---------------------------------------------------------------- what a build finds out

  /** One package file after it was unpacked: the planned key it was joined with, the key and the
      pkgline that it has in the store. */
  datatype Built = Built(original: Key, actual: Key, pkgline: string)

  /** An entry once its package was built. */
  function Note(info: Info, b: Built): Info {
    info.(pkgline := b.pkgline, arch := b.actual.arch)
  }

  function NoteOne(pkgs: Packages, b: Built): Packages {
    if b.original in pkgs then pkgs[b.original := Note(pkgs[b.original], b)] else pkgs
  }

  /** The package map after the files of a round were unpacked. */
  function Noted(pkgs: Packages, items: seq<Built>): Packages {
    if items == [] then pkgs else NoteOne(Noted(pkgs, items[..|items| - 1]), items[|items| - 1])
  }

  function MappingOf(items: seq<Built>): Mapping {
    if items == [] then map[]
    else
      var before, last := MappingOf(items[..|items| - 1]), items[|items| - 1];
      if last.original != last.actual then before[last.original := last.actual] else before
  }

  /** The round's packages, under their new keys. */
  function BuiltOf(pkgs: Packages, items: seq<Built>): Packages {
    if items == [] then map[]
    else
      var before, last := BuiltOf(pkgs, items[..|items| - 1]), items[|items| - 1];
      if last.original in pkgs then before[last.actual := Note(pkgs[last.original], last)] else before
  }

  lemma {:induction false} NotedKeys(pkgs: Packages, items: seq<Built>)
    ensures Noted(pkgs, items).Keys == pkgs.Keys
    ensures forall k | k in pkgs :: forall b :: Note(Noted(pkgs, items)[k], b) == Note(pkgs[k], b)
  {
    if items != [] {
      NotedKeys(pkgs, items[..|items| - 1]);
    }
  }

  // ---------------------------------------------------------------- the program

  class Plan {
    var operations: seq<Operation>
    var newPkgs: Packages
    var allRounds: Mapping
    var batchKeys: set<Key>

    constructor (operations: seq<Operation>, newPkgs: Packages)
      ensures this.operations == operations && this.newPkgs == newPkgs && allRounds == map[] && batchKeys == {}
    {
      this.operations, this.newPkgs, allRounds, batchKeys := operations, newPkgs, map[], {};
    }

    /** `fixup_aur_plan_keys` */
    method FixupPlanKeys(m: Mapping)
      modifies this`operations, this`newPkgs
      ensures operations == FixOperations(m, old(operations))
      ensures newPkgs == MoveEntries(m, old(newPkgs), old(operations))
    {
      for i := 0 to |operations|
        invariant |operations| == |old(operations)|
        invariant forall j | 0 <= j < i :: operations[j] == FixOperation(m, old(operations)[j])
        invariant forall j | i <= j < |operations| :: operations[j] == old(operations)[j]
        invariant newPkgs == MoveEntries(m, old(newPkgs), old(operations)[..i])
      {
        var op := operations[i];
        assert old(operations)[..i + 1][..i] == old(operations)[..i];
        if op.newKey.Some? && op.newKey.value in m {
          var oldKey := op.newKey.value;
          var mappedKey := m[oldKey];
          operations := operations[i := op.(newKey := Some(mappedKey))];
          if oldKey in newPkgs {
            var info := newPkgs[oldKey];
            if Find(info.pkgline, KeyText(oldKey)).Some? {
              info := info.(pkgline := Replaced(info.pkgline, KeyText(oldKey), KeyText(mappedKey)));
            }
            newPkgs := newPkgs - {oldKey};
            newPkgs := newPkgs[mappedKey := info];
          }
        }
      }
      assert old(operations)[..|operations|] == old(operations);
      assert operations == FixOperations(m, old(operations));
    }

    /** `unpack_link_built_aur_packages` without the unpacking: record the key that every package
        got, and update its entry. The file has the name of the planned package (see AurArtifacts), so
        the branch for split packages with another name is left out. */
    method UnpackLinkBuilt(items: seq<Built>) returns (built: Packages, mapping: Mapping)
      modifies this`newPkgs
      ensures newPkgs == Noted(old(newPkgs), items)
      ensures built == BuiltOf(old(newPkgs), items) && mapping == MappingOf(items)
    {
      hide Note;
      built, mapping := map[], map[];
      for i := 0 to |items|
        invariant newPkgs == Noted(old(newPkgs), items[..i])
        invariant built == BuiltOf(old(newPkgs), items[..i]) && mapping == MappingOf(items[..i])
      {
        assert items[..i + 1][..i] == items[..i];
        NotedKeys(old(newPkgs), items[..i]);
        var b := items[i];
        if b.original != b.actual {
          mapping := mapping[b.original := b.actual];
        }
        if b.original in newPkgs {
          var info := Note(newPkgs[b.original], b);
          newPkgs := newPkgs[b.original := info];
          built := built[b.actual := info];
        }
      }
      assert items[..|items|] == items;
    }

    /** `postinstall_built_aur_round` up to the transaction it runs: the plan's keys first, then
        the values of the packages `built` in this round and of the plan's packages; the round's
        keys become the batch. */
    method PostinstallRound(m: Mapping, host: string, built: Packages) returns (fixed: Packages)
      modifies this
      ensures fixed == FixValues(m, host, built)
      ensures batchKeys == built.Keys
      ensures operations == FixOperations(m, old(operations))
      ensures newPkgs == FixValues(m, host, MoveEntries(m, old(newPkgs), old(operations)))
      ensures allRounds == old(allRounds) + m
    {
      if m != map[] {
        FixupPlanKeys(m);
        allRounds := allRounds + m;
      } else {
        NoMapping(m, newPkgs, operations);
      }
      fixed := FixupPackageValues(m, host, built);
      newPkgs := FixupPackageValues(m, host, newPkgs);
      batchKeys := fixed.Keys;
    }
  }

  lemma {:induction false} NoMapping(m: Mapping, pkgs: Packages, ops: seq<Operation>)
    requires m == map[]
    ensures MoveEntries(m, pkgs, ops) == pkgs && FixOperations(m, ops) == ops
  {
    if ops != [] {
      NoMapping(m, pkgs, ops[..|ops| - 1]);
    }
  }

  /** `fixup_installed_packages_values` */
  method FixupPackageValues(m: Mapping, host: string, pkgs0: Packages) returns (pkgs: Packages)
    ensures pkgs == FixValues(m, host, pkgs0)
  {
    pkgs := pkgs0;
    var todo := pkgs0.Keys;
    while todo != {}
      invariant todo <= pkgs0.Keys == pkgs.Keys
      invariant forall k | k in pkgs :: pkgs[k] == if k in todo then pkgs0[k] else FixInfo(m, host, k, pkgs0[k])
    {
      var k :| k in todo;
      var info := pkgs[k];
      if info.arch != host {
        info := info.(arch := k.arch);
      }
      info := info.(depends := RenameAll(m, info.depends));
      info := info.(rdepends := RenameAll(m, info.rdepends));
      info := info.(bdepends := RenameAll(m, info.bdepends));
      info := info.(rbdepends := RenameAll(m, info.rbdepends));
      pkgs := pkgs[k := info];
      todo := todo - {k};
    }
  }

  // ---------------------------------------------------------------- one round is a renaming

  /** The new key of some operation. */
  ghost predicate Listed(ops: seq<Operation>, k: Key) {
    exists i :: 0 <= i < |ops| && ops[i].newKey == Some(k)
  }

  /** Every key the plan's packages stand under or mention. */
  function Mentioned(pkgs: Packages): set<Key> {
    pkgs.Keys
    + (set p, k | p in pkgs && k in pkgs[p].depends :: k) + (set p, k | p in pkgs && k in pkgs[p].rdepends :: k)
    + (set p, k | p in pkgs && k in pkgs[p].bdepends :: k) + (set p, k | p in pkgs && k in pkgs[p].rbdepends :: k)
  }

  /** The post-build keys are new and belong to one pre-build key each. */
  ghost predicate FreshKeys(m: Mapping, known: set<Key>) {
    && (forall k | k in m :: m[k] !in m && m[k] !in known)
    && (forall j, k | j in m && k in m && m[j] == m[k] :: j == k)
  }

  /** The key an entry stands under once the operations `ops` were walked. */
  ghost function MovedKey(m: Mapping, ops: seq<Operation>, k: Key): Key {
    if k in m && Listed(ops, k) then m[k] else k
  }

  ghost function MovedInfo(m: Mapping, ops: seq<Operation>, k: Key, info: Info): Info {
    if k in m && Listed(ops, k) then info.(pkgline := FixPkgline(info.pkgline, k, m[k])) else info
  }

  /** The entry of `k` is where it belongs. */
  ghost predicate Placed(m: Mapping, ops: seq<Operation>, pkgs: Packages, after: Packages, k: Key)
    requires k in pkgs
  {
    MovedKey(m, ops, k) in after && after[MovedKey(m, ops, k)] == MovedInfo(m, ops, k, pkgs[k])
  }

  /** `a` is the moved key of some entry. */
  ghost predicate Stems(m: Mapping, ops: seq<Operation>, pkgs: Packages, a: Key) {
    exists k :: k in pkgs && MovedKey(m, ops, k) == a
  }

  /** `after` holds exactly the entries of `pkgs`, each under its own moved key. */
  ghost predicate IsMoved(m: Mapping, ops: seq<Operation>, pkgs: Packages, after: Packages) {
    && (forall k | k in pkgs :: Placed(m, ops, pkgs, after, k))
    && (forall a | a in after :: Stems(m, ops, pkgs, a))
    && |after.Keys| == |pkgs.Keys|
  }

  lemma ListedLast(ops: seq<Operation>, k: Key)
    requires ops != []
    ensures Listed(ops, k) <==> Listed(ops[..|ops| - 1], k) || ops[|ops| - 1].newKey == Some(k)
  {
    var n := |ops| - 1;
    if i :| 0 <= i < |ops| && ops[i].newKey == Some(k) {
      assert i < n ==> ops[..n][i].newKey == Some(k);
    }
  }

  lemma StemsFrom(m: Mapping, ops: seq<Operation>, more: seq<Operation>, pkgs: Packages, a: Key)
    requires Stems(m, ops, pkgs, a)
    requires forall k | k in pkgs && MovedKey(m, ops, k) == a :: MovedKey(m, more, k) == a
    ensures Stems(m, more, pkgs, a)
  {
    var k :| k in pkgs && MovedKey(m, ops, k) == a;
    assert MovedKey(m, more, k) == a;
  }

  /** Both walks treat the entry of `k` alike. */
  ghost predicate Alike(m: Mapping, ops: seq<Operation>, more: seq<Operation>, k: Key) {
    k in m ==> (Listed(ops, k) <==> Listed(more, k))
  }

  lemma SamePlaced(m: Mapping, ops: seq<Operation>, more: seq<Operation>, pkgs: Packages, after: Packages, k: Key)
    requires k in pkgs && Placed(m, ops, pkgs, after, k) && Alike(m, ops, more, k)
    ensures Placed(m, more, pkgs, after, k)
  {
    hide FixPkgline, Listed;
  }

  lemma SameKey(m: Mapping, ops: seq<Operation>, more: seq<Operation>, k: Key)
    requires Alike(m, ops, more, k)
    ensures MovedKey(m, ops, k) == MovedKey(m, more, k)
  {
  }

  /** An operation that moves nothing new leaves the moved keys as they are. */
  lemma SameMoved(m: Mapping, ops: seq<Operation>, more: seq<Operation>, pkgs: Packages, after: Packages)
    requires IsMoved(m, ops, pkgs, after)
    requires forall k | k in pkgs :: Alike(m, ops, more, k)
    ensures IsMoved(m, more, pkgs, after)
  {
    hide Alike, Placed, Stems, MovedKey;
    forall k | k in pkgs
      ensures Placed(m, more, pkgs, after, k)
    {
      SamePlaced(m, ops, more, pkgs, after, k);
    }
    forall a | a in after
      ensures Stems(m, more, pkgs, a)
    {
      forall k | k in pkgs
        ensures MovedKey(m, ops, k) == MovedKey(m, more, k)
      {
        SameKey(m, ops, more, k);
      }
      StemsFrom(m, ops, more, pkgs, a);
    }
  }

  /** The moved entry leaves a free key for a fresh one. */
  lemma MoveNowKeys(m: Mapping, ops: seq<Operation>, pkgs: Packages, after: Packages, x: Key)
    requires FreshKeys(m, pkgs.Keys) && IsMoved(m, ops, pkgs, after)
    requires x in m && x in pkgs && !Listed(ops, x)
    ensures x in after && after[x] == pkgs[x] && m[x] !in after && m[x] != x && MovedKey(m, ops, x) == x
    ensures MoveEntry(m, after, x).Keys == after.Keys - {x} + {m[x]}
    ensures |MoveEntry(m, after, x).Keys| == |after.Keys|
    ensures forall k | k in pkgs && k != x :: MovedKey(m, ops, k) != x && MovedKey(m, ops, k) != m[x]
  {
    assert Placed(m, ops, pkgs, after, x);
    assert forall k | k in pkgs :: MovedKey(m, ops, k) != m[x];
    assert !Stems(m, ops, pkgs, m[x]);
  }

  /** One entry that moves now. */
  lemma MoveNow(m: Mapping, ops: seq<Operation>, more: seq<Operation>, pkgs: Packages, after: Packages, x: Key)
    requires FreshKeys(m, pkgs.Keys) && IsMoved(m, ops, pkgs, after)
    requires x in m && x in pkgs && !Listed(ops, x)
    requires Listed(more, x) && forall k | k in pkgs && k != x :: Alike(m, ops, more, k)
    ensures IsMoved(m, more, pkgs, MoveEntry(m, after, x))
  {
    hide Listed, Placed, Stems, FreshKeys, MovedKey;
    var r := MoveEntry(m, after, x);
    MoveNowKeys(m, ops, pkgs, after, x);
    forall k | k in pkgs
      ensures Placed(m, more, pkgs, r, k)
    {
      MoveNowPlaces(m, ops, more, pkgs, after, x, k);
    }
    forall a | a in r
      ensures Stems(m, more, pkgs, a)
    {
      MoveNowStems(m, ops, more, pkgs, after, x, a);
    }
  }

  lemma MoveNowPlaces(m: Mapping, ops: seq<Operation>, more: seq<Operation>, pkgs: Packages, after: Packages,
                      x: Key, k: Key)
    requires k in pkgs && x in m && x in pkgs && x in after && after[x] == pkgs[x]
    requires Placed(m, ops, pkgs, after, k) && Listed(more, x)
    requires k != x ==> Alike(m, ops, more, k) && MovedKey(m, ops, k) != x && MovedKey(m, ops, k) != m[x]
    ensures Placed(m, more, pkgs, MoveEntry(m, after, x), k)
  {
    hide FixPkgline, Listed;
  }

  lemma MoveNowStems(m: Mapping, ops: seq<Operation>, more: seq<Operation>, pkgs: Packages, after: Packages,
                     x: Key, a: Key)
    requires x in m && x in pkgs && Listed(more, x) && a in after.Keys - {x} + {m[x]}
    requires a in after ==> Stems(m, ops, pkgs, a)
    requires forall k | k in pkgs && k != x :: Alike(m, ops, more, k)
    requires MovedKey(m, ops, x) == x
    ensures Stems(m, more, pkgs, a)
  {
    hide Listed;
    if a == m[x] {
      assert MovedKey(m, more, x) == a;
    } else {
      StemsFrom(m, ops, more, pkgs, a);
    }
  }

  /** A key that moved already, or was never in the map, is not in it now. */
  lemma NotThere(m: Mapping, ops: seq<Operation>, pkgs: Packages, after: Packages, x: Key)
    requires FreshKeys(m, pkgs.Keys) && IsMoved(m, ops, pkgs, after)
    requires x in m && x in pkgs ==> Listed(ops, x)
    ensures MoveEntry(m, after, x) == after
  {
    if x in m {
      assert forall k | k in pkgs :: MovedKey(m, ops, k) != x;
      assert !Stems(m, ops, pkgs, x);
    }
  }

  /** One operation of the walk. */
  lemma MoveStep(m: Mapping, pkgs: Packages, ops: seq<Operation>, after: Packages)
    requires FreshKeys(m, pkgs.Keys) && ops != [] && IsMoved(m, ops[..|ops| - 1], pkgs, after)
    ensures var last := ops[|ops| - 1];
            IsMoved(m, ops, pkgs, if last.newKey.Some? then MoveEntry(m, after, last.newKey.value) else after)
  {
    hide Listed, IsMoved, MoveEntry;
    var n := |ops| - 1;
    var before := ops[..n];
    forall k
      ensures Listed(ops, k) <==> Listed(before, k) || ops[n].newKey == Some(k)
      ensures ops[n].newKey != Some(k) || Listed(before, k) ==> Alike(m, before, ops, k)
    {
      ListedLast(ops, k);
    }
    if ops[n].newKey.Some? {
      var x := ops[n].newKey.value;
      if x in m && x in pkgs && !Listed(before, x) {
        MoveNow(m, before, ops, pkgs, after, x);
      } else {
        NotThere(m, before, pkgs, after, x);
        SameMoved(m, before, ops, pkgs, after);
      }
    } else {
      SameMoved(m, before, ops, pkgs, after);
    }
  }

  lemma NothingMoved(m: Mapping, pkgs: Packages, ops: seq<Operation>)
    requires |ops| == 0
    ensures IsMoved(m, ops, pkgs, pkgs)
  {
    hide FixPkgline, Stems, Placed, Listed;
    forall a
      ensures !Listed(ops, a)
    {
      NothingListed(ops, a);
    }
    forall a | a in pkgs
      ensures Placed(m, ops, pkgs, pkgs, a) && Stems(m, ops, pkgs, a)
    {
      StaysPlaced(m, ops, pkgs, a);
    }
  }

  lemma NothingListed(ops: seq<Operation>, a: Key)
    requires |ops| == 0
    ensures !Listed(ops, a)
  {
  }

  lemma StaysPlaced(m: Mapping, ops: seq<Operation>, pkgs: Packages, a: Key)
    requires a in pkgs && !Listed(ops, a)
    ensures Placed(m, ops, pkgs, pkgs, a) && Stems(m, ops, pkgs, a)
  {
    hide FixPkgline, Listed;
    assert MovedKey(m, ops, a) == a;
  }

  /** `fixup_aur_plan_keys` loses no entry and moves exactly those some operation lists. */
  lemma {:induction false} MoveEntriesMoves(m: Mapping, pkgs: Packages, ops: seq<Operation>)
    requires FreshKeys(m, pkgs.Keys)
    ensures IsMoved(m, ops, pkgs, MoveEntries(m, pkgs, ops))
    decreases |ops|
  {
    hide FixPkgline, IsMoved, FreshKeys, MoveEntry;
    if ops == [] {
      NothingMoved(m, pkgs, ops);
    } else {
      MoveEntriesMoves(m, pkgs, ops[..|ops| - 1]);
      MoveStep(m, pkgs, ops, MoveEntries(m, pkgs, ops[..|ops| - 1]));
    }
  }
}
