/**
 From built package files back to the planned AUR entries (src/aur.rs): file names are taken
 apart, joined with the requested keys on name and version, and checked for completeness.
 */
module AurArtifacts {
  import opened Wrappers
  import opened AurPlan

  datatype Failure = NoVersion | NothingBuilt | MissingPackages

  datatype Artifact = Artifact(name: string, version: string, arch: string)

  // ---------------------------------------------------------------- file names

  /** Position of the last dash, as `rfind('-')`. */
  function LastDash(s: string): (r: Option<nat>)
    ensures r.None? <==> '-' !in s
    ensures r.Some? ==> r.value < |s| && s[r.value] == '-' && '-' !in s[r.value + 1..]
  {
    if s == [] then None
    else
      var n := |s| - 1;
      if s[n] == '-' then Some(n)
      else
        var r := LastDash(s[..n]);
        assert r.Some? ==> s[r.value + 1..] == s[..n][r.value + 1..] + [s[n]];
        assert s == s[..n] + [s[n]];
        r
  }

  lemma {:induction false} LastDashAt(a: string, b: string)
    requires '-' !in b
    ensures LastDash(a + "-" + b) == Some(|a|)
    decreases |b|
  {
    var s := a + "-" + b;
    if b != "" {
      var n := |b| - 1;
      assert s[..|s| - 1] == a + "-" + b[..n];
      LastDashAt(a, b[..n]);
    }
  }

  function StripSuffix(s: string, suffix: string): Option<string> {
    if |suffix| <= |s| && s[|s| - |suffix|..] == suffix then Some(s[..|s| - |suffix|]) else None
  }

  const ZST: string := ".pkg.tar.zst"
  const XZ: string := ".pkg.tar.xz"

  predicate AllDigits(s: string) {
    forall i | 0 <= i < |s| :: '0' <= s[i] <= '9'
  }

  /** Name and pkgver from the part in front of the release number; without any dash the pkgver
      is taken to be empty. */
  function SplitNameVer(namever: string, pkgrel: string, arch: string): Option<Artifact> {
    var dash := LastDash(namever);
    if dash.None? then Some(Artifact(namever, "-" + pkgrel, arch))
    else
      var name, pkgver := namever[..dash.value], namever[dash.value + 1..];
      if name == "" || pkgver == "" then None else Some(Artifact(name, pkgver + "-" + pkgrel, arch))
  }

  /** What follows once the suffix and the architecture are cut off. */
  function SplitFront(front: string, arch: string): Option<Artifact> {
    var middle := LastDash(front);
    if middle.None? then None
    else
      var pkgrel, namever := front[middle.value + 1..], front[..middle.value];
      if !AllDigits(pkgrel) then None else SplitNameVer(namever, pkgrel, arch)
  }

  /** `infer_name_version_from_arch_pkgfile` */
  function Infer(filename: string): Option<Artifact> {
    var zst := StripSuffix(filename, ZST);
    var base := if zst.Some? then zst else StripSuffix(filename, XZ);
    if base.None? then None
    else
      var last := LastDash(base.value);
      if last.None? then None
      else
        SplitFront(base.value[..last.value], base.value[last.value + 1..])
  }

  /** makepkg's file name of a package. */
  function FileName(name: string, pkgver: string, pkgrel: string, arch: string, suffix: string): string {
    name + "-" + pkgver + "-" + pkgrel + "-" + arch + suffix
  }

  lemma SuffixStrips(base: string)
    ensures StripSuffix(base + ZST, ZST) == Some(base)
    ensures StripSuffix(base + XZ, ZST) == None && StripSuffix(base + XZ, XZ) == Some(base)
  {
    assert (base + ZST)[|base|..] == ZST && (base + ZST)[..|base|] == base;
    assert (base + XZ)[|base|..] == XZ && (base + XZ)[..|base|] == base;
    var t := base + XZ;
    if |ZST| <= |t| {
      var u := t[|t| - |ZST|..];
      assert u[|u| - 1] == 'z' && u[|u| - 2] == XZ[|XZ| - 2] == 'x';
      assert ZST[|ZST| - 1] == 't';
    }
  }

  /** A file name of makepkg ending in .zst or .xz is taken apart again, dashes in the package name
      included, if and only if the release is all digits; makepkg allows a release like "1.1" too. */
  lemma FileNameRoundTrip(name: string, pkgver: string, pkgrel: string, arch: string, suffix: string)
    requires name != "" && pkgver != "" && '-' !in pkgver && '-' !in pkgrel && '-' !in arch
    requires suffix == ZST || suffix == XZ
    ensures Infer(FileName(name, pkgver, pkgrel, arch, suffix)) ==
            if AllDigits(pkgrel) then Some(Artifact(name, pkgver + "-" + pkgrel, arch)) else None
  {
    hide *;
    var front := name + "-" + pkgver + "-" + pkgrel;
    FileNameParts(name, pkgver, pkgrel, arch, suffix);
    SuffixStrips(front + "-" + arch);
    InferBase(FileName(name, pkgver, pkgrel, arch, suffix), front, arch);
    SplitAtDashes(name, pkgver, pkgrel, arch);
  }

  lemma FileNameParts(name: string, pkgver: string, pkgrel: string, arch: string, suffix: string)
    ensures FileName(name, pkgver, pkgrel, arch, suffix) == (name + "-" + pkgver + "-" + pkgrel + "-" + arch) + suffix
  {
  }

  lemma InferBase(filename: string, front: string, arch: string)
    requires '-' !in arch
    requires StripSuffix(filename, ZST) == Some(front + "-" + arch)
             || (StripSuffix(filename, ZST) == None && StripSuffix(filename, XZ) == Some(front + "-" + arch))
    ensures Infer(filename) == SplitFront(front, arch)
  {
    hide StripSuffix;
    var base := front + "-" + arch;
    LastDashAt(front, arch);
    assert base[|front| + 1..] == arch && base[..|front|] == front;
  }

  lemma SplitAtDashes(name: string, pkgver: string, pkgrel: string, arch: string)
    requires name != "" && pkgver != "" && '-' !in pkgver && '-' !in pkgrel
    ensures SplitFront(name + "-" + pkgver + "-" + pkgrel, arch) ==
            if AllDigits(pkgrel) then Some(Artifact(name, pkgver + "-" + pkgrel, arch)) else None
  {
    hide LastDash, AllDigits;
    var namever := name + "-" + pkgver;
    var front := namever + "-" + pkgrel;
    LastDashAt(namever, pkgrel);
    assert front[|namever| + 1..] == pkgrel && front[..|namever|] == namever;
    LastDashAt(name, pkgver);
    assert namever[|name| + 1..] == pkgver && namever[..|name|] == name;
  }

  /** A release that makepkg allows and the program does not read. */
  lemma DottedRelease()
    ensures Infer(FileName("foo", "1.0", "1.1", "any", ZST)) == None
  {
    assert "1.1"[1] == '.';
    FileNameRoundTrip("foo", "1.0", "1.1", "any", ZST);
  }

  /** Whatever a file is called, the release in an inferred version is all digits. */
  lemma InferredRelease(filename: string, pkgver: string, pkgrel: string)
    requires '-' !in pkgrel && Infer(filename).Some? && Infer(filename).value.version == pkgver + "-" + pkgrel
    ensures AllDigits(pkgrel)
  {
    hide AllDigits, LastDash, StripSuffix;
    var ver, rel := InferredVersion(filename);
    SameRelease(ver, rel, pkgver, pkgrel);
  }

  lemma InferredVersion(filename: string) returns (ver: string, rel: string)
    requires Infer(filename).Some?
    ensures AllDigits(rel) && '-' !in rel && Infer(filename).value.version == ver + "-" + rel
  {
    hide StripSuffix, AllDigits, SplitFront, LastDash;
    var zst := StripSuffix(filename, ZST);
    var base := if zst.Some? then zst.value else StripSuffix(filename, XZ).value;
    var last := LastDash(base).value;
    ver, rel := SplitVersion(base[..last], base[last + 1..]);
  }

  lemma SplitVersion(front: string, arch: string) returns (ver: string, rel: string)
    requires SplitFront(front, arch).Some?
    ensures AllDigits(rel) && '-' !in rel && SplitFront(front, arch).value.version == ver + "-" + rel
  {
    hide AllDigits, LastDash;
    var middle := LastDash(front).value;
    var namever := front[..middle];
    var dash := LastDash(namever);
    ver, rel := if dash.None? then "" else namever[dash.value + 1..], front[middle + 1..];
    assert "" + "-" + rel == "-" + rel;
  }

  lemma SameRelease(ver1: string, rel1: string, ver2: string, rel2: string)
    requires '-' !in rel1 && '-' !in rel2 && ver1 + "-" + rel1 == ver2 + "-" + rel2
    ensures rel1 == rel2
  {
    hide LastDash;
    LastDashAt(ver1, rel1);
    LastDashAt(ver2, rel2);
    assert (ver1 + "-" + rel1)[|ver1| + 1..] == rel1;
    assert (ver2 + "-" + rel2)[|ver2| + 1..] == rel2;
  }

  // ---------------------------------------------------------------- the join

  /** Name and version, the columns of the join. */
  function NameVer(k: Key): (string, string) {
    (k.name, k.version)
  }

  /** The entry a name and version are joined with: the first requested one that is an AUR package. */
  ghost predicate JoinsWith(keys: seq<Key>, aur: set<Key>, column: (string, string), k: Key) {
    exists i :: 0 <= i < |keys| && keys[i] == k && k in aur && NameVer(k) == column
                && forall j | 0 <= j < i :: keys[j] in aur ==> NameVer(keys[j]) != column
  }

  lemma JoinsWithOne(keys: seq<Key>, aur: set<Key>, column: (string, string), a: Key, b: Key)
    requires JoinsWith(keys, aur, column, a) && JoinsWith(keys, aur, column, b)
    ensures a == b
  {
  }

  type Table = map<(string, string), Key>

  /** The first loop of `map_built_aur_packages`. */
  method BuildTable(keys: seq<Key>, aur: set<Key>) returns (table: Table)
    ensures forall column, k :: (column in table && table[column] == k) <==> JoinsWith(keys, aur, column, k)
  {
    table := map[];
    for i := 0 to |keys|
      invariant forall column | column in table :: JoinsWith(keys[..i], aur, column, table[column])
      invariant forall j | 0 <= j < i && keys[j] in aur :: NameVer(keys[j]) in table
    {
      var k := keys[i];
      forall column | column in table
        ensures JoinsWith(keys[..i + 1], aur, column, table[column])
      {
        JoinsStill(keys, i, aur, column, table[column]);
      }
      if k in aur && NameVer(k) !in table {
        assert keys[..i + 1][i] == k;
        assert JoinsWith(keys[..i + 1], aur, NameVer(k), k);
        table := table[NameVer(k) := k];
      }
    }
    assert keys[..|keys|] == keys;
    forall column, k | JoinsWith(keys, aur, column, k)
      ensures column in table && table[column] == k
    {
      JoinsWithOne(keys, aur, column, k, table[column]);
    }
  }

  lemma JoinsStill(keys: seq<Key>, i: nat, aur: set<Key>, column: (string, string), k: Key)
    requires i < |keys| && JoinsWith(keys[..i], aur, column, k)
    ensures JoinsWith(keys[..i + 1], aur, column, k)
  {
    var n :| 0 <= n < i && keys[..i][n] == k && k in aur && NameVer(k) == column
             && forall j | 0 <= j < n :: keys[..i][j] in aur ==> NameVer(keys[..i][j]) != column;
    assert keys[..i + 1][n] == k;
    assert forall j | 0 <= j < n :: keys[..i + 1][j] == keys[..i][j];
  }

  /** A file and the key it was built for. */
  ghost predicate MappedTo(keys: seq<Key>, aur: set<Key>, path: string, k: Key) {
    Infer(path).Some? && JoinsWith(keys, aur, (Infer(path).value.name, Infer(path).value.version), k)
  }

  /** As the names in a directory are. */
  ghost predicate Distinct<T>(s: seq<T>) {
    forall i, j | 0 <= i < j < |s| :: s[i] != s[j]
  }

  /** `map_built_aur_packages` */
  method MapBuilt(paths: seq<string>, keys: seq<Key>, aur: set<Key>) returns (mapped: seq<(string, Key)>)
    ensures forall path, k :: (path, k) in mapped <==> path in paths && MappedTo(keys, aur, path, k)
    ensures Distinct(paths) ==> Distinct(mapped)
  {
    var table := BuildTable(keys, aur);
    mapped := [];
    for i := 0 to |paths|
      invariant forall path, k :: (path, k) in mapped <==> path in paths[..i] && MappedTo(keys, aur, path, k)
      invariant Distinct(paths) ==> Distinct(mapped)
    {
      assert paths[..i + 1] == paths[..i] + [paths[i]];
      var artifact := Infer(paths[i]);
      if artifact.Some? && (artifact.value.name, artifact.value.version) in table {
        var k := table[(artifact.value.name, artifact.value.version)];
        assert MappedTo(keys, aur, paths[i], k);
        forall other | MappedTo(keys, aur, paths[i], other)
          ensures other == k
        {
          JoinsWithOne(keys, aur, (artifact.value.name, artifact.value.version), k, other);
        }
        mapped := mapped + [(paths[i], k)];
      }
    }
    assert paths[..|paths|] == paths;
  }

  /** What `find_built_package` keeps of a directory listing. */
  predicate IsBuilt(path: string, version: string) {
    Infer(path).Some? && Infer(path).value.version == version
  }

  /** `find_built_package`: an error if and only if there is no such file. */
  method FindBuilt(listing: seq<string>, version: string) returns (r: Result<seq<string>, Failure>)
    ensures r.Ok? <==> exists path :: path in listing && IsBuilt(path, version)
    ensures r.Ok? ==> forall path :: path in r.value <==> path in listing && IsBuilt(path, version)
    ensures r.Ok? && Distinct(listing) ==> Distinct(r.value)
    ensures r.Err? ==> r.error == NothingBuilt
  {
    var built := [];
    for i := 0 to |listing|
      invariant forall path :: path in built <==> path in listing[..i] && IsBuilt(path, version)
      invariant Distinct(listing) ==> Distinct(built)
    {
      assert listing[..i + 1] == listing[..i] + [listing[i]];
      if IsBuilt(listing[i], version) {
        built := built + [listing[i]];
      }
    }
    assert listing[..|listing|] == listing;
    if built == [] {
      return Err(NothingBuilt);
    }
    assert built[0] in built;
    return Ok(built);
  }

  /** The requested key can be served: it is the one its name and version join with, it has the
      version of the whole base, and a file for it lies there. */
  ghost predicate Served(keys: seq<Key>, aur: set<Key>, listing: seq<string>, k: Key)
    requires keys != []
  {
    && JoinsWith(keys, aur, NameVer(k), k) && k.version == keys[0].version
    && exists path :: path in listing && FileOf(path, k)
  }

  ghost predicate FileOf(path: string, k: Key) {
    Infer(path).Some? && (Infer(path).value.name, Infer(path).value.version) == NameVer(k)
  }

  ghost predicate Covers(mapped: seq<(string, Key)>, k: Key) {
    exists path :: (path, k) in mapped
  }

  ghost predicate AllServed(keys: seq<Key>, aur: set<Key>, listing: seq<string>) {
    keys != [] && forall i | 0 <= i < |keys| :: Served(keys, aur, listing, keys[i])
  }

  /** Every requested key has a file, and every file belongs to a requested key. */
  ghost predicate Complete(keys: seq<Key>, aur: set<Key>, listing: seq<string>, mapped: seq<(string, Key)>) {
    && (forall i | 0 <= i < |keys| :: Covers(mapped, keys[i]))
    && (forall path, k | (path, k) in mapped :: path in listing && k in keys && MappedTo(keys, aur, path, k))
  }

  /**
   `find_and_verify_built_packages`. A nonempty answer is complete; after makepkg the call succeeds
   exactly when every requested key is served, before it an empty answer says that not every one is.
   */
  method FindAndVerify(keys: seq<Key>, aur: set<Key>, listing: seq<string>, postMakepkg: bool)
    returns (r: Result<seq<(string, Key)>, Failure>)
    ensures keys == [] ==> r == Err(NoVersion)
    ensures r.Ok? && r.value != [] ==> Complete(keys, aur, listing, r.value)
    ensures r.Ok? && Distinct(listing) ==> Distinct(r.value)
    ensures keys != [] && postMakepkg ==> (r.Ok? <==> AllServed(keys, aur, listing)) && (r.Ok? ==> r.value != [])
    ensures keys != [] && !postMakepkg ==> r.Ok? && (r.value != [] <==> AllServed(keys, aur, listing))
    ensures keys != [] && r.Err? ==>
              r.error == if exists path :: path in listing && IsBuilt(path, keys[0].version) then MissingPackages
                         else NothingBuilt
  {
    hide Infer, Served, MappedTo;
    if keys == [] {
      return Err(NoVersion);
    }
    var version := keys[0].version;
    var found := FindBuilt(listing, version);
    if found.Err? {
      NoneServed(keys, aur, listing);
      return if postMakepkg then Err(found.error) else Ok([]);
    }
    var built := found.value;
    var mapped := MapBuilt(built, keys, aur);
    forall i | 0 <= i < |keys|
      ensures Covers(mapped, keys[i]) <==> Served(keys, aur, listing, keys[i])
    {
      FoundIffServed(keys, aur, listing, built, mapped, keys[i]);
    }
    var missing := false;
    for i := 0 to |keys|
      invariant missing <==> exists j | 0 <= j < i :: !Served(keys, aur, listing, keys[j])
    {
      var present := Finds(mapped, keys[i]);
      if !present {
        missing := true;
      }
    }
    if missing {
      return if postMakepkg then Err(MissingPackages) else Ok([]);
    }
    IsComplete(keys, aur, listing, built, mapped);
    return Ok(mapped);
  }

  lemma IsComplete(keys: seq<Key>, aur: set<Key>, listing: seq<string>, built: seq<string>, mapped: seq<(string, Key)>)
    requires keys != [] && forall i | 0 <= i < |keys| :: Covers(mapped, keys[i])
    requires forall path | path in built :: path in listing
    requires forall path, j :: (path, j) in mapped <==> path in built && MappedTo(keys, aur, path, j)
    ensures Complete(keys, aur, listing, mapped) && mapped != []
  {
    hide Infer;
    assert Covers(mapped, keys[0]);
  }

  method Finds(mapped: seq<(string, Key)>, k: Key) returns (found: bool)
    ensures found <==> Covers(mapped, k)
  {
    found := false;
    for i := 0 to |mapped|
      invariant found <==> exists path :: (path, k) in mapped[..i]
    {
      assert mapped[..i + 1] == mapped[..i] + [mapped[i]];
      if mapped[i].1 == k {
        assert (mapped[i].0, k) in mapped[..i + 1];
        found := true;
      }
    }
    assert mapped[..|mapped|] == mapped;
  }

  lemma NoneServed(keys: seq<Key>, aur: set<Key>, listing: seq<string>)
    requires keys != [] && forall path :: path in listing ==> !IsBuilt(path, keys[0].version)
    ensures !AllServed(keys, aur, listing)
  {
    forall path | path in listing
      ensures !FileOf(path, keys[0])
    {
      assert !IsBuilt(path, keys[0].version);
    }
    assert !Served(keys, aur, listing, keys[0]);
  }

  lemma FoundIffServed(keys: seq<Key>, aur: set<Key>, listing: seq<string>, built: seq<string>,
                       mapped: seq<(string, Key)>, k: Key)
    requires keys != []
    requires forall path :: path in built <==> path in listing && IsBuilt(path, keys[0].version)
    requires forall path, j :: (path, j) in mapped <==> path in built && MappedTo(keys, aur, path, j)
    ensures Covers(mapped, k) <==> Served(keys, aur, listing, k)
  {
    hide Infer;
    if path :| (path, k) in mapped {
      assert path in built && MappedTo(keys, aur, path, k);
      assert FileOf(path, k);
    }
    if Served(keys, aur, listing, k) {
      var path :| path in listing && FileOf(path, k);
      assert IsBuilt(path, keys[0].version);
      assert MappedTo(keys, aur, path, k);
    }
  }

  lemma ServedRelease(keys: seq<Key>, aur: set<Key>, listing: seq<string>, k: Key, pkgver: string, pkgrel: string)
    requires keys != [] && Served(keys, aur, listing, k) && k.version == pkgver + "-" + pkgrel && '-' !in pkgrel
    ensures AllDigits(pkgrel)
  {
    hide Infer, AllDigits;
    var path :| path in listing && FileOf(path, k);
    InferredRelease(path, pkgver, pkgrel);
  }

  /** A package whose release is not all digits is never found, whatever files are there: after
      its build `FindAndVerify` fails. */
  lemma DottedReleaseUnserved(keys: seq<Key>, aur: set<Key>, listing: seq<string>, i: nat,
                              pkgver: string, pkgrel: string)
    requires i < |keys| && keys[i].version == pkgver + "-" + pkgrel && '-' !in pkgrel && !AllDigits(pkgrel)
    ensures !Served(keys, aur, listing, keys[i]) && !AllServed(keys, aur, listing)
  {
    hide AllDigits, Served;
    if Served(keys, aur, listing, keys[i]) {
      ServedRelease(keys, aur, listing, keys[i], pkgver, pkgrel);
    }
  }

  /** The file that makepkg makes of the package lies there. */
  ghost predicate MadeFile(listing: seq<string>, name: string, pkgver: string, pkgrel: string) {
    exists arch, suffix :: '-' !in arch && (suffix == ZST || suffix == XZ)
                           && FileName(name, pkgver, pkgrel, arch, suffix) in listing
  }

  /** A requested key whose file was made is served if and only if its release is all digits. */
  lemma MadeIsServed(keys: seq<Key>, aur: set<Key>, listing: seq<string>, k: Key, pkgver: string, pkgrel: string)
    requires keys != [] && JoinsWith(keys, aur, NameVer(k), k) && k.version == keys[0].version
    requires k.version == pkgver + "-" + pkgrel && '-' !in pkgver && '-' !in pkgrel && k.name != "" && pkgver != ""
    requires MadeFile(listing, k.name, pkgver, pkgrel)
    ensures Served(keys, aur, listing, k) <==> AllDigits(pkgrel)
  {
    hide Infer, AllDigits, FileName, JoinsWith;
    var arch, suffix :| '-' !in arch && (suffix == ZST || suffix == XZ)
                        && FileName(k.name, pkgver, pkgrel, arch, suffix) in listing;
    var path := FileName(k.name, pkgver, pkgrel, arch, suffix);
    FileNameRoundTrip(k.name, pkgver, pkgrel, arch, suffix);
    if AllDigits(pkgrel) {
      assert FileOf(path, k);
    }
    if Served(keys, aur, listing, k) {
      ServedRelease(keys, aur, listing, k, pkgver, pkgrel);
    }
  }

  /** After makepkg has made a file for every requested package of a base, `FindAndVerify` succeeds
      if and only if the base's release is all digits. */
  lemma MadeBaseIsServed(keys: seq<Key>, aur: set<Key>, listing: seq<string>, pkgver: string, pkgrel: string)
    requires keys != [] && '-' !in pkgver && '-' !in pkgrel && pkgver != ""
    requires forall i | 0 <= i < |keys| ::
               && JoinsWith(keys, aur, NameVer(keys[i]), keys[i]) && keys[i].name != ""
               && keys[i].version == pkgver + "-" + pkgrel && MadeFile(listing, keys[i].name, pkgver, pkgrel)
    ensures AllServed(keys, aur, listing) <==> AllDigits(pkgrel)
  {
    hide Served, AllDigits, MadeFile, JoinsWith;
    forall i | 0 <= i < |keys|
      ensures Served(keys, aur, listing, keys[i]) <==> AllDigits(pkgrel)
    {
      MadeIsServed(keys, aur, listing, keys[i], pkgver, pkgrel);
    }
    assert Served(keys, aur, listing, keys[0]) <==> AllDigits(pkgrel);
  }

  // ---------------------------------------------------------------- the branch that cannot be taken

  /** `update_source_package_info` has a branch for "a split package with a different name". */
  predicate TakesSplitBranch(path: string, original: Key) {
    Infer(path).Some? && Infer(path).value.name != original.name
  }

  /** An artifact is joined on its name, so that branch is never taken for a mapped artifact. */
  lemma SplitBranchIsDead(keys: seq<Key>, aur: set<Key>, path: string, original: Key)
    requires MappedTo(keys, aur, path, original)
    ensures !TakesSplitBranch(path, original)
  {
    hide Infer;
  }
}
