/**
 Which file names of packages the program takes apart, and into what (src/aur.rs), for every name
 and not only for those that makepkg gives (AurArtifacts).
 */
module AurFileNames {
  import opened Wrappers
  import opened AurArtifacts
  import opened AurPlan

  /** The parts of a file name that are read: the last dashes separate pkgver, release and
      architecture; with two dashes only, there is no pkgver and the name has no dash. */
  ghost predicate Parts(filename: string, x: Artifact, pkgver: string, pkgrel: string, suffix: string) {
    && (suffix == ".pkg.tar.zst" || suffix == ".pkg.tar.xz")
    && (forall i | 0 <= i < |pkgrel| :: '0' <= pkgrel[i] <= '9')
    && '-' !in x.arch && '-' !in pkgver && x.version == pkgver + "-" + pkgrel
    && if pkgver == "" then '-' !in x.name && filename == x.name + "-" + pkgrel + "-" + x.arch + suffix
       else x.name != "" && filename == x.name + "-" + pkgver + "-" + pkgrel + "-" + x.arch + suffix
  }

  /** A name is read if and only if it has such parts, and then it is read as these. */
  lemma InferIff(filename: string, x: Artifact)
    ensures Infer(filename) == Some(x) <==> exists pkgver, pkgrel, suffix :: Parts(filename, x, pkgver, pkgrel, suffix)
  {
    hide Infer, Parts;
    if Infer(filename) == Some(x) {
      var pkgver, pkgrel, suffix := TakenApart(filename, x);
    }
    if pkgver, pkgrel, suffix :| Parts(filename, x, pkgver, pkgrel, suffix) {
      PartsAreRead(filename, x, pkgver, pkgrel, suffix);
    }
  }

  lemma PartsAreRead(filename: string, x: Artifact, pkgver: string, pkgrel: string, suffix: string)
    requires Parts(filename, x, pkgver, pkgrel, suffix)
    ensures Infer(filename) == Some(x)
  {
    if pkgver == "" {
      NoVersionIsRead(filename, x, pkgrel, suffix);
    } else {
      hide Infer;
      FileNameRoundTrip(x.name, pkgver, pkgrel, x.arch, suffix);
    }
  }

  lemma NoVersionIsRead(filename: string, x: Artifact, pkgrel: string, suffix: string)
    requires Parts(filename, x, "", pkgrel, suffix)
    ensures Infer(filename) == Some(x)
  {
    hide Infer, LastDash, StripSuffix, SplitFront;
    var front := x.name + "-" + pkgrel;
    SuffixStrips(front + "-" + x.arch);
    assert filename == (front + "-" + x.arch) + suffix;
    InferBase(filename, front, x.arch);
    NoVersionSplits(x.name, pkgrel, x.arch);
    assert "" + "-" + pkgrel == "-" + pkgrel;
  }

  lemma NoVersionSplits(name: string, pkgrel: string, arch: string)
    requires '-' !in name && AllDigits(pkgrel)
    ensures SplitFront(name + "-" + pkgrel, arch) == Some(Artifact(name, "-" + pkgrel, arch))
  {
    hide LastDash;
    LastDashAt(name, pkgrel);
    assert (name + "-" + pkgrel)[|name| + 1..] == pkgrel && (name + "-" + pkgrel)[..|name|] == name;
  }

  lemma CutAtDash(s: string)
    requires LastDash(s).Some?
    ensures var i := LastDash(s).value; s == s[..i] + "-" + s[i + 1..]
  {
  }

  lemma TakenApart(filename: string, x: Artifact) returns (pkgver: string, pkgrel: string, suffix: string)
    requires Infer(filename) == Some(x)
    ensures Parts(filename, x, pkgver, pkgrel, suffix)
  {
    hide LastDash, SplitFront, Parts, StripSuffix;
    suffix := if StripSuffix(filename, ZST).Some? then ZST else XZ;
    var base := StripSuffix(filename, suffix).value;
    SuffixStripped(filename, suffix);
    var last := LastDash(base).value;
    CutAtDash(base);
    pkgver, pkgrel := FrontTakenApart(base[..last], base[last + 1..], x);
    PutTogether(filename, x, pkgver, pkgrel, suffix, base, base[..last]);
  }

  lemma SuffixStripped(filename: string, suffix: string)
    requires StripSuffix(filename, suffix).Some?
    ensures filename == StripSuffix(filename, suffix).value + suffix
  {
  }

  lemma PutTogether(filename: string, x: Artifact, pkgver: string, pkgrel: string, suffix: string, base: string,
                    front: string)
    requires (suffix == ZST || suffix == XZ) && filename == base + suffix && base == front + "-" + x.arch
    requires AllDigits(pkgrel) && '-' !in x.arch && '-' !in pkgver && x.version == pkgver + "-" + pkgrel
    requires if pkgver == "" then '-' !in x.name && front == x.name + "-" + pkgrel
             else x.name != "" && front == x.name + "-" + pkgver + "-" + pkgrel
    ensures Parts(filename, x, pkgver, pkgrel, suffix)
  {
  }

  lemma FrontTakenApart(front: string, arch: string, x: Artifact) returns (pkgver: string, pkgrel: string)
    requires SplitFront(front, arch) == Some(x)
    ensures AllDigits(pkgrel) && '-' !in pkgver && x.version == pkgver + "-" + pkgrel && x.arch == arch
    ensures if pkgver == "" then '-' !in x.name && front == x.name + "-" + pkgrel
            else x.name != "" && front == x.name + "-" + pkgver + "-" + pkgrel
  {
    hide LastDash;
    var middle := LastDash(front).value;
    CutAtDash(front);
    var namever := front[..middle];
    pkgrel := front[middle + 1..];
    var dash := LastDash(namever);
    if dash.None? {
      pkgver := "";
      assert "" + "-" + pkgrel == "-" + pkgrel;
    } else {
      CutAtDash(namever);
      pkgver := namever[dash.value + 1..];
    }
  }

  // ---------------------------------------------------------------- the join, told about file names

  /** A file of the package: its name has the package's name and version, and any architecture. */
  ghost predicate FileFor(path: string, k: Key) {
    exists arch, pkgver, pkgrel, suffix :: Parts(path, Artifact(k.name, k.version, arch), pkgver, pkgrel, suffix)
  }

  lemma FileForIff(path: string, k: Key)
    ensures FileFor(path, k)
            <==> Infer(path).Some? && Infer(path).value.name == k.name && Infer(path).value.version == k.version
  {
    hide Infer, Parts;
    var r := Infer(path);
    if r.Some? && r.value.name == k.name && r.value.version == k.version {
      assert r.value == Artifact(k.name, k.version, r.value.arch);
      InferIff(path, r.value);
    }
    if arch, pkgver, pkgrel, suffix :| Parts(path, Artifact(k.name, k.version, arch), pkgver, pkgrel, suffix) {
      InferIff(path, Artifact(k.name, k.version, arch));
    }
  }

  /** `k` is the first of the requested AUR keys with its name and version. */
  ghost predicate FirstOfItsVersion(keys: seq<Key>, aur: set<Key>, k: Key) {
    exists i :: 0 <= i < |keys| && keys[i] == k && k in aur
                && forall j | 0 <= j < i && keys[j] in aur :: keys[j].name != k.name || keys[j].version != k.version
  }

  lemma JoinsIff(keys: seq<Key>, aur: set<Key>, name: string, version: string, k: Key)
    ensures JoinsWith(keys, aur, (name, version), k)
            <==> FirstOfItsVersion(keys, aur, k) && k.name == name && k.version == version
  {
    assert NameVer(k) == (k.name, k.version);
    forall j | 0 <= j < |keys|
      ensures NameVer(keys[j]) == (keys[j].name, keys[j].version)
    {
    }
  }

  /** A file is mapped to a key if and only if it is one of that package and the key is the first. */
  lemma MappedIff(keys: seq<Key>, aur: set<Key>, path: string, k: Key)
    ensures MappedTo(keys, aur, path, k) <==> FirstOfItsVersion(keys, aur, k) && FileFor(path, k)
  {
    hide Infer, JoinsWith, FileFor, FirstOfItsVersion;
    FileForIff(path, k);
    if Infer(path).Some? {
      JoinsIff(keys, aur, Infer(path).value.name, Infer(path).value.version, k);
    }
  }

  /** So the call after makepkg succeeds if and only if every requested key is the first of its name
      and version, all have one version, and each has a file. */
  lemma AllServedIff(keys: seq<Key>, aur: set<Key>, listing: seq<string>)
    ensures AllServed(keys, aur, listing) <==>
              keys != [] && forall i | 0 <= i < |keys| ::
                && FirstOfItsVersion(keys, aur, keys[i]) && keys[i].version == keys[0].version
                && exists path :: path in listing && FileFor(path, keys[i])
  {
    hide Infer, JoinsWith, FileFor, FirstOfItsVersion;
    forall i | 0 <= i < |keys|
      ensures Served(keys, aur, listing, keys[i])
              <==> FirstOfItsVersion(keys, aur, keys[i]) && keys[i].version == keys[0].version
                   && exists path :: path in listing && FileFor(path, keys[i])
    {
      JoinsIff(keys, aur, keys[i].name, keys[i].version, keys[i]);
      forall path
        ensures FileFor(path, keys[i]) <==> FileOf(path, keys[i])
      {
        FileForIff(path, keys[i]);
      }
    }
  }
}
