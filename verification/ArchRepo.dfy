/**
 Streaming conversion of an Arch repository archive (src/arch_repo.rs). Each package has up to two
 files, `desc` and `files`, in any order; a package is written out and forgotten as soon as both
 are there, and what is left at the end is flushed.

 Writing a package out is an `Emission` here: the package directory, its desc, and its files if any.
 */
module ArchRepo {
  import opened Wrappers
  import opened Substitution

  datatype Half = Desc | Files

  /** A tar entry; the content is absent when it cannot be read and the entry is skipped. */
  datatype Entry = Entry(path: string, content: Option<string>)

  datatype PackageFiles = PackageFiles(desc: Option<string>, files: Option<string>)

  datatype Emission = Emission(pkg: string, desc: string, files: Option<string>)

  /** The package and the half that a path `package/desc` or `package/files` names. */
  function ParsePath(path: string): Option<(string, Half)> {
    var slash := Find(path, "/");
    if slash.None? then None
    else
      var rest := path[slash.value..];
      if rest == "/desc" then Some((path[..slash.value], Desc))
      else if rest == "/files" then Some((path[..slash.value], Files))
      else None
  }

  // ---------------------------------------------------------------- one package by itself

  /** What has been seen of one package and not yet written, and what has been written. */
  datatype Progress = Progress(pending: Option<PackageFiles>, written: seq<Emission>)

  function Add(pending: Option<PackageFiles>, half: Half, content: string): PackageFiles {
    var before := if pending.Some? then pending.value else PackageFiles(None, None);
    if half == Desc then before.(desc := Some(content)) else before.(files := Some(content))
  }

  function Advance(pkg: string, p: Progress, half: Half, content: string): Progress {
    var now := Add(p.pending, half, content);
    if now.desc.Some? && now.files.Some? then
      Progress(None, p.written + [Emission(pkg, now.desc.value, now.files)])
    else Progress(Some(now), p.written)
  }

  /** The entries that concern one package, in order. */
  function Concerning(entries: seq<Entry>, pkg: string): seq<(Half, string)> {
    if entries == [] then []
    else
      var before := Concerning(entries[..|entries| - 1], pkg);
      var e := entries[|entries| - 1];
      var named := ParsePath(e.path);
      if named.Some? && named.value.0 == pkg && e.content.Some?
      then before + [(named.value.1, e.content.value)] else before
  }

  function Alone(pkg: string, items: seq<(Half, string)>): Progress {
    if items == [] then Progress(None, [])
    else
      var last := items[|items| - 1];
      Advance(pkg, Alone(pkg, items[..|items| - 1]), last.0, last.1)
  }

  /** The flush at the end writes a package of which only the desc came. */
  function Flushed(pkg: string, p: Progress): seq<Emission> {
    p.written +
    if p.pending.Some? && p.pending.value.desc.Some?
    then [Emission(pkg, p.pending.value.desc.value, p.pending.value.files)] else []
  }

  // ---------------------------------------------------------------- the program

  function OfPackage(emitted: seq<Emission>, pkg: string): seq<Emission> {
    if emitted == [] then []
    else
      var before := OfPackage(emitted[..|emitted| - 1], pkg);
      var e := emitted[|emitted| - 1];
      if e.pkg == pkg then before + [e] else before
  }

  lemma OfPackageAppend(emitted: seq<Emission>, e: Emission, pkg: string)
    ensures OfPackage(emitted + [e], pkg) == OfPackage(emitted, pkg) + if e.pkg == pkg then [e] else []
  {
    assert (emitted + [e])[..|emitted|] == emitted;
  }

  class Converter {
    var packages: map<string, PackageFiles>
    var emitted: seq<Emission>

    constructor ()
      ensures packages == map[] && emitted == []
    {
      packages, emitted := map[], [];
    }

    /** What the converter knows about one package. */
    function ProgressOf(pkg: string): Progress
      reads this
    {
      Progress(if pkg in packages then Some(packages[pkg]) else None, OfPackage(emitted, pkg))
    }

    /** The body of the loop in `process_tar_entries`. */
    method ProcessEntry(e: Entry)
      modifies this
      ensures forall pkg :: ProgressOf(pkg) ==
                var named := ParsePath(e.path);
                if named.Some? && named.value.0 == pkg && e.content.Some?
                then Advance(pkg, old(ProgressOf(pkg)), named.value.1, e.content.value) else old(ProgressOf(pkg))
    {
      var named := ParsePath(e.path);
      if named.None? || e.content.None? {
        return;
      }
      var (pkg, half) := named.value;
      var files := if pkg in packages then packages[pkg] else PackageFiles(None, None);
      if half == Desc {
        files := files.(desc := e.content);
      } else {
        files := files.(files := e.content);
      }
      packages := packages[pkg := files];
      if files.desc.Some? && files.files.Some? {
        packages := packages - {pkg};
        var emission := Emission(pkg, files.desc.value, files.files);
        forall other
          ensures OfPackage(emitted + [emission], other)
                  == OfPackage(emitted, other) + if pkg == other then [emission] else []
        {
          OfPackageAppend(emitted, emission, other);
        }
        emitted := emitted + [emission];
      }
    }

    /** `process_tar_entries`: the stream treats every package as if it were alone. */
    method ProcessEntries(entries: seq<Entry>)
      requires packages == map[] && emitted == []
      modifies this
      ensures forall pkg :: ProgressOf(pkg) == Alone(pkg, Concerning(entries, pkg))
    {
      assert entries[..0] == [];
      for i := 0 to |entries|
        invariant forall pkg :: ProgressOf(pkg) == Alone(pkg, Concerning(entries[..i], pkg))
      {
        ProcessEntry(entries[i]);
        forall pkg
          ensures ConcerningStep(entries, i, pkg)
        {
          assert entries[..i + 1][..i] == entries[..i];
        }
      }
      assert entries[..|entries|] == entries;
    }

    /** The final loop of `process_packages_content`, over the map in any order. */
    method Flush()
      modifies this
      ensures forall pkg :: OfPackage(emitted, pkg) == Flushed(pkg, old(ProgressOf(pkg)))
    {
      hide OfPackage;
      var todo := packages.Keys;
      while todo != {}
        invariant todo <= packages.Keys && packages == old(packages)
        invariant forall pkg :: OfPackage(emitted, pkg) ==
                    if pkg in todo then OfPackage(old(emitted), pkg) else Flushed(pkg, old(ProgressOf(pkg)))
      {
        var pkg :| pkg in todo;
        todo := todo - {pkg};
        if packages[pkg].desc.Some? {
          var emission := Emission(pkg, packages[pkg].desc.value, packages[pkg].files);
          forall other
            ensures OfPackage(emitted + [emission], other)
                  == OfPackage(emitted, other) + if pkg == other then [emission] else []
          {
            OfPackageAppend(emitted, emission, other);
          }
          emitted := emitted + [emission];
        }
      }
    }

    /** Stream and flush: what is written for a package depends on its own entries alone. */
    method Convert(entries: seq<Entry>)
      requires packages == map[] && emitted == []
      modifies this
      ensures forall pkg :: OfPackage(emitted, pkg) == Flushed(pkg, Alone(pkg, Concerning(entries, pkg)))
      ensures forall pkg | AtMostOnce(Concerning(entries, pkg)) ::
                OfPackage(emitted, pkg) == Batch(pkg, Concerning(entries, pkg))
      ensures forall pkg, i: nat, j: nat | '/' !in pkg && Sole(entries, pkg, Desc, i) && Sole(entries, pkg, Files, j) ::
                OfPackage(emitted, pkg) == [Emission(pkg, entries[i].content.value, entries[j].content)]
    {
      hide OfPackage, Flushed, Alone, Concerning, Batch, Contents, Sole;
      SoleReadable(entries);
      ProcessEntries(entries);
      Flush();
      forall pkg | AtMostOnce(Concerning(entries, pkg))
        ensures OfPackage(emitted, pkg) == Batch(pkg, Concerning(entries, pkg))
      {
        StreamIsBatch(pkg, Concerning(entries, pkg));
      }
      forall pkg | '/' !in pkg
        ensures forall i: nat, j: nat | Sole(entries, pkg, Desc, i) && Sole(entries, pkg, Files, j) ::
                  OfPackage(emitted, pkg) == [Emission(pkg, entries[i].content.value, entries[j].content)]
      {
        WrittenFor(entries, pkg);
      }
    }
  }

  ghost predicate ConcerningStep(entries: seq<Entry>, i: nat, pkg: string)
    requires i < |entries|
  {
    var e := entries[i];
    var named := ParsePath(e.path);
    Concerning(entries[..i + 1], pkg) == Concerning(entries[..i], pkg) +
      if named.Some? && named.value.0 == pkg && e.content.Some? then [(named.value.1, e.content.value)] else []
  }

  // ---------------------------------------------------------------- batch grouping

  function Contents(items: seq<(Half, string)>, half: Half): seq<string> {
    if items == [] then []
    else
      var last := items[|items| - 1];
      Contents(items[..|items| - 1], half) + if last.0 == half then [last.1] else []
  }

  /** What a batch conversion writes for a package with these entries. */
  function Batch(pkg: string, items: seq<(Half, string)>): seq<Emission> {
    var descs, files := Contents(items, Desc), Contents(items, Files);
    if descs == [] then [] else [Emission(pkg, descs[0], if files == [] then None else Some(files[0]))]
  }

  predicate AtMostOnce(items: seq<(Half, string)>) {
    |Contents(items, Desc)| <= 1 && |Contents(items, Files)| <= 1
  }

  /** With at most one desc and one files, in either order and however interleaved with other
      packages: half-seen packages are exactly the pending ones, a package with a desc is written
      once, with its files if there are any, and a package without desc is not written. */
  lemma {:induction false} StreamIsBatch(pkg: string, items: seq<(Half, string)>)
    requires AtMostOnce(items)
    ensures Flushed(pkg, Alone(pkg, items)) == Batch(pkg, items)
    ensures Alone(pkg, items).pending.Some? <==> |Contents(items, Desc)| + |Contents(items, Files)| == 1
    ensures Pending(items, Alone(pkg, items).pending)
    ensures Alone(pkg, items).written == [] <==> Contents(items, Desc) == [] || Contents(items, Files) == []
  {
    if items != [] {
      StreamIsBatch(pkg, items[..|items| - 1]);
    }
  }

  ghost predicate Pending(items: seq<(Half, string)>, pending: Option<PackageFiles>) {
    pending.Some? ==>
      && pending.value.desc == (if Contents(items, Desc) == [] then None else Some(Contents(items, Desc)[0]))
      && pending.value.files == (if Contents(items, Files) == [] then None else Some(Contents(items, Files)[0]))
  }

  // ---------------------------------------------------------------- paths

  lemma PathNames(pkg: string)
    requires '/' !in pkg
    ensures ParsePath(pkg + "/desc") == Some((pkg, Desc)) && ParsePath(pkg + "/files") == Some((pkg, Files))
  {
    hide Find;
    FirstSlash(pkg, "desc");
    FirstSlash(pkg, "files");
    assert "/" + "desc" == "/desc" && "/" + "files" == "/files";
    assert pkg + "/" + "desc" == pkg + "/desc" && pkg + "/" + "files" == pkg + "/files";
    assert "/desc"[1] != "/files"[1];
  }

  lemma FirstSlash(pkg: string, rest: string)
    requires '/' !in pkg
    ensures var path := pkg + "/" + rest;
            Find(path, "/") == Some(|pkg|) && path[..|pkg|] == pkg && path[|pkg|..] == "/" + rest
  {
    var path := pkg + "/" + rest;
    assert path[|pkg|..] == "/" + rest;
    assert OccursAt(path, |pkg|, "/");
    forall i | 0 <= i < |pkg|
      ensures !OccursAt(path, i, "/")
    {
      assert path[i..][0] == pkg[i];
    }
  }

  /** Exactly the desc and the files of a directory at the top are read; every other path is skipped. */
  lemma ParsePathIff(path: string, pkg: string, half: Half)
    ensures ParsePath(path) == Some((pkg, half))
            <==> '/' !in pkg && path == pkg + if half == Desc then "/desc" else "/files"
  {
    if ParsePath(path).Some? {
      var slash := Find(path, "/").value;
      forall i | 0 <= i < slash
        ensures path[i] != '/'
      {
        SlashThere(path, i);
      }
      assert path == path[..slash] + path[slash..];
    }
    if '/' !in pkg {
      PathNames(pkg);
    }
  }

  lemma SlashThere(path: string, i: nat)
    requires i < |path|
    ensures OccursAt(path, i, "/") <==> path[i] == '/'
  {
    assert path[i..][..1] == [path[i]];
  }

  /** A directory and anything deeper are among the skipped. */
  lemma OthersSkipped(a: string, b: string)
    ensures ParsePath(a + "/") == None && ParsePath(a + "/" + b + "/desc") == None
  {
    forall pkg, half
      ensures ParsePath(a + "/") != Some((pkg, half)) && ParsePath(a + "/" + b + "/desc") != Some((pkg, half))
    {
      ParsePathIff(a + "/", pkg, half);
      ParsePathIff(a + "/" + b + "/desc", pkg, half);
      if '/' !in pkg {
        NotAtTop(a, b, pkg);
      }
    }
    NotNamed(a + "/");
    NotNamed(a + "/" + b + "/desc");
  }

  lemma NotNamed(path: string)
    requires forall pkg, half :: ParsePath(path) != Some((pkg, half))
    ensures ParsePath(path) == None
  {
    hide ParsePath;
    NoneOrNamed(ParsePath(path));
  }

  lemma NoneOrNamed(named: Option<(string, Half)>)
    ensures named == None || exists pkg, half :: named == Some((pkg, half))
  {
    match named
    case None =>
    case Some(v) => assert named == Some((v.0, v.1));
  }

  lemma NotAtTop(a: string, b: string, pkg: string)
    requires '/' !in pkg
    ensures a + "/" != pkg + "/desc" && a + "/" != pkg + "/files"
    ensures a + "/" + b + "/desc" != pkg + "/desc" && a + "/" + b + "/desc" != pkg + "/files"
  {
    EndsIn(a, "/");
    EndsIn(pkg, "/desc");
    EndsIn(pkg, "/files");
    EndsIn(a + "/" + b, "/desc");
    assert (a + "/" + b + "/desc")[|a|] == '/';
  }

  lemma EndsIn(a: string, b: string)
    requires b != []
    ensures (a + b)[|a + b| - 1] == b[|b| - 1]
  {
  }

  // ---------------------------------------------------------------- what is written, told about paths

  /** A readable entry at the path of this half of the package. */
  ghost predicate IsPart(e: Entry, pkg: string, half: Half) {
    e.content.Some? && e.path == pkg + if half == Desc then "/desc" else "/files"
  }

  /** Entry `i` is the only one of its kind. */
  ghost predicate Sole(entries: seq<Entry>, pkg: string, half: Half, i: nat) {
    && i < |entries| && IsPart(entries[i], pkg, half)
    && forall k | 0 <= k < |entries| && k != i :: !IsPart(entries[k], pkg, half)
  }

  ghost predicate Lacks(entries: seq<Entry>, pkg: string, half: Half) {
    forall k | 0 <= k < |entries| :: !IsPart(entries[k], pkg, half)
  }

  lemma ContentsStep(entries: seq<Entry>, pkg: string, half: Half)
    requires entries != [] && '/' !in pkg
    ensures var last := entries[|entries| - 1];
            Contents(Concerning(entries, pkg), half)
            == Contents(Concerning(entries[..|entries| - 1], pkg), half)
               + if IsPart(last, pkg, half) then [last.content.value] else []
  {
    hide ParsePath;
    var last, items := entries[|entries| - 1], Concerning(entries[..|entries| - 1], pkg);
    ParsePathIff(last.path, pkg, half);
    var named := ParsePath(last.path);
    if named.Some? && named.value.0 == pkg && last.content.Some? {
      assert named == Some((pkg, named.value.1));
      assert (items + [(named.value.1, last.content.value)])[..|items|] == items;
    }
  }

  lemma {:induction false} ContentsOf(entries: seq<Entry>, pkg: string, half: Half)
    requires '/' !in pkg
    ensures Lacks(entries, pkg, half) ==> Contents(Concerning(entries, pkg), half) == []
    ensures forall i: nat | Sole(entries, pkg, half, i) ::
              Contents(Concerning(entries, pkg), half) == [entries[i].content.value]
    decreases |entries|
  {
    hide Contents, Concerning, IsPart;
    if entries == [] {
      NoContents(pkg, half);
    } else {
      var n := |entries| - 1;
      ContentsOf(entries[..n], pkg, half);
      ContentsStep(entries, pkg, half);
      forall i: nat | Sole(entries, pkg, half, i)
        ensures if i == n then Lacks(entries[..n], pkg, half) else Sole(entries[..n], pkg, half, i)
      {
      }
    }
  }

  lemma NoContents(pkg: string, half: Half)
    ensures Contents(Concerning([], pkg), half) == []
  {
  }

  /** What the program writes for a package: with one desc and one files, both, wherever they stand and
      whatever else there is; with a desc only, the desc; without a desc, nothing. */
  lemma WrittenFor(entries: seq<Entry>, pkg: string)
    requires '/' !in pkg
    ensures var written := Flushed(pkg, Alone(pkg, Concerning(entries, pkg)));
            && (forall i: nat, j: nat | Sole(entries, pkg, Desc, i) && Sole(entries, pkg, Files, j) ::
                  written == [Emission(pkg, entries[i].content.value, entries[j].content)])
            && (forall i: nat | Sole(entries, pkg, Desc, i) && Lacks(entries, pkg, Files) ::
                  written == [Emission(pkg, entries[i].content.value, None)])
            && (Lacks(entries, pkg, Desc) ==> written == [])
  {
    hide Concerning, Alone, Flushed, Contents, Sole, Lacks;
    var items := Concerning(entries, pkg);
    ContentsOf(entries, pkg, Desc);
    ContentsOf(entries, pkg, Files);
    if AtMostOnce(items) {
      StreamIsBatch(pkg, items);
    }
    if Contents(items, Desc) == [] {
      NothingWithoutDesc(pkg, items);
    }
    SoleReadable(entries);
  }

  lemma SoleReadable(entries: seq<Entry>)
    ensures forall pkg, half, i: nat | Sole(entries, pkg, half, i) :: i < |entries| && entries[i].content.Some?
  {
  }

  lemma {:induction false} NothingWithoutDesc(pkg: string, items: seq<(Half, string)>)
    requires Contents(items, Desc) == []
    ensures Flushed(pkg, Alone(pkg, items)) == []
    ensures var pending := Alone(pkg, items).pending; pending.Some? ==> pending.value.desc.None?
    decreases |items|
  {
    if items != [] {
      NothingWithoutDesc(pkg, items[..|items| - 1]);
    }
  }

  lemma PathsDiffer(a: string, b: string)
    ensures a + "/desc" == b + "/desc" <==> a == b
    ensures a + "/desc" != b + "/files" && a + "/" != b + "/desc" && a + "/" != b + "/files"
  {
    EndsIn(a, "/");
    EndsIn(a, "/desc");
    EndsIn(b, "/desc");
    EndsIn(b, "/files");
    assert (a + "/desc")[..|a|] == a && (b + "/desc")[..|b|] == b;
  }

  lemma PartsOfThree(entries: seq<Entry>, pkg: string, other: string)
    requires |entries| == 3 && entries[0].path == pkg + "/"
    requires entries[1].path == pkg + "/desc" && entries[2].path == pkg + "/files"
    requires entries[1].content.Some? && entries[2].content.Some?
    ensures if other == pkg then Sole(entries, pkg, Desc, 1) && Sole(entries, pkg, Files, 2)
            else Lacks(entries, other, Desc)
  {
    PathsDiffer(pkg, other);
    PathsDiffer(other, pkg);
  }

  /** As archives have it, with the directory first. */
  lemma DirectoryDescFiles(pkg: string, desc: string, files: string)
    requires '/' !in pkg
    ensures var entries := [Entry(pkg + "/", Some("")), Entry(pkg + "/desc", Some(desc)),
                            Entry(pkg + "/files", Some(files))];
            && Flushed(pkg, Alone(pkg, Concerning(entries, pkg))) == [Emission(pkg, desc, Some(files))]
            && forall other | '/' !in other && other != pkg ::
                 Flushed(other, Alone(other, Concerning(entries, other))) == []
  {
    hide Flushed, Alone, Concerning, Sole, Lacks;
    var entries := [Entry(pkg + "/", Some("")), Entry(pkg + "/desc", Some(desc)), Entry(pkg + "/files", Some(files))];
    PartsOfThree(entries, pkg, pkg);
    WrittenFor(entries, pkg);
    forall other | '/' !in other && other != pkg
      ensures Flushed(other, Alone(other, Concerning(entries, other))) == []
    {
      PartsOfThree(entries, pkg, other);
      WrittenFor(entries, other);
    }
  }
}
