# epkg: verified models of its hard parts

epkg installs packages of many distributions. This project models, in Dafny, the parts of it that
hold real algorithms or persistent state, and proves what they promise. Nothing here runs epkg.

| files | what they model |
|---|---|
| DependencyDepth, DepthCandidates, DepthLoop, DepthLimit | the dependency depth of every package: level-by-level peeling of the reverse dependency graph with breaking of cycles, which package is broken out, the loop that computes it on 16-bit depths, and how many packages 16 bits allow |
| Exposure | the worklist that exposes the dependencies of requested meta-packages |
| Substitution, PassesInTurn, Bytes | leftmost simultaneous substitution and its theory, shared by the three rewriters |
| CondaLink | relocation of C-strings in binaries and of text files in conda packages |
| BrewText, BrewElf, BrewElfTwice, BrewElfPaths, BrewMeaning | placeholder substitution in Homebrew text files, and in-place rewriting of ELF interpreters and run paths, also when run paths share bytes |
| AurPlan, AurRenaming, AurRounds, AurRebuilt, AurPkglines | updating and re-keying an installation plan after AUR builds, over several rounds |
| AurArtifacts, AurFileNames, PkgbuildSearch | the join of built files with planned keys, and the bounded search for a PKGBUILD |
| UnincorpFormat, UnincorpLines, LooseEntry, DeferredTriggers, TriggerMaps | the deferred-trigger file of dpkg, what an ill-formed entry does to it, its two-phase processing, and the plan's trigger maps |
| ArchRepo | the streaming join of `desc` and `files` entries |
| RepoIndex, RepoLines | byte-offset indices over generated package lists |

How to read it. Loops of the program are methods proved against functions or relations; lemmas say
what these promise. Where the program's result depends on the order of a hash map or on ties, the
model makes an arbitrary choice and the theorems hold for every choice. Integers are unbounded
except for the 16-bit depths, which wrap as release builds do. Searching for a first occurrence is
the contract of the memchr crate.

Main results.

* Depths. On every input the loop ends, gives each package one depth, uses the levels 0 to the
  maximum without a gap, and never reaches its last resort. When the reverse map is the inverse of
  the graph (which it is when built by the program), a package is one level below its deepest
  dependent unless it was broken out of a cycle; a break happens only when all waiting packages are
  on or after cycles of waiting packages; a package not reached from a cycle gets exactly the length
  of the longest chain of dependents above it, whatever was broken. Of two packages that depend on
  each other a library goes first, or else the only one requested, and otherwise either may. Stored
  depths are exact for up to 65536 packages, and 65537 are too many.
* Relocation. The in-place C-string loop equals: split at NULs, substitute in each chunk, cut or pad
  to the old length, join. The file keeps its layout, and a string is readable in full exactly when
  it did not grow. The one-pass text rewrite leaves no placeholder. Substituting two or three groups
  of rules in one pass equals substituting one group after the other if and only if no scan meets a
  match that an earlier group tears; for the program's three placeholders this is exact. The ELF
  rewrite keeps lengths, always fits its run paths, touches nothing else, and is idempotent, however
  run-path strings overlap; every entry reads its own path with placeholders replaced if and only if
  overlapping paths end alike when replaced, as they do unless a placeholder straddles the start of
  the shorter one; the interpreter is replaced if and only if it or a run path has a placeholder, or a
  run path the short prefix.
* Re-keying. A round renames the plan's package graph isomorphically if every built package is
  listed in an operation, and an unlisted one keeps its old key; rounds compose to the accumulated
  mapping. After all rounds the plan is the original one under that mapping, and each built package
  has the key and the architecture of its build; its pkgline is that of the build if and only if the
  planned key does not stand in it or is written like the new one. An entry of the map handed back names
  post-build keys only if and only if its planned entry mentions no key that a later round renames.
  A built file is found for its package if and only if the release is all digits; which file names are
  read, and as what, is exact for every name.
* Triggers. Exactly the well-formed maps survive writing and reading, in every order of the writer;
  over every run no activation made between phases is lost, and none is invented; what a hook
  activates while a phase runs survives if and only if a hook fails or the same activation was
  pending and not due; the two phases in a row empty the file. An
  ill-formed activation leaves the other triggers alone, in every order of the writer, if and only if
  its line says nothing else about them.
* Streaming, search and indices as described in the table below.

Where code and comments disagree the model follows the code. The comments at
src/brew_pkg.rs:1981-1991 give 18 and 22 characters for the short prefix and the placeholder; all
three ELF strings have exactly 19. The comment at src/conda_link.rs:624-628 speaks of padding only;
longer strings are cut. The comment at src/depends.rs:1177-1182 lists a last resort when no candidate is left; it
is unreachable. The comment at src/aur.rs:1243 lists plan fields that the function does not touch. The comment at
src/aur.rs:666-667 says that newly built packages end up with post-build keys; the entries handed back do so
only under the condition above, the plan's entries always. The comment at src/aur.rs:1427-1428 takes a
release to be numeric, while makepkg also builds releases like `1.1`.

## Model

| member | source | states |
|---|---|---|
| DependencyDepth.AdvanceRestricted | src/depends.rs:1081-1112 | if the initial reverse map is the inverse of depends and bdepends, taking packages out keeps it that inverse restricted to the packages left |
| DependencyDepth.NextLayered | src/depends.rs:1286-1339 | every iteration, on any input, keeps: each package waits or has one depth, all lower levels are taken; and it takes something out |
| DependencyDepth.NextFaithful | src/depends.rs:1286-1339 | every iteration keeps the whole invariant about peeled, waiting and broken packages |
| DependencyDepth.RunFaithful | src/depends.rs:1252-1343 | the invariant holds in every state of every run, whatever cycle candidate is chosen |
| DependencyDepth.CandidateExists | src/depends.rs:1297-1319 | where nothing can be peeled a cycle candidate exists, so the last resort is unreachable |
| DependencyDepth.BreakMeansCycle | src/depends.rs:1137-1165 | when nothing can be peeled every waiting package is on or after a dependency cycle of waiting packages |
| DependencyDepth.DepthsAreLevels | src/depends.rs:1286-1339 | on every input each package gets one depth, below the number of packages, with no level skipped |
| DependencyDepth.DependencyIsDeeper | src/depends.rs:1252-1343 | a dependency is strictly deeper than its dependent unless it was itself broken out, and then it is reached from a cycle |
| DependencyDepth.DepthIsLongestChain | src/depends.rs:1252-1343 | a package not reached from a cycle gets exactly the length of the longest chain of dependents above it |
| DependencyDepth.AcyclicIsDeterministic | src/depends.rs:1252-1343 | without cycles nothing is broken and any two runs give the same depths |
| DepthCandidates.LibIff | src/depends.rs:1061-1074 | a package counts as a library if and only if "lib" stands anywhere in its key |
| DepthCandidates.WeightMeans | src/depends.rs:1058-1077 | a package weighs ten for each dependent with "lib" in its key and one for each other, doubled when its own key has "lib", and halved when it was requested |
| DepthCandidates.CycleOfTwo | src/depends.rs:1137-1165 | two packages that depend on each other get depths 0 and 1 in every run; the only library of the two goes first, else the only one requested |
| DepthCandidates.EitherMayGoFirst | src/depends.rs:1076-1078 | and any package that does not have to wait by that rule goes first in some run |
| DepthCandidates.LibraryGoesFirst | src/depends.rs:1061-1074 | whatever was requested, the one with "lib" in its key gets depth 0 and the one without gets 1 |
| DepthLoop.DepthTable.RemoveNode | src/depends.rs:1081-1112 | records the depth, drops the node and strikes it from exactly the reverse sets of what it depends on |
| DepthLoop.DepthTable.ProcessLeaves | src/depends.rs:1115-1134 | removing the leaves one by one is removing them together |
| DepthLoop.DepthTable.FindLeaves | src/depends.rs:1042-1050 | exactly the packages with no remaining reverse dependency |
| DepthLoop.DepthTable.WeightOf | src/depends.rs:1061-1074 | ten per "lib" dependent and one per other, doubled for a "lib" package, halved for a requested one, as DepthCandidates.WeightMeans spells out |
| DepthLoop.DepthTable.FindCandidate | src/depends.rs:1053-1078 | some package of least weight among those with dependents, none only when there is none |
| DepthLoop.DepthTable.BreakCycle | src/depends.rs:1137-1165 | removes one least-weighted candidate, and does nothing exactly when no package has dependents |
| DepthLoop.DepthTable.Iterate | src/depends.rs:1290-1339 | one loop body is one step of the specification |
| DepthLoop.CalculateDepths | src/depends.rs:1252-1343 | the loop performs a finished run of the specification and returns its depths modulo 2^16, exact for up to 65536 packages |
| DepthLoop.WithoutOneMore | src/depends.rs:1115-1134 | order of removal within a level does not matter |
| DepthLoop.BuildDependencyGraph | src/depends.rs:938-993 | one entry per resolved package with exactly the dependencies found for it, and the reverse map says the same read the other way |
| DepthLoop.CombineReverse | src/depends.rs:1226-1250 | union of both reverse maps, with an entry for every package |
| DepthLoop.CombinedIsInverse | src/depends.rs:1226-1250 | for graphs that stay within the plan the loop starts from the inverse of the graph, over exactly the plan's packages |
| DepthLoop.CalculatePkgkeyToDepth | src/depends.rs:1345-1365 | combine, then run the loop |
| DepthLoop.DepthsOfSolvables | src/depends.rs:892-916 | from dependency lists to depths: every package gets one; a package's dependents are exactly those that list it, and off cycles its depth is the longest chain of dependents |
| DepthLimit.ChainDepth | src/depends.rs:1252-1343 | in a chain of n packages the i-th has depth i |
| DepthLimit.OneTooMany | src/depends.rs:1097-1098 | for every n above 65536 there are n packages for which the stored 16-bit depth is wrong |
| Exposure.AllDependencies | src/depends.rs:268-287 | the worklist ends on cyclic graphs with exactly what one or more depends edges reach, the least set that has the root's dependencies and is closed under depends |
| Exposure.MetaPackageExposures | src/depends.rs:237-303 | a package that was not requested is listed once for every requested meta-package reaching it; nothing else is listed |
| Substitution.Find | src/conda_link.rs:588 | the contract of memmem: first occurrence, or none anywhere |
| Substitution.SubstituteAt | src/brew_pkg.rs:1731-1737 | before the first match everything is copied, there the first listed rule is applied |
| Substitution.SubstituteNothing | src/brew_pkg.rs:1706-1713 | a text without any pattern is left alone |
| Substitution.SubstituteClears | src/brew_pkg.rs:1717-1743 | a fenced pattern that is replaced, or was absent, is absent from the result |
| Substitution.SubstituteSplits | src/brew_pkg.rs:1717-1743 | substituting two groups of rules in one pass is substituting them one after the other if and only if no rule of the first group starts inside a match of the second that the scan applies |
| Substitution.EarlierFirstUntorn | src/brew_pkg.rs:1699-1743 | that is so when no earlier listed pattern starts inside a later listed one, in particular when no two occurrences overlap |
| Substitution.SubstituteSameLength | src/brew_pkg.rs:1993-2000 | replacements of equal length keep the length of the text |
| CondaLink.SplitJoin | src/conda_link.rs:570-644 | the reference decomposition at NULs loses nothing and leaves no NUL in a chunk |
| CondaLink.CopyReplaceCString | src/conda_link.rs:570-644 | output length is input length; for a NUL-free placeholder the output is the chunk-wise relocation |
| CondaLink.ReplaceInString | src/conda_link.rs:605-614 | within one C-string every leftmost non-overlapping placeholder is replaced |
| CondaLink.WriteFitted | src/conda_link.rs:616-636 | the replaced string is cut or NUL-padded to the old length |
| CondaLink.RelocateStep | src/conda_link.rs:587-639 | rewriting from the first placeholder to the end of its C-string and going on there is the chunk-wise relocation |
| CondaLink.RelocateNothing | src/conda_link.rs:640-646 | a file without the placeholder is copied |
| CondaLink.CopyReplaceText | src/conda_link.rs:512-566 | the file becomes its rewritten shebang line and the rest with every placeholder replaced (ShebangLine, NoShebangLine); an empty placeholder is found at every position and at the end |
| CondaLink.ShebangLine | src/conda_link.rs:532-545 | a first line starting with `#!` is converted without its newline, and the placeholder is replaced in all that follows, from the newline on |
| CondaLink.NoShebangLine | src/conda_link.rs:532-545 | a file that does not start so has it replaced throughout |
| CondaLink.ReplaceFound | src/conda_link.rs:548-563 | the match loop with its trailing copy is leftmost substitution, and for an empty placeholder insertion around every byte |
| CondaLink.RelocateKeepsLayout | src/conda_link.rs:568-569 | file length and every original NUL position are preserved |
| CondaLink.RelocateLocal | src/conda_link.rs:570-644 | each string is relocated at its own offset, whatever precedes it |
| CondaLink.RelocatedString | src/conda_link.rs:616-636 | a reader sees the whole replaced string exactly when it is no longer than the original, and otherwise its beginning |
| CondaLink.ShorterPrefixFits | src/conda_link.rs:626-630 | with a target prefix no longer than the placeholder every string is replaced in full |
| BrewText.NextMatchIsFirst | src/brew_pkg.rs:1723-1729 | the next match is the earliest one, the first listed on a tie |
| BrewText.ReplacePlaceholders | src/brew_pkg.rs:1691-1749 | the scanning loop is the leftmost simultaneous substitution of the three placeholders |
| BrewText.NoPlaceholderLeft | src/brew_pkg.rs:1684-1686 | no placeholder is left when the prefix has a slash and no "@" |
| BrewText.RewriteTwice | src/brew_pkg.rs:1706-1713 | a second rewrite, even for another prefix, changes nothing |
| PassesInTurn.InTurnSplits | src/brew_pkg.rs:1717-1743 | one pass over three groups of rules equals three passes in turn if and only if the scan meets no match torn by the first group, and the scan of what the first pass leaves none torn by the second |
| PassesInTurn.TornDiffersInTurn | src/brew_pkg.rs:1717-1743 | a match torn by the first group makes the two ways differ, whatever the later groups do |
| BrewText.OnePassIsOneByOne | src/brew_pkg.rs:1699-1743 | the pass equals replacing the placeholders one after another if and only if no PREFIX starts inside another placeholder that the scan replaces, and, with the PREFIXes gone, no CELLAR inside a LIBRARY that the scan replaces |
| BrewText.EarlierFirstAgrees | src/brew_pkg.rs:1699-1743 | in particular on files where no earlier listed placeholder starts inside a later listed one |
| BrewText.TornPlaceholder | src/brew_pkg.rs:1699-1743 | on `@@HOMEBREW_CELLAR@@HOMEBREW_PREFIX@@` the two differ, for every prefix |
| BrewText.TornOneByOne | src/brew_pkg.rs:1699-1713 | there, one by one keeps the beginning of the CELLAR and replaces the PREFIX |
| BrewMeaning.PlaceholderBecomes | src/brew_pkg.rs:1691-1704 | the first placeholder of a file becomes the prefix, or the prefix with `/Cellar` for CELLAR and for LIBRARY, and what follows is rewritten likewise |
| BrewElf.ReadString | src/brew_pkg.rs:2102-2109 | a string is read exactly when a terminator follows, and it is the bytes up to it |
| BrewElf.ReadsIsRead | src/brew_pkg.rs:2090-2109 | reading and the maximum length agree: string and terminator |
| BrewElf.ShortPathFits | src/brew_pkg.rs:1993-2000 | a run path with its placeholders replaced has exactly the old length and no placeholder |
| BrewMeaning.PathBecomes | src/brew_pkg.rs:1993-2000 | in a run path both CELLAR and PREFIX become the short prefix |
| BrewElf.ModifyString | src/brew_pkg.rs:1967-1979 | the slot holds the string and zeros, nothing else changes; a string that does not fit changes nothing |
| BrewElf.PatchSlot | src/brew_pkg.rs:1931-1938 | writing a run path, after any others, is in bounds, fits, reads back, and moves no terminator |
| BrewElf.RpathSlots | src/brew_pkg.rs:2049-2060 | each run-path slot is exactly as large as its string |
| BrewElf.RewriteElf | src/brew_pkg.rs:1869-1947 | the in-place program computes the specified image, provided the interpreter slot lies inside the file when it is written; all run-path writes are in bounds |
| BrewElfPaths.RpathsRewritten | src/brew_pkg.rs:1930-1940 | afterwards every entry reads its path with placeholders replaced, and unterminated ones stay unreadable, if and only if the new paths of entries that share bytes end alike |
| BrewElfPaths.UnstraddledAgrees | src/brew_pkg.rs:1993-2000 | they end alike when no placeholder of the longer straddles the start of the shorter |
| BrewElfPaths.StraddledEntry | src/brew_pkg.rs:1930-1940 | an entry pointing into another's placeholder: one of the two does not read its path with placeholders replaced |
| BrewElfTwice.InterpRewritten | src/brew_pkg.rs:1915-1927 | when the loader is needed and fits, the image names it |
| BrewMeaning.NeededIff | src/brew_pkg.rs:1893-1912 | the Homebrew loader is needed exactly when the interpreter or a readable run path has a placeholder, or a run path has the short prefix |
| BrewMeaning.InterpreterIff | src/brew_pkg.rs:1893-1927 | an image with another interpreter and room for the new one names it afterwards if and only if the loader is needed; otherwise nothing is written |
| BrewElfTwice.RestUntouched | src/brew_pkg.rs:1869-1947 | no byte outside the interpreter segment and the run-path strings changes |
| BrewElfTwice.RewriteImageTwice | src/brew_pkg.rs:1893-1940 | rewriting an image twice is rewriting it once, however run-path strings overlap, as long as they keep clear of the interpreter segment |
| BrewElfTwice.EntryIsClean | src/brew_pkg.rs:1930-1940 | afterwards no run-path entry reads a placeholder, also where entries share bytes and are written in any order |
| BrewElfTwice.KillPosition | src/brew_pkg.rs:1993-2000 | every placeholder has a mark that no run path written over it keeps |
| BrewElfTwice.RpathsOnTheWay | src/brew_pkg.rs:1930-1940 | after all writes each byte is the original one or one of a new path, terminators are where they were, and no `@`-word is new |
| AurPlan.Plan.UnpackLinkBuilt | src/aur.rs:869-893 | a round's mapping, its built packages, and the pkgline and architecture that their entries get |
| AurPlan.Plan.FixupPlanKeys | src/aur.rs:1244-1271 | operations get renamed, and the package map moves entry by entry in operation order; what a moved pkgline becomes is in AurPkglines.PkglineMoved and PkglineKept |
| AurPlan.MoveEntriesMoves | src/aur.rs:1249-1268 | no entry is lost; exactly the built packages listed in operations move, each to its own key |
| AurPkglines.KeyTextIs | src/package.rs:32-72 | a key is written as name, version and architecture with two underscores between, each colon of the version as a number sign |
| AurPkglines.PkglineKept | src/aur.rs:1258-1262 | a pkgline without the old key's text is left alone when its entry moves |
| AurPkglines.PkglineMoved | src/aur.rs:1258-1262 | the first occurrence of the old key's text becomes the new key's, and the ones behind it likewise |
| AurPkglines.PkglineOnce | src/aur.rs:1258-1262 | with a single occurrence the new key takes its place |
| AurPkglines.PkglineKeptIff | src/aur.rs:1258-1262 | the pkgline stays the same if and only if the old key's text is not in it, or both keys are written alike |
| AurPlan.FixupPackageValues | src/aur.rs:1282-1336 | every entry's four dependency sets are renamed and its architecture follows its key |
| AurPkglines.FixRenames | src/aur.rs:1282-1336 | a fixed entry keeps its pkgline, has its four sets renamed key by key, and has the machine's architecture if it had that, else its key's |
| AurPlan.Plan.PostinstallRound | src/aur.rs:1192-1233 | one round: the plan's keys, the accumulated mapping, the values of the packages built in the round and of the plan, and the batch keys |
| AurRenaming.RoundRenames | src/aur.rs:1244-1336 | a round renames the package map when every built package of the map is listed in an operation |
| AurRenaming.MovedIffListed | src/aur.rs:1249-1268 | a built package stands under its new key exactly when some operation lists it |
| AurRenaming.RenamingIsIsomorphism | src/aur.rs:1282-1336 | after renaming, the four dependency relations have exactly the renamed edges |
| AurRenaming.RenamingKeepsMirror | src/aur.rs:1282-1336 | mutually inverse dependency sets stay mutually inverse |
| AurRenaming.RenamedTwice | src/aur.rs:1199-1226 | two rounds rename the plan as their union does |
| AurRenaming.RoundsRename | src/aur.rs:699-731 | any number of rounds renames the plan by the accumulated mapping |
| AurRenaming.OnceIsEveryRound | src/aur.rs:733-746 | fixing skipped reinstalls once with the accumulated mapping equals fixing them every round |
| AurRounds.RoundIsFresh | src/aur.rs:1199-1206 | when all rounds together bring fresh keys, each round's are fresh to the plan it meets |
| AurRounds.RoundIsListed | src/aur.rs:1248-1254 | operations renamed by earlier rounds still list what a later round built |
| AurRounds.RekeyInRounds | src/aur.rs:672-749 | on any builds, the loop performs the specified run of rounds: plan, accumulated mapping, the packages handed back, each round's fixed with its own mapping, and the skipped reinstalls fixed once |
| AurRebuilt.PlanIsRebuilt | src/aur.rs:672-749 | after all rounds operations and package map are the original ones renamed by the accumulated mapping, with no entry lost or added, and built packages have the key and architecture of their build and its pkgline with the key in it renamed |
| AurPkglines.EntryIsRebuilt | src/aur.rs:672-749 | every planned package afterwards: its sets renamed; built, it has the key and architecture of its build, and that pkgline if and only if the planned key's text is not in it or is unchanged; not built, it has its planned key, pkgline and architecture |
| AurPkglines.OperationsAreRebuilt | src/aur.rs:1248-1254 | in the operations new keys are renamed and old keys stay |
| AurPkglines.ForeignBase | src/aur.rs:714-729 | a base that built nothing of the plan changes neither the plan nor the mapping nor what is handed back |
| AurRebuilt.PlanIsUpToDate | src/aur.rs:666-667 | afterwards every entry of the plan names post-build keys only |
| AurRebuilt.CompletedBy | src/aur.rs:727-728 | an entry handed back is that of the last round that built it |
| AurRebuilt.CompletedIsUpToDate | src/aur.rs:1211-1217 | an entry fixed in one of several rounds names post-build keys only if and only if no other round renamed a key that it mentioned |
| AurRebuilt.HandedBackIsUpToDate | src/aur.rs:666-667 | an entry of the map handed back names post-build keys only if and only if the round that built it renamed every renamed key that the built entry mentioned |
| AurRebuilt.HandedBackIff | src/aur.rs:666-728 | every built package of the plan is handed back, and its entry names post-build keys only if and only if its planned entry mentions no key that a later round renames |
| AurPkglines.HandedBackEntry | src/aur.rs:711-729 | the entry handed back for a built package has the pkgline and architecture of its build, and its sets renamed by the rounds up to its own |
| AurRebuilt.BuiltBeforeItsDependency | src/aur.rs:727-728 | a package built before its dependency is handed back with the dependency's old key |
| AurArtifacts.FileNameRoundTrip | src/aur.rs:1406-1471 | a file name of makepkg ending in .zst or .xz is taken apart into name, version and architecture again if and only if its release is all digits |
| AurArtifacts.DottedRelease | src/aur.rs:1444-1449 | a file with release 1.1 is not read |
| AurArtifacts.InferredRelease | src/aur.rs:1431-1471 | whatever a file is called, the release of an inferred version is all digits |
| AurFileNames.InferIff | src/aur.rs:1406-1471 | a name is read as given name, version and architecture if and only if it consists of these, an all-digit release and one of the two suffixes, cut at the last dashes |
| AurArtifacts.DottedReleaseUnserved | src/aur.rs:525-581 | a key whose release is not all digits is never served, whatever files are there, so the call after makepkg fails |
| AurArtifacts.MadeIsServed | src/aur.rs:525-581 | a requested key whose file makepkg made is served if and only if its release is all digits |
| AurArtifacts.MadeBaseIsServed | src/aur.rs:525-581 | with a file for every requested package of a base, the call after makepkg succeeds if and only if the release is all digits |
| AurArtifacts.BuildTable | src/aur.rs:1114-1125 | a name and version are joined with the first requested AUR key that has them |
| AurArtifacts.MapBuilt | src/aur.rs:1104-1141 | exactly the files whose name and version are joined are mapped, each once |
| AurFileNames.MappedIff | src/aur.rs:1104-1141 | a file is mapped to a key if and only if its name has the key's name and version and the key is the first requested AUR key with them |
| AurArtifacts.FindBuilt | src/aur.rs:1367-1397 | exactly the package files of the wanted version in a directory, each once; an error if and only if there is none |
| AurArtifacts.FindAndVerify | src/aur.rs:525-581 | a nonempty answer covers every requested key; it is given exactly when every key is joined, has the base's version and has a file; the error says whether nothing of that version was there or something was missing |
| AurFileNames.AllServedIff | src/aur.rs:525-581 | that is so if and only if all requested keys are AUR keys of one version, each the first with its name, and each has a file whose name has its name and version |
| AurArtifacts.SplitBranchIsDead | src/aur.rs:996-1023 | the branch for a split package with another name is never taken for a mapped artifact |
| PkgbuildSearch.FindPkgbuild | src/aur.rs:1339-1363 | a PKGBUILD of least depth within three levels, on graphs with cycles too; not found only when there is none and all directories above the third level can be listed; a read error only at a directory with no PKGBUILD above it |
| PkgbuildSearch.PushSubdirs | src/aur.rs:1353-1359 | queued depths never fall and span at most two levels |
| PkgbuildSearch.StepCovers | src/aur.rs:1343-1360 | every descent to a PKGBUILD or to an unreadable directory still passes through the queue |
| UnincorpFormat.ReadUnincorp | src/deb_triggers.rs:195-210 | the reading loop computes the parse of the file's lines |
| UnincorpFormat.WriteUnincorp | src/deb_triggers.rs:216-236 | the writer produces the rendering of some walk of the map, and what can be written is read back |
| UnincorpFormat.WrittenReadsBack | src/deb_triggers.rs:188-236 | for every walk the nonempty entries with writable names and packages are read back |
| UnincorpFormat.ParsedIsGood | src/deb_triggers.rs:198-208 | whatever a file holds, names and packages read from it can be written |
| UnincorpFormat.RoundTrip | src/deb_triggers.rs:188-236 | reading gives the map back if and only if names and packages are words, no name starts a comment, and no list is empty |
| UnincorpLines.WrittenLine | src/deb_triggers.rs:216-236 | a trigger is written with its packages on one line, separated by blanks; one without packages is not written |
| UnincorpLines.SkippedLines | src/deb_triggers.rs:195-201 | a line starting with a number sign and an empty line add nothing |
| UnincorpLines.TabbedLine | src/deb_triggers.rs:198-208 | tabs separate too, and blanks, tabs and a carriage return around a line do not matter |
| LooseEntry.LooseReadsBack | src/deb_triggers.rs:188-236 | with one ill-formed entry the file is read as the entries before it, overridden by what its line says, overridden by the entries after it |
| LooseEntry.KeptInOrder | src/deb_triggers.rs:195-236 | another trigger stays as it was if and only if that line says nothing else about it or its own line comes later |
| LooseEntry.KeptInEveryOrder | src/deb_triggers.rs:195-236 | all other triggers stay as they were in every order of the writer if and only if the line is harmless |
| LooseEntry.LooseAwaiter | src/deb_triggers.rs:198-208 | an awaiter without newline is recorded as the words it consists of |
| DeferredTriggers.SeparateTriggers | src/deb_triggers.rs:553-583 | noawait and await triggers are told apart; any other phase is an error |
| DeferredTriggers.TriggerStore.RunHooks | src/deb_triggers.rs:627-647 | succeeds exactly when no hook of the batch fails; the file has every activation made by the hooks that ran |
| DeferredTriggers.TriggerStore.Activate | src/deb_triggers.rs:242-275 | adds the activation to the file, recorded as "-" and due at PostInstall when nobody waits for it, and as the package otherwise; it can be read back exactly when name and awaiter are well-formed, an awaiter with blanks is recorded as its words, and the other triggers are untouched when the new line is harmless |
| DeferredTriggers.ActivationIsDue | src/deb_triggers.rs:255-266 | who is recorded stands behind those waiting already, "-" when nobody waits; the trigger is then due at PostInstall if and only if "-" is recorded for it, and at PostTransaction otherwise |
| DeferredTriggers.ForgedLine | src/deb_triggers.rs:242-275 | a newline in an awaiter can replace another trigger's entry |
| DeferredTriggers.TriggerStore.Process | src/deb_triggers.rs:654-684 | when all hooks succeed, what is due is consumed and what hooks activated meanwhile is overwritten; after a failing hook all that was pending stays, with what the hooks activated; an invalid phase leaves the file unchanged |
| DeferredTriggers.ReachableSurvives | src/deb_triggers.rs:188-275 | every file reachable by recordable activations and phases reads back as its map, for every order of the writer |
| DeferredTriggers.Perform | src/deb_triggers.rs:242-684 | performing a run on the file gives the pending activations of the specification |
| DeferredTriggers.HookActivationSurvives | src/deb_triggers.rs:662-680 | what a hook activates while a phase runs is pending afterwards if and only if a hook fails or it was pending before and not due |
| DeferredTriggers.StepConserves | src/deb_triggers.rs:242-684 | after an event an activation is pending exactly if the event made it or it was pending and not consumed |
| DeferredTriggers.NothingLost | src/deb_triggers.rs:242-684 | over every run an activation is still pending or was in a batch consumed after it |
| DeferredTriggers.NothingInvented | src/deb_triggers.rs:242-684 | whatever is pending was activated, or pending at the start, and not consumed since |
| DeferredTriggers.PhaseSeparates | src/deb_triggers.rs:553-576 | after PostInstall no pending trigger has "-", after PostTransaction every one has |
| DeferredTriggers.BothPhasesEmpty | src/deb_triggers.rs:553-684 | both phases in a row, in either order, leave nothing pending |
| DeferredTriggers.RunKeepsNoDuplicates | src/deb_triggers.rs:263-268 | no package ever waits twice for a trigger |
| TriggerMaps.TriggerMaps.AddTriggers | src/deb_triggers.rs:78-103 | exactly the new pairs are entered, in both maps alike and without repetition |
| ArchRepo.Converter.ProcessEntry | src/arch_repo.rs:301-339 | an entry that is the desc or the files of a package (ParsePathIff) advances this package and no other; any other entry is skipped |
| ArchRepo.Converter.ProcessEntries | src/arch_repo.rs:247-345 | the stream treats every package as if its entries came alone |
| ArchRepo.Converter.Flush | src/arch_repo.rs:185-191 | the flush writes exactly the pending packages with a desc |
| ArchRepo.Converter.Convert | src/arch_repo.rs:180-191 | what is written for a package depends on its own entries only; with at most one desc and one files it is what batch grouping writes, with one of each exactly these two |
| ArchRepo.StreamIsBatch | src/arch_repo.rs:247-339 | with at most one desc and one files the result is that of batch grouping, and the pending packages are the half-seen ones |
| ArchRepo.PathNames | src/arch_repo.rs:297-306 | package/desc and package/files are recognised |
| ArchRepo.ParsePathIff | src/arch_repo.rs:284-306 | a path is the desc or the files of a package if and only if it is the package's name without a slash and `/desc` or `/files` |
| ArchRepo.OthersSkipped | src/arch_repo.rs:284-295 | directories and deeper paths are skipped |
| ArchRepo.WrittenFor | src/arch_repo.rs:180-339 | with one desc and one files in the archive both are written together, with a desc only the desc, without a desc nothing |
| ArchRepo.DirectoryDescFiles | src/arch_repo.rs:226-236 | for a directory, its desc and its files exactly the desc with the files is written |
| RepoIndex.RangesTile | src/conda_repo.rs:449-537 | the ranges tile the output in order and each slices out its own stanza |
| RepoIndex.RangesApart | src/conda_repo.rs:530-537 | ranges of different stanzas are disjoint |
| RepoIndex.RangesOfName | src/conda_repo.rs:530-537 | the ranges under a name are those of its stanzas |
| RepoIndex.CondaIndex.ProcessPackage | src/conda_repo.rs:440-541 | appending a stanza keeps text and index in agreement |
| RepoIndex.CondaIndex.ProcessAll | src/conda_repo.rs:401-424 | after all entries the text is the stanzas of those not removed and the index agrees |
| RepoIndex.CondaTextsFrom | src/conda_repo.rs:404-408 | a stanza is written exactly for the entries whose file is not removed |
| RepoLines.CondaListReads | src/conda_repo.rs:401-541 | the conda list reads, line by line, as the stanzas of the files not removed, in order, an empty line before each |
| RepoIndex.BrewIndex.ProcessFormula | src/brew_repo.rs:709-732 | the running offset equals the bytes written, and a name's entry slices its last stanza |
| RepoIndex.BrewIndex.ProcessAll | src/brew_repo.rs:706-736 | the same over all formulas, skipping those without a bottle |
| RepoLines.FormulaListReads | src/brew_repo.rs:706-736 | the brew list reads as the stanzas of the formulas with a bottle, in order, an empty line behind each |

## Left out

- The dependency solver, its providers and version matching: resolved packages with their dependency sets are inputs, with distinct keys and dependencies among the resolved packages.
- The table of filtered dependency pairs in src/depends.rs:22 is empty, so the filter is not modelled.
- Whether a package looks like a meta-package is an attribute of the package.
- CondaLink.CopyReplaceCString: an empty placeholder is excluded, for which the program's loop never ends.
- CondaLink.CopyReplaceText: the conversion of the shebang line is a parameter.
- BrewElf.RewriteElf: ELF parsing is outside; headers and their file offsets are inputs and do not change by the rewriting. An interpreter slot that reaches past the end of the file when it is written, where the program stops at a slice, is excluded.
- BrewElfPaths.RpathsRewritten: run-path strings that run into the interpreter segment are excluded.
- BrewElfTwice.RewriteImageTwice: run-path strings that run into the interpreter segment are excluded.
- The search for run paths in images without a `.dynstr` section header, and the macOS path.
- Lossy decoding of bytes that are not UTF-8; strings in images and files are bytes.
- AurPlan: keys are parsed records; their text is modelled where it is searched in a pkgline, parsing and its errors are left out.
- AurArtifacts.FileNameRoundTrip: other suffixes of makepkg than .zst and .xz, which the program does not accept.
- AurRounds.RekeyInRounds: building, unpacking, linking and running a transaction between rounds are outside, with their errors; which files a base built, and what their packages say, are inputs. The program's branch for split packages of another name is left out, since no mapped artifact takes it (AurArtifacts.SplitBranchIsDead).
- AurRebuilt.PlanIsRebuilt: asks that each planned package is built once, that keys from builds are new to the plan, and that built packages are listed in operations; what an unlisted one does is in AurRenaming.MovedIffListed.
- DeferredTriggers.Perform: runs of well-formed activations; what an ill-formed one does is stated for a single activation.
- DeferredTriggers: how a trigger's hook is found and what it does besides activating triggers; a hook succeeds or fails, and makes a list of activations.
- ArchRepo: the line format inside desc and files, compression, and the errors that end a conversion.
- RepoLines.CondaListReads: for stanza lines without newlines, and so is RepoLines.FormulaListReads.
- RepoIndex: a stanza's lines are given; which fields produce them, and the provides maps, are left out.
- Everything that only moves data: download, unpacking, hashing, namespaces, services, logging.
