/**
 Prefix relocation of conda packages (src/conda_link.rs).

 A binary file is rewritten in place: every NUL-terminated string that holds the build-time
 prefix gets the target prefix, and is then cut or NUL-padded to its old length so that no
 offset in the file moves. A text file is rewritten without that restriction.
 */
module CondaLink {
  import opened Wrappers
  import opened Bytes
  import opened Substitution

  /** The single rule of a relocation. */
  function Prefix(oldPrefix: seq<byte>, newPrefix: seq<byte>): (rules: seq<Rule<byte>>)
    requires oldPrefix != []
    ensures |rules| == 1 && rules[0].pattern == oldPrefix && rules[0].replacement == newPrefix
    ensures ValidRules(rules)
  {
    [Rule(oldPrefix, newPrefix)]
  }

  // ---------------------------------------------------------------- reference definition

  /** The NUL-separated chunks of a file; there is always one more than there are NULs. */
  function Split(s: seq<byte>): (chunks: seq<seq<byte>>)
    ensures chunks != []
    decreases |s|
  {
    var n := StringLength(s);
    if n == |s| then
      [s]
    else [s[..n]] + Split(s[n + 1..])
  }

  function Join(chunks: seq<seq<byte>>): seq<byte>
    requires chunks != []
  {
    if |chunks| == 1 then chunks[0] else chunks[0] + [NUL] + Join(chunks[1..])
  }

  /** Cut or pad with NULs to exactly `n` bytes. */
  function Fit(s: seq<byte>, n: nat): (r: seq<byte>)
    ensures |r| == n
  {
    if |s| > n then s[..n] else s + Zeros(n - |s|)
  }

  function RelocateChunk(chunk: seq<byte>, oldPrefix: seq<byte>, newPrefix: seq<byte>): (r: seq<byte>)
    requires oldPrefix != []
    ensures |r| == |chunk|
  {
    Fit(Substitute(chunk, Prefix(oldPrefix, newPrefix)), |chunk|)
  }

  function RelocateChunks(chunks: seq<seq<byte>>, oldPrefix: seq<byte>, newPrefix: seq<byte>): (r: seq<seq<byte>>)
    requires oldPrefix != []
    ensures |r| == |chunks|
  {
    if chunks == [] then []
    else [RelocateChunk(chunks[0], oldPrefix, newPrefix)] + RelocateChunks(chunks[1..], oldPrefix, newPrefix)
  }

  /** Split at the NULs, relocate each chunk on its own, and join again. */
  function Relocate(s: seq<byte>, oldPrefix: seq<byte>, newPrefix: seq<byte>): seq<byte>
    requires oldPrefix != []
  {
    Join(RelocateChunks(Split(s), oldPrefix, newPrefix))
  }

  lemma SplitLast(s: seq<byte>)
    requires StringLength(s) == |s|
    ensures Split(s) == [s] && Join([s]) == s
  {
  }

  lemma SplitFirst(s: seq<byte>)
    requires StringLength(s) < |s|
    ensures Split(s) == [s[..StringLength(s)]] + Split(s[StringLength(s) + 1..])
  {
    hide StringLength;
  }

  lemma JoinCons(chunk: seq<byte>, chunks: seq<seq<byte>>)
    requires chunks != []
    ensures Join([chunk] + chunks) == chunk + [NUL] + Join(chunks)
  {
    assert ([chunk] + chunks)[1..] == chunks;
  }

  /** Splitting loses nothing, and no chunk has a NUL. */
  lemma {:induction false} SplitJoin(s: seq<byte>)
    ensures Join(Split(s)) == s && forall i | 0 <= i < |Split(s)| :: NUL !in Split(s)[i]
    decreases |s|
  {
    hide *;
    var n := StringLength(s);
    ChunkHasNoNul(s, n);
    if n < |s| {
      SplitJoin(s[n + 1..]);
      SplitFirst(s);
      JoinCons(s[..n], Split(s[n + 1..]));
      TakeOneMore(s, n);
      assert s == s[..n + 1] + s[n + 1..];
    } else {
      SplitLast(s);
      assert s[..n] == s;
    }
  }

  lemma ChunkHasNoNul(s: seq<byte>, n: nat)
    requires n <= |s| && forall i :: 0 <= i < n ==> s[i] != NUL
    ensures NUL !in s[..n]
  {
  }

  lemma RelocateCons(chunk: seq<byte>, chunks: seq<seq<byte>>, oldPrefix: seq<byte>, newPrefix: seq<byte>)
    requires oldPrefix != [] && chunks != []
    ensures Join(RelocateChunks([chunk] + chunks, oldPrefix, newPrefix)) ==
            RelocateChunk(chunk, oldPrefix, newPrefix) + [NUL] + Join(RelocateChunks(chunks, oldPrefix, newPrefix))
  {
    var r := RelocateChunks([chunk] + chunks, oldPrefix, newPrefix);
    assert ([chunk] + chunks)[1..] == chunks;
    assert r[1..] == RelocateChunks(chunks, oldPrefix, newPrefix);
  }

  /** The reference definition at a terminator. */
  lemma RelocateNul(s: seq<byte>, oldPrefix: seq<byte>, newPrefix: seq<byte>)
    requires oldPrefix != [] && s != [] && s[0] == NUL
    ensures Relocate(s, oldPrefix, newPrefix) == [NUL] + Relocate(s[1..], oldPrefix, newPrefix)
  {
    assert s[..0] == [];
    RelocateCons([], Split(s[1..]), oldPrefix, newPrefix);
  }

  lemma RelocateIs(s: seq<byte>, oldPrefix: seq<byte>, newPrefix: seq<byte>)
    requires oldPrefix != []
    ensures Relocate(s, oldPrefix, newPrefix) == Join(RelocateChunks(Split(s), oldPrefix, newPrefix))
  {
    hide Join, RelocateChunks, Split;
  }

  /** The reference definition up to and after the first terminator. */
  lemma RelocateTwo(s: seq<byte>, oldPrefix: seq<byte>, newPrefix: seq<byte>)
    requires oldPrefix != [] && StringLength(s) < |s|
    ensures var n := StringLength(s);
            Relocate(s, oldPrefix, newPrefix) ==
            RelocateChunk(s[..n], oldPrefix, newPrefix) + [NUL] + Relocate(s[n + 1..], oldPrefix, newPrefix)
  {
    hide *;
    var n := StringLength(s);
    var chunk, chunks := s[..n], Split(s[n + 1..]);
    SplitFirst(s);
    RelocateIs(s, oldPrefix, newPrefix);
    RelocateIs(s[n + 1..], oldPrefix, newPrefix);
    RelocateCons(chunk, chunks, oldPrefix, newPrefix);
  }

  /** The reference definition at the first string: relocate it, then everything from its
      terminator on. */
  lemma RelocateFirst(s: seq<byte>, oldPrefix: seq<byte>, newPrefix: seq<byte>)
    requires oldPrefix != []
    ensures var n := StringLength(s);
            Relocate(s, oldPrefix, newPrefix) ==
            RelocateChunk(s[..n], oldPrefix, newPrefix) + Relocate(s[n..], oldPrefix, newPrefix)
  {
    hide RelocateChunk, Relocate, StringLength;
    var n := StringLength(s);
    if n < |s| {
      RelocateTwo(s, oldPrefix, newPrefix);
      RelocateNul(s[n..], oldPrefix, newPrefix);
      DropDrop(s, n, n + 1);
      Reassociate(RelocateChunk(s[..n], oldPrefix, newPrefix), [NUL], Relocate(s[n + 1..], oldPrefix, newPrefix));
    } else {
      RelocateLast(s, oldPrefix, newPrefix);
    }
  }

  lemma RelocateLast(s: seq<byte>, oldPrefix: seq<byte>, newPrefix: seq<byte>)
    requires oldPrefix != [] && StringLength(s) == |s|
    ensures s[..|s|] == s
    ensures Relocate(s, oldPrefix, newPrefix) ==
            RelocateChunk(s, oldPrefix, newPrefix) + Relocate(s[|s|..], oldPrefix, newPrefix)
  {
    assert s[..|s|] == s && s[|s|..] == [];
    RelocateNil(oldPrefix, newPrefix);
  }

  lemma RelocateNil(oldPrefix: seq<byte>, newPrefix: seq<byte>)
    requires oldPrefix != []
    ensures Relocate([], oldPrefix, newPrefix) == []
  {
  }

  // ---------------------------------------------------------------- facts for the loop

  lemma FitCopies(head: seq<byte>, s: seq<byte>, n: nat)
    ensures Fit(head + s, |head| + n) == head + Fit(s, n)
  {
    if |s| > n {
      assert (head + s)[..|head| + n] == head + s[..n];
    } else {
      assert (head + s) + Zeros(n - |s|) == head + (s + Zeros(n - |s|));
    }
  }

  /** A chunk without the prefix is left alone. */
  lemma RelocateChunkNothing(chunk: seq<byte>, oldPrefix: seq<byte>, newPrefix: seq<byte>)
    requires oldPrefix != [] && !Occurs(chunk, oldPrefix)
    ensures RelocateChunk(chunk, oldPrefix, newPrefix) == chunk
  {
    SubstituteNothing(chunk, Prefix(oldPrefix, newPrefix));
  }

  lemma AbsentBefore(s: seq<byte>, pattern: seq<byte>, m: nat, index: nat)
    requires m <= index && m <= |s| && pattern != []
    requires forall i: nat :: i < index ==> !OccursAt(s, i, pattern)
    ensures !Occurs(s[..m], pattern)
  {
    forall i: nat
      ensures !OccursAt(s[..m], i, pattern)
    {
      if i < m {
        assert !OccursAt(s, i, pattern);
        assert s[i..] == s[..m][i..] + s[m..];
      }
    }
  }

  /** A file without the prefix is left alone. */
  lemma {:induction false} RelocateNothing(s: seq<byte>, oldPrefix: seq<byte>, newPrefix: seq<byte>)
    requires oldPrefix != [] && !Occurs(s, oldPrefix)
    ensures Relocate(s, oldPrefix, newPrefix) == s
    decreases |s|
  {
    var n := StringLength(s);
    AbsentBefore(s, oldPrefix, n, |s|);
    if n < |s| {
      AbsentFromSuffix(s, n + 1, oldPrefix);
      hide Occurs, Relocate, StringLength;
      RelocateNothing(s[n + 1..], oldPrefix, newPrefix);
      RelocateSkip(s, oldPrefix, newPrefix);
    } else {
      RelocateFirst(s, oldPrefix, newPrefix);
      RelocateChunkNothing(s[..n], oldPrefix, newPrefix);
      assert s[..n] == s;
      assert Relocate([], oldPrefix, newPrefix) == [];
    }
  }

  /** `end` is the end of the C-string that contains `index`. */
  ghost predicate StringEnds(s: seq<byte>, index: nat, end: nat) {
    index <= end <= |s| && (forall i :: index <= i < end ==> s[i] != NUL) && (end < |s| ==> s[end] == NUL)
  }

  ghost predicate FirstAt(s: seq<byte>, index: nat, pattern: seq<byte>) {
    OccursAt(s, index, pattern) && forall i: nat :: i < index ==> !OccursAt(s, i, pattern)
  }

  lemma FirstAtSuffix(s: seq<byte>, m: nat, index: nat, pattern: seq<byte>)
    requires m <= index && FirstAt(s, index, pattern)
    ensures FirstAt(s[m..], index - m, pattern)
  {
    OccursAtSuffix(s, m, index - m, pattern);
    forall i: nat | i < index - m
      ensures !OccursAt(s[m..], i, pattern)
    {
      OccursAtSuffix(s, m, i, pattern);
    }
  }

  /** The program's step: find the first prefix at `index`, extend to the end of its C-string,
      rewrite from `index` on, and go on at the terminator. */
  lemma {:induction false} RelocateStep(s: seq<byte>, oldPrefix: seq<byte>, newPrefix: seq<byte>, index: nat, end: nat)
    requires oldPrefix != [] && FirstAt(s, index, oldPrefix) && StringEnds(s, index, end)
    ensures Relocate(s, oldPrefix, newPrefix) ==
            s[..index] + RelocateChunk(s[index..end], oldPrefix, newPrefix) + Relocate(s[end..], oldPrefix, newPrefix)
    decreases index
  {
    hide Relocate, RelocateChunk;
    var n := StringLength(s);
    if n < index {
      var m := n + 1;
      FirstAtSuffix(s, m, index, oldPrefix);
      AbsentBefore(s, oldPrefix, n, index);
      hide OccursAt, Occurs, FirstAt;
      RelocateStep(s[m..], oldPrefix, newPrefix, index - m, end - m);
      RelocateSkip(s, oldPrefix, newPrefix);
      Shifted(s, m, index, end);
      var chunk, rest := RelocateChunk(s[index..end], oldPrefix, newPrefix), Relocate(s[end..], oldPrefix, newPrefix);
      Reassociate(s[..m], s[m..][..index - m] + chunk, rest);
      Reassociate(s[..m], s[m..][..index - m], chunk);
    } else {
      RelocateStepInChunk(s, oldPrefix, newPrefix, index, end);
    }
  }

  lemma Shifted(s: seq<byte>, m: nat, index: nat, end: nat)
    requires m <= index <= end <= |s|
    ensures s[m..][index - m..end - m] == s[index..end] && s[m..][end - m..] == s[end..]
    ensures s[..index] == s[..m] + s[m..][..index - m]
  {
  }

  /** A first string without the prefix is copied together with its terminator. */
  lemma RelocateSkip(s: seq<byte>, oldPrefix: seq<byte>, newPrefix: seq<byte>)
    requires oldPrefix != [] && StringLength(s) < |s|
    requires !Occurs(s[..StringLength(s)], oldPrefix)
    ensures var m := StringLength(s) + 1;
            Relocate(s, oldPrefix, newPrefix) == s[..m] + Relocate(s[m..], oldPrefix, newPrefix)
  {
    hide *;
    var n := StringLength(s);
    RelocateTwo(s, oldPrefix, newPrefix);
    RelocateChunkNothing(s[..n], oldPrefix, newPrefix);
    TakeOneMore(s, n);
  }

  /** `RelocateStep` when the prefix is in the first chunk. */
  lemma RelocateStepInChunk(s: seq<byte>, oldPrefix: seq<byte>, newPrefix: seq<byte>, index: nat, end: nat)
    requires oldPrefix != [] && StringEnds(s, index, end) && index <= StringLength(s)
    requires forall i: nat :: i < index ==> !OccursAt(s, i, oldPrefix)
    ensures Relocate(s, oldPrefix, newPrefix) ==
            s[..index] + RelocateChunk(s[index..end], oldPrefix, newPrefix) + Relocate(s[end..], oldPrefix, newPrefix)
  {
    assert end == StringLength(s);
    hide Relocate, RelocateChunk;
    SilentPrefix(s, oldPrefix, newPrefix, index, end);
    RelocateChunkCopies(s[..end], oldPrefix, newPrefix, index);
    assert s[..end][index..] == s[index..end] && s[..end][..index] == s[..index];
    RelocateFirst(s, oldPrefix, newPrefix);
  }

  /** What precedes the first prefix in a chunk is copied. */
  lemma RelocateChunkCopies(chunk: seq<byte>, oldPrefix: seq<byte>, newPrefix: seq<byte>, index: nat)
    requires oldPrefix != [] && index <= |chunk| && Silent(chunk, Prefix(oldPrefix, newPrefix), index)
    ensures RelocateChunk(chunk, oldPrefix, newPrefix) ==
            chunk[..index] + RelocateChunk(chunk[index..], oldPrefix, newPrefix)
  {
    hide Silent, Substitute, Fit;
    var rules := Prefix(oldPrefix, newPrefix);
    SubstituteCopies(chunk, rules, index);
    FitCopies(chunk[..index], Substitute(chunk[index..], rules), |chunk| - index);
  }

  lemma SilentPrefix(s: seq<byte>, oldPrefix: seq<byte>, newPrefix: seq<byte>, index: nat, end: nat)
    requires index <= end <= |s| && oldPrefix != []
    requires forall i: nat :: i < index ==> !OccursAt(s, i, oldPrefix)
    ensures Silent(s[..end], Prefix(oldPrefix, newPrefix), index)
  {
    forall i | 0 <= i < index
      ensures NoneStarts(s[..end], i, Prefix(oldPrefix, newPrefix))
    {
      assert !OccursAt(s, i, oldPrefix);
      assert s[i..] == s[..end][i..] + s[end..];
    }
  }

  // ---------------------------------------------------------------- the two programs

  /**
   `copy_replace_cstring_placeholder`. `source` is the file read, `target` the file written.
   An empty placeholder never terminates in the program.
   */
  method CopyReplaceCString(source: seq<byte>, oldPrefix: seq<byte>, newPrefix: seq<byte>) returns (target: seq<byte>)
    requires oldPrefix != []
    ensures |target| == |source|
    ensures NUL !in oldPrefix ==> target == Relocate(source, oldPrefix, newPrefix)
  {
    hide *;
    target := [];
    var rest := source;
    while true
      invariant |target| + |rest| == |source|
      invariant NUL !in oldPrefix ==>
                  target + Relocate(rest, oldPrefix, newPrefix) == Relocate(source, oldPrefix, newPrefix)
      decreases |rest|
    {
      var found := Find(rest, oldPrefix);
      if found.None? {
        RelocateNothing(rest, oldPrefix, newPrefix);
        target := target + rest;
        return;
      }
      var index := found.value;
      FoundFits(rest, index, oldPrefix);
      ghost var before := target;
      target := target + rest[..index];

      var end := index + |oldPrefix|;
      while end < |rest| && rest[end] != NUL
        invariant index + |oldPrefix| <= end <= |rest|
        invariant forall i :: index + |oldPrefix| <= i < end ==> rest[i] != NUL
      {
        end := end + 1;
      }

      var oldLen := end - index;
      var out := ReplaceInString(rest[index..end], oldPrefix, newPrefix);
      var fitted := WriteFitted(out, oldLen);
      target := target + fitted;
      ChunkIsFitted(rest[index..end], oldPrefix, newPrefix);
      if NUL !in oldPrefix {
        CStringDone(source, rest, before, oldPrefix, newPrefix, index, end);
      }
      rest := rest[end..];
    }
  }

  /** Write the replaced string, truncated or padded with NULs to its old length. */
  method WriteFitted(out: seq<byte>, oldLen: nat) returns (written: seq<byte>)
    ensures written == Fit(out, oldLen)
  {
    if |out| > oldLen {
      written := out[..oldLen];
    } else {
      written := out;
    }
    var padding := if |out| < oldLen then oldLen - |out| else 0;
    if padding > 0 {
      written := written + Zeros(padding);
    }
  }

  lemma ChunkIsFitted(chunk: seq<byte>, oldPrefix: seq<byte>, newPrefix: seq<byte>)
    requires oldPrefix != []
    ensures RelocateChunk(chunk, oldPrefix, newPrefix) == Fit(Substitute(chunk, Prefix(oldPrefix, newPrefix)), |chunk|)
  {
  }

  lemma FoundFits(s: seq<byte>, i: nat, pattern: seq<byte>)
    requires Find(s, pattern) == Some(i)
    ensures i + |pattern| <= |s| && FirstAt(s, i, pattern)
  {
  }

  /** The outer loop's invariant after one C-string. */
  lemma CStringDone(source: seq<byte>, rest: seq<byte>, before: seq<byte>, oldPrefix: seq<byte>, newPrefix: seq<byte>,
                    index: nat, end: nat)
    requires oldPrefix != [] && FirstAt(rest, index, oldPrefix) && NUL !in oldPrefix
    requires index + |oldPrefix| <= end <= |rest| && (end < |rest| ==> rest[end] == NUL)
    requires forall i :: index + |oldPrefix| <= i < end ==> rest[i] != NUL
    requires before + Relocate(rest, oldPrefix, newPrefix) == Relocate(source, oldPrefix, newPrefix)
    ensures before + rest[..index] + RelocateChunk(rest[index..end], oldPrefix, newPrefix)
            + Relocate(rest[end..], oldPrefix, newPrefix) == Relocate(source, oldPrefix, newPrefix)
  {
    hide *;
    StringEndsAt(rest, oldPrefix, index, end);
    RelocateStep(rest, oldPrefix, newPrefix, index, end);
  }

  lemma StringEndsAt(s: seq<byte>, pattern: seq<byte>, index: nat, end: nat)
    requires FirstAt(s, index, pattern) && NUL !in pattern
    requires index + |pattern| <= end <= |s| && (end < |s| ==> s[end] == NUL)
    requires forall i :: index + |pattern| <= i < end ==> s[i] != NUL
    ensures StringEnds(s, index, end)
  {
    PatternHasNoNul(s, pattern, index, end);
  }

  lemma PatternHasNoNul(s: seq<byte>, pattern: seq<byte>, index: nat, end: nat)
    requires NUL !in pattern && OccursAt(s, index, pattern)
    requires index + |pattern| <= end <= |s|
    requires forall i :: index + |pattern| <= i < end ==> s[i] != NUL
    ensures forall i :: index <= i < end ==> s[i] != NUL
  {
    forall i | index <= i < index + |pattern|
      ensures s[i] != NUL
    {
      assert s[i] == s[index..][i - index] == pattern[i - index];
    }
  }

  /** The inner loop: replace every placeholder within one C-string. */
  method ReplaceInString(s: seq<byte>, oldPrefix: seq<byte>, newPrefix: seq<byte>) returns (out: seq<byte>)
    requires oldPrefix != []
    ensures out == Substitute(s, Prefix(oldPrefix, newPrefix))
  {
    hide *;
    ghost var rules := Prefix(oldPrefix, newPrefix);
    out := [];
    var oldBytes := s;
    var found := Find(oldBytes, oldPrefix);
    while found.Some?
      invariant found == Find(oldBytes, oldPrefix)
      invariant out + Substitute(oldBytes, rules) == Substitute(s, rules)
      decreases |oldBytes|
    {
      var n := found.value;
      FoundFirst(oldBytes, oldPrefix, newPrefix, n);
      out := out + oldBytes[..n];
      out := out + newPrefix;
      oldBytes := oldBytes[n + |oldPrefix|..];
      found := Find(oldBytes, oldPrefix);
    }
    FoundNone(oldBytes, oldPrefix, newPrefix);
    out := out + oldBytes;
  }

  lemma FoundNone(s: seq<byte>, oldPrefix: seq<byte>, newPrefix: seq<byte>)
    requires oldPrefix != [] && Find(s, oldPrefix) == None
    ensures Substitute(s, Prefix(oldPrefix, newPrefix)) == s
  {
    SubstituteNothing(s, Prefix(oldPrefix, newPrefix));
  }

  lemma FoundFirst(s: seq<byte>, oldPrefix: seq<byte>, newPrefix: seq<byte>, n: nat)
    requires oldPrefix != [] && Find(s, oldPrefix) == Some(n)
    ensures n + |oldPrefix| <= |s|
    ensures Substitute(s, Prefix(oldPrefix, newPrefix)) ==
            s[..n] + newPrefix + Substitute(s[n + |oldPrefix|..], Prefix(oldPrefix, newPrefix))
  {
    hide *;
    var rules := Prefix(oldPrefix, newPrefix);
    FoundSilent(s, oldPrefix, newPrefix, n);
    SubstituteAt(s, rules, n, 0);
  }

  lemma FoundSilent(s: seq<byte>, oldPrefix: seq<byte>, newPrefix: seq<byte>, n: nat)
    requires oldPrefix != [] && forall i: nat :: i < n ==> !OccursAt(s, i, oldPrefix)
    ensures Silent(s, Prefix(oldPrefix, newPrefix), n)
  {
    forall i | 0 <= i < n
      ensures NoneStarts(s, i, Prefix(oldPrefix, newPrefix))
    {
      assert !OccursAt(s, i, oldPrefix);
    }
  }

  /** The text between and around the elements of `s`. */
  function Interleaved(s: seq<byte>, text: seq<byte>): (r: seq<byte>)
    ensures |r| == |s| + (|s| + 1) * |text|
  {
    if s == [] then text else text + [s[0]] + Interleaved(s[1..], text)
  }

  /** What a text becomes. An empty placeholder is found at every position, the end included. */
  function TextReplaced(s: seq<byte>, oldPrefix: seq<byte>, newPrefix: seq<byte>): seq<byte> {
    if oldPrefix == [] then Interleaved(s, newPrefix) else Substitute(s, Prefix(oldPrefix, newPrefix))
  }

  /** Length of a leading `#!` line without its newline; zero when there is none. */
  function ShebangEnd(s: seq<byte>): (n: nat)
    ensures n <= |s|
  {
    if Ascii("#!") <= s then
      var newline := Find(s, Ascii("\n"));
      if newline.Some? then newline.value else |s|
    else 0
  }

  /** What a text file becomes. */
  function TextRewritten(s: seq<byte>, oldPrefix: seq<byte>, newPrefix: seq<byte>, shebang: seq<byte> -> seq<byte>)
    : seq<byte>
  {
    var n := ShebangEnd(s);
    (if n == 0 then [] else shebang(s[..n])) + TextReplaced(s[n..], oldPrefix, newPrefix)
  }

  /** A first line that starts with `#!` goes to the shebang conversion, without its newline and
      whole; in what follows, from that newline on, the placeholder is replaced. */
  lemma ShebangLine(first: seq<byte>, rest: seq<byte>, oldPrefix: seq<byte>, newPrefix: seq<byte>,
                    shebang: seq<byte> -> seq<byte>)
    requires |first| >= 2 && first[0] == 0x23 && first[1] == 0x21 && 0x0A !in first && (rest != [] ==> rest[0] == 0x0A)
    ensures TextRewritten(first + rest, oldPrefix, newPrefix, shebang)
            == shebang(first) + TextReplaced(rest, oldPrefix, newPrefix)
  {
    hide TextReplaced;
    var s := first + rest;
    HeadTail(first, rest);
    assert Ascii("#!") == s[..2];
    FirstNewline(first, rest);
    assert s[..|first|] == first && s[|first|..] == rest;
  }

  lemma FirstNewline(first: seq<byte>, rest: seq<byte>)
    requires 0x0A !in first && (rest != [] ==> rest[0] == 0x0A)
    ensures Find(first + rest, Ascii("\n")) == if rest == [] then None else Some(|first|)
  {
    var s, newline := first + rest, Ascii("\n");
    assert newline == [0x0A];
    forall i: nat | i < |first|
      ensures !OccursAt(s, i, newline)
    {
      assert first[i] in first && s[i..][0] == first[i];
    }
    if rest != [] {
      assert s[|first|..][..1] == [rest[0]];
      assert OccursAt(s, |first|, newline);
    }
  }

  /** In a file that does not start so, it is replaced everywhere. */
  lemma NoShebangLine(s: seq<byte>, oldPrefix: seq<byte>, newPrefix: seq<byte>, shebang: seq<byte> -> seq<byte>)
    requires |s| < 2 || s[0] != 0x23 || s[1] != 0x21
    ensures TextRewritten(s, oldPrefix, newPrefix, shebang) == TextReplaced(s, oldPrefix, newPrefix)
  {
    hide TextReplaced;
    assert Ascii("#!")[0] == 0x23 && Ascii("#!")[1] == 0x21;
    assert s[0..] == s;
  }

  /**
   `copy_replace_textual_placeholder`. A leading `#!` line is rewritten by `shebang`, the
   shebang conversion, which is not part of this model.
   */
  method CopyReplaceText(source: seq<byte>, oldPrefix: seq<byte>, newPrefix: seq<byte>, shebang: seq<byte> -> seq<byte>)
    returns (target: seq<byte>)
    ensures target == TextRewritten(source, oldPrefix, newPrefix, shebang)
  {
    hide Substitute, Interleaved, TextReplaced, ShebangEnd;
    target := [];
    var n := ShebangEnd(source);
    if n > 0 {
      target := shebang(source[..n]);
    }
    var bytes := source[n..];
    target := ReplaceFound(target, bytes, oldPrefix, newPrefix);
  }

  /** What is still to be written when the iteration goes on at `pos` and `last` is where the
      previous match ended. */
  ghost function Remaining(bytes: seq<byte>, last: nat, pos: nat, oldPrefix: seq<byte>, newPrefix: seq<byte>): seq<byte>
    requires last <= |bytes|
  {
    if oldPrefix != [] then Substitute(bytes[last..], Prefix(oldPrefix, newPrefix))
    else if pos == 0 then Interleaved(bytes, newPrefix)
    else if last == |bytes| then [] else [bytes[last]] + Interleaved(bytes[last + 1..], newPrefix)
  }

  /** `find_iter` goes on behind the match, and by one when the match is empty. */
  ghost predicate Iterates(bytes: seq<byte>, last: nat, pos: nat, oldPrefix: seq<byte>) {
    && last <= |bytes| && pos <= |bytes| + 1
    && if oldPrefix != [] || pos == 0 then last == pos else pos == last + 1
  }

  /** The `find_iter` loop. */
  method ReplaceFound(before: seq<byte>, bytes: seq<byte>, oldPrefix: seq<byte>, newPrefix: seq<byte>)
    returns (target: seq<byte>)
    ensures target == before + TextReplaced(bytes, oldPrefix, newPrefix)
  {
    hide *;
    target := before;
    var last: nat, pos: nat := 0, 0;
    RemainingStart(bytes, oldPrefix, newPrefix);
    while pos <= |bytes|
      invariant Iterates(bytes, last, pos, oldPrefix)
      invariant last <= |bytes| && target + Remaining(bytes, last, pos, oldPrefix, newPrefix)
                                   == before + TextReplaced(bytes, oldPrefix, newPrefix)
      decreases |bytes| + 1 - pos
    {
      var found := Find(bytes[pos..], oldPrefix);
      if found.None? {
        break;
      }
      var index := pos + found.value;
      RemainingStep(bytes, last, pos, oldPrefix, newPrefix, found.value);
      target := target + bytes[last..index];
      target := target + newPrefix;
      last := index + |oldPrefix|;
      pos := index + if |oldPrefix| > 0 then |oldPrefix| else 1;
    }
    RemainingEnd(bytes, last, pos, oldPrefix, newPrefix);
    if last < |bytes| {
      target := target + bytes[last..];
    }
  }

  lemma RemainingStart(bytes: seq<byte>, oldPrefix: seq<byte>, newPrefix: seq<byte>)
    ensures Iterates(bytes, 0, 0, oldPrefix)
    ensures Remaining(bytes, 0, 0, oldPrefix, newPrefix) == TextReplaced(bytes, oldPrefix, newPrefix)
  {
    hide Substitute, Interleaved;
    assert bytes[0..] == bytes;
  }

  lemma RemainingStep(bytes: seq<byte>, last: nat, pos: nat, oldPrefix: seq<byte>, newPrefix: seq<byte>, offset: nat)
    requires Iterates(bytes, last, pos, oldPrefix) && pos <= |bytes| && Find(bytes[pos..], oldPrefix) == Some(offset)
    ensures var index := pos + offset;
            var next := index + |oldPrefix|;
            var nextPos := index + if |oldPrefix| > 0 then |oldPrefix| else 1;
            && last <= index <= |bytes| && next <= |bytes| && Iterates(bytes, next, nextPos, oldPrefix)
            && Remaining(bytes, last, pos, oldPrefix, newPrefix)
               == bytes[last..index] + newPrefix + Remaining(bytes, next, nextPos, oldPrefix, newPrefix)
  {
    hide Substitute, Interleaved, Find, Prefix;
    if oldPrefix != [] {
      NonEmptyMatch(bytes, pos, oldPrefix, newPrefix, offset);
    } else {
      assert OccursAt(bytes[pos..], 0, oldPrefix);
      EmptyMatch(bytes, last, pos, newPrefix);
    }
  }

  lemma NonEmptyMatch(bytes: seq<byte>, pos: nat, oldPrefix: seq<byte>, newPrefix: seq<byte>, offset: nat)
    requires oldPrefix != [] && pos <= |bytes| && Find(bytes[pos..], oldPrefix) == Some(offset)
    ensures pos + offset + |oldPrefix| <= |bytes|
    ensures Substitute(bytes[pos..], Prefix(oldPrefix, newPrefix)) ==
            bytes[pos..pos + offset] + newPrefix
            + Substitute(bytes[pos + offset + |oldPrefix|..], Prefix(oldPrefix, newPrefix))
  {
    hide *;
    var rest := bytes[pos..];
    FoundFirst(rest, oldPrefix, newPrefix, offset);
    assert rest[..offset] == bytes[pos..pos + offset];
    assert rest[offset + |oldPrefix|..] == bytes[pos + offset + |oldPrefix|..];
  }

  lemma EmptyMatch(bytes: seq<byte>, last: nat, pos: nat, newPrefix: seq<byte>)
    requires Iterates(bytes, last, pos, []) && pos <= |bytes|
    ensures Remaining(bytes, last, pos, [], newPrefix)
            == bytes[last..pos] + newPrefix + Remaining(bytes, pos, pos + 1, [], newPrefix)
  {
    hide Substitute;
    if pos == 0 {
      assert bytes[last..pos] == [];
    } else {
      assert bytes[last..pos] == [bytes[last]];
      assert pos < |bytes| ==> bytes[pos..][1..] == bytes[pos + 1..];
    }
  }

  lemma RemainingEnd(bytes: seq<byte>, last: nat, pos: nat, oldPrefix: seq<byte>, newPrefix: seq<byte>)
    requires Iterates(bytes, last, pos, oldPrefix)
    requires pos > |bytes| || Find(bytes[pos..], oldPrefix).None?
    ensures Remaining(bytes, last, pos, oldPrefix, newPrefix) == bytes[last..]
  {
    hide Substitute, Interleaved, Find;
    if oldPrefix != [] {
      FoundNone(bytes[last..], oldPrefix, newPrefix);
    } else {
      assert pos <= |bytes| ==> OccursAt(bytes[pos..], 0, oldPrefix);
      assert bytes[last..] == [];
    }
  }

  // ---------------------------------------------------------------- what relocation promises

  /** Every NUL of `s` is one of `r`. */
  ghost predicate KeepsNuls(s: seq<byte>, r: seq<byte>) {
    |r| == |s| && forall i | 0 <= i < |s| && s[i] == NUL :: r[i] == NUL
  }

  lemma NulsOfParts(chunk: seq<byte>, tail: seq<byte>, newChunk: seq<byte>, newTail: seq<byte>)
    requires |newChunk| == |chunk| && NUL !in chunk && KeepsNuls(tail, newTail)
    ensures KeepsNuls(chunk + [NUL] + tail, newChunk + [NUL] + newTail)
  {
    var s, r, n := chunk + [NUL] + tail, newChunk + [NUL] + newTail, |chunk|;
    assert forall i | 0 <= i < n :: s[i] == chunk[i];
    forall i | 0 <= i < |s| && s[i] == NUL
      ensures r[i] == NUL
    {
      if i > n {
        assert s[i] == tail[i - n - 1] && r[i] == newTail[i - n - 1];
      }
    }
  }

  /** No offset moves: the file keeps its length and every NUL stays where it was. */
  lemma {:induction false} RelocateKeepsLayout(s: seq<byte>, oldPrefix: seq<byte>, newPrefix: seq<byte>)
    requires oldPrefix != []
    ensures |Relocate(s, oldPrefix, newPrefix)| == |s|
    ensures forall i :: 0 <= i < |s| && s[i] == NUL ==> Relocate(s, oldPrefix, newPrefix)[i] == NUL
    decreases |s|
  {
    hide Relocate, RelocateChunk, StringLength;
    var n := StringLength(s);
    ChunkHasNoNul(s, n);
    if n < |s| {
      RelocateKeepsLayout(s[n + 1..], oldPrefix, newPrefix);
      RelocateTwo(s, oldPrefix, newPrefix);
      var tail := Relocate(s[n + 1..], oldPrefix, newPrefix);
      NulsOfParts(s[..n], s[n + 1..], RelocateChunk(s[..n], oldPrefix, newPrefix), tail);
      assert s == s[..n] + [NUL] + s[n + 1..];
    } else {
      RelocateFirst(s, oldPrefix, newPrefix);
      RelocateNil(oldPrefix, newPrefix);
      assert s[n..] == [] && s[..n] == s;
    }
  }

  /** The C-string that starts at offset `p`. */
  function StringAt(s: seq<byte>, p: nat): seq<byte>
    requires p <= |s|
  {
    s[p..][..StringLength(s[p..])]
  }

  lemma TailOf(head: seq<byte>, tail: seq<byte>, p: nat)
    requires |head| <= p <= |head| + |tail|
    ensures (head + tail)[p..] == tail[p - |head|..]
  {
  }

  /** Relocating the file relocates each of its strings where it stands. */
  lemma {:induction false} RelocateLocal(s: seq<byte>, oldPrefix: seq<byte>, newPrefix: seq<byte>, p: nat)
    requires oldPrefix != [] && p <= |s| && (p == 0 || s[p - 1] == NUL)
    ensures |Relocate(s, oldPrefix, newPrefix)| == |s|
    ensures Relocate(s, oldPrefix, newPrefix)[p..] == Relocate(s[p..], oldPrefix, newPrefix)
    decreases |s|
  {
    hide Relocate, RelocateChunk, StringLength;
    RelocateKeepsLayout(s, oldPrefix, newPrefix);
    if p == 0 {
      assert s[0..] == s;
    } else {
      var m := StringLength(s) + 1;
      assert m <= p;
      RelocateTwo(s, oldPrefix, newPrefix);
      RelocateLocal(s[m..], oldPrefix, newPrefix, p - m);
      DropDrop(s, m, p);
      TailOf(RelocateChunk(s[..m - 1], oldPrefix, newPrefix) + [NUL], Relocate(s[m..], oldPrefix, newPrefix), p);
    }
  }

  /** Reading back a string that was fitted into `n` bytes, whatever non-string follows. */
  lemma FittedString(replaced: seq<byte>, n: nat, rest: seq<byte>)
    requires NUL !in replaced && (rest != [] ==> rest[0] == NUL)
    ensures var seen := StringAt(Fit(replaced, n) + rest, 0);
            seen == if |replaced| <= n then replaced else replaced[..n]
  {
    var all := Fit(replaced, n) + rest;
    var k := if |replaced| <= n then |replaced| else n;
    assert all[0..] == all;
    assert forall i :: 0 <= i < k ==> all[i] == replaced[i];
    assert k < |all| ==> all[k] == NUL;
    assert StringLength(all) == k;
  }

  /** What a reader of the string at `p` sees afterwards: all of the replaced string if and only
      if it is no longer than the original, and otherwise its first |original| bytes. */
  lemma RelocatedString(s: seq<byte>, oldPrefix: seq<byte>, newPrefix: seq<byte>, p: nat)
    requires oldPrefix != [] && NUL !in newPrefix
    requires p <= |s| && (p == 0 || s[p - 1] == NUL)
    ensures |Relocate(s, oldPrefix, newPrefix)| == |s|
    ensures var original := StringAt(s, p);
            var replaced := Substitute(original, Prefix(oldPrefix, newPrefix));
            var seen := StringAt(Relocate(s, oldPrefix, newPrefix), p);
            && (seen == replaced <==> |replaced| <= |original|)
            && (|replaced| > |original| ==> seen == replaced[..|original|])
  {
    RelocateLocal(s, oldPrefix, newPrefix, p);
    var t := s[p..];
    var n := StringLength(t);
    var replaced := Substitute(t[..n], Prefix(oldPrefix, newPrefix));
    SubstituteElements(t[..n], Prefix(oldPrefix, newPrefix), NUL);
    RelocateFirst(t, oldPrefix, newPrefix);
    var rest := Relocate(t[n..], oldPrefix, newPrefix);
    RelocateKeepsLayout(t[n..], oldPrefix, newPrefix);
    FittedString(replaced, n, rest);
    var after := Relocate(t, oldPrefix, newPrefix);
    assert after[0..] == after;
  }

  /** A target prefix no longer than the placeholder always fits. */
  lemma ShorterPrefixFits(s: seq<byte>, oldPrefix: seq<byte>, newPrefix: seq<byte>, p: nat)
    requires oldPrefix != [] && NUL !in newPrefix && |newPrefix| <= |oldPrefix|
    requires p <= |s| && (p == 0 || s[p - 1] == NUL)
    ensures |Relocate(s, oldPrefix, newPrefix)| == |s|
    ensures StringAt(Relocate(s, oldPrefix, newPrefix), p) == Substitute(StringAt(s, p), Prefix(oldPrefix, newPrefix))
  {
    RelocatedString(s, oldPrefix, newPrefix, p);
    SubstituteNotLonger(StringAt(s, p), Prefix(oldPrefix, newPrefix));
  }
}
