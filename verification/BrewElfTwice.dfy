/**
 What rewriting an ELF image (BrewElf) keeps when run-path strings share their ends, as linkers
 make them: entries may overlap in any way, as long as they keep clear of the interpreter segment.
 */
module BrewElfTwice {
  import opened Wrappers
  import opened Bytes
  import opened Substitution
  import opened BrewText
  import opened BrewElf

  // ---------------------------------------------------------------- one pass of one placeholder

  predicate IsPlaceholder(q: seq<byte>) {
    q == CELLAR_PLACEHOLDER || q == PREFIX_PLACEHOLDER
  }

  function Pass(s: seq<byte>, q: seq<byte>): seq<byte>
    requires IsPlaceholder(q)
  {
    PlaceholderShape();
    Substitute(s, Shorten(q))
  }

  lemma Shapes(q: seq<byte>)
    requires IsPlaceholder(q)
    ensures |q| == |SHORT_PREFIX| == 19 && q[0] == AT && SLASH !in q && SHORT_PREFIX[0] == SLASH
    ensures AT !in SHORT_PREFIX && NUL !in q && NUL !in SHORT_PREFIX
  {
    PlaceholderShape();
    assert SHORT_PREFIX[0] == SLASH;
  }

  lemma PassStep(s: seq<byte>, q: seq<byte>)
    requires IsPlaceholder(q) && s != []
    ensures q <= s ==> |s| >= 19 && Pass(s, q) == SHORT_PREFIX + Pass(s[19..], q)
    ensures !(q <= s) ==> Pass(s, q) == [s[0]] + Pass(s[1..], q)
  {
    Shapes(q);
    var r := FirstRule(s, Shorten(q), 0);
    assert r.Some? <==> q <= s;
  }

  lemma HeadHasNoMark(rest: seq<byte>)
    ensures forall k | 0 <= k < 19 :: (SHORT_PREFIX + rest)[k] != AT
  {
    Shapes(PREFIX_PLACEHOLDER);
    assert forall k | 0 <= k < 19 :: (SHORT_PREFIX + rest)[k] == SHORT_PREFIX[k];
  }

  lemma SlashFirst(t: seq<byte>, rest: seq<byte>)
    requires t != [] && SLASH !in t
    ensures !(t <= SHORT_PREFIX + rest)
  {
    Shapes(PREFIX_PLACEHOLDER);
    assert (SHORT_PREFIX + rest)[0] == SLASH != t[0];
  }

  lemma PassLength(s: seq<byte>, q: seq<byte>)
    requires IsPlaceholder(q)
    ensures |Pass(s, q)| == |s|
  {
    Shapes(q);
    SubstituteSameLength(s, Shorten(q));
  }

  /** A word: something that a replacement cannot have brought about. */
  predicate Word(t: seq<byte>) {
    t != [] && t[0] == AT && SLASH !in t && NUL !in t
  }

  /** Without slash, the beginning of the result was the beginning of the text. */
  lemma {:induction false} PassPrefix(s: seq<byte>, q: seq<byte>, t: seq<byte>)
    requires IsPlaceholder(q) && SLASH !in t && t <= Pass(s, q)
    ensures t <= s
    decreases |s|
  {
    hide Pass;
    PassLength(s, q);
    if t != [] {
      PassStep(s, q);
      Shapes(q);
      if q <= s {
        SlashFirst(t, Pass(s[19..], q));
      } else {
        var rest := Pass(s[1..], q);
        assert t[1..] <= rest by {
          assert Pass(s, q)[1..] == rest;
        }
        PassPrefix(s[1..], q, t[1..]);
        assert t == [s[0]] + t[1..];
      }
    }
  }

  lemma OccursFirst(s: seq<byte>, i: nat, t: seq<byte>)
    requires t != [] && OccursAt(s, i, t)
    ensures i < |s| && s[i] == t[0]
  {
    assert s[i..][0] == s[i];
  }

  /** Where a pass goes on after the head of the text. */
  lemma PassTail(s: seq<byte>, q: seq<byte>) returns (m: nat)
    requires IsPlaceholder(q) && s != []
    ensures m == if q <= s then 19 else 1
    ensures m <= |s| == |Pass(s, q)| && Pass(s, q)[m..] == Pass(s[m..], q)
    ensures q <= s ==> forall i | 0 <= i < m :: Pass(s, q)[i] != AT
  {
    hide Pass;
    PassStep(s, q);
    PassLength(s, q);
    m := if q <= s then 19 else 1;
    Shapes(q);
    if q <= s {
      HeadHasNoMark(Pass(s[19..], q));
    }
  }

  /** A word in the result was in the text, at the same place. */
  lemma {:induction false} PassWord(s: seq<byte>, q: seq<byte>, i: nat, t: seq<byte>)
    requires IsPlaceholder(q) && Word(t) && OccursAt(Pass(s, q), i, t)
    ensures OccursAt(s, i, t)
    decreases |s|
  {
    hide Pass, OccursAt, IsPlaceholder;
    PassLength(s, q);
    var out := Pass(s, q);
    OccursFirst(out, i, t);
    var m := PassTail(s, q);
    if i == 0 {
      AtHead(out, t);
      AtHead(s, t);
      PassPrefix(s, q, t);
    } else {
      assert i >= m;
      OccursAtSuffix(out, m, i - m, t);
      PassWord(s[m..], q, i - m, t);
      OccursAtSuffix(s, m, i - m, t);
    }
  }

  /** Where the placeholder stood, its fence is gone. */
  lemma {:induction false} PassKills(s: seq<byte>, q: seq<byte>, i: nat)
    requires IsPlaceholder(q) && OccursAt(s, i, q)
    ensures i < |s| == |Pass(s, q)| && Pass(s, q)[i] != AT
    decreases |s|
  {
    hide Pass, OccursAt, IsPlaceholder;
    Shapes(q);
    OccursFirst(s, i, q);
    AtHead(s, q);
    var m := PassTail(s, q);
    if i >= m {
      OccursAtSuffix(s, m, i - m, q);
      PassKills(s[m..], q, i - m);
      assert Pass(s, q)[m..][i - m] == Pass(s, q)[i];
    }
  }

  ghost predicate NoneFrom(s: seq<byte>, q: seq<byte>, i: nat, n: nat) {
    forall j | i <= j < i + n :: !OccursAt(s, j, q)
  }

  lemma NoneFromSuffix(s: seq<byte>, q: seq<byte>, i: nat, n: nat, m: nat)
    requires NoneFrom(s, q, i, n) && m <= i && m <= |s|
    ensures NoneFrom(s[m..], q, i - m, n)
  {
    forall j | i - m <= j < i - m + n
      ensures !OccursAt(s[m..], j, q)
    {
      OccursAtSuffix(s, m, j, q);
    }
  }

  lemma {:induction false} PassCopies(s: seq<byte>, q: seq<byte>, t: seq<byte>)
    requires IsPlaceholder(q) && t <= s && NoneFrom(s, q, 0, |t|)
    ensures t <= Pass(s, q)
    decreases |s|
  {
    hide Pass;
    if t != [] {
      assert s[0..] == s && !OccursAt(s, 0, q);
      PassStep(s, q);
      assert NoneFrom(s, q, 1, |t| - 1);
      NoneFromSuffix(s, q, 1, |t| - 1, 1);
      PassCopies(s[1..], q, t[1..]);
      assert t == [s[0]] + t[1..];
    }
  }

  /** A word stays where its mark stays and no placeholder starts inside it. */
  lemma {:induction false} PassKeeps(s: seq<byte>, q: seq<byte>, i: nat, t: seq<byte>)
    requires IsPlaceholder(q) && t != [] && OccursAt(s, i, t) && |Pass(s, q)| == |s|
    requires Pass(s, q)[i] == AT && NoneFrom(s, q, i, |t|)
    ensures OccursAt(Pass(s, q), i, t)
    decreases |s|
  {
    hide Pass, NoneFrom, OccursAt, IsPlaceholder;
    var out := Pass(s, q);
    OccursFirst(s, i, t);
    if i == 0 {
      AtHead(out, t);
      AtHead(s, t);
      PassCopies(s, q, t);
    } else {
      var m := PassTail(s, q);
      assert i >= m;
      assert out[m..][i - m] == out[i];
      PassLength(s[m..], q);
      NoneFromSuffix(s, q, i, |t|, m);
      OccursAtSuffix(s, m, i - m, t);
      PassKeeps(s[m..], q, i - m, t);
      OccursAtSuffix(out, m, i - m, t);
    }
  }

  // ---------------------------------------------------------------- both passes

  lemma ShortPathIsPasses(s: seq<byte>)
    ensures ShortPath(s) == Pass(Pass(s, CELLAR_PLACEHOLDER), PREFIX_PLACEHOLDER)
    ensures |ShortPath(s)| == |Pass(s, CELLAR_PLACEHOLDER)| == |s|
  {
    PlaceholderShape();
    PassLength(s, CELLAR_PLACEHOLDER);
    PassLength(Pass(s, CELLAR_PLACEHOLDER), PREFIX_PLACEHOLDER);
  }

  lemma PathWord(s: seq<byte>, i: nat, t: seq<byte>)
    requires Word(t) && OccursAt(ShortPath(s), i, t)
    ensures OccursAt(s, i, t)
  {
    hide *;
    ShortPathIsPasses(s);
    ArePlaceholders();
    PassWord(Pass(s, CELLAR_PLACEHOLDER), PREFIX_PLACEHOLDER, i, t);
    PassWord(s, CELLAR_PLACEHOLDER, i, t);
  }

  lemma ArePlaceholders()
    ensures IsPlaceholder(CELLAR_PLACEHOLDER) && IsPlaceholder(PREFIX_PLACEHOLDER)
  {
  }

  lemma PathPrefixKept(s: seq<byte>, t: seq<byte>)
    requires SLASH !in t && t <= ShortPath(s)
    ensures t <= s
  {
    hide *;
    ShortPathIsPasses(s);
    ArePlaceholders();
    PassPrefix(Pass(s, CELLAR_PLACEHOLDER), PREFIX_PLACEHOLDER, t);
    PassPrefix(s, CELLAR_PLACEHOLDER, t);
  }

  lemma MarkIsWord(s: seq<byte>, i: nat)
    ensures Word([AT]) && (OccursAt(s, i, [AT]) <==> i < |s| && s[i] == AT)
  {
    if i < |s| {
      assert s[i..][0] == s[i];
    }
  }

  /** A mark in the second pass was there after the first. */
  lemma MarkAfterFirst(s: seq<byte>, i: nat)
    requires i < |s| == |ShortPath(s)| == |Pass(s, CELLAR_PLACEHOLDER)| && ShortPath(s)[i] == AT
    ensures Pass(s, CELLAR_PLACEHOLDER)[i] == AT
  {
    hide *;
    ShortPathIsPasses(s);
    ArePlaceholders();
    MarkIsWord(ShortPath(s), i);
    MarkIsWord(Pass(s, CELLAR_PLACEHOLDER), i);
    PassWord(Pass(s, CELLAR_PLACEHOLDER), PREFIX_PLACEHOLDER, i, [AT]);
  }

  /** No CELLAR keeps its fence. */
  lemma CellarKilled(s: seq<byte>, i: nat)
    requires OccursAt(s, i, CELLAR_PLACEHOLDER)
    ensures i < |s| == |ShortPath(s)| && ShortPath(s)[i] != AT
  {
    hide *;
    ShortPathIsPasses(s);
    ArePlaceholders();
    PassKills(s, CELLAR_PLACEHOLDER, i);
    if ShortPath(s)[i] == AT {
      MarkAfterFirst(s, i);
    }
  }

  /** A PREFIX that no CELLAR cuts does not keep its fence. */
  lemma PrefixKilled(s: seq<byte>, i: nat)
    requires OccursAt(s, i, PREFIX_PLACEHOLDER) && NoneFrom(s, CELLAR_PLACEHOLDER, i, 19)
    ensures i < |s| == |ShortPath(s)| && ShortPath(s)[i] != AT
  {
    hide *;
    ShortPathIsPasses(s);
    ArePlaceholders();
    Shapes(PREFIX_PLACEHOLDER);
    OccursInside(s, i, PREFIX_PLACEHOLDER);
    if ShortPath(s)[i] == AT {
      MarkAfterFirst(s, i);
      PassKeeps(s, CELLAR_PLACEHOLDER, i, PREFIX_PLACEHOLDER);
      PassKills(Pass(s, CELLAR_PLACEHOLDER), PREFIX_PLACEHOLDER, i);
    }
  }

  lemma OccursInside(s: seq<byte>, i: nat, q: seq<byte>)
    requires OccursAt(s, i, q)
    ensures i + |q| <= |s| && s[i..i + |q|] == q
  {
    assert s[i..][..|q|] == s[i..i + |q|];
  }

  lemma OccursIf(s: seq<byte>, i: nat, q: seq<byte>)
    requires i + |q| <= |s| && s[i..i + |q|] == q
    ensures OccursAt(s, i, q)
  {
    assert s[i..][..|q|] == s[i..i + |q|];
  }

  // ---------------------------------------------------------------- the run-path writes

  /** Writing the slot changes position `x` to a byte of its new path. */
  predicate Writes(slot: Slot, x: nat) {
    HasPlaceholder(slot.current) && slot.offset <= x < slot.offset + |slot.current|
  }

  /** The byte at `x` is the original one, or that of one of the paths written. */
  ghost predicate WrittenAt(orig: seq<byte>, content: seq<byte>, done: seq<Slot>, x: nat)
    requires x < |orig| == |content|
  {
    || (content[x] == orig[x] && forall k | 0 <= k < |done| :: !Writes(done[k], x))
    || exists k :: 0 <= k < |done| && WritesByte(done[k], x, content[x])
  }

  ghost predicate WritesByte(slot: Slot, x: nat, b: byte) {
    Writes(slot, x) && x - slot.offset < |ShortPath(slot.current)| && ShortPath(slot.current)[x - slot.offset] == b
  }

  ghost predicate Written(orig: seq<byte>, content: seq<byte>, done: seq<Slot>) {
    |content| == |orig| && forall x: nat | x < |orig| :: WrittenAt(orig, content, done, x)
  }

  /** Words were there from the beginning. */
  ghost predicate NoNewWords(orig: seq<byte>, content: seq<byte>) {
    forall p: nat, t | Word(t) && OccursAt(content, p, t) :: OccursAt(orig, p, t)
  }

  /** The image on the way from `orig`, after the slots `done`. */
  ghost predicate OnTheWay(orig: seq<byte>, content: seq<byte>, done: seq<Slot>) {
    Written(orig, content, done) && SameNuls(orig, content) && NoNewWords(orig, content)
  }

  /** What one write does to the bytes: the new path inside the slot, nothing outside. */
  ghost predicate Rewrites(content: seq<byte>, r: seq<byte>, slot: Slot) {
    var path := ShortPath(slot.current);
    && |r| == |content| && |path| == |slot.current| && slot.offset + |path| < |content|
    && r[slot.offset..slot.offset + |path|] == path && NUL !in path
    && r[slot.offset + |path|] == NUL && content[slot.offset + |path|] == NUL
    && (forall x | 0 <= x < |content| && !(slot.offset <= x < slot.offset + |path|) :: r[x] == content[x])
  }

  lemma PatchRewrites(orig: seq<byte>, content: seq<byte>, slot: Slot)
    requires SlotOf(orig, slot) && SameNuls(orig, content)
    ensures Rewrites(content, Patched(content, slot.offset, slot.maxLen, ShortPath(slot.current)), slot)
  {
    hide ShortPath, HasPlaceholder, Patched;
    ShortPathFits(slot.current);
    PatchSlot(orig, content, slot);
  }

  lemma RewritesWritten(orig: seq<byte>, content: seq<byte>, r: seq<byte>, done: seq<Slot>, slot: Slot)
    requires Written(orig, content, done) && Rewrites(content, r, slot) && HasPlaceholder(slot.current)
    ensures Written(orig, r, done + [slot])
  {
    hide ShortPath, HasPlaceholder;
    forall x: nat | x < |orig|
      ensures WrittenAt(orig, r, done + [slot], x)
    {
      if Writes(slot, x) {
        assert r[x] == r[slot.offset..slot.offset + |slot.current|][x - slot.offset];
        assert WritesByte((done + [slot])[|done|], x, r[x]);
      } else {
        assert WrittenAt(orig, content, done, x);
        if k :| 0 <= k < |done| && WritesByte(done[k], x, content[x]) {
          assert WritesByte((done + [slot])[k], x, r[x]);
        }
      }
    }
  }

  lemma NothingWritten(orig: seq<byte>, content: seq<byte>, done: seq<Slot>, slot: Slot)
    requires Written(orig, content, done) && !HasPlaceholder(slot.current)
    ensures Written(orig, content, done + [slot])
  {
    hide ShortPath, HasPlaceholder;
    forall x: nat | x < |orig|
      ensures WrittenAt(orig, content, done + [slot], x)
    {
      assert WrittenAt(orig, content, done, x);
      if k :| 0 <= k < |done| && WritesByte(done[k], x, content[x]) {
        assert WritesByte((done + [slot])[k], x, content[x]);
      }
    }
  }

  lemma RewritesNuls(orig: seq<byte>, content: seq<byte>, r: seq<byte>, slot: Slot)
    requires SlotOf(orig, slot) && SameNuls(orig, content) && Rewrites(content, r, slot)
    ensures SameNuls(orig, r) && |orig| == |r|
  {
    hide ShortPath;
    forall x: nat | x < |orig|
      ensures r[x] == NUL <==> orig[x] == NUL
    {
      if slot.offset <= x < slot.offset + |slot.current| {
        NoNulInside(orig, slot.offset, slot.current, x);
        NoNulInside(r, slot.offset, ShortPath(slot.current), x);
      } else {
        assert r[x] == content[x];
        assert content[x] == NUL <==> orig[x] == NUL;
      }
    }
  }

  /** A word that appears in the new path was in the old one, and so in the image. */
  lemma WordInside(orig: seq<byte>, content: seq<byte>, r: seq<byte>, slot: Slot, p: nat, t: seq<byte>)
    requires SlotOf(orig, slot) && Rewrites(content, r, slot) && Word(t) && OccursAt(r, p, t)
    requires slot.offset <= p < slot.offset + |slot.current|
    ensures OccursAt(orig, p, t)
  {
    var o, n, i := slot.offset, |slot.current|, p - slot.offset;
    var path := ShortPath(slot.current);
    hide ShortPath, OccursAt;
    OccursInside(r, p, t);
    EndsBefore(r, p, t, o + n);
    assert r[o..o + n] == path && orig[o..o + n] == slot.current;
    hide SlotOf, Rewrites;
    SliceOfSlice(r, o, o + n, i, i + |t|);
    OccursIf(path, i, t);
    PathWord(slot.current, i, t);
    OutOfSlot(orig, o, slot.current, i, t);
  }

  /** A word cut at `o`. */
  lemma WordParts(s: seq<byte>, p: nat, o: nat, t: seq<byte>)
    requires Word(t) && p < o < p + |t| <= |s| && s[p..p + |t|] == t
    ensures Word(t[..o - p]) && s[p..o] == t[..o - p]
    ensures SLASH !in t[o - p..] && s[o..p + |t|] == t[o - p..]
  {
    SliceOfSlice(s, p, p + |t|, 0, o - p);
    SliceOfSlice(s, p, p + |t|, o - p, |t|);
  }

  lemma WordJoined(s: seq<byte>, p: nat, o: nat, t: seq<byte>)
    requires p < o < p + |t| <= |s| && s[p..o] == t[..o - p] && s[o..p + |t|] == t[o - p..]
    ensures OccursAt(s, p, t)
  {
    hide OccursAt;
    assert s[p..p + |t|] == s[p..o] + s[o..p + |t|];
    assert t == t[..o - p] + t[o - p..];
    OccursIf(s, p, t);
  }

  /** The part of an overlapping word in front of the slot. */
  lemma WordHead(orig: seq<byte>, content: seq<byte>, r: seq<byte>, slot: Slot, p: nat, head: seq<byte>)
    requires Rewrites(content, r, slot) && NoNewWords(orig, content) && Word(head) && |orig| == |r|
    requires p + |head| == slot.offset && r[p..slot.offset] == head
    ensures orig[p..slot.offset] == head
  {
    hide ShortPath, NoNewWords, OccursAt;
    assert content[p..slot.offset] == head;
    OccursIf(content, p, head);
    OldWord(orig, content, p, head);
    OccursInside(orig, p, head);
  }

  /** The part inside the slot. */
  lemma WordTail(orig: seq<byte>, content: seq<byte>, r: seq<byte>, slot: Slot, tail: seq<byte>)
    requires SlotOf(orig, slot) && Rewrites(content, r, slot) && SLASH !in tail && |tail| <= |slot.current|
    requires r[slot.offset..slot.offset + |tail|] == tail
    ensures orig[slot.offset..slot.offset + |tail|] == tail
  {
    hide ShortPath;
    var o, n := slot.offset, |slot.current|;
    assert r[o..o + n][..|tail|] == r[o..o + |tail|];
    PathPrefixKept(slot.current, tail);
    assert orig[o..o + n][..|tail|] == orig[o..o + |tail|];
  }

  lemma WordEnds(content: seq<byte>, r: seq<byte>, slot: Slot, p: nat, t: seq<byte>)
    requires Rewrites(content, r, slot) && Word(t) && OccursAt(r, p, t) && p < slot.offset
    ensures p + |t| <= |r| && r[p..p + |t|] == t && p + |t| <= slot.offset + |slot.current| < |r|
  {
    hide ShortPath, OccursAt;
    OccursInside(r, p, t);
    EndsBefore(r, p, t, slot.offset + |slot.current|);
  }

  /** A word that runs into the new path ran into the old one. */
  lemma WordAcross(orig: seq<byte>, content: seq<byte>, r: seq<byte>, slot: Slot, p: nat, t: seq<byte>)
    requires SlotOf(orig, slot) && Rewrites(content, r, slot) && NoNewWords(orig, content) && |orig| == |r|
    requires Word(t) && OccursAt(r, p, t) && p < slot.offset < p + |t|
    ensures OccursAt(orig, p, t)
  {
    WordEnds(content, r, slot, p, t);
    hide ShortPath, NoNewWords, OccursAt, Rewrites, SlotOf;
    WordParts(r, p, slot.offset, t);
    hide Word;
    WordHead(orig, content, r, slot, p, t[..slot.offset - p]);
    WordTail(orig, content, r, slot, t[slot.offset - p..]);
    WordJoined(orig, p, slot.offset, t);
  }

  lemma OldWord(orig: seq<byte>, content: seq<byte>, p: nat, t: seq<byte>)
    requires NoNewWords(orig, content) && Word(t) && OccursAt(content, p, t)
    ensures OccursAt(orig, p, t)
  {
  }

  lemma NoNulInside(s: seq<byte>, p: nat, t: seq<byte>, x: nat)
    requires NUL !in t && p <= x < p + |t| <= |s| && s[p..p + |t|] == t
    ensures s[x] != NUL
  {
    assert s[p..p + |t|][x - p] == s[x];
  }

  /** A word has no NUL, so it ends before the next one. */
  lemma EndsBefore(s: seq<byte>, p: nat, t: seq<byte>, end: nat)
    requires NUL !in t && p + |t| <= |s| && s[p..p + |t|] == t && p <= end < |s| && s[end] == NUL
    ensures p + |t| <= end
  {
    if p + |t| > end {
      NoNulInside(s, p, t, end);
    }
  }

  lemma WordOutside(orig: seq<byte>, content: seq<byte>, r: seq<byte>, slot: Slot, p: nat, t: seq<byte>)
    requires Rewrites(content, r, slot) && NoNewWords(orig, content)
    requires Word(t) && OccursAt(r, p, t) && (p + |t| <= slot.offset || slot.offset + |slot.current| <= p)
    ensures OccursAt(orig, p, t)
  {
    hide ShortPath, NoNewWords;
    OccursInside(r, p, t);
    assert content[p..p + |t|] == r[p..p + |t|];
    OccursIf(content, p, t);
    OldWord(orig, content, p, t);
  }

  lemma RewritesWords(orig: seq<byte>, content: seq<byte>, r: seq<byte>, slot: Slot)
    requires SlotOf(orig, slot) && Rewrites(content, r, slot) && NoNewWords(orig, content) && |orig| == |r|
    ensures NoNewWords(orig, r)
  {
    hide Rewrites, SlotOf, OccursAt, Word;
    forall p: nat, t | Word(t) && OccursAt(r, p, t)
      ensures OccursAt(orig, p, t)
    {
      if slot.offset <= p < slot.offset + |slot.current| {
        WordInside(orig, content, r, slot, p, t);
      } else if p < slot.offset < p + |t| {
        WordAcross(orig, content, r, slot, p, t);
      } else {
        WordOutside(orig, content, r, slot, p, t);
      }
    }
  }

  lemma OneWrite(orig: seq<byte>, content: seq<byte>, done: seq<Slot>, slot: Slot)
    requires SlotOf(orig, slot) && OnTheWay(orig, content, done)
    ensures OnTheWay(orig, RewriteRpath(content, slot), done + [slot])
  {
    hide Written, SameNuls, NoNewWords, HasPlaceholder, ShortPath, Rewrites, SlotOf, Patched;
    var r := RewriteRpath(content, slot);
    if HasPlaceholder(slot.current) {
      PatchRewrites(orig, content, slot);
      RewritesWritten(orig, content, r, done, slot);
      RewritesNuls(orig, content, r, slot);
      RewritesWords(orig, content, r, slot);
    } else {
      NothingWritten(orig, content, done, slot);
    }
  }

  lemma {:induction false} AllWrites(orig: seq<byte>, content: seq<byte>, done: seq<Slot>, slots: seq<Slot>)
    requires SlotsOf(orig, slots) && OnTheWay(orig, content, done)
    ensures OnTheWay(orig, RewriteRpaths(content, slots), done + slots)
    decreases |slots|
  {
    hide OnTheWay, SlotOf, RewriteRpath;
    if slots == [] {
      assert done + slots == done;
    } else {
      OneWrite(orig, content, done, slots[0]);
      assert forall k | 0 <= k < |slots| - 1 :: slots[1..][k] == slots[k + 1];
      AllWrites(orig, RewriteRpath(content, slots[0]), done + [slots[0]], slots[1..]);
      assert (done + [slots[0]]) + slots[1..] == done + slots;
    }
  }

  lemma NoWriteYet(orig: seq<byte>)
    ensures OnTheWay(orig, orig, [])
  {
  }

  /** After all writes: the bytes, the terminators, the words. */
  lemma RpathsOnTheWay(orig: seq<byte>, slots: seq<Slot>)
    requires SlotsOf(orig, slots)
    ensures OnTheWay(orig, RewriteRpaths(orig, slots), slots)
  {
    hide *;
    NoWriteYet(orig);
    AllWrites(orig, orig, [], slots);
    assert [] + slots == slots;
  }

  // ---------------------------------------------------------------- no placeholder is left

  /** An occurrence in the image that starts in a slot lies in its string. */
  lemma InSlot(orig: seq<byte>, slot: Slot, x: nat, q: seq<byte>)
    requires SlotOf(orig, slot) && OccursAt(orig, x, q) && NUL !in q
    requires slot.offset <= x < slot.offset + |slot.current|
    ensures OccursAt(slot.current, x - slot.offset, q) && x + |q| <= slot.offset + |slot.current|
  {
    hide OccursAt;
    var o, n := slot.offset, |slot.current|;
    assert o + n < |orig| && orig[o..o + n] == slot.current && orig[o + n] == NUL;
    hide SlotOf;
    OccursInside(orig, x, q);
    EndsBefore(orig, x, q, o + n);
    SliceOfSlice(orig, o, o + n, x - o, x - o + |q|);
    OccursIf(slot.current, x - o, q);
  }

  lemma OutOfSlot(content: seq<byte>, offset: nat, s: seq<byte>, i: nat, q: seq<byte>)
    requires offset + |s| <= |content| && content[offset..offset + |s|] == s && OccursAt(s, i, q)
    ensures OccursAt(content, offset + i, q) && i + |q| <= |s|
  {
    hide OccursAt;
    OccursInside(s, i, q);
    SliceOfSlice(content, offset, offset + |s|, i, i + |q|);
    OccursIf(content, offset + i, q);
  }

  /** The byte at `x` loses its fence in every path that is written over it. */
  ghost predicate Killed(orig: seq<byte>, slot: Slot, x: nat) {
    SlotOf(orig, slot) && slot.offset <= x < slot.offset + |slot.current| ==>
      |ShortPath(slot.current)| == |slot.current| && ShortPath(slot.current)[x - slot.offset] != AT
  }

  lemma CellarKilledIn(orig: seq<byte>, slot: Slot, x: nat)
    requires OccursAt(orig, x, CELLAR_PLACEHOLDER)
    ensures Killed(orig, slot, x)
  {
    hide ShortPath, OccursAt;
    ArePlaceholders();
    Shapes(CELLAR_PLACEHOLDER);
    if SlotOf(orig, slot) && slot.offset <= x < slot.offset + |slot.current| {
      InSlot(orig, slot, x, CELLAR_PLACEHOLDER);
      CellarKilled(slot.current, x - slot.offset);
    }
  }

  lemma PrefixKilledIn(orig: seq<byte>, slot: Slot, x: nat)
    requires OccursAt(orig, x, PREFIX_PLACEHOLDER) && NoneFrom(orig, CELLAR_PLACEHOLDER, x, 19)
    ensures Killed(orig, slot, x)
  {
    hide ShortPath, OccursAt, HasPlaceholder;
    ArePlaceholders();
    Shapes(PREFIX_PLACEHOLDER);
    if SlotOf(orig, slot) && slot.offset <= x < slot.offset + |slot.current| {
      var o := slot.offset;
      InSlot(orig, slot, x, PREFIX_PLACEHOLDER);
      forall j: nat | x - o <= j < x - o + 19
        ensures !OccursAt(slot.current, j, CELLAR_PLACEHOLDER)
      {
        assert !OccursAt(orig, o + j, CELLAR_PLACEHOLDER);
        if OccursAt(slot.current, j, CELLAR_PLACEHOLDER) {
          OutOfSlot(orig, o, slot.current, j, CELLAR_PLACEHOLDER);
        }
      }
      PrefixKilled(slot.current, x - o);
    }
  }

  /** Every placeholder of the image has a mark that no written path keeps: the beginning of a
      CELLAR that starts at or inside it, or else its own. */
  lemma KillPosition(orig: seq<byte>, p: nat, q: seq<byte>) returns (x: nat)
    requires IsPlaceholder(q) && OccursAt(orig, p, q)
    ensures p <= x < p + 19 == p + |q| && q[x - p] == AT && forall slot: Slot :: Killed(orig, slot, x)
  {
    hide OccursAt, Killed;
    Shapes(q);
    OccursInside(orig, p, q);
    if NoneFrom(orig, CELLAR_PLACEHOLDER, p, 19) {
      assert !OccursAt(orig, p, CELLAR_PLACEHOLDER);
      x := p;
      forall slot: Slot
        ensures Killed(orig, slot, x)
      {
        PrefixKilledIn(orig, slot, x);
      }
    } else {
      x :| p <= x < p + 19 && OccursAt(orig, x, CELLAR_PLACEHOLDER);
      Shapes(CELLAR_PLACEHOLDER);
      OccursInside(orig, x, CELLAR_PLACEHOLDER);
      assert orig[x] == orig[x..x + 19][0] == AT;
      assert orig[p..p + 19][x - p] == orig[x];
      forall slot: Slot
        ensures Killed(orig, slot, x)
      {
        CellarKilledIn(orig, slot, x);
      }
    }
  }

  /** Where the image had a placeholder inside a slot it has none afterwards. */
  lemma PlaceholderGone(orig: seq<byte>, after: seq<byte>, slots: seq<Slot>, k: nat, p: nat, q: seq<byte>)
    requires SlotsOf(orig, slots) && OnTheWay(orig, after, slots) && k < |slots|
    requires IsPlaceholder(q) && OccursAt(orig, p, q)
    requires slots[k].offset <= p < slots[k].offset + |slots[k].current|
    ensures !OccursAt(after, p, q)
  {
    hide ShortPath, OccursAt, SameNuls, NoNewWords, Killed, SlotOf;
    Shapes(q);
    var slot := slots[k];
    assert SlotOf(orig, slot);
    InSlot(orig, slot, p, q);
    var x := KillPosition(orig, p, q);
    StringHas(slot.current, p - slot.offset, q);
    assert Writes(slot, x);
    SlotEnds(orig, slot);
    assert WrittenAt(orig, after, slots, x);
    var d :| 0 <= d < |slots| && WritesByte(slots[d], x, after[x]);
    assert SlotOf(orig, slots[d]);
    KilledByte(orig, slots[d], x, after[x]);
    NotThere(after, p, q, x);
  }

  lemma NotThere(s: seq<byte>, p: nat, q: seq<byte>, x: nat)
    requires p <= x < |s| && x < p + |q| && q[x - p] != s[x]
    ensures !OccursAt(s, p, q)
  {
    assert s[p..][x - p] == s[x];
  }

  lemma SlotEnds(orig: seq<byte>, slot: Slot)
    requires SlotOf(orig, slot)
    ensures slot.offset + |slot.current| < |orig|
  {
  }

  lemma StringHas(s: seq<byte>, i: nat, q: seq<byte>)
    requires IsPlaceholder(q) && OccursAt(s, i, q)
    ensures HasPlaceholder(s)
  {
    hide OccursAt;
    assert Occurs(s, q);
  }

  lemma KilledByte(orig: seq<byte>, slot: Slot, x: nat, b: byte)
    requires Killed(orig, slot, x) && SlotOf(orig, slot) && WritesByte(slot, x, b)
    ensures b != AT
  {
    hide ShortPath, HasPlaceholder;
  }

  /** What stands in a slot afterwards has no placeholder. */
  lemma SlotIsClean(orig: seq<byte>, after: seq<byte>, slots: seq<Slot>, k: nat)
    requires SlotsOf(orig, slots) && OnTheWay(orig, after, slots) && k < |slots|
    ensures slots[k].offset + |slots[k].current| < |orig| == |after|
    ensures !HasPlaceholder(after[slots[k].offset..slots[k].offset + |slots[k].current|])
  {
    hide ShortPath, OccursAt, Written, SameNuls, NoNewWords, SlotOf, HasPlaceholder;
    assert SlotOf(orig, slots[k]);
    SlotEnds(orig, slots[k]);
    SameLength(orig, after, slots);
    var o, n := slots[k].offset, |slots[k].current|;
    var s := after[o..o + n];
    forall i: nat, q | IsPlaceholder(q)
      ensures !OccursAt(s, i, q)
    {
      Shapes(q);
      if OccursAt(s, i, q) {
        OutOfSlot(after, o, s, i, q);
        OldWord(orig, after, o + i, q);
        PlaceholderGone(orig, after, slots, k, o + i, q);
      }
    }
    Clean(s);
  }

  lemma SameLength(orig: seq<byte>, after: seq<byte>, slots: seq<Slot>)
    requires OnTheWay(orig, after, slots)
    ensures |after| == |orig|
  {
  }

  lemma Clean(s: seq<byte>)
    requires forall i: nat, q | IsPlaceholder(q) :: !OccursAt(s, i, q)
    ensures !HasPlaceholder(s)
  {
    ArePlaceholders();
    assert !Occurs(s, CELLAR_PLACEHOLDER) && !Occurs(s, PREFIX_PLACEHOLDER);
  }

  // ---------------------------------------------------------------- both writes

  /** No run path touches the interpreter segment. */
  ghost predicate ClearEntries(h: Headers, content: seq<byte>) {
    h.interp.Some? ==> forall j | 0 <= j < |h.rpathOffsets| :: ClearOf(content, h.interp.value, h.rpathOffsets[j])
  }

  /** The image after the interpreter write. */
  function Middle(h: Headers, content: seq<byte>, newInterpreter: seq<byte>): (r: seq<byte>)
    ensures |r| == |content|
  {
    var interp := InterpInfo(h, content);
    RewriteInterp(content, interp, NeedsInterpreter(interp, RpathInfo(h.rpathOffsets, content)), newInterpreter)
  }

  lemma ImageIsMiddle(h: Headers, content: seq<byte>, newInterpreter: seq<byte>)
    ensures RewriteImage(content, h, newInterpreter) ==
            RewriteRpaths(Middle(h, content, newInterpreter), RpathInfo(h.rpathOffsets, content))
  {
  }

  lemma {:induction false} SlotsRemain(content: seq<byte>, middle: seq<byte>, offsets: seq<nat>)
    requires forall j | 0 <= j < |offsets| :: ReadString(middle, offsets[j]) == ReadString(content, offsets[j])
    ensures SlotsOf(middle, RpathInfo(offsets, content))
  {
    hide Reads;
    if offsets != [] {
      SlotsRemain(content, middle, offsets[1..]);
      var rest := RpathInfo(offsets[1..], content);
      assert forall k | 0 <= k < |rest| :: SlotOf(middle, rest[k]);
      var current := ReadString(content, offsets[0]);
      if current.Some? {
        ReadsIsRead(content, offsets[0], current.value);
        assert SlotOf(middle, Slot(offsets[0], current.value, MaxLength(content, offsets[0])));
      }
    }
  }

  /** The run-path writes start from an image in which all run paths are as they were read. */
  lemma ImageOnTheWay(h: Headers, content: seq<byte>, newInterpreter: seq<byte>)
    requires ClearEntries(h, content)
    ensures var slots := RpathInfo(h.rpathOffsets, content);
            var middle := Middle(h, content, newInterpreter);
            && SlotsOf(middle, slots) && OnTheWay(middle, RewriteImage(content, h, newInterpreter), slots)
            && forall j | 0 <= j < |h.rpathOffsets| ::
                 ReadString(middle, h.rpathOffsets[j]) == ReadString(content, h.rpathOffsets[j])
  {
    hide InterpInfo, RewriteInterp, RpathInfo, NeedsInterpreter, SlotsOf, OnTheWay, ReadString;
    var interp := InterpInfo(h, content);
    var needed := NeedsInterpreter(interp, RpathInfo(h.rpathOffsets, content));
    forall j | 0 <= j < |h.rpathOffsets|
      ensures ReadString(Middle(h, content, newInterpreter), h.rpathOffsets[j])
              == ReadString(content, h.rpathOffsets[j])
    {
      InterpLeavesRpath(h, content, needed, newInterpreter, h.rpathOffsets[j]);
    }
    SlotsRemain(content, Middle(h, content, newInterpreter), h.rpathOffsets);
    RpathsOnTheWay(Middle(h, content, newInterpreter), RpathInfo(h.rpathOffsets, content));
    ImageIsMiddle(h, content, newInterpreter);
  }

  /** A byte that no slot covers is as the interpreter write left it. */
  lemma UncoveredStays(middle: seq<byte>, after: seq<byte>, slots: seq<Slot>, x: nat)
    requires OnTheWay(middle, after, slots) && x < |middle|
    requires forall k | 0 <= k < |slots| :: Apart(slots[k].offset, |slots[k].current|, x, 1)
    ensures |after| == |middle| && after[x] == middle[x]
  {
    hide ShortPath, HasPlaceholder;
    assert WrittenAt(middle, after, slots, x);
  }

  /** Terminators stay, so an interpreter slot without one still has none. */
  lemma InterpStaysAbsent(h: Headers, content: seq<byte>, after: seq<byte>)
    requires InterpInfo(h, content).None? && SameNuls(content, after)
    ensures InterpInfo(h, after).None?
  {
    if h.interp.Some? {
      var offset := h.interp.value.offset;
      if ReadString(content, offset).None? {
        assert forall i :: offset <= i < |content| ==> content[i] != NUL;
      }
    }
  }

  lemma NotFitting(content: seq<byte>, offset: nat, maxLen: nat, s: seq<byte>)
    requires !Fits(content, offset, maxLen, s)
    ensures Patched(content, offset, maxLen, s) == content
  {
  }

  /** Patching where the patch already is changes nothing. */
  lemma PatchAgain(content: seq<byte>, after: seq<byte>, offset: nat, maxLen: nat, s: seq<byte>)
    requires Fits(content, offset, maxLen, s) && |after| == |content|
    requires forall i :: offset <= i < offset + maxLen ==> after[i] == Patched(content, offset, maxLen, s)[i]
    ensures Patched(after, offset, maxLen, s) == after
  {
  }

  lemma PatchReads(content: seq<byte>, offset: nat, maxLen: nat, s: seq<byte>)
    requires Fits(content, offset, maxLen, s) && NUL !in s && Patched(content, offset, maxLen, s) == content
    ensures Reads(content, offset, s)
  {
    var r := Patched(content, offset, maxLen, s);
    assert r[offset..offset + |s|] == s;
    assert r[offset + |s|] == Zeros(maxLen - |s|)[0];
  }

  lemma {:induction false} SlotsClear(h: Headers, content: seq<byte>, offsets: seq<nat>)
    requires h.interp.Some? && forall j | 0 <= j < |offsets| :: ClearOf(content, h.interp.value, offsets[j])
    ensures var slots := RpathInfo(offsets, content);
            forall k | 0 <= k < |slots| ::
              Apart(slots[k].offset, slots[k].maxLen, h.interp.value.offset, h.interp.value.filesz)
  {
    var slots := RpathInfo(offsets, content);
    RpathSlots(offsets, content);
    forall k | 0 <= k < |slots|
      ensures Apart(slots[k].offset, slots[k].maxLen, h.interp.value.offset, h.interp.value.filesz)
    {
      SlotComesFrom(offsets, content, k);
      var j :| 0 <= j < |offsets| && offsets[j] == slots[k].offset;
      assert ClearOf(content, h.interp.value, offsets[j]) && SlotOf(content, slots[k]);
      SlotMax(content, slots[k]);
    }
  }

  lemma SegmentStays(h: Headers, content: seq<byte>, newInterpreter: seq<byte>, x: nat)
    requires ClearEntries(h, content) && h.interp.Some? && x < |content|
    requires h.interp.value.offset <= x < h.interp.value.offset + h.interp.value.filesz
    ensures RewriteImage(content, h, newInterpreter)[x] == Middle(h, content, newInterpreter)[x]
  {
    hide Middle, RewriteImage, RpathInfo, SlotsOf, OnTheWay, Reads;
    ImageOnTheWay(h, content, newInterpreter);
    SlotsClear(h, content, h.rpathOffsets);
    RpathSlots(h.rpathOffsets, content);
    var slots := RpathInfo(h.rpathOffsets, content);
    forall k | 0 <= k < |slots|
      ensures Apart(slots[k].offset, |slots[k].current|, x, 1)
    {
      assert SlotOf(content, slots[k]);
      SlotMax(content, slots[k]);
    }
    UncoveredStays(Middle(h, content, newInterpreter), RewriteImage(content, h, newInterpreter),
                   RpathInfo(h.rpathOffsets, content), x);
  }

  /** Where the interpreter was written, it stays. */
  lemma InterpSlotStays(h: Headers, content: seq<byte>, newInterpreter: seq<byte>)
    requires ClearEntries(h, content) && h.interp.Some?
    requires var segment := h.interp.value;
             && Fits(content, segment.offset, segment.filesz, newInterpreter)
             && Middle(h, content, newInterpreter) == Patched(content, segment.offset, segment.filesz, newInterpreter)
    ensures var (after, segment) := (RewriteImage(content, h, newInterpreter), h.interp.value);
            Patched(after, segment.offset, segment.filesz, newInterpreter) == after
  {
    hide RewriteImage, Middle, ClearEntries, Patched;
    var segment := h.interp.value;
    var after := RewriteImage(content, h, newInterpreter);
    forall x: nat | segment.offset <= x < segment.offset + segment.filesz
      ensures after[x] == Patched(content, segment.offset, segment.filesz, newInterpreter)[x]
    {
      SegmentStays(h, content, newInterpreter, x);
    }
    PatchAgain(content, after, segment.offset, segment.filesz, newInterpreter);
  }

  /** The second run's interpreter write, if there is one, changes nothing. */
  lemma InterpStays(h: Headers, content: seq<byte>, newInterpreter: seq<byte>)
    requires ClearEntries(h, content)
    requires NeedsInterpreter(InterpInfo(h, content), RpathInfo(h.rpathOffsets, content))
    ensures var after := RewriteImage(content, h, newInterpreter);
            RewriteInterp(after, InterpInfo(h, after), true, newInterpreter) == after
  {
    hide RewriteImage, Patched, ClearEntries, NeedsInterpreter, RpathInfo;
    var interp := InterpInfo(h, content);
    var after := RewriteImage(content, h, newInterpreter);
    if interp.None? {
      AbsentStays(h, content, newInterpreter);
    } else if Fits(content, interp.value.offset, interp.value.maxLen, newInterpreter) {
      InterpSlotStays(h, content, newInterpreter);
    } else {
      NotFitting(after, interp.value.offset, interp.value.maxLen, newInterpreter);
    }
  }

  lemma AbsentStays(h: Headers, content: seq<byte>, newInterpreter: seq<byte>)
    requires ClearEntries(h, content) && InterpInfo(h, content).None?
    ensures InterpInfo(h, RewriteImage(content, h, newInterpreter)).None?
  {
    hide RewriteImage, RpathInfo, Written, NoNewWords, SlotsOf, InterpInfo;
    ImageOnTheWay(h, content, newInterpreter);
    assert Middle(h, content, newInterpreter) == content;
    InterpStaysAbsent(h, content, RewriteImage(content, h, newInterpreter));
  }

  // ---------------------------------------------------------------- the second run

  /** After the rewrite no run path has a placeholder, however the entries overlap. */
  lemma EntryIsClean(h: Headers, content: seq<byte>, newInterpreter: seq<byte>, j: nat)
    requires ClearEntries(h, content) && j < |h.rpathOffsets|
    ensures var current := ReadString(RewriteImage(content, h, newInterpreter), h.rpathOffsets[j]);
            current.Some? ==> !HasPlaceholder(current.value)
  {
    hide RewriteImage, Middle, RpathInfo, SlotsOf, OnTheWay, HasPlaceholder, ReadString;
    var offset, slots := h.rpathOffsets[j], RpathInfo(h.rpathOffsets, content);
    var middle, after := Middle(h, content, newInterpreter), RewriteImage(content, h, newInterpreter);
    ImageOnTheWay(h, content, newInterpreter);
    NulsStay(middle, after, slots);
    if ReadString(middle, offset).Some? {
      var k := EntrySlot(h.rpathOffsets, content, j);
      SlotIsClean(middle, after, slots, k);
      SameEnd(middle, after, offset);
    } else {
      StillUnterminated(middle, after, offset);
    }
  }

  lemma NulsStay(orig: seq<byte>, after: seq<byte>, slots: seq<Slot>)
    requires OnTheWay(orig, after, slots)
    ensures SameNuls(orig, after)
  {
  }

  lemma SameEnd(content: seq<byte>, after: seq<byte>, offset: nat)
    requires SameNuls(content, after) && ReadString(content, offset).Some?
    ensures var n := |ReadString(content, offset).value|;
            offset + n <= |after| && ReadString(after, offset) == Some(after[offset..offset + n])
  {
    var s := ReadString(content, offset).value;
    assert forall x | offset <= x < offset + |s| :: content[x] == s[x - offset];
    ReadsIsRead(after, offset, after[offset..offset + |s|]);
  }

  lemma StillUnterminated(content: seq<byte>, after: seq<byte>, offset: nat)
    requires SameNuls(content, after) && ReadString(content, offset).None?
    ensures ReadString(after, offset).None?
  {
    assert forall i :: offset <= i < |content| ==> content[i] != NUL;
  }

  /** Slots without placeholder. */
  ghost predicate AllClean(slots: seq<Slot>) {
    forall k | 0 <= k < |slots| :: !HasPlaceholder(slots[k].current)
  }

  lemma {:induction false} RpathsClean(offsets: seq<nat>, content: seq<byte>)
    requires forall j | 0 <= j < |offsets| ::
               var current := ReadString(content, offsets[j]); current.Some? ==> !HasPlaceholder(current.value)
    ensures AllClean(RpathInfo(offsets, content))
  {
    hide HasPlaceholder, ReadString, MaxLength;
    if offsets != [] {
      RpathsClean(offsets[1..], content);
      var rest := RpathInfo(offsets[1..], content);
      assert forall k | 0 <= k < |rest| :: !HasPlaceholder(rest[k].current);
      assert ReadString(content, offsets[0]).Some? ==> !HasPlaceholder(ReadString(content, offsets[0]).value);
    }
  }

  /** Without placeholder no run path is written. */
  lemma {:induction false} NothingNeeded(content: seq<byte>, slots: seq<Slot>)
    requires AllClean(slots)
    ensures RewriteRpaths(content, slots) == content
    decreases |slots|
  {
    hide HasPlaceholder;
    if slots != [] {
      assert forall k | 0 <= k < |slots| - 1 :: slots[1..][k] == slots[k + 1];
      NothingNeeded(content, slots[1..]);
    }
  }

  /** Without need for the Homebrew loader nothing is written at all. */
  lemma NotNeeded(h: Headers, content: seq<byte>, newInterpreter: seq<byte>)
    requires !NeedsInterpreter(InterpInfo(h, content), RpathInfo(h.rpathOffsets, content))
    ensures RewriteImage(content, h, newInterpreter) == content
  {
    hide HasPlaceholder, Contains, RpathInfo, InterpInfo;
    NothingNeeded(content, RpathInfo(h.rpathOffsets, content));
  }

  /** Rewriting an image twice is rewriting it once: whether the second run is triggered by the
      short prefix, whether the interpreter fits, whether its string ends inside its slot, and
      whether run paths share bytes. */
  lemma RewriteImageTwice(content: seq<byte>, h: Headers, newInterpreter: seq<byte>)
    requires ClearEntries(h, content)
    ensures var after := RewriteImage(content, h, newInterpreter);
            RewriteImage(after, h, newInterpreter) == after
  {
    hide RewriteImage, RpathInfo, InterpInfo, NeedsInterpreter, HasPlaceholder, ClearEntries, ReadString;
    var after := RewriteImage(content, h, newInterpreter);
    if NeedsInterpreter(InterpInfo(h, content), RpathInfo(h.rpathOffsets, content)) {
      InterpStays(h, content, newInterpreter);
      forall j | 0 <= j < |h.rpathOffsets|
        ensures var current := ReadString(after, h.rpathOffsets[j]); current.Some? ==> !HasPlaceholder(current.value)
      {
        EntryIsClean(h, content, newInterpreter, j);
      }
      RpathsClean(h.rpathOffsets, after);
      NothingNeeded(after, RpathInfo(h.rpathOffsets, after));
      StaysItself(after, h, newInterpreter);
    } else {
      NotNeeded(h, content, newInterpreter);
    }
  }

  lemma StaysItself(content: seq<byte>, h: Headers, newInterpreter: seq<byte>)
    requires RewriteInterp(content, InterpInfo(h, content), true, newInterpreter) == content
    requires RewriteRpaths(content, RpathInfo(h.rpathOffsets, content)) == content
    ensures RewriteImage(content, h, newInterpreter) == content
  {
    hide RpathInfo, InterpInfo, Patched;
  }

  // ---------------------------------------------------------------- the interpreter and the rest

  /** When the Homebrew loader is needed and fits, it is what the image names afterwards. */
  lemma InterpRewritten(h: Headers, content: seq<byte>, newInterpreter: seq<byte>)
    requires ClearEntries(h, content) && NUL !in newInterpreter
    requires var interp := InterpInfo(h, content);
             && NeedsInterpreter(interp, RpathInfo(h.rpathOffsets, content))
             && interp.Some? && Fits(content, interp.value.offset, interp.value.maxLen, newInterpreter)
    ensures ReadString(RewriteImage(content, h, newInterpreter), h.interp.value.offset) == Some(newInterpreter)
  {
    hide RewriteImage, RpathInfo, NeedsInterpreter, ClearEntries, Patched, ReadString;
    var after, segment := RewriteImage(content, h, newInterpreter), h.interp.value;
    InterpSlotStays(h, content, newInterpreter);
    PatchReads(after, segment.offset, segment.filesz, newInterpreter);
    ReadsIsRead(after, segment.offset, newInterpreter);
  }

  /** No byte outside the interpreter segment and the run-path strings changes. */
  lemma RestUntouched(h: Headers, content: seq<byte>, newInterpreter: seq<byte>, i: nat)
    requires ClearEntries(h, content) && i < |content|
    requires h.interp.Some? ==> Apart(h.interp.value.offset, h.interp.value.filesz, i, 1)
    requires forall j | 0 <= j < |h.rpathOffsets| ::
               Apart(h.rpathOffsets[j], MaxLength(content, h.rpathOffsets[j]), i, 1)
    ensures RewriteImage(content, h, newInterpreter)[i] == content[i]
  {
    hide RewriteImage, RpathInfo, NeedsInterpreter, ClearEntries, SlotsOf, OnTheWay, Reads;
    var slots, middle := RpathInfo(h.rpathOffsets, content), Middle(h, content, newInterpreter);
    ImageOnTheWay(h, content, newInterpreter);
    RpathSlots(h.rpathOffsets, content);
    forall k | 0 <= k < |slots|
      ensures Apart(slots[k].offset, |slots[k].current|, i, 1)
    {
      SlotComesFrom(h.rpathOffsets, content, k);
      assert SlotOf(content, slots[k]);
      SlotMax(content, slots[k]);
    }
    UncoveredStays(middle, RewriteImage(content, h, newInterpreter), slots, i);
    MiddleOutside(h, content, newInterpreter, i);
  }

  lemma MiddleOutside(h: Headers, content: seq<byte>, newInterpreter: seq<byte>, i: nat)
    requires i < |content| && (h.interp.Some? ==> Apart(h.interp.value.offset, h.interp.value.filesz, i, 1))
    ensures Middle(h, content, newInterpreter)[i] == content[i]
  {
    hide RpathInfo, NeedsInterpreter;
  }
}
