/**
 What the run-path entries of an ELF image read after the rewrite (BrewElf), also where their
 strings share bytes: two that overlap end at the same terminator.
 */
module BrewElfPaths {
  import opened Wrappers
  import opened Bytes
  import opened Substitution
  import opened BrewText
  import opened BrewElf
  import opened BrewElfTwice

  // ---------------------------------------------------------------- what the entries read

  /** Where two readable entries share bytes, the shorter string is the end of the longer one, and
      their new paths end alike. */
  ghost predicate TailAgrees(content: seq<byte>, offset1: nat, offset2: nat) {
    var a, b := ReadString(content, offset1), ReadString(content, offset2);
    a.Some? && b.Some? && offset1 <= offset2 <= offset1 + |a.value| ==>
      offset2 - offset1 <= |NewPath(a.value)| && NewPath(a.value)[offset2 - offset1..] == NewPath(b.value)
  }

  ghost predicate TailsAgree(content: seq<byte>, offsets: seq<nat>) {
    forall j, k | 0 <= j < |offsets| && 0 <= k < |offsets| :: TailAgrees(content, offsets[j], offsets[k])
  }

  lemma NewPathLength(s: seq<byte>)
    requires NUL !in s
    ensures |NewPath(s)| == |s| && NUL !in NewPath(s)
  {
    hide ShortPath, HasPlaceholder;
    ShortPathFits(s);
  }

  lemma ReadNoNul(content: seq<byte>, offset: nat)
    requires ReadString(content, offset).Some?
    ensures NUL !in ReadString(content, offset).value
    ensures Reads(content, offset, ReadString(content, offset).value)
  {
  }

  /** Two strings that overlap end together. */
  lemma SameTerminator(content: seq<byte>, o1: nat, a: seq<byte>, o2: nat, b: seq<byte>)
    requires Reads(content, o1, a) && Reads(content, o2, b) && o1 <= o2 <= o1 + |a|
    ensures o1 + |a| == o2 + |b|
  {
    EndsBefore(content, o1, a, o2 + |b|);
    EndsBefore(content, o2, b, o1 + |a|);
  }

  lemma NewPathThere(content: seq<byte>, after: seq<byte>, o: nat)
    requires Becomes(content, after, o) && ReadString(content, o).Some?
    ensures var a := ReadString(content, o).value;
            && Reads(content, o, a) && |NewPath(a)| == |a|
            && o + |a| <= |after| && after[o..o + |a|] == NewPath(a)
  {
    hide NewPath;
    ReadNoNul(content, o);
    NewPathLength(ReadString(content, o).value);
    ReadNoNul(after, o);
  }

  /** If both entries read their new paths, these end alike. */
  lemma BecomeAgree(content: seq<byte>, after: seq<byte>, o1: nat, o2: nat)
    requires Becomes(content, after, o1) && Becomes(content, after, o2)
    ensures TailAgrees(content, o1, o2)
  {
    hide NewPath, ReadString, Becomes, Reads;
    var a, b := ReadString(content, o1), ReadString(content, o2);
    if a.Some? && b.Some? && o1 <= o2 <= o1 + |a.value| {
      NewPathThere(content, after, o1);
      NewPathThere(content, after, o2);
      SameTerminator(content, o1, a.value, o2, b.value);
      DropDropSlice(after, o1, o2, o2 + |b.value|);
    }
  }

  lemma DropDropSlice(s: seq<byte>, a: nat, b: nat, e: nat)
    requires a <= b <= e <= |s|
    ensures s[a..e][b - a..] == s[b..e]
  {
  }

  /** The byte that slot `d` writes at `x` is the one that the new path of slot `k` has there. */
  lemma WriterAgrees(orig: seq<byte>, d: Slot, k: Slot, x: nat, b: byte)
    requires SlotOf(orig, d) && SlotOf(orig, k) && WritesByte(d, x, b)
    requires k.offset <= x < k.offset + |k.current| && |NewPath(k.current)| == |k.current|
    requires d.offset <= k.offset <= d.offset + |d.current| ==>
               k.offset - d.offset <= |NewPath(d.current)|
               && NewPath(d.current)[k.offset - d.offset..] == NewPath(k.current)
    requires k.offset <= d.offset <= k.offset + |k.current| ==>
               d.offset - k.offset <= |NewPath(k.current)|
               && NewPath(k.current)[d.offset - k.offset..] == NewPath(d.current)
    ensures NewPath(k.current)[x - k.offset] == b
  {
    hide ShortPath, HasPlaceholder, SlotOf;
    assert NewPath(d.current) == ShortPath(d.current);
    if d.offset <= k.offset {
      assert NewPath(d.current)[k.offset - d.offset..][x - k.offset] == NewPath(d.current)[x - d.offset];
    } else {
      assert NewPath(k.current)[d.offset - k.offset..][x - d.offset] == NewPath(k.current)[x - k.offset];
    }
  }

  /** Two slots agree where they overlap. */
  ghost predicate Agreeing(j: Slot, k: Slot) {
    j.offset <= k.offset <= j.offset + |j.current| ==>
      k.offset - j.offset <= |NewPath(j.current)| && NewPath(j.current)[k.offset - j.offset..] == NewPath(k.current)
  }

  ghost predicate SlotsAgree(slots: seq<Slot>) {
    forall j, k | 0 <= j < |slots| && 0 <= k < |slots| :: Agreeing(slots[j], slots[k])
  }

  lemma SlotIsEntry(offsets: seq<nat>, content: seq<byte>, k: nat) returns (j: nat)
    requires k < |RpathInfo(offsets, content)|
    ensures var slot := RpathInfo(offsets, content)[k];
            j < |offsets| && offsets[j] == slot.offset && ReadString(content, offsets[j]) == Some(slot.current)
  {
    hide RpathInfo;
    SlotComesFrom(offsets, content, k);
    j :| 0 <= j < |offsets| && offsets[j] == RpathInfo(offsets, content)[k].offset;
    RpathSlots(offsets, content);
    assert SlotOf(content, RpathInfo(offsets, content)[k]);
    ReadsIsRead(content, offsets[j], RpathInfo(offsets, content)[k].current);
  }

  lemma EntriesAgree(offsets: seq<nat>, content: seq<byte>)
    requires TailsAgree(content, offsets)
    ensures SlotsAgree(RpathInfo(offsets, content))
  {
    hide RpathInfo, ReadString, NewPath;
    var slots := RpathInfo(offsets, content);
    forall d, k | 0 <= d < |slots| && 0 <= k < |slots|
      ensures Agreeing(slots[d], slots[k])
    {
      var i := SlotIsEntry(offsets, content, d);
      var j := SlotIsEntry(offsets, content, k);
      assert TailAgrees(content, offsets[i], offsets[j]);
    }
  }

  lemma KeptByte(middle: seq<byte>, slot: Slot, x: nat)
    requires SlotOf(middle, slot) && slot.offset <= x < slot.offset + |slot.current| && !Writes(slot, x)
    ensures x < |middle| && NewPath(slot.current) == slot.current && slot.current[x - slot.offset] == middle[x]
  {
    hide ShortPath, HasPlaceholder;
    SlotString(middle, slot);
    assert middle[slot.offset..slot.offset + |slot.current|][x - slot.offset] == middle[x];
  }

  lemma BothAgree(slots: seq<Slot>, d: nat, k: nat)
    requires SlotsAgree(slots) && d < |slots| && k < |slots|
    ensures Agreeing(slots[d], slots[k]) && Agreeing(slots[k], slots[d])
  {
    hide Agreeing;
  }

  /** Every byte of a slot is that of its new path. */
  lemma AgreedByte(middle: seq<byte>, after: seq<byte>, slots: seq<Slot>, k: nat, x: nat)
    requires SlotsOf(middle, slots) && OnTheWay(middle, after, slots) && SlotsAgree(slots) && k < |slots|
    requires slots[k].offset <= x < slots[k].offset + |slots[k].current|
    ensures x < |after| && |NewPath(slots[k].current)| == |slots[k].current|
    ensures after[x] == NewPath(slots[k].current)[x - slots[k].offset]
  {
    hide SameNuls, NoNewWords, SlotsAgree, NewPath, SlotOf, Writes, WritesByte;
    var slot := slots[k];
    assert SlotOf(middle, slot);
    SlotString(middle, slot);
    NewPathLength(slot.current);
    assert WrittenAt(middle, after, slots, x);
    if d :| 0 <= d < |slots| && WritesByte(slots[d], x, after[x]) {
      assert SlotOf(middle, slots[d]);
      BothAgree(slots, d, k);
      WriterAgrees(middle, slots[d], slot, x, after[x]);
    } else {
      KeptByte(middle, slot, x);
    }
  }

  lemma SlotString(content: seq<byte>, slot: Slot)
    requires SlotOf(content, slot)
    ensures NUL !in slot.current && slot.offset + |slot.current| < |content|
    ensures content[slot.offset..slot.offset + |slot.current|] == slot.current
  {
  }

  lemma SlotReadsNew(middle: seq<byte>, after: seq<byte>, slots: seq<Slot>, k: nat)
    requires SlotsOf(middle, slots) && OnTheWay(middle, after, slots) && SlotsAgree(slots) && k < |slots|
    ensures var (o, n) := (slots[k].offset, |slots[k].current|);
            o + n <= |after| && after[o..o + n] == NewPath(slots[k].current)
  {
    hide Written, NoNewWords, NewPath, SlotsAgree;
    SlotString(middle, slots[k]);
    hide SlotsOf;
    SameLength(middle, after, slots);
    hide OnTheWay;
    var o, n, path := slots[k].offset, |slots[k].current|, NewPath(slots[k].current);
    NewPathLength(slots[k].current);
    forall i | 0 <= i < n
      ensures after[o..o + n][i] == path[i]
    {
      AgreedByte(middle, after, slots, k, o + i);
    }
  }

  lemma EntryBecomes(h: Headers, content: seq<byte>, newInterpreter: seq<byte>, j: nat)
    requires ClearEntries(h, content) && TailsAgree(content, h.rpathOffsets) && j < |h.rpathOffsets|
    ensures Becomes(content, RewriteImage(content, h, newInterpreter), h.rpathOffsets[j])
  {
    hide RewriteImage, Middle, RpathInfo, SlotsOf, OnTheWay, ReadString, NewPath, SlotsAgree, TailsAgree;
    var offset, slots := h.rpathOffsets[j], RpathInfo(h.rpathOffsets, content);
    var middle, after := Middle(h, content, newInterpreter), RewriteImage(content, h, newInterpreter);
    ImageOnTheWay(h, content, newInterpreter);
    NulsStay(middle, after, slots);
    EntriesAgree(h.rpathOffsets, content);
    if ReadString(middle, offset).Some? {
      var k := EntrySlot(h.rpathOffsets, content, j);
      SlotReadsNew(middle, after, slots, k);
      SameEnd(middle, after, offset);
    } else {
      StillUnterminated(middle, after, offset);
    }
  }

  /** Every RPATH/RUNPATH entry reads its path with placeholders replaced, whatever happened to the
      interpreter, if and only if overlapping paths end alike when replaced; unterminated entries
      stay unreadable. */
  lemma RpathsRewritten(h: Headers, content: seq<byte>, newInterpreter: seq<byte>)
    requires ClearEntries(h, content)
    ensures (forall j | 0 <= j < |h.rpathOffsets| ::
               Becomes(content, RewriteImage(content, h, newInterpreter), h.rpathOffsets[j]))
            <==> TailsAgree(content, h.rpathOffsets)
  {
    hide RewriteImage, ClearEntries, Becomes, TailAgrees;
    var offsets, after := h.rpathOffsets, RewriteImage(content, h, newInterpreter);
    if TailsAgree(content, offsets) {
      forall j | 0 <= j < |offsets|
        ensures Becomes(content, after, offsets[j])
      {
        EntryBecomes(h, content, newInterpreter, j);
      }
    }
    if forall j | 0 <= j < |offsets| :: Becomes(content, after, offsets[j]) {
      forall j, k | 0 <= j < |offsets| && 0 <= k < |offsets|
        ensures TailAgrees(content, offsets[j], offsets[k])
      {
        BecomeAgree(content, after, offsets[j], offsets[k]);
      }
    }
  }

  // ---------------------------------------------------------------- when overlapping paths end alike

  /** No placeholder starts before `n` and ends after. */
  ghost predicate NoneStraddles(s: seq<byte>, n: nat, q: seq<byte>) {
    forall p | 0 <= p < n < p + |q| :: !OccursAt(s, p, q)
  }

  /** A pass works on both sides of a boundary by itself when no placeholder straddles it. */
  lemma {:induction false} PassSplits(head: seq<byte>, tail: seq<byte>, q: seq<byte>)
    requires IsPlaceholder(q) && NoneStraddles(head + tail, |head|, q)
    ensures Pass(head + tail, q) == Pass(head, q) + Pass(tail, q)
    decreases |head|
  {
    hide Pass, OccursAt, IsPlaceholder;
    var s := head + tail;
    PassLength(head, q);
    if head == [] {
      assert s == tail;
    } else {
      Shapes(q);
      AtHead(s, q);
      HeadStraddles(head, tail, q);
      PassStep(s, q);
      PassStep(head, q);
      var m := if q <= s then 19 else 1;
      assert s[m..] == head[m..] + tail;
      StraddlesSuffix(head, tail, q, m);
      PassSplits(head[m..], tail, q);
      Reassociate(if q <= s then SHORT_PREFIX else [s[0]], Pass(head[m..], q), Pass(tail, q));
    }
  }

  /** At the head a placeholder lies in `head` or nowhere. */
  lemma HeadStraddles(head: seq<byte>, tail: seq<byte>, q: seq<byte>)
    requires head != [] && |q| == 19 && NoneStraddles(head + tail, |head|, q)
    ensures q <= head + tail <==> q <= head
  {
    AtHead(head + tail, q);
  }

  lemma StraddlesSuffix(head: seq<byte>, tail: seq<byte>, q: seq<byte>, m: nat)
    requires m <= |head| && NoneStraddles(head + tail, |head|, q)
    ensures NoneStraddles(head[m..] + tail, |head| - m, q)
  {
    hide OccursAt;
    var s := head + tail;
    assert s[m..] == head[m..] + tail;
    forall p: nat | p < |head| - m < p + |q|
      ensures !OccursAt(s[m..], p, q)
    {
      OccursAtSuffix(s, m, p, q);
    }
  }

  /** The first pass brings about no straddling placeholder. */
  lemma StillNoneStraddles(s: seq<byte>, n: nat, q: seq<byte>, first: seq<byte>)
    requires IsPlaceholder(q) && IsPlaceholder(first) && NoneStraddles(s, n, q)
    ensures NoneStraddles(Pass(s, first), n, q)
  {
    hide Pass, OccursAt, IsPlaceholder;
    Shapes(q);
    forall p: nat | p < n < p + |q|
      ensures !OccursAt(Pass(s, first), p, q)
    {
      if OccursAt(Pass(s, first), p, q) {
        PassWord(s, first, p, q);
      }
    }
  }

  lemma ShortPathSplits(head: seq<byte>, tail: seq<byte>)
    requires NoneStraddles(head + tail, |head|, CELLAR_PLACEHOLDER)
    requires NoneStraddles(head + tail, |head|, PREFIX_PLACEHOLDER)
    ensures |ShortPath(head)| == |head| && ShortPath(head + tail) == ShortPath(head) + ShortPath(tail)
  {
    hide *;
    var c, p := CELLAR_PLACEHOLDER, PREFIX_PLACEHOLDER;
    ArePlaceholders();
    ShortPathIsPasses(head + tail);
    ShortPathIsPasses(head);
    ShortPathIsPasses(tail);
    PassSplits(head, tail, c);
    StillNoneStraddles(head + tail, |head|, p, c);
    PassSplits(Pass(head, c), Pass(tail, c), p);
  }

  /** A path without placeholder is its own replacement. */
  lemma NewPathIsShort(s: seq<byte>)
    ensures NewPath(s) == ShortPath(s)
  {
    if !HasPlaceholder(s) {
      SubstituteNothing(s, Shorten(CELLAR_PLACEHOLDER));
      SubstituteNothing(s, Shorten(PREFIX_PLACEHOLDER));
    }
  }

  /** No placeholder of the image straddles the start of the entry at `offset2` from the string of
      the entry at `offset1`. */
  ghost predicate Unstraddled(content: seq<byte>, offset1: nat, offset2: nat) {
    forall p: nat, q | IsPlaceholder(q) && offset1 <= p < offset2 < p + |q| :: !OccursAt(content, p, q)
  }

  /** Overlapping paths end alike when no placeholder of the longer straddles the start of the
      shorter. */
  lemma UnstraddledAgrees(content: seq<byte>, o1: nat, o2: nat)
    requires Unstraddled(content, o1, o2)
    ensures TailAgrees(content, o1, o2)
  {
    hide NewPath, Unstraddled;
    var a, b := ReadString(content, o1), ReadString(content, o2);
    if a.Some? && b.Some? && o1 <= o2 <= o1 + |a.value| {
      ReadNoNul(content, o1);
      ReadNoNul(content, o2);
      SameTerminator(content, o1, a.value, o2, b.value);
      var m := o2 - o1;
      var head, tail := a.value[..m], a.value[m..];
      DropDropSlice(content, o1, o2, o1 + |a.value|);
      assert tail == b.value && a.value == head + tail;
      hide ReadString;
      InsideUnstraddled(content, o1, o2, a.value, CELLAR_PLACEHOLDER);
      InsideUnstraddled(content, o1, o2, a.value, PREFIX_PLACEHOLDER);
      hide Reads;
      ShortPathSplits(head, tail);
      NewPathIsShort(a.value);
      NewPathIsShort(b.value);
      HeadTail(ShortPath(head), ShortPath(tail));
    }
  }

  lemma InsideUnstraddled(content: seq<byte>, o1: nat, o2: nat, a: seq<byte>, q: seq<byte>)
    requires Unstraddled(content, o1, o2) && Reads(content, o1, a) && o1 <= o2 && IsPlaceholder(q)
    ensures NoneStraddles(a, o2 - o1, q)
  {
    hide OccursAt, IsPlaceholder;
    forall p: nat | p < o2 - o1 < p + |q|
      ensures !OccursAt(a, p, q)
    {
      assert !OccursAt(content, o1 + p, q);
      if OccursAt(a, p, q) {
        OutOfSlot(content, o1, a, p, q);
      }
    }
  }

  lemma SomeEntryDiffers(h: Headers, content: seq<byte>, newInterpreter: seq<byte>, j: nat, k: nat)
    requires ClearEntries(h, content) && j < |h.rpathOffsets| && k < |h.rpathOffsets|
    requires !TailAgrees(content, h.rpathOffsets[j], h.rpathOffsets[k])
    ensures exists i :: 0 <= i < |h.rpathOffsets|
                        && !Becomes(content, RewriteImage(content, h, newInterpreter), h.rpathOffsets[i])
  {
    hide RewriteImage, ClearEntries, Becomes, TailAgrees;
    RpathsRewritten(h, content, newInterpreter);
  }

  const STRADDLED: seq<byte> := PREFIX_PLACEHOLDER + [NUL]

  const STRADDLED_HEADERS: Headers := Headers(None, [0, 11])

  /** An entry that points into the placeholder of another: it has no placeholder of its own, and
      one of the two does not read its new path afterwards. */
  lemma StraddledEntry(newInterpreter: seq<byte>)
    ensures exists j :: 0 <= j < 2 && !Becomes(STRADDLED, RewriteImage(STRADDLED, STRADDLED_HEADERS, newInterpreter),
                                               STRADDLED_HEADERS.rpathOffsets[j])
  {
    hide RewriteImage, Becomes, TailAgrees;
    StraddledDisagrees();
    SomeEntryDiffers(STRADDLED_HEADERS, STRADDLED, newInterpreter, 0, 1);
  }

  lemma StraddledDisagrees()
    ensures !TailAgrees(STRADDLED, 0, 11)
  {
    hide ShortPath, HasPlaceholder;
    var content, p := STRADDLED, PREFIX_PLACEHOLDER;
    ArePlaceholders();
    Shapes(p);
    assert content[0..19] == p && content[11..19] == p[11..];
    ReadsIsRead(content, 0, p);
    assert Reads(content, 11, p[11..]);
    ReadsIsRead(content, 11, p[11..]);
    StraddledPaths();
  }

  lemma StraddledPaths()
    ensures |PREFIX_PLACEHOLDER| == 19 && NewPath(PREFIX_PLACEHOLDER) == SHORT_PREFIX
    ensures NewPath(PREFIX_PLACEHOLDER[11..]) == PREFIX_PLACEHOLDER[11..] != SHORT_PREFIX[11..]
  {
    hide ShortPath, Pass;
    var p := PREFIX_PLACEHOLDER;
    ArePlaceholders();
    Shapes(p);
    TooShort(p[11..]);
    assert p[11] == 0x50 && SHORT_PREFIX[11] != 0x50;
    NewPathIsShort(p);
    ShortPathIsPasses(p);
    PassOfPrefix();
  }

  lemma TooShort(s: seq<byte>)
    requires |s| < 19
    ensures NewPath(s) == s
  {
    Shapes(CELLAR_PLACEHOLDER);
    Shapes(PREFIX_PLACEHOLDER);
  }

  lemma PassOfPrefix()
    ensures Pass(Pass(PREFIX_PLACEHOLDER, CELLAR_PLACEHOLDER), PREFIX_PLACEHOLDER) == SHORT_PREFIX
  {
    hide Pass;
    var c, p := CELLAR_PLACEHOLDER, PREFIX_PLACEHOLDER;
    ArePlaceholders();
    Shapes(c);
    Shapes(p);
    assert c[11] != p[11];
    forall j: nat
      ensures !OccursAt(p, j, c)
    {
      assert j == 0 ==> p[0..] == p;
    }
    PassNothing(p, c);
    PassStep(p, p);
    PassLength([], p);
    assert p[19..] == [];
  }

  lemma PassNothing(s: seq<byte>, q: seq<byte>)
    requires IsPlaceholder(q) && forall j: nat :: !OccursAt(s, j, q)
    ensures Pass(s, q) == s
  {
    Shapes(q);
    assert !Occurs(s, q);
    SubstituteNothing(s, Shorten(q));
  }
}
