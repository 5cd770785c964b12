/**
 In-place rewriting of the interpreter and the run paths of an ELF image (src/brew_pkg.rs,
 `rewrite_elf_interpreter_for_file`).

 The parsed headers are a parameter: where the PT_INTERP segment lies, and the file offset of
 the `.dynstr` string of every DT_RPATH and DT_RUNPATH entry (System V gABI, chapter 5).
 */
module BrewElf {
  import opened Wrappers
  import opened Bytes
  import opened Substitution
  import opened BrewText

  const SHORT_PREFIX: seq<byte> := Ascii("/home/linuxbrew/.LB")

  datatype Segment = Segment(offset: nat, filesz: nat)

  datatype Headers = Headers(interp: Option<Segment>, rpathOffsets: seq<nat>)

  /** A string found in the image: where it is, what it says, how many bytes it may take. */
  datatype Slot = Slot(offset: nat, current: seq<byte>, maxLen: nat)

  // ---------------------------------------------------------------- reading

  /** `read_null_terminated_string` */
  function ReadString(content: seq<byte>, offset: nat): (r: Option<seq<byte>>)
    ensures r.Some? <==> exists i :: offset <= i < |content| && content[i] == NUL
    ensures r.Some? ==> Reads(content, offset, r.value)
  {
    if offset >= |content| then None
    else
      var n := StringLength(content[offset..]);
      if n == |content| - offset then None
      else
        assert content[offset + n] == NUL;
        Some(content[offset..offset + n])
  }

  /** `find_string_max_length`, the terminator included. */
  function MaxLength(content: seq<byte>, offset: nat): nat {
    if offset >= |content| then 0 else StringLength(content[offset..]) + 1
  }

  /** The image holds exactly the string `s`, with its terminator, at `offset`. */
  ghost predicate Reads(content: seq<byte>, offset: nat, s: seq<byte>) {
    && offset + |s| < |content| && content[offset + |s|] == NUL
    && content[offset..offset + |s|] == s
    && forall i :: 0 <= i < |s| ==> s[i] != NUL
  }

  lemma ReadsIsRead(content: seq<byte>, offset: nat, s: seq<byte>)
    requires Reads(content, offset, s)
    ensures ReadString(content, offset) == Some(s) && MaxLength(content, offset) == |s| + 1
  {
    var t := content[offset..];
    assert forall i :: 0 <= i < |s| ==> t[i] == s[i];
    assert t[|s|] == NUL;
    assert StringLength(t) == |s|;
  }

  /** `extract_interp_info` */
  function InterpInfo(h: Headers, content: seq<byte>): Option<Slot> {
    if h.interp.None? || h.interp.value.offset == 0 || h.interp.value.filesz == 0 then None
    else
      var current := ReadString(content, h.interp.value.offset);
      if current.None? then None
      else Some(Slot(h.interp.value.offset, current.value, h.interp.value.filesz))
  }

  /** `extract_rpath_info` for an image with a `.dynstr` section header. */
  function RpathInfo(offsets: seq<nat>, content: seq<byte>): seq<Slot> {
    if offsets == [] then []
    else
      var current := ReadString(content, offsets[0]);
      (if current.None? then [] else [Slot(offsets[0], current.value, MaxLength(content, offsets[0]))])
      + RpathInfo(offsets[1..], content)
  }

  predicate Contains(s: seq<byte>, pattern: seq<byte>) {
    Find(s, pattern).Some?
  }

  predicate HasPlaceholder(s: seq<byte>) {
    Contains(s, CELLAR_PLACEHOLDER) || Contains(s, PREFIX_PLACEHOLDER)
  }

  function NeedsInterpreter(interp: Option<Slot>, rpaths: seq<Slot>): bool {
    || (interp.Some? && HasPlaceholder(interp.value.current))
    || exists k | 0 <= k < |rpaths| ::
         HasPlaceholder(rpaths[k].current) || Contains(rpaths[k].current, SHORT_PREFIX)
  }

  // ---------------------------------------------------------------- replacing placeholders

  function Shorten(placeholder: seq<byte>): (rules: seq<Rule<byte>>)
    requires placeholder != []
    ensures |rules| == 1 && rules[0].pattern == placeholder && rules[0].replacement == SHORT_PREFIX
    ensures ValidRules(rules)
  {
    [Rule(placeholder, SHORT_PREFIX)]
  }

  /** `replace_homebrew_placeholders_with_short_prefix`: first CELLAR, then PREFIX, both to the
      bare short prefix. */
  function ShortPath(s: seq<byte>): seq<byte> {
    Substitute(Substitute(s, Shorten(CELLAR_PLACEHOLDER)), Shorten(PREFIX_PLACEHOLDER))
  }

  lemma PlaceholderShape()
    ensures |CELLAR_PLACEHOLDER| == |PREFIX_PLACEHOLDER| == |SHORT_PREFIX| == 19
    ensures Fenced(CELLAR_PLACEHOLDER, AT, SLASH) && Fenced(PREFIX_PLACEHOLDER, AT, SLASH)
    ensures Inert(SHORT_PREFIX, AT, SLASH) && NUL !in SHORT_PREFIX
  {
    assert SHORT_PREFIX[0] == SLASH;
  }

  /** The replaced path has the old length, no placeholder and no NUL: it always fits. */
  lemma ShortPathFits(s: seq<byte>)
    requires forall i :: 0 <= i < |s| ==> s[i] != NUL
    ensures |ShortPath(s)| == |s|
    ensures !HasPlaceholder(ShortPath(s))
    ensures forall i :: 0 <= i < |s| ==> ShortPath(s)[i] != NUL
  {
    PlaceholderShape();
    var cellar, prefix := Shorten(CELLAR_PLACEHOLDER), Shorten(PREFIX_PLACEHOLDER);
    var t := Substitute(s, cellar);
    SubstituteSameLength(s, cellar);
    SubstituteSameLength(t, prefix);
    assert NUL !in s;
    SubstituteElements(s, cellar, NUL);
    SubstituteElements(t, prefix, NUL);
    SubstituteClears(s, cellar, AT, SLASH, CELLAR_PLACEHOLDER);
    SubstituteClears(t, prefix, AT, SLASH, CELLAR_PLACEHOLDER);
    SubstituteClears(t, prefix, AT, SLASH, PREFIX_PLACEHOLDER);
  }

  // ---------------------------------------------------------------- writing

  predicate Fits(content: seq<byte>, offset: nat, maxLen: nat, s: seq<byte>) {
    |s| + 1 <= maxLen && offset + maxLen <= |content|
  }

  /** The effect of `modify_string_in_buffer`. */
  function Patched(content: seq<byte>, offset: nat, maxLen: nat, s: seq<byte>): (r: seq<byte>)
    ensures |r| == |content|
  {
    if Fits(content, offset, maxLen, s) then
      content[..offset] + s + Zeros(maxLen - |s|) + content[offset + maxLen..]
    else content
  }

  /**
   `modify_string_in_buffer`. A string that does not fit leaves the buffer alone; otherwise the
   program slices the buffer, so the slot must lie inside it.
   */
  method ModifyString(content: array<byte>, offset: nat, maxLen: nat, s: seq<byte>) returns (ok: bool)
    requires |s| + 1 <= maxLen ==> offset + maxLen <= content.Length
    modifies content
    ensures ok <==> |s| + 1 <= maxLen
    ensures content[..] == Patched(old(content[..]), offset, maxLen, s)
  {
    if |s| + 1 > maxLen {
      return false;
    }
    ghost var before := content[..];
    forall i | offset <= i < offset + maxLen {
      content[i] := NUL;
    }
    forall i | 0 <= i < |s| {
      content[offset + i] := s[i];
    }
    content[offset + |s|] := NUL;
    assert content[..] == Patched(before, offset, maxLen, s);
    return true;
  }

  function NewPath(current: seq<byte>): seq<byte> {
    if HasPlaceholder(current) then ShortPath(current) else current
  }

  /** The slot holds a string of the image and takes exactly its bytes. */
  ghost predicate SlotOf(content: seq<byte>, slot: Slot) {
    Reads(content, slot.offset, slot.current) && slot.maxLen == |slot.current| + 1
  }

  ghost predicate SlotsOf(content: seq<byte>, slots: seq<Slot>) {
    forall k | 0 <= k < |slots| :: SlotOf(content, slots[k])
  }

  predicate Apart(offset1: nat, length1: nat, offset2: nat, length2: nat) {
    offset1 + length1 <= offset2 || offset2 + length2 <= offset1
  }

  /** A patched image, part by part. */
  lemma PatchedParts(content: seq<byte>, offset: nat, maxLen: nat, s: seq<byte>)
    requires Fits(content, offset, maxLen, s)
    ensures var r := Patched(content, offset, maxLen, s);
            && r[..offset] == content[..offset] && r[offset..][..|s|] == s
            && r[offset..][|s|..][..maxLen - |s|] == Zeros(maxLen - |s|)
            && r[offset..][|s|..][maxLen - |s|..] == content[offset + maxLen..]
  {
    var a, z, d := content[..offset], Zeros(maxLen - |s|), content[offset + maxLen..];
    var r := Patched(content, offset, maxLen, s);
    assert r == a + s + z + d;
    hide *;
    Reassociate(a + s, z, d);
    Reassociate(a, s, z + d);
    HeadTail(a, s + (z + d));
    HeadTail(s, z + d);
    HeadTail(z, d);
  }

  /** The bytes of a patched image. */
  lemma PatchedBytes(content: seq<byte>, offset: nat, maxLen: nat, s: seq<byte>)
    requires Fits(content, offset, maxLen, s)
    ensures var r := Patched(content, offset, maxLen, s);
            && r[offset..offset + |s|] == s
            && (forall i | offset + |s| <= i < offset + maxLen :: r[i] == NUL)
            && SameOutside(content, r, offset, maxLen)
  {
    PatchedParts(content, offset, maxLen, s);
    hide Patched;
    var r := Patched(content, offset, maxLen, s);
    var end := offset + maxLen;
    assert r[offset..offset + |s|] == r[offset..][..|s|];
    DropDrop(r, offset, offset + |s|);
    DropDrop(r, offset + |s|, end);
    assert r[end..] == content[end..];
    forall i | 0 <= i < |r|
      ensures i < offset ==> r[i] == content[i]
      ensures offset + |s| <= i < end ==> r[i] == NUL
      ensures end <= i ==> r[i] == content[i]
    {
      if i < offset {
        assert r[..offset][i] == r[i];
      } else if end <= i {
        assert r[end..][i - end] == r[i] && content[end..][i - end] == content[i];
      } else if offset + |s| <= i {
        assert r[offset + |s|..][..maxLen - |s|][i - offset - |s|] == r[i];
      }
    }
  }

  /** Overwriting a string by one of the same length. */
  lemma PatchString(content: seq<byte>, offset: nat, before: seq<byte>, after: seq<byte>)
    requires Reads(content, offset, before) && |after| == |before|
    requires forall i :: 0 <= i < |after| ==> after[i] != NUL
    ensures Fits(content, offset, |before| + 1, after)
    ensures var r := Patched(content, offset, |before| + 1, after);
            Reads(r, offset, after) && SameOutside(content, r, offset, |before| + 1) && SameNuls(content, r)
  {
    PatchedBytes(content, offset, |before| + 1, after);
    hide Patched;
    var r := Patched(content, offset, |before| + 1, after);
    forall i | 0 <= i < |content|
      ensures r[i] == NUL <==> content[i] == NUL
    {
      if offset <= i < offset + |before| {
        assert r[i] == r[offset..offset + |after|][i - offset];
        assert content[i] == content[offset..offset + |before|][i - offset];
      }
    }
  }

  /** Writing one run path, into an image in which other run paths may be written already: it
      fits, can be read back, nothing outside the slot changes, and no terminator appears or
      disappears. */
  lemma PatchSlot(orig: seq<byte>, content: seq<byte>, slot: Slot)
    requires SlotOf(orig, slot) && SameNuls(orig, content)
    ensures Fits(content, slot.offset, slot.maxLen, ShortPath(slot.current))
    ensures var r := Patched(content, slot.offset, slot.maxLen, ShortPath(slot.current));
            && Reads(r, slot.offset, ShortPath(slot.current))
            && SameOutside(content, r, slot.offset, slot.maxLen)
            && SameNuls(content, r)
  {
    hide Patched, SameOutside, Fits, ShortPath, HasPlaceholder;
    ShortPathFits(slot.current);
    StringStays(orig, content, slot.offset, slot.current);
    hide Reads, SameNuls;
    PatchString(content, slot.offset, content[slot.offset..slot.offset + |slot.current|], ShortPath(slot.current));
  }

  /** Where the terminators are the same, a string of the same length stands. */
  lemma StringStays(orig: seq<byte>, content: seq<byte>, offset: nat, s: seq<byte>)
    requires Reads(orig, offset, s) && SameNuls(orig, content)
    ensures offset + |s| < |content| && Reads(content, offset, content[offset..offset + |s|])
  {
    var t := content[offset..offset + |s|];
    forall i | 0 <= i < |t|
      ensures t[i] != NUL
    {
      assert orig[offset + i] == orig[offset..offset + |s|][i];
      assert t[i] == content[offset + i];
    }
  }

  ghost predicate SameOutside(content: seq<byte>, r: seq<byte>, offset: nat, maxLen: nat) {
    |r| == |content| && forall i :: 0 <= i < |content| && !(offset <= i < offset + maxLen) ==> r[i] == content[i]
  }

  ghost predicate SameNuls(content: seq<byte>, r: seq<byte>) {
    |r| == |content| && forall i :: 0 <= i < |content| ==> (r[i] == NUL <==> content[i] == NUL)
  }

  /** A patch leaves every string it does not touch as it was. */
  lemma PatchElsewhere(content: seq<byte>, r: seq<byte>, offset: nat, maxLen: nat, at: nat, s: seq<byte>)
    requires SameOutside(content, r, offset, maxLen) && Reads(content, at, s) && Apart(offset, maxLen, at, |s| + 1)
    ensures Reads(r, at, s)
  {
    assert r[at..at + |s|] == content[at..at + |s|];
  }

  // ---------------------------------------------------------------- the rewrite of one file

  function RewriteRpath(content: seq<byte>, slot: Slot): (r: seq<byte>)
    ensures |r| == |content|
  {
    if HasPlaceholder(slot.current) then Patched(content, slot.offset, slot.maxLen, ShortPath(slot.current))
    else content
  }

  function RewriteRpaths(content: seq<byte>, slots: seq<Slot>): (r: seq<byte>)
    ensures |r| == |content|
    decreases |slots|
  {
    if slots == [] then content else RewriteRpaths(RewriteRpath(content, slots[0]), slots[1..])
  }

  function RewriteInterp(content: seq<byte>, interp: Option<Slot>, needed: bool, newInterpreter: seq<byte>)
    : (r: seq<byte>)
    ensures |r| == |content|
  {
    if needed && interp.Some? then Patched(content, interp.value.offset, interp.value.maxLen, newInterpreter)
    else content
  }

  /** The image after `rewrite_elf_interpreter_for_file`. */
  function RewriteImage(content: seq<byte>, h: Headers, newInterpreter: seq<byte>): (r: seq<byte>)
    ensures |r| == |content|
  {
    var rpaths := RpathInfo(h.rpathOffsets, content);
    var interp := InterpInfo(h, content);
    RewriteRpaths(RewriteInterp(content, interp, NeedsInterpreter(interp, rpaths), newInterpreter), rpaths)
  }

  /** When the new interpreter is written, its slot lies inside the file; the program would stop
      at the slice otherwise. */
  predicate InterpInside(h: Headers, content: seq<byte>, newInterpreter: seq<byte>) {
    var interp := InterpInfo(h, content);
    interp.Some? && NeedsInterpreter(interp, RpathInfo(h.rpathOffsets, content)) ==>
      |newInterpreter| + 1 <= interp.value.maxLen ==> interp.value.offset + interp.value.maxLen <= |content|
  }

  /** Every run-path slot is exactly as large as the string read from it. */
  lemma {:induction false} RpathSlots(offsets: seq<nat>, content: seq<byte>)
    ensures SlotsOf(content, RpathInfo(offsets, content))
  {
    if offsets != [] {
      RpathSlots(offsets[1..], content);
      var current := ReadString(content, offsets[0]);
      if current.Some? {
        ReadsIsRead(content, offsets[0], current.value);
      }
      var rest := RpathInfo(offsets[1..], content);
      assert forall k | 0 <= k < |rest| :: SlotOf(content, rest[k]);
    }
  }

  lemma SlotMax(content: seq<byte>, slot: Slot)
    requires SlotOf(content, slot)
    ensures slot.maxLen == MaxLength(content, slot.offset)
  {
    ReadsIsRead(content, slot.offset, slot.current);
  }

  lemma SlotInside(content: seq<byte>, slot: Slot)
    requires SlotOf(content, slot)
    ensures Fits(content, slot.offset, slot.maxLen, ShortPath(slot.current))
  {
    ShortPathFits(slot.current);
  }

  method RewriteElf(content: array<byte>, h: Headers, newInterpreter: seq<byte>)
    requires InterpInside(h, content[..], newInterpreter)
    modifies content
    ensures content[..] == RewriteImage(old(content[..]), h, newInterpreter)
  {
    hide Patched, ShortPath, HasPlaceholder, RpathInfo, InterpInfo, NeedsInterpreter;
    ghost var before := content[..];
    var rpaths := RpathInfo(h.rpathOffsets, content[..]);
    var interp := InterpInfo(h, content[..]);
    var needed := NeedsInterpreter(interp, rpaths);
    if needed && interp.Some? {
      var ok := ModifyString(content, interp.value.offset, interp.value.maxLen, newInterpreter);
    }
    ghost var middle := content[..];
    RpathSlots(h.rpathOffsets, before);
    assert rpaths[0..] == rpaths;
    for k := 0 to |rpaths|
      invariant RewriteRpaths(content[..], rpaths[k..]) == RewriteRpaths(middle, rpaths)
    {
      var slot := rpaths[k];
      assert SlotOf(before, slot);
      SlotInside(before, slot);
      assert rpaths[k..][1..] == rpaths[k + 1..];
      if HasPlaceholder(slot.current) {
        var ok := ModifyString(content, slot.offset, slot.maxLen, ShortPath(slot.current));
        assert ok;
      }
    }
  }

  // ---------------------------------------------------------------- entries and slots

  predicate ClearOf(content: seq<byte>, segment: Segment, offset: nat) {
    Apart(segment.offset, segment.filesz, offset, MaxLength(content, offset))
  }

  lemma {:induction false} SlotComesFrom(offsets: seq<nat>, content: seq<byte>, k: nat)
    requires k < |RpathInfo(offsets, content)|
    ensures exists j :: 0 <= j < |offsets| && offsets[j] == RpathInfo(offsets, content)[k].offset
  {
    hide ReadString, MaxLength;
    var first := if ReadString(content, offsets[0]).Some? then 1 else 0;
    if k >= first {
      SlotComesFrom(offsets[1..], content, k - first);
      var j :| 0 <= j < |offsets[1..]| && offsets[1..][j] == RpathInfo(offsets[1..], content)[k - first].offset;
      assert offsets[j + 1] == RpathInfo(offsets, content)[k].offset;
    } else {
      assert offsets[0] == RpathInfo(offsets, content)[k].offset;
    }
  }

  /** Writing the interpreter leaves every run path and every missing terminator as it was. */
  lemma InterpLeavesRpath(h: Headers, content: seq<byte>, needed: bool, newInterpreter: seq<byte>, offset: nat)
    requires h.interp.Some? ==> ClearOf(content, h.interp.value, offset)
    ensures var r := RewriteInterp(content, InterpInfo(h, content), needed, newInterpreter);
            ReadString(r, offset) == ReadString(content, offset)
  {
    var r := RewriteInterp(content, InterpInfo(h, content), needed, newInterpreter);
    if r != content {
      var segment := h.interp.value;
      assert SameOutside(content, r, segment.offset, segment.filesz);
      var current := ReadString(content, offset);
      if current.Some? {
        ReadsIsRead(content, offset, current.value);
        PatchElsewhere(content, r, segment.offset, segment.filesz, offset, current.value);
        ReadsIsRead(r, offset, current.value);
      } else if offset < |content| {
        NoTerminator(content, offset);
        assert forall i :: offset <= i < |content| ==> r[i] == content[i];
      }
    }
  }

  lemma NoTerminator(content: seq<byte>, offset: nat)
    requires ReadString(content, offset).None? && offset < |content|
    ensures MaxLength(content, offset) == |content| - offset + 1
  {
  }

  /** What the string at `offset` becomes. */
  ghost predicate Becomes(content: seq<byte>, after: seq<byte>, offset: nat) {
    var current := ReadString(content, offset);
    ReadString(after, offset) == if current.Some? then Some(NewPath(current.value)) else None
  }

  /** The slot that `extract_rpath_info` made for a readable entry. */
  lemma {:induction false} EntrySlot(offsets: seq<nat>, content: seq<byte>, j: nat) returns (k: nat)
    requires j < |offsets| && ReadString(content, offsets[j]).Some?
    ensures var slots := RpathInfo(offsets, content);
            k < |slots| && slots[k].offset == offsets[j] && slots[k].current == ReadString(content, offsets[j]).value
  {
    hide ReadString, MaxLength;
    if j == 0 {
      k := 0;
    } else {
      assert offsets[1..][j - 1] == offsets[j];
      k := EntrySlot(offsets[1..], content, j - 1);
      k := if ReadString(content, offsets[0]).Some? then k + 1 else k;
    }
  }
}
