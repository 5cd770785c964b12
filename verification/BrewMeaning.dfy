/**
 What placeholders of Homebrew become and when a binary gets another interpreter (src/brew_pkg.rs),
 told with the text of the placeholders and of what replaces them.
 */
module BrewMeaning {
  import opened Wrappers
  import opened Bytes
  import opened Substitution
  import opened BrewText
  import opened BrewElf
  import opened BrewElfTwice
  import opened BrewElfPaths

  ghost predicate Spells(bytes: seq<byte>, text: string) {
    |bytes| == |text| && forall i | 0 <= i < |text| :: bytes[i] as int == text[i] as int
  }

  /** The texts that the theorems below name. */
  lemma Texts()
    ensures Spells(PREFIX_PLACEHOLDER, "@@HOMEBREW_PREFIX@@") && Spells(CELLAR_PLACEHOLDER, "@@HOMEBREW_CELLAR@@")
    ensures Spells(LIBRARY_PLACEHOLDER, "@@HOMEBREW_LIBRARY@@") && Spells(SHORT_PREFIX, "/home/linuxbrew/.LB")
  {
  }

  // ---------------------------------------------------------------- text files

  /** None of the three placeholders starts before `n`. */
  ghost predicate NoPlaceholderBefore(s: seq<byte>, n: nat) {
    forall i: nat | i < n ::
      && !OccursAt(s, i, PREFIX_PLACEHOLDER) && !OccursAt(s, i, CELLAR_PLACEHOLDER)
      && !OccursAt(s, i, LIBRARY_PLACEHOLDER)
  }

  lemma SilentBefore(s: seq<byte>, n: nat, prefix: seq<byte>)
    requires NoPlaceholderBefore(s, n)
    ensures Silent(s, TextRules(prefix), n)
  {
    hide Ascii;
    var r := TextRules(prefix);
    forall i | 0 <= i < n
      ensures NoneStarts(s, i, r)
    {
      assert !OccursAt(s, i, PREFIX_PLACEHOLDER);
    }
  }

  lemma OtherText(p: seq<byte>, q: seq<byte>, b: seq<byte>)
    requires |p| > 11 && |q| > 11 && p[11] != q[11]
    ensures !(p <= q + b)
  {
    assert (q + b)[11] == q[11];
  }

  lemma RuleApplies(a: seq<byte>, b: seq<byte>, prefix: seq<byte>, k: nat)
    requires k < 3 && NoPlaceholderBefore(a + TextRules(prefix)[k].pattern + b, |a|)
    ensures var r := TextRules(prefix);
            Substitute(a + r[k].pattern + b, r) == a + r[k].replacement + Substitute(b, r)
  {
    hide Substitute, Ascii, NoPlaceholderBefore;
    var r := TextRules(prefix);
    var q := r[k].pattern;
    var s := a + q + b;
    assert s[|a|..] == q + b && s[..|a|] == a && s[|a| + |q|..] == b;
    SilentBefore(s, |a|, prefix);
    forall j | 0 <= j < k
      ensures !OccursAt(s, |a|, r[j].pattern)
    {
      PlaceholdersDiffer();
      OtherText(r[j].pattern, q, b);
    }
    SubstituteAt(s, r, |a|, k);
  }

  /** The first placeholder of a file becomes the prefix, or the Cellar under it, for the library too;
      what follows is rewritten likewise. (A file without any is left alone.) */
  lemma PlaceholderBecomes(a: seq<byte>, b: seq<byte>, prefix: seq<byte>)
    ensures var r := TextRules(prefix);
            && (NoPlaceholderBefore(a + PREFIX_PLACEHOLDER + b, |a|) ==>
                  Substitute(a + PREFIX_PLACEHOLDER + b, r) == a + prefix + Substitute(b, r))
            && (NoPlaceholderBefore(a + CELLAR_PLACEHOLDER + b, |a|) ==>
                  Substitute(a + CELLAR_PLACEHOLDER + b, r) == a + (prefix + Ascii("/Cellar")) + Substitute(b, r))
            && (NoPlaceholderBefore(a + LIBRARY_PLACEHOLDER + b, |a|) ==>
                  Substitute(a + LIBRARY_PLACEHOLDER + b, r) == a + (prefix + Ascii("/Cellar")) + Substitute(b, r))
  {
    hide NoPlaceholderBefore, Substitute, Ascii;
    if NoPlaceholderBefore(a + PREFIX_PLACEHOLDER + b, |a|) {
      RuleApplies(a, b, prefix, 0);
    }
    if NoPlaceholderBefore(a + CELLAR_PLACEHOLDER + b, |a|) {
      RuleApplies(a, b, prefix, 1);
    }
    if NoPlaceholderBefore(a + LIBRARY_PLACEHOLDER + b, |a|) {
      RuleApplies(a, b, prefix, 2);
    }
  }

  // ---------------------------------------------------------------- run paths

  lemma ShortenOnce(a: seq<byte>, b: seq<byte>, q: seq<byte>)
    requires q != [] && forall i: nat | i < |a| :: !OccursAt(a + q + b, i, q)
    ensures Substitute(a + q + b, Shorten(q)) == a + SHORT_PREFIX + Substitute(b, Shorten(q))
  {
    hide Substitute;
    var s := a + q + b;
    assert s[|a|..] == q + b && s[..|a|] == a && s[|a| + |q|..] == b;
    forall i | 0 <= i < |a|
      ensures NoneStarts(s, i, Shorten(q))
    {
      assert !OccursAt(s, i, q);
    }
    assert OccursAt(s, |a|, q);
    SubstituteAt(s, Shorten(q), |a|, 0);
  }

  lemma NoMarkNoMatch(a: seq<byte>, rest: seq<byte>, q: seq<byte>)
    requires AT !in a && q != [] && q[0] == AT
    ensures forall i: nat | i < |a| :: !OccursAt(a + rest, i, q)
  {
    forall i: nat | i < |a|
      ensures !OccursAt(a + rest, i, q)
    {
      assert (a + rest)[i..][0] == a[i];
    }
  }

  lemma NoMarkNothing(a: seq<byte>, q: seq<byte>)
    requires AT !in a && q != [] && q[0] == AT
    ensures Substitute(a, Shorten(q)) == a
  {
    NoMarkNoMatch(a, [], q);
    assert a + [] == a;
    assert forall i: int :: !OccursAt(a, i, q);
    SubstituteNothing(a, Shorten(q));
  }

  lemma OneBecomes(a: seq<byte>, b: seq<byte>, q: seq<byte>)
    requires AT !in a && AT !in b && IsPlaceholder(q)
    ensures Substitute(a + q + b, Shorten(q)) == a + SHORT_PREFIX + b && AT !in a + SHORT_PREFIX + b
  {
    hide Substitute;
    Shapes(q);
    NoMarkNoMatch(a, q + b, q);
    assert a + (q + b) == a + q + b;
    ShortenOnce(a, b, q);
    NoMarkNothing(b, q);
  }

  /** A run path with one of the placeholders: it becomes the short prefix. */
  lemma PathBecomes(a: seq<byte>, b: seq<byte>)
    requires AT !in a && AT !in b
    ensures ShortPath(a + CELLAR_PLACEHOLDER + b) == a + SHORT_PREFIX + b
    ensures ShortPath(a + PREFIX_PLACEHOLDER + b) == a + SHORT_PREFIX + b
  {
    hide Substitute, Ascii;
    ArePlaceholders();
    Shapes(PREFIX_PLACEHOLDER);
    OneBecomes(a, b, CELLAR_PLACEHOLDER);
    NoMarkNothing(a + SHORT_PREFIX + b, PREFIX_PLACEHOLDER);
    OtherLeftAlone(a, b);
    OneBecomes(a, b, PREFIX_PLACEHOLDER);
  }

  /** The pass for the CELLAR does not touch a single PREFIX. */
  lemma OtherLeftAlone(a: seq<byte>, b: seq<byte>)
    requires AT !in a && AT !in b
    ensures Substitute(a + PREFIX_PLACEHOLDER + b, Shorten(CELLAR_PLACEHOLDER)) == a + PREFIX_PLACEHOLDER + b
  {
    hide Substitute, Ascii;
    var p, q := PREFIX_PLACEHOLDER, CELLAR_PLACEHOLDER;
    var s := a + p + b;
    ArePlaceholders();
    Shapes(q);
    PlaceholdersDiffer();
    NoMarkNoMatch(a, p + b, q);
    assert a + (p + b) == s;
    assert s[|a|..] == p + b;
    OtherText(q, p, b);
    NoneAcross(p[1..], b, q);
    assert s[|a| + 1..] == p[1..] + b;
    forall i
      ensures !OccursAt(s, i, q)
    {
      if i > |a| {
        OccursAtSuffix(s, |a| + 1, i - |a| - 1, q);
      }
    }
    SubstituteNothing(s, Shorten(q));
  }

  // ---------------------------------------------------------------- the interpreter

  lemma ContainsIff(s: seq<byte>, t: seq<byte>)
    ensures Contains(s, t) <==> exists a, b :: s == a + t + b
  {
    FindIff(s, t);
  }

  ghost predicate Mentions(s: seq<byte>, t: seq<byte>) {
    exists a, b :: s == a + t + b
  }

  /** The interpreter that the image names, if it has such a segment. */
  function Interpreter(h: Headers, content: seq<byte>): Option<seq<byte>> {
    if h.interp.Some? && h.interp.value.offset > 0 && h.interp.value.filesz > 0
    then ReadString(content, h.interp.value.offset) else None
  }

  /** What makes a binary need the Homebrew loader: a placeholder in its interpreter or in a readable
      run path, or the short prefix in one. */
  ghost predicate NeedsLoader(h: Headers, content: seq<byte>) {
    || (Interpreter(h, content).Some? && (Mentions(Interpreter(h, content).value, CELLAR_PLACEHOLDER)
                                          || Mentions(Interpreter(h, content).value, PREFIX_PLACEHOLDER)))
    || exists j :: 0 <= j < |h.rpathOffsets| && PathNeedsLoader(content, h.rpathOffsets[j])
  }

  ghost predicate PathNeedsLoader(content: seq<byte>, offset: nat) {
    var path := ReadString(content, offset);
    path.Some? && (Mentions(path.value, CELLAR_PLACEHOLDER) || Mentions(path.value, PREFIX_PLACEHOLDER)
                   || Mentions(path.value, SHORT_PREFIX))
  }

  lemma NeededIff(h: Headers, content: seq<byte>)
    ensures NeedsInterpreter(InterpInfo(h, content), RpathInfo(h.rpathOffsets, content)) <==> NeedsLoader(h, content)
  {
    hide RpathInfo, ReadString, Contains, Ascii;
    var rpaths := RpathInfo(h.rpathOffsets, content);
    forall s, t
      ensures Contains(s, t) <==> Mentions(s, t)
    {
      ContainsIff(s, t);
    }
    forall k | 0 <= k < |rpaths|
      ensures exists j :: 0 <= j < |h.rpathOffsets| && ReadString(content, h.rpathOffsets[j]) == Some(rpaths[k].current)
    {
      var j := SlotIsEntry(h.rpathOffsets, content, k);
    }
    forall j | 0 <= j < |h.rpathOffsets| && ReadString(content, h.rpathOffsets[j]).Some?
      ensures exists k :: 0 <= k < |rpaths| && Some(rpaths[k].current) == ReadString(content, h.rpathOffsets[j])
    {
      var k := EntrySlot(h.rpathOffsets, content, j);
    }
  }

  /** The image names the new interpreter afterwards if and only if the loader is needed; otherwise
      nothing at all is written. */
  lemma InterpreterIff(h: Headers, content: seq<byte>, newInterpreter: seq<byte>)
    requires ClearEntries(h, content) && NUL !in newInterpreter
    requires Interpreter(h, content).Some? && Interpreter(h, content).value != newInterpreter
    requires var segment := h.interp.value;
             |newInterpreter| < segment.filesz && segment.offset + segment.filesz <= |content|
    ensures var after := RewriteImage(content, h, newInterpreter);
            && (ReadString(after, h.interp.value.offset) == Some(newInterpreter) <==> NeedsLoader(h, content))
            && (!NeedsLoader(h, content) ==> after == content)
  {
    hide NeedsLoader, NeedsInterpreter, RpathInfo, RewriteImage, ClearEntries, ReadString;
    NeededIff(h, content);
    if NeedsLoader(h, content) {
      InterpRewritten(h, content, newInterpreter);
    } else {
      NotNeeded(h, content, newInterpreter);
    }
  }
}
