/**
 Byte-offset indices over generated package lists (src/conda_repo.rs, src/brew_repo.rs): stanzas
 are appended to one text, and an index says for each package name where its stanzas lie.
 */
module RepoIndex {
  import opened Bytes
  import opened Wrappers

  datatype Range = Range(begin: nat, len: nat)

  /** A package's name and the lines of its stanza, as the bytes of their UTF-8 encoding. */
  datatype Stanza = Stanza(name: string, lines: seq<seq<byte>>)

  const NEWLINE: byte := 0x0A

  function JoinLines(lines: seq<seq<byte>>): seq<byte> {
    if lines == [] then [] else JoinLines(lines[..|lines| - 1]) + lines[|lines| - 1] + [NEWLINE]
  }

  /** Conda: an empty line and then the lines. */
  function CondaText(s: Stanza): (t: seq<byte>)
    ensures t != []
  {
    [NEWLINE] + JoinLines(s.lines)
  }

  /** Brew: the lines, and then an empty line; without lines two newlines all the same. */
  function FormulaText(s: Stanza): (t: seq<byte>)
    ensures t != []
  {
    if s.lines == [] then [NEWLINE, NEWLINE] else JoinLines(s.lines) + [NEWLINE]
  }

  // ---------------------------------------------------------------- the text and its ranges

  type Texts = seq<(string, seq<byte>)>

  /** All texts, one after the other. */
  function Concat(texts: Texts): seq<byte> {
    if texts == [] then [] else Concat(texts[..|texts| - 1]) + texts[|texts| - 1].1
  }

  /** Where the texts lie. */
  function Ranges(texts: Texts): (r: seq<Range>)
    ensures |r| == |texts|
  {
    if texts == [] then []
    else
      var before := texts[..|texts| - 1];
      Ranges(before) + [Range(|Concat(before)|, |texts[|texts| - 1].1|)]
  }

  function RangesOf(texts: Texts, name: string): seq<Range> {
    if texts == [] then []
    else
      var before := texts[..|texts| - 1];
      var last := texts[|texts| - 1];
      RangesOf(before, name) + if last.0 == name then [Range(|Concat(before)|, |last.1|)] else []
  }

  function Slice(s: seq<byte>, r: Range): seq<byte>
    requires r.begin + r.len <= |s|
  {
    s[r.begin..r.begin + r.len]
  }

  lemma OneMoreText(texts: Texts)
    requires texts != []
    ensures var (before, last) := (texts[..|texts| - 1], texts[|texts| - 1]);
            && Concat(texts) == Concat(before) + last.1
            && Ranges(texts) == Ranges(before) + [Range(|Concat(before)|, |last.1|)]
  {
  }

  ghost predicate TilesAt(texts: Texts, i: nat)
    requires i < |texts|
  {
    var r := Ranges(texts)[i];
    && r.begin + r.len <= |Concat(texts)| && Slice(Concat(texts), r) == texts[i].1
    && (i + 1 < |texts| ==> Ranges(texts)[i + 1].begin == r.begin + r.len)
  }

  /** The last range ends where the text ends. */
  ghost predicate EndsAtEnd(texts: Texts) {
    texts != [] ==> var r := Ranges(texts)[|texts| - 1]; r.begin + r.len == |Concat(texts)|
  }

  lemma StillTiles(texts: Texts, i: nat)
    requires i < |texts| - 1 && TilesAt(texts[..|texts| - 1], i) && EndsAtEnd(texts[..|texts| - 1])
    ensures TilesAt(texts, i)
  {
    hide Concat, Ranges;
    OneMoreText(texts);
    var r := Ranges(texts)[i];
    assert Slice(Concat(texts), r) == Slice(Concat(texts[..|texts| - 1]), r);
  }

  lemma LastTiles(texts: Texts)
    requires texts != []
    ensures TilesAt(texts, |texts| - 1) && EndsAtEnd(texts)
  {
    hide Concat, Ranges;
    OneMoreText(texts);
  }

  /** Each range slices out its own stanza, and the ranges tile the text in order. */
  lemma {:induction false} RangesTile(texts: Texts)
    ensures forall i | 0 <= i < |texts| :: TilesAt(texts, i)
    ensures EndsAtEnd(texts) && (texts != [] ==> Ranges(texts)[0].begin == 0)
  {
    hide TilesAt, EndsAtEnd, Concat, Ranges;
    if texts != [] {
      var n := |texts| - 1;
      RangesTile(texts[..n]);
      OneMoreText(texts);
      LastTiles(texts);
      forall i | 0 <= i < n
        ensures TilesAt(texts, i)
      {
        assert TilesAt(texts[..n], i);
        StillTiles(texts, i);
      }
      FirstTiles(texts);
    } else {
      NothingTiles(texts);
    }
  }

  lemma FirstTiles(texts: Texts)
    requires texts != [] && (|texts| > 1 ==> Ranges(texts[..|texts| - 1])[0].begin == 0)
    ensures Ranges(texts)[0].begin == 0
  {
    OneMoreText(texts);
  }

  lemma NothingTiles(texts: Texts)
    requires |texts| == 0
    ensures EndsAtEnd(texts)
  {
  }

  /** The ranges of one name are those of its texts, so ranges under different names, or at
      different positions of the text, never share a byte. */
  lemma {:induction false} RangesOfName(texts: Texts, name: string, r: Range)
    ensures r in RangesOf(texts, name) <==> exists i :: 0 <= i < |texts| && texts[i].0 == name && Ranges(texts)[i] == r
  {
    hide Concat, Ranges, RangesOf;
    RangesOfNone(name);
    if texts != [] {
      var n := |texts| - 1;
      var before := texts[..n];
      RangesOfName(before, name, r);
      OneMoreText(texts);
      OneMoreRangeOf(texts, name);
      if r in RangesOf(before, name) {
        var i :| 0 <= i < n && before[i].0 == name && Ranges(before)[i] == r;
        assert texts[i].0 == name && Ranges(texts)[i] == r;
      } else if r in RangesOf(texts, name) {
        assert texts[n].0 == name && Ranges(texts)[n] == r;
      } else {
        forall i | 0 <= i < |texts| && texts[i].0 == name
          ensures Ranges(texts)[i] != r
        {
          assert i < n ==> before[i] == texts[i] && Ranges(before)[i] == Ranges(texts)[i];
        }
      }
    }
  }

  lemma RangesOfNone(name: string)
    ensures RangesOf([], name) == []
  {
  }

  lemma OneMoreRangeOf(texts: Texts, name: string)
    requires texts != []
    ensures var (before, last) := (texts[..|texts| - 1], texts[|texts| - 1]);
            RangesOf(texts, name) ==
            RangesOf(before, name) + if last.0 == name then [Range(|Concat(before)|, |last.1|)] else []
  {
  }

  lemma {:induction false} RangesApart(texts: Texts, i: nat, j: nat)
    requires i < j < |texts|
    ensures Ranges(texts)[i].begin + Ranges(texts)[i].len <= Ranges(texts)[j].begin
    decreases j
  {
    RangesTile(texts);
    assert TilesAt(texts, j - 1);
    if i < j - 1 {
      RangesApart(texts, i, j - 1);
    }
  }

  lemma NoLineJoined(lines: seq<seq<byte>>)
    ensures JoinLines(lines[..0]) == []
  {
  }

  lemma OneMoreLine(before: seq<byte>, lines: seq<seq<byte>>, i: nat)
    requires i < |lines|
    ensures (before + ([NEWLINE] + JoinLines(lines[..i]))) + lines[i] + [NEWLINE]
            == before + ([NEWLINE] + JoinLines(lines[..i + 1]))
  {
    assert lines[..i + 1][..i] == lines[..i];
    var joined := JoinLines(lines[..i]);
    assert JoinLines(lines[..i + 1]) == joined + lines[i] + [NEWLINE];
  }

  /** What one more text adds to the whole and to the ranges of every name. */
  lemma OneMoreStanza(texts: Texts, name: string, text: seq<byte>)
    ensures Concat(texts + [(name, text)]) == Concat(texts) + text
    ensures forall other ::
              RangesOf(texts + [(name, text)], other) ==
              RangesOf(texts, other) + if name == other then [Range(|Concat(texts)|, |text|)] else []
  {
    assert (texts + [(name, text)])[..|texts|] == texts;
  }

  // ---------------------------------------------------------------- conda

  /** One entry of the repository data. */
  datatype CondaEntry = CondaEntry(filename: string, stanza: Stanza)

  /** What `process_conda_repodata` writes: the entries whose file was not removed, in order. */
  function CondaTexts(entries: seq<CondaEntry>, removed: set<string>): Texts {
    if entries == [] then []
    else
      var last := entries[|entries| - 1];
      CondaTexts(entries[..|entries| - 1], removed)
      + if last.filename in removed then [] else [(last.stanza.name, CondaText(last.stanza))]
  }

  class CondaIndex {
    var output: seq<byte>
    var pkgname2ranges: map<string, seq<Range>>

    constructor ()
      ensures output == [] && pkgname2ranges == map[]
    {
      output, pkgname2ranges := [], map[];
    }

    /** The text is the stanzas written so far, and the index has exactly their ranges by name. */
    ghost predicate Indexes(texts: Texts)
      reads this
    {
      && output == Concat(texts)
      && forall name :: (if name in pkgname2ranges then pkgname2ranges[name] else []) == RangesOf(texts, name)
    }

    /** `process_conda_package`: the stanza's lines are written one by one. */
    method ProcessPackage(stanza: Stanza, ghost texts: Texts)
      requires Indexes(texts)
      modifies this
      ensures Indexes(texts + [(stanza.name, CondaText(stanza))])
    {
      hide JoinLines, Concat, RangesOf;
      ghost var before := output;
      var start := |output|;
      output := output + [NEWLINE];
      NoLineJoined(stanza.lines);
      for i := 0 to |stanza.lines|
        invariant output == before + ([NEWLINE] + JoinLines(stanza.lines[..i]))
        invariant pkgname2ranges == old(pkgname2ranges)
      {
        OneMoreLine(before, stanza.lines, i);
        output := output + stanza.lines[i];
        output := output + [NEWLINE];
      }
      assert stanza.lines[..|stanza.lines|] == stanza.lines;
      assert output == before + CondaText(stanza);
      OneMoreStanza(texts, stanza.name, CondaText(stanza));
      var end := |output|;
      var ranges := if stanza.name in pkgname2ranges then pkgname2ranges[stanza.name] else [];
      pkgname2ranges := pkgname2ranges[stanza.name := ranges + [Range(start, end - start)]];
    }

    /** The two loops of `process_conda_repodata` over one list of entries; removed files are skipped. */
    method ProcessAll(entries: seq<CondaEntry>, removed: set<string>)
      requires Indexes([])
      modifies this
      ensures Indexes(CondaTexts(entries, removed))
    {
      hide Indexes, CondaTexts, CondaText;
      CondaTextsNone(removed);
      assert entries[..0] == [];
      for i := 0 to |entries|
        invariant Indexes(CondaTexts(entries[..i], removed))
      {
        CondaTextsStep(entries, i, removed);
        if entries[i].filename in removed {
          continue;
        }
        ProcessPackage(entries[i].stanza, CondaTexts(entries[..i], removed));
      }
      assert entries[..|entries|] == entries;
    }
  }

  lemma CondaTextsNone(removed: set<string>)
    ensures CondaTexts([], removed) == []
  {
  }

  lemma CondaTextsStep(entries: seq<CondaEntry>, i: nat, removed: set<string>)
    requires i < |entries|
    ensures var before := CondaTexts(entries[..i], removed);
            CondaTexts(entries[..i + 1], removed) ==
            if entries[i].filename in removed then before
            else before + [(entries[i].stanza.name, CondaText(entries[i].stanza))]
  {
    assert entries[..i + 1][..i] == entries[..i];
  }

  /** No stanza is written for a removed file, and one for every other. */
  lemma {:induction false} CondaTextsFrom(entries: seq<CondaEntry>, removed: set<string>, text: (string, seq<byte>))
    ensures text in CondaTexts(entries, removed) <==>
              exists i :: 0 <= i < |entries| && entries[i].filename !in removed
                          && text == (entries[i].stanza.name, CondaText(entries[i].stanza))
  {
    hide CondaTexts, CondaText;
    CondaTextsNone(removed);
    if entries != [] {
      var n := |entries| - 1;
      CondaTextsFrom(entries[..n], removed, text);
      CondaTextsStep(entries, n, removed);
      assert entries[..n + 1] == entries;
      if text in CondaTexts(entries[..n], removed) {
        var i :| 0 <= i < n && entries[..n][i].filename !in removed
                 && text == (entries[..n][i].stanza.name, CondaText(entries[..n][i].stanza));
        assert entries[i] == entries[..n][i];
      }
    }
  }

  // ---------------------------------------------------------------- brew

  class BrewIndex {
    var written: seq<byte>
    var currentOffset: nat
    var pkgname2ranges: map<string, Range>

    constructor ()
      ensures written == [] && currentOffset == 0 && pkgname2ranges == map[]
    {
      written, currentOffset, pkgname2ranges := [], 0, map[];
    }

    /** The running offset is the number of bytes written, and each name's entry is the range of
        the last text under that name. */
    ghost predicate Indexes(texts: Texts)
      reads this
    {
      && written == Concat(texts) && currentOffset == |written|
      && forall name ::
           var ranges := RangesOf(texts, name);
           if ranges == [] then name !in pkgname2ranges
           else name in pkgname2ranges && pkgname2ranges[name] == ranges[|ranges| - 1]
    }

    /** The body of the loop in `process_brew_formulas`. */
    method ProcessFormula(stanza: Stanza, ghost texts: Texts)
      requires Indexes(texts)
      modifies this
      ensures Indexes(texts + [(stanza.name, FormulaText(stanza))])
    {
      var begin := currentOffset;
      var block := FormulaText(stanza);
      written := written + block;
      pkgname2ranges := pkgname2ranges[stanza.name := Range(begin, |block|)];
      currentOffset := currentOffset + |block|;
      assert (texts + [(stanza.name, FormulaText(stanza))])[..|texts|] == texts;
    }

    /** The loop of `process_brew_formulas`; a formula without a bottle for the tag is skipped. */
    method ProcessAll(formulas: seq<Option<Stanza>>)
      requires Indexes([])
      modifies this
      ensures Indexes(FormulaTexts(formulas))
    {
      hide Indexes, FormulaTexts, FormulaText;
      FormulaTextsNone();
      assert formulas[..0] == [];
      for i := 0 to |formulas|
        invariant Indexes(FormulaTexts(formulas[..i]))
      {
        FormulaTextsStep(formulas, i);
        if formulas[i].Some? {
          ProcessFormula(formulas[i].value, FormulaTexts(formulas[..i]));
        }
      }
      assert formulas[..|formulas|] == formulas;
    }
  }

  function FormulaTexts(formulas: seq<Option<Stanza>>): Texts {
    if formulas == [] then []
    else
      var last := formulas[|formulas| - 1];
      FormulaTexts(formulas[..|formulas| - 1]) + if last.Some? then [(last.value.name, FormulaText(last.value))] else []
  }

  lemma FormulaTextsNone()
    ensures FormulaTexts([]) == []
  {
  }

  lemma FormulaTextsStep(formulas: seq<Option<Stanza>>, i: nat)
    requires i < |formulas|
    ensures var before := FormulaTexts(formulas[..i]);
            FormulaTexts(formulas[..i + 1]) ==
            if formulas[i].None? then before
            else before + [(formulas[i].value.name, FormulaText(formulas[i].value))]
  {
    assert formulas[..i + 1][..i] == formulas[..i];
  }
}
