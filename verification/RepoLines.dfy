/**
 What a reader of the generated package lists sees (src/conda_repo.rs, src/brew_repo.rs): the lines of
 every stanza, with one empty line before it or behind it.
 */
module RepoLines {
  import opened Bytes
  import opened Wrappers
  import opened RepoIndex

  /** Length of the first line, without its newline. */
  function LineLength(s: seq<byte>): (n: nat)
    ensures n <= |s| && NEWLINE !in s[..n] && (n < |s| ==> s[n] == NEWLINE)
  {
    if s == [] || s[0] == NEWLINE then 0
    else
      var n := LineLength(s[1..]);
      assert s[..1 + n] == [s[0]] + s[1..][..n];
      1 + n
  }

  /** The lines of a text, as `BufRead::lines`. */
  function LinesOf(s: seq<byte>): seq<seq<byte>>
    decreases |s|
  {
    if s == [] then []
    else
      var n := LineLength(s);
      [s[..n]] + LinesOf(if n < |s| then s[n + 1..] else [])
  }

  lemma {:induction false} LineLengthIs(line: seq<byte>, rest: seq<byte>)
    requires NEWLINE !in line
    ensures LineLength(line + [NEWLINE] + rest) == |line|
    decreases |line|
  {
    var s := line + [NEWLINE] + rest;
    if line != [] {
      LineLengthIs(line[1..], rest);
      assert s[0] == line[0] && s[1..] == line[1..] + [NEWLINE] + rest;
    }
  }

  lemma FirstLine(line: seq<byte>, rest: seq<byte>)
    requires NEWLINE !in line
    ensures LinesOf(line + [NEWLINE] + rest) == [line] + LinesOf(rest)
  {
    hide LineLength;
    var s, n := line + [NEWLINE] + rest, |line|;
    LineLengthIs(line, rest);
    assert s[..n] == line && s[n + 1..] == rest;
  }

  ghost predicate SingleLines(lines: seq<seq<byte>>) {
    forall i | 0 <= i < |lines| :: NEWLINE !in lines[i]
  }

  lemma {:induction false} JoinedLines(lines: seq<seq<byte>>, rest: seq<byte>)
    requires SingleLines(lines)
    ensures LinesOf(JoinLines(lines) + rest) == lines + LinesOf(rest)
    decreases |lines|
  {
    hide LinesOf;
    if lines == [] {
      assert JoinLines(lines) + rest == rest;
    } else {
      var n := |lines| - 1;
      var before, last := lines[..n], lines[n];
      JoinedLines(before, last + [NEWLINE] + rest);
      FirstLine(last, rest);
      assert JoinLines(lines) + rest == JoinLines(before) + (last + [NEWLINE] + rest);
    }
  }

  /** A conda stanza reads as an empty line and its lines, whatever comes behind it. */
  lemma CondaTextLines(s: Stanza, rest: seq<byte>)
    requires SingleLines(s.lines)
    ensures LinesOf(CondaText(s) + rest) == [[]] + s.lines + LinesOf(rest)
  {
    hide LinesOf, JoinLines;
    FirstLine([], JoinLines(s.lines) + rest);
    assert CondaText(s) + rest == [] + [NEWLINE] + (JoinLines(s.lines) + rest);
    JoinedLines(s.lines, rest);
  }

  /** A brew stanza reads as its lines and an empty line; without lines, as two empty lines. */
  lemma FormulaTextLines(s: Stanza, rest: seq<byte>)
    requires SingleLines(s.lines)
    ensures LinesOf(FormulaText(s) + rest) == (if s.lines == [] then [[]] else s.lines) + [[]] + LinesOf(rest)
  {
    hide LinesOf, JoinLines;
    FirstLine([], rest);
    assert [] + [NEWLINE] + rest == [NEWLINE] + rest;
    if s.lines == [] {
      FirstLine([], [NEWLINE] + rest);
      assert FormulaText(s) + rest == [] + [NEWLINE] + ([NEWLINE] + rest);
    } else {
      JoinedLines(s.lines, [NEWLINE] + rest);
      assert FormulaText(s) + rest == JoinLines(s.lines) + ([NEWLINE] + rest);
    }
  }

  // ---------------------------------------------------------------- the whole lists

  function CondaLines(entries: seq<CondaEntry>, removed: set<string>): seq<seq<byte>> {
    if entries == [] then []
    else
      var last := entries[|entries| - 1];
      CondaLines(entries[..|entries| - 1], removed) + if last.filename in removed then [] else [[]] + last.stanza.lines
  }

  /** The conda list reads as the stanzas of the files not removed, in order, an empty line before each. */
  lemma {:induction false} CondaListReads(entries: seq<CondaEntry>, removed: set<string>, rest: seq<byte>)
    requires forall i | 0 <= i < |entries| :: SingleLines(entries[i].stanza.lines)
    ensures LinesOf(Concat(CondaTexts(entries, removed)) + rest) == CondaLines(entries, removed) + LinesOf(rest)
    decreases |entries|
  {
    hide LinesOf, CondaText, SingleLines, Concat;
    if entries == [] {
      NoTexts(rest);
    } else {
      var n := |entries| - 1;
      var stanza, texts := entries[n].stanza, CondaTexts(entries[..n], removed);
      if entries[n].filename in removed {
        CondaListReads(entries[..n], removed, rest);
        assert CondaTexts(entries, removed) == texts;
        assert CondaLines(entries, removed) == CondaLines(entries[..n], removed);
      } else {
        CondaListReads(entries[..n], removed, CondaText(stanza) + rest);
        CondaTextLines(stanza, rest);
        OneMoreText(texts, stanza.name, CondaText(stanza), rest);
        Reassociate(CondaLines(entries[..n], removed), [[]] + stanza.lines, LinesOf(rest));
      }
    }
  }

  lemma NoTexts(rest: seq<byte>)
    ensures Concat([]) + rest == rest
  {
  }

  lemma OneMoreText(texts: Texts, name: string, text: seq<byte>, rest: seq<byte>)
    ensures Concat(texts + [(name, text)]) + rest == Concat(texts) + (text + rest)
  {
    hide Concat;
    OneMoreStanza(texts, name, text);
  }

  function FormulaLines(formulas: seq<Option<Stanza>>): seq<seq<byte>> {
    if formulas == [] then []
    else
      var last := formulas[|formulas| - 1];
      FormulaLines(formulas[..|formulas| - 1])
      + if last.None? then [] else (if last.value.lines == [] then [[]] else last.value.lines) + [[]]
  }

  /** The brew list reads as the stanzas of the formulas with a bottle, in order, an empty line behind
      each. */
  lemma {:induction false} FormulaListReads(formulas: seq<Option<Stanza>>, rest: seq<byte>)
    requires forall i | 0 <= i < |formulas| :: formulas[i].Some? ==> SingleLines(formulas[i].value.lines)
    ensures LinesOf(Concat(FormulaTexts(formulas)) + rest) == FormulaLines(formulas) + LinesOf(rest)
    decreases |formulas|
  {
    hide LinesOf, FormulaText, SingleLines, Concat;
    if formulas == [] {
      NoTexts(rest);
    } else {
      var n := |formulas| - 1;
      var texts := FormulaTexts(formulas[..n]);
      if formulas[n].None? {
        FormulaListReads(formulas[..n], rest);
        assert FormulaTexts(formulas) == texts && FormulaLines(formulas) == FormulaLines(formulas[..n]);
      } else {
        var stanza := formulas[n].value;
        FormulaListReads(formulas[..n], FormulaText(stanza) + rest);
        FormulaTextLines(stanza, rest);
        Reassociate(FormulaLines(formulas[..n]), (if stanza.lines == [] then [[]] else stanza.lines) + [[]],
                    LinesOf(rest));
        OneMoreText(texts, stanza.name, FormulaText(stanza), rest);
      }
    }
  }
}
