/**
 The deferred-trigger file as text (src/deb_triggers.rs): how a line is written, and which lines are
 read as what, for lines written by others too.
 */
module UnincorpLines {
  import opened Wrappers
  import opened UnincorpFormat
  import opened LooseEntry

  /** A trigger is written with its packages on one line. */
  lemma WrittenLine(t: string, p: string, q: string)
    ensures Render(map[t := [p, q]], [t]) == t + " " + p + " " + q + "\n"
    ensures Render(map[t := []], [t]) == ""
  {
    assert [t][1..] == [] && [p, q][1..] == [q] && [q][1..] == [];
    assert Tail([q]) == " " + q && Tail([p, q]) == " " + p + Tail([q]);
    RenderOneLine(map[t := [p, q]], t);
    RenderOneLine(map[t := []], t);
  }

  lemma RenderOneLine(m: Activations, t: string)
    requires t in m
    ensures Render(m, [t]) == Piece(m, t)
  {
    assert [t][1..] == [];
    assert Render(m, [t]) == Piece(m, t) + Render(m, [t][1..]);
  }

  /** A comment and an empty line add nothing. */
  lemma SkippedLines(x: string, rest: string)
    requires '\n' !in x
    ensures Parse("#" + x + "\n" + rest) == Parse(rest) && Parse("\n" + rest) == Parse(rest)
  {
    hide *;
    CommentIsSkipped("#" + x);
    LineAddsNothing("#" + x, rest);
    EmptyIsSkipped();
    LineAddsNothing("", rest);
    assert "" + "\n" + rest == "\n" + rest;
  }

  lemma LineAddsNothing(line: string, rest: string)
    requires '\n' !in line && ParseLine(line) == None
    ensures Parse(line + "\n" + rest) == Parse(rest)
  {
    hide Parse, ParseLine;
    ParseAppend(line + "\n", rest);
    OneLine(line);
    assert map[] + Parse(rest) == Parse(rest);
  }

  lemma EmptyIsSkipped()
    ensures ParseLine("") == None
  {
  }

  lemma NotBlank(c: char)
    requires '!' <= c <= '~'
    ensures !IsSpace(c)
  {
  }

  lemma CommentIsSkipped(line: string)
    requires line != "" && line[0] == '#'
    ensures ParseLine(line) == None
  {
    NotBlank('#');
    assert TrimEnd(line) <= line && TrimEnd(line) != "";
  }

  /** Words of printable characters, separated by tabs, with blanks and a carriage return around. */
  lemma TabbedLine(t: string, p: string)
    requires t != "" && p != "" && t[0] != '#'
    requires forall i | 0 <= i < |t| :: '!' <= t[i] <= '~'
    requires forall i | 0 <= i < |p| :: '!' <= p[i] <= '~'
    ensures Parse("\t" + t + "\t" + p + " \r\n") == map[t := [p]]
  {
    hide Parse, Words, TrimEnd, IsSpace;
    Blanks();
    NotBlank(t[0]);
    var m := t + "\t" + p + " \r";
    WordsOfTabbed(t, p);
    assert m[0] == t[0] && m != [];
    ParsesAs(m, t, [p]);
    assert ("\t" + m)[1..] == m;
    assert Trim("\t" + m) == Trim(m);
    OneLine("\t" + m);
    assert "\t" + t + "\t" + p + " \r\n" == "\t" + m + "\n";
  }

  lemma Blanks()
    ensures IsSpace(' ') && IsSpace('\t') && IsSpace('\r')
  {
  }

  lemma OneWord(w: string)
    requires w != "" && forall i | 0 <= i < |w| :: '!' <= w[i] <= '~'
    ensures GoodWord(w) && Words(w) == [w]
  {
    forall i | 0 <= i < |w|
      ensures !IsSpace(w[i])
    {
      NotBlank(w[i]);
    }
    WordsOfLine(w, []);
    assert w + Tail([]) == w;
  }

  lemma WordsOfTabbed(t: string, p: string)
    requires t != "" && p != ""
    requires forall i | 0 <= i < |t| :: '!' <= t[i] <= '~'
    requires forall i | 0 <= i < |p| :: '!' <= p[i] <= '~'
    ensures Words(t + "\t" + p + " \r") == [t, p]
  {
    hide *;
    Blanks();
    OneWord(t);
    OneWord(p);
    WordsBeforeReturn(p);
    WordsJoin(t, p + " \r", '\t');
    assert t + ['\t'] + (p + " \r") == t + "\t" + p + " \r";
  }

  lemma WordsBeforeReturn(p: string)
    ensures Words(p + " \r") == Words(p)
  {
    hide IsSpace;
    Blanks();
    WordsJoin("", "", '\r');
    assert "" + ['\r'] + "" == "\r";
    assert Words("") == [];
    hide Words;
    WordsJoin(p, "\r", ' ');
    assert p + [' '] + "\r" == p + " \r";
  }
}
