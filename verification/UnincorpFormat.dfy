/**
 The text format of dpkg's deferred-trigger file `Unincorp` (src/deb_triggers.rs): one trigger a
 line, its name and then the packages that activated it, separated by blanks.
 */
module UnincorpFormat {
  import opened Wrappers

  /** Trigger names and the packages (or "-") that activated them, in order. */
  type Activations = map<string, seq<string>>

  /** The Unicode White_Space characters, as `char::is_whitespace` has them. */
  predicate IsSpace(c: char) {
    var n := c as int;
    || 0x9 <= n <= 0xD || n == 0x20 || n == 0x85 || n == 0xA0 || n == 0x1680 || 0x2000 <= n <= 0x200A
    || n == 0x2028 || n == 0x2029 || n == 0x202F || n == 0x205F || n == 0x3000
  }

  // ---------------------------------------------------------------- reading

  /** Length of the leading part without blanks. */
  function WordLength(s: string): (n: nat)
    ensures n <= |s| && (forall i | 0 <= i < n :: !IsSpace(s[i])) && (n < |s| ==> IsSpace(s[n]))
  {
    if s == [] || IsSpace(s[0]) then 0 else 1 + WordLength(s[1..])
  }

  /** `split_whitespace` */
  function Words(s: string): (words: seq<string>)
    ensures forall i | 0 <= i < |words| :: GoodWord(words[i])
    ensures s != [] && !IsSpace(s[0]) ==> words != [] && words[0] != [] && words[0][0] == s[0]
    decreases |s|
  {
    if s == [] then []
    else if IsSpace(s[0]) then Words(s[1..])
    else
      var n := WordLength(s);
      [s[..n]] + Words(s[n..])
  }

  /** Length of the first line, without its newline. */
  function LineLength(s: string): (n: nat)
    ensures n <= |s| && (forall i | 0 <= i < n :: s[i] != '\n') && (n < |s| ==> s[n] == '\n')
  {
    if s == [] || s[0] == '\n' then 0 else 1 + LineLength(s[1..])
  }

  /** `BufRead::lines`; a carriage return before the newline is a blank and goes with `Trim`. */
  function Lines(s: string): seq<string>
    decreases |s|
  {
    if s == [] then []
    else
      var n := LineLength(s);
      [s[..n]] + Lines(if n < |s| then s[n + 1..] else [])
  }

  /** `str::trim` */
  function Trim(s: string): (t: string)
    ensures t != [] ==> !IsSpace(t[0])
  {
    if s == [] then []
    else if IsSpace(s[0]) then Trim(s[1..])
    else TrimEnd(s)
  }

  function TrimEnd(s: string): (t: string)
    ensures t <= s && (s != [] && !IsSpace(s[0]) ==> t != [])
  {
    if s == [] || !IsSpace(s[|s| - 1]) then s else TrimEnd(s[..|s| - 1])
  }

  /** The entry on one line, unless it is blank or a comment. */
  function ParseLine(line: string): Option<(string, seq<string>)> {
    var t := Trim(line);
    if t == [] || t[0] == '#' then None
    else
      var parts := Words(t);
      if parts == [] then None else Some((parts[0], parts[1..]))
  }

  function Enter(m: Activations, line: string): Activations {
    var entry := ParseLine(line);
    if entry.Some? then m[entry.value.0 := entry.value.1] else m
  }

  /** Later lines for the same trigger replace earlier ones. */
  function ParseLines(lines: seq<string>, m: Activations): Activations {
    if lines == [] then m else ParseLines(lines[1..], Enter(m, lines[0]))
  }

  function Parse(text: string): Activations {
    ParseLines(Lines(text), map[])
  }

  /** The loop of `read_unincorp_file`. */
  method ReadUnincorp(text: string) returns (activations: Activations)
    ensures activations == Parse(text)
  {
    activations := map[];
    var lines := Lines(text);
    assert lines[0..] == lines;
    for i := 0 to |lines|
      invariant ParseLines(lines[i..], activations) == Parse(text)
    {
      assert lines[i..][1..] == lines[i + 1..];
      var line := Trim(lines[i]);
      if line == [] || line[0] == '#' {
        continue;
      }
      var parts := Words(line);
      if parts != [] {
        activations := activations[parts[0] := parts[1..]];
      }
    }
  }

  // ---------------------------------------------------------------- writing

  function Tail(packages: seq<string>): string {
    if packages == [] then [] else " " + packages[0] + Tail(packages[1..])
  }

  /** The line of one entry; a trigger without packages is left out. */
  function Piece(m: Activations, t: string): string
    requires t in m
  {
    if m[t] == [] then [] else t + Tail(m[t]) + "\n"
  }

  /** The file for one walk of the map. */
  function Render(m: Activations, order: seq<string>): string
    requires forall i | 0 <= i < |order| :: order[i] in m
  {
    if order == [] then [] else Piece(m, order[0]) + Render(m, order[1..])
  }

  /** `order` lists the keys, each once. */
  ghost predicate Walk(m: Activations, order: seq<string>) {
    && (forall i | 0 <= i < |order| :: order[i] in m)
    && (forall t | t in m :: t in order)
    && (forall i, j | 0 <= i < j < |order| :: order[i] != order[j])
  }

  /** The line of one entry, its packages written one after the other. */
  method WriteEntry(m: Activations, t: string, before: string) returns (content: string)
    requires t in m
    ensures content == before + Piece(m, t)
  {
    hide Tail;
    content := before;
    if m[t] != [] {
      content := content + t;
      TailEmpty(m[t]);
      for i := 0 to |m[t]|
        invariant content == before + (t + Tail(m[t][..i]))
      {
        assert m[t][..i + 1] == m[t][..i] + [m[t][i]];
        TailLast(m[t][..i], m[t][i]);
        content := content + " ";
        content := content + m[t][i];
      }
      assert m[t][..|m[t]|] == m[t];
      content := content + "\n";
    }
  }

  /** `write_unincorp_file`, in whatever order the hash map is walked. */
  method WriteUnincorp(m: Activations) returns (content: string, ghost order: seq<string>)
    ensures Walk(m, order) && content == Render(m, order)
    ensures GoodEntries(NonEmpty(m)) ==> Parse(content) == NonEmpty(m)
  {
    hide Parse, GoodEntries, NonEmpty, Render, Piece;
    content, order := [], [];
    RenderNone(m);
    var todo := m.Keys;
    while todo != {}
      invariant todo <= m.Keys
      invariant forall i | 0 <= i < |order| :: order[i] in m && order[i] !in todo
      invariant forall t | t in m && t !in todo :: t in order
      invariant forall i, j | 0 <= i < j < |order| :: order[i] != order[j]
      invariant content == Render(m, order)
    {
      var trigger :| trigger in todo;
      todo := todo - {trigger};
      RenderOneMore(m, order, trigger);
      content := WriteEntry(m, trigger, content);
      order := order + [trigger];
    }
    if GoodEntries(NonEmpty(m)) {
      WrittenReadsBack(m, order);
    }
  }

  lemma TailEmpty(ws: seq<string>)
    ensures Tail(ws[..0]) == []
  {
  }

  lemma {:induction false} TailLast(ws: seq<string>, x: string)
    ensures Tail(ws + [x]) == Tail(ws) + " " + x
    decreases |ws|
  {
    if ws == [] {
      assert ws + [x] == [x] && [x][1..] == [];
    } else {
      assert (ws + [x])[0] == ws[0] && (ws + [x])[1..] == ws[1..] + [x];
      TailLast(ws[1..], x);
    }
  }

  lemma RenderNone(m: Activations)
    ensures Render(m, []) == []
  {
  }

  lemma RenderFirst(m: Activations, order: seq<string>)
    requires order != [] && forall i | 0 <= i < |order| :: order[i] in m
    ensures Render(m, order) == Piece(m, order[0]) + Render(m, order[1..])
  {
  }

  lemma RenderOne(m: Activations, t: string)
    requires t in m
    ensures Render(m, [t]) == Piece(m, t)
  {
    hide Piece;
    assert [t][1..] == [];
    RenderFirst(m, [t]);
    RenderNone(m);
  }

  lemma {:induction false} RenderAppend(m: Activations, pre: seq<string>, post: seq<string>)
    requires forall i | 0 <= i < |pre| :: pre[i] in m
    requires forall i | 0 <= i < |post| :: post[i] in m
    ensures forall i | 0 <= i < |pre + post| :: (pre + post)[i] in m
    ensures Render(m, pre + post) == Render(m, pre) + Render(m, post)
    decreases |pre|
  {
    hide Render, Piece;
    RenderNone(m);
    if pre == [] {
      assert pre + post == post;
    } else {
      assert (pre + post)[1..] == pre[1..] + post;
      RenderAppend(m, pre[1..], post);
      RenderFirst(m, pre);
      RenderFirst(m, pre + post);
      Reassociate(Piece(m, pre[0]), Render(m, pre[1..]), Render(m, post));
    }
  }

  lemma RenderOneMore(m: Activations, order: seq<string>, t: string)
    requires (forall i | 0 <= i < |order| :: order[i] in m) && t in m
    ensures Render(m, order + [t]) == Render(m, order) + Piece(m, t)
  {
    hide Render, Piece;
    RenderAppend(m, order, [t]);
    RenderOne(m, t);
  }

  // ---------------------------------------------------------------- reading what was written

  predicate GoodWord(w: string) {
    w != [] && forall i | 0 <= i < |w| :: !IsSpace(w[i])
  }

  predicate GoodName(t: string) {
    GoodWord(t) && t[0] != '#'
  }

  predicate GoodWords(ws: seq<string>) {
    forall i | 0 <= i < |ws| :: GoodWord(ws[i])
  }

  ghost predicate GoodEntries(m: Activations) {
    forall t | t in m :: GoodName(t) && GoodWords(m[t])
  }

  /** The entries that are written at all. */
  function NonEmpty(m: Activations): Activations {
    map t | t in m && m[t] != [] :: m[t]
  }

  lemma WordLengthIs(w: string, rest: string)
    requires GoodWord(w) && (rest != [] ==> IsSpace(rest[0]))
    ensures WordLength(w + rest) == |w|
  {
    var s := w + rest;
    assert forall i | 0 <= i < |w| :: s[i] == w[i];
    assert rest != [] ==> s[|w|] == rest[0];
  }

  lemma {:induction false} WordsOfLine(w: string, ws: seq<string>)
    requires GoodWord(w) && GoodWords(ws)
    ensures Words(w + Tail(ws)) == [w] + ws
    decreases |ws|
  {
    var rest := Tail(ws);
    var s := w + rest;
    WordLengthIs(w, rest);
    assert s[..|w|] == w && s[|w|..] == rest;
    assert s[0] == w[0];
    if ws != [] {
      WordsOfLine(ws[0], ws[1..]);
      assert rest[1..] == ws[0] + Tail(ws[1..]);
      assert ws == [ws[0]] + ws[1..];
    }
  }

  lemma {:induction false} TailEnds(w: string, ws: seq<string>)
    requires GoodWord(w) && GoodWords(ws)
    ensures var s := w + Tail(ws);
            s != [] && !IsSpace(s[0]) && !IsSpace(s[|s| - 1]) && forall i | 0 <= i < |s| :: s[i] != '\n'
    decreases |ws|
  {
    if ws == [] {
      assert w + Tail(ws) == w;
    } else {
      TailEnds(ws[0], ws[1..]);
      var t := ws[0] + Tail(ws[1..]);
      hide IsSpace;
      assert w + Tail(ws) == w + " " + t;
    }
  }

  /** A written line is read back as its entry. */
  lemma LineReadsBack(t: string, ps: seq<string>)
    requires GoodName(t) && GoodWords(ps)
    ensures ParseLine(t + Tail(ps)) == Some((t, ps))
  {
    var line := t + Tail(ps);
    TailEnds(t, ps);
    WordsOfLine(t, ps);
    assert line[0] == t[0];
    assert Trim(line) == line;
    assert ([t] + ps)[1..] == ps;
  }

  lemma FirstLine(line: string, rest: string)
    requires forall i | 0 <= i < |line| :: line[i] != '\n'
    ensures Lines(line + "\n" + rest) == [line] + Lines(rest)
  {
    var s := line + "\n" + rest;
    assert forall i | 0 <= i < |line| :: s[i] == line[i];
    assert s[|line|] == '\n';
    var n := LineLength(s);
    assert n == |line|;
    assert s[..n] == line && s[n + 1..] == rest;
  }

  /** What the walk has still to contribute. */
  function Entries(m: Activations, order: seq<string>): Activations
    requires forall i | 0 <= i < |order| :: order[i] in m
  {
    map t | t in order && m[t] != [] :: m[t]
  }

  /** Distinct keys whose nonempty entries can be written. */
  ghost predicate Writable(m: Activations, order: seq<string>) {
    && (forall i | 0 <= i < |order| :: order[i] in m)
    && (forall i, j | 0 <= i < j < |order| :: order[i] != order[j])
    && (forall i | 0 <= i < |order| :: m[order[i]] != [] ==> GoodName(order[i]) && GoodWords(m[order[i]]))
  }

  lemma WritableRest(m: Activations, order: seq<string>)
    requires Writable(m, order) && order != []
    ensures Writable(m, order[1..])
  {
    var rest := order[1..];
    assert forall i | 0 <= i < |rest| :: rest[i] == order[i + 1];
  }

  lemma {:induction false} WalkReadsBack(m: Activations, order: seq<string>, acc: Activations)
    requires Writable(m, order)
    ensures ParseLines(Lines(Render(m, order)), acc) == acc + Entries(m, order)
    decreases |order|
  {
    hide Lines, ParseLines, Entries, GoodName, GoodWords, Render;
    if order == [] {
      WalkEnds(m, order, acc);
    } else {
      WritableRest(m, order);
      var rest := order[1..];
      if m[order[0]] == [] {
        WalkReadsBack(m, rest, acc);
        WalkSkips(m, order);
      } else {
        WalkReadsBack(m, rest, acc[order[0] := m[order[0]]]);
        WalkStep(m, order, acc);
      }
    }
  }

  lemma WalkEnds(m: Activations, order: seq<string>, acc: Activations)
    requires |order| == 0
    ensures ParseLines(Lines(Render(m, order)), acc) == acc + Entries(m, order)
  {
    assert acc + Entries(m, order) == acc;
  }

  lemma WalkSkips(m: Activations, order: seq<string>)
    requires Writable(m, order) && order != [] && m[order[0]] == [] && Writable(m, order[1..])
    ensures Render(m, order) == Render(m, order[1..]) && Entries(m, order) == Entries(m, order[1..])
  {
  }

  lemma WalkStep(m: Activations, order: seq<string>, acc: Activations)
    requires Writable(m, order) && order != [] && m[order[0]] != []
    requires Writable(m, order[1..])
    ensures var acc1 := acc[order[0] := m[order[0]]];
            && ParseLines(Lines(Render(m, order)), acc) == ParseLines(Lines(Render(m, order[1..])), acc1)
            && acc1 + Entries(m, order[1..]) == acc + Entries(m, order)
  {
    hide Lines, ParseLines, Tail, Entries;
    EntryReadsBack(order[0], m[order[0]], Render(m, order[1..]), acc);
    EntriesOneMore(m, order, acc);
  }

  lemma EntryReadsBack(t: string, ps: seq<string>, rest: string, acc: Activations)
    requires GoodName(t) && GoodWords(ps)
    ensures ParseLines(Lines(t + Tail(ps) + "\n" + rest), acc) == ParseLines(Lines(rest), acc[t := ps])
  {
    var line := t + Tail(ps);
    LineReadsBack(t, ps);
    TailEnds(t, ps);
    FirstLine(line, rest);
    assert ([line] + Lines(rest))[1..] == Lines(rest);
  }

  lemma EntriesOneMore(m: Activations, order: seq<string>, acc: Activations)
    requires order != [] && (forall i | 0 <= i < |order| :: order[i] in m)
    requires forall i, j | 0 <= i < j < |order| :: order[i] != order[j]
    requires m[order[0]] != []
    ensures acc[order[0] := m[order[0]]] + Entries(m, order[1..]) == acc + Entries(m, order)
  {
    assert order[0] !in order[1..];
  }

  /** For every walk of the map, reading the written file gives the nonempty entries back. */
  lemma WrittenReadsBack(m: Activations, order: seq<string>)
    requires Walk(m, order) && GoodEntries(NonEmpty(m))
    ensures Parse(Render(m, order)) == NonEmpty(m)
  {
    hide Parse, Render, ParseLines, Lines, Entries;
    WalkWritable(m, order);
    WalkReadsBack(m, order, map[]);
    WalkEntries(m, order);
    ParseIs(Render(m, order));
  }

  lemma ParseIs(text: string)
    ensures Parse(text) == ParseLines(Lines(text), map[])
  {
  }

  lemma WalkWritable(m: Activations, order: seq<string>)
    requires Walk(m, order) && GoodEntries(NonEmpty(m))
    ensures Writable(m, order)
  {
    hide GoodName, GoodWords;
    forall i | 0 <= i < |order| && m[order[i]] != []
      ensures GoodName(order[i]) && GoodWords(m[order[i]])
    {
      assert order[i] in NonEmpty(m);
    }
  }

  lemma WalkEntries(m: Activations, order: seq<string>)
    requires Walk(m, order)
    ensures map[] + Entries(m, order) == NonEmpty(m)
  {
  }

  lemma {:induction false} ParsedLinesAreGood(lines: seq<string>, m: Activations)
    requires GoodEntries(m)
    ensures GoodEntries(ParseLines(lines, m))
    decreases |lines|
  {
    if lines != [] {
      var entry := ParseLine(lines[0]);
      if entry.Some? {
        var parts := Words(Trim(lines[0]));
        assert forall i | 0 <= i < |parts| - 1 :: parts[1..][i] == parts[i + 1];
        assert GoodName(entry.value.0) && GoodWords(entry.value.1);
      }
      ParsedLinesAreGood(lines[1..], Enter(m, lines[0]));
    }
  }

  /** Whatever a file holds, the names and packages read from it can be written. */
  lemma ParsedIsGood(text: string)
    ensures GoodEntries(Parse(text))
  {
    ParsedLinesAreGood(Lines(text), map[]);
  }

  /** Exactly the maps with writable names and packages and without empty lists survive. */
  lemma RoundTrip(m: Activations, order: seq<string>)
    requires Walk(m, order)
    ensures Parse(Render(m, order)) == m <==> GoodEntries(m) && forall t | t in m :: m[t] != []
  {
    ParsedIsGood(Render(m, order));
    if GoodEntries(m) {
      assert GoodEntries(NonEmpty(m));
      WrittenReadsBack(m, order);
      if forall t | t in m :: m[t] != [] {
        assert NonEmpty(m) == m;
      }
    }
  }
}
