/**
 What happens to dpkg's `Unincorp` file (src/deb_triggers.rs) when one entry is written whose name
 or packages are not well-formed. Nothing is checked before it is written, so its line may be read
 back as something else, or as several lines.
 */
module LooseEntry {
  import opened Wrappers
  import opened UnincorpFormat

  // ---------------------------------------------------------------- texts, line by line

  lemma TakeLine(a: string) returns (line: string, rest: string)
    requires a != [] && a[|a| - 1] == '\n'
    ensures a == line + "\n" + rest && '\n' !in line && (rest != [] ==> rest[|rest| - 1] == '\n')
  {
    var n := LineLength(a);
    line, rest := a[..n], a[n + 1..];
  }

  lemma NoLines(b: string)
    ensures Lines([]) == [] && [] + Lines(b) == Lines(b)
  {
  }

  lemma {:induction false} LinesAppend(a: string, b: string)
    requires a != [] ==> a[|a| - 1] == '\n'
    ensures Lines(a + b) == Lines(a) + Lines(b)
    decreases |a|
  {
    hide *;
    if a == [] {
      NoLines(b);
      assert a + b == b;
    } else {
      var line, rest := TakeLine(a);
      FirstLine(line, rest);
      FirstLine(line, rest + b);
      assert a + b == line + "\n" + (rest + b);
      LinesAppend(rest, b);
      Reassociate([line], Lines(rest), Lines(b));
    }
  }

  lemma {:induction false} ParseLinesAppend(x: seq<string>, y: seq<string>, m: Activations)
    ensures ParseLines(x + y, m) == ParseLines(y, ParseLines(x, m))
    decreases |x|
  {
    if x == [] {
      assert x + y == y;
    } else {
      assert (x + y)[1..] == x[1..] + y;
      ParseLinesAppend(x[1..], y, Enter(m, x[0]));
    }
  }

  lemma ParseFirst(lines: seq<string>, m: Activations)
    ensures lines == [] ==> ParseLines(lines, m) == m
    ensures lines != [] ==> ParseLines(lines, m) == ParseLines(lines[1..], Enter(m, lines[0]))
  {
  }

  lemma OverOver(a: Activations, b: Activations, c: Activations)
    ensures (a + b) + c == a + (b + c) && a + map[] == a
  {
  }

  /** Reading lines into a map overrides what it held. */
  lemma {:induction false} ParseLinesOver(lines: seq<string>, m: Activations)
    ensures ParseLines(lines, m) == m + ParseLines(lines, map[])
    decreases |lines|
  {
    hide *;
    ParseFirst(lines, m);
    ParseFirst(lines, map[]);
    if lines == [] {
      OverOver(m, map[], map[]);
    } else {
      var one, rest := Enter(map[], lines[0]), ParseLines(lines[1..], map[]);
      EnterOver(m, lines[0]);
      ParseLinesOver(lines[1..], m + one);
      ParseLinesOver(lines[1..], one);
      OverOver(m, one, rest);
    }
  }

  lemma EnterOver(m: Activations, line: string)
    ensures Enter(m, line) == m + Enter(map[], line)
  {
    hide ParseLine;
  }

  lemma ParseAppend(a: string, b: string)
    requires a != [] ==> a[|a| - 1] == '\n'
    ensures Parse(a + b) == Parse(a) + Parse(b)
  {
    hide Lines, ParseLines;
    LinesAppend(a, b);
    ParseLinesAppend(Lines(a), Lines(b), map[]);
    ParseLinesOver(Lines(b), Parse(a));
  }

  // ---------------------------------------------------------------- one loose entry

  /** The entry's line. */
  function EntryLine(t: string, packages: seq<string>): string {
    t + Tail(packages) + "\n"
  }

  /** What the line says when it is read. */
  function Said(m: Activations, t: string): Activations
    requires t in m
  {
    Parse(EntryLine(t, m[t]))
  }

  /** All entries but that of `t` can be written and read. */
  ghost predicate OthersGood(m: Activations, t: string) {
    t in m && m[t] != [] && forall u | u in m && u != t :: GoodName(u) && GoodWords(m[u])
  }

  /** The other triggers are pending as before. */
  ghost predicate OthersKept(m: Activations, t: string, after: Activations) {
    forall u | u in m && u != t && m[u] != [] :: u in after && after[u] == m[u]
  }

  /** The line says nothing new about other pending triggers. */
  ghost predicate Harmless(m: Activations, t: string)
    requires t in m
  {
    forall u | u in Said(m, t) && u != t && u in m && m[u] != [] :: Said(m, t)[u] == m[u]
  }

  lemma {:induction false} RenderEnds(m: Activations, order: seq<string>)
    requires forall i | 0 <= i < |order| :: order[i] in m
    ensures var text := Render(m, order); text != [] ==> text[|text| - 1] == '\n'
  {
    if order != [] {
      RenderEnds(m, order[1..]);
    }
  }

  lemma PartReadsBack(m: Activations, order: seq<string>)
    requires Writable(m, order)
    ensures Parse(Render(m, order)) == Entries(m, order)
  {
    hide ParseLines, Lines, Render, Entries;
    WalkReadsBack(m, order, map[]);
    assert map[] + Entries(m, order) == Entries(m, order);
  }

  lemma PartWritable(m: Activations, t: string, order: seq<string>, from: nat, to: nat)
    requires OthersGood(m, t) && Walk(m, order) && from <= to <= |order|
    requires forall i | from <= i < to :: order[i] != t
    ensures Writable(m, order[from..to])
  {
    hide GoodName, GoodWords;
    var part := order[from..to];
    assert forall i | 0 <= i < |part| :: part[i] == order[from + i];
  }

  lemma IndexOf(m: Activations, t: string, order: seq<string>) returns (i: nat)
    requires t in m && Walk(m, order)
    ensures i < |order| && order[i] == t && forall j | 0 <= j < |order| && j != i :: order[j] != t
  {
    assert t in order;
    i :| 0 <= i < |order| && order[i] == t;
  }

  /** A walk of the map, split at the loose entry. */
  lemma SplitWalk(m: Activations, t: string, order: seq<string>) returns (pre: seq<string>, post: seq<string>)
    requires t in m && OthersGood(m, t) && Walk(m, order)
    ensures order == pre + [t] + post && Writable(m, pre) && Writable(m, post)
    ensures forall u | u in m && u != t :: u in pre <==> u !in post
  {
    hide Writable, OthersGood;
    var i := IndexOf(m, t, order);
    PartWritable(m, t, order, 0, i);
    PartWritable(m, t, order, i + 1, |order|);
    pre, post := order[0..i], order[i + 1..|order|];
    forall u | u in m && u != t
      ensures u in pre <==> u !in post
    {
      InOnePart(order, i, u);
    }
  }

  lemma InOnePart(order: seq<string>, i: nat, u: string)
    requires i < |order| && u in order && u != order[i]
    requires forall j, k | 0 <= j < k < |order| :: order[j] != order[k]
    ensures u in order[0..i] <==> u !in order[i + 1..|order|]
  {
    var j :| 0 <= j < |order| && order[j] == u;
    if j < i {
      assert order[0..i][j] == u;
    } else {
      assert order[i + 1..|order|][j - i - 1] == u;
    }
  }

  /** What is read back: the entries written before, overridden by what the loose line says,
      overridden by the entries written after. */
  lemma LooseReadsBack(m: Activations, t: string, pre: seq<string>, post: seq<string>)
    requires t in m && m[t] != [] && Writable(m, pre) && Writable(m, post)
    ensures forall i | 0 <= i < |pre + [t] + post| :: (pre + [t] + post)[i] in m
    ensures Parse(Render(m, pre + [t] + post)) == Entries(m, pre) + Said(m, t) + Entries(m, post)
  {
    hide Parse, Render, Entries;
    RenderAppend(m, pre, [t]);
    RenderAppend(m, pre + [t], post);
    RenderOne(m, t);
    RenderEnds(m, pre);
    RenderEnds(m, pre + [t]);
    ParseAppend(Render(m, pre), EntryLine(t, m[t]));
    ParseAppend(Render(m, pre + [t]), Render(m, post));
    PartReadsBack(m, pre);
    PartReadsBack(m, post);
  }

  ghost predicate WrittenBefore(order: seq<string>, u: string, t: string) {
    exists i, j :: 0 <= i < j < |order| && order[i] == u && order[j] == t
  }

  /** For a given walk, another trigger stays as it was if and only if the loose line says nothing
      else about it or its own line comes later. */
  lemma KeptInOrder(m: Activations, t: string, order: seq<string>, u: string)
    requires OthersGood(m, t) && Walk(m, order) && u in m && u != t && m[u] != []
    ensures var after := Parse(Render(m, order));
            (u in after && after[u] == m[u])
            <==> (u in Said(m, t) && WrittenBefore(order, u, t) ==> Said(m, t)[u] == m[u])
  {
    hide Parse, Render, Said, Writable;
    var pre, post := SplitWalk(m, t, order);
    LooseReadsBack(m, t, pre, post);
    BeforeIsPre(m, t, order, pre, post, u);
  }

  lemma BeforeIsPre(m: Activations, t: string, order: seq<string>, pre: seq<string>, post: seq<string>, u: string)
    requires Walk(m, order) && order == pre + [t] + post && u in m && u != t
    ensures u in pre <==> WrittenBefore(order, u, t)
  {
    assert order[|pre|] == t;
    if u in pre {
      var i :| 0 <= i < |pre| && pre[i] == u;
      assert order[i] == u;
    }
    if WrittenBefore(order, u, t) {
      var i, j :| 0 <= i < j < |order| && order[i] == u && order[j] == t;
      assert j == |pre|;
      assert pre[i] == u;
    }
  }

  lemma {:induction false} WalkOf(m: Activations, keys: set<string>) returns (order: seq<string>)
    requires keys <= m.Keys
    ensures forall i | 0 <= i < |order| :: order[i] in keys
    ensures forall k | k in keys :: k in order
    ensures forall i, j | 0 <= i < j < |order| :: order[i] != order[j]
    decreases keys
  {
    if keys == {} {
      order := [];
    } else {
      var k :| k in keys;
      order := WalkOf(m, keys - {k});
      order := order + [k];
    }
  }

  /** The other triggers stay as they were in whatever order the map is walked if and only if the
      loose line is harmless. */
  lemma KeptInEveryOrder(m: Activations, t: string)
    requires OthersGood(m, t)
    ensures Harmless(m, t) <==> forall order | Walk(m, order) :: OthersKept(m, t, Parse(Render(m, order)))
  {
    hide Parse, Render, Said, GoodName, GoodWords;
    forall order | Walk(m, order)
      ensures Harmless(m, t) ==> OthersKept(m, t, Parse(Render(m, order)))
    {
      forall u | u in m && u != t && m[u] != []
        ensures Harmless(m, t) ==> u in Parse(Render(m, order)) && Parse(Render(m, order))[u] == m[u]
      {
        KeptInOrder(m, t, order, u);
      }
    }
    if !Harmless(m, t) {
      var u :| u in Said(m, t) && u != t && u in m && m[u] != [] && Said(m, t)[u] != m[u];
      var order := WalkOf(m, m.Keys - {t});
      assert u in order;
      var i :| 0 <= i < |order| && order[i] == u;
      order := order + [t];
      assert Walk(m, order) && order[i] == u && order[|order| - 1] == t;
      assert WrittenBefore(order, u, t);
      KeptInOrder(m, t, order, u);
      assert !OthersKept(m, t, Parse(Render(m, order)));
    }
  }

  // ---------------------------------------------------------------- an awaiter with blanks

  /** Words on both sides of a blank. */
  lemma {:induction false} WordsJoin(a: string, b: string, blank: char)
    requires IsSpace(blank)
    ensures Words(a + [blank] + b) == Words(a) + Words(b)
    decreases |a|
  {
    var s := a + [blank] + b;
    if a == [] {
      assert s[1..] == b;
    } else if IsSpace(a[0]) {
      assert s[1..] == a[1..] + [blank] + b;
      WordsJoin(a[1..], b, blank);
    } else {
      JoinAtWord(a, b, blank);
      WordsJoin(a[WordLength(a)..], b, blank);
    }
  }

  lemma JoinAtWord(a: string, b: string, blank: char)
    requires IsSpace(blank) && a != [] && !IsSpace(a[0])
    ensures var rest := a[WordLength(a)..];
            && |rest| < |a|
            && (Words(rest + [blank] + b) == Words(rest) + Words(b) ==> Words(a + [blank] + b) == Words(a) + Words(b))
  {
    hide IsSpace, Words, WordLength;
    var n := WordLength(a);
    var s := a + [blank] + b;
    SameWord(a, [blank] + b);
    assert s == a + ([blank] + b);
    FirstWord(a);
    FirstWord(s);
    assert s[n..] == a[n..] + [blank] + b && s[..n] == a[..n];
    Reassociate([a[..n]], Words(a[n..]), Words(b));
  }

  lemma FirstWord(s: string)
    requires s != [] && !IsSpace(s[0])
    ensures WordLength(s) > 0 && Words(s) == [s[..WordLength(s)]] + Words(s[WordLength(s)..])
  {
  }

  lemma SameWord(a: string, b: string)
    requires b != [] && IsSpace(b[0])
    ensures WordLength(a + b) == WordLength(a)
  {
    hide IsSpace;
    var n := WordLength(a);
    assert forall i | 0 <= i < n :: (a + b)[i] == a[i];
    assert (a + b)[n] == if n < |a| then a[n] else b[0];
  }

  lemma {:induction false} WordsTrimEnd(s: string)
    ensures Words(TrimEnd(s)) == Words(s)
    decreases |s|
  {
    hide IsSpace;
    if s != [] && IsSpace(s[|s| - 1]) {
      var n := |s| - 1;
      WordsTrimEnd(s[..n]);
      WordsJoin(s[..n], [], s[n]);
      assert s[..n] + [s[n]] + [] == s;
      assert Words([]) == [];
    }
  }

  lemma {:induction false} WordsTrim(s: string)
    ensures Words(Trim(s)) == Words(s)
    decreases |s|
  {
    hide IsSpace;
    if s != [] {
      if IsSpace(s[0]) {
        WordsTrim(s[1..]);
      } else {
        WordsTrimEnd(s);
      }
    }
  }

  lemma ParsesAs(line: string, t: string, ws: seq<string>)
    requires line != [] && !IsSpace(line[0]) && line[0] != '#' && Words(line) == [t] + ws
    ensures ParseLine(line) == Some((t, ws))
  {
    hide IsSpace, Words;
    WordsTrim(line);
    assert Trim(line) == TrimEnd(line);
    assert ([t] + ws)[1..] == ws;
  }

  lemma OneLine(line: string)
    requires '\n' !in line
    ensures Parse(line + "\n") == Enter(map[], line)
  {
    hide LineLength, ParseLine;
    FirstLine(line, []);
    assert line + "\n" + [] == line + "\n";
    assert Lines(line + "\n") == [line] && [line][1..] == [];
    assert ParseLines([line], map[]) == ParseLines([line][1..], Enter(map[], line));
  }

  /** An awaiter without newline is recorded as the words it consists of. */
  lemma LooseAwaiter(t: string, ws: seq<string>, x: string)
    requires GoodName(t) && GoodWords(ws) && '\n' !in x
    ensures Parse(EntryLine(t, ws + [x])) == map[t := ws + Words(x)]
  {
    hide Words, IsSpace, Parse, ParseLine;
    var front := t + Tail(ws);
    var line := t + Tail(ws + [x]);
    TailLast(ws, x);
    assert line == front + " " + x;
    TailEnds(t, ws);
    WordsOfLine(t, ws);
    assert IsSpace(' ') by {
      SpaceIsSpace();
    }
    WordsJoin(front, x, ' ');
    Reassociate([t], ws, Words(x));
    assert line[0] == t[0];
    ParsesAs(line, t, ws + Words(x));
    OneLine(line);
  }

  lemma SpaceIsSpace()
    ensures IsSpace(' ')
  {
  }

  /** When the line is read as one entry of its trigger, this is all that it changes. */
  lemma OneEntryReadsBack(m: Activations, t: string, order: seq<string>, packages: seq<string>)
    requires t in m && OthersGood(m, t) && Walk(m, order) && Said(m, t) == map[t := packages]
    ensures Parse(Render(m, order)) == NonEmpty(m - {t})[t := packages]
  {
    hide Parse, Render, Said, GoodName, GoodWords, Entries, NonEmpty;
    var pre, post := SplitWalk(m, t, order);
    LooseReadsBack(m, t, pre, post);
    TNotInPost(m, t, order, pre, post);
    PartsMerge(m, t, pre, post, packages);
  }

  lemma PartsMerge(m: Activations, t: string, pre: seq<string>, post: seq<string>, packages: seq<string>)
    requires t in m && t !in post && (forall u | u in m && u != t :: u in pre <==> u !in post)
    requires (forall i | 0 <= i < |pre| :: pre[i] in m) && (forall i | 0 <= i < |post| :: post[i] in m)
    ensures Entries(m, pre) + map[t := packages] + Entries(m, post) == NonEmpty(m - {t})[t := packages]
  {
    var after := Entries(m, pre) + map[t := packages] + Entries(m, post);
    var all := NonEmpty(m - {t})[t := packages];
    assert after.Keys == all.Keys;
  }

  lemma TNotInPost(m: Activations, t: string, order: seq<string>, pre: seq<string>, post: seq<string>)
    requires Walk(m, order) && order == pre + [t] + post
    ensures t !in post
  {
    assert order[|pre|] == t;
    forall i | 0 <= i < |post|
      ensures post[i] != t
    {
      assert order[|pre| + 1 + i] == post[i];
    }
  }
}
