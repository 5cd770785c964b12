/**
 Placeholder substitution in Homebrew text files (src/brew_pkg.rs,
 `replace_homebrew_placeholders_in_file`): three placeholders, one pass.
 */
module BrewText {
  import opened Wrappers
  import opened Bytes
  import opened PassesInTurn
  import opened Substitution

  const AT: byte := 0x40     // '@'
  const SLASH: byte := 0x2F  // '/'

  const PREFIX_PLACEHOLDER: seq<byte> := Ascii("@@HOMEBREW_PREFIX@@")
  const CELLAR_PLACEHOLDER: seq<byte> := Ascii("@@HOMEBREW_CELLAR@@")
  const LIBRARY_PLACEHOLDER: seq<byte> := Ascii("@@HOMEBREW_LIBRARY@@")

  /** The replacement table of a text file. */
  function TextRules(prefix: seq<byte>): (rules: seq<Rule<byte>>)
    ensures ValidRules(rules)
  {
    [Rule(PREFIX_PLACEHOLDER, prefix),
     Rule(CELLAR_PLACEHOLDER, prefix + Ascii("/Cellar")),
     Rule(LIBRARY_PLACEHOLDER, prefix + Ascii("/Cellar"))]
  }

  /** A prefix that is a path without the placeholder fence. */
  predicate PathPrefix(prefix: seq<byte>) {
    SLASH in prefix && AT !in prefix
  }

  /** The earliest match of rules `k` and later; on a tie the rule listed first wins, as
      `min_by_key` returns the first minimum. */
  function NextMatch(s: seq<byte>, rules: seq<Rule<byte>>, k: nat): (r: Option<(nat, nat)>)
    requires k <= |rules|
    ensures r.Some? ==> k <= r.value.1 < |rules|
    decreases |rules| - k
  {
    if k == |rules| then None
    else
      var here := Find(s, rules[k].pattern);
      var later := NextMatch(s, rules, k + 1);
      if here.None? then later
      else if later.Some? && later.value.0 < here.value then later
      else Some((here.value, k))
  }

  /** It is the earliest match, and the first listed among those at the same place. */
  lemma {:induction false} NextMatchIsFirst(s: seq<byte>, rules: seq<Rule<byte>>, k: nat)
    requires k <= |rules|
    ensures var r := NextMatch(s, rules, k);
            && (r.None? ==> forall j | k <= j < |rules| :: !Occurs(s, rules[j].pattern))
            && (r.Some? ==>
                  var (offset, m) := r.value;
                  && OccursAt(s, offset, rules[m].pattern)
                  && (forall i: nat, j | i < offset && k <= j < |rules| :: !OccursAt(s, i, rules[j].pattern))
                  && (forall j | k <= j < m :: !OccursAt(s, offset, rules[j].pattern)))
    decreases |rules| - k
  {
    hide Find, OccursAt;
    if k < |rules| {
      NextMatchIsFirst(s, rules, k + 1);
      if NextMatch(s, rules, k).None? {
        assert !Occurs(s, rules[k].pattern);
      }
    }
  }

  lemma NextMatchStep(s: seq<byte>, rules: seq<Rule<byte>>)
    requires ValidRules(rules)
    ensures var r := NextMatch(s, rules, 0);
            && (r.None? ==> Substitute(s, rules) == s)
            && (r.Some? ==>
                  var (offset, m) := r.value;
                  var after := offset + |rules[m].pattern|;
                  && after <= |s|
                  && Substitute(s, rules) == s[..offset] + rules[m].replacement + Substitute(s[after..], rules))
  {
    hide NextMatch, Substitute, ValidRules;
    var r := NextMatch(s, rules, 0);
    NextMatchIsFirst(s, rules, 0);
    if r.None? {
      SubstituteNothing(s, rules);
    } else {
      SilentBefore(s, rules, r.value.0);
      SubstituteAt(s, rules, r.value.0, r.value.1);
    }
  }

  lemma SilentBefore(s: seq<byte>, rules: seq<Rule<byte>>, offset: nat)
    requires forall i: nat, j | i < offset && 0 <= j < |rules| :: !OccursAt(s, i, rules[j].pattern)
    ensures Silent(s, rules, offset)
  {
    forall i | 0 <= i < offset
      ensures NoneStarts(s, i, rules)
    {
    }
  }

  /** `replace_homebrew_placeholders_in_file`: `result` is what the file holds afterwards. */
  method ReplacePlaceholders(content: seq<byte>, prefix: seq<byte>) returns (result: seq<byte>)
    ensures result == Substitute(content, TextRules(prefix))
  {
    hide *;
    var rules := TextRules(prefix);
    NextMatchStep(content, rules);
    if NextMatch(content, rules, 0).None? {
      return content;
    }
    var newContent := [];
    var pos := 0;
    assert content[0..] == content;
    while pos < |content|
      invariant pos <= |content|
      invariant newContent + Substitute(content[pos..], rules) == Substitute(content, rules)
    {
      var next := NextMatch(content[pos..], rules, 0);
      NextMatchStep(content[pos..], rules);
      if next.Some? {
        var (offset, m) := next.value;
        Progress(content, pos, rules, offset, m, newContent);
        newContent := newContent + content[pos..pos + offset];
        newContent := newContent + rules[m].replacement;
        pos := pos + offset + |rules[m].pattern|;
      } else {
        return newContent + content[pos..];
      }
    }
    SubstituteNil(content[pos..], rules);
    result := newContent;
  }

  /** What is written and what is still to be substituted, before and after one match. */
  lemma Progress(content: seq<byte>, pos: nat, rules: seq<Rule<byte>>, offset: nat, m: nat, before: seq<byte>)
    requires ValidRules(rules) && m < |rules| && pos <= |content|
    requires var after := offset + |rules[m].pattern|;
             var rest := content[pos..];
             && after <= |rest|
             && Substitute(rest, rules) == rest[..offset] + rules[m].replacement + Substitute(rest[after..], rules)
    ensures |rules[m].pattern| > 0 && pos + offset + |rules[m].pattern| <= |content|
    ensures before + Substitute(content[pos..], rules) ==
            ((before + content[pos..pos + offset]) + rules[m].replacement)
            + Substitute(content[pos + offset + |rules[m].pattern|..], rules)
  {
    hide Substitute;
    var after, rest, rep := offset + |rules[m].pattern|, content[pos..], rules[m].replacement;
    assert rest[..offset] == content[pos..pos + offset];
    assert rest[after..] == content[pos + after..];
    Reassociate(before, rest[..offset] + rep, Substitute(rest[after..], rules));
    Reassociate(before, rest[..offset], rep);
  }

  lemma SubstituteNil(s: seq<byte>, rules: seq<Rule<byte>>)
    requires ValidRules(rules) && |s| == 0
    ensures Substitute(s, rules) == []
  {
  }

  // ---------------------------------------------------------------- what the pass promises

  lemma PlaceholderFences()
    ensures Fenced(PREFIX_PLACEHOLDER, AT, SLASH) && Fenced(CELLAR_PLACEHOLDER, AT, SLASH)
    ensures Fenced(LIBRARY_PLACEHOLDER, AT, SLASH)
  {
  }

  lemma PlaceholdersDiffer()
    ensures |PREFIX_PLACEHOLDER| == |CELLAR_PLACEHOLDER| == 19 && |LIBRARY_PLACEHOLDER| == 20
    ensures PREFIX_PLACEHOLDER[11] == 0x50 && CELLAR_PLACEHOLDER[11] == 0x43 && LIBRARY_PLACEHOLDER[11] == 0x4C
  {
  }

  /** The three placeholders are fenced by '@' and have no '/'; the replacements built from a
      path are inert. */
  lemma TextRulesShape(prefix: seq<byte>)
    requires PathPrefix(prefix)
    ensures InertRules(TextRules(prefix), AT, SLASH) && FencedRules(TextRules(prefix), AT, SLASH)
  {
    hide Fenced;
    PlaceholderFences();
    CellarInert(prefix);
  }

  lemma CellarInert(prefix: seq<byte>)
    requires PathPrefix(prefix)
    ensures Inert(prefix, AT, SLASH) && Inert(prefix + Ascii("/Cellar"), AT, SLASH)
  {
  }

  /** No placeholder is left behind. */
  lemma NoPlaceholderLeft(content: seq<byte>, prefix: seq<byte>)
    requires PathPrefix(prefix)
    ensures var after := Substitute(content, TextRules(prefix));
            forall k | 0 <= k < |TextRules(prefix)| :: !Occurs(after, TextRules(prefix)[k].pattern)
  {
    var rules := TextRules(prefix);
    TextRulesShape(prefix);
    forall k | 0 <= k < |rules|
      ensures !Occurs(Substitute(content, rules), rules[k].pattern)
    {
      SubstituteClears(content, rules, AT, SLASH, rules[k].pattern);
    }
  }

  /** Rewriting a rewritten file, even for another prefix, changes nothing. */
  lemma RewriteTwice(content: seq<byte>, prefix: seq<byte>, again: seq<byte>)
    requires PathPrefix(prefix)
    ensures var after := Substitute(content, TextRules(prefix));
            Substitute(after, TextRules(again)) == after
  {
    NoPlaceholderLeft(content, prefix);
    var rules := TextRules(prefix);
    assert forall k | 0 <= k < 3 :: TextRules(again)[k].pattern == rules[k].pattern;
    SubstituteNothing(Substitute(content, rules), TextRules(again));
  }

  lemma TextRulesUniform(prefix: seq<byte>)
    requires PathPrefix(prefix)
    ensures Uniform(TextRules(prefix), AT, SLASH)
  {
    TextRulesShape(prefix);
    PlaceholdersDiffer();
    hide Inert, Fenced, Ascii;
    var r := TextRules(prefix);
    forall j, k | 0 <= j < 3 && 0 <= k < 3 && r[j].pattern <= r[k].pattern
      ensures |r[j].pattern| == |r[k].pattern|
    {
      assert r[j].pattern[11] == r[k].pattern[11];
    }
  }

  /** Replacing PREFIX everywhere, then CELLAR, then LIBRARY. */
  function OneByOne(content: seq<byte>, prefix: seq<byte>): seq<byte> {
    var r := TextRules(prefix);
    Substitute(Substitute(Substitute(content, r[..1]), r[1..2]), r[2..])
  }

  /** One pass equals replacing one placeholder after the other if and only if no PREFIX starts
      inside a CELLAR or LIBRARY that the scan of the file replaces, and no CELLAR inside a LIBRARY
      that the scan replaces once the PREFIXes are gone. */
  lemma OnePassIsOneByOne(content: seq<byte>, prefix: seq<byte>)
    requires PathPrefix(prefix)
    ensures var r := TextRules(prefix);
            && ValidRules(r[..1] + r[1..]) && ValidRules(r[1..2] + r[2..])
            && (Substitute(content, r) == OneByOne(content, prefix) <==>
                  Untorn(content, r[..1], r[1..]) && Untorn(Substitute(content, r[..1]), r[1..2], r[2..]))
  {
    hide Untorn, Substitute, Uniform;
    var r := TextRules(prefix);
    TextRulesUniform(prefix);
    assert r == r[..1] + (r[1..2] + r[2..]) && r[1..] == r[1..2] + r[2..];
    InTurnSplits(content, r[..1], r[1..2], r[2..], AT, SLASH);
  }

  /** In particular when no earlier listed placeholder starts inside a later listed one; two that
      share a byte the other way round, with the earlier listed one first, do no harm. */
  lemma EarlierFirstAgrees(content: seq<byte>, prefix: seq<byte>)
    requires PathPrefix(prefix) && EarlierFirst(content, TextRules(prefix))
    ensures Substitute(content, TextRules(prefix)) == OneByOne(content, prefix)
  {
    hide EarlierFirst, Untorn, Substitute, Uniform;
    var r := TextRules(prefix);
    TextRulesUniform(prefix);
    assert r == r[..2] + r[2..] && r[..2] == r[..1] + r[1..2];
    EarlierFirstPart(content, r);
    UniformParts(r[..2], r[2..], AT, SLASH);
    EarlierFirstUntorn(content, r[..2], r[2..]);
    EarlierFirstUntorn(content, r[..1], r[1..2]);
    SubstituteSplits(content, r[..2], r[2..], AT, SLASH);
    SubstituteSplits(content, r[..1], r[1..2], AT, SLASH);
  }

  lemma EarlierFirstPart(content: seq<byte>, rules: seq<Rule<byte>>)
    requires |rules| == 3 && EarlierFirst(content, rules)
    ensures EarlierFirst(content, rules[..2])
  {
    assert forall k | 0 <= k < 2 :: rules[..2][k] == rules[k];
  }

  /** A CELLAR whose fence a PREFIX shares: `@@HOMEBREW_CELLAR@@HOMEBREW_PREFIX@@`. */
  const TORN: seq<byte> := Ascii("@@HOMEBREW_CELLAR") + PREFIX_PLACEHOLDER

  lemma TornShape()
    ensures CELLAR_PLACEHOLDER <= TORN && !(PREFIX_PLACEHOLDER <= TORN)
    ensures TORN[..17] == CELLAR_PLACEHOLDER[..17] && TORN[17..] == PREFIX_PLACEHOLDER
    ensures TORN[0] == AT && forall i | 0 <= i < 17 :: !OccursAt(TORN, i, PREFIX_PLACEHOLDER)
  {
    assert TORN[17] == TORN[18] == AT;
    assert TORN[11] == 0x43 && PREFIX_PLACEHOLDER[11] == 0x50;
    forall i | 0 <= i < 17
      ensures !OccursAt(TORN, i, PREFIX_PLACEHOLDER)
    {
      if i == 0 {
        assert TORN[0..] == TORN;
      } else {
        assert TORN[i..][0] == TORN[i] && TORN[i..][1] == TORN[i + 1];
        assert TORN[i] != AT || TORN[i + 1] != AT;
      }
    }
  }

  lemma NoneAcross(head: seq<byte>, tail: seq<byte>, q: seq<byte>)
    requires |head| < |q| && q[0] == AT == q[|q| - 1] && AT !in tail
    ensures !Occurs(head + tail, q)
  {
    var s := head + tail;
    forall i: nat
      ensures !OccursAt(s, i, q)
    {
      if i + |q| <= |s| {
        assert s[i..][|q| - 1] == s[i + |q| - 1] == tail[i + |q| - 1 - |head|];
      }
    }
  }

  lemma TornOnePass(prefix: seq<byte>)
    ensures Substitute(TORN, TextRules(prefix))
            == prefix + Ascii("/Cellar") + Substitute(TORN[19..], TextRules(prefix))
  {
    hide Substitute;
    TornShape();
    PlaceholdersDiffer();
    SubstituteHead(TORN, TextRules(prefix), 1);
  }

  lemma TornOneByOne(prefix: seq<byte>)
    requires PathPrefix(prefix)
    ensures OneByOne(TORN, prefix) == TORN[..17] + prefix
  {
    hide Substitute, Ascii;
    var r := TextRules(prefix);
    TornShape();
    PlaceholdersDiffer();
    PlaceholderFences();
    assert Silent(TORN, r[..1], 17);
    SubstituteAt(TORN, r[..1], 17, 0);
    SubstituteNil(TORN[36..], r[..1]);
    var once := TORN[..17] + prefix;
    assert Substitute(TORN, r[..1]) == once;
    NoneAcross(TORN[..17], prefix, CELLAR_PLACEHOLDER);
    NoneAcross(TORN[..17], prefix, LIBRARY_PLACEHOLDER);
    SubstituteNothing(once, r[1..2]);
    SubstituteNothing(once, r[2..]);
  }

  /** On such a file the two ways differ, for every prefix: one pass replaces the CELLAR and leaves
      the rest of the PREFIX, one by one replaces the PREFIX and leaves the rest of the CELLAR. */
  lemma TornPlaceholder(prefix: seq<byte>)
    requires PathPrefix(prefix)
    ensures Substitute(TORN, TextRules(prefix)) != OneByOne(TORN, prefix)
  {
    hide Substitute, OneByOne;
    TornShape();
    TornOnePass(prefix);
    TornOneByOne(prefix);
    assert Substitute(TORN, TextRules(prefix))[0] == prefix[0];
    assert OneByOne(TORN, prefix)[0] == TORN[0];
  }
}
