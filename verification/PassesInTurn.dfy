/**
 Three groups of rules, substituted in one pass or one group after the other: exactly when the two
 ways agree.
 */
module PassesInTurn {
  import opened Substitution
  import opened Wrappers

  function InTurn<T(==)>(s: seq<T>, a: seq<Rule<T>>, b: seq<Rule<T>>, c: seq<Rule<T>>): seq<T>
    requires ValidRules(a) && ValidRules(b) && ValidRules(c)
  {
    Substitute(Substitute(Substitute(s, a), b), c)
  }

  /** Three groups that may be put together. */
  ghost predicate Groups<T>(a: seq<Rule<T>>, b: seq<Rule<T>>, c: seq<Rule<T>>, mark: T, bar: T) {
    && ValidRules(a) && ValidRules(b) && ValidRules(c) && ValidRules(b + c) && ValidRules(a + (b + c))
    && Uniform(a, mark, bar) && Uniform(b, mark, bar) && Uniform(c, mark, bar)
    && Uniform(b + c, mark, bar) && Uniform(a + (b + c), mark, bar)
  }

  lemma AreGroups<T>(a: seq<Rule<T>>, b: seq<Rule<T>>, c: seq<Rule<T>>, mark: T, bar: T)
    requires Uniform(a + (b + c), mark, bar)
    ensures Groups(a, b, c, mark, bar)
  {
    hide *;
    UniformParts(a, b + c, mark, bar);
    UniformParts(b, c, mark, bar);
    UniformValid(a, mark, bar);
    UniformValid(b, mark, bar);
    UniformValid(c, mark, bar);
    UniformValid(b + c, mark, bar);
    UniformValid(a + (b + c), mark, bar);
    PutTogether(a, b, c, mark, bar);
  }

  lemma PutTogether<T>(a: seq<Rule<T>>, b: seq<Rule<T>>, c: seq<Rule<T>>, mark: T, bar: T)
    requires ValidRules(a) && ValidRules(b) && ValidRules(c) && ValidRules(b + c) && ValidRules(a + (b + c))
    requires Uniform(a, mark, bar) && Uniform(b, mark, bar) && Uniform(c, mark, bar)
    requires Uniform(b + c, mark, bar) && Uniform(a + (b + c), mark, bar)
    ensures Groups(a, b, c, mark, bar)
  {
    hide Uniform, ValidRules;
  }

  // ---------------------------------------------------------------- one step of the scan

  /** A pass brings about no match at the head. */
  lemma NoneAfter<T>(s: seq<T>, first: seq<Rule<T>>, rest: seq<Rule<T>>, mark: T, bar: T)
    requires ValidRules(first) && Uniform(first, mark, bar) && Uniform(rest, mark, bar) && Applies(s, rest, None)
    ensures Applies(Substitute(s, first), rest, None)
  {
    UniformInert(first, rest, mark, bar);
    FirstPassAddsNone(s, first, mark, bar, rest);
  }

  /** Nothing matches: all ways copy one element. */
  lemma InTurnCopies<T>(s: seq<T>, a: seq<Rule<T>>, b: seq<Rule<T>>, c: seq<Rule<T>>, mark: T, bar: T)
    requires Groups(a, b, c, mark, bar) && s != [] && Applies(s, a + (b + c), None)
    ensures InTurn(s, a, b, c) == [s[0]] + InTurn(s[1..], a, b, c)
  {
    hide Applies, Substitute, Uniform, ValidRules;
    AppliesNone(s, a, b + c);
    AppliesNone(s, b, c);
    UniformInert(a, b, mark, bar);
    BothCopy(s, a, b, mark, bar);
    NoneAfter(s, a, c, mark, bar);
    NoneAfter(Substitute(s, a), b, c, mark, bar);
    var two := Substitute(Substitute(s, a), b);
    CopyFirst(two, c);
    HeadTail([s[0]], Substitute(Substitute(s[1..], a), b));
  }

  /** A replacement made by an earlier group passes through the later ones. */
  lemma InTurnNow<T>(s: seq<T>, a: seq<Rule<T>>, b: seq<Rule<T>>, c: seq<Rule<T>>, mark: T, bar: T, k: nat)
    requires Groups(a, b, c, mark, bar) && s != [] && k < |a| && Applies(s, a, Some(k))
    ensures |a[k].pattern| <= |s|
    ensures InTurn(s, a, b, c) == a[k].replacement + InTurn(s[|a[k].pattern|..], a, b, c)
  {
    hide Applies, Substitute, Uniform, ValidRules;
    UniformMatch(s, a, mark, bar, k);
    var t := s[|a[k].pattern|..];
    BothReplaceNow(s, a, b, mark, bar, k);
    Through(a[k].replacement, Substitute(Substitute(t, a), b), a, c, mark, bar, k);
  }

  lemma Through<T>(rep: seq<T>, s: seq<T>, a: seq<Rule<T>>, c: seq<Rule<T>>, mark: T, bar: T, k: nat)
    requires ValidRules(c) && Uniform(a, mark, bar) && Uniform(c, mark, bar) && k < |a| && rep == a[k].replacement
    ensures Substitute(rep + s, c) == rep + Substitute(s, c)
  {
    hide Substitute;
    assert Inert(a[k].replacement, mark, bar);
    SubstituteAfterInert(rep, s, c, mark, bar);
  }

  /** A match of the second group in which no rule of the first starts. */
  lemma InTurnSecond<T>(s: seq<T>, a: seq<Rule<T>>, b: seq<Rule<T>>, c: seq<Rule<T>>, mark: T, bar: T, j: nat)
    requires Groups(a, b, c, mark, bar) && s != [] && j < |b| && Applies(s, b, Some(j))
    requires Silent(s, a, |b[j].pattern|)
    ensures |b[j].pattern| <= |s|
    ensures InTurn(s, a, b, c) == b[j].replacement + InTurn(s[|b[j].pattern|..], a, b, c)
  {
    hide Applies, Substitute, Uniform, ValidRules, Silent;
    UniformMatch(s, b, mark, bar, j);
    var t := s[|b[j].pattern|..];
    BothReplaceLater(s, a, b, mark, bar, j);
    Through(b[j].replacement, Substitute(Substitute(t, a), b), b, c, mark, bar, j);
  }

  /** A match of the third group in which no rule of the first starts: it is replaced, unless one
      of the second tears it. */
  lemma InTurnThird<T>(s: seq<T>, a: seq<Rule<T>>, b: seq<Rule<T>>, c: seq<Rule<T>>, mark: T, bar: T, i: nat)
    requires Groups(a, b, c, mark, bar) && s != [] && i < |c| && Applies(s, b, None) && Applies(s, c, Some(i))
    requires Silent(s, a, |c[i].pattern|)
    ensures |c[i].pattern| <= |s|
    ensures InTurn(s, a, b, c) == c[i].replacement + InTurn(s[|c[i].pattern|..], a, b, c)
            || (InTurn(s, a, b, c) != [] && InTurn(s, a, b, c)[0] == mark)
  {
    hide Applies, Substitute, Uniform, ValidRules, Silent;
    var n, one := |c[i].pattern|, Substitute(s, a);
    KeptMatch(s, a, c, mark, bar, i);
    NoneAfter(s, a, b, mark, bar);
    if Silent(one, b, n) {
      BothReplaceLater(one, b, c, mark, bar, i);
    } else {
      TornDiffers(one, b, c, mark, bar, i);
    }
  }

  /** Where a rule of the first group tears the match, the mark stays. */
  lemma InTurnTorn<T>(s: seq<T>, a: seq<Rule<T>>, b: seq<Rule<T>>, c: seq<Rule<T>>, mark: T, bar: T, j: nat)
    requires Groups(a, b, c, mark, bar) && s != [] && j < |b + c| && Applies(s, a, None)
    requires Applies(s, b + c, Some(j)) && !Silent(s, a, |(b + c)[j].pattern|)
    ensures InTurn(s, a, b, c) != [] && InTurn(s, a, b, c)[0] == mark
  {
    hide Applies, Substitute, Uniform, ValidRules, Silent;
    TornOnce(s, a, b + c, mark, bar, j);
    var one := Substitute(s, a);
    NoMatchParts(one, b, c);
    CopiesHead(one, b);
    NoMatchApplies(one, c);
    NoneAfter(one, b, c, mark, bar);
    CopyFirst(Substitute(one, b), c);
  }

  lemma NoMatchParts<T>(s: seq<T>, b: seq<Rule<T>>, c: seq<Rule<T>>)
    requires forall j | 0 <= j < |b + c| :: !((b + c)[j].pattern <= s)
    ensures forall j | 0 <= j < |b| :: !(b[j].pattern <= s)
    ensures forall j | 0 <= j < |c| :: !(c[j].pattern <= s)
  {
    assert forall j | 0 <= j < |b| :: (b + c)[j] == b[j];
    assert forall j | 0 <= j < |c| :: (b + c)[|b| + j] == c[j];
  }

  lemma NoMatchApplies<T>(s: seq<T>, c: seq<Rule<T>>)
    requires forall j | 0 <= j < |c| :: !(c[j].pattern <= s)
    ensures Applies(s, c, None)
  {
  }

  // ---------------------------------------------------------------- a torn scan is never made good

  /** One pass and passes in turn start alike, or differ at once. */
  ghost predicate SameStep<T>(s: seq<T>, t: seq<T>, head: seq<T>, a: seq<Rule<T>>, b: seq<Rule<T>>, c: seq<Rule<T>>)
    requires ValidRules(a) && ValidRules(b) && ValidRules(c) && ValidRules(a + (b + c))
  {
    && Substitute(s, a + (b + c)) == head + Substitute(t, a + (b + c))
    && InTurn(s, a, b, c) == head + InTurn(t, a, b, c)
  }

  ghost predicate Differs<T>(s: seq<T>, a: seq<Rule<T>>, b: seq<Rule<T>>, c: seq<Rule<T>>)
    requires ValidRules(a) && ValidRules(b) && ValidRules(c) && ValidRules(a + (b + c))
  {
    Substitute(s, a + (b + c)) != InTurn(s, a, b, c)
  }

  lemma DiffersBehind<T>(s: seq<T>, t: seq<T>, head: seq<T>, a: seq<Rule<T>>, b: seq<Rule<T>>, c: seq<Rule<T>>)
    requires ValidRules(a) && ValidRules(b) && ValidRules(c) && ValidRules(a + (b + c))
    requires SameStep(s, t, head, a, b, c) && Differs(t, a, b, c)
    ensures Differs(s, a, b, c)
  {
    hide Substitute, InTurn;
    Cancel(head, Substitute(t, a + (b + c)), InTurn(t, a, b, c));
  }

  lemma DiffersAtOnce<T>(s: seq<T>, a: seq<Rule<T>>, b: seq<Rule<T>>, c: seq<Rule<T>>, mark: T, bar: T, k: nat)
    requires Groups(a, b, c, mark, bar) && s != [] && Applies(s, a + (b + c), Some(k)) && k < |a + (b + c)|
    requires InTurn(s, a, b, c) != [] && InTurn(s, a, b, c)[0] == mark
    ensures Differs(s, a, b, c)
  {
    hide Substitute, InTurn, Uniform, Applies, ValidRules;
    UniformMatch(s, a + (b + c), mark, bar, k);
  }

  /** The first step of the scan: both ways emit the same head, or they differ. */
  lemma FirstStep<T>(s: seq<T>, a: seq<Rule<T>>, b: seq<Rule<T>>, c: seq<Rule<T>>, mark: T, bar: T, k: nat)
    requires Groups(a, b, c, mark, bar) && s != [] && k < |a + (b + c)| && Applies(s, a + (b + c), Some(k))
    requires k < |a| || Silent(s, a, |(a + (b + c))[k].pattern|)
    ensures 0 < |(a + (b + c))[k].pattern| <= |s|
    ensures SameStep(s, s[|(a + (b + c))[k].pattern|..], (a + (b + c))[k].replacement, a, b, c) || Differs(s, a, b, c)
  {
    hide Substitute, InTurn, Uniform, Applies, ValidRules, Silent, Differs;
    UniformMatch(s, a + (b + c), mark, bar, k);
    if k < |a| {
      AppliesFirst(s, a, b + c, k);
      InTurnNow(s, a, b, c, mark, bar, k);
    } else {
      var j := k - |a|;
      AppliesRest(s, a, b + c, j);
      if j < |b| {
        AppliesFirst(s, b, c, j);
        InTurnSecond(s, a, b, c, mark, bar, j);
      } else {
        AppliesRest(s, b, c, j - |b|);
        InTurnThird(s, a, b, c, mark, bar, j - |b|);
        if InTurn(s, a, b, c) != [] && InTurn(s, a, b, c)[0] == mark {
          DiffersAtOnce(s, a, b, c, mark, bar, k);
        }
      }
    }
  }

  /** When a rule of the first group tears a match of the scan, no later pass makes up for it. */
  lemma {:induction false} TornDiffersInTurn<T>(s: seq<T>, a: seq<Rule<T>>, b: seq<Rule<T>>, c: seq<Rule<T>>,
                                                mark: T, bar: T)
    requires Groups(a, b, c, mark, bar) && !Untorn(s, a, b + c)
    ensures Differs(s, a, b, c)
    decreases |s|
  {
    hide Substitute, InTurn, Uniform, Applies, ValidRules, Silent, Differs, Untorn, SameStep;
    NothingUntorn(a, b + c);
    var k := Applied(s, a + (b + c));
    if k.None? {
      UntornAtNone(s, a, b + c);
      TornDiffersInTurn(s[1..], a, b, c, mark, bar);
      CopyStep(s, a, b, c, mark, bar);
      DiffersBehind(s, s[1..], [s[0]], a, b, c);
    } else {
      TornOrBehind(s, a, b + c, k.value);
      var rule := (a + (b + c))[k.value];
      if k.value < |a| || Silent(s, a, |rule.pattern|) {
        FirstStep(s, a, b, c, mark, bar, k.value);
        var t := s[|rule.pattern|..];
        TornDiffersInTurn(t, a, b, c, mark, bar);
        if SameStep(s, t, rule.replacement, a, b, c) {
          DiffersBehind(s, t, rule.replacement, a, b, c);
        }
      } else {
        AppliesRest(s, a, b + c, k.value - |a|);
        InTurnTorn(s, a, b, c, mark, bar, k.value - |a|);
        DiffersAtOnce(s, a, b, c, mark, bar, k.value);
      }
    }
  }

  lemma NothingUntorn<T>(a: seq<Rule<T>>, rest: seq<Rule<T>>)
    requires ValidRules(a + rest)
    ensures Untorn([], a, rest)
  {
  }

  lemma TornOrBehind<T>(s: seq<T>, a: seq<Rule<T>>, rest: seq<Rule<T>>, k: nat)
    requires ValidRules(a + rest) && s != [] && k < |a + rest| && Applies(s, a + rest, Some(k)) && !Untorn(s, a, rest)
    ensures var n := |(a + rest)[k].pattern|;
            0 < n <= |s| && (k < |a| || Silent(s, a, n) ==> !Untorn(s[n..], a, rest))
  {
    hide Silent;
  }

  lemma CopyStep<T>(s: seq<T>, a: seq<Rule<T>>, b: seq<Rule<T>>, c: seq<Rule<T>>, mark: T, bar: T)
    requires Groups(a, b, c, mark, bar) && s != [] && Applies(s, a + (b + c), None)
    ensures SameStep(s, s[1..], [s[0]], a, b, c)
  {
    hide Substitute, InTurn, Uniform, Applies, ValidRules;
    InTurnCopies(s, a, b, c, mark, bar);
    CopyFirst(s, a + (b + c));
  }

  /** One pass over three groups of rules equals the three passes in turn if and only if the scan of
      the text meets no match torn by the first group, and the scan of what the first pass leaves
      meets none torn by the second. */
  lemma InTurnSplits<T>(s: seq<T>, a: seq<Rule<T>>, b: seq<Rule<T>>, c: seq<Rule<T>>, mark: T, bar: T)
    requires ValidRules(a) && ValidRules(b) && ValidRules(c) && ValidRules(b + c) && ValidRules(a + (b + c))
    requires Uniform(a + (b + c), mark, bar)
    ensures Substitute(s, a + (b + c)) == InTurn(s, a, b, c)
            <==> Untorn(s, a, b + c) && Untorn(Substitute(s, a), b, c)
  {
    hide Substitute, Uniform, Untorn, ValidRules;
    AreGroups(a, b, c, mark, bar);
    SubstituteSplits(s, a, b + c, mark, bar);
    SubstituteSplits(Substitute(s, a), b, c, mark, bar);
    if !Untorn(s, a, b + c) {
      TornDiffersInTurn(s, a, b, c, mark, bar);
    }
  }
}
