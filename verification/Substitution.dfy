/**
 Leftmost, non-overlapping, simultaneous substitution over sequences, and its theory.

 The three rewriters of the package manager (conda C-strings, Homebrew text files, Homebrew
 RPATH strings) are all proved against `Substitute`. Searching for the first occurrence is
 the `memchr::memmem` crate's job in the program; `Find` states that contract.
 */
module Substitution {
  import opened Wrappers

  datatype Rule<T> = Rule(pattern: seq<T>, replacement: seq<T>)

  /** The pattern starts at index `i` of `s`. */
  predicate OccursAt<T(==)>(s: seq<T>, i: int, pattern: seq<T>) {
    0 <= i <= |s| && pattern <= s[i..]
  }

  ghost predicate Occurs<T>(s: seq<T>, pattern: seq<T>) {
    exists i :: OccursAt(s, i, pattern)
  }

  /** Index of the first occurrence, as `memmem::find` and `Finder::find` return it. */
  function Find<T(==)>(s: seq<T>, pattern: seq<T>): (r: Option<nat>)
    ensures r.None? <==> !Occurs(s, pattern)
    ensures r.Some? ==> OccursAt(s, r.value, pattern) && forall i :: i < r.value ==> !OccursAt(s, i, pattern)
  {
    if pattern <= s then
      assert OccursAt(s, 0, pattern);
      Some(0)
    else if s == [] then
      None
    else
      var r := Find(s[1..], pattern);
      assert forall i :: 1 <= i <= |s| ==> s[1..][i - 1..] == s[i..];
      assert forall i :: 1 <= i ==> (OccursAt(s, i, pattern) <==> OccursAt(s[1..], i - 1, pattern));
      assert r.Some? ==> OccursAt(s, r.value + 1, pattern);
      if r.Some? then Some(r.value + 1) else None
  }

  /** An occurrence cuts the text in three. */
  lemma OccurrenceCuts<T>(s: seq<T>, i: nat, p: seq<T>)
    requires OccursAt(s, i, p)
    ensures i + |p| <= |s| && s == s[..i] + p + s[i + |p|..]
  {
    assert s == s[..i] + s[i..] && s[i..] == p + s[i..][|p|..];
    assert s[i..][|p|..] == s[i + |p|..];
  }

  lemma PartOccurs<T>(a: seq<T>, p: seq<T>, b: seq<T>)
    ensures OccursAt(a + p + b, |a|, p)
  {
    assert (a + p + b)[|a|..] == p + b;
  }

  /** So something is found if and only if it stands between two parts of the text. */
  lemma FindIff<T>(s: seq<T>, p: seq<T>)
    ensures Find(s, p).Some? <==> exists a, b :: s == a + p + b
  {
    hide *;
    if Find(s, p).Some? {
      FoundBetween(s, p);
    }
    if a, b :| s == a + p + b {
      PartFound(a, p, b);
    }
  }

  lemma FoundBetween<T>(s: seq<T>, p: seq<T>)
    requires Find(s, p).Some?
    ensures exists a, b :: s == a + p + b
  {
    hide OccursAt;
    OccurrenceCuts(s, Find(s, p).value, p);
  }

  lemma PartFound<T>(a: seq<T>, p: seq<T>, b: seq<T>)
    ensures Find(a + p + b, p).Some?
  {
    hide OccursAt;
    PartOccurs(a, p, b);
  }

  // ---------------------------------------------------------------- substitution

  ghost predicate ValidRules<T>(rules: seq<Rule<T>>) {
    forall k | 0 <= k < |rules| :: rules[k].pattern != []
  }

  /** No pattern starts at `i`. */
  ghost predicate NoneStarts<T>(s: seq<T>, i: nat, rules: seq<Rule<T>>) {
    forall k | 0 <= k < |rules| :: !OccursAt(s, i, rules[k].pattern)
  }

  /** No pattern starts in the first `n` positions. */
  ghost predicate Silent<T>(s: seq<T>, rules: seq<Rule<T>>, n: nat) {
    forall i | 0 <= i < n :: NoneStarts(s, i, rules)
  }

  /** Index of the first rule, from `k` on, whose pattern is a prefix of `s`. */
  function FirstRule<T(==)>(s: seq<T>, rules: seq<Rule<T>>, k: nat): (r: Option<nat>)
    requires k <= |rules|
    ensures r.None? ==> forall j | k <= j < |rules| :: !(rules[j].pattern <= s)
    ensures r.Some? ==> k <= r.value < |rules| && rules[r.value].pattern <= s
                        && forall j | k <= j < r.value :: !(rules[j].pattern <= s)
    decreases |rules| - k
  {
    if k == |rules| then None
    else if rules[k].pattern <= s then Some(k)
    else FirstRule(s, rules, k + 1)
  }

  /** Scan from the left; wherever a pattern starts, emit the first such rule's replacement and
      jump over the pattern, otherwise copy one element. */
  function Substitute<T(==)>(s: seq<T>, rules: seq<Rule<T>>): seq<T>
    requires ValidRules(rules)
    decreases |s|
  {
    if s == [] then []
    else
      match FirstRule(s, rules, 0)
      case Some(k) => rules[k].replacement + Substitute(s[|rules[k].pattern|..], rules)
      case None => [s[0]] + Substitute(s[1..], rules)
  }

  /** No rule starts in the first `n` positions, so they are copied. */
  lemma {:induction false} SubstituteCopies<T>(s: seq<T>, rules: seq<Rule<T>>, n: nat)
    requires ValidRules(rules) && n <= |s| && Silent(s, rules, n)
    ensures Substitute(s, rules) == s[..n] + Substitute(s[n..], rules)
    decreases n
  {
    hide Substitute, NoneStarts;
    if n == 0 {
      assert s[0..] == s;
    } else {
      var t := s[1..];
      assert NoneStarts(s, 0, rules);
      CopyOne(s, rules);
      SilentTail(s, rules, n);
      SubstituteCopies(t, rules, n - 1);
      assert t[n - 1..] == s[n..];
      assert s[..n] == [s[0]] + t[..n - 1];
    }
  }

  lemma CopyOne<T>(s: seq<T>, rules: seq<Rule<T>>)
    requires ValidRules(rules) && s != [] && NoneStarts(s, 0, rules)
    ensures Substitute(s, rules) == [s[0]] + Substitute(s[1..], rules)
  {
    assert s[0..] == s;
    assert forall k | 0 <= k < |rules| :: !OccursAt(s, 0, rules[k].pattern);
  }

  lemma OccursAtSuffix<T>(s: seq<T>, m: nat, i: nat, pattern: seq<T>)
    requires m <= |s|
    ensures OccursAt(s[m..], i, pattern) <==> OccursAt(s, m + i, pattern)
  {
    if m + i <= |s| {
      assert s[m..][i..] == s[m + i..];
    }
  }

  lemma SilentTail<T>(s: seq<T>, rules: seq<Rule<T>>, n: nat)
    requires 0 < n <= |s| && Silent(s, rules, n)
    ensures Silent(s[1..], rules, n - 1)
  {
    forall i | 0 <= i < n - 1
      ensures NoneStarts(s[1..], i, rules)
    {
      assert NoneStarts(s, i + 1, rules);
      forall k | 0 <= k < |rules|
        ensures !OccursAt(s[1..], i, rules[k].pattern)
      {
        OccursAtSuffix(s, 1, i, rules[k].pattern);
      }
    }
  }

  /** A string without any pattern is a fixed point. */
  lemma SubstituteNothing<T>(s: seq<T>, rules: seq<Rule<T>>)
    requires ValidRules(rules)
    requires forall k | 0 <= k < |rules| :: !Occurs(s, rules[k].pattern)
    ensures Substitute(s, rules) == s
  {
    assert Silent(s, rules, |s|) by {
      forall i | 0 <= i < |s|
        ensures NoneStarts(s, i, rules)
      {
        assert forall k | 0 <= k < |rules| :: !Occurs(s, rules[k].pattern);
      }
    }
    SubstituteCopies(s, rules, |s|);
    assert s[|s|..] == [];
  }

  /** Rule `k` is the first that matches at the head. */
  lemma SubstituteHead<T>(s: seq<T>, rules: seq<Rule<T>>, k: nat)
    requires ValidRules(rules) && k < |rules| && rules[k].pattern <= s
    requires forall j | 0 <= j < k :: !(rules[j].pattern <= s)
    ensures Substitute(s, rules) == rules[k].replacement + Substitute(s[|rules[k].pattern|..], rules)
  {
    var r := FirstRule(s, rules, 0);
    assert r == Some(k);
  }

  /** Rule `k` is the first that matches at `n`, and none matches before it. */
  lemma SubstituteAt<T>(s: seq<T>, rules: seq<Rule<T>>, n: nat, k: nat)
    requires ValidRules(rules) && Silent(s, rules, n)
    requires k < |rules| && OccursAt(s, n, rules[k].pattern)
    requires forall j | 0 <= j < k :: !OccursAt(s, n, rules[j].pattern)
    ensures n + |rules[k].pattern| <= |s|
    ensures Substitute(s, rules) ==
            s[..n] + rules[k].replacement + Substitute(s[n + |rules[k].pattern|..], rules)
  {
    hide Substitute, Silent, ValidRules;
    assert n <= |s|;
    SubstituteCopies(s, rules, n);
    var t, p := s[n..], rules[k].pattern;
    forall j | 0 <= j < k
      ensures !(rules[j].pattern <= t)
    {
      assert !OccursAt(s, n, rules[j].pattern);
    }
    SubstituteHead(t, rules, k);
    hide OccursAt;
    assert t[|p|..] == s[n + |p|..];
    Reassociate(s[..n], rules[k].replacement, Substitute(t[|p|..], rules));
  }

  /** Rules that keep the length of what they replace keep the length of the whole. */
  lemma {:induction false} SubstituteSameLength<T>(s: seq<T>, rules: seq<Rule<T>>)
    requires ValidRules(rules)
    requires forall k | 0 <= k < |rules| :: |rules[k].replacement| == |rules[k].pattern|
    ensures |Substitute(s, rules)| == |s|
    decreases |s|
  {
    if s != [] {
      match FirstRule(s, rules, 0)
      case Some(k) => SubstituteSameLength(s[|rules[k].pattern|..], rules);
      case None => SubstituteSameLength(s[1..], rules);
    }
  }

  /** Rules that do not lengthen what they replace do not lengthen the whole. */
  lemma {:induction false} SubstituteNotLonger<T>(s: seq<T>, rules: seq<Rule<T>>)
    requires ValidRules(rules)
    requires forall k | 0 <= k < |rules| :: |rules[k].replacement| <= |rules[k].pattern|
    ensures |Substitute(s, rules)| <= |s|
    decreases |s|
  {
    if s != [] {
      match FirstRule(s, rules, 0)
      case Some(k) => SubstituteNotLonger(s[|rules[k].pattern|..], rules);
      case None => SubstituteNotLonger(s[1..], rules);
    }
  }

  /** An element that is in neither the text nor a replacement does not appear. */
  lemma {:induction false} SubstituteElements<T>(s: seq<T>, rules: seq<Rule<T>>, x: T)
    requires ValidRules(rules)
    requires x !in s && forall k | 0 <= k < |rules| :: x !in rules[k].replacement
    ensures x !in Substitute(s, rules)
    decreases |s|
  {
    if s != [] {
      match FirstRule(s, rules, 0)
      case Some(k) => SubstituteElements(s[|rules[k].pattern|..], rules, x);
      case None => SubstituteElements(s[1..], rules, x);
    }
  }

  // ---------------------------------------------------------------- no placeholder is left

  /** A pattern fenced by `mark` that never contains `bar`, like `@@NAME@@` with `@` and `/`. */
  predicate Fenced<T(==)>(pattern: seq<T>, mark: T, bar: T) {
    |pattern| > 0 && pattern[0] == mark && pattern[|pattern| - 1] == mark && bar !in pattern
  }

  /** A replacement that cannot take part in a fenced pattern. */
  predicate Inert<T(==)>(replacement: seq<T>, mark: T, bar: T) {
    mark !in replacement && bar in replacement
  }

  ghost predicate InertRules<T>(rules: seq<Rule<T>>, mark: T, bar: T) {
    ValidRules(rules) && forall k | 0 <= k < |rules| :: Inert(rules[k].replacement, mark, bar)
  }

  ghost predicate FencedRules<T>(rules: seq<Rule<T>>, mark: T, bar: T) {
    forall k | 0 <= k < |rules| :: Fenced(rules[k].pattern, mark, bar)
  }

  /** A fenced pattern's remainder cannot start inside an inert replacement. */
  lemma InertBlocks<T>(rep: seq<T>, rest: seq<T>, mark: T, bar: T, t: seq<T>)
    requires Inert(rep, mark, bar)
    requires bar !in t && t != [] && t[|t| - 1] == mark
    ensures !(t <= rep + rest)
  {
    if |t| <= |rep| {
      assert (rep + rest)[|t| - 1] == rep[|t| - 1] != mark;
    } else {
      var k :| 0 <= k < |rep| && rep[k] == bar;
      assert (rep + rest)[k] == bar;
      assert t[k] != bar;
    }
  }

  /** The output starts with a fenced pattern's remainder only where the input already did. */
  lemma {:induction false} SubstitutePrefix<T>(s: seq<T>, rules: seq<Rule<T>>, mark: T, bar: T, t: seq<T>)
    requires InertRules(rules, mark, bar)
    requires bar !in t && (t != [] ==> t[|t| - 1] == mark)
    requires t <= Substitute(s, rules)
    ensures t <= s
    decreases |s|
  {
    if t != [] {
      match FirstRule(s, rules, 0)
      case Some(k) =>
        InertBlocks(rules[k].replacement, Substitute(s[|rules[k].pattern|..], rules), mark, bar, t);
      case None =>
        var rest := Substitute(s[1..], rules);
        assert Substitute(s, rules)[1..] == rest;
        assert t[1..] <= rest;
        SubstitutePrefix(s[1..], rules, mark, bar, t[1..]);
        assert t == [s[0]] + t[1..];
    }
  }

  /** `q` cannot survive: it is a rule's pattern, or was absent to begin with. */
  ghost predicate Doomed<T>(s: seq<T>, rules: seq<Rule<T>>, q: seq<T>) {
    (exists k :: 0 <= k < |rules| && rules[k].pattern == q) || !Occurs(s, q)
  }

  lemma DoomedSuffix<T>(s: seq<T>, n: nat, rules: seq<Rule<T>>, q: seq<T>)
    requires n <= |s| && Doomed(s, rules, q)
    ensures Doomed(s[n..], rules, q)
  {
    if !Occurs(s, q) {
      AbsentFromSuffix(s, n, q);
    }
  }

  lemma AbsentFromSuffix<T>(s: seq<T>, n: nat, q: seq<T>)
    requires n <= |s| && !Occurs(s, q)
    ensures !Occurs(s[n..], q)
  {
    forall i: nat
      ensures !OccursAt(s[n..], i, q)
    {
      OccursAtSuffix(s, n, i, q);
    }
  }

  /** What stands at position `i` of an output that starts with a replacement. */
  lemma BehindReplacement<T>(rep: seq<T>, rest: seq<T>, mark: T, bar: T, q: seq<T>, i: nat)
    requires Inert(rep, mark, bar) && Fenced(q, mark, bar) && OccursAt(rep + rest, i, q)
    ensures i >= |rep| && OccursAt(rest, i - |rep|, q)
  {
    var out := rep + rest;
    assert out[i..][0] == out[i] == mark;
    assert forall k | 0 <= k < |rep| :: out[k] == rep[k];
    OccursAtSuffix(out, |rep|, i - |rep|, q);
    assert out[|rep|..] == rest;
  }

  lemma BehindCopy<T>(x: T, rest: seq<T>, q: seq<T>, i: nat)
    requires i > 0 && OccursAt([x] + rest, i, q)
    ensures OccursAt(rest, i - 1, q)
  {
    OccursAtSuffix([x] + rest, 1, i - 1, q);
    assert ([x] + rest)[1..] == rest;
  }

  lemma AtHead<T>(s: seq<T>, q: seq<T>)
    ensures OccursAt(s, 0, q) <==> q <= s
  {
    assert s[0..] == s;
  }

  /** A pattern at the head of the output was at the head of the input, so a rule applied there. */
  lemma HeadIsDoomed<T>(s: seq<T>, rules: seq<Rule<T>>, mark: T, bar: T, q: seq<T>)
    requires InertRules(rules, mark, bar) && Fenced(q, mark, bar) && Doomed(s, rules, q)
    requires FirstRule(s, rules, 0).None?
    ensures !(q <= Substitute(s, rules))
  {
    hide Substitute;
    AtHead(s, q);
    if q <= Substitute(s, rules) {
      SubstitutePrefix(s, rules, mark, bar, q);
    }
  }

  /** Every fenced pattern that is a rule's pattern, or was absent from the input, is absent
      from the output. */
  lemma {:induction false} SubstituteLeavesNone<T>(s: seq<T>, rules: seq<Rule<T>>, mark: T, bar: T, q: seq<T>, i: nat)
    requires InertRules(rules, mark, bar) && Fenced(q, mark, bar) && Doomed(s, rules, q)
    ensures !OccursAt(Substitute(s, rules), i, q)
    decreases |s|
  {
    hide OccursAt, Doomed, Inert, FirstRule;
    var out := Substitute(s, rules);
    if s == [] {
      NothingOccurs(i, q, mark, bar);
    } else if OccursAt(out, i, q) {
      match FirstRule(s, rules, 0) {
        case Some(k) =>
          var rep, n := rules[k].replacement, |rules[k].pattern|;
          BehindReplacement(rep, Substitute(s[n..], rules), mark, bar, q, i);
          DoomedSuffix(s, n, rules, q);
          SubstituteLeavesNone(s[n..], rules, mark, bar, q, i - |rep|);
        case None =>
          if i == 0 {
            AtHead(out, q);
            HeadIsDoomed(s, rules, mark, bar, q);
          } else {
            BehindCopy(s[0], Substitute(s[1..], rules), q, i);
            DoomedSuffix(s, 1, rules, q);
            SubstituteLeavesNone(s[1..], rules, mark, bar, q, i - 1);
          }
      }
    }
  }

  lemma NothingOccurs<T>(i: nat, q: seq<T>, mark: T, bar: T)
    requires Fenced(q, mark, bar)
    ensures !OccursAt([], i, q)
  {
  }

  lemma SubstituteClears<T>(s: seq<T>, rules: seq<Rule<T>>, mark: T, bar: T, q: seq<T>)
    requires InertRules(rules, mark, bar) && Fenced(q, mark, bar) && Doomed(s, rules, q)
    ensures !Occurs(Substitute(s, rules), q)
  {
    forall i: nat
      ensures !OccursAt(Substitute(s, rules), i, q)
    {
      SubstituteLeavesNone(s, rules, mark, bar, q, i);
    }
  }

  // ---------------------------------------------------------------- one pass or one by one

  /** Wherever the one-pass scan applies a rule of `rest`, no rule of `first` starts inside the
      match. */
  ghost predicate Untorn<T>(s: seq<T>, first: seq<Rule<T>>, rest: seq<Rule<T>>)
    requires ValidRules(first + rest)
    decreases |s|
  {
    s == [] ||
    match FirstRule(s, first + rest, 0)
    case Some(k) =>
      var n := |(first + rest)[k].pattern|;
      (k < |first| || Silent(s, first, n)) && Untorn(s[n..], first, rest)
    case None => Untorn(s[1..], first, rest)
  }

  /** No occurrence of a rule's pattern starts inside one of a rule listed later. */
  ghost predicate EarlierFirst<T>(s: seq<T>, rules: seq<Rule<T>>) {
    forall i, j, a, b | 0 <= i < j && 0 <= a < b < |rules|
        && OccursAt(s, i, rules[b].pattern) && OccursAt(s, j, rules[a].pattern) :: i + |rules[b].pattern| <= j
  }

  lemma EarlierFirstSuffix<T>(s: seq<T>, rules: seq<Rule<T>>, n: nat)
    requires n <= |s| && EarlierFirst(s, rules)
    ensures EarlierFirst(s[n..], rules)
  {
    forall i, j, a, b | 0 <= i < j && 0 <= a < b < |rules|
        && OccursAt(s[n..], i, rules[b].pattern) && OccursAt(s[n..], j, rules[a].pattern)
      ensures i + |rules[b].pattern| <= j
    {
      OccursAtSuffix(s, n, i, rules[b].pattern);
      OccursAtSuffix(s, n, j, rules[a].pattern);
    }
  }

  lemma SilentInside<T>(s: seq<T>, first: seq<Rule<T>>, rest: seq<Rule<T>>, k: nat)
    requires EarlierFirst(s, first + rest) && FirstRule(s, first + rest, 0) == Some(|first| + k) && k < |rest|
    ensures Silent(s, first, |rest[k].pattern|)
  {
    var rules := first + rest;
    assert rules[|first| + k] == rest[k] && s[0..] == s;
    forall i | 0 <= i < |rest[k].pattern|
      ensures NoneStarts(s, i, first)
    {
      forall a | 0 <= a < |first|
        ensures !OccursAt(s, i, first[a].pattern)
      {
        assert rules[a] == first[a];
        assert OccursAt(s, 0, rules[|first| + k].pattern);
      }
    }
  }

  lemma {:induction false} EarlierFirstUntorn<T>(s: seq<T>, first: seq<Rule<T>>, rest: seq<Rule<T>>)
    requires ValidRules(first + rest) && EarlierFirst(s, first + rest)
    ensures Untorn(s, first, rest)
    decreases |s|
  {
    hide EarlierFirst, Silent;
    if s != [] {
      match FirstRule(s, first + rest, 0) {
        case Some(k) =>
          var n := |(first + rest)[k].pattern|;
          EarlierFirstSuffix(s, first + rest, n);
          EarlierFirstUntorn(s[n..], first, rest);
          if k >= |first| {
            SilentInside(s, first, rest, k - |first|);
          }
        case None =>
          EarlierFirstSuffix(s, first + rest, 1);
          EarlierFirstUntorn(s[1..], first, rest);
      }
    }
  }

  /** An inert prefix passes through unchanged. */
  lemma SubstituteAfterInert<T>(rep: seq<T>, s: seq<T>, rules: seq<Rule<T>>, mark: T, bar: T)
    requires ValidRules(rules) && FencedRules(rules, mark, bar) && mark !in rep
    ensures Substitute(rep + s, rules) == rep + Substitute(s, rules)
  {
    assert Silent(rep + s, rules, |rep|) by {
      forall i | 0 <= i < |rep|
        ensures NoneStarts(rep + s, i, rules)
      {
        assert (rep + s)[i..][0] == rep[i];
      }
    }
    SubstituteCopies(rep + s, rules, |rep|);
    assert (rep + s)[..|rep|] == rep && (rep + s)[|rep|..] == s;
  }

  /** The scan applies rule `k` at the head, or none. */
  ghost predicate Applies<T>(s: seq<T>, rules: seq<Rule<T>>, k: Option<nat>) {
    FirstRule(s, rules, 0) == k && (k.Some? ==> k.value < |rules|)
  }

  lemma AppliesFirst<T>(s: seq<T>, first: seq<Rule<T>>, rest: seq<Rule<T>>, k: nat)
    requires k < |first| && Applies(s, first + rest, Some(k))
    ensures Applies(s, first, Some(k)) && (first + rest)[k] == first[k]
  {
    var rules := first + rest;
    assert forall j | 0 <= j < |first| :: rules[j] == first[j];
  }

  lemma AppliesRest<T>(s: seq<T>, first: seq<Rule<T>>, rest: seq<Rule<T>>, j: nat)
    requires j < |rest| && Applies(s, first + rest, Some(|first| + j))
    ensures Applies(s, first, None) && Applies(s, rest, Some(j)) && (first + rest)[|first| + j] == rest[j]
  {
    var rules := first + rest;
    assert forall i | 0 <= i < |first| :: rules[i] == first[i];
    assert forall i | 0 <= i < |rest| :: rules[|first| + i] == rest[i];
  }

  lemma AppliesNone<T>(s: seq<T>, first: seq<Rule<T>>, rest: seq<Rule<T>>)
    requires Applies(s, first + rest, None)
    ensures Applies(s, first, None) && Applies(s, rest, None)
  {
    var rules := first + rest;
    assert forall i | 0 <= i < |first| :: rules[i] == first[i];
    assert forall i | 0 <= i < |rest| :: rules[|first| + i] == rest[i];
  }

  /** After the pass of `first`, a rule of `rest` matches at the head only if it did before. */
  lemma FirstPassAddsNone<T>(s: seq<T>, first: seq<Rule<T>>, mark: T, bar: T, rest: seq<Rule<T>>)
    requires InertRules(first, mark, bar) && FencedRules(rest, mark, bar)
    ensures forall j | 0 <= j < |rest| :: rest[j].pattern <= Substitute(s, first) ==> rest[j].pattern <= s
  {
    forall j | 0 <= j < |rest| && rest[j].pattern <= Substitute(s, first)
      ensures rest[j].pattern <= s
    {
      SubstitutePrefix(s, first, mark, bar, rest[j].pattern);
    }
  }

  /** Fenced patterns, none a proper prefix of another, and inert replacements. */
  ghost predicate Uniform<T>(rules: seq<Rule<T>>, mark: T, bar: T) {
    && InertRules(rules, mark, bar) && FencedRules(rules, mark, bar)
    && forall j, k | 0 <= j < |rules| && 0 <= k < |rules| && rules[j].pattern <= rules[k].pattern ::
         |rules[j].pattern| == |rules[k].pattern|
  }

  lemma UniformParts<T>(first: seq<Rule<T>>, rest: seq<Rule<T>>, mark: T, bar: T)
    requires Uniform(first + rest, mark, bar)
    ensures Uniform(first, mark, bar) && Uniform(rest, mark, bar)
  {
    var rules := first + rest;
    assert forall j | 0 <= j < |first| :: rules[j] == first[j];
    assert forall j | 0 <= j < |rest| :: rules[|first| + j] == rest[j];
  }

  /** Where the scan applies rule `k` of `first`, both ways emit its replacement. */
  lemma BothReplaceNow<T>(s: seq<T>, first: seq<Rule<T>>, rest: seq<Rule<T>>, mark: T, bar: T, k: nat)
    requires Uniform(first, mark, bar) && Uniform(rest, mark, bar)
    requires s != [] && k < |first| && Applies(s, first, Some(k))
    ensures var t := s[|first[k].pattern|..];
            Substitute(Substitute(s, first), rest) == first[k].replacement + Substitute(Substitute(t, first), rest)
  {
    SubstituteAfterInert(first[k].replacement, Substitute(s[|first[k].pattern|..], first), rest, mark, bar);
  }

  /** A match of `rest` in which no rule of `first` starts is kept by the pass of `first`. */
  lemma KeptMatch<T>(s: seq<T>, first: seq<Rule<T>>, rest: seq<Rule<T>>, mark: T, bar: T, k: nat)
    requires Uniform(first, mark, bar) && Uniform(rest, mark, bar)
    requires s != [] && k < |rest| && Applies(s, rest, Some(k)) && Silent(s, first, |rest[k].pattern|)
    ensures var (n, one) := (|rest[k].pattern|, Substitute(s, first));
            0 < n <= |s| && n <= |one| && one[n..] == Substitute(s[n..], first) && Applies(one, rest, Some(k))
  {
    hide Substitute, Silent, Applies, Uniform, ValidRules;
    UniformInert(first, rest, mark, bar);
    UniformValid(first, mark, bar);
    UniformFence(rest, mark, bar, k);
    AppliesGives(s, rest, k);
    var n, one := |rest[k].pattern|, Substitute(s, first);
    SubstituteCopies(s, first, n);
    FirstPassAddsNone(s, first, mark, bar, rest);
    HeadTail(s[..n], Substitute(s[n..], first));
    AppliesIf(one, rest, k);
  }

  lemma AppliesGives<T>(s: seq<T>, rules: seq<Rule<T>>, k: nat)
    requires Applies(s, rules, Some(k))
    ensures k < |rules| && rules[k].pattern <= s && forall j | 0 <= j < k :: !(rules[j].pattern <= s)
  {
  }

  lemma AppliesIf<T>(s: seq<T>, rules: seq<Rule<T>>, k: nat)
    requires k < |rules| && rules[k].pattern <= s && forall j | 0 <= j < k :: !(rules[j].pattern <= s)
    ensures Applies(s, rules, Some(k))
  {
  }

  /** Where it applies rule `k` of `rest` and no rule of `first` starts inside the match, the pass
      of `first` keeps the match and the pass of `rest` replaces it. */
  lemma BothReplaceLater<T>(s: seq<T>, first: seq<Rule<T>>, rest: seq<Rule<T>>, mark: T, bar: T, k: nat)
    requires Uniform(first, mark, bar) && Uniform(rest, mark, bar)
    requires s != [] && k < |rest| && Applies(s, rest, Some(k)) && Silent(s, first, |rest[k].pattern|)
    ensures var t := s[|rest[k].pattern|..];
            Substitute(Substitute(s, first), rest) == rest[k].replacement + Substitute(Substitute(t, first), rest)
  {
    hide Silent, Substitute, Applies;
    KeptMatch(s, first, rest, mark, bar, k);
    UniformMatch(Substitute(s, first), rest, mark, bar, k);
  }

  /** Where no rule matches, both ways copy one element. */
  lemma BothCopy<T>(s: seq<T>, first: seq<Rule<T>>, rest: seq<Rule<T>>, mark: T, bar: T)
    requires InertRules(first, mark, bar) && FencedRules(rest, mark, bar) && ValidRules(rest)
    requires s != [] && Applies(s, first, None) && Applies(s, rest, None)
    ensures Substitute(Substitute(s, first), rest) == [s[0]] + Substitute(Substitute(s[1..], first), rest)
  {
    FirstPassAddsNone(s, first, mark, bar, rest);
    var one := Substitute(s, first);
    assert one == [s[0]] + Substitute(s[1..], first);
    assert FirstRule(one, rest, 0).None?;
    assert one[1..] == Substitute(s[1..], first);
  }

  lemma {:induction false} FirstStart<T>(s: seq<T>, rules: seq<Rule<T>>, n: nat) returns (i: nat)
    requires !Silent(s, rules, n)
    ensures i < n && Silent(s, rules, i) && !NoneStarts(s, i, rules)
    decreases n
  {
    hide NoneStarts;
    if Silent(s, rules, n - 1) {
      i := n - 1;
    } else {
      i := FirstStart(s, rules, n - 1);
    }
  }

  /** What a pass that starts replacing at `i` makes of the text. */
  lemma StartsReplacing<T>(s: seq<T>, rules: seq<Rule<T>>, i: nat) returns (k: nat, after: seq<T>)
    requires ValidRules(rules) && Silent(s, rules, i) && !NoneStarts(s, i, rules)
    ensures i <= |s| && k < |rules| && Substitute(s, rules) == s[..i] + (rules[k].replacement + after)
  {
    hide Silent;
    assert i <= |s|;
    SubstituteCopies(s, rules, i);
    k := FirstRule(s[i..], rules, 0).value;
    after := Substitute(s[i..][|rules[k].pattern|..], rules);
  }

  /** Such a pass cuts every pattern that begins before `i` and ends after. */
  lemma CutPattern<T>(s: seq<T>, first: seq<Rule<T>>, mark: T, bar: T, i: nat, q: seq<T>)
    requires InertRules(first, mark, bar) && Fenced(q, mark, bar) && i < |q|
    requires Silent(s, first, i) && !NoneStarts(s, i, first)
    ensures i <= |s| && s[..i] <= Substitute(s, first) && !(q <= Substitute(s, first))
  {
    hide Substitute, Silent, NoneStarts, Inert, ValidRules;
    var k, after := StartsReplacing(s, first, i);
    InertBlocks(first[k].replacement, after, mark, bar, q[i..]);
    PrefixTail(q, s[..i], first[k].replacement + after);
  }

  lemma PrefixTail<T>(q: seq<T>, head: seq<T>, tail: seq<T>)
    requires |head| <= |q|
    ensures q <= head + tail ==> q[|head|..] <= tail
  {
    assert (head + tail)[|head|..] == tail;
  }

  /** No rule of `rest` matches any more where a rule of `first` has cut its match. */
  lemma NoMatchLeft<T>(s: seq<T>, first: seq<Rule<T>>, rest: seq<Rule<T>>, mark: T, bar: T, k: nat, i: nat, j: nat)
    requires Uniform(first, mark, bar) && Uniform(rest, mark, bar) && j < |rest|
    requires k < |rest| && rest[k].pattern <= s && i < |rest[k].pattern|
    requires Silent(s, first, i) && !NoneStarts(s, i, first)
    ensures !(rest[j].pattern <= Substitute(s, first))
  {
    hide Silent, NoneStarts, Substitute;
    if i < |rest[j].pattern| {
      CutPattern(s, first, mark, bar, i, rest[j].pattern);
    } else {
      FirstPassAddsNone(s, first, mark, bar, rest);
      PrefixOfPrefix(rest[j].pattern, rest[k].pattern, s);
    }
  }

  lemma PrefixOfPrefix<T>(a: seq<T>, b: seq<T>, s: seq<T>)
    requires b <= s && |a| <= |b|
    ensures a <= s ==> a <= b
  {
  }

  lemma CopiesHead<T>(s: seq<T>, rules: seq<Rule<T>>)
    requires ValidRules(rules) && s != [] && forall j | 0 <= j < |rules| :: !(rules[j].pattern <= s)
    ensures Substitute(s, rules) != [] && Substitute(s, rules)[0] == s[0]
  {
    assert Applies(s, rules, None);
  }

  /** Where a rule of `first` starts inside a match of `rest`, the pass of `first` keeps the mark
      and leaves no match of `rest` at the head. */
  lemma TornOnce<T>(s: seq<T>, first: seq<Rule<T>>, rest: seq<Rule<T>>, mark: T, bar: T, k: nat)
    requires Uniform(first, mark, bar) && Uniform(rest, mark, bar)
    requires s != [] && Applies(s, first, None) && k < |rest| && Applies(s, rest, Some(k))
    requires !Silent(s, first, |rest[k].pattern|)
    ensures Substitute(s, first) != [] && Substitute(s, first)[0] == mark
    ensures forall j | 0 <= j < |rest| :: !(rest[j].pattern <= Substitute(s, first))
  {
    hide Silent, Uniform, Substitute, NoneStarts;
    var i := FirstStart(s, first, |rest[k].pattern|);
    NoneAtHead(s, first);
    var one := Substitute(s, first);
    forall j | 0 <= j < |rest|
      ensures !(rest[j].pattern <= one)
    {
      NoMatchLeft(s, first, rest, mark, bar, k, i, j);
    }
    UniformFence(rest, mark, bar, k);
    UniformInert(first, rest, mark, bar);
    CutPattern(s, first, mark, bar, i, rest[k].pattern);
    assert one[0] == s[..i][0] == rest[k].pattern[0];
  }

  /** There the two ways differ at once: one pass emits a replacement, the other way keeps the mark. */
  lemma TornDiffers<T>(s: seq<T>, first: seq<Rule<T>>, rest: seq<Rule<T>>, mark: T, bar: T, k: nat)
    requires Uniform(first, mark, bar) && Uniform(rest, mark, bar)
    requires s != [] && Applies(s, first, None) && k < |rest| && Applies(s, rest, Some(k))
    requires !Silent(s, first, |rest[k].pattern|)
    ensures Substitute(Substitute(s, first), rest) != []
    ensures Substitute(Substitute(s, first), rest)[0] == mark
  {
    hide Silent, Uniform, Substitute, Applies;
    TornOnce(s, first, rest, mark, bar, k);
    UniformInert(first, rest, mark, bar);
    UniformValid(rest, mark, bar);
    CopiesHead(Substitute(s, first), rest);
  }

  lemma UniformValid<T>(rules: seq<Rule<T>>, mark: T, bar: T)
    requires Uniform(rules, mark, bar)
    ensures ValidRules(rules)
  {
  }

  lemma NoneAtHead<T>(s: seq<T>, rules: seq<Rule<T>>)
    requires Applies(s, rules, None)
    ensures NoneStarts(s, 0, rules)
  {
    assert s[0..] == s;
  }

  lemma UniformFence<T>(rules: seq<Rule<T>>, mark: T, bar: T, k: nat)
    requires Uniform(rules, mark, bar) && k < |rules|
    ensures InertRules(rules, mark, bar) && Fenced(rules[k].pattern, mark, bar)
  {
  }

  lemma Cancel<T>(head: seq<T>, a: seq<T>, b: seq<T>)
    ensures head + a == head + b <==> a == b
  {
    assert (head + a)[|head|..] == a && (head + b)[|head|..] == b;
  }

  /** Applying `first` everywhere and then `rest` everywhere is the same as substituting both in
      one pass if and only if the scan meets no torn match. */
  lemma SubstituteSplits<T>(s: seq<T>, first: seq<Rule<T>>, rest: seq<Rule<T>>, mark: T, bar: T)
    requires ValidRules(first) && ValidRules(rest) && ValidRules(first + rest) && Uniform(first + rest, mark, bar)
    ensures Substitute(s, first + rest) == Substitute(Substitute(s, first), rest) <==> Untorn(s, first, rest)
  {
    hide Substitute, Untorn, Uniform;
    SplitsAgree(s, first, rest, mark, bar);
  }

  lemma {:induction false} SplitsAgree<T>(s: seq<T>, first: seq<Rule<T>>, rest: seq<Rule<T>>, mark: T, bar: T)
    requires ValidRules(first) && ValidRules(rest) && ValidRules(first + rest) && Uniform(first + rest, mark, bar)
    ensures Agree(s, first, rest) <==> Untorn(s, first, rest)
    decreases |s|
  {
    hide *;
    if s == [] {
      NothingToAgree(first, rest);
    } else {
      var k := Applied(s, first + rest);
      if k.None? {
        UniformParts(first, rest, mark, bar);
        SplitsAtNone(s, first, rest, mark, bar);
        UntornAtNone(s, first, rest);
        SplitsAgree(s[1..], first, rest, mark, bar);
      } else if k.value < |first| {
        SplitsAtFirst(s, first, rest, mark, bar, k.value);
        UntornAtFirst(s, first, rest, k.value);
        SplitsAgree(s[|first[k.value].pattern|..], first, rest, mark, bar);
      } else {
        var j := k.value - |first|;
        SplitsAtRest(s, first, rest, mark, bar, j);
        UntornAtRest(s, first, rest, j);
        SplitsAgree(s[|rest[j].pattern|..], first, rest, mark, bar);
      }
    }
  }

  lemma Applied<T>(s: seq<T>, rules: seq<Rule<T>>) returns (k: Option<nat>)
    ensures Applies(s, rules, k) && (k.Some? ==> k.value < |rules|)
  {
    k := FirstRule(s, rules, 0);
  }

  lemma UntornAtNone<T>(s: seq<T>, first: seq<Rule<T>>, rest: seq<Rule<T>>)
    requires ValidRules(first + rest) && s != [] && Applies(s, first + rest, None)
    ensures Untorn(s, first, rest) <==> Untorn(s[1..], first, rest)
  {
    hide Silent;
  }

  lemma UntornAtFirst<T>(s: seq<T>, first: seq<Rule<T>>, rest: seq<Rule<T>>, k: nat)
    requires ValidRules(first + rest) && s != [] && k < |first| && Applies(s, first + rest, Some(k))
    ensures |first[k].pattern| <= |s|
    ensures Untorn(s, first, rest) <==> Untorn(s[|first[k].pattern|..], first, rest)
  {
    hide Silent;
  }

  lemma UntornAtRest<T>(s: seq<T>, first: seq<Rule<T>>, rest: seq<Rule<T>>, j: nat)
    requires ValidRules(first + rest) && s != [] && j < |rest| && Applies(s, first + rest, Some(|first| + j))
    ensures |rest[j].pattern| <= |s|
    ensures var n := |rest[j].pattern|;
            Untorn(s, first, rest) <==> Silent(s, first, n) && Untorn(s[n..], first, rest)
  {
    hide *;
    AppliesRest(s, first, rest, j);
    UntornHere(s, first, rest, |first| + j);
  }

  lemma UntornHere<T>(s: seq<T>, first: seq<Rule<T>>, rest: seq<Rule<T>>, k: nat)
    requires ValidRules(first + rest) && s != [] && Applies(s, first + rest, Some(k))
    ensures var n := |(first + rest)[k].pattern|;
            && n <= |s|
            && (Untorn(s, first, rest) <==> (k < |first| || Silent(s, first, n)) && Untorn(s[n..], first, rest))
  {
    hide Silent;
  }

  lemma NothingToAgree<T>(first: seq<Rule<T>>, rest: seq<Rule<T>>)
    requires ValidRules(first) && ValidRules(rest) && ValidRules(first + rest)
    ensures Agree([], first, rest) && Untorn([], first, rest)
  {
  }

  lemma UniformInert<T>(first: seq<Rule<T>>, rest: seq<Rule<T>>, mark: T, bar: T)
    requires Uniform(first, mark, bar) && Uniform(rest, mark, bar)
    ensures InertRules(first, mark, bar) && FencedRules(rest, mark, bar)
  {
  }

  lemma UniformMatch<T>(s: seq<T>, rules: seq<Rule<T>>, mark: T, bar: T, k: nat)
    requires Uniform(rules, mark, bar) && s != [] && Applies(s, rules, Some(k))
    ensures 0 < |rules[k].pattern| <= |s| && rules[k].replacement != [] && rules[k].replacement[0] != mark
    ensures Substitute(s, rules) == rules[k].replacement + Substitute(s[|rules[k].pattern|..], rules)
  {
    assert Inert(rules[k].replacement, mark, bar);
  }

  /** Whether the two ways agree on a text. */
  ghost predicate Agree<T>(s: seq<T>, first: seq<Rule<T>>, rest: seq<Rule<T>>)
    requires ValidRules(first) && ValidRules(rest) && ValidRules(first + rest)
  {
    Substitute(s, first + rest) == Substitute(Substitute(s, first), rest)
  }

  lemma AgreeBehind<T>(s: seq<T>, t: seq<T>, head: seq<T>, first: seq<Rule<T>>, rest: seq<Rule<T>>)
    requires ValidRules(first) && ValidRules(rest) && ValidRules(first + rest)
    requires Substitute(s, first + rest) == head + Substitute(t, first + rest)
    requires Substitute(Substitute(s, first), rest) == head + Substitute(Substitute(t, first), rest)
    ensures Agree(s, first, rest) <==> Agree(t, first, rest)
  {
    hide Substitute;
    Cancel(head, Substitute(t, first + rest), Substitute(Substitute(t, first), rest));
  }

  lemma DisagreeAtOnce<T>(s: seq<T>, t: seq<T>, head: seq<T>, first: seq<Rule<T>>, rest: seq<Rule<T>>, mark: T)
    requires ValidRules(first) && ValidRules(rest) && ValidRules(first + rest)
    requires Substitute(s, first + rest) == head + t && head != [] && head[0] != mark
    requires Substitute(Substitute(s, first), rest) != [] && Substitute(Substitute(s, first), rest)[0] == mark
    ensures !Agree(s, first, rest)
  {
    hide Substitute;
  }

  lemma SplitsNow<T>(s: seq<T>, first: seq<Rule<T>>, rest: seq<Rule<T>>, mark: T, bar: T, k: nat)
    requires ValidRules(first) && ValidRules(rest) && ValidRules(first + rest)
    requires Uniform(first, mark, bar) && Uniform(rest, mark, bar) && s != [] && k < |first|
    requires Applies(s, first, Some(k)) && |first[k].pattern| <= |s|
    requires var t := s[|first[k].pattern|..];
             Substitute(s, first + rest) == first[k].replacement + Substitute(t, first + rest)
    ensures Agree(s, first, rest) <==> Agree(s[|first[k].pattern|..], first, rest)
  {
    hide *;
    BothReplaceNow(s, first, rest, mark, bar, k);
    AgreeBehind(s, s[|first[k].pattern|..], first[k].replacement, first, rest);
  }

  lemma SplitsLater<T>(s: seq<T>, first: seq<Rule<T>>, rest: seq<Rule<T>>, mark: T, bar: T, k: nat)
    requires ValidRules(first) && ValidRules(rest) && ValidRules(first + rest)
    requires Uniform(first, mark, bar) && Uniform(rest, mark, bar) && s != [] && k < |rest|
    requires Applies(s, rest, Some(k)) && |rest[k].pattern| <= |s| && Silent(s, first, |rest[k].pattern|)
    requires var t := s[|rest[k].pattern|..];
             Substitute(s, first + rest) == rest[k].replacement + Substitute(t, first + rest)
    ensures Agree(s, first, rest) <==> Agree(s[|rest[k].pattern|..], first, rest)
  {
    hide *;
    BothReplaceLater(s, first, rest, mark, bar, k);
    AgreeBehind(s, s[|rest[k].pattern|..], rest[k].replacement, first, rest);
  }

  lemma SplitsTorn<T>(s: seq<T>, first: seq<Rule<T>>, rest: seq<Rule<T>>, mark: T, bar: T, k: nat, t: seq<T>)
    requires ValidRules(first) && ValidRules(rest) && ValidRules(first + rest)
    requires Uniform(first, mark, bar) && Uniform(rest, mark, bar) && s != [] && k < |rest|
    requires Applies(s, first, None) && Applies(s, rest, Some(k))
    requires !Silent(s, first, |rest[k].pattern|)
    requires Substitute(s, first + rest) == rest[k].replacement + t
    requires rest[k].replacement != [] && rest[k].replacement[0] != mark
    ensures !Agree(s, first, rest)
  {
    hide *;
    TornDiffers(s, first, rest, mark, bar, k);
    DisagreeAtOnce(s, t, rest[k].replacement, first, rest, mark);
  }

  /** The step of `SubstituteSplits` where a rule of `first` matches. */
  lemma SplitsAtFirst<T>(s: seq<T>, first: seq<Rule<T>>, rest: seq<Rule<T>>, mark: T, bar: T, k: nat)
    requires ValidRules(first) && ValidRules(rest) && ValidRules(first + rest) && Uniform(first + rest, mark, bar)
    requires s != [] && k < |first| && Applies(s, first + rest, Some(k))
    ensures 0 < |first[k].pattern| <= |s|
    ensures Agree(s, first, rest) <==> Agree(s[|first[k].pattern|..], first, rest)
  {
    hide *;
    UniformParts(first, rest, mark, bar);
    UniformMatch(s, first + rest, mark, bar, k);
    AppliesFirst(s, first, rest, k);
    SplitsNow(s, first, rest, mark, bar, k);
  }

  /** The step where a rule of `rest` matches. */
  lemma SplitsAtRest<T>(s: seq<T>, first: seq<Rule<T>>, rest: seq<Rule<T>>, mark: T, bar: T, j: nat)
    requires ValidRules(first) && ValidRules(rest) && ValidRules(first + rest) && Uniform(first + rest, mark, bar)
    requires s != [] && j < |rest| && Applies(s, first + rest, Some(|first| + j))
    ensures 0 < |rest[j].pattern| <= |s|
    ensures var n := |rest[j].pattern|;
            Agree(s, first, rest) <==> Silent(s, first, n) && Agree(s[n..], first, rest)
  {
    hide *;
    UniformParts(first, rest, mark, bar);
    UniformMatch(s, first + rest, mark, bar, |first| + j);
    AppliesRest(s, first, rest, j);
    if Silent(s, first, |rest[j].pattern|) {
      SplitsLater(s, first, rest, mark, bar, j);
    } else {
      SplitsTorn(s, first, rest, mark, bar, j, Substitute(s[|rest[j].pattern|..], first + rest));
    }
  }

  /** The step where no rule matches. */
  lemma SplitsAtNone<T>(s: seq<T>, first: seq<Rule<T>>, rest: seq<Rule<T>>, mark: T, bar: T)
    requires ValidRules(first) && ValidRules(rest) && ValidRules(first + rest)
    requires Uniform(first, mark, bar) && Uniform(rest, mark, bar)
    requires s != [] && Applies(s, first + rest, None)
    ensures Agree(s, first, rest) <==> Agree(s[1..], first, rest)
  {
    hide *;
    UniformInert(first, rest, mark, bar);
    AppliesNone(s, first, rest);
    BothCopy(s, first, rest, mark, bar);
    CopyFirst(s, first + rest);
    AgreeBehind(s, s[1..], [s[0]], first, rest);
  }

  lemma CopyFirst<T>(s: seq<T>, rules: seq<Rule<T>>)
    requires ValidRules(rules) && s != [] && Applies(s, rules, None)
    ensures Substitute(s, rules) == [s[0]] + Substitute(s[1..], rules)
  {
  }
}
