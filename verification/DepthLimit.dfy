/**
 How many packages the 16-bit depth of src/depends.rs can take: with 65536 packages every stored
 depth is exact, and from 65537 packages on there is a dependency chain whose last package is
 stored at depth 0 again.
 */
module DepthLimit {
  import opened DependencyDepth
  import opened DepthLoop

  function Name(i: nat): (k: Key)
    ensures |k| == i && forall j | 0 <= j < i :: k[j] == 'a'
  {
    seq(i, _ => 'a')
  }

  function Names(n: nat): set<Key> {
    set i | 0 <= i < n :: Name(i)
  }

  lemma IsName(n: nat, k: Key)
    ensures k in Names(n) <==> |k| < n && k == Name(|k|)
  {
  }

  /** `n` packages, each depending on the next. */
  function ChainGraph(n: nat): Graph {
    Graph(map k | k in Names(n) :: if |k| + 1 < n then {k + ['a']} else {}, map[])
  }

  function ChainDependents(n: nat): Edges {
    map k | k in Names(n) :: if k == [] then {} else {k[..|k| - 1]}
  }

  lemma ChainInverse(n: nat)
    ensures Inverse(ChainGraph(n), ChainDependents(n))
  {
    var back := ChainDependents(n);
    forall k, p | k in back
      ensures p in back[k] <==> p in back && k in ChainGraph(n).Outgoing(p)
    {
      IsName(n, k);
      IsName(n, p);
      if p in back[k] {
        assert p == Name(|k| - 1);
        assert k == p + ['a'];
      }
    }
  }

  /** Along a chain of dependents the keys grow by one letter. */
  lemma {:induction false} ChainGrows(n: nat, c: seq<Key>, i: nat)
    requires Chain(ChainDependents(n), c) && i < |c|
    ensures |c[i]| == |c[0]| + i
  {
    if i > 0 {
      ChainGrows(n, c, i - 1);
      assert c[i - 1] in ChainDependents(n)[c[i - 1 + 1]];
    }
  }

  lemma {:induction false} ChainUpTo(n: nat, i: nat) returns (c: seq<Key>)
    requires i < n
    ensures ChainTo(ChainDependents(n), c, Name(i)) && |c| == i + 1
  {
    IsName(n, Name(i));
    if i == 0 {
      c := [Name(0)];
    } else {
      c := ChainUpTo(n, i - 1);
      assert Name(i)[..i - 1] == Name(i - 1);
      ChainAppend(ChainDependents(n), c, Name(i - 1), Name(i));
      c := c + [Name(i)];
    }
  }

  lemma ChainDepth(n: nat, requested: set<Key>, run: seq<State>, i: nat)
    requires i < n && Finished(ChainGraph(n), requested, ChainDependents(n), run)
    ensures Name(i) in Last(run).depth && Last(run).depth[Name(i)] == i
  {
    var k := Name(i);
    var back := ChainDependents(n);
    IsName(n, k);
    ChainInverse(n);
    if AfterCycle(back, k) {
      var c :| ChainTo(back, c, k) && Repeats(c);
      var a, b :| 0 <= a < b < |c| && c[a] == c[b];
      ChainGrows(n, c, a);
      ChainGrows(n, c, b);
    }
    DepthIsLongestChain(ChainGraph(n), requested, back, run, k);
    var d := Last(run).depth[k];
    var full := ChainUpTo(n, i);
    var c :| ChainTo(back, c, k) && |c| == d + 1;
    ChainGrows(n, c, d);
  }

  /** The bound of `CalculateDepths` is sharp. */
  lemma OneTooMany(n: nat, requested: set<Key>, run: seq<State>)
    requires n > 0x1_0000 && Finished(ChainGraph(n), requested, ChainDependents(n), run)
    ensures var k := Name(0x1_0000);
            && k in Last(run).depth && Last(run).depth[k] == 0x1_0000
            && k in WrappedAll(Last(run).depth) && WrappedAll(Last(run).depth)[k] == 0
  {
    ChainDepth(n, requested, run, 0x1_0000);
  }
}
