/**
 The plan's trigger maps, package to triggers and trigger to packages (src/deb_triggers.rs,
 `add_triggers_to_bidirectional_maps`), grown in step.
 */
module TriggerMaps {
  type Lists = map<string, seq<string>>

  ghost predicate HasPair(m: Lists, k: string, v: string) {
    k in m && v in m[k]
  }

  ghost predicate NoRepeats(m: Lists) {
    forall k, i, j | k in m && 0 <= i < j < |m[k]| :: m[k][i] != m[k][j]
  }

  /** Each map lists the other's entries, and nothing twice. */
  ghost predicate InStep(byPkg: Lists, byName: Lists) {
    && NoRepeats(byPkg) && NoRepeats(byName)
    && forall p, t :: HasPair(byPkg, p, t) <==> HasPair(byName, t, p)
  }

  /** The entry of `k` with `v` at its end, unless it is there already. */
  function Listed(m: Lists, k: string, v: string): Lists {
    var entry := if k in m then m[k] else [];
    m[k := if v in entry then entry else entry + [v]]
  }

  lemma ListedAdds(m: Lists, k: string, v: string)
    requires NoRepeats(m)
    ensures NoRepeats(Listed(m, k, v))
    ensures forall p, t :: HasPair(Listed(m, k, v), p, t) <==> HasPair(m, p, t) || (p == k && t == v)
  {
    var entry := if k in m then m[k] else [];
    assert forall t :: t in entry + [v] <==> t in entry || t == v;
  }

  class TriggerMaps {
    var byPkg: Lists
    var byName: Lists

    constructor ()
      ensures byPkg == map[] && byName == map[] && InStep(byPkg, byName)
    {
      byPkg, byName := map[], map[];
    }

    /** After entering `names` for a package exactly those pairs are new, in both maps. */
    method AddTriggers(pkg: string, names: seq<string>)
      requires InStep(byPkg, byName)
      modifies this
      ensures InStep(byPkg, byName)
      ensures forall p, t :: HasPair(byPkg, p, t) <==> HasPair(old(byPkg), p, t) || (p == pkg && t in names)
    {
      for i := 0 to |names|
        invariant InStep(byPkg, byName)
        invariant forall p, t :: HasPair(byPkg, p, t) <==> HasPair(old(byPkg), p, t) || (p == pkg && t in names[..i])
      {
        var name := names[i];
        ListedAdds(byPkg, pkg, name);
        ListedAdds(byName, name, pkg);
        assert names[..i + 1] == names[..i] + [name];
        var triggers := if pkg in byPkg then byPkg[pkg] else [];
        if name !in triggers {
          triggers := triggers + [name];
        }
        byPkg := byPkg[pkg := triggers];
        var pkgs := if name in byName then byName[name] else [];
        if pkg !in pkgs {
          pkgs := pkgs + [pkg];
        }
        byName := byName[name := pkgs];
      }
      assert names[..|names|] == names;
    }
  }
}
