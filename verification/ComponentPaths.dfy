/** Which component owns a configuration path, and what makes owners unambiguous. */
module ComponentPaths {
  import opened Wrappers
  import opened ComponentGraph
  import Strings

  /** One path prefix claimed by one component. */
  datatype Ownership = Ownership(prefix: string, component: string)

  /** The path starts with all the segments of the prefix; one slash at the end of the prefix is no segment. */
  predicate Under(path: string, prefix: string) {
    var p := Strings.TrimSuffix(prefix, "/");
    p != "" && Strings.Split(p, '/') <= Strings.Split(path, '/')
  }

  /** One of the two prefixes lies under the other, by whole segments. */
  predicate Overlap(a: string, b: string) {
    Under(a, b) || Under(b, a)
  }

  /** path equals prefix or lies beneath it; one trailing slash of prefix is ignored. */
  predicate PathHasPrefix(path: string, prefix: string)
    ensures PathHasPrefix(path, prefix) <==> Under(path, prefix)
  {
    var p := Strings.TrimSuffix(prefix, "/");
    Strings.SplitPrefix(p, path, '/');
    p != "" && (path == p || p + "/" <= path)
  }

  predicate PrefixOverlaps(a: string, b: string)
    ensures PrefixOverlaps(a, b) <==> Overlap(a, b)
  {
    PathHasPrefix(a, b) || PathHasPrefix(b, a)
  }

  /** "app" owns "app/host", with or without a slash at its end, and not "app-backend/host". */
  lemma SegmentsAreWhole()
    ensures PathHasPrefix("app/host", "app") && PathHasPrefix("app/host", "app/") && PathHasPrefix("app", "app")
    ensures !PathHasPrefix("app-backend/host", "app") && !PrefixOverlaps("app", "app-backend")
  {
    hide Under, Overlap;
    assert "app/"[..3] == "app" && "app/"[3..] == "/" && "app"[2..] == "p" && "app-backend"[10..] == "d";
    assert "app/host"[..4] == "app/" && "app-backend/host"[3] == '-' && "app-backend"[3] == '-';
  }

  ghost predicate Owns(d: ComponentDef, path: string) {
    exists p :: p in d.paths && Under(path, p)
  }

  /** No two components claim overlapping prefixes. */
  ghost predicate OwnersDisjoint(defs: seq<ComponentDef>) {
    forall c, d, p, q :: c in defs && d in defs && c.name != d.name && p in c.paths && q in d.paths ==> !Overlap(p, q)
  }

  /** Two prefixes that share a path overlap each other. */
  lemma SharedPathOverlaps(path: string, a: string, b: string)
    requires Under(path, a) && Under(path, b)
    ensures Overlap(a, b)
  {
    hide Under;
    assert PathHasPrefix(path, a) && PathHasPrefix(path, b);
    var a', b' := Strings.TrimSuffix(a, "/"), Strings.TrimSuffix(b, "/");
    if |a'| <= |b'| {
      NestedPrefix(path, a, b);
    } else {
      NestedPrefix(path, b, a);
    }
  }

  lemma NestedPrefix(path: string, a: string, b: string)
    requires PathHasPrefix(path, a) && PathHasPrefix(path, b)
    requires |Strings.TrimSuffix(a, "/")| <= |Strings.TrimSuffix(b, "/")|
    ensures PathHasPrefix(b, a)
  {
    hide Under;
    var a', b' := Strings.TrimSuffix(a, "/"), Strings.TrimSuffix(b, "/");
    assert a' <= path && b' <= path;
    assert a' == path[..|a'|] && b' == path[..|b'|];
    if |a'| == |b'| {
      assert a' == b';
      assert b == b' || b == b' + "/";
    } else {
      assert a' + "/" == path[..|a'| + 1];
      assert a' + "/" <= b';
      assert b' <= b;
    }
  }

  lemma AtMostOneOwner(defs: seq<ComponentDef>, c: ComponentDef, d: ComponentDef, path: string)
    requires OwnersDisjoint(defs) && c in defs && d in defs
    requires Owns(c, path) && Owns(d, path)
    ensures c.name == d.name
  {
    hide Under;
    var p :| p in c.paths && Under(path, p);
    var q :| q in d.paths && Under(path, q);
    SharedPathOverlaps(path, p, q);
  }

  /** Compares every claimed prefix with every later one of another component. */
  method CheckOverlappingPaths(defs: seq<ComponentDef>) returns (clash: Option<(Ownership, Ownership)>)
    requires UniqueNames(defs)
    ensures clash.None? <==> OwnersDisjoint(defs)
    ensures clash.Some? ==> Claimed(defs, clash.value.0) && Claimed(defs, clash.value.1)
    ensures clash.Some? ==> clash.value.0.component != clash.value.1.component
    ensures clash.Some? ==> Overlap(clash.value.0.prefix, clash.value.1.prefix)
  {
    hide Under;
    var all: seq<Ownership> := [];
    for i := 0 to |defs|
      invariant forall o :: o in all <==> Claimed(defs[..i], o)
    {
      ghost var before := all;
      for j := 0 to |defs[i].paths|
        invariant forall o :: o in all <==> o in before || (o.component == defs[i].name && o.prefix in defs[i].paths[..j])
      {
        all := all + [Ownership(defs[i].paths[j], defs[i].name)];
      }
      ClaimedNext(defs, i);
    }
    assert defs[..|defs|] == defs;
    for i := 0 to |all|
      invariant forall u, v :: 0 <= u < i && u < v < |all| ==> !Clash(all[u], all[v])
    {
      for j := i + 1 to |all|
        invariant forall v :: i < v < j ==> !Clash(all[i], all[v])
      {
        var a, b := all[i], all[j];
        if a.component == b.component {
          continue;
        }
        if PrefixOverlaps(a.prefix, b.prefix) {
          assert a in all && b in all;
          ClashMeansOverlap(defs, a, b);
          return Some((a, b));
        }
      }
    }
    NoClashMeansDisjoint(defs, all);
    return None;
  }

  ghost predicate Claimed(defs: seq<ComponentDef>, o: Ownership) {
    exists d :: d in defs && d.name == o.component && o.prefix in d.paths
  }

  ghost predicate Clash(a: Ownership, b: Ownership) {
    a.component != b.component && Overlap(a.prefix, b.prefix)
  }

  lemma ClaimedNext(defs: seq<ComponentDef>, i: nat)
    requires i < |defs|
    ensures forall o :: Claimed(defs[..i + 1], o) <==>
      Claimed(defs[..i], o) || (o.component == defs[i].name && o.prefix in defs[i].paths[..|defs[i].paths|])
  {
    assert defs[i].paths[..|defs[i].paths|] == defs[i].paths;
    assert defs[..i + 1] == defs[..i] + [defs[i]];
    forall o: Ownership | o.component == defs[i].name && o.prefix in defs[i].paths ensures Claimed(defs[..i + 1], o) {
      assert defs[i] in defs[..i + 1];
    }
    forall o: Ownership | Claimed(defs[..i], o) ensures Claimed(defs[..i + 1], o) {
      var d :| d in defs[..i] && d.name == o.component && o.prefix in d.paths;
      assert d in defs[..i + 1];
    }
  }

  lemma ClashMeansOverlap(defs: seq<ComponentDef>, a: Ownership, b: Ownership)
    requires Claimed(defs, a) && Claimed(defs, b) && Clash(a, b)
    ensures !OwnersDisjoint(defs)
  {
    var c :| c in defs && c.name == a.component && a.prefix in c.paths;
    var d :| d in defs && d.name == b.component && b.prefix in d.paths;
  }

  lemma NoClashMeansDisjoint(defs: seq<ComponentDef>, all: seq<Ownership>)
    requires forall o :: o in all <==> Claimed(defs, o)
    requires forall u, v :: 0 <= u < v < |all| ==> !Clash(all[u], all[v])
    ensures OwnersDisjoint(defs)
  {
    forall c, d, p, q | c in defs && d in defs && c.name != d.name && p in c.paths && q in d.paths
      ensures !Overlap(p, q)
    {
      var a, b := Ownership(p, c.name), Ownership(q, d.name);
      assert Claimed(defs, a) && Claimed(defs, b);
      var u :| 0 <= u < |all| && all[u] == a;
      var v :| 0 <= v < |all| && all[v] == b;
      assert !Clash(all[u], all[v]) || !Clash(all[v], all[u]);
    }
  }

  /** The owner that a scan in definition order finds first. */
  method PathBelongsToComponent(defs: seq<ComponentDef>, path: string) returns (owner: Option<string>)
    ensures IsOwner(defs, path, owner)
  {
    hide Under;
    for i := 0 to |defs|
      invariant forall k :: 0 <= k < i ==> !Owns(defs[k], path)
    {
      for j := 0 to |defs[i].paths|
        invariant forall k :: 0 <= k < j ==> !PathHasPrefix(path, defs[i].paths[k])
      {
        if PathHasPrefix(path, defs[i].paths[j]) {
          assert defs[i] in defs && Owns(defs[i], path);
          return Some(defs[i].name);
        }
      }
    }
    return None;
  }

  /** What PathBelongsToComponent promises of its answer. */
  ghost predicate IsOwner(defs: seq<ComponentDef>, path: string, owner: Option<string>) {
    && (owner.Some? <==> exists d :: d in defs && Owns(d, path))
    && (owner.Some? ==> exists d :: d in defs && Owns(d, path) && d.name == owner.value)
  }

  /** Listing the same definitions in another order finds the same owner. */
  lemma OwnerIgnoresOrder(defs: seq<ComponentDef>, other: seq<ComponentDef>, path: string,
                          owner: Option<string>, owner': Option<string>)
    requires OwnersDisjoint(defs) && multiset(defs) == multiset(other)
    requires IsOwner(defs, path, owner) && IsOwner(other, path, owner')
    ensures owner == owner'
  {
    assert forall d :: d in defs <==> d in multiset(defs);
    assert forall d :: d in other <==> d in multiset(other);
    if owner.Some? && owner'.Some? {
      var c :| c in defs && Owns(c, path) && c.name == owner.value;
      var d :| d in other && Owns(d, path) && d.name == owner'.value;
      AtMostOneOwner(defs, c, d, path);
    }
  }

  /** A path survives filtering when nobody owns it or its owner is enabled. */
  ghost predicate Visible(defs: seq<ComponentDef>, on: set<string>, path: string) {
    forall d :: d in defs && Owns(d, path) ==> d.name in on
  }

  /** Enabling more components never hides a path. */
  lemma VisibleMonotone(defs: seq<ComponentDef>, on: set<string>, more: set<string>, path: string)
    requires on <= more && Visible(defs, on, path)
    ensures Visible(defs, more, path)
  {
  }
}
