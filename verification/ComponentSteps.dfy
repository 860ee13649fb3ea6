/**
 How each traversal of the component graph makes progress, one recursive call at a time, and what every run of the
 component manager keeps.
 */
module ComponentSteps {
  import opened ComponentGraph

  /**
   Enabling name from s0 after its first k dependencies were handled. base is what the traversal itself marked: s0
   when it marks a component after its dependencies, s0 and name when it marks it before them.
   */
  ghost predicate EnableProgress(g: Graph, s0: set<string>, base: set<string>, name: string, k: nat, on: set<string>)
    requires name in g && k <= |g[name].dependencies|
  {
    && base <= on
    && (forall i :: 0 <= i < k ==> g[name].dependencies[i] in on)
    && (forall x, y :: x in on && x !in base && Edge(g, x, y) ==> y in on)
    && forall t :: EnableCandidate(g, s0, name, t) ==> on <= t
  }

  lemma EnableKeepsBase(g: Graph, s0: set<string>, base: set<string>, name: string, k: nat, on: set<string>)
    requires name in g && k <= |g[name].dependencies| && EnableProgress(g, s0, base, name, k, on)
    ensures base <= on
  {
  }

  lemma EnableStart(g: Graph, s0: set<string>, base: set<string>, name: string)
    requires name in g && name !in s0 && (base == s0 || base == s0 + {name})
    ensures EnableProgress(g, s0, base, name, 0, base)
  {
  }

  lemma EnableStep(g: Graph, s0: set<string>, base: set<string>, name: string, k: nat,
                   on: set<string>, on': set<string>)
    requires name in g && name !in s0 && s0 <= base && k < |g[name].dependencies|
    requires EnableProgress(g, s0, base, name, k, on)
    requires EnableOutcome(g, on, g[name].dependencies[k], on')
    ensures EnableProgress(g, s0, base, name, k + 1, on')
  {
    var dep := g[name].dependencies[k];
    forall x, y | x in on' && x !in base && Edge(g, x, y) ensures y in on' {}
    forall t | EnableCandidate(g, s0, name, t) ensures on' <= t {
      assert on <= t;
      assert Edge(g, name, dep);
      assert EnableCandidate(g, on, dep, t);
    }
  }

  lemma EnableDone(g: Graph, s0: set<string>, base: set<string>, name: string, on: set<string>)
    requires name in g && name !in s0 && (base == s0 || base == s0 + {name})
    requires EnableProgress(g, s0, base, name, |g[name].dependencies|, on)
    ensures EnableOutcome(g, s0, name, on + {name})
  {
    var t := on + {name};
    forall x, y | x in t && x !in s0 && Edge(g, x, y) ensures y in t {
      if x == name {
        var i :| 0 <= i < |g[name].dependencies| && g[name].dependencies[i] == y;
      }
    }
  }

  /** Whatever enabling name adds is name or one of its dependencies. */
  lemma EnableAddsDependencies(g: Graph, s: set<string>, name: string, t: set<string>, x: string)
    requires KnownDeps(g) && EnableOutcome(g, s, name, t)
    requires x in t && x !in s
    ensures x == name || Reaches(g, name, x)
  {
    var c := s + {name} + set z | z in g && Reaches(g, name, z);
    forall u, v | u in c && u !in s && Edge(g, u, v) ensures v in c {
      if u == name {
        EdgeReaches(g, u, v);
      } else {
        ReachesExtend(g, name, u, v);
      }
    }
    assert EnableCandidate(g, s, name, c);
  }

  /** r lists what went from s to t once each, every component after the dependencies it still needed. */
  ghost predicate EnableReport(g: Graph, s: set<string>, t: set<string>, r: seq<string>) {
    && (forall x :: x in r <==> x in t && x !in s)
    && (forall i, j :: 0 <= i < j < |r| ==> r[i] != r[j])
    && forall i, y :: 0 <= i < |r| && Edge(g, r[i], y) ==> y in s || y in r[..i]
  }

  lemma EnableReportConcat(g: Graph, s: set<string>, t: set<string>, u: set<string>, p: seq<string>, q: seq<string>)
    requires s <= t <= u && EnableReport(g, s, t, p) && EnableReport(g, t, u, q)
    ensures EnableReport(g, s, u, p + q)
  {
    var r := p + q;
    forall i, j | 0 <= i < j < |r| ensures r[i] != r[j] {
      if i < |p| <= j {
        assert r[i] in p && r[j] in q;
      }
    }
    forall i, y | 0 <= i < |r| && Edge(g, r[i], y) ensures y in s || y in r[..i] {
      if i < |p| {
        assert r[..i] == p[..i];
      } else {
        assert r[..i] == p + q[..i - |p|];
        assert r[i] == q[i - |p|];
      }
    }
  }

  lemma EnableReportLast(g: Graph, s: set<string>, t: set<string>, r: seq<string>, name: string)
    requires EnableReport(g, s, t, r) && s <= t && name !in t
    requires forall y :: Edge(g, name, y) ==> y in t
    ensures EnableReport(g, s, t + {name}, r + [name])
  {
    var r' := r + [name];
    forall i, y | 0 <= i < |r'| && Edge(g, r'[i], y) ensures y in s || y in r'[..i] {
      assert i < |r| ==> r'[..i] == r[..i];
      assert r'[..|r|] == r;
    }
  }

  /** Cascading from name, after the dependents in gone were taken down. */
  ghost predicate CascadeProgress(g: Graph, s0: set<string>, name: string, gone: set<string>, on: set<string>) {
    && name in on && on <= s0 && gone !! on
    && (forall y, x :: y in on && Edge(g, y, x) && x in s0 ==> x in on)
    && forall t :: DisableCandidate(g, s0, name, t) ==> t <= on
  }

  lemma CascadeStart(g: Graph, s0: set<string>, name: string)
    requires name in s0
    ensures CascadeProgress(g, s0, name, {}, s0)
  {
  }

  lemma CascadeSkip(g: Graph, s0: set<string>, name: string, gone: set<string>, d: string, on: set<string>)
    requires CascadeProgress(g, s0, name, gone, on) && d !in on
    ensures CascadeProgress(g, s0, name, gone + {d}, on)
  {
  }

  lemma DisableNothing(g: Graph, s: set<string>, name: string)
    ensures name !in s ==> DisableOutcome(g, s, name, s)
    ensures DisableReport(g, s, s, [])
  {
  }

  lemma CascadeStep(g: Graph, s0: set<string>, name: string, gone: set<string>, d: string,
                    on: set<string>, on': set<string>)
    requires Acyclic(g) && CascadeProgress(g, s0, name, gone, on) && Edge(g, d, name)
    requires DisableOutcome(g, on, d, on')
    ensures on' <= on <= s0 && CascadeProgress(g, s0, name, gone + {d}, on')
  {
    EdgeReaches(g, d, name);
    if Reaches(g, name, d) {
      ReachesExtend(g, name, d, name);
    }
    if name == d {
      EdgeReaches(g, d, d);
    }
    DisableKeepsUnrelated(g, on, d, on', name);
    forall t | DisableCandidate(g, s0, name, t) ensures t <= on' {
      assert DisableCandidate(g, on, d, t);
    }
  }

  lemma CascadeDone(g: Graph, s0: set<string>, name: string, gone: set<string>, on: set<string>)
    requires CascadeProgress(g, s0, name, gone, on)
    requires forall y :: Edge(g, y, name) ==> y in gone
    ensures name in on && on <= s0 && (forall y :: Edge(g, y, name) ==> y !in on)
    ensures DisableOutcome(g, s0, name, on - {name})
  {
  }

  /** r lists what went from s down to t once each, every component after all that depended on it. */
  ghost predicate DisableReport(g: Graph, s: set<string>, t: set<string>, r: seq<string>) {
    && (forall x :: x in r <==> x in s && x !in t)
    && (forall i, j :: 0 <= i < j < |r| ==> r[i] != r[j])
    && forall i, y :: 0 <= i < |r| && y in s && Edge(g, y, r[i]) ==> y in r[..i]
  }

  lemma DisableReportConcat(g: Graph, s: set<string>, t: set<string>, u: set<string>, p: seq<string>, q: seq<string>)
    requires u <= t <= s && DisableReport(g, s, t, p) && DisableReport(g, t, u, q)
    ensures DisableReport(g, s, u, p + q)
  {
    var r := p + q;
    forall i, j | 0 <= i < j < |r| ensures r[i] != r[j] {
      if i < |p| <= j {
        assert r[i] in p && r[j] in q;
      }
    }
    forall i, y | 0 <= i < |r| && y in s && Edge(g, y, r[i]) ensures y in r[..i] {
      if i < |p| {
        assert r[..i] == p[..i];
      } else {
        assert r[..i] == p + q[..i - |p|];
        assert r[i] == q[i - |p|];
      }
    }
  }

  lemma DisableReportLast(g: Graph, s: set<string>, t: set<string>, r: seq<string>, name: string)
    requires DisableReport(g, s, t, r) && t <= s && name in t
    requires forall y :: Edge(g, y, name) ==> y !in t
    ensures DisableReport(g, s, t - {name}, r + [name])
  {
    var r' := r + [name];
    forall i, y | 0 <= i < |r'| && y in s && Edge(g, y, r'[i]) ensures y in r'[..i] {
      assert i < |r| ==> r'[..i] == r[..i];
      assert r'[..|r|] == r;
    }
  }

  /** v holds v0, everything that depends on n, and with each addition everything that depends on it. */
  ghost predicate WalkCandidate(g: Graph, v0: set<string>, n: string, v: set<string>) {
    && v0 <= v
    && (forall x :: Edge(g, x, n) ==> x in v)
    && forall x, y :: x in v && x !in v0 && Edge(g, y, x) ==> y in v
  }

  ghost predicate WalkOutcome(g: Graph, v0: set<string>, n: string, v: set<string>) {
    && WalkCandidate(g, v0, n, v)
    && forall v' :: WalkCandidate(g, v0, n, v') ==> v <= v'
  }

  /** Walking up from n after the definitions in seen were looked at. */
  ghost predicate WalkProgress(g: Graph, v0: set<string>, n: string, seen: set<string>, v: set<string>) {
    && v0 <= v
    && (forall x :: x in seen && Edge(g, x, n) ==> x in v)
    && (forall x, y :: x in v && x !in v0 && Edge(g, y, x) ==> y in v)
    && forall v' :: WalkCandidate(g, v0, n, v') ==> v <= v'
  }

  lemma WalkStart(g: Graph, v0: set<string>, n: string)
    ensures WalkProgress(g, v0, n, {}, v0)
  {
  }

  lemma WalkSkip(g: Graph, v0: set<string>, n: string, seen: set<string>, d: string, v: set<string>)
    requires WalkProgress(g, v0, n, seen, v) && (d in v || !Edge(g, d, n))
    ensures WalkProgress(g, v0, n, seen + {d}, v)
  {
  }

  lemma WalkDone(g: Graph, v0: set<string>, n: string, v: set<string>)
    requires WalkProgress(g, v0, n, g.Keys, v)
    ensures WalkOutcome(g, v0, n, v)
  {
  }

  lemma WalkStep(g: Graph, v0: set<string>, n: string, seen: set<string>, d: string, v: set<string>, v': set<string>)
    requires WalkProgress(g, v0, n, seen, v)
    requires Edge(g, d, n) && d !in v && WalkOutcome(g, v + {d}, d, v')
    ensures v <= v' && WalkProgress(g, v0, n, seen + {d}, v')
  {
    forall w | WalkCandidate(g, v0, n, w) ensures v' <= w {
      assert d in w;
      assert WalkCandidate(g, v + {d}, d, w);
    }
    forall x, y | x in v' && x !in v0 && Edge(g, y, x) ensures y in v' {
      if x in v { assert y in v; }
    }
  }

  /** Walking up from n with nothing visited finds exactly the components that depend on n. */
  lemma WalkFindsDependents(g: Graph, n: string, v: set<string>)
    requires WalkOutcome(g, {}, n, v)
    ensures forall x :: x in v <==> Reaches(g, x, n)
  {
    var c := set x | x in g && Reaches(g, x, n);
    forall x, y | Edge(g, y, x) && (x == n || x in c) ensures y in c {
      if x == n { EdgeReaches(g, y, x); } else { ReachesStep(g, y, x, n); }
    }
    assert WalkCandidate(g, {}, n, c);
    forall x | Reaches(g, x, n) ensures x in v {
      var p :| IsPath(g, p) && p[0] == x && p[|p| - 1] == n;
      PathIsWalked(g, n, v, p);
    }
  }

  lemma {:induction false} PathIsWalked(g: Graph, n: string, v: set<string>, p: seq<string>)
    requires WalkCandidate(g, {}, n, v) && IsPath(g, p) && p[|p| - 1] == n
    ensures p[0] in v
  {
    assert Step(g, p, 0);
    if |p| > 2 {
      ChainSlice(g, p, 1, |p|);
      assert p[1..|p|] == p[1..];
      PathIsWalked(g, n, v, p[1..]);
    }
  }
}
