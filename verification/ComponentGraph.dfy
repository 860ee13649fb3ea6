/**
 The dependency graph of a workspace's components, and the graph theory that the component manager relies on:
 paths, cycles, ranks, and the two least/greatest sets that enabling and cascading disabling compute.
 */
module ComponentGraph {

  datatype ComponentDef = ComponentDef(
    name: string,
    paths: seq<string>,
    mandatory: bool,
    dependencies: seq<string>)

  type Graph = map<string, ComponentDef>

  ghost predicate UniqueNames(defs: seq<ComponentDef>) {
    forall i, j :: 0 <= i < j < |defs| ==> defs[i].name != defs[j].name
  }

  /** The lookup table by name; a later definition of a name replaces an earlier one. */
  function ByName(defs: seq<ComponentDef>): Graph {
    if defs == [] then map[]
    else ByName(defs[..|defs| - 1])[defs[|defs| - 1].name := defs[|defs| - 1]]
  }

  lemma {:induction false} ByNameMembers(defs: seq<ComponentDef>)
    ensures forall n :: n in ByName(defs) <==> exists i :: 0 <= i < |defs| && defs[i].name == n
    ensures forall n :: n in ByName(defs) ==> ByName(defs)[n] in defs && ByName(defs)[n].name == n
    ensures |ByName(defs)| <= |defs|
  {
    if defs != [] {
      var front, d := defs[..|defs| - 1], defs[|defs| - 1];
      ByNameMembers(front);
      assert defs == front + [d];
      assert ByName(defs) == ByName(front)[d.name := d];
      MembersNext(front, d, ByName(front), ByName(defs));
    }
  }

  lemma MembersNext(front: seq<ComponentDef>, d: ComponentDef, g: Graph, next: Graph)
    requires next == g[d.name := d]
    requires forall n :: n in g <==> exists i :: 0 <= i < |front| && front[i].name == n
    requires forall n :: n in g ==> g[n] in front && g[n].name == n
    ensures forall n :: n in next <==> exists i :: 0 <= i < |front + [d]| && (front + [d])[i].name == n
    ensures forall n :: n in next ==> next[n] in front + [d] && next[n].name == n
  {
    var all := front + [d];
    assert forall i :: 0 <= i < |front| ==> all[i] == front[i];
    assert all[|front|] == d;
    forall n ensures n in next <==> exists i :: 0 <= i < |all| && all[i].name == n {
      if n in g {
        var i :| 0 <= i < |front| && front[i].name == n;
        assert all[i].name == n;
      }
    }
  }

  lemma UniqueFront(defs: seq<ComponentDef>)
    requires UniqueNames(defs) && defs != []
    ensures UniqueNames(defs[..|defs| - 1])
    ensures defs[|defs| - 1].name !in ByName(defs[..|defs| - 1])
  {
    ByNameMembers(defs[..|defs| - 1]);
  }

  lemma {:induction false} ByNameUnique(defs: seq<ComponentDef>)
    requires UniqueNames(defs)
    ensures forall i :: 0 <= i < |defs| ==> defs[i].name in ByName(defs) && ByName(defs)[defs[i].name] == defs[i]
    ensures |ByName(defs)| == |defs|
  {
    hide UniqueNames;
    if defs != [] {
      var front, d := defs[..|defs| - 1], defs[|defs| - 1];
      UniqueFront(defs);
      ByNameUnique(front);
      forall i | 0 <= i < |defs| ensures defs[i].name in ByName(defs) && ByName(defs)[defs[i].name] == defs[i] {
        if i < |front| { assert defs[i] == front[i]; }
      }
    }
  }

  /** Component x lists y among its dependencies. */
  predicate Edge(g: Graph, x: string, y: string) {
    x in g && y in g[x].dependencies
  }

  ghost predicate KnownDeps(g: Graph) {
    forall x, y :: Edge(g, x, y) ==> y in g
  }

  ghost predicate Step(g: Graph, p: seq<string>, i: int)
    requires 0 <= i < |p| - 1
  {
    Edge(g, p[i], p[i + 1])
  }

  ghost predicate IsChain(g: Graph, p: seq<string>) {
    forall i :: 0 <= i < |p| - 1 ==> Step(g, p, i)
  }

  /** A path has at least one edge. */
  ghost predicate IsPath(g: Graph, p: seq<string>) {
    |p| >= 2 && IsChain(g, p)
  }

  lemma ChainSlice(g: Graph, p: seq<string>, i: int, j: int)
    requires IsChain(g, p) && 0 <= i <= j <= |p|
    ensures IsChain(g, p[i..j])
  {
    forall k | 0 <= k < j - i - 1 ensures Step(g, p[i..j], k) {
      assert Step(g, p, i + k);
    }
  }

  lemma ChainConcat(g: Graph, p: seq<string>, q: seq<string>)
    requires IsChain(g, p) && IsChain(g, q)
    requires p != [] && q != [] ==> Edge(g, p[|p| - 1], q[0])
    ensures IsChain(g, p + q)
  {
    forall k | 0 <= k < |p + q| - 1 ensures Step(g, p + q, k) {
      if k < |p| - 1 {
        assert Step(g, p, k);
      } else if k >= |p| {
        assert Step(g, q, k - |p|);
      }
    }
  }

  /** x depends on y, directly or transitively. */
  ghost predicate Reaches(g: Graph, x: string, y: string) {
    exists p :: IsPath(g, p) && p[0] == x && p[|p| - 1] == y
  }

  ghost predicate Acyclic(g: Graph) {
    forall x :: !Reaches(g, x, x)
  }

  ghost predicate Ranked(g: Graph, rank: map<string, nat>) {
    && rank.Keys == g.Keys
    && (forall x :: x in rank ==> rank[x] < |g|)
    && forall x, y :: Edge(g, x, y) ==> y in rank && rank[y] < rank[x]
  }

  lemma EdgeReaches(g: Graph, x: string, y: string)
    requires Edge(g, x, y)
    ensures Reaches(g, x, y)
  {
    assert IsPath(g, [x, y]);
  }

  lemma ReachesStep(g: Graph, x: string, y: string, z: string)
    requires Edge(g, x, y) && Reaches(g, y, z)
    ensures Reaches(g, x, z)
  {
    var p :| IsPath(g, p) && p[0] == y && p[|p| - 1] == z;
    ChainConcat(g, [x], p);
    assert IsPath(g, [x] + p) && ([x] + p)[|[x] + p| - 1] == z;
  }

  lemma ReachesExtend(g: Graph, x: string, y: string, z: string)
    requires Reaches(g, x, y) && Edge(g, y, z)
    ensures Reaches(g, x, z)
  {
    var p :| IsPath(g, p) && p[0] == x && p[|p| - 1] == y;
    ChainConcat(g, p, [z]);
    assert IsPath(g, p + [z]) && (p + [z])[0] == x && (p + [z])[|p + [z]| - 1] == z;
  }

  /** Ranks fall along every path. */
  lemma {:induction false} RankFalls(g: Graph, rank: map<string, nat>, p: seq<string>)
    requires Ranked(g, rank) && IsPath(g, p)
    ensures p[0] in rank && p[|p| - 1] in rank && rank[p[|p| - 1]] < rank[p[0]]
  {
    assert Step(g, p, 0);
    if |p| > 2 {
      ChainSlice(g, p, 1, |p|);
      assert p[1..|p|] == p[1..];
      RankFalls(g, rank, p[1..]);
    }
  }

  lemma RankedIsAcyclic(g: Graph, rank: map<string, nat>)
    requires Ranked(g, rank)
    ensures Acyclic(g)
  {
    forall x ensures !Reaches(g, x, x) {
      if Reaches(g, x, x) {
        var p :| IsPath(g, p) && p[0] == x && p[|p| - 1] == x;
        RankFalls(g, rank, p);
      }
    }
  }

  ghost predicate Trapped(g: Graph, s: set<string>, u: string) {
    exists v :: v in s && Edge(g, u, v)
  }

  ghost predicate AllTrapped(g: Graph, s: set<string>) {
    forall u {:trigger Trapped(g, s, u)} :: u in s ==> Trapped(g, s, u)
  }

  /** From x, n steps can be taken without leaving s. */
  lemma {:induction false} Walk(g: Graph, s: set<string>, x: string, n: nat) returns (p: seq<string>)
    requires x in s
    requires AllTrapped(g, s)
    ensures |p| == n + 1 && p[0] == x
    ensures forall i :: 0 <= i < |p| ==> p[i] in s
    ensures IsChain(g, p)
    decreases n
  {
    if n == 0 {
      p := [x];
    } else {
      assert Trapped(g, s, x);
      var v :| v in s && Edge(g, x, v);
      var q := Walk(g, s, v, n - 1);
      ChainConcat(g, [x], q);
      p := [x] + q;
    }
  }

  /** Pigeonhole: a sequence over s that is longer than |s| repeats an element. */
  lemma {:induction false} Repeats(p: seq<string>, s: set<string>) returns (i: nat, j: nat)
    requires forall k :: 0 <= k < |p| ==> p[k] in s
    requires |p| > |s|
    ensures i < j < |p| && p[i] == p[j]
  {
    var last := |p| - 1;
    if k :| 0 <= k < last && p[k] == p[last] {
      i, j := k, last;
    } else {
      i, j := Repeats(p[..last], s - {p[last]});
    }
  }

  /** A non-empty set in which every component has a dependency contains a cycle. */
  lemma TrappedSetIsCyclic(g: Graph, s: set<string>)
    requires s != {}
    requires AllTrapped(g, s)
    ensures !Acyclic(g)
  {
    var x :| x in s;
    var p := Walk(g, s, x, |s|);
    var i, j := Repeats(p, s);
    ChainSlice(g, p, i, j + 1);
    assert IsPath(g, p[i..j + 1]);
    assert Reaches(g, p[i], p[i]);
  }

  lemma SomeIsFree(g: Graph, s: set<string>) returns (x: string)
    requires s != {} && Acyclic(g)
    ensures x in s && !Trapped(g, s, x)
  {
    if AllTrapped(g, s) {
      TrappedSetIsCyclic(g, s);
    }
    x :| x in s && !Trapped(g, s, x);
  }

  /** A ranking of some components, closed under dependencies. */
  ghost predicate PartlyRanked(g: Graph, rank: map<string, nat>) {
    && rank.Keys <= g.Keys
    && (forall x :: x in rank ==> rank[x] < |rank|)
    && forall x, y :: x in rank && Edge(g, x, y) ==> y in rank && rank[y] < rank[x]
  }

  lemma RankOneMore(g: Graph, rank: map<string, nat>, x: string)
    requires KnownDeps(g) && PartlyRanked(g, rank)
    requires x in g.Keys - rank.Keys && !Trapped(g, g.Keys - rank.Keys, x)
    ensures PartlyRanked(g, rank[x := |rank|])
    ensures rank[x := |rank|].Keys == rank.Keys + {x}
  {
    var more := rank[x := |rank|];
    assert more.Keys == rank.Keys + {x};
    assert |more.Keys| == |rank.Keys| + 1;
    forall u, v | u in more && Edge(g, u, v) ensures v in more && more[v] < more[u] {
      if u == x {
        assert v in g;
        assert v in rank;
      }
    }
  }

  lemma PartIsKnown(g: Graph, partial: map<string, nat>)
    requires PartlyRanked(g, partial)
    ensures partial.Keys <= g.Keys
  {
  }

  lemma AllRanked(g: Graph, rank: map<string, nat>)
    requires KnownDeps(g) && PartlyRanked(g, rank) && g.Keys - rank.Keys == {}
    ensures Ranked(g, rank)
  {
    assert rank.Keys == g.Keys;
    assert |rank.Keys| == |g.Keys|;
  }

  lemma {:induction false} RankRest(g: Graph, partial: map<string, nat>) returns (rank: map<string, nat>)
    requires KnownDeps(g) && Acyclic(g) && PartlyRanked(g, partial)
    ensures Ranked(g, rank)
    decreases |g.Keys - partial.Keys|
  {
    hide PartlyRanked, Ranked, KnownDeps, Acyclic, Trapped;
    var rest := g.Keys - partial.Keys;
    PartIsKnown(g, partial);
    if rest == {} {
      AllRanked(g, partial);
      rank := partial;
    } else {
      var x := SomeIsFree(g, rest);
      RankOneMore(g, partial, x);
      assert g.Keys - (partial.Keys + {x}) == rest - {x};
      rank := RankRest(g, partial[x := |partial|]);
    }
  }

  /** An acyclic graph has a rank that falls strictly along dependencies, and conversely. */
  lemma AcyclicIffRanked(g: Graph)
    requires KnownDeps(g)
    ensures Acyclic(g) <==> exists rank :: Ranked(g, rank)
  {
    if Acyclic(g) {
      var rank := RankRest(g, map[]);
    }
    forall rank | Ranked(g, rank) ensures Acyclic(g) {
      RankedIsAcyclic(g, rank);
    }
  }

  /** Every enabled component has its dependencies enabled. */
  ghost predicate Closed(g: Graph, s: set<string>) {
    forall x, y :: x in s && Edge(g, x, y) ==> y in s
  }

  ghost predicate MandatoryIn(g: Graph, s: set<string>) {
    forall x :: x in g && g[x].mandatory ==> x in s
  }

  /** t keeps everything that was on, adds name, and needs nothing more for what it adds. */
  ghost predicate EnableCandidate(g: Graph, on: set<string>, name: string, t: set<string>) {
    && on <= t
    && name in t
    && forall x, y :: x in t && x !in on && Edge(g, x, y) ==> y in t
  }

  /** t is the least such set. */
  ghost predicate EnableOutcome(g: Graph, on: set<string>, name: string, t: set<string>) {
    && EnableCandidate(g, on, name, t)
    && forall t' :: EnableCandidate(g, on, name, t') ==> t <= t'
  }

  lemma EnableOutcomeUnique(g: Graph, on: set<string>, name: string, t: set<string>, u: set<string>)
    requires EnableOutcome(g, on, name, t) && EnableOutcome(g, on, name, u)
    ensures t == u
  {
    assert t <= u && u <= t;
  }

  /** From a closed set, enabling gives the least closed superset that holds the name. */
  lemma EnableFromClosed(g: Graph, on: set<string>, name: string, t: set<string>)
    requires EnableOutcome(g, on, name, t) && Closed(g, on)
    ensures Closed(g, t) && on <= t && name in t
    ensures forall c :: Closed(g, c) && on <= c && name in c ==> t <= c
  {
    forall c | Closed(g, c) && on <= c && name in c ensures t <= c {
      assert EnableCandidate(g, on, name, c);
    }
  }

  /** t drops name, and drops with a component everything enabled that depends on it. */
  ghost predicate DisableCandidate(g: Graph, on: set<string>, name: string, t: set<string>) {
    && t <= on
    && name !in t
    && forall y, x :: y in t && Edge(g, y, x) && x in on ==> x in t
  }

  /** t is the greatest such set. */
  ghost predicate DisableOutcome(g: Graph, on: set<string>, name: string, t: set<string>) {
    && DisableCandidate(g, on, name, t)
    && forall t' :: DisableCandidate(g, on, name, t') ==> t' <= t
  }

  /** From a closed set, a cascade leaves the greatest closed subset that avoids the name. */
  lemma DisableFromClosed(g: Graph, on: set<string>, name: string, t: set<string>)
    requires DisableOutcome(g, on, name, t) && Closed(g, on)
    ensures Closed(g, t) && t <= on && name !in t
    ensures forall c :: Closed(g, c) && c <= on && name !in c ==> c <= t
  {
    forall c | Closed(g, c) && c <= on && name !in c ensures c <= t {
      assert DisableCandidate(g, on, name, c);
    }
  }

  /** A cascade takes down only the name itself and components that reach it. */
  lemma DisableKeepsUnrelated(g: Graph, on: set<string>, name: string, t: set<string>, x: string)
    requires DisableOutcome(g, on, name, t)
    requires x in on && x != name && !Reaches(g, x, name)
    ensures x in t
  {
    var c := set y | y in on && y != name && !Reaches(g, y, name);
    forall y, z | y in c && Edge(g, y, z) && z in on ensures z in c {
      if z == name {
        EdgeReaches(g, y, z);
      } else if Reaches(g, z, name) {
        ReachesStep(g, y, z, name);
      }
    }
    assert DisableCandidate(g, on, name, c);
  }
}
