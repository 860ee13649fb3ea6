/** Kahn's algorithm over component definitions, with its queue, counters and inverted dependency lists. */
module CycleDetection {
  import opened ComponentGraph

  /** How often x occurs in s. */
  function Occurrences(s: seq<string>, x: string): nat {
    if s == [] then 0 else (if s[0] == x then 1 else 0) + Occurrences(s[1..], x)
  }

  lemma {:induction false} OccurrencesAppend(s: seq<string>, d: string, x: string)
    ensures Occurrences(s + [d], x) == Occurrences(s, x) + if d == x then 1 else 0
  {
    if s != [] {
      OccurrencesAppend(s[1..], d, x);
      assert (s + [d])[1..] == s[1..] + [d];
    }
  }

  lemma {:induction false} OccurrencesAt(s: seq<string>, k: nat)
    requires k < |s|
    ensures Occurrences(s, s[k]) > 0
  {
    if k > 0 {
      OccurrencesAt(s[1..], k - 1);
    }
  }

  /** The entries of deps that are not yet done, with multiplicity. */
  function Pending(deps: seq<string>, done: set<string>): nat {
    if deps == [] then 0
    else (if deps[0] in done then 0 else 1) + Pending(deps[1..], done)
  }

  lemma {:induction false} PendingOneMore(deps: seq<string>, done: set<string>, n: string)
    requires n !in done
    ensures Pending(deps, done) == Pending(deps, done + {n}) + Occurrences(deps, n)
  {
    if deps != [] {
      PendingOneMore(deps[1..], done, n);
    }
  }

  lemma {:induction false} PendingZero(deps: seq<string>, done: set<string>)
    ensures Pending(deps, done) == 0 <==> forall d :: d in deps ==> d in done
  {
    if deps != [] {
      PendingZero(deps[1..], done);
      assert deps == [deps[0]] + deps[1..];
    }
  }

  lemma {:induction false} PendingNone(deps: seq<string>)
    ensures Pending(deps, {}) == |deps|
  {
    if deps != [] {
      PendingNone(deps[1..]);
    }
  }

  /** How often x lists y among its dependencies. */
  ghost function Entries(g: Graph, x: string, y: string): nat {
    if x in g then Occurrences(g[x].dependencies, y) else 0
  }

  function DependentsOf(dependents: map<string, seq<string>>, n: string): seq<string> {
    if n in dependents then dependents[n] else []
  }

  /** The dependents lists invert the dependency lists, with multiplicity. */
  ghost predicate Inverts(g: Graph, dependents: map<string, seq<string>>) {
    forall x, y :: Occurrences(DependentsOf(dependents, y), x) == Entries(g, x, y)
  }

  /** What the counters mean while the dependents in todo still have to be worked off. */
  ghost predicate Counts(g: Graph, inDegree: map<string, int>, done: set<string>, todo: seq<string>) {
    && inDegree.Keys == g.Keys
    && forall x :: x in g ==> inDegree[x] == Pending(g[x].dependencies, done) + Occurrences(todo, x)
  }

  /** The queue holds exactly the components whose counter has reached zero and that were not visited. */
  ghost predicate Queued(inDegree: map<string, int>, done: set<string>, queue: seq<string>) {
    && (forall i, j :: 0 <= i < j < |queue| ==> queue[i] != queue[j])
    && (forall x :: x in queue ==> x !in done)
    && forall x :: x in inDegree && inDegree[x] == 0 <==> x in queue || x in done
  }

  /** The graph of the definitions before d, with the first j dependencies of d. */
  ghost function Partial(before: Graph, d: ComponentDef, j: nat): Graph
    requires j <= |d.dependencies|
  {
    before[d.name := d.(dependencies := d.dependencies[..j])]
  }

  lemma CountName(before: Graph, d: ComponentDef, inDegree: map<string, int>)
    requires d.name !in before && Counts(before, inDegree, {}, [])
    ensures d.name !in inDegree
    ensures Counts(Partial(before, d, 0), inDegree[d.name := 0], {}, [])
  {
    assert d.dependencies[..0] == [];
  }

  lemma CountEntry(before: Graph, d: ComponentDef, j: nat, inDegree: map<string, int>)
    requires d.name !in before && j < |d.dependencies|
    requires Counts(Partial(before, d, j), inDegree, {}, [])
    ensures d.name in inDegree
    ensures Counts(Partial(before, d, j + 1), inDegree[d.name := inDegree[d.name] + 1], {}, [])
  {
    PendingNone(d.dependencies[..j]);
    PendingNone(d.dependencies[..j + 1]);
  }

  lemma InvertName(before: Graph, d: ComponentDef, dependents: map<string, seq<string>>)
    requires d.name !in before && Inverts(before, dependents)
    ensures Inverts(Partial(before, d, 0), dependents)
  {
    var g := Partial(before, d, 0);
    forall x, y ensures Occurrences(DependentsOf(dependents, y), x) == Entries(g, x, y) {
      assert Entries(g, x, y) == Entries(before, x, y);
    }
  }

  lemma InvertEntry(before: Graph, d: ComponentDef, j: nat, dependents: map<string, seq<string>>)
    requires d.name !in before && j < |d.dependencies|
    requires Inverts(Partial(before, d, j), dependents)
    ensures Inverts(Partial(before, d, j + 1),
                    dependents[d.dependencies[j] := DependentsOf(dependents, d.dependencies[j]) + [d.name]])
  {
    var dep := d.dependencies[j];
    var g, g' := Partial(before, d, j), Partial(before, d, j + 1);
    var next := dependents[dep := DependentsOf(dependents, dep) + [d.name]];
    assert d.dependencies[..j + 1] == d.dependencies[..j] + [dep];
    forall x, y ensures Occurrences(DependentsOf(next, y), x) == Entries(g', x, y) {
      assert Occurrences(DependentsOf(dependents, y), x) == Entries(g, x, y);
      OccurrencesAppend(DependentsOf(dependents, dep), d.name, x);
      OccurrencesAppend(d.dependencies[..j], dep, y);
    }
  }

  lemma FreshName(defs: seq<ComponentDef>, i: nat)
    requires UniqueNames(defs) && i < |defs|
    ensures defs[i].name !in ByName(defs[..i])
  {
    ByNameMembers(defs[..i]);
    hide ByName;
    forall k | 0 <= k < i ensures defs[..i][k].name != defs[i].name {
      assert defs[..i][k] == defs[k];
    }
  }

  lemma NextDefinition(defs: seq<ComponentDef>, i: nat)
    requires UniqueNames(defs) && i < |defs|
    ensures defs[i].name !in ByName(defs[..i])
    ensures ByName(defs[..i + 1]) == Partial(ByName(defs[..i]), defs[i], |defs[i].dependencies|)
  {
    FreshName(defs, i);
    hide UniqueNames;
    assert defs[i].dependencies[..|defs[i].dependencies|] == defs[i].dependencies;
    assert defs[..i + 1][..i] == defs[..i];
  }

  lemma NothingCounted()
    ensures Counts(map[], map[], {}, []) && Inverts(map[], map[])
  {
  }

  /** Counts the dependencies of each definition and inverts the dependency lists. */
  method BuildDegrees(defs: seq<ComponentDef>)
    returns (inDegree: map<string, int>, dependents: map<string, seq<string>>)
    requires UniqueNames(defs)
    ensures Counts(ByName(defs), inDegree, {}, [])
    ensures Inverts(ByName(defs), dependents)
  {
    hide Counts, Inverts, Partial;
    NothingCounted();
    inDegree, dependents := map[], map[];
    for i := 0 to |defs|
      invariant Counts(ByName(defs[..i]), inDegree, {}, [])
      invariant Inverts(ByName(defs[..i]), dependents)
    {
      var d := defs[i];
      ghost var before := ByName(defs[..i]);
      NextDefinition(defs, i);
      CountName(before, d, inDegree);
      InvertName(before, d, dependents);
      if d.name !in inDegree {
        inDegree := inDegree[d.name := 0];
      }
      for j := 0 to |d.dependencies|
        invariant Counts(Partial(before, d, j), inDegree, {}, [])
        invariant Inverts(Partial(before, d, j), dependents)
      {
        CountEntry(before, d, j, inDegree);
        InvertEntry(before, d, j, dependents);
        var dep := d.dependencies[j];
        dependents := dependents[dep := DependentsOf(dependents, dep) + [d.name]];
        inDegree := inDegree[d.name := inDegree[d.name] + 1];
      }
    }
    assert defs[..|defs|] == defs;
  }

  /** Seeds the queue with the components without dependencies, in no particular order. */
  method ZeroDegrees(inDegree: map<string, int>) returns (queue: seq<string>)
    ensures Queued(inDegree, {}, queue)
  {
    queue := [];
    var zeros := set n | n in inDegree && inDegree[n] == 0;
    ghost var all := zeros;
    while zeros != {}
      invariant forall i, j :: 0 <= i < j < |queue| ==> queue[i] != queue[j]
      invariant zeros <= all && forall x :: x in all <==> x in queue || x in zeros
      invariant forall x :: x in queue ==> x !in zeros
    {
      var n :| n in zeros;
      queue, zeros := queue + [n], zeros - {n};
    }
  }

  lemma NothingRanked(g: Graph)
    ensures PartlyRanked(g, map[])
  {
  }

  lemma Dequeue(inDegree: map<string, int>, done: set<string>, queue: seq<string>)
    requires queue != [] && Queued(inDegree, done, queue)
    ensures queue[0] in inDegree && inDegree[queue[0]] == 0 && queue[0] !in done
    ensures Queued(inDegree, done + {queue[0]}, queue[1..])
  {
    assert queue[0] in queue;
    assert forall x :: x in queue <==> x == queue[0] || x in queue[1..];
    assert queue[0] !in queue[1..] by {
      if i :| 1 <= i < |queue| && queue[i] == queue[0] {}
    }
  }

  lemma VisitRanks(g: Graph, inDegree: map<string, int>, rank: map<string, nat>, node: string)
    requires KnownDeps(g) && PartlyRanked(g, rank) && node in inDegree && node !in rank
    requires Counts(g, inDegree, rank.Keys, []) && inDegree[node] == 0
    ensures node in g && PartlyRanked(g, rank[node := |rank|])
    ensures rank[node := |rank|].Keys == rank.Keys + {node} && |rank[node := |rank|]| == |rank| + 1
    ensures |g.Keys - (rank.Keys + {node})| < |g.Keys - rank.Keys|
  {
    PendingZero(g[node].dependencies, rank.Keys);
    assert !Trapped(g, g.Keys - rank.Keys, node);
    RankOneMore(g, rank, node);
    assert |rank.Keys + {node}| == |rank.Keys| + 1;
    assert g.Keys - (rank.Keys + {node}) == (g.Keys - rank.Keys) - {node};
  }

  lemma VisitCounts(g: Graph, inDegree: map<string, int>, done: set<string>, node: string,
                    dependents: map<string, seq<string>>)
    requires Counts(g, inDegree, done, []) && Inverts(g, dependents) && node !in done
    ensures Counts(g, inDegree, done + {node}, DependentsOf(dependents, node))
  {
    forall x | x in g
      ensures inDegree[x] == Pending(g[x].dependencies, done + {node}) + Occurrences(DependentsOf(dependents, node), x)
    {
      PendingOneMore(g[x].dependencies, done, node);
      assert Occurrences(DependentsOf(dependents, node), x) == Entries(g, x, node);
    }
  }

  lemma DependentKnown(g: Graph, dependents: map<string, seq<string>>, node: string, k: nat)
    requires Inverts(g, dependents) && k < |DependentsOf(dependents, node)|
    ensures DependentsOf(dependents, node)[k] in g
  {
    OccurrencesAt(DependentsOf(dependents, node), k);
    assert Entries(g, DependentsOf(dependents, node)[k], node) > 0;
  }

  lemma Decrement(g: Graph, inDegree: map<string, int>, done: set<string>, todo: seq<string>, x: string)
    requires todo != [] && x == todo[0] && x in g && Counts(g, inDegree, done, todo)
    ensures x in inDegree && inDegree[x] > 0
    ensures Counts(g, inDegree[x := inDegree[x] - 1], done, todo[1..])
  {
  }

  lemma Enqueue(inDegree: map<string, int>, done: set<string>, queue: seq<string>, x: string, deg: nat)
    requires Queued(inDegree, done, queue) && x in inDegree && inDegree[x] > 0
    ensures Queued(inDegree[x := deg], done, if deg == 0 then queue + [x] else queue)
  {
  }

  lemma WaitingIsTrapped(g: Graph, inDegree: map<string, int>, rank: map<string, nat>, u: string)
    requires KnownDeps(g) && u in g && u !in rank
    requires Counts(g, inDegree, rank.Keys, []) && inDegree[u] != 0
    ensures Trapped(g, g.Keys - rank.Keys, u)
  {
    PendingZero(g[u].dependencies, rank.Keys);
    var d :| d in g[u].dependencies && d !in rank.Keys;
    assert Edge(g, u, d);
  }

  lemma KahnVerdict(g: Graph, inDegree: map<string, int>, rank: map<string, nat>)
    requires KnownDeps(g) && PartlyRanked(g, rank)
    requires Counts(g, inDegree, rank.Keys, []) && Queued(inDegree, rank.Keys, [])
    ensures |rank| == |g| <==> Acyclic(g)
  {
    var rest := g.Keys - rank.Keys;
    assert |rest| == |g.Keys| - |rank.Keys|;
    if rest == {} {
      assert rank.Keys == g.Keys;
      RankedIsAcyclic(g, rank);
    } else {
      forall u {:trigger Trapped(g, rest, u)} | u in rest ensures Trapped(g, rest, u) {
        WaitingIsTrapped(g, inDegree, rank, u);
      }
      assert AllTrapped(g, rest);
      TrappedSetIsCyclic(g, rest);
    }
  }

  /** Counts down the dependents of a visited component, queueing those that wait for nothing more. */
  method WorkOff(inDegree: map<string, int>, queue: seq<string>, todo: seq<string>,
                 ghost g: Graph, ghost done: set<string>, ghost dependents: map<string, seq<string>>, ghost node: string)
    returns (inDegree': map<string, int>, queue': seq<string>)
    requires Counts(g, inDegree, done, todo) && Queued(inDegree, done, queue)
    requires Inverts(g, dependents) && todo == DependentsOf(dependents, node)
    ensures Counts(g, inDegree', done, []) && Queued(inDegree', done, queue')
  {
    hide Counts, Queued, Inverts;
    inDegree', queue' := inDegree, queue;
    assert todo[0..] == todo;
    for k := 0 to |todo|
      invariant Counts(g, inDegree', done, todo[k..]) && Queued(inDegree', done, queue')
    {
      var dependent := todo[k];
      DependentKnown(g, dependents, node, k);
      assert todo[k..][1..] == todo[k + 1..];
      Decrement(g, inDegree', done, todo[k..], dependent);
      Enqueue(inDegree', done, queue', dependent, inDegree'[dependent] - 1);
      inDegree' := inDegree'[dependent := inDegree'[dependent] - 1];
      if inDegree'[dependent] == 0 {
        queue' := queue' + [dependent];
      }
    }
    assert todo[|todo|..] == [];
  }

  /** Kahn's algorithm. */
  method DetectCycles(defs: seq<ComponentDef>) returns (ok: bool)
    requires UniqueNames(defs) && KnownDeps(ByName(defs))
    ensures ok <==> Acyclic(ByName(defs))
  {
    hide Counts, Queued, Inverts, PartlyRanked, Acyclic, UniqueNames, KnownDeps, ByName, DependentsOf;
    ghost var g := ByName(defs);
    var inDegree, dependents := BuildDegrees(defs);
    var queue := ZeroDegrees(inDegree);
    ghost var rank: map<string, nat> := map[];
    NothingRanked(g);
    var visited := 0;
    while |queue| > 0
      invariant PartlyRanked(g, rank) && visited == |rank|
      invariant Counts(g, inDegree, rank.Keys, []) && Queued(inDegree, rank.Keys, queue)
      decreases |g.Keys - rank.Keys|
    {
      var node := queue[0];
      Dequeue(inDegree, rank.Keys, queue);
      queue := queue[1..];
      visited := visited + 1;
      VisitRanks(g, inDegree, rank, node);
      VisitCounts(g, inDegree, rank.Keys, node, dependents);
      rank := rank[node := |rank|];
      inDegree, queue := WorkOff(inDegree, queue, DependentsOf(dependents, node), g, rank.Keys, dependents, node);
    }
    KahnVerdict(g, inDegree, rank);
    ByNameUnique(defs);
    ok := visited == |defs|;
  }
}
