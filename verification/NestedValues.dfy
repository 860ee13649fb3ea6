/** The values of a nested map by their paths, and what setting values one after the other leaves of them. */
module NestedValues {

  type Path = seq<string>

  /** The values after one is set: whatever lies above or below it on the same line is gone. */
  ghost function SetLeaf<V>(leaves: map<Path, V>, parts: Path, val: V): map<Path, V> {
    (map q | q in leaves && !(q <= parts) && !(parts <= q) :: leaves[q])[parts := val]
  }

  /** Neither path lies on the other. */
  predicate Apart(p: Path, q: Path) {
    !(p <= q) && !(q <= p)
  }

  /** The values after setting each item in turn. */
  ghost function SetAll<V>(items: seq<(Path, V)>): map<Path, V> {
    if items == [] then map[]
    else SetLeaf(SetAll(items[..|items| - 1]), items[|items| - 1].0, items[|items| - 1].1)
  }

  ghost predicate ApartFromLater<V>(items: seq<(Path, V)>, i: int)
    requires 0 <= i < |items|
  {
    forall j :: i < j < |items| ==> Apart(items[i].0, items[j].0)
  }

  /** Item i set its path, and every later item is apart from it. */
  ghost predicate Survives<V>(items: seq<(Path, V)>, i: int) {
    0 <= i < |items| && ApartFromLater(items, i)
  }

  /** A value is found in the end exactly if it was set and nothing on its line was set after it. */
  lemma {:induction false} SetAllMeaning<V>(items: seq<(Path, V)>)
    ensures forall i :: Survives(items, i) ==> items[i].0 in SetAll(items) && SetAll(items)[items[i].0] == items[i].1
    ensures forall p :: p in SetAll(items) ==> exists i :: Survives(items, i) && items[i].0 == p
  {
    hide ApartFromLater, SetLeaf;
    if items != [] {
      var n := |items| - 1;
      var front, last, val := items[..n], items[n].0, items[n].1;
      SetAllMeaning(front);
      forall i | Survives(items, i)
        ensures items[i].0 in SetAll(items) && SetAll(items)[items[i].0] == items[i].1
      {
        SurvivesLast(items, i);
        SetLeafHas(SetAll(front), last, val, items[i].0);
        assert i < n ==> front[i] == items[i];
      }
      forall p | p in SetAll(items) ensures exists i :: Survives(items, i) && items[i].0 == p {
        SurvivesLast(items, n);
        SetLeafHas(SetAll(front), last, val, p);
        if p != last {
          var i :| Survives(front, i) && front[i].0 == p;
          SurvivesLast(items, i);
        }
      }
    }
  }

  lemma SurvivesLast<V>(items: seq<(Path, V)>, i: int)
    requires items != []
    ensures Survives(items, |items| - 1)
    ensures Survives(items, i) ==> 0 <= i < |items|
    ensures Survives(items[..|items| - 1], i) ==> 0 <= i < |items| - 1
    ensures i < |items| - 1 ==>
      (Survives(items, i) <==> Survives(items[..|items| - 1], i) && Apart(items[i].0, items[|items| - 1].0))
  {
  }

  lemma SetLeafHas<V>(leaves: map<Path, V>, parts: Path, val: V, p: Path)
    ensures p in SetLeaf(leaves, parts, val) <==> p == parts || (p in leaves && Apart(p, parts))
    ensures p in SetLeaf(leaves, parts, val) ==> SetLeaf(leaves, parts, val)[p] == if p == parts then val else leaves[p]
  {
  }

  /** Values never lie on one another, and if no two items do, every item's value is found. */
  lemma SetAllLines<V>(items: seq<(Path, V)>)
    ensures forall p, q :: p in SetAll(items) && q in SetAll(items) && p != q ==> Apart(p, q)
    ensures (forall i :: 0 <= i < |items| ==> Survives(items, i)) ==>
      forall i :: 0 <= i < |items| ==> items[i].0 in SetAll(items) && SetAll(items)[items[i].0] == items[i].1
  {
    SetAllMeaning(items);
    forall p, q | p in SetAll(items) && q in SetAll(items) && p != q ensures Apart(p, q) {
      var i :| Survives(items, i) && items[i].0 == p;
      var j :| Survives(items, j) && items[j].0 == q;
      assert if i < j then Apart(items[i].0, items[j].0) else Apart(items[j].0, items[i].0);
    }
  }

  /** The values below a path, by the rest of their paths. */
  ghost function LeavesBelow<V>(leaves: map<Path, V>, p: Path): map<Path, V> {
    map r | r in (set q | q in leaves && p <= q :: q[|p|..]) && p + r in leaves :: leaves[p + r]
  }

  lemma BelowHas<V>(leaves: map<Path, V>, p: Path, r: Path)
    ensures r in LeavesBelow(leaves, p) <==> p + r in leaves
    ensures r in LeavesBelow(leaves, p) ==> LeavesBelow(leaves, p)[r] == leaves[p + r]
  {
    assert (p + r)[|p|..] == r;
  }

  lemma OnLine(p: Path, r: Path, s: Path)
    ensures p + r <= p + s <==> r <= s
  {
    if r <= s {
      assert p + r == (p + s)[..|p + r|];
    }
    if p + r <= p + s {
      assert r == (p + r)[|p|..] == (p + s)[..|p + r|][|p|..] == s[..|r|];
    }
  }

  /** Setting a value below a path is setting it in the part below; setting one apart from the path leaves that part. */
  lemma SetBelow<V>(leaves: map<Path, V>, p: Path, r: Path, val: V)
    ensures LeavesBelow(SetLeaf(leaves, p + r, val), p) == SetLeaf(LeavesBelow(leaves, p), r, val)
  {
    hide LeavesBelow;
    var a, b := LeavesBelow(SetLeaf(leaves, p + r, val), p), SetLeaf(LeavesBelow(leaves, p), r, val);
    forall s ensures (s in a <==> s in b) && (s in a ==> a[s] == b[s]) {
      BelowHas(SetLeaf(leaves, p + r, val), p, s);
      BelowHas(leaves, p, s);
      OnLine(p, r, s);
      OnLine(p, s, r);
      assert s == r <==> p + s == p + r by {
        assert s == (p + s)[|p|..] && r == (p + r)[|p|..];
      }
    }
  }

  lemma SetApart<V>(leaves: map<Path, V>, p: Path, q: Path, val: V)
    requires Apart(p, q)
    ensures LeavesBelow(SetLeaf(leaves, q, val), p) == LeavesBelow(leaves, p)
  {
    hide LeavesBelow;
    var a, b := LeavesBelow(SetLeaf(leaves, q, val), p), LeavesBelow(leaves, p);
    forall s ensures (s in a <==> s in b) && (s in a ==> a[s] == b[s]) {
      BelowHas(SetLeaf(leaves, q, val), p, s);
      BelowHas(leaves, p, s);
      ApartFromBelow(p, q, s);
    }
  }

  lemma ApartFromBelow(p: Path, q: Path, s: Path)
    requires Apart(p, q)
    ensures Apart(p + s, q)
  {
  }
}
