/**
 Nested maps built in place. A nested map is a graph of mutable nodes; the index of its directories, from path to
 node, makes it flat enough to reason about.
 */
module NestedMap {
  import opened NestedValues

  datatype Item<V> = Leaf(value: V) | Sub(node: Node<V>)

  class Node<V> {
    var entries: map<string, Item<V>>

    constructor ()
      ensures entries == map[]
    {
      entries := map[];
    }
  }

  type Index<V> = map<Path, Node<V>>

  /** The entries of every directory. */
  type Entries<V> = map<Path, map<string, Item<V>>>

  function Parent(p: Path): Path
    requires p != []
  {
    p[..|p| - 1]
  }

  function Name(p: Path): string
    requires p != []
  {
    p[|p| - 1]
  }

  ghost function Snapshot<V>(dirs: Index<V>): Entries<V>
    reads set p | p in dirs :: dirs[p]
  {
    map p | p in dirs :: dirs[p].entries
  }

  ghost predicate HasItem<V>(all: Entries<V>, p: Path) {
    p != [] && Parent(p) in all && Name(p) in all[Parent(p)]
  }

  ghost function ItemOf<V>(all: Entries<V>, p: Path): Item<V>
    requires HasItem(all, p)
  {
    all[Parent(p)][Name(p)]
  }

  ghost predicate IsSub<V>(all: Entries<V>, p: Path) {
    HasItem(all, p) && ItemOf(all, p).Sub?
  }

  ghost predicate IsLeaf<V>(all: Entries<V>, p: Path) {
    HasItem(all, p) && ItemOf(all, p).Leaf?
  }

  /** Directories are distinct nodes, the sub-maps are exactly the indexed directories, and the root is the root. */
  ghost predicate Shape<V>(root: Node<V>, dirs: Index<V>, all: Entries<V>) {
    && dirs.Keys == all.Keys && [] in dirs && dirs[[]] == root
    && (forall p, q {:trigger dirs[p], dirs[q]} :: p in dirs && q in dirs && dirs[p] == dirs[q] ==> p == q)
    && (forall p {:trigger IsSub(all, p)} :: IsSub(all, p) ==> p in dirs && dirs[p] == ItemOf(all, p).node)
    && (forall p {:trigger dirs[p]} :: p in dirs && p != [] ==> IsSub(all, p))
  }

  /** The values in the map and where they are. */
  ghost predicate Holds<V>(all: Entries<V>, leaves: map<Path, V>) {
    && (forall p :: p in leaves ==> IsLeaf(all, p) && ItemOf(all, p).value == leaves[p])
    && forall p :: IsLeaf(all, p) ==> p in leaves
  }

  /** Two nested maps have the same item, or both none, at a path. */
  ghost predicate SameItem<V>(all: Entries<V>, all': Entries<V>, p: Path) {
    (HasItem(all', p) <==> HasItem(all, p)) && (HasItem(all, p) ==> ItemOf(all', p) == ItemOf(all, p))
  }

  /** No directory but the root is without a value below it. */
  ghost predicate NoneEmpty<V>(dirs: Index<V>, leaves: map<Path, V>) {
    forall p :: p in dirs && p != [] ==> exists q :: q in leaves && p < q
  }

  /** Ancestors of a directory are directories. */
  lemma {:induction false} AncestorIsDir<V>(root: Node<V>, dirs: Index<V>, all: Entries<V>, p: Path, q: Path)
    requires Shape(root, dirs, all) && q in dirs && p <= q
    ensures p in dirs
  {
    if p != q {
      assert dirs[q] == dirs[q] && IsSub(all, q);
      AncestorIsDir(root, dirs, all, p, Parent(q));
    }
  }

  /** A value never lies below another value. */
  lemma LeavesArePrefixFree<V>(root: Node<V>, dirs: Index<V>, all: Entries<V>, leaves: map<Path, V>, p: Path, q: Path)
    requires Shape(root, dirs, all) && Holds(all, leaves) && p in leaves && q in leaves && p <= q
    ensures p == q
  {
    if p != q {
      assert IsLeaf(all, q);
      AncestorIsDir(root, dirs, all, p, Parent(q));
    }
  }

  /** Values on the way to a path give way to directories: those at its first i proper ancestors. */
  ghost function Cleared<V>(leaves: map<Path, V>, parts: Path, i: nat): map<Path, V>
    requires i <= |parts|
  {
    map q | q in leaves && !(q <= parts && |q| <= i) :: leaves[q]
  }

  /** The directories that survive setting a value at parts. */
  ghost function Kept<V>(dirs: Index<V>, parts: Path): Index<V> {
    map p | p in dirs && !(parts <= p) :: dirs[p]
  }

  lemma PrefixOfSnoc(q: Path, p: Path, k: string)
    ensures q <= p + [k] <==> q <= p || q == p + [k]
  {
    if q <= p {
      assert q <= p + [k];
    }
    if q <= p + [k] && q != p + [k] {
      assert q == (p + [k])[..|q|] == p[..|q|];
    }
  }

  lemma Down(parts: Path, i: nat)
    requires i < |parts|
    ensures parts[..i + 1] == parts[..i] + [parts[i]] && parts[..i + 1] != parts[..i]
    ensures Parent(parts[..i + 1]) == parts[..i] && Name(parts[..i + 1]) == parts[i]
  {
  }

  ghost function Without<V>(leaves: map<Path, V>, p: Path): map<Path, V> {
    map q | q in leaves && q != p :: leaves[q]
  }

  lemma ClearedNext<V>(leaves: map<Path, V>, parts: Path, i: nat)
    requires i < |parts|
    ensures Cleared(leaves, parts, i + 1) == Without(Cleared(leaves, parts, i), parts[..i + 1])
  {
    forall r ensures r <= parts && |r| == i + 1 <==> r == parts[..i + 1] {
    }
  }

  /** Only the item at the linked path changed. */
  lemma LinkedItems<V>(all: Entries<V>, p: Path, k: string, n: Node<V>, all': Entries<V>)
    requires p in all && p + [k] !in all
    requires all' == all[p := all[p][k := Sub(n)]][p + [k] := map[]]
    ensures forall r :: r != p + [k] ==> SameItem(all, all', r)
    ensures IsSub(all', p + [k]) && ItemOf(all', p + [k]).node == n
  {
    assert p + [k] != p;
    assert Parent(p + [k]) == p && Name(p + [k]) == k;
    forall r | r != p + [k] ensures SameItem(all, all', r) {
      if r != [] {
        assert r == Parent(r) + [Name(r)];
        if Parent(r) == p + [k] {
          assert !HasItem(all, r);
        }
      }
    }
  }

  /** A fresh directory linked under a name that held no directory keeps the nested map a tree of directories. */
  lemma LinkShape<V>(root: Node<V>, dirs: Index<V>, all: Entries<V>, p: Path, k: string, n: Node<V>, all': Entries<V>)
    requires Shape(root, dirs, all) && p in dirs && !IsSub(all, p + [k])
    requires forall r {:trigger dirs[r]} :: r in dirs ==> dirs[r] != n
    requires all' == all[p := all[p][k := Sub(n)]][p + [k] := map[]]
    ensures p + [k] !in all && Shape(root, dirs[p + [k] := n], all')
  {
    hide HasItem, ItemOf;
    var q, dirs' := p + [k], dirs[p + [k] := n];
    LinkedItems(all, p, k, n, all');
    forall r | IsSub(all', r) ensures r in dirs' && dirs'[r] == ItemOf(all', r).node {
      if r != q { assert SameItem(all, all', r) && IsSub(all, r); }
    }
    forall r | r in dirs' && r != [] ensures IsSub(all', r) {
      if r != q { assert SameItem(all, all', r) && dirs[r] == dirs[r]; }
    }
  }

  /** It takes the place of a value there, if there was one, and no other value moves. */
  lemma LinkLeaves<V>(all: Entries<V>, leaves: map<Path, V>, p: Path, k: string, n: Node<V>, all': Entries<V>)
    requires Holds(all, leaves) && p in all && p + [k] !in all
    requires all' == all[p := all[p][k := Sub(n)]][p + [k] := map[]]
    ensures Holds(all', Without(leaves, p + [k]))
  {
    LinkedItems(all, p, k, n, all');
    forall r ensures IsLeaf(all', r) <==> IsLeaf(all, r) && r != p + [k] {
      assert r != p + [k] ==> SameItem(all, all', r);
    }
    forall r | r in Without(leaves, p + [k]) ensures ItemOf(all', r).value == leaves[r] {
      assert SameItem(all, all', r);
    }
  }

  /** Both, for the next directory on the way to parts. */
  lemma Linked<V>(root: Node<V>, dirs: Index<V>, all: Entries<V>, leaves: map<Path, V>, parts: Path, i: nat, n: Node<V>,
                  all': Entries<V>)
    requires i < |parts| && Shape(root, dirs, all) && Holds(all, leaves)
    requires parts[..i] in dirs && !IsSub(all, parts[..i + 1])
    requires forall r {:trigger dirs[r]} :: r in dirs ==> dirs[r] != n
    requires all'.Keys == all.Keys + {parts[..i + 1]} && all'[parts[..i + 1]] == map[]
    requires forall r :: r in all && r != parts[..i + 1] ==>
               all'[r] == if r == parts[..i] then all[r][parts[i] := Sub(n)] else all[r]
    ensures Shape(root, dirs[parts[..i + 1] := n], all') && Holds(all', Without(leaves, parts[..i + 1]))
  {
    hide HasItem, ItemOf, IsSub, Holds, Without;
    Down(parts, i);
    assert all' == all[parts[..i] := all[parts[..i]][parts[i] := Sub(n)]][parts[..i + 1] := map[]];
    LinkShape(root, dirs, all, parts[..i], parts[i], n, all');
    LinkLeaves(all, leaves, parts[..i], parts[i], n, all');
  }

  lemma ItemAt<V>(all: Entries<V>, parts: Path, i: nat)
    requires i < |parts| && parts[..i] in all
    ensures IsSub(all, parts[..i + 1]) <==> parts[i] in all[parts[..i]] && all[parts[..i]][parts[i]].Sub?
    ensures IsSub(all, parts[..i + 1]) ==> ItemOf(all, parts[..i + 1]) == all[parts[..i]][parts[i]]
  {
    Down(parts, i);
  }

  /** A directory that is already there: no value is in the way. */
  lemma EnterDirectory<V>(root: Node<V>, dirs: Index<V>, all: Entries<V>, leaves: map<Path, V>, q: Path)
    requires Shape(root, dirs, all) && Holds(all, leaves) && IsSub(all, q)
    ensures q in dirs && dirs[q] == ItemOf(all, q).node && Without(leaves, q) == leaves
  {
    assert !IsLeaf(all, q);
  }

  lemma PutItems<V>(all: Entries<V>, parts: Path, val: V)
    requires parts != [] && Parent(parts) in all
    ensures forall r :: !(parts <= r) ==> SameItem(all, PutEntries(all, parts, val), r)
    ensures forall r :: IsSub(PutEntries(all, parts, val), r) ==> !(parts <= r)
    ensures forall r :: IsLeaf(PutEntries(all, parts, val), r) ==> !(parts < r)
    ensures IsLeaf(PutEntries(all, parts, val), parts) && ItemOf(PutEntries(all, parts, val), parts).value == val
  {
    var all' := PutEntries(all, parts, val);
    assert parts == Parent(parts) + [Name(parts)];
    assert !(parts <= Parent(parts));
    forall r | !(parts <= r) ensures SameItem(all, all', r) {
      if r != [] {
        PrefixOfSnoc(parts, Parent(r), Name(r));
        assert r == Parent(r) + [Name(r)];
      }
    }
    forall r | parts < r ensures !HasItem(all', r) {
      PrefixOfSnoc(parts, Parent(r), Name(r));
      assert r == Parent(r) + [Name(r)];
    }
  }

  ghost function PutEntries<V>(all: Entries<V>, parts: Path, val: V): Entries<V>
    requires parts != []
  {
    map p | p in all && !(parts <= p) ::
      if p == Parent(parts) then all[p][Name(parts) := Leaf(val)] else all[p]
  }

  /** A value put in place cuts off the directories below its path with the link to them. */
  lemma PutShape<V>(root: Node<V>, dirs: Index<V>, all: Entries<V>, parts: Path, val: V)
    requires parts != [] && Shape(root, dirs, all) && Parent(parts) in dirs
    ensures Shape(root, Kept(dirs, parts), PutEntries(all, parts, val))
  {
    hide HasItem, ItemOf;
    var dirs', all' := Kept(dirs, parts), PutEntries(all, parts, val);
    PutItems(all, parts, val);
    forall r | IsSub(all', r) ensures r in dirs' && dirs'[r] == ItemOf(all', r).node {
      assert SameItem(all, all', r) && IsSub(all, r);
    }
    forall r | r in dirs' && r != [] ensures IsSub(all', r) {
      assert SameItem(all, all', r) && dirs[r] == dirs[r];
    }
  }

  /** It also replaces every value at or below its path; with those above it cleared, only values off its line stay. */
  lemma PutLeaves<V>(all: Entries<V>, leaves: map<Path, V>, parts: Path, val: V)
    requires parts != [] && Parent(parts) in all && Holds(all, Cleared(leaves, parts, |parts| - 1))
    ensures Holds(PutEntries(all, parts, val), SetLeaf(leaves, parts, val))
  {
    hide HasItem, ItemOf, PutEntries, SetLeaf, Cleared;
    var all', after := PutEntries(all, parts, val), SetLeaf(leaves, parts, val);
    PutItems(all, parts, val);
    forall r | r in after ensures IsLeaf(all', r) && ItemOf(all', r).value == after[r] {
      AfterIsCleared(leaves, parts, val, r);
      if r != parts { assert SameItem(all, all', r) && IsLeaf(all, r); }
    }
    forall r | IsLeaf(all', r) ensures r in after {
      AfterIsCleared(leaves, parts, val, r);
      if r != parts { assert SameItem(all, all', r) && IsLeaf(all, r); }
    }
  }

  lemma AfterIsCleared<V>(leaves: map<Path, V>, parts: Path, val: V, r: Path)
    requires parts != []
    ensures r != parts ==> (r in SetLeaf(leaves, parts, val) <==> r in Cleared(leaves, parts, |parts| - 1) && !(parts <= r))
    ensures parts in SetLeaf(leaves, parts, val) && SetLeaf(leaves, parts, val)[parts] == val
    ensures r != parts && r in SetLeaf(leaves, parts, val) ==>
      SetLeaf(leaves, parts, val)[r] == Cleared(leaves, parts, |parts| - 1)[r]
  {
    if r <= parts && r != parts { assert |r| < |parts|; }
  }

  /**
   Places val at the nested path, walking down from root and creating the maps it needs; a value in the way is
   overwritten by a map.
   */
  method SetNested<V>(root: Node<V>, parts: seq<string>, val: V, ghost dirs: Index<V>, ghost leaves: map<Path, V>)
    returns (ghost dirs': Index<V>)
    requires parts != []
    requires Shape(root, dirs, Snapshot(dirs)) && Holds(Snapshot(dirs), leaves) && NoneEmpty(dirs, leaves)
    modifies set p | p in dirs :: dirs[p]
    ensures Shape(root, dirs', Snapshot(dirs')) && Holds(Snapshot(dirs'), SetLeaf(leaves, parts, val))
    ensures NoneEmpty(dirs', SetLeaf(leaves, parts, val))
    ensures forall p :: p in dirs' ==> (p in dirs && dirs'[p] == dirs[p]) || fresh(dirs'[p])
  {
    hide Shape, Holds, NoneEmpty, Cleared, SetLeaf, Without, PutEntries, IsLeaf, IsSub, HasItem, ItemOf, Snapshot;
    dirs' := dirs;
    RootIsDir(root, dirs, Snapshot(dirs), leaves, parts);
    var m := root;
    var i := 0;
    while i < |parts| - 1
      invariant 0 <= i < |parts| && parts[..i] in dirs' && dirs'[parts[..i]] == m
      invariant Shape(root, dirs', Snapshot(dirs')) && Holds(Snapshot(dirs'), Cleared(leaves, parts, i))
      invariant forall p :: p in dirs' ==> p in dirs || p <= parts
      invariant forall p {:trigger dirs'[p]} :: p in dirs' ==> (p in dirs && dirs'[p] == dirs[p]) || fresh(dirs'[p])
    {
      var part := parts[i];
      ghost var all := Snapshot(dirs');
      SnapshotIs(dirs');
      Down(parts, i);
      ClearedNext(leaves, parts, i);
      OnePath(root, dirs', all, parts[..i]);
      ItemAt(all, parts, i);
      if part in m.entries && m.entries[part].Sub? {
        EnterDirectory(root, dirs', all, Cleared(leaves, parts, i), parts[..i + 1]);
        m := m.entries[part].node;
      } else {
        var child := new Node<V>();
        m.entries := m.entries[part := Sub(child)];
        ghost var more := dirs'[parts[..i + 1] := child];
        SnapshotIs(more);
        Linked(root, dirs', all, Cleared(leaves, parts, i), parts, i, child, Snapshot(more));
        dirs' := more;
        m := child;
      }
      i := i + 1;
    }
    ghost var all := Snapshot(dirs');
    SnapshotIs(dirs');
    Down(parts, i);
    OnePath(root, dirs', all, parts[..i]);
    m.entries := m.entries[parts[i] := Leaf(val)];
    PutShape(root, dirs', all, parts, val);
    PutLeaves(all, leaves, parts, val);
    NoneEmptyAfter(dirs, dirs', leaves, parts, val);
    dirs' := Kept(dirs', parts);
    SnapshotIs(dirs');
    PutSnapshot(all, parts, val, Snapshot(dirs'));
  }

  lemma SnapshotIs<V>(dirs: Index<V>)
    ensures Snapshot(dirs).Keys == dirs.Keys
    ensures forall p :: p in dirs ==> Snapshot(dirs)[p] == dirs[p].entries
  {
  }

  lemma PutSnapshot<V>(all: Entries<V>, parts: Path, val: V, all': Entries<V>)
    requires parts != [] && all'.Keys == set p | p in all && !(parts <= p)
    requires forall p :: p in all' ==>
      all'[p] == if p == Parent(parts) then all[p][Name(parts) := Leaf(val)] else all[p]
    ensures all' == PutEntries(all, parts, val)
  {
  }

  lemma OnePath<V>(root: Node<V>, dirs: Index<V>, all: Entries<V>, p: Path)
    requires Shape(root, dirs, all) && p in dirs
    ensures forall q {:trigger dirs[q]} :: q in dirs && dirs[q] == dirs[p] ==> q == p
  {
  }

  lemma RootIsDir<V>(root: Node<V>, dirs: Index<V>, all: Entries<V>, leaves: map<Path, V>, parts: Path)
    requires Shape(root, dirs, all) && Holds(all, leaves)
    ensures [] in dirs && dirs[[]] == root && Cleared(leaves, parts, 0) == leaves
  {
    assert forall q | q in leaves :: q != [];
  }

  lemma NoneEmptyAfter<V>(dirs: Index<V>, dirs': Index<V>, leaves: map<Path, V>, parts: Path, val: V)
    requires NoneEmpty(dirs, leaves) && forall p :: p in dirs' ==> p in dirs || p <= parts
    ensures NoneEmpty(Kept(dirs', parts), SetLeaf(leaves, parts, val))
  {
    var after := SetLeaf(leaves, parts, val);
    forall p | p in Kept(dirs', parts) && p != [] ensures exists q :: q in after && p < q {
      if p <= parts {
        assert parts in after && p < parts;
      } else {
        var q :| q in leaves && p < q;
        assert q in after && p < q;
      }
    }
  }
}
