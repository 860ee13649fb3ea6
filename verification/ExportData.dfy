/** The data a template sees: all values, those below a prefix, and the same as a nested map. */
module ExportData {
  import opened Wrappers
  import Strings
  import opened NestedValues
  import opened NestedMap
  import opened ConfigTree

  ghost predicate Distinct(paths: seq<string>) {
    forall i, j :: 0 <= i < j < |paths| ==> paths[i] != paths[j]
  }

  /** A listing names every path of the tree once, in any order. */
  ghost predicate Lists<V>(tree: Tree<V>, paths: seq<string>) {
    (forall p :: p in paths <==> p in tree) && Distinct(paths)
  }

  method All<V>(tree: Tree<V>, paths: seq<string>) returns (out: map<string, V>)
    requires Lists(tree, paths)
    ensures out == tree
  {
    out := map[];
    for i := 0 to |paths|
      invariant forall p :: p in out <==> p in paths[..i]
      invariant forall p :: p in out ==> p in tree && out[p] == tree[p]
    {
      if paths[i] in tree {
        out := out[paths[i] := tree[paths[i]]];
      }
    }
    assert paths[..|paths|] == paths;
  }

  /** The key a path gets in the flat map below a prefix; a path with nothing left after the prefix keeps its name. */
  function PrefixKey(path: string, prefix: string): Option<string> {
    var p := Slashed(prefix);
    if !(p <= path) && path != prefix then None
    else
      var key := Strings.TrimPrefix(path, p);
      Some(if key == "" then path else key)
  }

  /** The values strictly below a prefix, by the rest of their paths. */
  ghost function Stripped<V>(tree: Tree<V>, prefix: string): map<string, V> {
    var p := Slashed(prefix);
    map rel | rel in (set path | path in tree && p <= path :: path[|p|..]) && p + rel in tree :: tree[p + rel]
  }

  lemma StrippedHas<V>(tree: Tree<V>, prefix: string, rel: string)
    ensures rel in Stripped(tree, prefix) <==> Slashed(prefix) + rel in tree
    ensures rel in Stripped(tree, prefix) ==> Stripped(tree, prefix)[rel] == tree[Slashed(prefix) + rel]
  {
    var p := Slashed(prefix);
    assert (p + rel)[|p|..] == rel;
  }

  /** The prefix names a group of values, not a value. */
  predicate IsGroup<V>(tree: Tree<V>, prefix: string) {
    prefix !in tree && Slashed(prefix) !in tree
  }

  /** Every path below the prefix has a key, and every key has the value of a path with that key. */
  ghost predicate Flat<V>(tree: Tree<V>, paths: seq<string>, prefix: string, out: map<string, V>) {
    && (forall path :: path in paths && path in tree && PrefixKey(path, prefix).Some? ==>
          PrefixKey(path, prefix).value in out)
    && forall key :: key in out ==> KeyFrom(tree, paths, prefix, key, out[key])
  }

  ghost predicate KeyFrom<V>(tree: Tree<V>, paths: seq<string>, prefix: string, key: string, val: V) {
    exists path :: path in paths && path in tree && PrefixKey(path, prefix) == Some(key) && tree[path] == val
  }

  lemma FlatStep<V>(tree: Tree<V>, front: seq<string>, path: string, prefix: string, out: map<string, V>)
    requires Flat(tree, front, prefix, out)
    ensures path in tree && PrefixKey(path, prefix).Some? ==>
              Flat(tree, front + [path], prefix, out[PrefixKey(path, prefix).value := tree[path]])
    ensures !(path in tree && PrefixKey(path, prefix).Some?) ==> Flat(tree, front + [path], prefix, out)
  {
    hide PrefixKey;
    forall key, val | KeyFrom(tree, front, prefix, key, val) ensures KeyFrom(tree, front + [path], prefix, key, val) {
      var from :| from in front && from in tree && PrefixKey(from, prefix) == Some(key) && tree[from] == val;
      assert from in front + [path];
    }
    if path in tree && PrefixKey(path, prefix).Some? {
      assert path in front + [path];
      assert KeyFrom(tree, front + [path], prefix, PrefixKey(path, prefix).value, tree[path]);
    }
  }

  lemma GroupKey(path: string, prefix: string, rel: string)
    requires path != prefix && path != Slashed(prefix)
    ensures PrefixKey(path, prefix) == Some(rel) <==> path == Slashed(prefix) + rel
  {
    var p := Slashed(prefix);
    if p <= path {
      assert path == p + path[|p|..];
    }
    if path == p + rel {
      assert path[|p|..] == rel;
    }
  }

  lemma FlatGroup<V>(tree: Tree<V>, paths: seq<string>, prefix: string, out: map<string, V>)
    requires Lists(tree, paths) && Flat(tree, paths, prefix, out) && IsGroup(tree, prefix)
    ensures out == Stripped(tree, prefix)
  {
    hide PrefixKey, Stripped;
    forall rel ensures (rel in out <==> rel in Stripped(tree, prefix)) && (rel in out ==> out[rel] == Stripped(tree, prefix)[rel]) {
      StrippedHas(tree, prefix, rel);
      if rel in out {
        assert KeyFrom(tree, paths, prefix, rel, out[rel]);
        var path :| path in tree && PrefixKey(path, prefix) == Some(rel) && tree[path] == out[rel];
        GroupKey(path, prefix, rel);
      }
      var path := Slashed(prefix) + rel;
      if path in tree {
        GroupKey(path, prefix, rel);
      }
    }
  }

  method Prefix<V>(tree: Tree<V>, paths: seq<string>, prefix: string) returns (out: map<string, V>)
    requires Lists(tree, paths)
    ensures Flat(tree, paths, prefix, out)
    ensures IsGroup(tree, prefix) ==> out == Stripped(tree, prefix)
    ensures ValidTree(tree) && !Strings.HasSuffix(prefix, "/") ==> IsBelow(tree, prefix, out)
  {
    hide Flat, Stripped, IsBelow;
    out := map[];
    assert Flat(tree, paths[..0], prefix, out) by { FlatNone(tree, paths, prefix, out); }
    var p := prefix;
    if !Strings.HasSuffix(p, "/") {
      p := p + "/";
    }
    for i := 0 to |paths|
      invariant Flat(tree, paths[..i], prefix, out)
    {
      var path := paths[i];
      assert paths[..i + 1] == paths[..i] + [path];
      FlatStep(tree, paths[..i], path, prefix, out);
      if p <= path || path == prefix {
        if path in tree {
          var key := Strings.TrimPrefix(path, p);
          if key == "" {
            key := path;
          }
          out := out[key := tree[path]];
        }
      }
    }
    assert paths[..|paths|] == paths;
    if IsGroup(tree, prefix) {
      FlatGroup(tree, paths, prefix, out);
    }
    if ValidTree(tree) && !Strings.HasSuffix(prefix, "/") {
      FlatIsBelow(tree, paths, prefix, out);
    }
  }

  /**
   Each value below the prefix is there by the rest of its path, and that of the prefix itself by its whole path; when
   the rest of a path spells the prefix, one of the two is there.
   */
  ghost predicate IsBelow<V>(tree: Tree<V>, prefix: string, out: map<string, V>) {
    && (forall key :: key in out <==> prefix + "/" + key in tree || (key == prefix && prefix in tree))
    && (forall key :: prefix + "/" + key in tree && !(key == prefix && prefix in tree) ==> out[key] == tree[prefix + "/" + key])
    && (prefix in tree && prefix + "/" + prefix !in tree ==> out[prefix] == tree[prefix])
    && (prefix in tree && prefix + "/" + prefix in tree ==> out[prefix] == tree[prefix] || out[prefix] == tree[prefix + "/" + prefix])
  }

  lemma FlatIsBelow<V>(tree: Tree<V>, paths: seq<string>, prefix: string, out: map<string, V>)
    requires Lists(tree, paths) && Flat(tree, paths, prefix, out) && ValidTree(tree) && !Strings.HasSuffix(prefix, "/")
    ensures IsBelow(tree, prefix, out)
  {
    hide PrefixKey, ValidTree;
    NoSlashAtEnd(tree, prefix);
    forall path, key | path in tree
      ensures PrefixKey(path, prefix) == Some(key) <==> path == prefix + "/" + key || (path == prefix && key == prefix)
    {
      KeyOf(path, prefix, key);
    }
    forall key | prefix + "/" + key in tree ensures key in out {
      assert PrefixKey(prefix + "/" + key, prefix) == Some(key);
    }
    if prefix in tree {
      assert PrefixKey(prefix, prefix) == Some(prefix);
    }
    forall key | key in out
      ensures (prefix + "/" + key in tree && out[key] == tree[prefix + "/" + key]) ||
              (key == prefix && prefix in tree && out[key] == tree[prefix])
    {
      assert KeyFrom(tree, paths, prefix, key, out[key]);
    }
  }

  lemma NoSlashAtEnd<V>(tree: Tree<V>, prefix: string)
    requires ValidTree(tree)
    ensures prefix + "/" !in tree
  {
    hide Strings.Split;
    var path := prefix + ['/'] + "";
    assert path == prefix + "/";
    Strings.SplitConcat(prefix, "", '/');
    Strings.SplitWhole("", '/');
    assert "" in Strings.Split(path, '/') by {
      assert Strings.Split(path, '/')[|Strings.Split(prefix, '/')|] == "";
    }
    assert !ValidSegment("") && !ValidPath(path);
  }

  lemma KeyOf(path: string, prefix: string, key: string)
    requires !Strings.HasSuffix(prefix, "/") && path != prefix + "/"
    ensures PrefixKey(path, prefix) == Some(key) <==> path == prefix + "/" + key || (path == prefix && key == prefix)
  {
    var p := prefix + "/";
    if p <= path {
      assert path == p + path[|p|..] && path[|p|..] != "";
      assert path == p + key ==> path[|p|..] == key;
    }
    assert path == p + key ==> p <= path;
  }

  lemma FlatNone<V>(tree: Tree<V>, paths: seq<string>, prefix: string, out: map<string, V>)
    requires out == map[]
    ensures Flat(tree, paths[..0], prefix, out)
  {
  }

  /** Where a path's value goes in the nested map below a prefix. */
  function NestedKey(path: string, prefix: string): Option<Path> {
    if prefix == "" then Some(Strings.Split(path, '/'))
    else
      var p := Slashed(prefix);
      if !(p <= path) && path != prefix then None
      else
        var key := Strings.TrimPrefix(path, p);
        if key == "" then None else Some(Strings.Split(key, '/'))
  }

  /** The values put in place for a listing, in its order. */
  ghost function Items<V>(tree: Tree<V>, paths: seq<string>, prefix: string): seq<(Path, V)> {
    if paths == [] then []
    else
      var path := paths[|paths| - 1];
      var front := Items(tree, paths[..|paths| - 1], prefix);
      if path in tree && NestedKey(path, prefix).Some?
      then front + [(NestedKey(path, prefix).value, tree[path])]
      else front
  }

  /** The values of the nested map by their paths. */
  ghost function Leaves<V>(tree: Tree<V>, paths: seq<string>, prefix: string): map<Path, V> {
    SetAll(Items(tree, paths, prefix))
  }

  lemma ItemsStep<V>(tree: Tree<V>, paths: seq<string>, prefix: string, i: nat)
    requires i < |paths|
    ensures Leaves(tree, paths[..i + 1], prefix) ==
            if paths[i] in tree && NestedKey(paths[i], prefix).Some?
            then SetLeaf(Leaves(tree, paths[..i], prefix), NestedKey(paths[i], prefix).value, tree[paths[i]])
            else Leaves(tree, paths[..i], prefix)
  {
    var all := paths[..i + 1];
    assert all[..i] == paths[..i] && all[i] == paths[i];
    var items := Items(tree, all, prefix);
    if paths[i] in tree && NestedKey(paths[i], prefix).Some? {
      assert items[..|items| - 1] == Items(tree, paths[..i], prefix);
    }
  }

  method Nested<V(!new)>(tree: Tree<V>, paths: seq<string>, prefix: string) returns (root: Node<V>, ghost dirs: Index<V>)
    ensures fresh(root) && forall p :: p in dirs ==> fresh(dirs[p])
    ensures Shape(root, dirs, Snapshot(dirs)) && Holds(Snapshot(dirs), Leaves(tree, paths, prefix))
    ensures NoneEmpty(dirs, Leaves(tree, paths, prefix))
  {
    hide Shape, Holds, NoneEmpty, Items, SetLeaf;
    root := new Node<V>();
    dirs := map[[] := root];
    EmptyMap(root, Snapshot(dirs));
    assert Leaves(tree, paths[..0], prefix) == map[] by { NoItems(tree, paths, prefix); }
    for i := 0 to |paths|
      invariant Shape(root, dirs, Snapshot(dirs)) && Holds(Snapshot(dirs), Leaves(tree, paths[..i], prefix))
      invariant NoneEmpty(dirs, Leaves(tree, paths[..i], prefix))
      invariant fresh(root) && forall p {:trigger dirs[p]} :: p in dirs ==> fresh(dirs[p])
    {
      var path := paths[i];
      ItemsStep(tree, paths, prefix, i);
      ghost var before := Leaves(tree, paths[..i], prefix);
      if prefix != "" {
        var p := prefix;
        if !Strings.HasSuffix(p, "/") {
          p := p + "/";
        }
        if !(p <= path) && path != prefix {
          continue;
        }
        if path !in tree {
          continue;
        }
        var key := Strings.TrimPrefix(path, p);
        if key == "" {
          continue;
        }
        var parts := Strings.Split(key, '/');
        dirs := SetNested(root, parts, tree[path], dirs, before);
      } else {
        if path !in tree {
          continue;
        }
        var parts := Strings.Split(path, '/');
        dirs := SetNested(root, parts, tree[path], dirs, before);
      }
    }
    assert paths[..|paths|] == paths;
  }

  lemma EmptyMap<V(!new)>(root: Node<V>, all: Entries<V>)
    requires all == map[[] := map[]]
    ensures Shape(root, map[[] := root], all) && Holds(all, map[])
    ensures forall leaves: map<Path, V> :: NoneEmpty(map[[] := root], leaves)
  {
  }

  lemma NoItems<V>(tree: Tree<V>, paths: seq<string>, prefix: string)
    ensures Leaves(tree, paths[..0], prefix) == map[]
  {
  }

  /** The item comes from a listed path. */
  ghost predicate ItemFrom<V>(tree: Tree<V>, paths: seq<string>, prefix: string, k: Path, val: V) {
    exists path :: path in paths && path in tree && NestedKey(path, prefix) == Some(k) && tree[path] == val
  }

  /** Every value of the nested map is the value of a path that goes there. */
  lemma {:induction false} LeavesFrom<V>(tree: Tree<V>, paths: seq<string>, prefix: string, k: Path)
    requires k in Leaves(tree, paths, prefix)
    ensures ItemFrom(tree, paths, prefix, k, Leaves(tree, paths, prefix)[k])
  {
    hide NestedKey, SetLeaf, Leaves;
    if paths == [] {
      NoItems(tree, paths, prefix);
    } else {
      var i := |paths| - 1;
      var front := paths[..i];
      ItemsStep(tree, paths, prefix, i);
      assert paths[..i + 1] == paths;
      if paths[i] in tree && NestedKey(paths[i], prefix).Some? {
        SetLeafHas(Leaves(tree, front, prefix), NestedKey(paths[i], prefix).value, tree[paths[i]], k);
      }
      if k in Leaves(tree, front, prefix) {
        LeavesFrom(tree, front, prefix, k);
      }
    }
  }

  /** No two paths go to places on one line. */
  ghost predicate KeysApart<V>(tree: Tree<V>, prefix: string) {
    forall p, q :: p in tree && q in tree && p != q && NestedKey(p, prefix).Some? && NestedKey(q, prefix).Some? ==>
      Apart(NestedKey(p, prefix).value, NestedKey(q, prefix).value)
  }

  /** Then every path's value is in the nested map. */
  lemma {:induction false} LeavesKept<V>(tree: Tree<V>, paths: seq<string>, prefix: string, path: string)
    requires KeysApart(tree, prefix) && path in paths && path in tree && NestedKey(path, prefix).Some?
    ensures NestedKey(path, prefix).value in Leaves(tree, paths, prefix)
    ensures Leaves(tree, paths, prefix)[NestedKey(path, prefix).value] == tree[path]
  {
    hide NestedKey, SetLeaf, Leaves;
    var i := |paths| - 1;
    var front, k := paths[..i], NestedKey(path, prefix).value;
    ItemsStep(tree, paths, prefix, i);
    assert paths[..i + 1] == paths;
    if paths[i] in tree && NestedKey(paths[i], prefix).Some? {
      SetLeafHas(Leaves(tree, front, prefix), NestedKey(paths[i], prefix).value, tree[paths[i]], k);
    }
    if path != paths[i] {
      LeavesKept(tree, front, prefix, path);
    }
  }

  /** No path lies below another. */
  ghost predicate PrefixFree<V>(tree: Tree<V>) {
    forall p, q :: p in tree && q in tree ==> !(p + "/" <= q)
  }

  lemma ApartParts(p: string, q: string)
    ensures Apart(Strings.Split(p, '/'), Strings.Split(q, '/')) <==> p != q && !(p + "/" <= q) && !(q + "/" <= p)
  {
    hide Strings.Split;
    Strings.SplitPrefix(p, q, '/');
    Strings.SplitPrefix(q, p, '/');
  }

  /** The values back under slash-separated paths. */
  ghost function Flatten<V>(leaves: map<Path, V>): map<string, V> {
    map s | s in (set k | k in leaves && k != [] :: Strings.Join(k, '/')) && Strings.Split(s, '/') in leaves ::
      leaves[Strings.Split(s, '/')]
  }

  lemma FlattenHas<V>(leaves: map<Path, V>, s: string)
    ensures s in Flatten(leaves) <==> Strings.Split(s, '/') in leaves
    ensures s in Flatten(leaves) ==> Flatten(leaves)[s] == leaves[Strings.Split(s, '/')]
  {
    hide Strings.Split, Strings.Join;
    Strings.JoinSplit(s, '/');
  }

  lemma SplitInjective(p: string, q: string)
    ensures Strings.Split(p, '/') == Strings.Split(q, '/') <==> p == q
  {
    Strings.JoinSplit(p, '/');
    Strings.JoinSplit(q, '/');
  }

  lemma WholeKey(path: string)
    ensures NestedKey(path, "") == Some(Strings.Split(path, '/'))
  {
  }

  lemma WholeApart<V>(tree: Tree<V>)
    ensures KeysApart(tree, "") <==> PrefixFree(tree)
  {
    hide NestedKey, Strings.Split;
    forall p ensures NestedKey(p, "").Some? { WholeKey(p); }
    forall p, q | p in tree && q in tree && p != q
      ensures Apart(NestedKey(p, "").value, NestedKey(q, "").value) <==> !(p + "/" <= q) && !(q + "/" <= p)
    {
      WholeKey(p);
      WholeKey(q);
      ApartParts(p, q);
    }
    if KeysApart(tree, "") {
      forall p, q | p in tree && q in tree ensures !(p + "/" <= q) {
        if p != q { assert Apart(NestedKey(p, "").value, NestedKey(q, "").value); }
      }
    }
  }

  /** The nested map of a whole tree, flattened, is the flat map exactly if no path lies below another. */
  lemma FlattenedIsAllIffPrefixFree<V>(tree: Tree<V>, paths: seq<string>)
    requires Lists(tree, paths)
    ensures Flatten(Leaves(tree, paths, "")) == tree <==> PrefixFree(tree)
  {
    hide NestedKey, Strings.Split, Leaves, Flatten, PrefixFree, Apart, KeysApart;
    var leaves := Leaves(tree, paths, "");
    WholeApart(tree);
    if PrefixFree(tree) {
      forall s ensures (s in Flatten(leaves) <==> s in tree) && (s in tree ==> Flatten(leaves)[s] == tree[s]) {
        FlattenHas(leaves, s);
        WholeKey(s);
        if s in tree { LeavesKept(tree, paths, "", s); }
        if Strings.Split(s, '/') in leaves { WholeFrom(tree, paths, s); }
      }
    }
    if Flatten(leaves) == tree {
      forall s | s in tree ensures Strings.Split(s, '/') in leaves { FlattenHas(leaves, s); }
      AllHere(tree, paths);
    }
  }

  lemma WholeFrom<V>(tree: Tree<V>, paths: seq<string>, s: string)
    requires Strings.Split(s, '/') in Leaves(tree, paths, "")
    ensures s in tree && Leaves(tree, paths, "")[Strings.Split(s, '/')] == tree[s]
  {
    hide NestedKey, Strings.Split, Leaves;
    var k := Strings.Split(s, '/');
    LeavesFrom(tree, paths, "", k);
    var path :| path in paths && path in tree && NestedKey(path, "") == Some(k) && tree[path] == Leaves(tree, paths, "")[k];
    WholeKey(path);
    SplitInjective(path, s);
  }

  lemma AllHere<V>(tree: Tree<V>, paths: seq<string>)
    requires forall s :: s in tree ==> Strings.Split(s, '/') in Leaves(tree, paths, "")
    ensures PrefixFree(tree)
  {
    hide NestedKey, Strings.Split, Leaves, Apart;
    forall p, q | p in tree && q in tree ensures !(p + "/" <= q) {
      if p + "/" <= q {
        SplitInjective(p, q);
        ApartLeaves(tree, paths, "", Strings.Split(p, '/'), Strings.Split(q, '/'));
        ApartParts(p, q);
      }
    }
  }

  /** Whatever the paths and their order, values of a nested map do not lie on one another. */
  lemma ApartLeaves<V>(tree: Tree<V>, paths: seq<string>, prefix: string, k: Path, l: Path)
    requires k in Leaves(tree, paths, prefix) && l in Leaves(tree, paths, prefix) && k != l
    ensures Apart(k, l)
  {
    SetAllLines(Items(tree, paths, prefix));
  }

  /** What is listed last is kept. */
  lemma LastIsKept<V>(tree: Tree<V>, front: seq<string>, path: string)
    requires path in tree
    ensures Strings.Split(path, '/') in Leaves(tree, front + [path], "")
  {
    hide NestedKey, Strings.Split, Leaves, SetLeaf;
    var paths := front + [path];
    ItemsStep(tree, paths, "", |front|);
    assert paths[..|front| + 1] == paths;
    WholeKey(path);
    SetLeafHas(Leaves(tree, paths[..|front|], ""), Strings.Split(path, '/'), tree[path], Strings.Split(path, '/'));
  }

  /** The nested map of a whole tree does not depend on the listing order exactly if no path lies below another. */
  lemma OrderIrrelevantIffPrefixFree<V>(tree: Tree<V>)
    ensures (forall a, b :: Lists(tree, a) && Lists(tree, b) ==> Leaves(tree, a, "") == Leaves(tree, b, "")) <==>
            PrefixFree(tree)
  {
    hide NestedKey, Strings.Split, Leaves, PrefixFree, Apart, KeysApart;
    WholeApart(tree);
    if PrefixFree(tree) {
      forall a, b | Lists(tree, a) && Lists(tree, b) ensures Leaves(tree, a, "") == Leaves(tree, b, "") {
        forall k ensures k in Leaves(tree, a, "") ==> k in Leaves(tree, b, "") && Leaves(tree, a, "")[k] == Leaves(tree, b, "")[k] {
          if k in Leaves(tree, a, "") { KeptInAny(tree, a, b, k); }
        }
        forall k ensures k in Leaves(tree, b, "") ==> k in Leaves(tree, a, "") {
          if k in Leaves(tree, b, "") { KeptInAny(tree, b, a, k); }
        }
      }
    } else {
      var a, b := OrderMatters(tree);
      assert Lists(tree, a) && Lists(tree, b) && Leaves(tree, a, "") != Leaves(tree, b, "");
    }
  }

  lemma KeptInAny<V>(tree: Tree<V>, a: seq<string>, b: seq<string>, k: Path)
    requires Lists(tree, a) && Lists(tree, b) && KeysApart(tree, "") && k in Leaves(tree, a, "")
    ensures k in Leaves(tree, b, "") && Leaves(tree, a, "")[k] == Leaves(tree, b, "")[k]
  {
    hide NestedKey, Leaves, KeysApart;
    LeavesFrom(tree, a, "", k);
    var path :| path in a && path in tree && NestedKey(path, "") == Some(k) && tree[path] == Leaves(tree, a, "")[k];
    LeavesKept(tree, b, "", path);
  }

  /** A value and one below it: the one listed later wins. */
  lemma OrderMatters<V>(tree: Tree<V>) returns (a: seq<string>, b: seq<string>)
    requires !PrefixFree(tree)
    ensures Lists(tree, a) && Lists(tree, b) && Leaves(tree, a, "") != Leaves(tree, b, "")
  {
    hide NestedKey, Strings.Split, Leaves, Apart, Lists;
    var p, q :| p in tree && q in tree && p + "/" <= q;
    var rest := Strings.Sorted(tree.Keys - {p, q});
    a, b := rest + [p] + [q], rest + [q] + [p];
    ListedWith(tree, p, q);
    ListedWith(tree, q, p);
    assert {p, q} == {q, p};
    LastIsKept(tree, rest + [p], q);
    LastIsKept(tree, rest + [q], p);
    SplitInjective(p, q);
    ApartParts(p, q);
    if Leaves(tree, a, "") == Leaves(tree, b, "") {
      ApartLeaves(tree, a, "", Strings.Split(p, '/'), Strings.Split(q, '/'));
    }
  }

  lemma ListedWith<V>(tree: Tree<V>, p: string, q: string)
    requires p in tree && q in tree && p != q
    ensures Lists(tree, Strings.Sorted(tree.Keys - {p, q}) + [p] + [q])
  {
    hide Distinct, Strings.Sorted;
    var rest := Strings.Sorted(tree.Keys - {p, q});
    SortedDistinct(tree.Keys - {p, q});
    DistinctSnoc(rest, p);
    DistinctSnoc(rest + [p], q);
  }

  lemma SortedDistinct(s: set<string>)
    ensures Distinct(Strings.Sorted(s))
  {
    hide Strings.Leq;
  }

  lemma DistinctSnoc(paths: seq<string>, p: string)
    requires Distinct(paths) && p !in paths
    ensures Distinct(paths + [p])
  {
  }

  /** No path lies above the prefix. */
  ghost predicate NoneAbove<V>(tree: Tree<V>, prefix: string) {
    forall q :: q in tree ==> !(q + "/" <= prefix)
  }

  lemma GroupKeys(path: string, prefix: string)
    requires prefix != "" && !Strings.HasSuffix(prefix, "/") && path != prefix && path != prefix + "/"
    ensures prefix + "/" <= path ==>
              NestedKey(path, prefix).Some? &&
              Strings.Split(path, '/') == Strings.Split(prefix, '/') + NestedKey(path, prefix).value
    ensures !(prefix + "/" <= path) ==> NestedKey(path, prefix) == None
    ensures NestedKey(path, prefix + "/") == NestedKey(path, prefix)
  {
    hide Strings.Split;
    var p := prefix + "/";
    if p <= path {
      var rel := path[|p|..];
      assert path == prefix + ['/'] + rel;
      Strings.SplitConcat(prefix, rel, '/');
    }
  }

  /** For a group with no path above it, the nested map of the group is the part of the whole nested map below it. */
  lemma {:induction false} SubtreeOfWhole<V>(tree: Tree<V>, paths: seq<string>, prefix: string)
    requires prefix != "" && !Strings.HasSuffix(prefix, "/") && IsGroup(tree, prefix) && NoneAbove(tree, prefix)
    ensures Leaves(tree, paths, prefix) == LeavesBelow(Leaves(tree, paths, ""), Strings.Split(prefix, '/'))
  {
    hide NestedKey, Strings.Split, Leaves, SetLeaf, LeavesBelow, Apart;
    var at := Strings.Split(prefix, '/');
    if paths == [] {
      assert paths[..0] == [];
      NoItems(tree, paths, prefix);
      NoItems(tree, paths, "");
      BelowNone<V>(at);
    } else {
      var i := |paths| - 1;
      var front, path := paths[..i], paths[i];
      SubtreeOfWhole(tree, front, prefix);
      ItemsStep(tree, paths, prefix, i);
      ItemsStep(tree, paths, "", i);
      assert paths[..i + 1] == paths;
      if path in tree {
        WholeKey(path);
        GroupKeys(path, prefix);
        if prefix + "/" <= path {
          SetBelow(Leaves(tree, front, ""), at, NestedKey(path, prefix).value, tree[path]);
        } else {
          ApartParts(prefix, path);
          SetApart(Leaves(tree, front, ""), at, Strings.Split(path, '/'), tree[path]);
        }
      }
    }
  }

  lemma BelowNone<V>(p: Path)
    ensures LeavesBelow<V>(map[], p) == map[]
  {
  }

  /** A slash at the end of a group's name changes nothing. */
  lemma {:induction false} SlashIsImmaterial<V>(tree: Tree<V>, paths: seq<string>, prefix: string)
    requires prefix != "" && !Strings.HasSuffix(prefix, "/") && IsGroup(tree, prefix)
    ensures Items(tree, paths, prefix + "/") == Items(tree, paths, prefix)
  {
    hide NestedKey;
    if paths != [] {
      var path := paths[|paths| - 1];
      SlashIsImmaterial(tree, paths[..|paths| - 1], prefix);
      if path in tree { GroupKeys(path, prefix); }
    }
  }

  /** For paths that do not lie on one another, the nested map of a group, flattened, is the group's flat map. */
  lemma FlattenedGroup<V>(tree: Tree<V>, paths: seq<string>, prefix: string)
    requires Lists(tree, paths) && PrefixFree(tree)
    requires prefix != "" && !Strings.HasSuffix(prefix, "/") && IsGroup(tree, prefix)
    ensures Flatten(Leaves(tree, paths, prefix)) == Stripped(tree, prefix)
  {
    hide NestedKey, Strings.Split, Leaves, Flatten, Stripped, Apart, KeysApart;
    var leaves := Leaves(tree, paths, prefix);
    GroupApart(tree, prefix);
    forall s ensures (s in Flatten(leaves) <==> s in Stripped(tree, prefix)) &&
                     (s in Stripped(tree, prefix) ==> Flatten(leaves)[s] == Stripped(tree, prefix)[s])
    {
      FlattenHas(leaves, s);
      StrippedHas(tree, prefix, s);
      var path := prefix + "/" + s;
      if path in tree {
        RelKey(path, prefix, s);
        LeavesKept(tree, paths, prefix, path);
      }
      if Strings.Split(s, '/') in leaves {
        LeavesFrom(tree, paths, prefix, Strings.Split(s, '/'));
        var from :| from in tree && NestedKey(from, prefix) == Some(Strings.Split(s, '/'));
        RelKey(from, prefix, s);
      }
    }
  }

  lemma RelKey(path: string, prefix: string, s: string)
    requires prefix != "" && !Strings.HasSuffix(prefix, "/") && path != prefix && path != prefix + "/"
    ensures NestedKey(path, prefix) == Some(Strings.Split(s, '/')) <==> path == prefix + "/" + s
  {
    hide Strings.Split;
    var p := prefix + "/";
    if p <= path {
      SplitInjective(path[|p|..], s);
      assert path == p + path[|p|..];
      assert path[|p|..] != "";
    }
    if path == p + s {
      assert path[|p|..] == s;
    }
  }

  lemma GroupApart<V>(tree: Tree<V>, prefix: string)
    requires PrefixFree(tree) && prefix != "" && !Strings.HasSuffix(prefix, "/") && IsGroup(tree, prefix)
    ensures KeysApart(tree, prefix)
  {
    hide NestedKey, Strings.Split;
    forall p, q | p in tree && q in tree && p != q && NestedKey(p, prefix).Some? && NestedKey(q, prefix).Some?
      ensures Apart(NestedKey(p, prefix).value, NestedKey(q, prefix).value)
    {
      GroupKeys(p, prefix);
      GroupKeys(q, prefix);
      ApartParts(p, q);
      OnLine(Strings.Split(prefix, '/'), NestedKey(p, prefix).value, NestedKey(q, prefix).value);
      OnLine(Strings.Split(prefix, '/'), NestedKey(q, prefix).value, NestedKey(p, prefix).value);
    }
  }

  /** So is it for any group when paths do not lie on one another. */
  lemma SubtreeOfPrefixFree<V>(tree: Tree<V>, paths: seq<string>, prefix: string)
    requires Lists(tree, paths) && PrefixFree(tree)
    requires prefix != "" && !Strings.HasSuffix(prefix, "/") && IsGroup(tree, prefix)
    ensures Leaves(tree, paths, prefix) == LeavesBelow(Leaves(tree, paths, ""), Strings.Split(prefix, '/'))
  {
    hide NestedKey, Strings.Split, Leaves, LeavesBelow, Apart, KeysApart, PrefixFree;
    var at, group, whole := Strings.Split(prefix, '/'), Leaves(tree, paths, prefix), Leaves(tree, paths, "");
    GroupApart(tree, prefix);
    WholeApart(tree);
    forall k ensures (k in group <==> at + k in whole) && (k in group ==> group[k] == whole[at + k]) {
      if k in group {
        LeavesFrom(tree, paths, prefix, k);
        var path :| path in tree && NestedKey(path, prefix) == Some(k) && tree[path] == group[k];
        GroupKeys(path, prefix);
        WholeKey(path);
        LeavesKept(tree, paths, "", path);
      }
      if at + k in whole {
        LeavesFrom(tree, paths, "", at + k);
        var path :| path in tree && NestedKey(path, "") == Some(at + k);
        WholeKey(path);
        GroupKeys(path, prefix);
        assert at <= Strings.Split(path, '/');
        Strings.SplitPrefix(prefix, path, '/');
        assert (at + k)[|at|..] == k && (at + NestedKey(path, prefix).value)[|at|..] == NestedKey(path, prefix).value;
        LeavesKept(tree, paths, prefix, path);
      }
    }
    forall k ensures (k in group <==> k in LeavesBelow(whole, at)) && (k in group ==> group[k] == LeavesBelow(whole, at)[k]) {
      BelowHas(whole, at, k);
    }
  }

  /** A prefix that is itself a path does not give an empty map: its value turns up under the whole path. */
  lemma PathItselfIsNested<V>(tree: Tree<V>, paths: seq<string>, prefix: string)
    requires Lists(tree, paths) && PrefixFree(tree) && prefix in tree
    requires prefix != "" && !Strings.HasSuffix(prefix, "/")
    ensures Leaves(tree, paths, prefix) == map[Strings.Split(prefix, '/') := tree[prefix]]
  {
    hide Strings.Split, Leaves;
    forall path | path in tree && NestedKey(path, prefix).Some? ensures path == prefix {}
    assert NestedKey(prefix, prefix) == Some(Strings.Split(prefix, '/'));
    LeavesKept(tree, paths, prefix, prefix);
    forall k | k in Leaves(tree, paths, prefix) ensures k == Strings.Split(prefix, '/') {
      LeavesFrom(tree, paths, prefix, k);
    }
  }

  /** The empty prefix nests everything, yet its flat map is empty: no valid path starts with a slash. */
  lemma EmptyPrefixIsEmpty<V>(tree: Tree<V>)
    requires ValidTree(tree)
    ensures IsGroup(tree, "") && Stripped(tree, "") == map[]
  {
    forall path | path in tree ensures !("/" <= path) && path != "" {
      var parts := Strings.Split(path, '/');
      assert parts[0] in parts;
    }
    forall rel ensures rel !in Stripped(tree, "") {
      StrippedHas(tree, "", rel);
      assert "/" <= "/" + rel;
    }
  }
}
