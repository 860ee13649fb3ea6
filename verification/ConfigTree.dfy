/** Configuration trees, and the cut of a tree into the children of an iterate prefix. */
module ConfigTree {
  import Strings

  /** A tree: a value at each path. */
  type Tree<V> = map<string, V>

  predicate Letter(c: char) {
    'a' <= c <= 'z'
  }

  predicate Alphanumeric(c: char) {
    Letter(c) || '0' <= c <= '9'
  }

  predicate ValidSegment(s: string) {
    && s != "" && Letter(s[0]) && Alphanumeric(s[|s| - 1])
    && forall i :: 0 <= i < |s| ==> Alphanumeric(s[i]) || s[i] in "._-"
  }

  /** A segment is made of these characters, starts with a letter and does not end in punctuation. */
  lemma SegmentForm(s: string)
    ensures ValidSegment(s) <==>
            && s != "" && s[0] in "abcdefghijklmnopqrstuvwxyz" && s[|s| - 1] in "abcdefghijklmnopqrstuvwxyz0123456789"
            && forall i :: 0 <= i < |s| ==> s[i] in "abcdefghijklmnopqrstuvwxyz0123456789._-"
  {
    forall c: char
      ensures Letter(c) <==> c in "abcdefghijklmnopqrstuvwxyz"
      ensures Alphanumeric(c) <==> c in "abcdefghijklmnopqrstuvwxyz0123456789"
      ensures Alphanumeric(c) || c in "._-" <==> c in "abcdefghijklmnopqrstuvwxyz0123456789._-"
    {
      CharacterForm(c);
    }
    hide Letter, Alphanumeric;
  }

  lemma CharacterForm(c: char)
    ensures Letter(c) <==> c in "abcdefghijklmnopqrstuvwxyz"
    ensures Alphanumeric(c) <==> c in "abcdefghijklmnopqrstuvwxyz0123456789"
    ensures Alphanumeric(c) || c in "._-" <==> c in "abcdefghijklmnopqrstuvwxyz0123456789._-"
  {
    LetterForm(c);
    DigitForm(c);
    assert "abcdefghijklmnopqrstuvwxyz0123456789" == "abcdefghijklmnopqrstuvwxyz" + "0123456789";
    assert "abcdefghijklmnopqrstuvwxyz0123456789._-" == "abcdefghijklmnopqrstuvwxyz0123456789" + "._-";
  }

  lemma LetterForm(c: char)
    ensures Letter(c) <==> c in "abcdefghijklmnopqrstuvwxyz"
  {
    var letters := "abcdefghijklmnopqrstuvwxyz";
    if Letter(c) { assert letters[c as int - 'a' as int] == c; }
  }

  lemma DigitForm(c: char)
    ensures '0' <= c <= '9' <==> c in "0123456789"
  {
    var digits := "0123456789";
    if '0' <= c <= '9' { assert digits[c as int - '0' as int] == c; }
  }

  predicate ValidPath(path: string) {
    forall seg :: seg in Strings.Split(path, '/') ==> ValidSegment(seg)
  }

  /** Setting a value is refused for an invalid path, so a tree holds valid paths only. */
  ghost predicate ValidTree<V>(tree: Tree<V>) {
    forall path :: path in tree ==> ValidPath(path)
  }

  /** A prefix with a slash at its end. */
  function Slashed(prefix: string): string {
    if Strings.HasSuffix(prefix, "/") then prefix else prefix + "/"
  }

  function FirstSegment(path: string): string {
    Strings.Split(path, '/')[0]
  }

  function ChildNames<V>(tree: Tree<V>, prefix: string): set<string> {
    set path | path in tree && Slashed(prefix) <= path && path != Slashed(prefix) :: FirstSegment(path[|Slashed(prefix)|..])
  }

  /** The name follows the segments of the prefix in some path. */
  ghost predicate Follows<V>(tree: Tree<V>, prefix: string, c: string) {
    exists path :: path in tree && path != prefix + "/" && Strings.Split(prefix, '/') + [c] <= Strings.Split(path, '/')
  }

  /** The children of a prefix are the segments that follow its own in some path. */
  lemma ChildNamesBySegments<V>(tree: Tree<V>, prefix: string, c: string)
    requires !Strings.HasSuffix(prefix, "/")
    ensures c in ChildNames(tree, prefix) <==> Follows(tree, prefix, c)
  {
    hide Strings.Split, FirstSegment;
    forall path | path in tree && path != prefix + "/"
      ensures Strings.Split(prefix, '/') + [c] <= Strings.Split(path, '/') <==>
              prefix + "/" <= path && FirstSegment(path[|prefix| + 1..]) == c
    {
      NextSegment(prefix, path, c);
    }
  }

  lemma NextSegment(prefix: string, path: string, c: string)
    ensures Strings.Split(prefix, '/') + [c] <= Strings.Split(path, '/') <==>
            prefix + "/" <= path && FirstSegment(path[|prefix| + 1..]) == c
  {
    hide Strings.Split;
    var a, b := Strings.Split(prefix, '/'), Strings.Split(path, '/');
    Strings.SplitPrefix(prefix, path, '/');
    OneMore(a, b, c);
    if prefix + "/" <= path {
      SegmentAfter(prefix, path);
    }
  }

  lemma SegmentAfter(prefix: string, path: string)
    requires prefix + "/" <= path
    ensures var a, b := Strings.Split(prefix, '/'), Strings.Split(path, '/');
            |a| < |b| && b[|a|] == FirstSegment(path[|prefix| + 1..])
  {
    hide Strings.Split;
    var rest := path[|prefix| + 1..];
    assert path == prefix + ['/'] + rest;
    Strings.SplitConcat(prefix, rest, '/');
    FirstOfBoth(Strings.Split(prefix, '/'), Strings.Split(rest, '/'));
  }

  lemma OneMore<T>(a: seq<T>, b: seq<T>, c: T)
    ensures a + [c] <= b <==> a <= b && |a| < |b| && b[|a|] == c
  {
    if a <= b && |a| < |b| && b[|a|] == c {
      assert b[..|a| + 1] == a + [c];
    }
    if a + [c] <= b {
      assert b[..|a| + 1] == a + [c] && b[..|a|] == a;
    }
  }

  lemma FirstOfBoth<T>(a: seq<T>, b: seq<T>)
    requires b != []
    ensures (a + b)[|a|] == b[0] && |a + b| > |a|
  {
  }

  function SortedChildren<V>(tree: Tree<V>, prefix: string): seq<string> {
    Strings.Sorted(ChildNames(tree, prefix))
  }

  /** The sorted names of the direct children below a prefix; the tree is listed in no particular order. */
  method DirectChildren<V>(tree: Tree<V>, prefix: string) returns (names: seq<string>)
    ensures names == SortedChildren(tree, prefix)
    ensures Strings.Ascending(names)
    ensures !Strings.HasSuffix(prefix, "/") ==>
              forall c :: c in names <==> Follows(tree, prefix, c)
  {
    hide Follows, Strings.Split, FirstSegment;
    var p := Slashed(prefix);
    var seen: set<string> := {};
    var todo := tree.Keys;
    while todo != {}
      invariant todo <= tree.Keys
      invariant seen == set path | path in tree && path !in todo && p <= path && path != p :: FirstSegment(path[|p|..])
    {
      var path :| path in todo;
      todo := todo - {path};
      if !(p <= path) {
        continue;
      }
      var rest := path[|p|..];
      if rest == "" {
        continue;
      }
      seen := seen + {FirstSegment(rest)};
    }
    assert seen == ChildNames(tree, prefix);
    if !Strings.HasSuffix(prefix, "/") {
      forall c ensures c in seen <==> Follows(tree, prefix, c) { ChildNamesBySegments(tree, prefix, c); }
    }
    names := Strings.Sorted(seen);
  }

  function ChildPrefix(prefix: string, key: string): string {
    prefix + "/" + key + "/"
  }

  function Below<V>(tree: Tree<V>, prefix: string): set<string> {
    set path | path in tree && prefix <= path :: path[|prefix|..]
  }

  /** The subtree below a child, with the leading path stripped. */
  function ChildTree<V>(tree: Tree<V>, prefix: string, key: string): Tree<V> {
    var p := ChildPrefix(prefix, key);
    map rel | rel in Below(tree, p) && ValidPath(rel) && p + rel in tree :: tree[p + rel]
  }

  method MaterializeChildTree<V>(tree: Tree<V>, prefix: string, key: string) returns (child: Tree<V>)
    ensures child == ChildTree(tree, prefix, key)
  {
    var p := ChildPrefix(prefix, key);
    child := map[];
    var todo := tree.Keys;
    while todo != {}
      invariant todo <= tree.Keys
      invariant forall rel :: rel in child <==> p + rel in tree && p + rel !in todo && ValidPath(rel)
      invariant forall rel :: rel in child ==> child[rel] == tree[p + rel]
    {
      var path :| path in todo;
      todo := todo - {path};
      if !(p <= path) {
        continue;
      }
      var rel := path[|p|..];
      assert path == p + rel;
      if ValidPath(rel) {
        child := child[rel := tree[path]];
      }
    }
    forall rel ensures rel in child <==> rel in ChildTree(tree, prefix, key) {
      if rel in child {
        assert (p + rel)[|p|..] == rel;
        assert rel in Below(tree, p);
      }
    }
  }

  lemma TailIsValid(a: string, b: string)
    requires ValidPath(a + "/" + b)
    ensures ValidPath(b) && b != ""
  {
    assert a + "/" + b == a + ['/'] + b;
    Strings.SplitConcat(a, b, '/');
    forall seg | seg in Strings.Split(b, '/') ensures ValidSegment(seg) {
      assert seg in Strings.Split(a, '/') + Strings.Split(b, '/');
    }
    if b == "" {
      assert Strings.Split(b, '/')[0] in Strings.Split(b, '/');
    }
  }

  lemma FirstOf(c: string, rel: string)
    requires '/' !in c
    ensures FirstSegment(c + "/" + rel) == c
  {
    assert c + "/" + rel == c + ['/'] + rel;
    Strings.SplitConcat(c, rel, '/');
    Strings.SplitWhole(c, '/');
  }

  /** Every entry of a child's tree is the entry of the whole tree at the full path. */
  lemma ChildrenAreFaithful<V>(tree: Tree<V>, prefix: string, key: string, rel: string)
    requires rel in ChildTree(tree, prefix, key)
    ensures ChildPrefix(prefix, key) + rel in tree
    ensures ChildTree(tree, prefix, key)[rel] == tree[ChildPrefix(prefix, key) + rel]
  {
  }

  /**
   Every path two or more segments below the prefix is found, with its value, in the tree of exactly one child, which
   is among the direct children.
   */
  lemma ChildrenPartition<V>(tree: Tree<V>, prefix: string, c: string, rel: string)
    requires ValidTree(tree) && !Strings.HasSuffix(prefix, "/") && '/' !in c
    requires ChildPrefix(prefix, c) + rel in tree
    ensures c in ChildNames(tree, prefix)
    ensures rel in ChildTree(tree, prefix, c) && ChildTree(tree, prefix, c)[rel] == tree[ChildPrefix(prefix, c) + rel]
    ensures forall d, r :: '/' !in d && ChildPrefix(prefix, d) + r == ChildPrefix(prefix, c) + rel ==> d == c && r == rel
  {
    var path := ChildPrefix(prefix, c) + rel;
    var s := prefix + "/";
    assert path == s + (c + "/" + rel);
    assert path[|s|..] == c + "/" + rel;
    assert s <= path;
    FirstOf(c, rel);
    assert path == (prefix + "/" + c) + "/" + rel;
    TailIsValid(prefix + "/" + c, rel);
    assert path[|ChildPrefix(prefix, c)|..] == rel;
    assert rel in Below(tree, ChildPrefix(prefix, c));
    forall d, r | '/' !in d && ChildPrefix(prefix, d) + r == path ensures d == c && r == rel {
      assert path == s + (d + "/" + r);
      assert path[|s|..] == d + "/" + r;
      FirstOf(d, r);
    }
  }

  /** A prefix written with a trailing slash finds the children but none of their values. */
  lemma TrailingSlashLosesValues<V>(tree: Tree<V>, prefix: string, key: string)
    requires ValidTree(tree) && Strings.HasSuffix(prefix, "/")
    ensures ChildTree(tree, prefix, key) == map[]
  {
    var p := ChildPrefix(prefix, key);
    forall rel ensures rel !in ChildTree(tree, prefix, key) {
      if rel in ChildTree(tree, prefix, key) {
        var front := prefix[..|prefix| - 1];
        assert prefix == front + "/";
        assert p + rel == front + ['/'] + ("/" + key + "/" + rel);
        Strings.SplitConcat(front, "/" + key + "/" + rel, '/');
        assert "/" + key + "/" + rel == "" + ['/'] + (key + "/" + rel);
        Strings.SplitConcat("", key + "/" + rel, '/');
        assert "" in Strings.Split(p + rel, '/');
      }
    }
  }
}
