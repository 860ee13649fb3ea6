/** File paths with slashes, as `filepath.Clean` and `filepath.Join` treat them on Unix. */
module Paths {
  import Strings

  predicate Rooted(path: string) {
    path != "" && path[0] == '/'
  }

  /** One more segment after those kept so far: `..` takes back the last one, where there is one to take back. */
  function Walk(rooted: bool, kept: seq<string>, seg: string): seq<string> {
    if seg == "" || seg == "." then kept
    else if seg != ".." then kept + [seg]
    else if kept != [] && kept[|kept| - 1] != ".." then kept[..|kept| - 1]
    else if rooted then kept
    else kept + [".."]
  }

  function WalkAll(rooted: bool, kept: seq<string>, segs: seq<string>): seq<string>
    decreases |segs|
  {
    if segs == [] then kept else WalkAll(rooted, Walk(rooted, kept, segs[0]), segs[1..])
  }

  /** The segments that lead to where the path leads. */
  function Segments(path: string): seq<string> {
    WalkAll(Rooted(path), [], Strings.Split(path, '/'))
  }

  function Spelled(rooted: bool, segs: seq<string>): string {
    if segs == [] then (if rooted then "/" else ".")
    else if rooted then "/" + Strings.Join(segs, '/')
    else Strings.Join(segs, '/')
  }

  /** The shortest spelling of a path. */
  function Clean(path: string): string {
    Spelled(Rooted(path), Segments(path))
  }

  function Join(dir: string, name: string): string {
    if dir == "" && name == "" then ""
    else if dir == "" then Clean(name)
    else if name == "" then Clean(dir)
    else Clean(dir + "/" + name)
  }

  /** A single name, that leads one step down. */
  predicate Plain(name: string) {
    name != "" && name != "." && name != ".." && '/' !in name
  }

  /** The path lies in the directory, or is it. */
  predicate Within(dir: string, path: string) {
    Rooted(dir) == Rooted(path) && Segments(dir) <= Segments(path)
  }

  /** A path with a `..` segment. */
  predicate HasTraversal(path: string) {
    ".." in Strings.Split(path, '/')
  }

  /** What can be kept: plain names, after a number of `..` that a rooted path has none of. */
  predicate Normal(rooted: bool, kept: seq<string>) {
    && (forall i :: 0 <= i < |kept| ==> Plain(kept[i]) || (kept[i] == ".." && !rooted))
    && forall i, j :: 0 <= i < j < |kept| && kept[j] == ".." ==> kept[i] == ".."
  }

  lemma WalkIsNormal(rooted: bool, kept: seq<string>, seg: string)
    requires Normal(rooted, kept) && '/' !in seg
    ensures Normal(rooted, Walk(rooted, kept, seg))
  {
  }

  lemma {:induction false} WalkAllIsNormal(rooted: bool, kept: seq<string>, segs: seq<string>)
    requires Normal(rooted, kept) && forall s :: s in segs ==> '/' !in s
    ensures Normal(rooted, WalkAll(rooted, kept, segs))
    decreases |segs|
  {
    hide Normal, Walk;
    if segs != [] {
      WalkIsNormal(rooted, kept, segs[0]);
      WalkAllIsNormal(rooted, Walk(rooted, kept, segs[0]), segs[1..]);
    }
  }

  lemma SegmentsAreNormal(path: string)
    ensures Normal(Rooted(path), Segments(path))
  {
    forall s | s in Strings.Split(path, '/') ensures '/' !in s {
      var i :| 0 <= i < |Strings.Split(path, '/')| && Strings.Split(path, '/')[i] == s;
      Strings.SplitFree(path, '/', i);
    }
    hide Strings.Split;
    WalkAllIsNormal(Rooted(path), [], Strings.Split(path, '/'));
  }

  lemma {:induction false} WalkConcat(rooted: bool, kept: seq<string>, a: seq<string>, b: seq<string>)
    ensures WalkAll(rooted, kept, a + b) == WalkAll(rooted, WalkAll(rooted, kept, a), b)
    decreases |a|
  {
    hide Walk;
    if a == [] {
      assert a + b == b;
    } else {
      assert (a + b)[1..] == a[1..] + b;
      WalkConcat(rooted, Walk(rooted, kept, a[0]), a[1..], b);
    }
  }

  /** Normal segments are all kept. */
  lemma {:induction false} WalkNormal(rooted: bool, kept: seq<string>, segs: seq<string>)
    requires Normal(rooted, kept + segs)
    ensures WalkAll(rooted, kept, segs) == kept + segs
    decreases |segs|
  {
    if segs != [] {
      assert (kept + segs)[|kept|] == segs[0];
      assert kept != [] ==> (kept + segs)[|kept| - 1] == kept[|kept| - 1];
      assert Walk(rooted, kept, segs[0]) == kept + [segs[0]];
      assert kept + segs == (kept + [segs[0]]) + segs[1..];
      WalkNormal(rooted, kept + [segs[0]], segs[1..]);
    }
  }

  lemma SpelledSplit(rooted: bool, segs: seq<string>)
    requires Normal(rooted, segs) && segs != []
    ensures Rooted(Spelled(rooted, segs)) == rooted
    ensures Strings.Split(Spelled(rooted, segs), '/') == if rooted then [""] + segs else segs
  {
    hide Strings.Split, Strings.Join, Plain;
    forall i | 0 <= i < |segs| ensures segs[i] != "" && '/' !in segs[i] { NormalSegment(rooted, segs, i); }
    Strings.SplitJoin(segs, '/');
    StartsWithFirst(segs);
    if rooted {
      SplitSmall();
      var s := Strings.Join(segs, '/');
      assert "/" + s == "" + ['/'] + s;
      Strings.SplitConcat("", s, '/');
    }
  }

  /** A spelling leads where its segments do. */
  lemma SpelledSegments(rooted: bool, segs: seq<string>)
    requires Normal(rooted, segs)
    ensures Rooted(Spelled(rooted, segs)) == rooted && Segments(Spelled(rooted, segs)) == segs
  {
    hide Strings.Split, Spelled, Plain, Normal;
    if segs == [] {
      SpelledNothing(rooted);
    } else {
      SpelledSplit(rooted, segs);
      assert [] + segs == segs;
      WalkNormal(rooted, [], segs);
      assert Walk(rooted, [], "") == [];
      WalkConcat(rooted, [], [""], segs);
    }
  }

  lemma SpelledNothing(rooted: bool)
    ensures Rooted(Spelled(rooted, [])) == rooted && Segments(Spelled(rooted, [])) == []
  {
    hide Segments;
    SplitSmall();
  }

  lemma NormalSegment(rooted: bool, segs: seq<string>, i: nat)
    requires Normal(rooted, segs) && i < |segs|
    ensures segs[i] != "" && segs[i] != "." && '/' !in segs[i] && (rooted ==> segs[i] != "..")
  {
  }

  lemma SplitSmall()
    ensures Strings.Split("", '/') == [""] && Strings.Split("/", '/') == ["", ""] && Strings.Split(".", '/') == ["."]
    ensures Segments("/") == [] && Segments(".") == [] && Rooted("/") && !Rooted(".")
  {
    assert "/"[1..] == "" && "."[1..] == "" && "."[0] != '/';
    assert Strings.Split(".", '/') == [["."[0]] + [""][0]] + [""][1..];
    assert ["."[0]] + "" == ".";
  }

  lemma StartsWithFirst(segs: seq<string>)
    requires segs != [] && segs[0] != "" && '/' !in segs[0]
    ensures Strings.Join(segs, '/') != "" && Strings.Join(segs, '/')[0] == segs[0][0] && !Rooted(Strings.Join(segs, '/'))
  {
  }

  /** Cleaning changes the spelling only. */
  lemma CleanLeadsThere(path: string)
    ensures Rooted(Clean(path)) == Rooted(path) && Segments(Clean(path)) == Segments(path)
  {
    hide Segments, Spelled, Rooted;
    SegmentsAreNormal(path);
    SpelledSegments(Rooted(path), Segments(path));
  }

  lemma CleanIsClean(path: string)
    ensures Clean(Clean(path)) == Clean(path)
  {
    hide Segments, Spelled;
    CleanLeadsThere(path);
  }

  lemma JoinedSegments(dir: string, name: string)
    requires dir != "" && name != ""
    ensures Rooted(Join(dir, name)) == Rooted(dir)
    ensures Segments(Join(dir, name)) == WalkAll(Rooted(dir), Segments(dir), Strings.Split(name, '/'))
  {
    hide Strings.Split, Clean, WalkAll;
    var path := dir + "/" + name;
    CleanLeadsThere(path);
    assert path == dir + ['/'] + name && path[0] == dir[0];
    Strings.SplitConcat(dir, name, '/');
    WalkConcat(Rooted(dir), [], Strings.Split(dir, '/'), Strings.Split(name, '/'));
  }

  /** A plain name lies directly in the directory it is joined to. */
  lemma JoinedName(dir: string, name: string)
    requires dir != "" && Plain(name)
    ensures Rooted(Join(dir, name)) == Rooted(dir) && Segments(Join(dir, name)) == Segments(dir) + [name]
  {
    hide Segments, Join, Strings.Split;
    JoinedSegments(dir, name);
    Strings.SplitWhole(name, '/');
    assert WalkAll(Rooted(dir), Segments(dir), [name]) == Segments(dir) + [name];
  }

  lemma PlainSegments(name: string)
    requires Plain(name)
    ensures Segments(name) == [name] && !Rooted(name)
  {
    hide Strings.Split;
    Strings.SplitWhole(name, '/');
    assert name[0] in name;
    assert WalkAll(false, [], [name]) == [name];
  }

  lemma {:induction false} WalkDown(rooted: bool, kept: seq<string>, segs: seq<string>)
    requires ".." !in segs
    ensures kept <= WalkAll(rooted, kept, segs)
    decreases |segs|
  {
    if segs != [] {
      assert segs[0] in segs;
      WalkDown(rooted, Walk(rooted, kept, segs[0]), segs[1..]);
    }
  }

  /** Without `..` in it, a joined path lies within the directory. */
  lemma JoinedIsWithin(dir: string, name: string)
    requires dir != "" && !HasTraversal(name)
    ensures Within(dir, Join(dir, name))
  {
    hide Segments, Strings.Split, WalkAll, Rooted;
    if name == "" {
      CleanLeadsThere(dir);
    } else {
      JoinedSegments(dir, name);
      WalkDown(Rooted(dir), Segments(dir), Strings.Split(name, '/'));
    }
  }

  /** A clean path has a `..` segment exactly if it leads above where it starts, which a rooted path never does. */
  lemma CleanTraversal(path: string)
    ensures HasTraversal(Clean(path)) <==> Segments(path) != [] && Segments(path)[0] == ".."
    ensures HasTraversal(Clean(path)) ==> !Rooted(path)
  {
    hide Segments, Strings.Split, Strings.Join;
    var segs, rooted := Segments(path), Rooted(path);
    SegmentsAreNormal(path);
    if segs == [] {
      SplitSmall();
    } else {
      SpelledSplit(rooted, segs);
      if ".." in segs {
        var j :| 0 <= j < |segs| && segs[j] == "..";
        NormalStart(rooted, segs, j);
      }
    }
  }

  lemma NormalStart(rooted: bool, segs: seq<string>, j: nat)
    requires Normal(rooted, segs) && j < |segs| && segs[j] == ".."
    ensures segs[0] == ".." && !rooted
  {
  }

  /** An absolute workspace makes every joined path free of `..`, wherever it leads. */
  lemma JoinHidesTraversal(dir: string, name: string)
    requires Rooted(dir)
    ensures !HasTraversal(Join(dir, name))
  {
    hide Segments, Spelled, HasTraversal;
    CleanTraversal(dir);
    if name != "" {
      assert Rooted(dir + "/" + name) by { assert (dir + "/" + name)[0] == dir[0]; }
      CleanTraversal(dir + "/" + name);
    }
  }

  /** Clean parts are joined as they are. */
  lemma JoinOfClean(dir: string, name: string)
    requires Segments(dir) != [] && Segments(name) != [] && !Rooted(name)
    requires Clean(dir) == dir && Clean(name) == name && !HasTraversal(name)
    ensures Join(dir, name) == dir + "/" + name
  {
    hide Segments, Spelled, Normal, Join, WalkAll, Strings.Split;
    var a, b, rooted := Segments(dir), Segments(name), Rooted(dir);
    SegmentsAreNormal(dir);
    SegmentsAreNormal(name);
    NotEmpty(dir);
    NotEmpty(name);
    NoneSeen(name);
    SplitOfClean(name);
    BothNormal(rooted, a, b);
    WalkNormal(rooted, a, b);
    JoinedSegments(dir, name);
    JoinIsSpelled(dir, name);
    SpelledConcat(rooted, a, b);
  }

  lemma NoneSeen(name: string)
    requires Clean(name) == name && !HasTraversal(name) && !Rooted(name) && Segments(name) != []
    ensures ".." !in Segments(name)
  {
    hide Segments, Strings.Split;
    SplitOfClean(name);
  }

  lemma SplitOfClean(name: string)
    requires Clean(name) == name && !Rooted(name) && Segments(name) != []
    ensures Strings.Split(name, '/') == Segments(name)
  {
    hide Segments, Strings.Split, Spelled, Normal;
    SegmentsAreNormal(name);
    SpelledSplit(false, Segments(name));
  }

  lemma SpelledConcat(rooted: bool, a: seq<string>, b: seq<string>)
    requires a != [] && b != []
    ensures Spelled(rooted, a + b) == Spelled(rooted, a) + "/" + Spelled(false, b)
  {
    hide Strings.Join;
    Strings.JoinConcat(a, b, '/');
    var s, t := Strings.Join(a, '/'), Strings.Join(b, '/');
    assert "/" + (s + ['/'] + t) == ("/" + s) + "/" + t;
  }

  lemma NotEmpty(path: string)
    requires Segments(path) != []
    ensures path != ""
  {
    SplitSmall();
  }

  lemma JoinIsSpelled(dir: string, name: string)
    requires dir != "" && name != ""
    ensures Join(dir, name) == Spelled(Rooted(dir), Segments(Join(dir, name)))
  {
    hide Segments, Spelled;
    assert (dir + "/" + name)[0] == dir[0];
    CleanLeadsThere(dir + "/" + name);
  }

  lemma BothNormal(rooted: bool, a: seq<string>, b: seq<string>)
    requires Normal(rooted, a) && Normal(false, b) && ".." !in b
    ensures Normal(rooted, a + b)
  {
    forall i | 0 <= i < |b| ensures b[i] != ".." { assert b[i] in b; }
  }

  /** `..` in a name leads out of the directory; from an absolute directory nothing of it is left to be seen. */
  lemma JoinMayLeave(dir: string, name: string)
    requires Rooted(dir) && Segments(dir) != [] && Plain(name) && name != Segments(dir)[|Segments(dir)| - 1]
    ensures HasTraversal("../" + name) && !HasTraversal(Join(dir, "../" + name))
    ensures !Within(dir, Join(dir, "../" + name))
  {
    hide Segments, Plain, Join, Strings.Split;
    var up := Segments(dir);
    SplitUp(name);
    JoinedSegments(dir, "../" + name);
    SegmentsAreNormal(dir);
    NormalSegment(true, up, |up| - 1);
    UpAndDown(up, name);
    JoinHidesTraversal(dir, "../" + name);
    assert ".." in ["..", name];
    var out := up[..|up| - 1] + [name];
    assert |out| == |up| && out[|up| - 1] != up[|up| - 1];
  }

  lemma SplitUp(name: string)
    requires Plain(name)
    ensures Strings.Split("../" + name, '/') == ["..", name]
  {
    hide Strings.Split;
    assert "../" + name == ".." + ['/'] + name;
    Strings.SplitConcat("..", name, '/');
    Strings.SplitWhole("..", '/');
    Strings.SplitWhole(name, '/');
  }

  lemma UpAndDown(up: seq<string>, name: string)
    requires up != [] && up[|up| - 1] != ".." && Plain(name)
    ensures WalkAll(true, up, ["..", name]) == up[..|up| - 1] + [name]
  {
    assert ["..", name][1..] == [name];
    var rest := up[..|up| - 1];
    assert Walk(true, up, "..") == rest;
    assert WalkAll(true, rest, [name]) == rest + [name];
  }
}
