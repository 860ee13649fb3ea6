/** What the hunks of a diff are worth: their geometry, and applying them forwards and backwards. */
module Patch {
  import opened LineDiff
  import opened Hunks
  import opened Wrappers

  /**
   Applies hunks in order to text, from position at on, when written lines were already put out. A hunk that does not
   sit where its header says, or whose old side is not the text found there, is rejected.
   */
  function Apply(text: seq<Line>, hunks: seq<Hunk>, at: nat, written: nat): Option<seq<Line>>
    requires at <= |text|
    decreases |hunks|
  {
    if hunks == [] then Some(text[at..])
    else
      var h := hunks[0];
      var pos := if h.oldStart == 0 then 0 else h.oldStart - 1;
      if !(at <= pos <= pos + h.oldCount <= |text|) then None
      else if OldLines(h.body) != text[pos..pos + h.oldCount] || h.newCount != |NewLines(h.body)| then None
      else if h.newCount != 0 && h.newStart != written + (pos - at) + 1 then None
      else
        match Apply(text, hunks[1..], pos + h.oldCount, written + (pos - at) + h.newCount)
        case None => None
        case Some(rest) => Some(text[at..pos] + NewLines(h.body) + rest)
  }

  ghost predicate FarApart(c: nat, rs: seq<Region>) {
    forall k, m :: 0 <= k < m < |rs| ==> rs[k].last + 2 * c + 1 < rs[m].first
  }

  ghost predicate CoveredBy(rs: seq<Region>, j: int) {
    exists k :: 0 <= k < |rs| && rs[k].first <= j <= rs[k].last
  }

  /** Every change before i lies inside one region, and regions are far apart. */
  ghost predicate Geometry(s: seq<Edit>, c: nat, rs: seq<Region>, i: int) {
    && (forall k :: 0 <= k < |rs| ==> IsRegion(s, c, rs[k]))
    && FarApart(c, rs)
    && (forall j :: 0 <= j < i && j < |s| && Changed(s, j) ==> CoveredBy(rs, j))
  }

  lemma FarApartGrows(c: nat, front: seq<Region>, r: Region)
    requires FarApart(c, front) && (forall k :: 0 <= k < |front| ==> front[k].first <= front[k].last)
    requires front != [] ==> front[|front| - 1].last + 2 * c + 1 < r.first
    ensures FarApart(c, front + [r])
  {
    var rs := front + [r];
    forall k, m | 0 <= k < m < |rs| ensures rs[k].last + 2 * c + 1 < rs[m].first {
      if m == |rs| - 1 && k < |front| - 1 {
        assert front[k].last + 2 * c + 1 < front[|front| - 1].first;
      }
    }
  }

  lemma {:induction false} LayoutGeometry(s: seq<Edit>, c: nat, rs: seq<Region>, i: int)
    requires Layout(s, c, rs, i)
    ensures Geometry(s, c, rs, i)
    decreases |rs|
  {
    hide Geometry, IsRegion;
    if rs == [] {
      NoGeometry(s, c, i);
    } else {
      var r, front := rs[|rs| - 1], rs[..|rs| - 1];
      LayoutGeometry(s, c, front, r.first);
      assert rs == front + [r];
      GeometryGrows(s, c, front, r, i);
    }
  }

  lemma RegionsOrdered(s: seq<Edit>, c: nat, front: seq<Region>, r: Region)
    requires (forall k :: 0 <= k < |front| ==> IsRegion(s, c, front[k])) && IsRegion(s, c, r)
    ensures forall k :: 0 <= k < |front| ==> front[k].first <= front[k].last
    ensures r.first <= r.last < |s| && r.last < r.end
  {
    hide Tight;
  }

  lemma GeometryGrows(s: seq<Edit>, c: nat, front: seq<Region>, r: Region, i: int)
    requires Geometry(s, c, front, r.first) && IsRegion(s, c, r) && Quiet(s, r.last + 1, i)
    requires front != [] ==> front[|front| - 1].last + 2 * c + 1 < r.first
    ensures Geometry(s, c, front + [r], i)
  {
    hide FarApart, IsRegion;
    var rs := front + [r];
    RegionsOrdered(s, c, front, r);
    FarApartGrows(c, front, r);
    assert forall k :: 0 <= k < |rs| ==> IsRegion(s, c, rs[k]);
    forall j | 0 <= j < i && j < |s| && Changed(s, j) ensures CoveredBy(rs, j) {
      if j < r.first {
        var k :| 0 <= k < |front| && front[k].first <= j <= front[k].last;
        assert rs[k].first <= j <= rs[k].last;
      } else {
        assert rs[|front|].first <= j <= rs[|front|].last;
      }
    }
  }

  lemma NoGeometry(s: seq<Edit>, c: nat, i: int)
    requires Quiet(s, 0, i)
    ensures Geometry(s, c, [], i)
  {
  }

  /** The region around a change. */
  lemma Around(s: seq<Edit>, c: nat, rs: seq<Region>, j: nat) returns (k: nat)
    requires Layout(s, c, rs, |s|) && j < |s| && Changed(s, j)
    ensures k < |rs| && rs[k].start <= rs[k].first <= j <= rs[k].last < rs[k].end
  {
    LayoutGeometry(s, c, rs, |s|);
    k :| 0 <= k < |rs| && rs[k].first <= j <= rs[k].last;
  }

  /** Hunks are in order and disjoint, with at least one line left out between two of them. */
  lemma HunksAreDisjoint(s: seq<Edit>, c: nat, rs: seq<Region>, k: nat, m: nat)
    requires Layout(s, c, rs, |s|) && k < m < |rs|
    ensures rs[k].end < rs[m].start
  {
    hide Layout;
    RegionShape(s, c, rs, k);
    RegionShape(s, c, rs, m);
    RegionsApart(s, c, rs, k, m);
  }

  lemma RegionsApart(s: seq<Edit>, c: nat, rs: seq<Region>, k: nat, m: nat)
    requires Layout(s, c, rs, |s|) && k < m < |rs|
    ensures rs[k].last + 2 * c + 1 < rs[m].first
  {
    LayoutGeometry(s, c, rs, |s|);
    hide Layout;
  }

  /** Every change is in exactly one hunk; only kept lines are left out. */
  lemma EachChangeInOneHunk(s: seq<Edit>, c: nat, rs: seq<Region>, j: nat)
    requires Layout(s, c, rs, |s|) && j < |s| && Changed(s, j)
    ensures exists k :: 0 <= k < |rs| && rs[k].start <= j < rs[k].end
    ensures forall k, m :: 0 <= k < |rs| && 0 <= m < |rs| && rs[k].start <= j < rs[k].end && rs[m].start <= j < rs[m].end
              ==> k == m
  {
    hide Layout;
    var around := Around(s, c, rs, j);
    forall k, m | 0 <= k < |rs| && 0 <= m < |rs| && rs[k].start <= j < rs[k].end && rs[m].start <= j < rs[m].end
      ensures k == m
    {
      if k < m {
        HunksAreDisjoint(s, c, rs, k, m);
      } else if m < k {
        HunksAreDisjoint(s, c, rs, m, k);
      }
    }
  }

  /** Changes with at most 2c kept lines between them share a hunk. */
  lemma NearChangesShareHunk(s: seq<Edit>, c: nat, rs: seq<Region>, i: nat, j: nat) returns (k: nat)
    requires Layout(s, c, rs, |s|) && i < j < |s| && Changed(s, i) && Changed(s, j)
    requires j - i - 1 <= 2 * c
    ensures k < |rs| && rs[k].start <= i < j < rs[k].end
  {
    hide Layout;
    k := Around(s, c, rs, i);
    var m := Around(s, c, rs, j);
    if k != m {
      LayoutGeometry(s, c, rs, |s|);
    }
  }

  /** Two changes with more than 2c kept lines and nothing else between them are in different hunks. */
  lemma FarChangesSplit(s: seq<Edit>, c: nat, rs: seq<Region>, i: nat, j: nat, k: nat)
    requires Layout(s, c, rs, |s|) && i < j < |s| && Changed(s, i) && Changed(s, j)
    requires Quiet(s, i + 1, j) && j - i - 1 > 2 * c && k < |rs|
    ensures !(rs[k].start <= i && j < rs[k].end)
  {
    hide Layout, Geometry;
    if rs[k].start <= i && j < rs[k].end {
      var u := Around(s, c, rs, i);
      var v := Around(s, c, rs, j);
      EachChangeInOneHunk(s, c, rs, i);
      EachChangeInOneHunk(s, c, rs, j);
      assert k == u && k == v;
      assert Quiet(s, i + 1, i + 2 * c + 2);
      RegionIsTight(s, c, rs, k);
    }
  }

  lemma RegionIsTight(s: seq<Edit>, c: nat, rs: seq<Region>, k: nat)
    requires Layout(s, c, rs, |s|) && k < |rs|
    ensures Tight(s, c, rs[k].first, rs[k].last)
  {
    LayoutGeometry(s, c, rs, |s|);
  }

  /** A hunk shows at most c kept lines before its first and after its last change, and starts and ends beside them. */
  lemma ContextIsBounded(s: seq<Edit>, c: nat, rs: seq<Region>, k: nat)
    requires Layout(s, c, rs, |s|) && k < |rs|
    ensures rs[k].first - rs[k].start <= c && rs[k].end - rs[k].last - 1 <= c
    ensures Quiet(s, rs[k].start, rs[k].first) && Quiet(s, rs[k].last + 1, rs[k].end)
    ensures rs[k].first - rs[k].start < c ==> rs[k].start == 0
    ensures rs[k].end - rs[k].last - 1 < c ==> rs[k].end == |s|
  {
    hide Layout;
    RegionShape(s, c, rs, k);
    forall j | 0 <= j < |s| && Changed(s, j) && rs[k].start <= j < rs[k].end
      ensures rs[k].first <= j <= rs[k].last
    {
      var m := Around(s, c, rs, j);
      EachChangeInOneHunk(s, c, rs, j);
      assert m == k;
    }
  }

  lemma RegionShape(s: seq<Edit>, c: nat, rs: seq<Region>, k: nat)
    requires Layout(s, c, rs, |s|) && k < |rs|
    ensures rs[k].start == if rs[k].first < c then 0 else rs[k].first - c
    ensures rs[k].end == if rs[k].last + 1 + c > |s| then |s| else rs[k].last + 1 + c
    ensures rs[k].start <= rs[k].first <= rs[k].last < rs[k].end <= |s|
  {
    LayoutGeometry(s, c, rs, |s|);
  }

  lemma {:induction false} QuietKeeps(s: seq<Edit>, i: nat, j: nat)
    requires i <= j <= |s| && Quiet(s, i, j)
    ensures OldLines(s[i..j]) == NewLines(s[i..j])
  {
    if i < j {
      QuietKeeps(s, i, j - 1);
      SliceGrows(s, i, j - 1);
      assert !Changed(s, j - 1);
    } else {
      assert s[i..j] == [];
    }
  }

  /** With some context, the printed start numbers are the true positions even when a side is empty. */
  lemma StartsAreTrue(s: seq<Edit>, c: nat, rs: seq<Region>, k: nat)
    requires Layout(s, c, rs, |s|) && c >= 1 && k < |rs|
    ensures rs[k].start <= rs[k].end <= |s|
    ensures HunkAt(s, rs[k]).oldStart == |OldLines(s[..rs[k].start])| + 1
    ensures HunkAt(s, rs[k]).newStart == |NewLines(s[..rs[k].start])| + 1
  {
    var r := rs[k];
    ContextIsBounded(s, c, rs, k);
    RegionFits(s, c, rs, k);
    if r.start < r.first {
      assert !Changed(s, r.start);
      HeadInside(s, r.start, r.start, r.end);
    } else {
      assert r.start == 0 && s[..0] == [];
    }
  }

  lemma RegionFits(s: seq<Edit>, c: nat, rs: seq<Region>, k: nat)
    requires Layout(s, c, rs, |s|) && k < |rs|
    ensures rs[k].start <= rs[k].first <= rs[k].last < rs[k].end <= |s|
  {
    LayoutGeometry(s, c, rs, |s|);
  }

  /** Where the part of the script after the first k hunks begins. */
  ghost function After(rs: seq<Region>, k: nat): nat
    requires k <= |rs|
  {
    if k == 0 then 0 else rs[k - 1].end
  }

  lemma QuietBetween(s: seq<Edit>, c: nat, rs: seq<Region>, k: nat)
    requires Layout(s, c, rs, |s|) && k <= |rs|
    ensures After(rs, k) <= |s|
    ensures k < |rs| ==> After(rs, k) <= rs[k].start && Quiet(s, After(rs, k), rs[k].start)
    ensures k == |rs| ==> Quiet(s, After(rs, k), |s|)
  {
    hide Layout;
    if k > 0 {
      RegionFits(s, c, rs, k - 1);
    }
    if k < |rs| {
      RegionFits(s, c, rs, k);
      if k > 0 { HunksAreDisjoint(s, c, rs, k - 1, k); }
    }
    var hi := if k < |rs| then rs[k].start else |s|;
    forall j | After(rs, k) <= j < hi ensures !Changed(s, j) {
      if Changed(s, j) {
        EachChangeInOneHunk(s, c, rs, j);
        var m :| 0 <= m < |rs| && rs[m].start <= j < rs[m].end;
        if m < k - 1 {
          HunksAreDisjoint(s, c, rs, m, k - 1);
        } else if m > k {
          HunksAreDisjoint(s, c, rs, k, m);
        }
      }
    }
  }

  /** The hunks from the k-th on turn the rest of the old text into the rest of the new one. */
  ghost predicate AppliesAt(s: seq<Edit>, rs: seq<Region>, hunks: seq<Hunk>, k: nat)
    requires k <= |rs| && k <= |hunks|
  {
    var p := After(rs, k);
    && p <= |s| && |OldLines(s[..p])| <= |OldLines(s)|
    && Apply(OldLines(s), hunks[k..], |OldLines(s[..p])|, |NewLines(s[..p])|) == Some(NewLines(s[p..]))
  }

  /** A hunk without old lines stands before the first old line, where its printed position 1 puts it. */
  ghost predicate InPlace(s: seq<Edit>, rs: seq<Region>, k: int)
    requires 0 <= k < |rs| && rs[k].start <= rs[k].end <= |s|
  {
    OldLines(s[rs[k].start..rs[k].end]) == [] ==> OldLines(s[..rs[k].start]) == []
  }

  ghost predicate AllInPlace(s: seq<Edit>, rs: seq<Region>) {
    forall k :: 0 <= k < |rs| ==> rs[k].start <= rs[k].end <= |s| && InPlace(s, rs, k)
  }

  lemma ContextPutsInPlace(s: seq<Edit>, c: nat, rs: seq<Region>)
    requires Layout(s, c, rs, |s|) && c >= 1
    ensures AllInPlace(s, rs)
  {
    hide Layout;
    forall k | 0 <= k < |rs| ensures rs[k].start <= rs[k].end <= |s| && InPlace(s, rs, k) {
      StartsAreTrue(s, c, rs, k);
    }
  }

  lemma {:induction false} AppliesFrom(s: seq<Edit>, c: nat, rs: seq<Region>, hunks: seq<Hunk>, k: nat)
    requires Layout(s, c, rs, |s|) && AllInPlace(s, rs) && AreHunks(s, rs, hunks) && k <= |rs|
    ensures AppliesAt(s, rs, hunks, k)
    decreases |rs| - k
  {
    hide Layout, AppliesAt, Quiet;
    QuietBetween(s, c, rs, k);
    if k == |rs| {
      AppliesLast(s, rs, hunks);
    } else {
      RegionFits(s, c, rs, k);
      assert InPlace(s, rs, k);
      AppliesFrom(s, c, rs, hunks, k + 1);
      AppliesBefore(s, rs, hunks, k, After(rs, k), rs[k].start, rs[k].end);
    }
  }

  /** After the last hunk the rest of the text is copied. */
  lemma AppliesLast(s: seq<Edit>, rs: seq<Region>, hunks: seq<Hunk>)
    requires |hunks| == |rs| && After(rs, |rs|) <= |s| && Quiet(s, After(rs, |rs|), |s|)
    ensures AppliesAt(s, rs, hunks, |rs|)
  {
    var p := After(rs, |rs|);
    Tail(s, p);
    QuietKeeps(s, p, |s|);
    assert s[p..|s|] == s[p..];
    assert OldLines(s)[|OldLines(s[..p])|..] == OldLines(s[p..]);
    assert hunks[|rs|..] == [];
  }

  lemma AppliesBefore(s: seq<Edit>, rs: seq<Region>, hunks: seq<Hunk>, k: nat, p: nat, i: nat, j: nat)
    requires k < |rs| == |hunks| && After(rs, k) == p <= i <= j == After(rs, k + 1) <= |s|
    requires AppliesAt(s, rs, hunks, k + 1) && Quiet(s, p, i)
    requires hunks[k].body == s[i..j]
    requires hunks[k].oldCount == |OldLines(s[i..j])| && hunks[k].newCount == |NewLines(s[i..j])|
    requires hunks[k].oldStart == |OldLines(s[..i])| + 1
    requires hunks[k].newCount != 0 ==> hunks[k].newStart == |NewLines(s[..i])| + 1
    ensures AppliesAt(s, rs, hunks, k)
  {
    hide Quiet, Apply, OldLines, NewLines;
    QuietKeeps(s, p, i);
    OldAround(s, p, i, j);
    NewAround(s, p, i, j);
    assert |OldLines(s[..p])| <= |OldLines(s)|;
    ApplyOne(hunks, k, OldLines(s[..p]), |NewLines(s[..p])|, OldLines(s[p..i]),
             OldLines(s[i..j]), NewLines(s[i..j]), OldLines(s[j..]), NewLines(s[j..]));
  }

  /** One hunk that sits where its header says, after the lines before and the copied lines gap. */
  lemma ApplyOne(hunks: seq<Hunk>, k: nat, before: seq<Line>, written: nat, gap: seq<Line>,
                 bodyOld: seq<Line>, bodyNew: seq<Line>, after: seq<Line>, rest: seq<Line>)
    requires k < |hunks| && OldLines(hunks[k].body) == bodyOld && NewLines(hunks[k].body) == bodyNew
    requires hunks[k].oldCount == |bodyOld| && hunks[k].newCount == |bodyNew|
    requires hunks[k].oldStart == |before + gap| + 1 && (hunks[k].newCount != 0 ==> hunks[k].newStart == written + |gap| + 1)
    requires Apply(before + gap + bodyOld + after, hunks[k + 1..], |before + gap + bodyOld|, written + |gap| + |bodyNew|)
               == Some(rest)
    ensures Apply(before + gap + bodyOld + after, hunks[k..], |before|, written) == Some(gap + bodyNew + rest)
  {
    hide OldLines, NewLines;
    var text := before + gap + bodyOld + after;
    assert text[|before|..|before + gap|] == gap;
    assert text[|before + gap|..|before + gap| + |bodyOld|] == bodyOld;
    assert hunks[k..][1..] == hunks[k + 1..];
  }

  lemma OldAround(s: seq<Edit>, p: nat, i: nat, j: nat)
    requires p <= i <= j <= |s|
    ensures OldLines(s) == OldLines(s[..p]) + OldLines(s[p..i]) + OldLines(s[i..j]) + OldLines(s[j..])
    ensures OldLines(s[..i]) == OldLines(s[..p]) + OldLines(s[p..i])
    ensures OldLines(s[..j]) == OldLines(s[..p]) + OldLines(s[p..i]) + OldLines(s[i..j])
  {
    PrefixSplits(s, p, i);
    PrefixSplits(s, i, j);
    Tail(s, j);
  }

  lemma NewAround(s: seq<Edit>, p: nat, i: nat, j: nat)
    requires p <= i <= j <= |s|
    ensures NewLines(s[p..]) == NewLines(s[p..i]) + NewLines(s[i..j]) + NewLines(s[j..])
    ensures |NewLines(s[..i])| == |NewLines(s[..p])| + |NewLines(s[p..i])|
    ensures |NewLines(s[..j])| == |NewLines(s[..p])| + |NewLines(s[p..i])| + |NewLines(s[i..j])|
  {
    PrefixSplits(s, p, i);
    PrefixSplits(s, i, j);
    TailSplits(s, p, i);
    TailSplits(s, i, j);
  }

  lemma Tail(s: seq<Edit>, p: nat)
    requires p <= |s|
    ensures OldLines(s) == OldLines(s[..p]) + OldLines(s[p..])
    ensures NewLines(s) == NewLines(s[..p]) + NewLines(s[p..])
  {
    assert s == s[..p] + s[p..];
    ScriptConcat(s[..p], s[p..]);
  }

  lemma TailSplits(s: seq<Edit>, p: nat, i: nat)
    requires p <= i <= |s|
    ensures OldLines(s[p..]) == OldLines(s[p..i]) + OldLines(s[i..])
    ensures NewLines(s[p..]) == NewLines(s[p..i]) + NewLines(s[i..])
  {
    assert s[p..] == s[p..i] + s[i..];
    ScriptConcat(s[p..i], s[i..]);
  }

  /** Applying the hunks in order to the old text gives exactly the new text. */
  lemma HunksApply(s: seq<Edit>, c: nat, rs: seq<Region>, hunks: seq<Hunk>)
    requires Layout(s, c, rs, |s|) && c >= 1 && AreHunks(s, rs, hunks)
    ensures Apply(OldLines(s), hunks, 0, 0) == Some(NewLines(s))
  {
    ContextPutsInPlace(s, c, rs);
    AppliesFrom(s, c, rs, hunks, 0);
    assert s[..0] == [] && s[0..] == s && hunks[0..] == hunks;
  }

  function FlipEdit(e: Edit): Edit {
    match e
    case Keep(l) => Keep(l)
    case Delete(l) => Insert(l)
    case Insert(l) => Delete(l)
  }

  function Flip(s: seq<Edit>): seq<Edit> {
    seq(|s|, i requires 0 <= i < |s| => FlipEdit(s[i]))
  }

  /** The hunk read in the other direction, as by `patch -R`. */
  function FlipHunk(h: Hunk): Hunk {
    Hunk(h.newStart, h.newCount, h.oldStart, h.oldCount, Flip(h.body))
  }

  function FlipHunks(hunks: seq<Hunk>): seq<Hunk> {
    seq(|hunks|, i requires 0 <= i < |hunks| => FlipHunk(hunks[i]))
  }

  lemma {:induction false} FlipSwapsTexts(s: seq<Edit>)
    ensures OldLines(Flip(s)) == NewLines(s) && NewLines(Flip(s)) == OldLines(s)
  {
    if s != [] {
      FlipSwapsTexts(Init(s));
      assert Init(Flip(s)) == Flip(Init(s));
    }
  }

  lemma {:induction false} FlipKeepsLayout(s: seq<Edit>, c: nat, rs: seq<Region>, i: int)
    requires Layout(s, c, rs, i)
    ensures Layout(Flip(s), c, rs, i)
    decreases |rs|
  {
    forall j | 0 <= j < |s| ensures Changed(Flip(s), j) == Changed(s, j) {}
    forall lo, hi ensures Quiet(Flip(s), lo, hi) == Quiet(s, lo, hi) {
      FlipKeepsQuiet(s, lo, hi);
    }
    if rs != [] {
      FlipKeepsLayout(s, c, rs[..|rs| - 1], rs[|rs| - 1].first);
    }
  }

  lemma FlipKeepsQuiet(s: seq<Edit>, lo: int, hi: int)
    ensures Quiet(Flip(s), lo, hi) <==> Quiet(s, lo, hi)
  {
    assert forall j :: 0 <= j < |s| ==> Changed(Flip(s), j) == Changed(s, j);
  }

  lemma FlipHunkAt(s: seq<Edit>, r: Region)
    requires r.start <= r.end <= |s|
    ensures HunkAt(Flip(s), r) == FlipHunk(HunkAt(s, r))
  {
    assert Flip(s)[r.start..r.end] == Flip(s[r.start..r.end]);
    assert Flip(s)[..r.start] == Flip(s[..r.start]);
    FlipSwapsTexts(s[r.start..r.end]);
    FlipSwapsTexts(s[..r.start]);
  }

  /** Applying the hunks backwards to the new text gives exactly the old text. */
  lemma HunksApplyBackwards(s: seq<Edit>, c: nat, rs: seq<Region>, hunks: seq<Hunk>)
    requires Layout(s, c, rs, |s|) && c >= 1 && AreHunks(s, rs, hunks)
    ensures Apply(NewLines(s), FlipHunks(hunks), 0, 0) == Some(OldLines(s))
  {
    FlipKeepsLayout(s, c, rs, |s|);
    forall k | 0 <= k < |rs| ensures HunkAt(Flip(s), rs[k]) == FlipHunk(HunkAt(s, rs[k])) {
      FlipHunkAt(s, rs[k]);
    }
    assert AreHunks(Flip(s), rs, FlipHunks(hunks));
    HunksApply(Flip(s), c, rs, FlipHunks(hunks));
    FlipSwapsTexts(s);
  }

  lemma {:induction false} QuietIffUnchanged(s: seq<Edit>)
    ensures Quiet(s, 0, |s|) <==> Changes(s) == 0
  {
    if s != [] {
      QuietIffUnchanged(Init(s));
      if Quiet(s, 0, |s|) {
        assert !Changed(s, |s| - 1);
        forall i | 0 <= i < |s| - 1 ensures !Changed(Init(s), i) { assert !Changed(s, i); }
      } else {
        var i :| 0 <= i < |s| && Changed(s, i);
        assert i < |s| - 1 ==> Changed(Init(s), i);
      }
    }
  }

  /** There are no hunks exactly when the texts are equal. */
  lemma NoHunksIffEqual(a: seq<Line>, b: seq<Line>, c: nat, rs: seq<Region>)
    requires Layout(Script(a, b), c, rs, |Script(a, b)|)
    ensures rs == [] <==> a == b
  {
    var s := Script(a, b);
    UnchangedIffEqual(a, b);
    QuietIffUnchanged(s);
    if rs != [] {
      LayoutGeometry(s, c, rs, |s|);
      assert Changed(s, rs[0].first);
    }
  }

  ghost predicate AcceptedFrom(s: seq<Edit>, rs: seq<Region>, hunks: seq<Hunk>, k: nat)
    requires k <= |rs| && k <= |hunks|
  {
    var p := After(rs, k);
    && p <= |s| && |OldLines(s[..p])| <= |OldLines(s)|
    && Apply(OldLines(s), hunks[k..], |OldLines(s[..p])|, |NewLines(s[..p])|).Some?
  }

  /** Where the hunks from the k-th on are accepted, they are in place. */
  lemma {:induction false} AcceptedIsInPlace(s: seq<Edit>, c: nat, rs: seq<Region>, hunks: seq<Hunk>, k: nat)
    requires Layout(s, c, rs, |s|) && AreHunks(s, rs, hunks) && k <= |rs| && AcceptedFrom(s, rs, hunks, k)
    ensures forall m :: k <= m < |rs| ==> rs[m].start <= rs[m].end <= |s| && InPlace(s, rs, m)
    decreases |rs| - k
  {
    hide Layout, InPlace, Quiet, AcceptedFrom, HunkAt;
    if k < |rs| {
      QuietBetween(s, c, rs, k);
      RegionFits(s, c, rs, k);
      AcceptedStep(s, rs, hunks, k, After(rs, k), rs[k].start, rs[k].end);
      AcceptedIsInPlace(s, c, rs, hunks, k + 1);
    }
  }

  lemma AcceptedStep(s: seq<Edit>, rs: seq<Region>, hunks: seq<Hunk>, k: nat, p: nat, i: nat, j: nat)
    requires k < |rs| == |hunks| && AcceptedFrom(s, rs, hunks, k)
    requires After(rs, k) == p <= i == rs[k].start < rs[k].end == j <= |s| && Quiet(s, p, i) && hunks[k] == HunkAt(s, rs[k])
    ensures InPlace(s, rs, k) && AcceptedFrom(s, rs, hunks, k + 1)
  {
    hide InPlace, Quiet, Apply, OldLines, NewLines;
    QuietKeeps(s, p, i);
    OldAround(s, p, i, j);
    NewAround(s, p, i, j);
    AcceptedHead(OldLines(s), hunks, k, |OldLines(s[..p])|, |NewLines(s[..p])|);
    HeadInPlace(s, rs, hunks, k, |OldLines(s[p..i])|);
  }

  /** What the acceptance of hunks says of the first of them. */
  lemma AcceptedHead(text: seq<Line>, hunks: seq<Hunk>, k: nat, at: nat, written: nat)
    requires k < |hunks| && at <= |text| && Apply(text, hunks[k..], at, written).Some?
    ensures var h := hunks[k];
            var pos := if h.oldStart == 0 then 0 else h.oldStart - 1;
            && at <= pos <= pos + h.oldCount <= |text|
            && (h.newCount != 0 ==> h.newStart == written + (pos - at) + 1)
            && Apply(text, hunks[k + 1..], pos + h.oldCount, written + (pos - at) + h.newCount).Some?
  {
    assert hunks[k..][0] == hunks[k] && hunks[k..][1..] == hunks[k + 1..];
  }

  lemma HeadInPlace(s: seq<Edit>, rs: seq<Region>, hunks: seq<Hunk>, k: nat, gap: nat)
    requires k < |rs| == |hunks| && After(rs, k) <= rs[k].start < rs[k].end <= |s| && hunks[k] == HunkAt(s, rs[k])
    requires |OldLines(s[..rs[k].start])| == |OldLines(s[..After(rs, k)])| + gap
    requires |NewLines(s[..rs[k].start])| == |NewLines(s[..After(rs, k)])| + gap
    requires |OldLines(s[..After(rs, k)])| <= hunks[k].oldStart - 1
    requires hunks[k].newCount != 0 ==>
               hunks[k].newStart == |NewLines(s[..After(rs, k)])| + (hunks[k].oldStart - 1 - |OldLines(s[..After(rs, k)])|) + 1
    ensures InPlace(s, rs, k) && hunks[k].oldStart == |OldLines(s[..rs[k].start])| + 1
  {
    var body := s[rs[k].start..rs[k].end];
    if OldLines(body) == [] {
      NoOldLines(body);
    }
  }

  lemma {:induction false} NoOldLines(body: seq<Edit>)
    requires body != [] && OldLines(body) == []
    ensures NewLines(body) != []
  {
    assert !Last(body).Insert? ==> OldLines(body) != [];
  }

  /**
   With any amount of context, none included, the hunks give the new text exactly if every hunk without old lines stands
   before the first old line.
   */
  lemma HunksApplyIffInPlace(s: seq<Edit>, c: nat, rs: seq<Region>, hunks: seq<Hunk>)
    requires Layout(s, c, rs, |s|) && AreHunks(s, rs, hunks)
    ensures Apply(OldLines(s), hunks, 0, 0) == Some(NewLines(s)) <==> AllInPlace(s, rs)
  {
    hide Layout, InPlace, Apply;
    assert s[..0] == [] && s[0..] == s && hunks[0..] == hunks;
    assert OldLines([]) == [] && NewLines([]) == [];
    if AllInPlace(s, rs) {
      AppliesFrom(s, c, rs, hunks, 0);
    }
    if Apply(OldLines(s), hunks, 0, 0) == Some(NewLines(s)) {
      AcceptedIsInPlace(s, c, rs, hunks, 0);
    }
  }

  /** Without context, appending a line to a one-line text gives a hunk that is rejected. */
  lemma ZeroContextMisplaces(rs: seq<Region>, hunks: seq<Hunk>)
    requires Layout(Script(["a"], ["a", "b"]), 0, rs, 2) && AreHunks(Script(["a"], ["a", "b"]), rs, hunks)
    ensures Apply(["a"], hunks, 0, 0) != Some(["a", "b"])
  {
    var s := [Keep("a"), Insert("b")];
    SampleScript();
    hide Layout, Script, Apply;
    var k := Around(s, 0, rs, 1);
    RegionShape(s, 0, rs, k);
    ContextIsBounded(s, 0, rs, k);
    LayoutGeometry(s, 0, rs, |s|);
    assert rs[k].start == 1 && rs[k].end == 2 by {
      RegionEnds(s, rs[k]);
    }
    assert s[1..2] == [Insert("b")] && s[..1] == [Keep("a")];
    assert !InPlace(s, rs, k);
    HunksApplyIffInPlace(s, 0, rs, hunks);
  }

  lemma SampleScript()
    ensures Script(["a"], ["a", "b"]) == [Keep("a"), Insert("b")]
    ensures OldLines([Keep("a"), Insert("b")]) == ["a"] && NewLines([Keep("a"), Insert("b")]) == ["a", "b"]
  {
    assert ["a", "b"][..1] == ["a"] && ["a"][..0] == [];
  }

  lemma RegionEnds(s: seq<Edit>, r: Region)
    requires s == [Keep("a"), Insert("b")] && r.start == r.first <= r.last < r.end <= 2 && r.first <= 1 <= r.last
    requires Changed(s, r.first)
    ensures r.start == 1 && r.end == 2
  {
  }
}
