/** Grouping an edit script into hunks with context, and what a patch program makes of them. */
module Hunks {
  import opened LineDiff

  /** One hunk: the numbers of its header and the lines of its body. */
  datatype Hunk = Hunk(oldStart: nat, oldCount: nat, newStart: nat, newCount: nat, body: seq<Edit>)

  /** An edit with its 1-based line number in each text, 0 where it has none. */
  datatype Numbered = Numbered(edit: Edit, oldN: nat, newN: nat)

  /** The extent of a hunk: the slice start..end of the script, around changes from first to last. */
  datatype Region = Region(start: nat, first: nat, last: nat, end: nat)

  predicate Changed(s: seq<Edit>, i: int)
    requires 0 <= i < |s|
  {
    !s[i].Keep?
  }

  /** Only kept lines from position lo to position hi. */
  ghost predicate Quiet(s: seq<Edit>, lo: int, hi: int) {
    forall i :: lo <= i < hi && 0 <= i < |s| ==> !Changed(s, i)
  }

  /** No run of more than 2c kept lines between changes from first to last. */
  ghost predicate Tight(s: seq<Edit>, c: nat, first: int, last: int) {
    forall i, j :: first <= i && j <= last && j - i == 2 * c + 1 ==> !Quiet(s, i, j)
  }

  /** r spans its changes and at most c kept lines on each side, fewer only at the ends of the script. */
  ghost predicate IsRegion(s: seq<Edit>, c: nat, r: Region) {
    && r.start <= r.first <= r.last < r.end <= |s|
    && Changed(s, r.first) && Changed(s, r.last) && Tight(s, c, r.first, r.last)
    && r.start == (if r.first < c then 0 else r.first - c)
    && r.end == (if r.last + 1 + c > |s| then |s| else r.last + 1 + c)
  }

  /** The last change covered by the regions, or -1. */
  ghost function Covered(rs: seq<Region>): int {
    if rs == [] then -1 else rs[|rs| - 1].last
  }

  /** The regions split the changes before position i at exactly the runs of more than 2c kept lines. */
  ghost predicate Layout(s: seq<Edit>, c: nat, rs: seq<Region>, i: int)
    decreases |rs|
  {
    if rs == [] then Quiet(s, 0, i)
    else
      var r, front := rs[|rs| - 1], rs[..|rs| - 1];
      && IsRegion(s, c, r)
      && Quiet(s, r.last + 1, i)
      && Layout(s, c, front, r.first)
      && (front != [] ==> Covered(front) + 2 * c + 1 < r.first)
  }

  /** The number printed for a side of a hunk: the true line number, or 1 when that side is empty. */
  function PrintedStart(before: seq<Line>, inside: seq<Line>): nat {
    if inside == [] then 1 else |before| + 1
  }

  function HunkAt(s: seq<Edit>, r: Region): Hunk
    requires r.start <= r.end <= |s|
  {
    var body := s[r.start..r.end];
    Hunk(PrintedStart(OldLines(s[..r.start]), OldLines(body)), |OldLines(body)|,
         PrintedStart(NewLines(s[..r.start]), NewLines(body)), |NewLines(body)|, body)
  }

  ghost predicate AreHunks(s: seq<Edit>, rs: seq<Region>, hunks: seq<Hunk>) {
    && |hunks| == |rs|
    && forall k :: 0 <= k < |rs| ==> rs[k].start <= rs[k].end <= |s| && hunks[k] == HunkAt(s, rs[k])
  }

  ghost predicate IsNumbering(s: seq<Edit>, all: seq<Numbered>) {
    && |all| == |s|
    && forall k :: 0 <= k < |s| ==>
      && all[k].edit == s[k]
      && all[k].oldN == (if s[k].Insert? then 0 else |OldLines(s[..k])| + 1)
      && all[k].newN == (if s[k].Delete? then 0 else |NewLines(s[..k])| + 1)
  }

  lemma PrefixGrows(s: seq<Edit>, k: nat)
    requires k < |s|
    ensures OldLines(s[..k + 1]) == OldLines(s[..k]) + if s[k].Insert? then [] else [s[k].line]
    ensures NewLines(s[..k + 1]) == NewLines(s[..k]) + if s[k].Delete? then [] else [s[k].line]
  {
    assert s[..k + 1] == s[..k] + [s[k]];
    Snoc(s[..k], s[k]);
  }

  lemma SliceGrows(s: seq<Edit>, i: nat, k: nat)
    requires i <= k < |s|
    ensures OldLines(s[i..k + 1]) == OldLines(s[i..k]) + if s[k].Insert? then [] else [s[k].line]
    ensures NewLines(s[i..k + 1]) == NewLines(s[i..k]) + if s[k].Delete? then [] else [s[k].line]
  {
    assert s[i..k + 1] == s[i..k] + [s[k]];
    Snoc(s[i..k], s[k]);
  }

  lemma PrefixSplits(s: seq<Edit>, i: nat, k: nat)
    requires i <= k <= |s|
    ensures OldLines(s[..k]) == OldLines(s[..i]) + OldLines(s[i..k])
    ensures NewLines(s[..k]) == NewLines(s[..i]) + NewLines(s[i..k])
  {
    assert s[..k] == s[..i] + s[i..k];
    ScriptConcat(s[..i], s[i..k]);
  }

  /** Numbers the lines of a script. */
  method NumberEdits(s: seq<Edit>) returns (all: seq<Numbered>)
    ensures IsNumbering(s, all)
  {
    hide OldLines, NewLines;
    EmptyTexts();
    assert s[..0] == [];
    all := [];
    var oi, ni := 0, 0;
    for k := 0 to |s|
      invariant |all| == k && oi == |OldLines(s[..k])| && ni == |NewLines(s[..k])|
      invariant forall u :: 0 <= u < k ==>
        && all[u].edit == s[u]
        && all[u].oldN == (if s[u].Insert? then 0 else |OldLines(s[..u])| + 1)
        && all[u].newN == (if s[u].Delete? then 0 else |NewLines(s[..u])| + 1)
    {
      PrefixGrows(s, k);
      match s[k]
      case Keep(_) =>
        oi, ni := oi + 1, ni + 1;
        all := all + [Numbered(s[k], oi, ni)];
      case Delete(_) =>
        oi := oi + 1;
        all := all + [Numbered(s[k], oi, 0)];
      case Insert(_) =>
        ni := ni + 1;
        all := all + [Numbered(s[k], 0, ni)];
    }
  }

  /** The hunk that begins with the change first has its last change at last, and ends at end with its context. */
  ghost predicate EndsAt(s: seq<Edit>, c: nat, first: nat, last: int, end: nat) {
    && first <= last < |s| && Changed(s, last) && Tight(s, c, first, last)
    && end == (if last + 1 + c > |s| then |s| else last + 1 + c)
    && Quiet(s, last + 1, last + 2 * c + 2)
  }

  /** Finds where the hunk that begins with the change at position first ends. */
  method FindEnd(all: seq<Numbered>, first: nat, c: nat, ghost s: seq<Edit>) returns (end: nat)
    requires IsNumbering(s, all) && first < |s| && Changed(s, first)
    ensures exists last :: EndsAt(s, c, first, last, end)
  {
    hide Tight, IsNumbering;
    NumberingShape(s, all);
    TightStart(s, c, first);
    end := first;
    ghost var last := first;
    while end < |all|
      invariant first <= last <= end <= |s| && last < |s| && Changed(s, last) && Tight(s, c, first, last)
      invariant Quiet(s, last + 1, end)
      invariant end == first || end == last + 1 || (end < |s| && Changed(s, end) && end - last - 1 <= 2 * c)
      invariant end == |s| ==> end == last + 1
    {
      if !all[end].edit.Keep? {
        TightExtends(s, c, first, last, end);
        last := end;
        end := end + 1;
        continue;
      }
      var ctxEnd := end;
      while ctxEnd < |all| && all[ctxEnd].edit.Keep?
        invariant end <= ctxEnd <= |all| && Quiet(s, end, ctxEnd)
      {
        ctxEnd := ctxEnd + 1;
      }
      if ctxEnd - end > 2 * c || ctxEnd >= |all| {
        end := end + c;
        if end > |all| {
          end := |all|;
        }
        assert EndsAt(s, c, first, last, end);
        return;
      }
      end := ctxEnd;
    }
    assert EndsAt(s, c, first, last, end);
  }

  lemma TightStart(s: seq<Edit>, c: nat, first: nat)
    ensures Tight(s, c, first, first)
  {
  }

  lemma TightExtends(s: seq<Edit>, c: nat, first: nat, last: nat, next: nat)
    requires first <= last <= next < |s| && Changed(s, last) && Changed(s, next)
    requires Tight(s, c, first, last) && next - last - 1 <= 2 * c
    ensures Tight(s, c, first, next)
  {
    forall i, j | first <= i && j <= next && j - i == 2 * c + 1 ensures !Quiet(s, i, j) {
      if j > last {
        assert Changed(s, last);
      }
    }
  }

  /** Adds up the header of the hunk over positions start to end. */
  method HunkHeader(all: seq<Numbered>, start: nat, end: nat, ghost s: seq<Edit>)
    returns (oldStart: nat, oldCount: nat, newStart: nat, newCount: nat)
    requires IsNumbering(s, all) && start < end <= |s|
    ensures oldCount == |OldLines(s[start..end])| && newCount == |NewLines(s[start..end])|
    ensures oldStart == PrintedStart(OldLines(s[..start]), OldLines(s[start..end]))
    ensures newStart == PrintedStart(NewLines(s[..start]), NewLines(s[start..end]))
  {
    hide OldLines, NewLines;
    oldStart, oldCount, newStart, newCount := 0, 0, 0, 0;
    EmptyTexts();
    assert s[start..start] == [];
    for j := start to end
      invariant oldCount == |OldLines(s[start..j])| && newCount == |NewLines(s[start..j])|
      invariant j == start ==> oldStart == 0 && newStart == 0
      invariant j > start ==> oldStart == PrintedStart(OldLines(s[..start]), OldLines(s[start..end]))
      invariant j > start ==> newStart == PrintedStart(NewLines(s[..start]), NewLines(s[start..end]))
    {
      SliceGrows(s, start, j);
      HeadInside(s, start, j, end);
      match all[j].edit
      case Keep(_) =>
        if oldStart == 0 {
          oldStart := all[j].oldN;
        }
        if newStart == 0 {
          newStart := all[j].newN;
        }
        oldCount := oldCount + 1;
        newCount := newCount + 1;
      case Delete(_) =>
        if oldStart == 0 {
          oldStart := all[j].oldN;
        }
        if newStart == 0 {
          for k := j + 1 to end
            invariant newStart == 0 && NewLines(s[start..k]) == []
          {
            SliceGrows(s, start, k);
            HeadInside(s, start, k, end);
            if all[k].newN > 0 {
              newStart := all[k].newN;
              break;
            }
          }
          if newStart == 0 {
            newStart := 1;
          }
        }
        oldCount := oldCount + 1;
      case Insert(_) =>
        if newStart == 0 {
          newStart := all[j].newN;
        }
        if oldStart == 0 {
          for k := j + 1 to end
            invariant oldStart == 0 && OldLines(s[start..k]) == []
          {
            SliceGrows(s, start, k);
            HeadInside(s, start, k, end);
            if all[k].oldN > 0 {
              oldStart := all[k].oldN;
              break;
            }
          }
          if oldStart == 0 {
            oldStart := 1;
          }
        }
        newCount := newCount + 1;
    }
  }

  method HunkBody(all: seq<Numbered>, start: nat, end: nat, ghost s: seq<Edit>) returns (body: seq<Edit>)
    requires IsNumbering(s, all) && start <= end <= |s|
    ensures body == s[start..end]
  {
    hide IsNumbering;
    NumberingShape(s, all);
    body := [];
    for j := start to end
      invariant body == s[start..j]
    {
      body := body + [all[j].edit];
    }
  }

  /** The first line of a side inside a slice carries the number after all lines of that side before the slice. */
  lemma HeadInside(s: seq<Edit>, start: nat, k: nat, end: nat)
    requires start <= k < end <= |s|
    ensures |OldLines(s[..k])| == |OldLines(s[..start])| + |OldLines(s[start..k])|
    ensures |NewLines(s[..k])| == |NewLines(s[..start])| + |NewLines(s[start..k])|
    ensures !s[k].Insert? ==> OldLines(s[start..end]) != []
    ensures !s[k].Delete? ==> NewLines(s[start..end]) != []
  {
    PrefixSplits(s, start, k);
    SliceGrows(s, start, k);
    assert s[start..end] == s[start..k + 1] + s[k + 1..end];
    ScriptConcat(s[start..k + 1], s[k + 1..end]);
  }

  /** The hunks of a script are its slices at a layout with c lines of context, with true headers. */
  ghost predicate IsDiff(s: seq<Edit>, c: nat, hunks: seq<Hunk>) {
    exists rs :: Layout(s, c, rs, |s|) && AreHunks(s, rs, hunks)
  }

  /** The hunks between two texts with c lines of context, in order. */
  method ComputeHunks(oldLines: seq<Line>, newLines: seq<Line>, c: nat) returns (hunks: seq<Hunk>)
    ensures IsDiff(Script(oldLines, newLines), c, hunks)
  {
    hide Script, OldLines, NewLines, Layout, AreHunks, IsNumbering, Tight;
    var lcs := LcsMatrix(oldLines, newLines);
    var edits := Backtrack(lcs, oldLines, newLines);
    hunks := [];
    ghost var rs: seq<Region> := [];
    NoRegions(edits, c);
    if |edits| == 0 {
      return;
    }
    var all := NumberEdits(edits);
    NumberingShape(edits, all);
    var i := 0;
    while i < |all|
      invariant i <= |edits| && Layout(edits, c, rs, i) && AreHunks(edits, rs, hunks)
      invariant rs != [] ==> Quiet(edits, Covered(rs) + 1, Covered(rs) + 2 * c + 2) && Covered(rs) < i
    {
      if all[i].edit.Keep? {
        LayoutSkips(edits, c, rs, i);
        i := i + 1;
        continue;
      }
      var start := i - c;
      if start < 0 {
        start := 0;
      }
      var end := FindEnd(all, i, c, edits);
      ghost var last :| EndsAt(edits, c, i, last, end);
      var oldStart, oldCount, newStart, newCount := HunkHeader(all, start, end, edits);
      var body := HunkBody(all, start, end, edits);
      ghost var r := Region(start, i, last, end);
      LayoutGrows(edits, c, rs, i, r);
      assert body == edits[r.start..r.end];
      HunksGrow(edits, rs, hunks, r, Hunk(oldStart, oldCount, newStart, newCount, body));
      hunks := hunks + [Hunk(oldStart, oldCount, newStart, newCount, body)];
      rs := rs + [r];
      i := end;
    }
  }

  lemma NumberingShape(s: seq<Edit>, all: seq<Numbered>)
    requires IsNumbering(s, all)
    ensures |all| == |s| && forall k :: 0 <= k < |s| ==> all[k].edit == s[k]
  {
  }

  lemma NoRegions(s: seq<Edit>, c: nat)
    ensures Layout(s, c, [], 0) && AreHunks(s, [], [])
  {
  }

  lemma HunksGrow(s: seq<Edit>, rs: seq<Region>, hunks: seq<Hunk>, r: Region, h: Hunk)
    requires AreHunks(s, rs, hunks) && r.start <= r.end <= |s|
    requires h.body == s[r.start..r.end]
    requires h.oldCount == |OldLines(h.body)| && h.newCount == |NewLines(h.body)|
    requires h.oldStart == PrintedStart(OldLines(s[..r.start]), OldLines(h.body))
    requires h.newStart == PrintedStart(NewLines(s[..r.start]), NewLines(h.body))
    ensures AreHunks(s, rs + [r], hunks + [h])
  {
  }

  lemma LayoutSkips(s: seq<Edit>, c: nat, rs: seq<Region>, i: nat)
    requires i < |s| && !Changed(s, i) && Layout(s, c, rs, i)
    ensures Layout(s, c, rs, i + 1)
  {
  }

  lemma LayoutGrows(s: seq<Edit>, c: nat, rs: seq<Region>, i: nat, r: Region)
    requires i < |s| && Changed(s, i) && Layout(s, c, rs, i)
    requires rs != [] ==> Quiet(s, Covered(rs) + 1, Covered(rs) + 2 * c + 2) && Covered(rs) < i
    requires r.start == (if i < c then 0 else i - c) && r.first == i <= r.last < |s|
    requires Changed(s, r.last) && Tight(s, c, i, r.last)
    requires r.end == if r.last + 1 + c > |s| then |s| else r.last + 1 + c
    requires Quiet(s, r.last + 1, r.last + 2 * c + 2)
    ensures Layout(s, c, rs + [r], r.end) && r.last < r.end
  {
    assert (rs + [r])[..|rs|] == rs;
  }
}
