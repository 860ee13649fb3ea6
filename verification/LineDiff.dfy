/** Line-by-line comparison: the table of longest common subsequences and the edit script read off it. */
module LineDiff {

  type Line = string

  /** One step of an edit script: a line kept, deleted from the old text, or inserted into the new one. */
  datatype Edit = Keep(line: Line) | Delete(line: Line) | Insert(line: Line)

  function Init<T>(s: seq<T>): seq<T>
    requires s != []
  {
    s[..|s| - 1]
  }

  function Last<T>(s: seq<T>): T
    requires s != []
  {
    s[|s| - 1]
  }

  /** The text a script starts from. */
  function OldLines(s: seq<Edit>): seq<Line> {
    if s == [] then []
    else OldLines(Init(s)) + if Last(s).Insert? then [] else [Last(s).line]
  }

  /** The text a script ends with. */
  function NewLines(s: seq<Edit>): seq<Line> {
    if s == [] then []
    else NewLines(Init(s)) + if Last(s).Delete? then [] else [Last(s).line]
  }

  function KeptLines(s: seq<Edit>): seq<Line> {
    if s == [] then []
    else KeptLines(Init(s)) + if Last(s).Keep? then [Last(s).line] else []
  }

  function Changes(s: seq<Edit>): nat {
    if s == [] then 0 else Changes(Init(s)) + if Last(s).Keep? then 0 else 1
  }

  ghost predicate IsSubsequence(s: seq<Line>, a: seq<Line>) {
    || s == []
    || (a != [] && (IsSubsequence(s, Init(a)) || (Last(s) == Last(a) && IsSubsequence(Init(s), Init(a)))))
  }

  /** The recurrence that the table satisfies. */
  function Lcs(a: seq<Line>, b: seq<Line>): nat {
    if a == [] || b == [] then 0
    else if Last(a) == Last(b) then Lcs(Init(a), Init(b)) + 1
    else if Lcs(Init(a), b) >= Lcs(a, Init(b)) then Lcs(Init(a), b)
    else Lcs(a, Init(b))
  }

  lemma {:induction false} ShortenSubsequence(s: seq<Line>, a: seq<Line>)
    requires s != [] && IsSubsequence(s, a)
    ensures IsSubsequence(Init(s), a)
  {
    if IsSubsequence(s, Init(a)) {
      ShortenSubsequence(s, Init(a));
    } else {
      LengthenHost(Init(s), Init(a), Last(a));
      assert a == Init(a) + [Last(a)];
    }
  }

  lemma LengthenHost(s: seq<Line>, a: seq<Line>, x: Line)
    requires IsSubsequence(s, a)
    ensures IsSubsequence(s, a + [x])
  {
    assert Init(a + [x]) == a;
  }

  lemma ShortenBoth(s: seq<Line>, a: seq<Line>)
    requires s != [] && IsSubsequence(s, a)
    ensures a != [] && IsSubsequence(Init(s), Init(a))
  {
    if IsSubsequence(s, Init(a)) {
      ShortenSubsequence(s, Init(a));
    }
  }

  /** No common subsequence is longer than the table says. */
  lemma {:induction false} LcsBounds(a: seq<Line>, b: seq<Line>, s: seq<Line>)
    requires IsSubsequence(s, a) && IsSubsequence(s, b)
    ensures |s| <= Lcs(a, b)
    decreases |a| + |b|
  {
    if s != [] {
      ShortenBoth(s, a);
      ShortenBoth(s, b);
      if Last(a) == Last(b) {
        LcsBounds(Init(a), Init(b), Init(s));
      } else if Last(s) != Last(a) {
        LcsBounds(Init(a), b, s);
      } else {
        LcsBounds(a, Init(b), s);
      }
    }
  }

  /** One inner cell of the table, from its three neighbours. */
  lemma LcsCell(a: seq<Line>, b: seq<Line>, i: nat, j: nat)
    requires 0 < i <= |a| && 0 < j <= |b|
    ensures Lcs(a[..i], b[..j]) ==
            if a[i - 1] == b[j - 1] then Lcs(a[..i - 1], b[..j - 1]) + 1
            else if Lcs(a[..i - 1], b[..j]) >= Lcs(a[..i], b[..j - 1]) then Lcs(a[..i - 1], b[..j])
            else Lcs(a[..i], b[..j - 1])
  {
    assert Init(a[..i]) == a[..i - 1] && Init(b[..j]) == b[..j - 1];
  }

  lemma LcsBorders(a: seq<Line>, b: seq<Line>)
    ensures forall v :: 0 <= v <= |b| ==> Lcs(a[..0], b[..v]) == 0
    ensures forall u :: 0 <= u <= |a| ==> Lcs(a[..u], b[..0]) == 0
  {
  }

  /** The table, computed row by row. */
  method LcsMatrix(a: seq<Line>, b: seq<Line>) returns (dp: array2<int>)
    ensures fresh(dp) && dp.Length0 == |a| + 1 && dp.Length1 == |b| + 1
    ensures forall i, j :: 0 <= i <= |a| && 0 <= j <= |b| ==> dp[i, j] == Lcs(a[..i], b[..j])
  {
    hide Lcs;
    LcsBorders(a, b);
    dp := new int[|a| + 1, |b| + 1]((i, j) => 0);
    for i := 1 to |a| + 1
      invariant forall u, v :: 0 <= u < i && 0 <= v <= |b| ==> dp[u, v] == Lcs(a[..u], b[..v])
      invariant forall u :: 0 <= u <= |a| ==> dp[u, 0] == 0
    {
      for j := 1 to |b| + 1
        invariant forall u, v :: 0 <= u < i && 0 <= v <= |b| ==> dp[u, v] == Lcs(a[..u], b[..v])
        invariant forall u :: 0 <= u <= |a| ==> dp[u, 0] == 0
        invariant forall v :: 0 <= v < j ==> dp[i, v] == Lcs(a[..i], b[..v])
      {
        LcsCell(a, b, i, j);
        if a[i - 1] == b[j - 1] {
          dp[i, j] := dp[i - 1, j - 1] + 1;
        } else if dp[i - 1, j] >= dp[i, j - 1] {
          dp[i, j] := dp[i - 1, j];
        } else {
          dp[i, j] := dp[i, j - 1];
        }
      }
    }
  }

  /** The script read off the table from its far corner: matches first, then insertions on a tie. */
  function Script(a: seq<Line>, b: seq<Line>): seq<Edit>
    decreases |a| + |b|
  {
    if a == [] && b == [] then []
    else if a != [] && b != [] && Last(a) == Last(b) then Script(Init(a), Init(b)) + [Keep(Last(a))]
    else if b != [] && (a == [] || Lcs(a, Init(b)) >= Lcs(Init(a), b)) then Script(a, Init(b)) + [Insert(Last(b))]
    else Script(Init(a), b) + [Delete(Last(a))]
  }

  /** How the script for the first i and j lines ends. */
  lemma ScriptEnds(a: seq<Line>, b: seq<Line>, i: nat, j: nat)
    requires i <= |a| && j <= |b| && (i > 0 || j > 0)
    ensures i > 0 && j > 0 && a[i - 1] == b[j - 1] ==>
              Script(a[..i], b[..j]) == Script(a[..i - 1], b[..j - 1]) + [Keep(a[i - 1])]
    ensures !(i > 0 && j > 0 && a[i - 1] == b[j - 1]) ==>
              if j > 0 && (i == 0 || Lcs(a[..i], b[..j - 1]) >= Lcs(a[..i - 1], b[..j])) then
                Script(a[..i], b[..j]) == Script(a[..i], b[..j - 1]) + [Insert(b[j - 1])]
              else
                i > 0 && Script(a[..i], b[..j]) == Script(a[..i - 1], b[..j]) + [Delete(a[i - 1])]
  {
    assert i > 0 ==> Init(a[..i]) == a[..i - 1] && Last(a[..i]) == a[i - 1];
    assert j > 0 ==> Init(b[..j]) == b[..j - 1] && Last(b[..j]) == b[j - 1];
  }

  method Backtrack(dp: array2<int>, a: seq<Line>, b: seq<Line>) returns (ops: seq<Edit>)
    requires dp.Length0 == |a| + 1 && dp.Length1 == |b| + 1
    requires forall i, j :: 0 <= i <= |a| && 0 <= j <= |b| ==> dp[i, j] == Lcs(a[..i], b[..j])
    ensures ops == Script(a, b)
  {
    hide Script, Lcs;
    ops := [];
    var i, j := |a|, |b|;
    assert a[..i] == a && b[..j] == b;
    while i > 0 || j > 0
      invariant 0 <= i <= |a| && 0 <= j <= |b|
      invariant Script(a[..i], b[..j]) + ops == Script(a, b)
      decreases i + j
    {
      ghost var before, was := Script(a[..i], b[..j]), ops;
      ScriptEnds(a, b, i, j);
      if i > 0 && j > 0 && a[i - 1] == b[j - 1] {
        ops := [Keep(a[i - 1])] + ops;
        i, j := i - 1, j - 1;
      } else if j > 0 && (i == 0 || dp[i, j - 1] >= dp[i - 1, j]) {
        ops := [Insert(b[j - 1])] + ops;
        j := j - 1;
      } else {
        ops := [Delete(a[i - 1])] + ops;
        i := i - 1;
      }
      assert before == Script(a[..i], b[..j]) + [ops[0]];
    }
    EmptyScript(a, b);
  }

  lemma EmptyScript(a: seq<Line>, b: seq<Line>)
    ensures Script(a[..0], b[..0]) == []
  {
  }

  lemma Snoc(s: seq<Edit>, e: Edit)
    ensures OldLines(s + [e]) == OldLines(s) + if e.Insert? then [] else [e.line]
    ensures NewLines(s + [e]) == NewLines(s) + if e.Delete? then [] else [e.line]
    ensures KeptLines(s + [e]) == KeptLines(s) + if e.Keep? then [e.line] else []
  {
    assert Init(s + [e]) == s;
  }

  /** The script leads from a to b and keeps as many lines as the table says. */
  lemma {:induction false} ScriptLeads(a: seq<Line>, b: seq<Line>)
    ensures OldLines(Script(a, b)) == a && NewLines(Script(a, b)) == b
    ensures |KeptLines(Script(a, b))| == Lcs(a, b)
    decreases |a| + |b|
  {
    hide OldLines, NewLines, KeptLines, Script, Lcs;
    ScriptStep(a, b);
    if a == [] && b == [] {
      EmptyTexts();
    } else if a != [] && b != [] && Last(a) == Last(b) {
      ScriptLeads(Init(a), Init(b));
      LeadsOn(Script(Init(a), Init(b)), Keep(Last(a)), Init(a), Init(b));
      assert a == Init(a) + [Last(a)] && b == Init(b) + [Last(b)];
    } else if b != [] && (a == [] || Lcs(a, Init(b)) >= Lcs(Init(a), b)) {
      ScriptLeads(a, Init(b));
      LeadsOn(Script(a, Init(b)), Insert(Last(b)), a, Init(b));
      assert b == Init(b) + [Last(b)];
    } else {
      ScriptLeads(Init(a), b);
      LeadsOn(Script(Init(a), b), Delete(Last(a)), Init(a), b);
      assert a == Init(a) + [Last(a)];
    }
  }

  /** The last edit of the script, and what it adds to the length of the common subsequence. */
  lemma ScriptStep(a: seq<Line>, b: seq<Line>)
    ensures a == [] && b == [] ==> Script(a, b) == [] && Lcs(a, b) == 0
    ensures a != [] && b != [] && Last(a) == Last(b) ==>
              Script(a, b) == Script(Init(a), Init(b)) + [Keep(Last(a))] && Lcs(a, b) == Lcs(Init(a), Init(b)) + 1
    ensures !(a != [] && b != [] && Last(a) == Last(b)) && b != [] && (a == [] || Lcs(a, Init(b)) >= Lcs(Init(a), b)) ==>
              Script(a, b) == Script(a, Init(b)) + [Insert(Last(b))] && Lcs(a, b) == Lcs(a, Init(b))
    ensures !(a != [] && b != [] && Last(a) == Last(b)) && a != [] && (b == [] || Lcs(a, Init(b)) < Lcs(Init(a), b)) ==>
              Script(a, b) == Script(Init(a), b) + [Delete(Last(a))] && Lcs(a, b) == Lcs(Init(a), b)
  {
  }

  lemma LeadsOn(s: seq<Edit>, e: Edit, a: seq<Line>, b: seq<Line>)
    requires OldLines(s) == a && NewLines(s) == b
    ensures OldLines(s + [e]) == (if e.Insert? then a else a + [e.line])
    ensures NewLines(s + [e]) == (if e.Delete? then b else b + [e.line])
    ensures |KeptLines(s + [e])| == |KeptLines(s)| + if e.Keep? then 1 else 0
  {
    hide OldLines, NewLines, KeptLines;
    Snoc(s, e);
  }

  lemma EmptyTexts()
    ensures OldLines([]) == [] && NewLines([]) == [] && KeptLines([]) == []
  {
  }

  /** The lines a script keeps are common to both texts, and fix how many it changes. */
  lemma {:induction false} KeptIsCommon(s: seq<Edit>)
    ensures IsSubsequence(KeptLines(s), OldLines(s)) && IsSubsequence(KeptLines(s), NewLines(s))
    ensures Changes(s) == |OldLines(s)| + |NewLines(s)| - 2 * |KeptLines(s)|
  {
    if s != [] {
      var t, e := Init(s), Last(s);
      KeptIsCommon(t);
      if e.Keep? {
        KeepBoth(KeptLines(t), OldLines(t), e.line);
        KeepBoth(KeptLines(t), NewLines(t), e.line);
      } else if e.Delete? {
        assert KeptLines(s) == KeptLines(t) && NewLines(s) == NewLines(t);
        LengthenHost(KeptLines(t), OldLines(t), e.line);
      } else {
        assert KeptLines(s) == KeptLines(t) && OldLines(s) == OldLines(t);
        LengthenHost(KeptLines(t), NewLines(t), e.line);
      }
    }
  }

  lemma KeepBoth(s: seq<Line>, a: seq<Line>, x: Line)
    requires IsSubsequence(s, a)
    ensures IsSubsequence(s + [x], a + [x])
  {
    assert Init(s + [x]) == s && Init(a + [x]) == a;
  }

  /** No script from a to b makes fewer changes, although matches were taken greedily. */
  lemma ScriptIsOptimal(a: seq<Line>, b: seq<Line>, t: seq<Edit>)
    requires OldLines(t) == a && NewLines(t) == b
    ensures Changes(Script(a, b)) <= Changes(t)
    ensures |KeptLines(t)| <= |KeptLines(Script(a, b))|
  {
    KeptIsCommon(t);
    LcsBounds(a, b, KeptLines(t));
    ScriptLeads(a, b);
    KeptIsCommon(Script(a, b));
  }

  /** The script changes nothing exactly when the texts are equal. */
  lemma UnchangedIffEqual(a: seq<Line>, b: seq<Line>)
    ensures Changes(Script(a, b)) == 0 <==> a == b
  {
    ScriptLeads(a, b);
    if a == b {
      ScriptIsOptimal(a, b, KeepAll(a));
    } else if Changes(Script(a, b)) == 0 {
      NoChanges(Script(a, b));
    }
  }

  ghost function KeepAll(a: seq<Line>): (s: seq<Edit>)
    ensures OldLines(s) == a && NewLines(s) == a && Changes(s) == 0
  {
    if a == [] then []
    else
      var s := KeepAll(Init(a)) + [Keep(Last(a))];
      assert Init(s) == KeepAll(Init(a)) && a == Init(a) + [Last(a)];
      s
  }

  lemma {:induction false} NoChanges(s: seq<Edit>)
    requires Changes(s) == 0
    ensures OldLines(s) == NewLines(s)
  {
    if s != [] {
      NoChanges(Init(s));
    }
  }

  /** One more old line makes no common subsequence shorter. */
  lemma LcsGrows(a: seq<Line>, b: seq<Line>)
    requires a != []
    ensures Lcs(Init(a), b) <= Lcs(a, b)
  {
    hide Script, Lcs, OldLines, NewLines, KeptLines;
    var s := Script(Init(a), b);
    ScriptLeads(Init(a), b);
    KeptIsCommon(s);
    assert IsSubsequence(KeptLines(s), a);
    LcsBounds(a, b, KeptLines(s));
  }

  /** Where lines are replaced, the removed ones come before the inserted ones. */
  lemma {:induction false} RemovalsFirst(a: seq<Line>, b: seq<Line>, i: nat)
    requires i + 1 < |Script(a, b)|
    ensures !(Script(a, b)[i].Insert? && Script(a, b)[i + 1].Delete?)
    decreases |a| + |b|
  {
    hide Script, Lcs;
    ScriptStep(a, b);
    if a != [] && b != [] && Last(a) == Last(b) {
      if i + 1 < |Script(Init(a), Init(b))| { RemovalsFirst(Init(a), Init(b), i); }
    } else if b != [] && (a == [] || Lcs(a, Init(b)) >= Lcs(Init(a), b)) {
      if i + 1 < |Script(a, Init(b))| { RemovalsFirst(a, Init(b), i); }
    } else if i + 1 < |Script(Init(a), b)| {
      RemovalsFirst(Init(a), b, i);
    } else {
      NoInsertionBefore(a, b);
    }
  }

  lemma NoInsertionBefore(a: seq<Line>, b: seq<Line>)
    requires a != [] && !(b != [] && Last(a) == Last(b)) && (b == [] || Lcs(a, Init(b)) < Lcs(Init(a), b))
    ensures Script(Init(a), b) != [] ==> !Last(Script(Init(a), b)).Insert?
  {
    hide Script, Lcs;
    ScriptStep(Init(a), b);
    if b != [] {
      LcsGrows(a, Init(b));
      LcsEmpty(b);
    }
  }

  lemma LcsEmpty(b: seq<Line>)
    ensures Lcs([], b) == 0
  {
  }

  lemma {:induction false} ScriptConcat(s: seq<Edit>, t: seq<Edit>)
    ensures OldLines(s + t) == OldLines(s) + OldLines(t)
    ensures NewLines(s + t) == NewLines(s) + NewLines(t)
  {
    hide OldLines, NewLines, KeptLines;
    EmptyTexts();
    if t == [] {
      assert s + t == s;
    } else {
      ScriptConcat(s, Init(t));
      Snoc(Init(t), Last(t));
      Snoc(s + Init(t), Last(t));
      assert t == Init(t) + [Last(t)] && s + t == (s + Init(t)) + [Last(t)];
    }
  }
}
