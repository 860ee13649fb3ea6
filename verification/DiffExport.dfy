/** Comparing rendered content with the file it would overwrite. */
module DiffExport {
  import opened LineDiff
  import opened Hunks
  import opened Patch
  import opened Wrappers
  import opened Strings

  /** What reading the existing file gave. */
  datatype Existing = Absent | Content(text: string) | Unreadable

  datatype DiffResult = DiffResult(isNew: bool, hasChanges: bool, hunks: seq<Hunk>)

  const CONTEXT_LINES: nat := 3

  /** The lines of a content, without the empty part that a final newline leaves behind. */
  function Lines(content: string): seq<Line> {
    var parts := Split(content, '\n');
    if Last(parts) == "" then Init(parts) else parts
  }

  /** The content with its last line terminated. */
  function Terminated(content: string): string {
    if content == "" || Last(content) == '\n' then content else content + "\n"
  }

  /** Every line followed by a newline. */
  function Unlines(lines: seq<Line>): string {
    if lines == [] then "" else lines[0] + "\n" + Unlines(lines[1..])
  }

  lemma {:induction false} UnlinesJoin(parts: seq<Line>)
    requires |parts| >= 1
    ensures Unlines(parts) == Join(parts, '\n') + "\n"
  {
    if |parts| > 1 {
      UnlinesJoin(parts[1..]);
    }
  }

  lemma {:induction false} UnlinesInit(parts: seq<Line>)
    requires |parts| >= 1 && Last(parts) == ""
    ensures Unlines(parts) == Unlines(Init(parts)) + "\n"
  {
    if |parts| > 1 {
      UnlinesInit(parts[1..]);
      assert Init(parts)[1..] == Init(parts[1..]);
      assert Unlines(parts) == parts[0] + "\n" + Unlines(Init(parts[1..])) + "\n";
    }
  }

  /** The last part is empty exactly for a content that needs no terminator. */
  lemma {:induction false} LastPart(content: string)
    ensures Last(Split(content, '\n')) == "" <==> content == "" || Last(content) == '\n'
  {
    if content != "" {
      LastPart(content[1..]);
      var rest := Split(content[1..], '\n');
      if content[0] == '\n' {
        assert Last(Split(content, '\n')) == Last(rest);
      } else if |rest| > 1 {
        assert Last(Split(content, '\n')) == Last(rest);
      } else {
        JoinSplit(content[1..], '\n');
      }
    }
  }

  /** The lines give the content back, up to a missing final newline. */
  lemma LinesRoundTrip(content: string)
    ensures Unlines(Lines(content)) == Terminated(content)
    ensures Unlines(Lines(content)) == if content == "" || content[|content| - 1] == '\n' then content else content + "\n"
    ensures forall line :: line in Lines(content) ==> '\n' !in line
  {
    forall line | line in Lines(content) ensures '\n' !in line {
      var k :| 0 <= k < |Lines(content)| && Lines(content)[k] == line;
      SplitFree(content, '\n', k);
    }
    var parts := Split(content, '\n');
    UnlinesJoin(parts);
    JoinSplit(content, '\n');
    LastPart(content);
    if Last(parts) == "" {
      UnlinesInit(parts);
      assert Unlines(Init(parts)) + "\n" == content + "\n";
      assert (Unlines(Init(parts)) + "\n")[..|content|] == content;
    }
  }

  lemma LinesTerminated(content: string)
    ensures Lines(Terminated(content)) == Lines(content)
  {
    LastPart(content);
    if Terminated(content) != content {
      SplitConcat(content, "", '\n');
      assert content + ['\n'] + "" == content + "\n";
      assert Split(content + "\n", '\n') == Split(content, '\n') + [""];
    }
  }

  /** Two contents have the same lines exactly when they differ at most in the final newline. */
  lemma SameLines(x: string, y: string)
    ensures Lines(x) == Lines(y) <==> Terminated(x) == Terminated(y)
  {
    LinesRoundTrip(x);
    LinesRoundTrip(y);
    LinesTerminated(x);
    LinesTerminated(y);
  }

  /** The texts are equal, or one of them lacks the final newline of the other. */
  predicate EqualButNewline(x: string, y: string) {
    || x == y
    || (x != "" && x[|x| - 1] != '\n' && x + "\n" == y)
    || (y != "" && y[|y| - 1] != '\n' && y + "\n" == x)
  }

  lemma TerminatedAlike(x: string, y: string)
    ensures Terminated(x) == Terminated(y) <==> EqualButNewline(x, y)
  {
    if Terminated(x) == Terminated(y) && Terminated(x) != x && Terminated(y) != y {
      assert (x + "\n")[..|x|] == x && (y + "\n")[..|y|] == y;
    }
  }

  function AllInserted(lines: seq<Line>): seq<Edit> {
    seq(|lines|, i requires 0 <= i < |lines| => Insert(lines[i]))
  }

  lemma {:induction false} AllInsertedTexts(lines: seq<Line>)
    ensures OldLines(AllInserted(lines)) == [] && NewLines(AllInserted(lines)) == lines
  {
    if lines != [] {
      AllInsertedTexts(Init(lines));
      assert Init(AllInserted(lines)) == AllInserted(Init(lines));
    }
  }

  /**
   The comparison. Reported hunks are those of the shortest script, with three lines of context; they turn the lines of
   the file into the lines of the new content, and backwards; a reported change without hunks is a difference in the
   final newline only.
   */
  method Compare(existing: Existing, newContent: string) returns (r: Option<DiffResult>)
    ensures r.None? <==> existing.Unreadable?
    ensures existing.Absent? ==>
              && r.value.isNew && r.value.hasChanges
              && |r.value.hunks| == 1 && Apply([], r.value.hunks, 0, 0) == Some(Lines(newContent))
    ensures existing.Absent? ==>
              && r.value.hunks[0].oldStart == 0 && r.value.hunks[0].newStart == 1
              && OldLines(r.value.hunks[0].body) == [] && NewLines(r.value.hunks[0].body) == Lines(newContent)
    ensures existing.Content? ==> IsDiff(Script(Lines(existing.text), Lines(newContent)), 3, r.value.hunks)
    ensures existing.Content? ==> !r.value.isNew && (r.value.hasChanges <==> existing.text != newContent)
    ensures existing.Content? ==>
              && Apply(Lines(existing.text), r.value.hunks, 0, 0) == Some(Lines(newContent))
              && Apply(Lines(newContent), FlipHunks(r.value.hunks), 0, 0) == Some(Lines(existing.text))
              && (r.value.hunks == [] <==> EqualButNewline(existing.text, newContent))
  {
    match existing
    case Unreadable =>
      return None;
    case Absent =>
      var lines := Lines(newContent);
      AllInsertedTexts(lines);
      var hunk := Hunk(0, 0, 1, |lines|, AllInserted(lines));
      assert [hunk][1..] == [];
      assert Apply([], [hunk], 0, 0) == Some([] + lines + []) && [] + lines + [] == lines;
      return Some(DiffResult(true, true, [hunk]));
    case Content(text) =>
      if text == newContent {
        NothingToShow(Lines(text), CONTEXT_LINES);
        return Some(DiffResult(false, false, []));
      }
      var oldLines, newLines := Lines(text), Lines(newContent);
      var hunks := ComputeHunks(oldLines, newLines, CONTEXT_LINES);
      DiffIsFaithful(oldLines, newLines, CONTEXT_LINES, hunks);
      SameLines(text, newContent);
      TerminatedAlike(text, newContent);
      return Some(DiffResult(false, true, hunks));
  }

  lemma NothingToShow(a: seq<Line>, c: nat)
    requires c >= 1
    ensures IsDiff(Script(a, a), c, [])
    ensures Apply(a, [], 0, 0) == Some(a) && FlipHunks([]) == []
  {
    UnchangedIffEqual(a, a);
    QuietIffUnchanged(Script(a, a));
    assert Layout(Script(a, a), c, [], |Script(a, a)|) && AreHunks(Script(a, a), [], []);
  }

  /** Everything ComputeHunks promises, in terms of the two texts. */
  lemma DiffIsFaithful(a: seq<Line>, b: seq<Line>, c: nat, hunks: seq<Hunk>)
    requires IsDiff(Script(a, b), c, hunks) && c >= 1
    ensures Apply(a, hunks, 0, 0) == Some(b)
    ensures Apply(b, FlipHunks(hunks), 0, 0) == Some(a)
    ensures hunks == [] <==> a == b
  {
    hide Script, Layout;
    var rs :| Layout(Script(a, b), c, rs, |Script(a, b)|) && AreHunks(Script(a, b), rs, hunks);
    ScriptLeads(a, b);
    HunksApply(Script(a, b), c, rs, hunks);
    HunksApplyBackwards(Script(a, b), c, rs, hunks);
    NoHunksIffEqual(a, b, c, rs);
  }
}
