/** The parts of the string library that the repository uses, with what callers need to know about them. */
module Strings {

  /** Byte-wise order of strings, as Go's `<=`. */
  predicate Leq(a: string, b: string) {
    a == "" || (b != "" && (a[0] < b[0] || (a[0] == b[0] && Leq(a[1..], b[1..]))))
  }

  /** The order is settled where the strings first differ, and a string comes after its prefixes. */
  lemma {:induction false} LeqIs(a: string, b: string)
    ensures Leq(a, b) <==> a <= b || LessAtDifference(a, b)
  {
    hide LessAtDifference;
    if a != "" && b != "" && a[0] == b[0] {
      LeqIs(a[1..], b[1..]);
      assert a == [a[0]] + a[1..] && b == [b[0]] + b[1..];
      LaterDifference(a, b);
    } else {
      EarlyDifference(a, b);
    }
  }

  /** Where the strings first differ, the first has the smaller character. */
  predicate LessAtDifference(a: string, b: string) {
    exists i :: 0 <= i < |a| && i < |b| && a[..i] == b[..i] && a[i] < b[i]
  }

  lemma EarlyDifference(a: string, b: string)
    requires a == "" || b == "" || a[0] != b[0]
    ensures LessAtDifference(a, b) <==> a != "" && b != "" && a[0] < b[0]
  {
    if a != "" && b != "" {
      assert a[..0] == b[..0];
      forall i | 0 < i < |a| && i < |b| ensures a[..i] != b[..i] {
        assert a[..i][0] == a[0] && b[..i][0] == b[0];
      }
    }
  }

  lemma LaterDifference(a: string, b: string)
    requires a != "" && b != "" && a[0] == b[0]
    ensures LessAtDifference(a, b) <==> LessAtDifference(a[1..], b[1..])
  {
    if i :| 0 <= i < |a[1..]| && i < |b[1..]| && a[1..][..i] == b[1..][..i] && a[1..][i] < b[1..][i] {
      assert a[..i + 1] == [a[0]] + a[1..][..i] && b[..i + 1] == [b[0]] + b[1..][..i];
      assert a[i + 1] < b[i + 1];
    }
    if i :| 0 <= i < |a| && i < |b| && a[..i] == b[..i] && a[i] < b[i] {
      assert i > 0 && a[1..][..i - 1] == a[..i][1..] && b[1..][..i - 1] == b[..i][1..];
      assert a[1..][i - 1] < b[1..][i - 1];
    }
  }

  lemma {:induction false} LeqTotal(a: string, b: string)
    ensures Leq(a, b) || Leq(b, a)
    ensures Leq(a, b) && Leq(b, a) ==> a == b
  {
    if a != "" && b != "" {
      LeqTotal(a[1..], b[1..]);
      assert a == [a[0]] + a[1..] && b == [b[0]] + b[1..];
    }
  }

  lemma {:induction false} LeqTransitive(a: string, b: string, c: string)
    requires Leq(a, b) && Leq(b, c)
    ensures Leq(a, c)
  {
    if a != "" && a[0] == b[0] == c[0] {
      LeqTransitive(a[1..], b[1..], c[1..]);
    }
  }

  predicate IsLeast(x: string, s: set<string>) {
    x in s && forall y :: y in s ==> Leq(x, y)
  }

  lemma {:induction false} LeastExists(s: set<string>)
    requires s != {}
    ensures exists x :: IsLeast(x, s)
  {
    var y :| y in s;
    LeqTotal(y, y);
    if s == {y} {
      assert IsLeast(y, s);
    } else {
      LeastExists(s - {y});
      var z :| IsLeast(z, s - {y});
      LeqTotal(y, z);
      var x := if Leq(y, z) then y else z;
      forall w | w in s ensures Leq(x, w) {
        if w != y && x == y {
          LeqTransitive(y, z, w);
        }
      }
      assert IsLeast(x, s);
    }
  }

  lemma LeastUnique(s: set<string>, x: string, y: string)
    requires IsLeast(x, s) && IsLeast(y, s)
    ensures x == y
  {
    LeqTotal(x, y);
  }

  function Least(s: set<string>): (x: string)
    requires s != {}
    ensures IsLeast(x, s)
  {
    LeastExists(s);
    assert forall x, y :: IsLeast(x, s) && IsLeast(y, s) ==> x == y by {
      forall x, y | IsLeast(x, s) && IsLeast(y, s) ensures x == y { LeastUnique(s, x, y); }
    }
    var x :| x in s && IsLeast(x, s);
    x
  }

  ghost predicate Ascending(r: seq<string>) {
    forall i, j :: 0 <= i < j < |r| ==> Leq(r[i], r[j]) && r[i] != r[j]
  }

  /** The elements of a set in ascending order (Go's `slices.Sorted(maps.Keys(m))`). */
  function Sorted(s: set<string>): (r: seq<string>)
    ensures Ascending(r)
    ensures forall x :: x in r <==> x in s
    ensures |r| == |s|
  {
    if s == {} then []
    else [Least(s)] + Sorted(s - {Least(s)})
  }

  /** The last position of c in s, or -1. */
  function LastIndex(s: string, c: char): (idx: int)
    ensures -1 <= idx < |s|
  {
    if s == "" then -1
    else if s[|s| - 1] == c then |s| - 1
    else LastIndex(s[..|s| - 1], c)
  }

  lemma {:induction false} LastIndexFinds(s: string, c: char)
    ensures var idx := LastIndex(s, c);
            (idx < 0 <==> c !in s) && (idx >= 0 ==> s[idx] == c && c !in s[idx + 1..])
  {
    if s != "" && s[|s| - 1] != c {
      var front := s[..|s| - 1];
      LastIndexFinds(front, c);
      var idx := LastIndex(front, c);
      assert s == front + [s[|s| - 1]];
      assert idx >= 0 ==> s[idx + 1..] == front[idx + 1..] + [s[|s| - 1]];
    }
  }

  lemma {:induction false} LastIndexIs(front: string, c: char, rest: string)
    requires c !in rest
    ensures LastIndex(front + [c] + rest, c) == |front|
  {
    var s := front + [c] + rest;
    if rest == "" {
      assert s[|front|] == c;
    } else {
      var init := rest[..|rest| - 1];
      assert s[..|s| - 1] == front + [c] + init;
      LastIndexIs(front, c, init);
    }
  }

  lemma {:induction false} LastIndexAtLeast(s: string, c: char, i: nat)
    requires i < |s| && s[i] == c
    ensures i <= LastIndex(s, c)
  {
    if s[|s| - 1] != c {
      LastIndexAtLeast(s[..|s| - 1], c, i);
    }
  }

  /** The first position of c in s, or -1. */
  function Index(s: string, c: char): (idx: int)
    ensures -1 <= idx < |s|
  {
    if s == "" then -1
    else if s[0] == c then 0
    else if Index(s[1..], c) < 0 then -1
    else Index(s[1..], c) + 1
  }

  lemma {:induction false} IndexFinds(s: string, c: char)
    ensures var idx := Index(s, c);
            (idx < 0 <==> c !in s) && (idx >= 0 ==> s[idx] == c && c !in s[..idx])
  {
    if s != "" && s[0] != c {
      IndexFinds(s[1..], c);
      var rest := Index(s[1..], c);
      assert s == [s[0]] + s[1..];
      assert rest >= 0 ==> s[..rest + 1] == [s[0]] + s[1..][..rest];
    }
  }

  lemma {:induction false} IndexIs(front: string, c: char, rest: string)
    requires c !in front
    ensures Index(front + [c] + rest, c) == |front|
  {
    var s := front + [c] + rest;
    if front == "" {
      assert s[0] == c;
    } else {
      assert front[0] in front;
      assert s[1..] == front[1..] + [c] + rest;
      IndexIs(front[1..], c, rest);
    }
  }

  function TrimPrefix(s: string, p: string): string {
    if p <= s then s[|p|..] else s
  }

  predicate HasSuffix(s: string, t: string) {
    |t| <= |s| && s[|s| - |t|..] == t
  }

  function TrimSuffix(s: string, t: string): string {
    if HasSuffix(s, t) then s[..|s| - |t|] else s
  }

  /** The parts between separators (Go's `strings.Split` for a one-character separator): never empty. */
  function Split(s: string, sep: char): (parts: seq<string>)
    ensures |parts| >= 1
  {
    if s == "" then [""]
    else if s[0] == sep then [""] + Split(s[1..], sep)
    else [[s[0]] + Split(s[1..], sep)[0]] + Split(s[1..], sep)[1..]
  }

  function Join(parts: seq<string>, sep: char): string
    requires |parts| >= 1
  {
    if |parts| == 1 then parts[0] else parts[0] + [sep] + Join(parts[1..], sep)
  }

  lemma {:induction false} JoinSplit(s: string, sep: char)
    ensures Join(Split(s, sep), sep) == s
  {
    if s != "" {
      var rest := Split(s[1..], sep);
      JoinSplit(s[1..], sep);
      if s[0] == sep {
        assert ([""] + rest)[1..] == rest;
        assert s == [sep] + s[1..];
      } else {
        assert ([[s[0]] + rest[0]] + rest[1..])[1..] == rest[1..];
        assert s == [s[0]] + s[1..];
      }
    }
  }

  lemma {:induction false} SplitFree(s: string, sep: char, i: nat)
    requires i < |Split(s, sep)|
    ensures sep !in Split(s, sep)[i]
  {
    if s != "" {
      var rest := Split(s[1..], sep);
      if s[0] == sep {
        if i > 0 { SplitFree(s[1..], sep, i - 1); }
      } else {
        SplitFree(s[1..], sep, if i == 0 then 0 else i);
      }
    }
  }

  lemma SplitStep(c: char, s: string, sep: char)
    ensures Split([c] + s, sep) ==
      if c == sep then [""] + Split(s, sep) else [[c] + Split(s, sep)[0]] + Split(s, sep)[1..]
    ensures Split("", sep) == [""]
  {
    assert ([c] + s)[1..] == s;
  }

  /** Splitting around one more separator. */
  lemma {:induction false} SplitConcat(a: string, b: string, sep: char)
    ensures Split(a + [sep] + b, sep) == Split(a, sep) + Split(b, sep)
  {
    hide Split;
    if a == "" {
      SplitStep(sep, b, sep);
      assert a + [sep] + b == [sep] + b;
    } else {
      SplitConcat(a[1..], b, sep);
      assert a == [a[0]] + a[1..];
      SplitConcatStep(a[0], a[1..], b, sep);
    }
  }

  lemma SplitConcatStep(c: char, a: string, b: string, sep: char)
    requires Split(a + [sep] + b, sep) == Split(a, sep) + Split(b, sep)
    ensures Split([c] + a + [sep] + b, sep) == Split([c] + a, sep) + Split(b, sep)
  {
    hide Split;
    SplitStep(c, a, sep);
    SplitStep(c, a + [sep] + b, sep);
    assert [c] + a + [sep] + b == [c] + (a + [sep] + b);
    WiderFirst(c, Split(a, sep), Split(b, sep));
  }

  lemma WiderFirst(c: char, p: seq<string>, q: seq<string>)
    requires p != []
    ensures [""] + (p + q) == [""] + p + q
    ensures [[c] + (p + q)[0]] + (p + q)[1..] == [[c] + p[0]] + p[1..] + q
  {
  }

  lemma {:induction false} SplitWhole(s: string, sep: char)
    requires sep !in s
    ensures Split(s, sep) == [s]
  {
    if s != "" {
      assert s[0] in s;
      SplitWhole(s[1..], sep);
      assert s == [s[0]] + s[1..];
    }
  }

  lemma {:induction false} SplitJoin(parts: seq<string>, sep: char)
    requires |parts| >= 1 && forall p :: p in parts ==> sep !in p
    ensures Split(Join(parts, sep), sep) == parts
  {
    SplitWhole(parts[0], sep);
    if |parts| > 1 {
      SplitJoin(parts[1..], sep);
      SplitConcat(parts[0], Join(parts[1..], sep), sep);
    }
  }

  lemma {:induction false} JoinConcat(a: seq<string>, b: seq<string>, sep: char)
    requires |a| >= 1 && |b| >= 1
    ensures Join(a + b, sep) == Join(a, sep) + [sep] + Join(b, sep)
  {
    if |a| == 1 {
      assert (a + b)[1..] == b;
    } else {
      JoinConcat(a[1..], b, sep);
      assert (a + b)[1..] == a[1..] + b;
    }
  }

  /** Splitting turns "lies below, or is" into a prefix relation between the lists of parts. */
  lemma SplitPrefix(p: string, q: string, sep: char)
    ensures Split(p, sep) <= Split(q, sep) <==> p == q || p + [sep] <= q
  {
    hide Split, Join;
    var a, b := Split(p, sep), Split(q, sep);
    if a <= b {
      JoinSplit(p, sep);
      JoinSplit(q, sep);
      var rest := b[|a|..];
      assert b == a + rest;
      if rest == [] {
        assert a == b;
      } else {
        JoinConcat(a, rest, sep);
      }
    }
    if p + [sep] <= q {
      assert q == p + [sep] + q[|p| + 1..];
      SplitConcat(p, q[|p| + 1..], sep);
    }
  }
}
