// Two helpers of libgit2/src/blame_git.c: trim_common_tail, which cuts what two files end
// with before they are compared, and coalesce, which joins neighbouring entries.
module BlameTidy {
  import opened BlameModel

  // ---- trim_common_tail

  // The lines of a file, each with its terminator; the last may have none.
  function LinesOf(s: string): seq<string> {
    if s == [] then []
    else if s[0] == '\n' then ["\n"] + LinesOf(s[1..])
    else
      var rest := LinesOf(s[1..]);
      if rest == [] then [s] else [[s[0]] + rest[0]] + rest[1..]
  }

  const BLK := 1024

  predicate EndsLine(s: string) {
    s == [] || s[|s| - 1] == '\n'
  }

  predicate OneLine(s: string) {
    '\n' !in s
  }

  // The tail that the files share in whole blocks is as long as it can be, and they get back
  // its beginning up to the first newline.
  ghost predicate Trims(a: string, b: string, tail: nat, ka: nat) {
    && tail % 1024 == 0 && tail <= |a| && tail <= |b| && a[|a| - tail..] == b[|b| - tail..]
    && (tail + 1024 <= |a| && tail + 1024 <= |b| ==> a[|a| - tail - 1024..] != b[|b| - tail - 1024..])
    && |a| - tail <= ka <= |a|
    && (|a| - tail < ka ==> OneLine(a[|a| - tail..ka - 1]))
    && (ka < |a| ==> |a| - tail < ka && a[ka - 1] == '\n')
  }

  // What is left of the two files: they lose the same tail, and lose it at the end of a
  // line.
  method TrimCommonTail(a: string, b: string) returns (ka: nat, kb: nat)
    ensures ka <= |a| && kb <= |b| && a[ka..] == b[kb..]
    ensures ka == |a| || (EndsLine(a[..ka]) && EndsLine(b[..kb]))
    ensures exists tail: nat :: Trims(a, b, tail, ka)
  {
    hide Trims, EndsLine, OneLine, Tail;
    assert OneLine([]) && Tail(a, 0) == Tail(b, 0) by { NoLine(); }
    var smaller := if |a| < |b| then |a| else |b|;
    var trimmed: nat, recovered: nat := 0, 0;
    while BLK + trimmed <= smaller
          && a[|a| - trimmed - BLK..|a| - trimmed] == b[|b| - trimmed - BLK..|b| - trimmed]
      invariant trimmed <= smaller && trimmed % BLK == 0 && Tail(a, trimmed) == Tail(b, trimmed)
    {
      SplitTail(a, trimmed);
      SplitTail(b, trimmed);
      trimmed := trimmed + BLK;
    }
    BlocksDiffer(a, b, trimmed);
    ghost var tail := Tail(a, trimmed);
    var found := false;
    while recovered < trimmed && !found
      invariant recovered <= trimmed && (found ==> recovered > 0 && tail[recovered - 1] == '\n')
      invariant OneLine(tail[..if found then recovered - 1 else recovered])
      decreases trimmed - recovered, !found
    {
      found := a[|a| - trimmed + recovered] == '\n';
      TailAt(a, trimmed, recovered);
      if !found {
        LongerLine(tail, recovered);
      }
      recovered := recovered + 1;
    }
    ka, kb := |a| - (trimmed - recovered), |b| - (trimmed - recovered);
    CutTail(a, trimmed, recovered);
    CutTail(b, trimmed, recovered);
    if !found && recovered > 0 {
      ShorterLine(tail, recovered);
    }
    TrimsWhen(a, b, trimmed, recovered);
  }

  function Tail(s: string, n: nat): (t: string)
    requires n <= |s|
    ensures |t| == n
  {
    s[|s| - n..]
  }

  lemma TailAt(s: string, n: nat, i: nat)
    requires i < n <= |s|
    ensures Tail(s, n)[i] == s[|s| - n + i]
  {
  }

  lemma SplitTail(s: string, n: nat)
    requires n + BLK <= |s|
    ensures Tail(s, n + BLK) == s[|s| - n - BLK..|s| - n] + Tail(s, n)
  {
  }

  lemma CutTail(s: string, trimmed: nat, recovered: nat)
    requires recovered <= trimmed <= |s|
    ensures var k := |s| - (trimmed - recovered);
      && s[k..] == Tail(s, trimmed)[recovered..]
      && (recovered > 0 && Tail(s, trimmed)[recovered - 1] == '\n' ==> EndsLine(s[..k]))
  {
  }

  lemma BlocksDiffer(a: string, b: string, tail: nat)
    requires tail <= |a| && tail <= |b|
    requires tail + BLK <= |a| && tail + BLK <= |b| ==>
      a[|a| - tail - BLK..|a| - tail] != b[|b| - tail - BLK..|b| - tail]
    ensures tail + BLK <= |a| && tail + BLK <= |b| ==> a[|a| - tail - BLK..] != b[|b| - tail - BLK..]
  {
    if tail + BLK <= |a| && tail + BLK <= |b| {
      assert a[|a| - tail - BLK..][..BLK] == a[|a| - tail - BLK..|a| - tail];
      assert b[|b| - tail - BLK..][..BLK] == b[|b| - tail - BLK..|b| - tail];
    }
  }

  lemma TrimsWhen(a: string, b: string, tail: nat, recovered: nat)
    requires tail % BLK == 0 && recovered <= tail <= |a| && tail <= |b| && Tail(a, tail) == Tail(b, tail)
    requires tail + BLK <= |a| && tail + BLK <= |b| ==> a[|a| - tail - BLK..] != b[|b| - tail - BLK..]
    requires recovered > 0 ==> OneLine(Tail(a, tail)[..recovered - 1])
    requires recovered == tail || (recovered > 0 && Tail(a, tail)[recovered - 1] == '\n')
    ensures Trims(a, b, tail, |a| - (tail - recovered))
  {
    if recovered > 0 {
      assert Tail(a, tail)[..recovered - 1] == a[|a| - tail..|a| - (tail - recovered) - 1];
    }
  }

  lemma ShorterLine(s: string, n: nat)
    requires 0 < n <= |s| && OneLine(s[..n])
    ensures OneLine(s[..n - 1])
  {
    assert s[..n] == s[..n - 1] + [s[n - 1]];
  }

  lemma NoLine()
    ensures OneLine([]) && forall a, b :: Tail(a, 0) == Tail(b, 0)
  {
  }

  lemma LongerLine(s: string, n: nat)
    requires n < |s| && OneLine(s[..n]) && s[n] != '\n'
    ensures OneLine(s[..n + 1])
  {
  }

  lemma {:induction false} LinesOfBoth(s: string, t: string)
    requires EndsLine(s)
    ensures LinesOf(s + t) == LinesOf(s) + LinesOf(t)
  {
    if s == [] {
      assert s + t == t;
    } else {
      assert (s + t)[1..] == s[1..] + t;
      if |s| > 1 {
        assert s[1..][|s[1..]| - 1] == s[|s| - 1];
      }
      LinesOfBoth(s[1..], t);
    }
  }

  lemma {:induction false} AlignedAhead(x: seq<string>, y: seq<string>, t: seq<string>, hs: seq<Hunk>, i: nat, j: nat)
    requires Aligned(x, y, hs, i, j)
    ensures Aligned(x + t, y + t, hs, i, j)
  {
    if hs == [] {
      assert (x + t)[i..] == x[i..] + t && (y + t)[j..] == y[j..] + t;
    } else {
      var h := hs[0];
      assert (x + t)[i..h.startA] == x[i..h.startA] && (y + t)[j..h.startB] == y[j..h.startB];
      AlignedAhead(x, y, t, hs[1..], h.startA + h.countA, h.startB + h.countB);
    }
  }

  // A diff of what is left is a diff of the two files.
  lemma TrimKeepsDiffs(a: string, b: string, ka: nat, kb: nat, hs: seq<Hunk>)
    requires ka <= |a| && kb <= |b| && a[ka..] == b[kb..]
    requires ka == |a| || (EndsLine(a[..ka]) && EndsLine(b[..kb]))
    requires Aligned(LinesOf(a[..ka]), LinesOf(b[..kb]), hs, 0, 0)
    ensures Aligned(LinesOf(a), LinesOf(b), hs, 0, 0)
  {
    assert a == a[..ka] + a[ka..] && b == b[..kb] + b[kb..];
    if ka == |a| {
      assert |b[kb..]| == 0 && a[..ka] == a && b[..kb] == b;
    } else {
      LinesOfBoth(a[..ka], a[ka..]);
      LinesOfBoth(b[..kb], b[kb..]);
      AlignedAhead(LinesOf(a[..ka]), LinesOf(b[..kb]), LinesOf(a[ka..]), hs, 0, 0);
    }
  }

  // ---- coalesce

  predicate Joins(e: Entry, f: Entry) {
    e.suspect == f.suspect && e.guilty == f.guilty && e.sLno + e.num == f.sLno
  }

  function Coalesce(es: seq<Entry>): seq<Entry>
    decreases |es|
  {
    if |es| < 2 then es
    else if Joins(es[0], es[1]) then Coalesce([es[0].(num := es[0].num + es[1].num)] + es[2..])
    else [es[0]] + Coalesce(es[1..])
  }

  // coalesce does not look at the mark; a run sets it for all entries of a suspect alike.
  ghost predicate MarkedAlike(es: seq<Entry>) {
    forall i, j :: 0 <= i < j < |es| && es[i].suspect == es[j].suspect && es[i].guilty == es[j].guilty ==>
      es[i].boundary == es[j].boundary
  }

  // Nothing changes for any line, and no two neighbours are left to join.
  lemma {:induction false} CoalesceKeeps(es: seq<Entry>, lo: nat, hi: nat)
    requires TilesFrom(es, lo, hi) && MarkedAlike(es)
    ensures var r := Coalesce(es);
      && TilesFrom(r, lo, hi) && Lines(r) == Lines(es) && (es != [] ==> r != [] && SameStart(r[0], es[0]))
      && forall i :: 0 <= i < |r| - 1 ==> !Joins(r[i], r[i + 1])
    decreases |es|
  {
    if |es| >= 2 {
      var e, f := es[0], es[1];
      assert es[1..][1..] == es[2..];
      if Joins(e, f) {
        var ds := [e.(num := e.num + f.num)] + es[2..];
        JoinedLines(es);
        assert ds[1..] == es[2..] && es[1..][0] == f;
        assert forall i :: 0 < i < |ds| ==> ds[i] == es[i + 1];
        hide EntryLines, Lines;
        CoalesceKeeps(ds, lo, hi);
      } else {
        assert forall i :: 0 <= i < |es[1..]| ==> es[1..][i] == es[i + 1];
        CoalesceKeeps(es[1..], lo + e.num, hi);
        var r := Coalesce(es[1..]);
        assert ([e] + r)[1..] == r;
        assert !Joins(e, r[0]);
      }
    }
  }

  lemma JoinedLines(es: seq<Entry>)
    requires |es| >= 2 && Joins(es[0], es[1]) && es[0].boundary == es[1].boundary
    ensures Lines([es[0].(num := es[0].num + es[1].num)] + es[2..]) == Lines(es)
  {
    var e, f := es[0], es[1];
    var g := e.(num := e.num + f.num);
    assert EntryLines(g) == EntryLines(e) + EntryLines(f);
    hide EntryLines;
    assert es[1..][0] == f && es[1..][1..] == es[2..] && ([g] + es[2..])[0] == g && ([g] + es[2..])[1..] == es[2..];
    Regrouped(EntryLines(e), EntryLines(f), Lines(es[2..]));
  }

  lemma Regrouped(a: seq<Attr>, b: seq<Attr>, c: seq<Attr>)
    ensures a + b + c == a + (b + c)
  {
  }

  predicate SameStart(e: Entry, f: Entry) {
    e.suspect == f.suspect && e.guilty == f.guilty && e.sLno == f.sLno
  }
}
