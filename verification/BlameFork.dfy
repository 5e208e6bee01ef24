// A history in which the limit is lost, for every commit graph in which it can be: two
// lines that go the same way until it forks, one to a commit without parents, the other to
// the limit. The first overwrites the limit before the second reaches it.
module BlameFork {
  import opened Options
  import opened BlameModel
  import opened BlameRun
  import opened BlameTheory
  import opened BlameLimit

  // ---- the history

  // The next origin after o on r, if it lies in c.
  function NextOn(r: seq<Origin>, o: Origin, c: Commit): Option<Origin> {
    if |r| < 2 then None
    else if r[0] == o && r[1].commit == c then Some(r[1])
    else NextOn(r[1..], o, c)
  }

  // The file has both lines before the fork, and one of them on either way behind it.
  function ForkFile(path: string): seq<string> {
    if path == "c" then ["a", "b"] else if path == "a" then ["a"] else ["b"]
  }

  function ForkDiff(p: string, o: string): seq<Hunk> {
    if ForkFile(p) == ForkFile(o) then []
    else if o == "c" && p == "a" then [Hunk(1, 0, 1, 1)]
    else if o == "c" then [Hunk(0, 0, 0, 1)]
    else [Hunk(0, |ForkFile(p)|, 0, |ForkFile(o)|)]
  }

  // The file is found on the two ways only.
  function Forked(g: History, a: seq<Origin>, b: seq<Origin>): History {
    History(g.parents, g.rank,
            (k: nat, c: Commit, o: Origin) => if NextOn(a, o, c).Some? then NextOn(a, o, c) else NextOn(b, o, c),
            (p: Origin, o: Origin) => Some(ForkDiff(p.path, o.path)),
            (o: Origin) => ForkFile(o.path),
            g.firstParent)
  }

  lemma {:induction false} NextIsOn(r: seq<Origin>, o: Origin, c: Commit)
    ensures var n := NextOn(r, o, c);
      && (n.Some? ==> n.value.commit == c && exists i :: 0 <= i < |r| - 1 && r[i] == o && r[i + 1] == n.value)
      && (n.None? ==> forall i :: 0 <= i < |r| - 1 && r[i] == o ==> r[i + 1].commit != c)
  {
    if |r| >= 2 && !(r[0] == o && r[1].commit == c) {
      NextIsOn(r[1..], o, c);
      var n := NextOn(r, o, c);
      assert forall i :: 0 < i < |r| ==> r[i] == r[1..][i - 1];
      if n.Some? {
        var i :| 0 <= i < |r[1..]| - 1 && r[1..][i] == o && r[1..][i + 1] == n.value;
        assert r[i + 1] == o && r[i + 1 + 1] == n.value;
      }
    }
  }

  lemma ForkIsValid(g: History, a: seq<Origin>, b: seq<Origin>)
    requires g.Valid()
    ensures var h := Forked(g, a, b); h.Valid() && Steady(h) && SameGraph(h, g)
  {
    var h := Forked(g, a, b);
    forall k, c, o | h.find(k, c, o).Some?
      ensures h.find(k, c, o).value.commit == c
    {
      NextIsOn(a, o, c);
      NextIsOn(b, o, c);
    }
    forall p: Origin, o: Origin
      ensures Aligned(ForkFile(p.path), ForkFile(o.path), ForkDiff(p.path, o.path), 0, 0)
    {
      ForkAligned(p.path, o.path);
    }
  }

  lemma ForkAligned(p: string, o: string)
    ensures Aligned(ForkFile(p), ForkFile(o), ForkDiff(p, o), 0, 0)
  {
    var hs := ForkDiff(p, o);
    assert |hs| == 1 ==> hs[1..] == [];
    assert ["a"] != ["b"] && |["a", "b"]| == 2;
  }

  // ---- the two ways

  ghost predicate Steps(g: History, r: seq<Origin>) {
    forall i :: 0 <= i < |r| - 1 ==> r[i + 1].commit in Ways(g, r[i].commit)
  }

  // a and b fork behind position d. a ends in a commit without parents, b one step behind
  // the limit.
  ghost predicate IsFork(g: History, limit: Commit, a: seq<Origin>, b: seq<Origin>, d: nat) {
    && g.Valid() && d + 1 < |a| && d + 2 < |b| && Steps(g, a) && Steps(g, b)
    && (forall i :: 0 <= i <= d ==> a[i] == b[i])
    && (forall i :: 0 <= i < |a| ==> a[i].path == (if i <= d then "c" else "a") && a[i].commit != limit)
    && (forall i :: 0 <= i < |b| ==> b[i].path == (if i <= d then "c" else "b"))
    && (forall i :: 0 <= i < |b| - 2 ==> b[i].commit != limit)
    && b[|b| - 2].commit == limit
    && a[d + 1].commit != b[d + 1].commit
    && g.parents(a[|a| - 1].commit) == []
  }

  lemma {:induction false} StepsDescend(g: History, r: seq<Origin>, i: nat, j: nat)
    requires g.Valid() && Steps(g, r) && i < j < |r|
    ensures g.rank(r[j].commit) < g.rank(r[i].commit)
  {
    WaysDescend(g, r[j - 1].commit);
    if i < j - 1 {
      StepsDescend(g, r, i, j - 1);
    }
  }

  lemma StepsDiffer(g: History, r: seq<Origin>, i: nat, j: nat)
    requires g.Valid() && Steps(g, r) && i < |r| && j < |r| && r[i].commit == r[j].commit
    ensures i == j
  {
    if i < j {
      StepsDescend(g, r, i, j);
    } else if j < i {
      StepsDescend(g, r, j, i);
    }
  }

  // Where x goes: to n only.
  ghost predicate GoesTo(h: History, x: Origin, n: Origin) {
    forall k, c :: h.find(k, c, x) == if c == n.commit then Some(n) else None
  }

  ghost predicate GoesBoth(h: History, x: Origin, m: Origin, n: Origin) {
    forall k, c :: h.find(k, c, x) == if c == m.commit then Some(m) else if c == n.commit then Some(n) else None
  }

  lemma NextIs(g: History, r: seq<Origin>, i: nat, c: Commit)
    requires g.Valid() && Steps(g, r) && i < |r|
    ensures NextOn(r, r[i], c) == if i + 1 < |r| && c == r[i + 1].commit then Some(r[i + 1]) else None
  {
    NextIsOn(r, r[i], c);
    var n := NextOn(r, r[i], c);
    if n.Some? {
      var j :| 0 <= j < |r| - 1 && r[j] == r[i] && r[j + 1] == n.value;
      StepsDiffer(g, r, i, j);
    }
  }

  lemma NextIsNone(r: seq<Origin>, o: Origin, c: Commit)
    requires forall i :: 0 <= i < |r| ==> r[i] != o
    ensures NextOn(r, o, c) == None
  {
    NextIsOn(r, o, c);
  }

  // Before the fork, and behind it on either way.
  lemma FirstGoes(g: History, limit: Commit, a: seq<Origin>, b: seq<Origin>, d: nat, i: nat)
    requires IsFork(g, limit, a, b, d) && i + 1 < |a| && i != d
    ensures GoesTo(Forked(g, a, b), a[i], a[i + 1])
  {
    hide NextOn, ForkFile, ForkDiff, Steps;
    var h := Forked(g, a, b);
    forall k, c
      ensures h.find(k, c, a[i]) == if c == a[i + 1].commit then Some(a[i + 1]) else None
    {
      NextIs(g, a, i, c);
      if i < d {
        NextIs(g, b, i, c);
      } else {
        NextIsNone(b, a[i], c);
      }
    }
  }

  lemma SecondGoes(g: History, limit: Commit, a: seq<Origin>, b: seq<Origin>, d: nat, i: nat)
    requires IsFork(g, limit, a, b, d) && d < i && i + 1 < |b|
    ensures GoesTo(Forked(g, a, b), b[i], b[i + 1])
  {
    hide NextOn, ForkFile, ForkDiff, Steps;
    var h := Forked(g, a, b);
    forall k, c
      ensures h.find(k, c, b[i]) == if c == b[i + 1].commit then Some(b[i + 1]) else None
    {
      NextIs(g, b, i, c);
      NextIsNone(a, b[i], c);
    }
  }

  lemma ForkGoes(g: History, limit: Commit, a: seq<Origin>, b: seq<Origin>, d: nat)
    requires IsFork(g, limit, a, b, d)
    ensures GoesBoth(Forked(g, a, b), a[d], a[d + 1], b[d + 1])
  {
    hide NextOn, ForkFile, ForkDiff, Steps;
    var h := Forked(g, a, b);
    forall k, c
      ensures h.find(k, c, a[d]) == if c == a[d + 1].commit then Some(a[d + 1]) else if c == b[d + 1].commit then Some(b[d + 1]) else None
    {
      NextIs(g, a, d, c);
      NextIs(g, b, d, c);
    }
  }

  // ---- what is gathered

  lemma {:induction false} GatherWhole(h: History, x: Origin, n: Origin, ps: seq<Commit>, calls: nat)
    requires GoesTo(h, x, n) && h.file(n) == h.file(x) && n.commit in ps
    ensures Gather(h, x, ps, calls, []).0 == Whole(n)
    decreases |ps|
  {
    assert h.find(calls, ps[0], x) == if ps[0] == n.commit then Some(n) else None;
    if ps[0] != n.commit {
      GatherWhole(h, x, n, ps[1..], calls + 1);
    }
  }

  // The files on the two sides of a fork.
  ghost predicate Parts(h: History, x: Origin, m: Origin, n: Origin) {
    h.file(m) != h.file(x) && h.file(n) != h.file(x) && h.file(m) != h.file(n)
  }

  lemma {:induction false} GatherBoth(h: History, x: Origin, m: Origin, n: Origin, ps: seq<Commit>, calls: nat, kept: seq<Origin>)
    requires GoesBoth(h, x, m, n) && Parts(h, x, m, n) && forall o :: o in kept ==> o == m || o == n
    ensures var plan := Gather(h, x, ps, calls, kept).0;
      && plan.Each? && (forall o :: o in plan.parents ==> o == m || o == n)
      && (m in kept || m.commit in ps ==> m in plan.parents) && (n in kept || (n.commit in ps && n.commit != m.commit) ==> n in plan.parents)
    decreases |ps|
  {
    if ps != [] {
      var r := h.find(calls, ps[0], x);
      assert r == if ps[0] == m.commit then Some(m) else if ps[0] == n.commit then Some(n) else None;
      if r.None? {
        GatherBoth(h, x, m, n, ps[1..], calls + 1, kept);
      } else if exists j :: 0 <= j < |kept| && h.file(kept[j]) == h.file(r.value) {
        var j :| 0 <= j < |kept| && h.file(kept[j]) == h.file(r.value);
        assert kept[j] in kept;
        GatherBoth(h, x, m, n, ps[1..], calls + 1, kept);
      } else {
        GatherBoth(h, x, m, n, ps[1..], calls + 1, kept + [r.value]);
      }
    }
  }

  // Each of the lines finds its side.
  lemma {:induction false} StepBoth(h: History, x: Origin, m: Origin, n: Origin, os: seq<Origin>)
    requires forall o :: o in os ==> o == m || o == n
    requires h.diff(m, x) == Some([Hunk(1, 0, 1, 1)]) && h.diff(n, x) == Some([Hunk(0, 0, 0, 1)])
    ensures m in os ==> StepLine(h, x, os, 0) == Some((m, 0))
    ensures n in os ==> StepLine(h, x, os, 1) == Some((n, 0))
  {
    if os != [] {
      assert os[0] in os && forall o :: o in os[1..] ==> o in os;
      StepBoth(h, x, m, n, os[1..]);
      assert [Hunk(1, 0, 1, 1)][1..] == [] && [Hunk(0, 0, 0, 1)][1..] == [];
      assert SourceLine([Hunk(1, 0, 1, 1)], 0, 0, 0) == Some(0) && SourceLine([Hunk(1, 0, 1, 1)], 0, 0, 1) == None;
      assert SourceLine([Hunk(0, 0, 0, 1)], 0, 0, 0) == None && SourceLine([Hunk(0, 0, 0, 1)], 0, 0, 1) == Some(0);
    }
  }

  // ---- rounds

  lemma WholeRound(h: History, s: State, x: Origin, n: Origin) returns (calls: nat)
    requires h.Valid() && GoesTo(h, x, n) && h.file(n) == h.file(x) && n.commit in Considered(h, s.oldest, x.commit)
    requires n != x
    ensures Round(h, s, x) == Some(State(MapAll(s.lines, a => WholeLine(a, x, n)), s.oldest, calls))
  {
    var ps := Considered(h, s.oldest, x.commit);
    GatherWhole(h, x, n, ps, s.calls);
    calls := Gather(h, x, ps, s.calls, []).1;
    var ls := MapAll(s.lines, a => WholeLine(a, x, n));
    assert MapAll(ls, a => Convict(a, x, x.commit == s.oldest)) == ls;
  }

  lemma ForkRound(h: History, s: State, x: Origin, m: Origin, n: Origin) returns (calls: nat)
    requires h.Valid() && GoesBoth(h, x, m, n) && Parts(h, x, m, n) && m.commit != n.commit
    requires m.commit in Considered(h, s.oldest, x.commit) && n.commit in Considered(h, s.oldest, x.commit)
    requires h.diff(m, x) == Some([Hunk(1, 0, 1, 1)]) && h.diff(n, x) == Some([Hunk(0, 0, 0, 1)])
    requires forall p, o :: h.diff(p, o).Some?
    requires s.lines == [Attr(x, 0, false, false), Attr(x, 1, false, false)]
    ensures Round(h, s, x) == Some(State([Attr(m, 0, false, false), Attr(n, 0, false, false)], s.oldest, calls))
  {
    hide PassEach, StepLine, Gather, Considered;
    var ps := Considered(h, s.oldest, x.commit);
    GatherBoth(h, x, m, n, ps, s.calls, []);
    var os := Gather(h, x, ps, s.calls, []).0.parents;
    calls := Gather(h, x, ps, s.calls, []).1;
    StepBoth(h, x, m, n, os);
    assert forall j :: 0 <= j < |os| ==> os[j] in os;
    PassEachSteps(h, s.lines, x, os);
    DiffsSucceed(h, s.lines, x, os);
    var ls := PassEach(h, s.lines, x, os).value;
    assert ls == [Attr(m, 0, false, false), Attr(n, 0, false, false)];
    assert PassBlame(h, s, x) == Some(State(ls, s.oldest, calls));
    assert MapAll(ls, a => Convict(a, x, x.commit == s.oldest)) == ls;
  }

  lemma LastRound(h: History, s: State, x: Origin)
    requires Considered(h, s.oldest, x.commit) == []
    ensures Round(h, s, x) == Some(State(MapAll(s.lines, a => Convict(a, x, true)), x.commit, s.calls))
  {
    assert MapAll(s.lines, a => Convict(a, x, x.commit == x.commit)) == MapAll(s.lines, a => Convict(a, x, true));
  }

  // ---- the run

  function Open(o: Origin, n: nat): Attr {
    Attr(o, n, false, false)
  }

  // The ways as the run finds them.
  lemma FirstStep(g: History, limit: Commit, a: seq<Origin>, b: seq<Origin>, d: nat, i: nat)
    requires IsFork(g, limit, a, b, d) && i + 1 < |a|
    ensures var h := Forked(g, a, b);
      && a[i + 1].commit in Considered(h, limit, a[i].commit) && a[i + 1] != a[i]
      && (i != d ==> h.file(a[i + 1]) == h.file(a[i]))
  {
    StepsDescend(g, a, i, i + 1);
  }

  // The last commit on a is the limit now; it does not stop the other line.
  lemma SecondStep(g: History, limit: Commit, a: seq<Origin>, b: seq<Origin>, d: nat, i: nat)
    requires IsFork(g, limit, a, b, d) && i + 1 < |b|
    ensures var h := Forked(g, a, b);
      && b[i + 1].commit in Considered(h, a[|a| - 1].commit, b[i].commit) && b[i + 1] != b[i]
      && (i < |b| - 2 ==> b[i + 1].commit in Considered(h, limit, b[i].commit))
      && (i > d ==> h.file(b[i + 1]) == h.file(b[i]))
  {
    StepsDescend(g, b, i, i + 1);
    assert Ways(g, b[i].commit) != [];
  }

  lemma ForkParts(g: History, limit: Commit, a: seq<Origin>, b: seq<Origin>, d: nat)
    requires IsFork(g, limit, a, b, d)
    ensures var h := Forked(g, a, b); var x, m, n := a[d], a[d + 1], b[d + 1];
      && Parts(h, x, m, n) && h.diff(m, x) == Some([Hunk(1, 0, 1, 1)]) && h.diff(n, x) == Some([Hunk(0, 0, 0, 1)])
      && n.commit in Considered(h, limit, x.commit) && m.commit in Considered(h, limit, x.commit)
  {
    FirstStep(g, limit, a, b, d, d);
    SecondStep(g, limit, a, b, d, d);
    assert |["a", "b"]| == 2 && |["a"]| == 1 && |["b"]| == 1 && ["a"][0] != ["b"][0];
  }

  lemma {:induction false} RunTogether(g: History, limit: Commit, a: seq<Origin>, b: seq<Origin>, d: nat, i: nat, calls: nat) returns (calls': nat)
    requires IsFork(g, limit, a, b, d) && i <= d && Forked(g, a, b).Valid()
    ensures RunAll(Forked(g, a, b), State([Open(a[i], 0), Open(a[i], 1)], limit, calls))
         == RunAll(Forked(g, a, b), State([Open(a[d + 1], 0), Open(b[d + 1], 0)], limit, calls'))
    decreases d - i
  {
    hide RunAll, Round, Forked, GoesTo, GoesBoth, Parts, Considered;
    var h := Forked(g, a, b);
    var s := State([Open(a[i], 0), Open(a[i], 1)], limit, calls);
    if i < d {
      FirstGoes(g, limit, a, b, d, i);
      FirstStep(g, limit, a, b, d, i);
      var k := WholeRound(h, s, a[i], a[i + 1]);
      var t := State([Open(a[i + 1], 0), Open(a[i + 1], 1)], limit, k);
      assert MapAll(s.lines, x => WholeLine(x, a[i], a[i + 1])) == t.lines;
      RunStep(h, s, a[i], t);
      calls' := RunTogether(g, limit, a, b, d, i + 1, k);
    } else {
      ForkGoes(g, limit, a, b, d);
      ForkParts(g, limit, a, b, d);
      DiffsAreKnown(g, a, b);
      calls' := ForkRound(h, s, a[d], a[d + 1], b[d + 1]);
      RunStep(h, s, a[d], State([Open(a[d + 1], 0), Open(b[d + 1], 0)], limit, calls'));
    }
  }

  lemma DiffsAreKnown(g: History, a: seq<Origin>, b: seq<Origin>)
    ensures forall p, o :: Forked(g, a, b).diff(p, o).Some?
  {
  }

  lemma {:induction false} RunFirst(g: History, limit: Commit, a: seq<Origin>, b: seq<Origin>, d: nat, j: nat, calls: nat) returns (calls': nat)
    requires IsFork(g, limit, a, b, d) && d < j < |a| && Forked(g, a, b).Valid()
    ensures var e := a[|a| - 1];
      RunAll(Forked(g, a, b), State([Open(a[j], 0), Open(b[d + 1], 0)], limit, calls))
        == RunAll(Forked(g, a, b), State([Attr(e, 0, true, true), Open(b[d + 1], 0)], e.commit, calls'))
    decreases |a| - j
  {
    hide RunAll, Round, Forked, GoesTo;
    var h := Forked(g, a, b);
    var s := State([Open(a[j], 0), Open(b[d + 1], 0)], limit, calls);
    if j + 1 < |a| {
      FirstGoes(g, limit, a, b, d, j);
      FirstStep(g, limit, a, b, d, j);
      var k := WholeRound(h, s, a[j], a[j + 1]);
      var t := State([Open(a[j + 1], 0), Open(b[d + 1], 0)], limit, k);
      assert MapAll(s.lines, x => WholeLine(x, a[j], a[j + 1])) == t.lines;
      RunStep(h, s, a[j], t);
      calls' := RunFirst(g, limit, a, b, d, j + 1, k);
    } else {
      calls' := calls;
      LastConsidered(g, a, b, limit, a[j].commit);
      LastRound(h, s, a[j]);
      var t := State([Attr(a[j], 0, true, true), Open(b[d + 1], 0)], a[j].commit, calls);
      assert MapAll(s.lines, x => Convict(x, a[j], true)) == t.lines;
      RunStep(h, s, a[j], t);
    }
  }

  lemma LastConsidered(g: History, a: seq<Origin>, b: seq<Origin>, oldest: Commit, c: Commit)
    requires g.parents(c) == [] || c == oldest
    ensures Considered(Forked(g, a, b), oldest, c) == []
  {
  }

  lemma {:induction false} RunSecond(g: History, limit: Commit, a: seq<Origin>, b: seq<Origin>, d: nat, j: nat, calls: nat) returns (calls': nat)
    requires IsFork(g, limit, a, b, d) && d < j < |b| && Forked(g, a, b).Valid()
    ensures var e := a[|a| - 1];
      RunAll(Forked(g, a, b), State([Attr(e, 0, true, true), Open(b[j], 0)], e.commit, calls))
        == RunAll(Forked(g, a, b), State([Attr(e, 0, true, true), Open(b[|b| - 1], 0)], e.commit, calls'))
    decreases |b| - j
  {
    hide RunAll, Round, Forked, GoesTo, Considered;
    var h, e := Forked(g, a, b), a[|a| - 1];
    calls' := calls;
    if j + 1 < |b| {
      var s := State([Attr(e, 0, true, true), Open(b[j], 0)], e.commit, calls);
      SecondGoes(g, limit, a, b, d, j);
      SecondStep(g, limit, a, b, d, j);
      var k := WholeRound(h, s, b[j], b[j + 1]);
      var t := State([Attr(e, 0, true, true), Open(b[j + 1], 0)], e.commit, k);
      assert MapAll(s.lines, x => WholeLine(x, b[j], b[j + 1])) == t.lines;
      SecondIsOpen(s.lines);
      RunStep(h, s, b[j], t);
      calls' := RunSecond(g, limit, a, b, d, j + 1, k);
    }
  }

  lemma SecondIsOpen(ls: seq<Attr>)
    requires |ls| == 2 && ls[0].guilty && !ls[1].guilty
    ensures FirstOpen(ls) == Some(ls[1].origin)
  {
    assert ls[1..][0] == ls[1];
  }

  // A run goes back in history only, and fails only if a diff does.
  lemma {:induction false} RunFalls(h: History, s: State)
    requires h.Valid() && forall p, o :: h.diff(p, o).Some?
    ensures RunAll(h, s).Some? && |RunAll(h, s).value.lines| == |s.lines|
    ensures forall i :: 0 <= i < |s.lines| ==> h.rank(RunAll(h, s).value.lines[i].origin.commit) <= h.rank(s.lines[i].origin.commit)
    decreases Measure(h, s.lines)
  {
    var x := FirstOpen(s.lines);
    if x.Some? {
      RoundSucceeds(h, s, x.value);
      RoundDescends(h, s, x.value);
      RoundRounds(h, s, x.value);
      var t := Round(h, s, x.value).value;
      RunFalls(h, t);
      forall i | 0 <= i < |s.lines|
        ensures h.rank(RunAll(h, t).value.lines[i].origin.commit) <= h.rank(s.lines[i].origin.commit)
      {
        assert Rounded(h, s.lines[i], t.lines[i], x.value);
      }
    }
  }

  lemma RoundSucceeds(h: History, s: State, x: Origin)
    requires forall p, o :: h.diff(p, o).Some?
    ensures Round(h, s, x).Some?
  {
    var ps := Considered(h, s.oldest, x.commit);
    var plan := Gather(h, x, ps, s.calls, []).0;
    if plan.Each? {
      DiffsSucceed(h, s.lines, x, plan.parents);
    }
  }

  // ---- the second line on its own

  lemma TraceWhole(h: History, limit: Commit, x: Origin, p: Origin, n: nat)
    requires h.Valid() && Considered(h, limit, x.commit) != []
    requires Gather(h, x, Considered(h, limit, x.commit), 0, []).0 == Whole(p)
    ensures Trace(h, limit, x, n) == Trace(h, limit, p, n)
  {
  }

  lemma TraceEach(h: History, limit: Commit, x: Origin, os: seq<Origin>, n: nat, p: Origin, m: nat)
    requires h.Valid() && Considered(h, limit, x.commit) != []
    requires Gather(h, x, Considered(h, limit, x.commit), 0, []).0 == Each(os) && StepLine(h, x, os, n) == Some((p, m))
    ensures Trace(h, limit, x, n) == Trace(h, limit, p, m)
  {
  }

  lemma TraceEnds(h: History, limit: Commit, x: Origin, n: nat)
    requires h.Valid() && x.commit == limit
    ensures Trace(h, limit, x, n) == (x, n, true)
  {
  }

  lemma {:induction false} TraceSecond(g: History, limit: Commit, a: seq<Origin>, b: seq<Origin>, d: nat, j: nat)
    requires IsFork(g, limit, a, b, d) && d < j <= |b| - 2 && Forked(g, a, b).Valid()
    ensures Trace(Forked(g, a, b), limit, b[j], 0) == (b[|b| - 2], 0, true)
    decreases |b| - j
  {
    hide Forked, GoesTo, Trace, Gather, Considered;
    var h := Forked(g, a, b);
    if j < |b| - 2 {
      SecondGoes(g, limit, a, b, d, j);
      SecondStep(g, limit, a, b, d, j);
      GatherWhole(h, b[j], b[j + 1], Considered(h, limit, b[j].commit), 0);
      TraceWhole(h, limit, b[j], b[j + 1], 0);
      TraceSecond(g, limit, a, b, d, j + 1);
    } else {
      TraceEnds(h, limit, b[j], 0);
    }
  }

  lemma {:induction false} TraceTogether(g: History, limit: Commit, a: seq<Origin>, b: seq<Origin>, d: nat, i: nat)
    requires IsFork(g, limit, a, b, d) && i <= d && Forked(g, a, b).Valid()
    ensures Trace(Forked(g, a, b), limit, a[i], 1) == (b[|b| - 2], 0, true)
    decreases d - i
  {
    hide Forked, GoesTo, GoesBoth, Trace, Gather, Considered, StepLine, Parts;
    var h := Forked(g, a, b);
    FirstStep(g, limit, a, b, d, i);
    var ps := Considered(h, limit, a[i].commit);
    if i < d {
      FirstGoes(g, limit, a, b, d, i);
      GatherWhole(h, a[i], a[i + 1], ps, 0);
      TraceWhole(h, limit, a[i], a[i + 1], 1);
      TraceTogether(g, limit, a, b, d, i + 1);
    } else {
      ForkGoes(g, limit, a, b, d);
      ForkParts(g, limit, a, b, d);
      GatherBoth(h, a[d], a[d + 1], b[d + 1], ps, 0, []);
      var os := Gather(h, a[d], ps, 0, []).0.parents;
      StepBoth(h, a[d], a[d + 1], b[d + 1], os);
      TraceEach(h, limit, a[d], os, 1, b[d + 1], 0);
      TraceSecond(g, limit, a, b, d, d + 1);
    }
  }

  // The second line passes the limit.
  lemma ForkFails(g: History, limit: Commit, a: seq<Origin>, b: seq<Origin>, d: nat)
    requires IsFork(g, limit, a, b, d) && Forked(g, a, b).Valid()
    ensures !GoesItsWay(Forked(g, a, b), limit, a[0], 0, 2)
  {
    hide RunAll, Forked, Trace;
    var h := Forked(g, a, b);
    var s := State(Suspected(a[0], 0, 2), limit, 0);
    assert s.lines == [Open(a[0], 0), Open(a[0], 1)];
    var k := RunTogether(g, limit, a, b, d, 0, 0);
    k := RunFirst(g, limit, a, b, d, d + 1, k);
    k := RunSecond(g, limit, a, b, d, d + 1, k);
    DiffsAreKnown(g, a, b);
    var t := State([Attr(a[|a| - 1], 0, true, true), Open(b[|b| - 1], 0)], a[|a| - 1].commit, k);
    RunFalls(h, t);
    assert RunAll(h, s) == RunAll(h, t);
    ForkRanks(g, limit, a, b, d);
    TraceTogether(g, limit, a, b, d, 0);
    var ls := RunAll(h, s).value.lines;
    assert h.rank(ls[1].origin.commit) <= h.rank(t.lines[1].origin.commit);
    assert !Arrived(h, limit, ls[1], a[0], 0 + 1);
  }

  lemma ForkRanks(g: History, limit: Commit, a: seq<Origin>, b: seq<Origin>, d: nat)
    requires IsFork(g, limit, a, b, d)
    ensures Forked(g, a, b).rank(b[|b| - 1].commit) < Forked(g, a, b).rank(b[|b| - 2].commit)
  {
    StepsDescend(g, b, |b| - 2, |b| - 1);
  }

  // ---- two ways in the graph

  lemma ForkOf(p: seq<Commit>, q: seq<Commit>, g: History, limit: Commit, c: Commit, t: Commit) returns (d: nat)
    requires g.Valid() && IsWay(g, limit, p, c, limit) && IsWay(g, limit, q, c, t) && g.parents(t) == [] && t != limit
    ensures d + 1 < |p| && d + 1 < |q| && p[d + 1] != q[d + 1] && forall i :: 0 <= i <= d ==> p[i] == q[i]
  {
    d := 0;
    NotAtEnd(p, q, g, limit, c, t, d);
    while p[d + 1] == q[d + 1]
      invariant d + 1 < |p| && d + 1 < |q| && forall i :: 0 <= i <= d ==> p[i] == q[i]
      decreases |p| - d
    {
      d := d + 1;
      NotAtEnd(p, q, g, limit, c, t, d);
    }
  }

  // Where the ways are together neither has come to its end.
  lemma NotAtEnd(p: seq<Commit>, q: seq<Commit>, g: History, limit: Commit, c: Commit, t: Commit, d: nat)
    requires g.Valid() && IsWay(g, limit, p, c, limit) && IsWay(g, limit, q, c, t) && g.parents(t) == [] && t != limit
    requires d < |p| && d < |q| && p[d] == q[d]
    ensures d + 1 < |p| && d + 1 < |q|
  {
    WaysDescend(g, t);
    assert d < |q| - 1 ==> q[d] != limit;
    assert d < |p| - 1 ==> p[d + 1] in Ways(g, p[d]);
  }

  function Marked(r: seq<Commit>, d: nat, path: string): (o: seq<Origin>)
    ensures |o| == |r| && forall i :: 0 <= i < |r| ==> o[i] == Origin(r[i], if i <= d then "c" else path)
  {
    seq(|r|, i requires 0 <= i < |r| => Origin(r[i], if i <= d then "c" else path))
  }

  // The converse: wherever the limit can be lost, there are files and answers for which it
  // is, and a line is blamed on a commit beyond it.
  lemma LimitFails(g: History, limit: Commit, c: Commit) returns (h: History, final: Origin)
    requires g.Valid() && !Firm(g, limit, c)
    ensures h.Valid() && Steady(h) && SameGraph(h, g) && final.commit == c && !GoesItsWay(h, limit, final, 0, 2)
  {
    hide GoesItsWay, Forked, Steady;
    var t :| t in Reach(g, limit, c) && g.parents(t) == [];
    var p := WayTo(g, limit, c, limit);
    var q := WayTo(g, limit, c, t);
    var d := ForkOf(p, q, g, limit, c, t);
    WaysDescend(g, limit);
    var p' := p + [Ways(g, limit)[0]];
    var a, b := Marked(q, d, "a"), Marked(p', d, "b");
    assert IsFork(g, limit, a, b, d);
    h, final := Forked(g, a, b), a[0];
    ForkIsValid(g, a, b);
    ForkFails(g, limit, a, b, d);
  }

  // Blame of a range is blame of each line, whatever the files and the answers, exactly if
  // the commit graph says that the limit is firm.
  lemma FirmIff(g: History, limit: Commit, c: Commit)
    requires g.Valid()
    ensures Firm(g, limit, c) <==>
      forall h: History, final: Origin, first: nat, count: nat ::
        h.Valid() && Steady(h) && SameGraph(h, g) && final.commit == c ==> GoesItsWay(h, limit, final, first, count)
  {
    hide GoesItsWay, Firm, Steady;
    if Firm(g, limit, c) {
      forall h: History, final: Origin, first: nat, count: nat | h.Valid() && Steady(h) && SameGraph(h, g) && final.commit == c
        ensures GoesItsWay(h, limit, final, first, count)
      {
        FirmHolds(g, h, limit, final, first, count);
      }
    } else {
      var h, final := LimitFails(g, limit, c);
    }
  }
}
