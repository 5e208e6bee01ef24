// What a whole run of blame comes to: every line reads as it does in the final file at
// every point; and, when the repository's answers do not depend on when they are asked
// for, each line ends where its own way through history ends, whatever the order in
// which suspects are taken up and however entries are split.
module BlameTheory {
  import opened Options
  import opened BlameModel
  import opened BlameRun

  // ---- soundness

  // Line i of the board is a line of its origin's file that reads like line first + i of
  // the final file, if there is such a line.
  ghost predicate Sound(h: History, ls: seq<Attr>, final: Origin, first: nat) {
    forall i :: 0 <= i < |ls| ==> SoundLine(h, ls[i], final, first + i)
  }

  ghost predicate SoundLine(h: History, a: Attr, final: Origin, n: nat) {
    n < |h.file(final)| ==> a.line < |h.file(a.origin)| && h.file(a.origin)[a.line] == h.file(final)[n]
  }

  lemma PassLineSound(h: History, a: Attr, hs: seq<Hunk>, x: Origin, p: Origin, final: Origin, n: nat)
    requires h.Valid() && h.diff(p, x) == Some(hs) && SoundLine(h, a, final, n)
    ensures SoundLine(h, PassLine(a, hs, 0, 0, x, p), final, n)
  {
    if IsOpen(a, x) && SourceLine(hs, 0, 0, a.line).Some? && n < |h.file(final)| {
      SourceLineAgrees(h.file(p), h.file(x), hs, 0, 0, a.line);
    }
  }

  lemma {:induction false} PassEachSound(h: History, ls: seq<Attr>, x: Origin, os: seq<Origin>, final: Origin, first: nat)
    requires h.Valid() && Sound(h, ls, final, first)
    ensures var r := PassEach(h, ls, x, os); r.Some? ==> Sound(h, r.value, final, first)
    decreases |os|
  {
    if os != [] && AnyOpen(ls, x) && h.diff(os[0], x).Some? {
      var hs := h.diff(os[0], x).value;
      var ls' := MapAll(ls, a => PassLine(a, hs, 0, 0, x, os[0]));
      forall i | 0 <= i < |ls'|
        ensures SoundLine(h, ls'[i], final, first + i)
      {
        PassLineSound(h, ls[i], hs, x, os[0], final, first + i);
      }
      PassEachSound(h, ls', x, os[1..], final, first);
    }
  }

  lemma RoundSound(h: History, s: State, x: Origin, final: Origin, first: nat)
    requires h.Valid() && Sound(h, s.lines, final, first)
    ensures var t := Round(h, s, x); t.Some? ==> Sound(h, t.value.lines, final, first)
  {
    var ps := Considered(h, s.oldest, x.commit);
    var r := PassBlame(h, s, x);
    if r.Some? {
      assert Sound(h, r.value.lines, final, first) by {
        if ps != [] {
          assert forall i :: 0 <= i < |ps| ==> ps[i] == h.parents(x.commit)[i];
          GatherFinds(h, x, ps, s.calls, []);
          match Gather(h, x, ps, s.calls, []).0 {
            case Whole(p) =>
            case Each(os) => PassEachSound(h, s.lines, x, os, final, first);
          }
        }
      }
      forall i | 0 <= i < |r.value.lines|
        ensures SoundLine(h, Round(h, s, x).value.lines[i], final, first + i)
      {
        assert SoundLine(h, r.value.lines[i], final, first + i);
      }
    }
  }

  lemma {:induction false} RunSound(h: History, s: State, final: Origin, first: nat)
    requires h.Valid() && Sound(h, s.lines, final, first)
    ensures var t := RunAll(h, s);
      t.Some? ==> Sound(h, t.value.lines, final, first) && forall i :: 0 <= i < |t.value.lines| ==> t.value.lines[i].guilty
    decreases Measure(h, s.lines)
  {
    var x := FirstOpen(s.lines);
    if x.Some? && Round(h, s, x.value).Some? {
      RoundDescends(h, s, x.value);
      RoundSound(h, s, x.value, final, first);
      RunSound(h, Round(h, s, x.value).value, final, first);
    }
  }

  // ---- the way of one line

  // Where line s of x goes: to the first of the origins whose diff leaves it alone.
  function StepLine(h: History, x: Origin, os: seq<Origin>, s: nat): Option<(Origin, nat)> {
    if os == [] then None
    else if h.diff(os[0], x).Some? && SourceLine(h.diff(os[0], x).value, 0, 0, s).Some?
    then Some((os[0], SourceLine(h.diff(os[0], x).value, 0, 0, s).value))
    else StepLine(h, x, os[1..], s)
  }

  // The origin and line where line s of x ends, and whether history was cut off there.
  ghost function Trace(h: History, limit: Commit, x: Origin, s: nat): (Origin, nat, bool)
    requires h.Valid()
    decreases h.rank(x.commit)
  {
    var ps := Considered(h, limit, x.commit);
    if ps == [] then (x, s, true)
    else
      PlanIsEarlier(h, limit, x);
      match Gather(h, x, ps, 0, []).0
      case Whole(p) => Trace(h, limit, p, s)
      case Each(os) =>
        match StepLine(h, x, os, s)
        case None => (x, s, false)
        case Some((p, t)) =>
          StepIsAmong(h, x, os, s);
          Trace(h, limit, p, t)
  }

  lemma PlanIsEarlier(h: History, limit: Commit, x: Origin)
    requires h.Valid()
    ensures GoodPlan(h, Gather(h, x, Considered(h, limit, x.commit), 0, []).0, x)
  {
    var ps := Considered(h, limit, x.commit);
    assert forall i :: 0 <= i < |ps| ==> ps[i] == h.parents(x.commit)[i];
    GatherFinds(h, x, ps, 0, []);
  }

  lemma {:induction false} StepIsAmong(h: History, x: Origin, os: seq<Origin>, s: nat)
    ensures var r := StepLine(h, x, os, s); r.Some? ==> exists j :: 0 <= j < |os| && os[j] == r.value.0
  {
    if os != [] {
      StepIsAmong(h, x, os[1..], s);
      var r := StepLine(h, x, os[1..], s);
      if r.Some? {
        var j :| 0 <= j < |os[1..]| && os[1..][j] == r.value.0;
        assert os[j + 1] == r.value.0;
      }
    }
  }

  // The answers of find do not depend on when they are asked for.
  ghost predicate Steady(h: History) {
    forall k, c, o :: h.find(k, c, o) == h.find(0, c, o)
  }

  lemma {:induction false} GatherIsSteady(h: History, x: Origin, ps: seq<Commit>, j: nat, k: nat, kept: seq<Origin>)
    requires Steady(h)
    ensures Gather(h, x, ps, j, kept).0 == Gather(h, x, ps, k, kept).0
    decreases |ps|
  {
    if ps != [] {
      assert h.find(j, ps[0], x) == h.find(0, ps[0], x) == h.find(k, ps[0], x);
      GatherIsSteady(h, x, ps[1..], j + 1, k + 1, kept);
      var r := h.find(k, ps[0], x);
      if r.Some? {
        GatherIsSteady(h, x, ps[1..], j + 1, k + 1, kept + [r.value]);
      }
    }
  }

  // reach holds the commits that can come under suspicion with the given limit. The
  // source overwrites the limit with every parentless commit it decides, so the limit
  // has to be one that is never overwritten while it matters: unreachable, without
  // parents itself, or passed by no way to a parentless commit.
  ghost predicate FirmLimit(h: History, reach: set<Commit>, limit: Commit) {
    && (forall c, i :: c in reach && 0 <= i < |Considered(h, limit, c)| ==> Considered(h, limit, c)[i] in reach)
    && (limit !in reach || h.parents(limit) == [] || forall c :: c in reach ==> h.parents(c) != [])
  }

  ghost predicate SameLimit(h: History, reach: set<Commit>, limit: Commit, oldest: Commit) {
    oldest == limit || (h.parents(oldest) == [] && (limit !in reach || h.parents(limit) == []))
  }

  // The line is on its way to f, and if it is decided it has arrived.
  ghost predicate OnWay(h: History, reach: set<Commit>, limit: Commit, a: Attr, f: (Origin, nat, bool))
    requires h.Valid()
  {
    && a.origin.commit in reach
    && Trace(h, limit, a.origin, a.line) == f
    && (a.guilty ==> (a.origin, a.line, a.boundary) == f)
  }

  ghost function PassedLine(h: History, a: Attr, x: Origin, os: seq<Origin>): Attr {
    if !IsOpen(a, x) then a
    else match StepLine(h, x, os, a.line)
      case None => a
      case Some((p, t)) => Attr(p, t, false, false)
  }

  // Going through the origins one after the other takes every line where it steps.
  lemma {:induction false} PassEachSteps(h: History, ls: seq<Attr>, x: Origin, os: seq<Origin>)
    requires forall j :: 0 <= j < |os| ==> os[j] != x
    ensures var r := PassEach(h, ls, x, os);
      r.Some? ==> |r.value| == |ls| && forall i :: 0 <= i < |ls| ==> r.value[i] == PassedLine(h, ls[i], x, os)
    decreases |os|
  {
    if os != [] && AnyOpen(ls, x) && h.diff(os[0], x).Some? {
      var hs := h.diff(os[0], x).value;
      var ls' := MapAll(ls, a => PassLine(a, hs, 0, 0, x, os[0]));
      PassEachSteps(h, ls', x, os[1..]);
      var r := PassEach(h, ls', x, os[1..]);
      if r.Some? {
        forall i | 0 <= i < |ls|
          ensures r.value[i] == PassedLine(h, ls[i], x, os)
        {
          assert r.value[i] == PassedLine(h, ls'[i], x, os[1..]);
          assert os[0] != x;
        }
      }
    } else if !AnyOpen(ls, x) {
      forall i | 0 <= i < |ls|
        ensures ls[i] == PassedLine(h, ls[i], x, os)
      {
        assert !IsOpen(ls[i], x);
      }
    }
  }

  lemma SameConsidered(h: History, reach: set<Commit>, limit: Commit, oldest: Commit, c: Commit)
    requires FirmLimit(h, reach, limit) && SameLimit(h, reach, limit, oldest) && c in reach
    ensures Considered(h, oldest, c) == Considered(h, limit, c)
  {
  }

  lemma {:induction false} TraceDescends(h: History, limit: Commit, x: Origin, s: nat)
    requires h.Valid()
    ensures h.rank(Trace(h, limit, x, s).0.commit) <= h.rank(x.commit)
    decreases h.rank(x.commit)
  {
    var ps := Considered(h, limit, x.commit);
    if ps != [] {
      PlanIsEarlier(h, limit, x);
      match Gather(h, x, ps, 0, []).0 {
        case Whole(p) => TraceDescends(h, limit, p, s);
        case Each(os) =>
          var r := StepLine(h, x, os, s);
          if r.Some? {
            StepIsAmong(h, x, os, s);
            TraceDescends(h, limit, r.value.0, r.value.1);
          }
      }
    }
  }

  lemma {:induction false} GatherIsAmong(h: History, x: Origin, ps: seq<Commit>, calls: nat, kept: seq<Origin>)
    requires h.Valid()
    ensures match Gather(h, x, ps, calls, kept).0
      case Whole(p) => p.commit in ps
      case Each(os) => forall o :: o in os ==> o in kept || o.commit in ps
    decreases |ps|
  {
    if ps != [] {
      var r := h.find(calls, ps[0], x);
      GatherIsAmong(h, x, ps[1..], calls + 1, kept);
      if r.Some? {
        assert r.value.commit == ps[0];
        GatherIsAmong(h, x, ps[1..], calls + 1, kept + [r.value]);
      }
      assert forall c :: c in ps[1..] ==> c in ps;
    }
  }

  lemma WholeOnWay(h: History, reach: set<Commit>, limit: Commit, a: Attr, x: Origin, p: Origin, f: (Origin, nat, bool))
    requires h.Valid() && OnWay(h, reach, limit, a, f) && p.commit in reach
    requires Considered(h, limit, x.commit) != [] && Gather(h, x, Considered(h, limit, x.commit), 0, []).0 == Whole(p)
    ensures OnWay(h, reach, limit, WholeLine(a, x, p), f) && WholeLine(a, x, p).origin != x
  {
    PlanIsEarlier(h, limit, x);
    TraceDescends(h, limit, p, a.line);
  }

  lemma PassedOnWay(h: History, reach: set<Commit>, limit: Commit, a: Attr, x: Origin, os: seq<Origin>, f: (Origin, nat, bool))
    requires h.Valid() && OnWay(h, reach, limit, a, f) && forall o :: o in os ==> o.commit in reach
    requires Considered(h, limit, x.commit) != [] && Gather(h, x, Considered(h, limit, x.commit), 0, []).0 == Each(os)
    ensures OnWay(h, reach, limit, PassedLine(h, a, x, os), f)
    ensures OnWay(h, reach, limit, Convict(PassedLine(h, a, x, os), x, false), f)
  {
    PlanIsEarlier(h, limit, x);
    StepIsAmong(h, x, os, a.line);
    var b := PassedLine(h, a, x, os);
    if b.origin == x && a.guilty {
      ArrivedInside(h, limit, x, os, a.line);
    }
  }

  // A line that ends in x, where history goes on, is not at its boundary.
  lemma ArrivedInside(h: History, limit: Commit, x: Origin, os: seq<Origin>, s: nat)
    requires h.Valid() && Considered(h, limit, x.commit) != []
    requires Gather(h, x, Considered(h, limit, x.commit), 0, []).0 == Each(os)
    requires Trace(h, limit, x, s).0 == x
    ensures StepLine(h, x, os, s) == None && Trace(h, limit, x, s) == (x, s, false)
  {
    PlanIsEarlier(h, limit, x);
    StepIsAmong(h, x, os, s);
    var r := StepLine(h, x, os, s);
    if r.Some? {
      TraceDescends(h, limit, r.value.0, r.value.1);
    }
  }

  // A round moves every line along its way.
  lemma RoundOnWay(h: History, reach: set<Commit>, limit: Commit, s: State, x: Origin, f: seq<(Origin, nat, bool)>)
    requires h.Valid() && Steady(h) && FirmLimit(h, reach, limit) && SameLimit(h, reach, limit, s.oldest)
    requires x.commit in reach && |f| == |s.lines|
    requires forall i :: 0 <= i < |f| ==> OnWay(h, reach, limit, s.lines[i], f[i])
    requires Round(h, s, x).Some?
    ensures var t := Round(h, s, x).value;
      && SameLimit(h, reach, limit, t.oldest) && |t.lines| == |f|
      && forall i :: 0 <= i < |f| ==> OnWay(h, reach, limit, t.lines[i], f[i])
  {
    SameConsidered(h, reach, limit, s.oldest, x.commit);
    var ps := Considered(h, limit, x.commit);
    assert forall c :: c in ps ==> c in reach;
    var t := Round(h, s, x).value;
    if ps != [] {
      GatherIsSteady(h, x, ps, s.calls, 0, []);
      PlanIsEarlier(h, limit, x);
      GatherIsAmong(h, x, ps, s.calls, []);
      var (plan, calls) := Gather(h, x, ps, s.calls, []);
      match plan {
        case Whole(p) => AllWholeOnWay(h, reach, limit, s, x, p, f);
        case Each(os) => AllPassedOnWay(h, reach, limit, s, x, os, f);
      }
    }
  }

  lemma AllWholeOnWay(h: History, reach: set<Commit>, limit: Commit, s: State, x: Origin, p: Origin, f: seq<(Origin, nat, bool)>)
    requires h.Valid() && |f| == |s.lines| && p.commit in reach
    requires forall i :: 0 <= i < |f| ==> OnWay(h, reach, limit, s.lines[i], f[i])
    requires Considered(h, limit, x.commit) != [] && Gather(h, x, Considered(h, limit, x.commit), 0, []).0 == Whole(p)
    ensures forall i :: 0 <= i < |f| ==>
      OnWay(h, reach, limit, WholeLine(s.lines[i], x, p), f[i]) && WholeLine(s.lines[i], x, p).origin != x
  {
    hide OnWay, Considered, WholeLine;
    forall i | 0 <= i < |f|
      ensures OnWay(h, reach, limit, WholeLine(s.lines[i], x, p), f[i]) && WholeLine(s.lines[i], x, p).origin != x
    {
      WholeOnWay(h, reach, limit, s.lines[i], x, p, f[i]);
    }
  }

  lemma AllPassedOnWay(h: History, reach: set<Commit>, limit: Commit, s: State, x: Origin, os: seq<Origin>, f: seq<(Origin, nat, bool)>)
    requires h.Valid() && |f| == |s.lines| && forall o :: o in os ==> o.commit in reach
    requires forall i :: 0 <= i < |f| ==> OnWay(h, reach, limit, s.lines[i], f[i])
    requires Considered(h, limit, x.commit) != [] && Gather(h, x, Considered(h, limit, x.commit), 0, []).0 == Each(os)
    requires PassEach(h, s.lines, x, os).Some?
    ensures var ls := PassEach(h, s.lines, x, os).value;
      |ls| == |f| && forall i :: 0 <= i < |f| ==> OnWay(h, reach, limit, Convict(ls[i], x, false), f[i])
  {
    hide OnWay, Considered, PassedLine, Convict;
    PlanIsEarlier(h, limit, x);
    PassEachSteps(h, s.lines, x, os);
    var ls := PassEach(h, s.lines, x, os).value;
    forall i | 0 <= i < |f|
      ensures OnWay(h, reach, limit, Convict(ls[i], x, false), f[i])
    {
      PassedOnWay(h, reach, limit, s.lines[i], x, os, f[i]);
    }
  }

  // The whole run: every line ends where its own way ends.
  lemma {:induction false} RunOnWay(h: History, reach: set<Commit>, limit: Commit, s: State, f: seq<(Origin, nat, bool)>)
    requires h.Valid() && Steady(h) && FirmLimit(h, reach, limit) && SameLimit(h, reach, limit, s.oldest)
    requires |f| == |s.lines| && forall i :: 0 <= i < |f| ==> OnWay(h, reach, limit, s.lines[i], f[i])
    requires RunAll(h, s).Some?
    ensures var ls := RunAll(h, s).value.lines;
      |ls| == |f| && forall i :: 0 <= i < |f| ==> (ls[i].origin, ls[i].line, ls[i].boundary) == f[i]
    decreases Measure(h, s.lines)
  {
    match FirstOpen(s.lines) {
      case None =>
        forall i | 0 <= i < |f|
          ensures (s.lines[i].origin, s.lines[i].line, s.lines[i].boundary) == f[i]
        {
          assert OnWay(h, reach, limit, s.lines[i], f[i]);
        }
      case Some(x) =>
        var i :| 0 <= i < |s.lines| && IsOpen(s.lines[i], x);
        assert OnWay(h, reach, limit, s.lines[i], f[i]);
        RoundDescends(h, s, x);
        RoundOnWay(h, reach, limit, s, x, f);
        RunOnWay(h, reach, limit, Round(h, s, x).value, f);
    }
  }

  // All lines of the final file that were asked for, under suspicion of it.
  function Suspected(final: Origin, first: nat, count: nat): (ls: seq<Attr>)
    ensures |ls| == count && forall i :: 0 <= i < count ==> ls[i] == Attr(final, first + i, false, false)
  {
    seq(count, i requires 0 <= i < count => Attr(final, first + i, false, false))
  }

  ghost predicate Arrived(h: History, limit: Commit, a: Attr, final: Origin, n: nat)
    requires h.Valid()
  {
    a.guilty && (a.origin, a.line, a.boundary) == Trace(h, limit, final, n)
  }

  // blame as a function of single lines: the order in which suspects are taken up, the
  // splitting of entries and the lines asked for together make no difference.
  lemma BlameIsTrace(h: History, reach: set<Commit>, limit: Commit, final: Origin, first: nat, count: nat)
    requires h.Valid() && Steady(h) && FirmLimit(h, reach, limit) && final.commit in reach
    ensures var t := RunAll(h, State(Suspected(final, first, count), limit, 0));
      t.Some? ==> (|t.value.lines| == count && forall i :: 0 <= i < count ==> Arrived(h, limit, t.value.lines[i], final, first + i))
  {
    var s := State(Suspected(final, first, count), limit, 0);
    var f := seq(count, i requires 0 <= i < count => Trace(h, limit, final, first + i));
    if RunAll(h, s).Some? {
      RunOnWay(h, reach, limit, s, f);
      RunDecides(h, s);
    }
  }

  lemma {:induction false} RunDecides(h: History, s: State)
    requires h.Valid() && RunAll(h, s).Some?
    ensures forall i :: 0 <= i < |RunAll(h, s).value.lines| ==> RunAll(h, s).value.lines[i].guilty
    decreases Measure(h, s.lines)
  {
    if FirstOpen(s.lines).Some? {
      RoundDescends(h, s, FirstOpen(s.lines).value);
      RunDecides(h, Round(h, s, FirstOpen(s.lines).value).value);
    }
  }

  // ---- exactness

  // Line s of x is new in x: history stops there, or the line is among those added by
  // the diff against each origin in a parent. (A diff that fails stops the whole run.)
  ghost predicate NewIn(h: History, limit: Commit, x: Origin, s: nat, boundary: bool) {
    var ps := Considered(h, limit, x.commit);
    if boundary then ps == []
    else ps != [] && match Gather(h, x, ps, 0, []).0
      case Whole(p) => false
      case Each(os) => forall j :: 0 <= j < |os| && h.diff(os[j], x).Some? ==> InHunk(h.diff(os[j], x).value, s)
  }

  lemma {:induction false} StepNowhere(h: History, x: Origin, os: seq<Origin>, s: nat)
    requires h.Valid() && StepLine(h, x, os, s).None?
    ensures forall j :: 0 <= j < |os| && h.diff(os[j], x).Some? ==> InHunk(h.diff(os[j], x).value, s)
  {
    if os != [] {
      StepNowhere(h, x, os[1..], s);
      if h.diff(os[0], x).Some? {
        var hs := h.diff(os[0], x).value;
        AlignedIsOrdered(h.file(os[0]), h.file(x), hs, 0, 0);
        NoSourceIsInHunk(hs, 0, 0, s);
      }
      forall j | 0 <= j < |os| && h.diff(os[j], x).Some?
        ensures InHunk(h.diff(os[j], x).value, s)
      {
        assert j > 0 ==> os[j] == os[1..][j - 1];
      }
    }
  }

  // A line's way ends only in an origin where it is new.
  lemma {:induction false} TraceIsExact(h: History, limit: Commit, x: Origin, s: nat)
    requires h.Valid()
    ensures var (y, t, b) := Trace(h, limit, x, s); NewIn(h, limit, y, t, b)
    decreases h.rank(x.commit)
  {
    var ps := Considered(h, limit, x.commit);
    if ps != [] {
      PlanIsEarlier(h, limit, x);
      match Gather(h, x, ps, 0, []).0 {
        case Whole(p) => TraceIsExact(h, limit, p, s);
        case Each(os) =>
          match StepLine(h, x, os, s) {
            case None => StepNowhere(h, x, os, s);
            case Some((p, t)) =>
              StepIsAmong(h, x, os, s);
              TraceIsExact(h, limit, p, t);
          }
      }
    }
  }

  // ---- a limit that is overwritten

  // Commit 3 merges 1, which has no parent, and 2, the limit, whose parent is 0. One
  // line came in through 1, the other is as old as 0.
  function Merge(): History {
    History(
      (c: Commit) => if c == 3 then [1, 2] else if c == 2 then [0] else [],
      (c: Commit) => c,
      (k: nat, c: Commit, o: Origin) => Some(Origin(c, "f")),
      (p: Origin, o: Origin) => Some(MergeDiff(p.commit, o.commit)),
      (o: Origin) => MergeFile(o.commit),
      false)
  }

  function MergeFile(c: Commit): seq<string> {
    if c == 3 then ["a", "b"] else if c == 1 then ["a"] else ["b"]
  }

  function MergeDiff(p: Commit, c: Commit): seq<Hunk> {
    if c == 3 && p == 1 then [Hunk(1, 0, 1, 1)]
    else if c == 3 && p == 2 then [Hunk(0, 0, 0, 1)]
    else [Hunk(0, |MergeFile(p)|, 0, |MergeFile(c)|)]
  }

  lemma MergeIsValid()
    ensures Merge().Valid() && Steady(Merge())
  {
    forall p: Origin, o: Origin
      ensures Aligned(MergeFile(p.commit), MergeFile(o.commit), MergeDiff(p.commit, o.commit), 0, 0)
    {
      var hs := MergeDiff(p.commit, o.commit);
      assert hs[1..] == [];
    }
  }

  // Once commit 1 has been decided it is the limit, and the other line passes commit 2.
  lemma LimitIsLost()
    ensures Merge().Valid()
    ensures var t := RunAll(Merge(), State(Suspected(Origin(3, "f"), 0, 2), 2, 0));
      && t.Some? && |t.value.lines| == 2
      && t.value.lines[1].origin == Origin(0, "f")
      && Trace(Merge(), 2, Origin(3, "f"), 1).0 == Origin(2, "f")
  {
    MergeIsValid();
    var h := Merge();
    var m, r, o, z := Origin(3, "f"), Origin(1, "f"), Origin(2, "f"), Origin(0, "f");
    var s0 := State(Suspected(m, 0, 2), 2, 0);
    var s1 := State([Attr(r, 0, false, false), Attr(o, 0, false, false)], 2, 2);
    var s2 := State([Attr(r, 0, true, true), Attr(o, 0, false, false)], 1, 2);
    var s3 := State([Attr(r, 0, true, true), Attr(z, 0, false, false)], 1, 3);
    var s4 := State([Attr(r, 0, true, true), Attr(z, 0, true, true)], 0, 3);
    hide Round, Merge, Trace;
    MergeFirst(s0);
    MergeSecond(s1);
    MergeThird(s2);
    MergeFourth(s3);
    assert FirstOpen(s0.lines) == Some(m) && FirstOpen(s1.lines) == Some(r);
    assert FirstOpen(s2.lines) == Some(o) && FirstOpen(s3.lines) == Some(z) && FirstOpen(s4.lines) == None;
    RunStep(h, s0, m, s1);
    RunStep(h, s1, r, s2);
    RunStep(h, s2, o, s3);
    RunStep(h, s3, z, s4);
    MergeTrace();
  }

  lemma MergeSecond(s: State)
    requires s == State([Attr(Origin(1, "f"), 0, false, false), Attr(Origin(2, "f"), 0, false, false)], 2, 2)
    ensures Round(Merge(), s, Origin(1, "f"))
         == Some(State([Attr(Origin(1, "f"), 0, true, true), Attr(Origin(2, "f"), 0, false, false)], 1, 2))
  {
    assert Round(Merge(), s, Origin(1, "f")).value.lines
        == [Attr(Origin(1, "f"), 0, true, true), Attr(Origin(2, "f"), 0, false, false)];
  }

  lemma MergeThird(s: State)
    requires s == State([Attr(Origin(1, "f"), 0, true, true), Attr(Origin(2, "f"), 0, false, false)], 1, 2)
    ensures Round(Merge(), s, Origin(2, "f"))
         == Some(State([Attr(Origin(1, "f"), 0, true, true), Attr(Origin(0, "f"), 0, false, false)], 1, 3))
  {
    assert Gather(Merge(), Origin(2, "f"), [0], 2, []) == (Whole(Origin(0, "f")), 3);
    assert Round(Merge(), s, Origin(2, "f")).value.lines
        == [Attr(Origin(1, "f"), 0, true, true), Attr(Origin(0, "f"), 0, false, false)];
  }

  lemma MergeFourth(s: State)
    requires s == State([Attr(Origin(1, "f"), 0, true, true), Attr(Origin(0, "f"), 0, false, false)], 1, 3)
    ensures Round(Merge(), s, Origin(0, "f"))
         == Some(State([Attr(Origin(1, "f"), 0, true, true), Attr(Origin(0, "f"), 0, true, true)], 0, 3))
  {
    assert Round(Merge(), s, Origin(0, "f")).value.lines
        == [Attr(Origin(1, "f"), 0, true, true), Attr(Origin(0, "f"), 0, true, true)];
  }

  lemma RunStep(h: History, s: State, x: Origin, t: State)
    requires h.Valid() && FirstOpen(s.lines) == Some(x) && Round(h, s, x) == Some(t)
    ensures RunAll(h, s) == RunAll(h, t)
  {
  }

  lemma MergeGather(calls: nat)
    ensures Gather(Merge(), Origin(3, "f"), [1, 2], calls, []) == (Each([Origin(1, "f"), Origin(2, "f")]), calls + 2)
  {
    var h, m, r, o := Merge(), Origin(3, "f"), Origin(1, "f"), Origin(2, "f");
    assert h.file(r)[0] != h.file(o)[0];
    assert |h.file(m)| != |h.file(r)| && |h.file(m)| != |h.file(o)|;
    assert [1, 2][1..] == [2] && [2][1..] == [];
    assert [] + [r] == [r] && [r] + [o] == [r, o];
    assert Gather(h, m, [2], calls + 1, [r]) == Gather(h, m, [], calls + 2, [r, o]);
  }

  lemma MergeFirst(s: State)
    requires s == State(Suspected(Origin(3, "f"), 0, 2), 2, 0)
    ensures Round(Merge(), s, Origin(3, "f"))
         == Some(State([Attr(Origin(1, "f"), 0, false, false), Attr(Origin(2, "f"), 0, false, false)], 2, 2))
  {
    hide PassEach, StepLine, Merge, Gather;
    var h, m, r, o := Merge(), Origin(3, "f"), Origin(1, "f"), Origin(2, "f");
    MergeGather(0);
    MergeSteps();
    PassEachSteps(h, s.lines, m, [r, o]);
    MergePasses(s.lines);
    var ls := PassEach(h, s.lines, m, [r, o]).value;
    assert ls == [Attr(r, 0, false, false), Attr(o, 0, false, false)];
    assert Considered(h, 2, 3) == [1, 2] by { MergeParents(); }
    assert PassBlame(h, s, m) == Some(State(ls, 2, 2));
    assert MapAll(ls, a => Convict(a, m, 3 == 2)) == ls;
  }

  lemma MergeParents()
    ensures Merge().parents(3) == [1, 2] && !Merge().firstParent
  {
  }

  lemma MergePasses(ls: seq<Attr>)
    ensures PassEach(Merge(), ls, Origin(3, "f"), [Origin(1, "f"), Origin(2, "f")]).Some?
  {
    DiffsSucceed(Merge(), ls, Origin(3, "f"), [Origin(1, "f"), Origin(2, "f")]);
  }

  lemma {:induction false} DiffsSucceed(h: History, ls: seq<Attr>, x: Origin, os: seq<Origin>)
    requires forall p, o :: h.diff(p, o).Some?
    ensures PassEach(h, ls, x, os).Some?
    decreases |os|
  {
    if os != [] && AnyOpen(ls, x) {
      var hs := h.diff(os[0], x).value;
      DiffsSucceed(h, MapAll(ls, a => PassLine(a, hs, 0, 0, x, os[0])), x, os[1..]);
    }
  }

  lemma MergeTrace()
    requires Merge().Valid()
    ensures Trace(Merge(), 2, Origin(3, "f"), 1).0 == Origin(2, "f")
  {
    var h, m, r, o := Merge(), Origin(3, "f"), Origin(1, "f"), Origin(2, "f");
    MergeGather(0);
    MergeSteps();
    assert Considered(h, 2, 3) == [1, 2] && Considered(h, 2, 2) == [];
  }

  lemma MergeSteps()
    ensures var os := [Origin(1, "f"), Origin(2, "f")];
      && StepLine(Merge(), Origin(3, "f"), os, 0) == Some((Origin(1, "f"), 0))
      && StepLine(Merge(), Origin(3, "f"), os, 1) == Some((Origin(2, "f"), 0))
  {
    var h, m, r, o := Merge(), Origin(3, "f"), Origin(1, "f"), Origin(2, "f");
    assert [r, o][1..] == [o];
    assert SourceLine([Hunk(1, 0, 1, 1)], 0, 0, 1) == None;
    assert SourceLine([Hunk(0, 0, 0, 1)], 0, 0, 1) == Some(0) by {
      assert [Hunk(0, 0, 0, 1)][1..] == [];
    }
  }
}
