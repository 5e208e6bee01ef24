// On what grounds a line is decided in a run of blame, whatever the repository answers and
// whenever it is asked, and what can become of it afterwards.
module BlameExact {
  import opened Options
  import opened BlameModel
  import opened BlameRun
  import opened BlameTheory

  // Line n of x is new in x as a round finds it: history stops there, or the diff against
  // each of the origins that were tried has the line among those it adds. A file that is
  // the same in a parent leaves nothing to decide.
  ghost predicate New(h: History, s: State, x: Origin, n: nat, boundary: bool) {
    var ps := Considered(h, s.oldest, x.commit);
    if ps == [] then boundary
    else !boundary && match Gather(h, x, ps, s.calls, []).0
      case Whole(p) => false
      case Each(os) => forall j :: 0 <= j < |os| ==> Adds(h, os[j], x, n)
  }

  ghost predicate Adds(h: History, p: Origin, x: Origin, n: nat) {
    h.diff(p, x).Some? && InHunk(h.diff(p, x).value, n)
  }

  // A line that is still x's when all origins have been tried has been looked for in each.
  lemma {:induction false} StaysNowhere(h: History, ls: seq<Attr>, x: Origin, os: seq<Origin>, i: nat)
    requires h.Valid() && i < |ls| && IsOpen(ls[i], x) && forall j :: 0 <= j < |os| ==> os[j] != x
    requires PassEach(h, ls, x, os).Some? && i < |PassEach(h, ls, x, os).value|
    requires PassEach(h, ls, x, os).value[i].origin == x
    ensures forall j :: 0 <= j < |os| ==> Adds(h, os[j], x, ls[i].line)
    ensures PassEach(h, ls, x, os).value[i] == ls[i]
    decreases |os|
  {
    if os != [] {
      assert AnyOpen(ls, x);
      var hs := h.diff(os[0], x).value;
      var ls' := MapAll(ls, a => PassLine(a, hs, 0, 0, x, os[0]));
      PassEachSteps(h, ls', x, os[1..]);
      assert forall j :: 0 <= j < |os[1..]| ==> os[1..][j] == os[j + 1];
      if SourceLine(hs, 0, 0, ls[i].line).None? {
        StaysNowhere(h, ls', x, os[1..], i);
        AlignedIsOrdered(h.file(os[0]), h.file(x), hs, 0, 0);
        NoSourceIsInHunk(hs, 0, 0, ls[i].line);
        assert Adds(h, os[0], x, ls[i].line);
      }
    }
  }

  // A round that decides a line decides it where it is, and only if it is new there.
  lemma RoundExact(h: History, s: State, x: Origin, i: nat)
    requires h.Valid() && Round(h, s, x).Some? && i < |s.lines| && !s.lines[i].guilty
    ensures var t := Round(h, s, x).value;
      && |t.lines| == |s.lines|
      && (t.lines[i].guilty ==>
            && s.lines[i].origin == x && t.lines[i] == Attr(x, s.lines[i].line, true, t.lines[i].boundary)
            && New(h, s, x, s.lines[i].line, t.lines[i].boundary))
  {
    RoundRounds(h, s, x);
    var t := Round(h, s, x).value;
    assert Rounded(h, s.lines[i], t.lines[i], x);
    var ps := Considered(h, s.oldest, x.commit);
    assert forall j :: 0 <= j < |ps| ==> ps[j] == h.parents(x.commit)[j];
    if t.lines[i].guilty && ps != [] {
      GatherFinds(h, x, ps, s.calls, []);
      match Gather(h, x, ps, s.calls, []).0 {
        case Whole(p) =>
        case Each(os) =>
          PassEachSteps(h, s.lines, x, os);
          StaysNowhere(h, s.lines, x, os, i);
      }
    }
  }

  // ---- which origins are tried

  // What find answers for the i-th of the parents.
  function Answer(h: History, x: Origin, ps: seq<Commit>, calls: nat, i: nat): Option<Origin>
    requires i < |ps|
  {
    h.find(calls + i, ps[i], x)
  }

  ghost predicate Answered(h: History, x: Origin, ps: seq<Commit>, calls: nat, o: Origin) {
    exists i: nat :: i < |ps| && Answer(h, x, ps, calls, i) == Some(o)
  }

  // Some origin that is tried has the file of o.
  ghost predicate Tried(h: History, os: seq<Origin>, o: Origin) {
    exists j :: 0 <= j < |os| && h.file(os[j]) == h.file(o)
  }

  // Each parent that has the file is asked in turn. The first that has it unchanged takes
  // all; if none does, every content that was found is tried, once.
  lemma {:induction false} GatherExact(h: History, x: Origin, ps: seq<Commit>, calls: nat, kept: seq<Origin>)
    ensures match Gather(h, x, ps, calls, kept)
      case (Whole(p), after) =>
        && calls < after <= calls + |ps| && Answer(h, x, ps, calls, after - calls - 1) == Some(p) && h.file(p) == h.file(x)
        && forall i: nat :: i < after - calls - 1 && Answer(h, x, ps, calls, i).Some? ==>
             h.file(Answer(h, x, ps, calls, i).value) != h.file(x)
      case (Each(os), after) =>
        && after == calls + |ps| && kept <= os
        && (forall i: nat :: i < |ps| && Answer(h, x, ps, calls, i).Some? ==>
             h.file(Answer(h, x, ps, calls, i).value) != h.file(x) && Tried(h, os, Answer(h, x, ps, calls, i).value))
        && (forall j :: |kept| <= j < |os| ==> Answered(h, x, ps, calls, os[j]))
        && (forall j, l :: 0 <= j < l < |os| && |kept| <= l ==> h.file(os[j]) != h.file(os[l]))
    decreases |ps|
  {
    if ps != [] {
      var r := h.find(calls, ps[0], x);
      var kept' := if r.Some? && !Tried(h, kept, r.value) then kept + [r.value] else kept;
      assert r == Answer(h, x, ps, calls, 0);
      forall i: nat | 0 < i < |ps|
        ensures Answer(h, x, ps, calls, i) == Answer(h, x, ps[1..], calls + 1, i - 1)
      {
      }
      hide Answer, Answered;
      if !(r.Some? && h.file(r.value) == h.file(x)) {
        assert Gather(h, x, ps, calls, kept) == Gather(h, x, ps[1..], calls + 1, kept');
        hide Tried, Gather;
        GatherExact(h, x, ps[1..], calls + 1, kept');
        match Gather(h, x, ps[1..], calls + 1, kept') {
          case (Whole(p), after) =>
          case (Each(os), after) => EachOfRest(h, x, ps, calls, kept, kept', os);
        }
      }
    }
  }

  lemma EachOfRest(h: History, x: Origin, ps: seq<Commit>, calls: nat, kept: seq<Origin>, kept': seq<Origin>, os: seq<Origin>)
    requires ps != [] && kept' <= os
    requires var r := Answer(h, x, ps, calls, 0); kept' == if r.Some? && !Tried(h, kept, r.value) then kept + [r.value] else kept
    requires forall j :: |kept'| <= j < |os| ==> Answered(h, x, ps[1..], calls + 1, os[j])
    requires forall j, l :: 0 <= j < l < |os| && |kept'| <= l ==> h.file(os[j]) != h.file(os[l])
    ensures forall j, l :: 0 <= j < l < |os| && |kept| <= l ==> h.file(os[j]) != h.file(os[l])
    ensures forall j :: |kept| <= j < |os| ==> Answered(h, x, ps, calls, os[j])
    ensures var r := Answer(h, x, ps, calls, 0); r.Some? ==> Tried(h, os, r.value)
  {
    var r := Answer(h, x, ps, calls, 0);
    forall j | |kept| <= j < |os|
      ensures Answered(h, x, ps, calls, os[j])
    {
      if j >= |kept'| {
        AnsweredLater(h, x, ps, calls, os[j]);
      }
    }
    if r.Some? {
      var j :| 0 <= j < |kept'| && h.file(kept'[j]) == h.file(r.value);
      assert h.file(os[j]) == h.file(r.value);
    }
  }

  lemma AnsweredLater(h: History, x: Origin, ps: seq<Commit>, calls: nat, o: Origin)
    requires ps != [] && Answered(h, x, ps[1..], calls + 1, o)
    ensures Answered(h, x, ps, calls, o)
  {
    var rest, c := ps[1..], calls + 1;
    var i: nat :| i < |rest| && Answer(h, x, rest, c, i) == Some(o);
    assert Answer(h, x, ps, calls, i + 1) == Some(o);
  }

  // The parents a round looks at: none behind the limit, the first one if only that is
  // followed, all otherwise.
  lemma NewMeans(h: History, s: State, x: Origin, n: nat, boundary: bool)
    requires New(h, s, x, n, boundary)
    ensures boundary <==> x.commit == s.oldest || h.parents(x.commit) == []
    ensures !boundary ==> var ps := h.parents(x.commit);
      forall i: nat :: i < (if h.firstParent then 1 else |ps|) && Answer(h, x, ps, s.calls, i).Some? ==>
        var o := Answer(h, x, ps, s.calls, i).value;
        h.file(o) != h.file(x) && exists o': Origin :: h.file(o') == h.file(o) && Adds(h, o', x, n)
  {
    var all := h.parents(x.commit);
    var ps := Considered(h, s.oldest, x.commit);
    if ps != [] {
      GatherExact(h, x, ps, s.calls, []);
      var os := Gather(h, x, ps, s.calls, []).0.parents;
      forall i: nat | i < (if h.firstParent then 1 else |all|) && Answer(h, x, all, s.calls, i).Some?
        ensures var o := Answer(h, x, all, s.calls, i).value;
          h.file(o) != h.file(x) && exists o': Origin :: h.file(o') == h.file(o) && Adds(h, o', x, n)
      {
        assert Answer(h, x, ps, s.calls, i) == Answer(h, x, all, s.calls, i);
        var j :| 0 <= j < |os| && h.file(os[j]) == h.file(Answer(h, x, all, s.calls, i).value);
        assert Adds(h, os[j], x, n);
      }
    }
  }

  // ---- following first parents only

  ghost predicate Mainline(h: History, c: Commit, top: Commit)
    requires h.Valid()
    decreases h.rank(top)
  {
    c == top || (h.parents(top) != [] && Mainline(h, c, h.parents(top)[0]))
  }

  lemma {:induction false} MainlineStep(h: History, c: Commit, top: Commit)
    requires h.Valid() && Mainline(h, c, top) && h.parents(c) != []
    ensures Mainline(h, h.parents(c)[0], top)
    decreases h.rank(top)
  {
    if c != top {
      MainlineStep(h, c, h.parents(top)[0]);
    } else {
      assert Mainline(h, h.parents(top)[0], h.parents(top)[0]);
    }
  }

  ghost predicate AllMainline(h: History, ls: seq<Attr>, top: Commit)
    requires h.Valid()
  {
    forall i :: 0 <= i < |ls| ==> Mainline(h, ls[i].origin.commit, top)
  }

  lemma RoundOnMainline(h: History, s: State, x: Origin, top: Commit)
    requires h.Valid() && h.firstParent && AllMainline(h, s.lines, top) && Mainline(h, x.commit, top)
    requires Round(h, s, x).Some?
    ensures AllMainline(h, Round(h, s, x).value.lines, top)
  {
    var ps := Considered(h, s.oldest, x.commit);
    assert forall j :: 0 <= j < |ps| ==> ps[j] == h.parents(x.commit)[j];
    if ps != [] {
      MainlineStep(h, x.commit, top);
      assert forall c :: c in ps ==> c == h.parents(x.commit)[0];
      GatherFinds(h, x, ps, s.calls, []);
      GatherIsAmong(h, x, ps, s.calls, []);
      match Gather(h, x, ps, s.calls, []).0 {
        case Whole(p) =>
        case Each(os) =>
          PassEachSteps(h, s.lines, x, os);
          var ls := PassEach(h, s.lines, x, os).value;
          forall i | 0 <= i < |ls|
            ensures Mainline(h, ls[i].origin.commit, top)
          {
            StepIsAmong(h, x, os, s.lines[i].line);
          }
      }
    }
  }

  // Then every line ends in a commit on the chain of first parents.
  lemma {:induction false} RunOnMainline(h: History, s: State, top: Commit)
    requires h.Valid() && h.firstParent && AllMainline(h, s.lines, top)
    ensures RunAll(h, s).Some? ==> AllMainline(h, RunAll(h, s).value.lines, top)
    decreases Measure(h, s.lines)
  {
    hide Round, Mainline;
    var x := FirstOpen(s.lines);
    if x.Some? && Round(h, s, x.value).Some? {
      RoundDescends(h, s, x.value);
      var i :| 0 <= i < |s.lines| && IsOpen(s.lines[i], x.value);
      RoundOnMainline(h, s, x.value, top);
      RunOnMainline(h, Round(h, s, x.value).value, top);
    }
  }

  // ---- lines that have been decided

  // The suspect's file is the same in a parent, which takes over all that it has.
  ghost predicate HandsOn(h: History, s: State, x: Origin) {
    var ps := Considered(h, s.oldest, x.commit);
    ps != [] && Gather(h, x, ps, s.calls, []).0.Whole?
  }

  // A line that has been decided moves exactly if its origin comes under suspicion once
  // more, on account of another line, and hands on all that it has.
  lemma DecidedMoves(h: History, s: State, x: Origin, i: nat)
    requires h.Valid() && Round(h, s, x).Some? && i < |s.lines| && s.lines[i].guilty
    ensures var t := Round(h, s, x).value; var a := s.lines[i];
      && |t.lines| == |s.lines| && t.lines[i].guilty && t.lines[i].line == a.line
      && (t.lines[i].origin != a.origin <==> a.origin == x && HandsOn(h, s, x))
      && h.file(t.lines[i].origin) == h.file(a.origin)
      && (t.lines[i].origin == a.origin || Earlier(h, t.lines[i].origin, a.origin))
  {
    var t := Round(h, s, x).value;
    var ps := Considered(h, s.oldest, x.commit);
    assert forall j :: 0 <= j < |ps| ==> ps[j] == h.parents(x.commit)[j];
    if ps != [] {
      GatherFinds(h, x, ps, s.calls, []);
      match Gather(h, x, ps, s.calls, []).0 {
        case Whole(p) =>
        case Each(os) => PassEachSteps(h, s.lines, x, os);
      }
    }
  }

  // ---- whole runs

  // The states that a run goes through.
  ghost function Visited(h: History, s: State): (v: seq<State>)
    requires h.Valid()
    ensures v != [] && v[0] == s
    decreases Measure(h, s.lines)
  {
    match FirstOpen(s.lines)
    case None => [s]
    case Some(x) =>
      match Round(h, s, x)
      case None => [s]
      case Some(t) =>
        RoundDescends(h, s, x);
        [s] + Visited(h, t)
  }

  // One round of the run.
  ghost predicate Turn(h: History, s: State, t: State) {
    FirstOpen(s.lines).Some? && Round(h, s, FirstOpen(s.lines).value) == Some(t)
  }

  // The round that decides line i, and why.
  ghost predicate Decides(h: History, s: State, t: State, i: nat) {
    && i < |s.lines| == |t.lines| && Turn(h, s, t)
    && var x := FirstOpen(s.lines).value;
      && !s.lines[i].guilty && s.lines[i].origin == x
      && t.lines[i] == Attr(x, s.lines[i].line, true, t.lines[i].boundary)
      && New(h, s, x, s.lines[i].line, t.lines[i].boundary)
  }

  // Line i has been decided and is handed on all the same.
  ghost predicate Moves(h: History, s: State, i: nat) {
    i < |s.lines| && s.lines[i].guilty && FirstOpen(s.lines) == Some(s.lines[i].origin) && HandsOn(h, s, s.lines[i].origin)
  }

  lemma {:induction false} RunIsVisited(h: History, s: State)
    requires h.Valid() && RunAll(h, s).Some?
    ensures var v := Visited(h, s);
      && v[|v| - 1] == RunAll(h, s).value && forall j :: 0 <= j < |v| - 1 ==> Turn(h, v[j], v[j + 1])
    decreases Measure(h, s.lines)
  {
    var x := FirstOpen(s.lines);
    if x.Some? {
      var t := Round(h, s, x.value).value;
      RoundDescends(h, s, x.value);
      RunIsVisited(h, t);
      var v := Visited(h, s);
      assert v == [s] + Visited(h, t);
      forall j | 0 <= j < |v| - 1
        ensures Turn(h, v[j], v[j + 1])
      {
        if j > 0 {
          assert v[j] == Visited(h, t)[j - 1] && v[j + 1] == Visited(h, t)[j];
        }
      }
    }
  }

  lemma TurnMoves(h: History, s: State, t: State, i: nat)
    requires h.Valid() && Turn(h, s, t) && i < |s.lines| && s.lines[i].guilty
    ensures i < |t.lines| && t.lines[i].guilty && t.lines[i].line == s.lines[i].line
    ensures h.file(t.lines[i].origin) == h.file(s.lines[i].origin)
    ensures if Moves(h, s, i) then Earlier(h, t.lines[i].origin, s.lines[i].origin) else t.lines[i].origin == s.lines[i].origin
  {
    hide HandsOn, Round;
    DecidedMoves(h, s, FirstOpen(s.lines).value, i);
  }

  // A decided line stays decided. It is elsewhere in the end exactly if a round has handed
  // it on, and reads the same there.
  lemma {:induction false} StaysDecided(h: History, v: seq<State>, i: nat, from: nat, to: nat)
    requires h.Valid() && from <= to < |v| && forall j :: 0 <= j < |v| - 1 ==> Turn(h, v[j], v[j + 1])
    requires i < |v[from].lines| && v[from].lines[i].guilty
    ensures i < |v[to].lines| && v[to].lines[i].guilty && v[to].lines[i].line == v[from].lines[i].line
    ensures h.file(v[to].lines[i].origin) == h.file(v[from].lines[i].origin)
    ensures v[to].lines[i].origin == v[from].lines[i].origin || Earlier(h, v[to].lines[i].origin, v[from].lines[i].origin)
    ensures v[to].lines[i].origin != v[from].lines[i].origin <==> exists j :: from <= j < to && Moves(h, v[j], i)
    decreases |v| - from
  {
    hide Moves, Turn;
    if from < to {
      assert Turn(h, v[from], v[from + 1]);
      TurnMoves(h, v[from], v[from + 1], i);
      StaysDecided(h, v, i, from + 1, to);
    }
  }

  lemma {:induction false} RunDecidesAt(h: History, s: State, i: nat) returns (k: nat)
    requires h.Valid() && RunAll(h, s).Some? && i < |s.lines| && !s.lines[i].guilty
    ensures var v := Visited(h, s); k + 1 < |v| && Decides(h, v[k], v[k + 1], i)
    decreases Measure(h, s.lines)
  {
    hide Visited, New, Round;
    var x := FirstOpen(s.lines).value;
    var t := Round(h, s, x).value;
    RoundDescends(h, s, x);
    RoundExact(h, s, x, i);
    VisitedStep(h, s, x, t);
    if t.lines[i].guilty {
      k := 0;
    } else {
      var j := RunDecidesAt(h, t, i);
      k := j + 1;
      assert Visited(h, s)[k] == Visited(h, t)[j] && Visited(h, s)[k + 1] == Visited(h, t)[j + 1];
    }
  }

  // The whole of it for one line of a run: it is decided in one round, because it is new in
  // its origin as that round finds it, and the result says so exactly if no later round
  // hands the decided line on.
  ghost predicate IsExact(h: History, v: seq<State>, i: nat, k: nat) {
    && k + 1 < |v| && Decides(h, v[k], v[k + 1], i)
    && var a, b := v[k + 1].lines[i], v[|v| - 1];
      && i < |b.lines| && b.lines[i].guilty && b.lines[i].line == a.line && h.file(b.lines[i].origin) == h.file(a.origin)
      && (b.lines[i].origin != a.origin <==> exists j :: k < j < |v| - 1 && Moves(h, v[j], i))
  }

  lemma RunIsExact(h: History, s: State, i: nat) returns (k: nat)
    requires h.Valid() && RunAll(h, s).Some? && i < |s.lines| && !s.lines[i].guilty
    ensures var v := Visited(h, s); v[|v| - 1] == RunAll(h, s).value && IsExact(h, v, i, k)
  {
    hide Visited, Decides, Turn, Moves, RunAll;
    var v := Visited(h, s);
    RunIsVisited(h, s);
    k := RunDecidesAt(h, s, i);
    DecidesIsGuilty(h, v[k], v[k + 1], i);
    StaysDecided(h, v, i, k + 1, |v| - 1);
  }

  lemma DecidesIsGuilty(h: History, s: State, t: State, i: nat)
    requires Decides(h, s, t, i)
    ensures i < |t.lines| && t.lines[i].guilty
  {
  }

  // ---- which decided lines are handed on

  // Some origin of y's was tried, and none was the same file.
  ghost predicate Settled(h: History, oldest: Commit, y: Origin) {
    var ps := Considered(h, oldest, y.commit);
    ps != [] && Gather(h, y, ps, 0, []).0.Each?
  }

  lemma SettledStays(h: History, s: State, x: Origin, y: Origin)
    requires Steady(h) && Round(h, s, x).Some? && Settled(h, s.oldest, y)
    ensures Settled(h, Round(h, s, x).value.oldest, y) && !HandsOn(h, s, y)
  {
    GatherIsSteady(h, y, Considered(h, s.oldest, y.commit), s.calls, 0, []);
  }

  lemma {:induction false} SettledNeverMoves(h: History, v: seq<State>, i: nat, from: nat, to: nat)
    requires h.Valid() && Steady(h) && from <= to < |v| && forall j :: 0 <= j < |v| - 1 ==> Turn(h, v[j], v[j + 1])
    requires i < |v[from].lines| && v[from].lines[i].guilty && Settled(h, v[from].oldest, v[from].lines[i].origin)
    ensures forall j :: from <= j < to ==> !Moves(h, v[j], i)
    decreases |v| - from
  {
    hide HandsOn, Settled, Steady;
    if from < to {
      assert Turn(h, v[from], v[from + 1]);
      TurnMoves(h, v[from], v[from + 1], i);
      SettledStays(h, v[from], FirstOpen(v[from].lines).value, v[from].lines[i].origin);
      SettledNeverMoves(h, v, i, from + 1, to);
    }
  }

  // When the repository's answers do not depend on when they are asked for, only a line
  // that was decided at the boundary can be handed on: that takes another line to reach the
  // same origin after the limit has been overwritten, and a parent with the same file.
  lemma InsideIsFinal(h: History, s: State, i: nat) returns (k: nat)
    requires h.Valid() && Steady(h) && RunAll(h, s).Some? && i < |s.lines| && !s.lines[i].guilty
    ensures var v := Visited(h, s); var b := RunAll(h, s).value;
      && IsExact(h, v, i, k) && i < |b.lines|
      && (!v[k + 1].lines[i].boundary ==> b.lines[i].origin == v[k + 1].lines[i].origin)
  {
    hide Visited, Turn, Moves, RunAll, Steady, Settled;
    var v := Visited(h, s);
    RunIsVisited(h, s);
    k := RunIsExact(h, s, i);
    if !v[k + 1].lines[i].boundary {
      InsideIsSettled(h, v[k], v[k + 1], i);
      SettledNeverMoves(h, v, i, k + 1, |v| - 1);
    }
  }

  lemma InsideIsSettled(h: History, s: State, t: State, i: nat)
    requires h.Valid() && Steady(h) && Decides(h, s, t, i) && !t.lines[i].boundary
    ensures Settled(h, t.oldest, t.lines[i].origin)
  {
    var x := FirstOpen(s.lines).value;
    GatherIsSteady(h, x, Considered(h, s.oldest, x.commit), s.calls, 0, []);
    assert Settled(h, s.oldest, x);
    SettledStays(h, s, x, x);
  }

  // ---- a line that is handed on

  // Commit 5 merges 2, 1 and 4; 2 is the limit and has the parent 0, 4 has the parent 2.
  // Of the three lines of the file one came in through each of them. The first is decided
  // at the limit. Deciding the second overwrites the limit with 1, and when the third has
  // come to 2 by way of 4, both are handed on to 0, where the file is the same.
  function Late(): History {
    History(
      (c: Commit) => if c == 5 then [2, 1, 4] else if c == 4 then [2] else if c == 2 then [0] else [],
      (c: Commit) => c,
      (k: nat, c: Commit, o: Origin) => Some(Origin(c, "f")),
      (p: Origin, o: Origin) => Some(LateDiff(p.commit, o.commit)),
      (o: Origin) => LateFile(o.commit),
      false)
  }

  function LateFile(c: Commit): seq<string> {
    if c == 5 then ["a", "b", "c"] else if c == 1 then ["b"] else if c == 4 then ["c"] else ["c", "a"]
  }

  function LateDiff(p: Commit, c: Commit): seq<Hunk> {
    if p == 2 && c == 5 then [Hunk(0, 1, 0, 0), Hunk(2, 0, 1, 2)]
    else if p == 1 && c == 5 then [Hunk(0, 0, 0, 1), Hunk(1, 0, 2, 1)]
    else if p == 4 && c == 5 then [Hunk(0, 0, 0, 2)]
    else if p == 2 && c == 4 then [Hunk(1, 1, 1, 0)]
    else [Hunk(0, |LateFile(p)|, 0, |LateFile(c)|)]
  }

  function At(c: Commit, n: nat): Attr {
    Attr(Origin(c, "f"), n, false, false)
  }

  function Had(c: Commit, n: nat): Attr {
    Attr(Origin(c, "f"), n, true, true)
  }

  lemma LateIsValid()
    ensures Late().Valid() && Steady(Late())
  {
    forall p: Origin, o: Origin
      ensures Aligned(LateFile(p.commit), LateFile(o.commit), LateDiff(p.commit, o.commit), 0, 0)
    {
      var hs := LateDiff(p.commit, o.commit);
      assert |hs| > 1 ==> hs[1..] == [hs[1]] && [hs[1]][1..] == [];
      assert |hs| == 1 ==> hs[1..] == [];
    }
  }

  // The first line is decided in the second round, and is elsewhere in the end.
  lemma LateHandOver()
    ensures Late().Valid() && Steady(Late())
    ensures var v := Visited(Late(), State(Suspected(Origin(5, "f"), 0, 3), 2, 0));
      && |v| == 7 && v[2].lines[0] == Had(2, 1)
      && v[6].lines == [Had(0, 1), Had(1, 0), Had(0, 0)]
  {
    hide Visited, Round, Late, FirstOpen, Suspected, Considered, Steady, Convict;
    LateIsValid();
    var h := Late();
    var s0 := State(Suspected(Origin(5, "f"), 0, 3), 2, 0);
    var s1 := State([At(2, 1), At(1, 0), At(4, 0)], 2, 3);
    var s2 := State([Had(2, 1), At(1, 0), At(4, 0)], 2, 3);
    var s3 := State([Had(2, 1), Had(1, 0), At(4, 0)], 1, 3);
    LateFirst(s0);
    LateSuspects(s0.lines, s1.lines, s2.lines);
    LateDecided(s1, s2, s3);
    LateSecondHalf(s3);
    VisitedThree(h, s0, Origin(5, "f"), s1, Origin(2, "f"), s2, Origin(1, "f"), s3);
  }

  lemma VisitedThree(h: History, s0: State, x0: Origin, s1: State, x1: Origin, s2: State, x2: Origin, s3: State)
    requires h.Valid() && FirstOpen(s0.lines) == Some(x0) && Round(h, s0, x0) == Some(s1)
    requires FirstOpen(s1.lines) == Some(x1) && Round(h, s1, x1) == Some(s2)
    requires FirstOpen(s2.lines) == Some(x2) && Round(h, s2, x2) == Some(s3)
    ensures Visited(h, s0) == [s0, s1, s2] + Visited(h, s3)
  {
    hide Visited, Round, FirstOpen;
    VisitedStep(h, s0, x0, s1);
    VisitedStep(h, s1, x1, s2);
    VisitedStep(h, s2, x2, s3);
  }

  lemma LateDecided(s1: State, s2: State, s3: State)
    requires s1 == State([At(2, 1), At(1, 0), At(4, 0)], 2, 3) && s2 == State([Had(2, 1), At(1, 0), At(4, 0)], 2, 3)
    requires s3 == State([Had(2, 1), Had(1, 0), At(4, 0)], 1, 3)
    ensures Round(Late(), s1, Origin(2, "f")) == Some(s2) && Round(Late(), s2, Origin(1, "f")) == Some(s3)
  {
    hide Round;
    LateBoundary(s1, s2, 2);
    LateBoundary(s2, s3, 1);
  }

  lemma LateSuspects(l0: seq<Attr>, l1: seq<Attr>, l2: seq<Attr>)
    requires l0 == Suspected(Origin(5, "f"), 0, 3)
    requires l1 == [At(2, 1), At(1, 0), At(4, 0)] && l2 == [Had(2, 1), At(1, 0), At(4, 0)]
    ensures FirstOpen(l0) == Some(Origin(5, "f")) && FirstOpen(l1) == Some(Origin(2, "f"))
    ensures FirstOpen(l2) == Some(Origin(1, "f"))
    ensures Considered(Late(), 2, 2) == [] && Considered(Late(), 2, 1) == []
  {
    hide FirstOpen;
    assert l0 == [l0[0], l0[1], l0[2]];
    FirstOfThree(l0[0], l0[1], l0[2]);
    FirstOfThree(l1[0], l1[1], l1[2]);
    FirstOfThree(l2[0], l2[1], l2[2]);
  }

  lemma LateSecondHalf(s3: State)
    requires s3 == State([Had(2, 1), Had(1, 0), At(4, 0)], 1, 3) && Late().Valid()
    ensures var v := Visited(Late(), s3); |v| == 4 && v[3].lines == [Had(0, 1), Had(1, 0), Had(0, 0)]
  {
    hide Visited, Round, Late, FirstOpen;
    var h := Late();
    var s4 := State([Had(2, 1), Had(1, 0), At(2, 0)], 1, 4);
    var s5 := State([Had(0, 1), Had(1, 0), At(0, 0)], 1, 5);
    var s6 := State([Had(0, 1), Had(1, 0), Had(0, 0)], 0, 5);
    LateFourth(s3);
    LateWhole(s4);
    LateLastSuspects(s3.lines, s4.lines, s5.lines, s6.lines);
    LateBoundary(s5, s6, 0);
    VisitedThree(h, s3, Origin(4, "f"), s4, Origin(2, "f"), s5, Origin(0, "f"), s6);
    VisitedEnd(h, s6);
  }

  lemma LateLastSuspects(l3: seq<Attr>, l4: seq<Attr>, l5: seq<Attr>, l6: seq<Attr>)
    requires l3 == [Had(2, 1), Had(1, 0), At(4, 0)] && l4 == [Had(2, 1), Had(1, 0), At(2, 0)]
    requires l5 == [Had(0, 1), Had(1, 0), At(0, 0)] && l6 == [Had(0, 1), Had(1, 0), Had(0, 0)]
    ensures FirstOpen(l3) == Some(Origin(4, "f")) && FirstOpen(l4) == Some(Origin(2, "f"))
    ensures FirstOpen(l5) == Some(Origin(0, "f")) && FirstOpen(l6) == None
    ensures Considered(Late(), 1, 0) == []
  {
    hide FirstOpen;
    FirstOfThree(l3[0], l3[1], l3[2]);
    FirstOfThree(l4[0], l4[1], l4[2]);
    FirstOfThree(l5[0], l5[1], l5[2]);
    FirstOfThree(l6[0], l6[1], l6[2]);
  }

  lemma FirstOfThree(a: Attr, b: Attr, c: Attr)
    ensures FirstOpen([a, b, c]) ==
      if !a.guilty then Some(a.origin) else if !b.guilty then Some(b.origin) else if !c.guilty then Some(c.origin) else None
  {
    assert [a, b, c][1..] == [b, c] && [b, c][1..] == [c] && [c][1..] == [];
    assert FirstOpen([c]) == if !c.guilty then Some(c.origin) else None;
    assert FirstOpen([b, c]) == if !b.guilty then Some(b.origin) else FirstOpen([c]);
  }

  lemma VisitedStep(h: History, s: State, x: Origin, t: State)
    requires h.Valid() && FirstOpen(s.lines) == Some(x) && Round(h, s, x) == Some(t)
    ensures Visited(h, s) == [s] + Visited(h, t)
  {
  }

  lemma VisitedEnd(h: History, s: State)
    requires h.Valid() && FirstOpen(s.lines) == None
    ensures Visited(h, s) == [s]
  {
  }

  // The suspect c has no parents, or is the limit.
  lemma LateBoundary(s: State, t: State, c: Commit)
    requires Considered(Late(), s.oldest, c) == [] && t.oldest == c && t.calls == s.calls
    requires t.lines == MapAll(s.lines, a => Convict(a, Origin(c, "f"), true))
    ensures Round(Late(), s, Origin(c, "f")) == Some(t)
  {
    hide Late;
    assert MapAll(s.lines, a => Convict(a, Origin(c, "f"), c == c)) == t.lines;
  }

  lemma LateWhole(s: State)
    requires s == State([Had(2, 1), Had(1, 0), At(2, 0)], 1, 4)
    ensures Round(Late(), s, Origin(2, "f")) == Some(State([Had(0, 1), Had(1, 0), At(0, 0)], 1, 5))
  {
    assert Gather(Late(), Origin(2, "f"), [0], 4, []) == (Whole(Origin(0, "f")), 5);
    assert Round(Late(), s, Origin(2, "f")).value.lines == [Had(0, 1), Had(1, 0), At(0, 0)];
  }

  lemma LateGather(calls: nat)
    ensures Gather(Late(), Origin(5, "f"), [2, 1, 4], calls, []) == (Each([Origin(2, "f"), Origin(1, "f"), Origin(4, "f")]), calls + 3)
  {
    var h, m, r, o, q := Late(), Origin(5, "f"), Origin(2, "f"), Origin(1, "f"), Origin(4, "f");
    assert |h.file(m)| == 3 && |h.file(r)| == 2 && |h.file(o)| == |h.file(q)| == 1;
    assert h.file(o)[0] != h.file(q)[0];
    assert [2, 1, 4][1..] == [1, 4] && [1, 4][1..] == [4] && [4][1..] == [];
    assert [] + [r] == [r] && [r] + [o] == [r, o] && [r, o] + [q] == [r, o, q];
    assert Gather(h, m, [4], calls + 2, [r, o]) == Gather(h, m, [], calls + 3, [r, o, q]);
    assert Gather(h, m, [1, 4], calls + 1, [r]) == Gather(h, m, [4], calls + 2, [r, o]);
  }

  lemma LateSteps()
    ensures var os := [Origin(2, "f"), Origin(1, "f"), Origin(4, "f")]; var m := Origin(5, "f");
      && StepLine(Late(), m, os, 0) == Some((Origin(2, "f"), 1))
      && StepLine(Late(), m, os, 1) == Some((Origin(1, "f"), 0))
      && StepLine(Late(), m, os, 2) == Some((Origin(4, "f"), 0))
  {
    var os := [Origin(2, "f"), Origin(1, "f"), Origin(4, "f")];
    assert os[1..] == [Origin(1, "f"), Origin(4, "f")] && os[1..][1..] == [Origin(4, "f")];
    var a, b, c := LateDiff(2, 5), LateDiff(1, 5), LateDiff(4, 5);
    assert a[1..] == [Hunk(2, 0, 1, 2)] && b[1..] == [Hunk(1, 0, 2, 1)] && c[1..] == [];
    assert [Hunk(2, 0, 1, 2)][1..] == [] && [Hunk(1, 0, 2, 1)][1..] == [];
    assert SourceLine(a, 0, 0, 0) == Some(1) && SourceLine(a, 0, 0, 1) == None && SourceLine(a, 0, 0, 2) == None;
    assert SourceLine(b, 0, 0, 1) == Some(0) && SourceLine(b, 0, 0, 2) == None;
    assert SourceLine(c, 0, 0, 2) == Some(0);
  }

  lemma LatePasses(ls: seq<Attr>, x: Origin, os: seq<Origin>)
    ensures PassEach(Late(), ls, x, os).Some?
  {
    DiffsSucceed(Late(), ls, x, os);
  }

  lemma LateParents()
    ensures Considered(Late(), 2, 5) == [2, 1, 4] && Considered(Late(), 1, 4) == [2]
  {
  }

  lemma LateFirst(s: State)
    requires s == State(Suspected(Origin(5, "f"), 0, 3), 2, 0)
    ensures Round(Late(), s, Origin(5, "f")) == Some(State([At(2, 1), At(1, 0), At(4, 0)], 2, 3))
  {
    hide PassEach, StepLine, Late, Gather;
    var m, os := Origin(5, "f"), [Origin(2, "f"), Origin(1, "f"), Origin(4, "f")];
    LateGather(0);
    LateSteps();
    LateParents();
    PassEachSteps(Late(), s.lines, m, os);
    LatePasses(s.lines, m, os);
    var ls := PassEach(Late(), s.lines, m, os).value;
    assert ls == [At(2, 1), At(1, 0), At(4, 0)];
    assert PassBlame(Late(), s, m) == Some(State(ls, 2, 3));
    assert MapAll(ls, a => Convict(a, m, 5 == 2)) == ls;
  }

  lemma LateFourth(s: State)
    requires s == State([Had(2, 1), Had(1, 0), At(4, 0)], 1, 3)
    ensures Round(Late(), s, Origin(4, "f")) == Some(State([Had(2, 1), Had(1, 0), At(2, 0)], 1, 4))
  {
    var m, o := Origin(4, "f"), Origin(2, "f");
    assert Gather(Late(), m, [2], 3, []) == (Each([o]), 4) by {
      assert |Late().file(o)| != |Late().file(m)|;
      assert [2][1..] == [] && [] + [o] == [o];
      assert Gather(Late(), m, [], 4, [o]) == (Each([o]), 4);
    }
    assert StepLine(Late(), m, [o], 0) == Some((o, 0)) by {
      assert [Hunk(1, 1, 1, 0)][1..] == [];
    }
    hide PassEach, StepLine, Late, Gather;
    LateParents();
    PassEachSteps(Late(), s.lines, m, [o]);
    LatePasses(s.lines, m, [o]);
    var ls := PassEach(Late(), s.lines, m, [o]).value;
    assert ls == [Had(2, 1), Had(1, 0), At(2, 0)];
    assert PassBlame(Late(), s, m) == Some(State(ls, 1, 4));
    assert MapAll(ls, a => Convict(a, m, 4 == 1)) == ls;
  }
}
