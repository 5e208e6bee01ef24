// When blame of a range is blame of each of its lines: a condition on the commit graph
// alone. The limit is lost exactly if it can be reached, has parents, and a commit without
// parents can be reached as well.
module BlameLimit {
  import opened Options
  import opened BlameModel
  import opened BlameRun
  import opened BlameTheory

  // ---- the commits that can come under suspicion

  // The parents that count where c is not the limit.
  function Ways(h: History, c: Commit): seq<Commit> {
    if h.firstParent && |h.parents(c)| > 1 then h.parents(c)[..1] else h.parents(c)
  }

  lemma WaysDescend(h: History, c: Commit)
    requires h.Valid()
    ensures forall i :: 0 <= i < |Ways(h, c)| ==> h.rank(Ways(h, c)[i]) < h.rank(c)
    ensures Ways(h, c) == [] <==> h.parents(c) == []
  {
    assert forall i :: 0 <= i < |Ways(h, c)| ==> Ways(h, c)[i] == h.parents(c)[i];
  }

  // What can be reached from c without going on from the limit.
  ghost function Reach(h: History, limit: Commit, c: Commit): set<Commit>
    requires h.Valid()
    decreases h.rank(c), 1, 0
  {
    if c == limit then {c} else {c} + ReachAny(h, limit, c, 0)
  }

  ghost function ReachAny(h: History, limit: Commit, c: Commit, i: nat): set<Commit>
    requires h.Valid() && i <= |Ways(h, c)|
    decreases h.rank(c), 0, |Ways(h, c)| - i
  {
    if i == |Ways(h, c)| then {}
    else
      WaysDescend(h, c);
      Reach(h, limit, Ways(h, c)[i]) + ReachAny(h, limit, c, i + 1)
  }

  // c leads to t on the way r.
  ghost predicate IsWay(h: History, limit: Commit, r: seq<Commit>, c: Commit, t: Commit) {
    && r != [] && r[0] == c && r[|r| - 1] == t
    && forall i :: 0 <= i < |r| - 1 ==> r[i] != limit && r[i + 1] in Ways(h, r[i])
  }

  lemma {:induction false} WayTo(h: History, limit: Commit, c: Commit, t: Commit) returns (r: seq<Commit>)
    requires h.Valid() && t in Reach(h, limit, c)
    ensures IsWay(h, limit, r, c, t)
    decreases h.rank(c), 1, 0
  {
    if t == c {
      r := [c];
    } else {
      var i, q := WayToAny(h, limit, c, 0, t);
      r := [c] + q;
    }
  }

  lemma {:induction false} WayToAny(h: History, limit: Commit, c: Commit, i: nat, t: Commit) returns (j: nat, r: seq<Commit>)
    requires h.Valid() && i <= |Ways(h, c)| && t in ReachAny(h, limit, c, i)
    ensures j < |Ways(h, c)| && IsWay(h, limit, r, Ways(h, c)[j], t)
    decreases h.rank(c), 0, |Ways(h, c)| - i
  {
    WaysDescend(h, c);
    if t in Reach(h, limit, Ways(h, c)[i]) {
      j := i;
      r := WayTo(h, limit, Ways(h, c)[i], t);
    } else {
      j, r := WayToAny(h, limit, c, i + 1, t);
    }
  }

  lemma {:induction false} ReachClosed(h: History, limit: Commit, c: Commit)
    requires h.Valid()
    ensures forall d, i :: d in Reach(h, limit, c) && 0 <= i < |Considered(h, limit, d)| ==> Considered(h, limit, d)[i] in Reach(h, limit, c)
    decreases h.rank(c), 1, 0
  {
    if c != limit {
      ReachAnyClosed(h, limit, c, 0);
    }
  }

  lemma {:induction false} ReachAnyClosed(h: History, limit: Commit, c: Commit, k: nat)
    requires h.Valid() && k <= |Ways(h, c)|
    ensures forall d, i :: d in ReachAny(h, limit, c, k) && 0 <= i < |Considered(h, limit, d)| ==> Considered(h, limit, d)[i] in ReachAny(h, limit, c, k)
    ensures forall i :: k <= i < |Ways(h, c)| ==> Ways(h, c)[i] in ReachAny(h, limit, c, k)
    decreases h.rank(c), 0, |Ways(h, c)| - k
  {
    WaysDescend(h, c);
    if k < |Ways(h, c)| {
      ReachClosed(h, limit, Ways(h, c)[k]);
      ReachAnyClosed(h, limit, c, k + 1);
    }
  }

  // What a caller can check beforehand.
  ghost predicate Firm(h: History, limit: Commit, c: Commit)
    requires h.Valid()
  {
    var reach := Reach(h, limit, c);
    limit !in reach || h.parents(limit) == [] || forall d :: d in reach ==> h.parents(d) != []
  }

  // The same commits.
  ghost predicate SameGraph(h: History, g: History) {
    h.parents == g.parents && h.rank == g.rank && h.firstParent == g.firstParent
  }

  // Every line of a range goes its own way.
  ghost predicate GoesItsWay(h: History, limit: Commit, final: Origin, first: nat, count: nat)
    requires h.Valid()
  {
    var t := RunAll(h, State(Suspected(final, first, count), limit, 0));
    t.Some? ==> |t.value.lines| == count && forall i :: 0 <= i < count ==> Arrived(h, limit, t.value.lines[i], final, first + i)
  }

  lemma {:induction false} SameReach(h: History, g: History, limit: Commit, c: Commit)
    requires h.Valid() && g.Valid() && SameGraph(h, g)
    ensures Reach(h, limit, c) == Reach(g, limit, c)
    decreases h.rank(c), 1, 0
  {
    if c != limit {
      SameReachAny(h, g, limit, c, 0);
    }
  }

  lemma {:induction false} SameReachAny(h: History, g: History, limit: Commit, c: Commit, i: nat)
    requires h.Valid() && g.Valid() && SameGraph(h, g) && i <= |Ways(h, c)|
    ensures ReachAny(h, limit, c, i) == ReachAny(g, limit, c, i)
    decreases h.rank(c), 0, |Ways(h, c)| - i
  {
    WaysDescend(h, c);
    if i < |Ways(h, c)| {
      SameReach(h, g, limit, Ways(h, c)[i]);
      SameReachAny(h, g, limit, c, i + 1);
    }
  }

  // The sufficient half.
  lemma FirmHolds(g: History, h: History, limit: Commit, final: Origin, first: nat, count: nat)
    requires g.Valid() && h.Valid() && Steady(h) && SameGraph(h, g) && Firm(g, limit, final.commit)
    ensures GoesItsWay(h, limit, final, first, count)
  {
    hide RunAll, Trace;
    SameReach(h, g, limit, final.commit);
    ReachClosed(h, limit, final.commit);
    BlameIsTrace(h, Reach(h, limit, final.commit), limit, final, first, count);
  }
}
