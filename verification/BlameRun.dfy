// The algorithm of libgit2/src/blame_git.c on single lines: pass_blame and the main
// loop of git_blame__like_git, with what a run keeps, why it ends and what it computes.
module BlameRun {
  import opened Options
  import opened BlameModel

  // What the repository answers. find is find_origin, diff is xdl_diff (None when it
  // fails); find may depend on how many calls came before, since the source collects
  // paths as it goes. A file is the sequence of its lines with their terminators.
  datatype History = History(
    parents: Commit -> seq<Commit>,
    rank: Commit -> nat,
    find: (nat, Commit, Origin) -> Option<Origin>,
    diff: (Origin, Origin) -> Option<seq<Hunk>>,
    file: Origin -> seq<string>,
    firstParent: bool)
  {
    // History is acyclic; an origin found in a commit belongs to it; diffs are correct.
    ghost predicate Valid() {
      && (forall c, i :: 0 <= i < |parents(c)| ==> rank(parents(c)[i]) < rank(c))
      && (forall k, c, o :: find(k, c, o).Some? ==> find(k, c, o).value.commit == c)
      && (forall p, o :: diff(p, o).Some? ==> Aligned(file(p), file(o), diff(p, o).value, 0, 0))
    }
  }

  datatype State = State(lines: seq<Attr>, oldest: Commit, calls: nat)

  // ---- one round: the parents of a suspect

  datatype Plan = Whole(parent: Origin) | Each(parents: seq<Origin>)

  // The parents that pass_blame looks at.
  function Considered(h: History, oldest: Commit, c: Commit): (r: seq<Commit>) {
    if c == oldest then [] else if h.firstParent && |h.parents(c)| > 1 then h.parents(c)[..1] else h.parents(c)
  }

  // The loop that gathers the origins in the parents: the first whose file is the same
  // takes everything; of several with one content the first is kept.
  function Gather(h: History, x: Origin, ps: seq<Commit>, calls: nat, kept: seq<Origin>): (Plan, nat)
    decreases |ps|
  {
    if ps == [] then (Each(kept), calls)
    else match h.find(calls, ps[0], x)
      case None => Gather(h, x, ps[1..], calls + 1, kept)
      case Some(o) =>
        if h.file(o) == h.file(x) then (Whole(o), calls + 1)
        else if exists j :: 0 <= j < |kept| && h.file(kept[j]) == h.file(o) then Gather(h, x, ps[1..], calls + 1, kept)
        else Gather(h, x, ps[1..], calls + 1, kept + [o])
  }

  predicate IsOpen(a: Attr, x: Origin) {
    !a.guilty && a.origin == x
  }

  predicate AnyOpen(ls: seq<Attr>, x: Origin) {
    exists i :: 0 <= i < |ls| && IsOpen(ls[i], x)
  }

  // A change made to every line, or to every entry, alike.
  function MapAll<T>(s: seq<T>, f: T -> T): (r: seq<T>)
    ensures |r| == |s| && forall i :: 0 <= i < |s| ==> r[i] == f(s[i])
  {
    seq(|s|, i requires 0 <= i < |s| => f(s[i]))
  }

  // pass_blame_to_parent for each of the origins, until nothing remains under suspicion.
  function PassEach(h: History, ls: seq<Attr>, x: Origin, ps: seq<Origin>): Option<seq<Attr>>
    decreases |ps|
  {
    if ps == [] || !AnyOpen(ls, x) then Some(ls)
    else match h.diff(ps[0], x)
      case None => None
      case Some(hs) => PassEach(h, MapAll(ls, a => PassLine(a, hs, 0, 0, x, ps[0])), x, ps[1..])
  }

  function WholeLine(a: Attr, x: Origin, p: Origin): Attr {
    if a.origin == x then a.(origin := p) else a
  }

  function PassBlame(h: History, s: State, x: Origin): Option<State> {
    var ps := Considered(h, s.oldest, x.commit);
    if ps == [] then Some(s.(oldest := x.commit))
    else
      var (plan, calls) := Gather(h, x, ps, s.calls, []);
      match plan
      case Whole(p) => Some(State(MapAll(s.lines, a => WholeLine(a, x, p)), s.oldest, calls))
      case Each(os) =>
        match PassEach(h, s.lines, x, os)
        case None => None
        case Some(ls) => Some(State(ls, s.oldest, calls))
  }

  // What is still suspected of x after the round is x's.
  function Convict(a: Attr, x: Origin, boundary: bool): Attr {
    if a.origin == x then a.(guilty := true, boundary := boundary) else a
  }

  function Round(h: History, s: State, x: Origin): Option<State> {
    match PassBlame(h, s, x)
    case None => None
    case Some(t) => Some(t.(lines := MapAll(t.lines, a => Convict(a, x, x.commit == t.oldest))))
  }

  // ---- the main loop

  // The suspect of the first line that is still open.
  function FirstOpen(ls: seq<Attr>): (r: Option<Origin>)
    ensures r.None? <==> forall i :: 0 <= i < |ls| ==> ls[i].guilty
    ensures r.Some? ==> AnyOpen(ls, r.value)
  {
    if ls == [] then None
    else if !ls[0].guilty then assert IsOpen(ls[0], ls[0].origin); Some(ls[0].origin)
    else
      var r := FirstOpen(ls[1..]);
      assert r.Some? ==> forall i :: 0 <= i < |ls[1..]| ==> ls[1..][i] == ls[i + 1];
      assert r.None? ==> forall i :: 0 < i < |ls| ==> ls[i] == ls[1..][i - 1];
      r
  }

  // How far the open lines can still fall.
  ghost function Weight(h: History, a: Attr): nat {
    if a.guilty then 0 else h.rank(a.origin.commit) + 1
  }

  ghost function Measure(h: History, ls: seq<Attr>): nat {
    if ls == [] then 0 else Weight(h, ls[0]) + Measure(h, ls[1..])
  }

  // git_blame__like_git; None is its error return.
  ghost function RunAll(h: History, s: State): Option<State>
    requires h.Valid()
    decreases Measure(h, s.lines)
  {
    match FirstOpen(s.lines)
    case None => Some(s)
    case Some(x) =>
      match Round(h, s, x)
      case None => None
      case Some(t) =>
        RoundDescends(h, s, x);
        RunAll(h, t)
  }

  // ---- termination

  lemma {:induction false} MeasureDescends(h: History, a: seq<Attr>, b: seq<Attr>, k: nat)
    requires |a| == |b| && forall i :: 0 <= i < |a| ==> Weight(h, b[i]) <= Weight(h, a[i])
    ensures Measure(h, b) <= Measure(h, a)
    ensures k < |a| && Weight(h, b[k]) < Weight(h, a[k]) ==> Measure(h, b) < Measure(h, a)
  {
    if a != [] {
      MeasureDescends(h, a[1..], b[1..], if k > 0 then k - 1 else |a|);
    }
  }

  ghost predicate Earlier(h: History, p: Origin, x: Origin) {
    h.rank(p.commit) < h.rank(x.commit)
  }

  ghost predicate GoodPlan(h: History, plan: Plan, x: Origin) {
    match plan
    case Whole(p) => Earlier(h, p, x) && h.file(p) == h.file(x)
    case Each(os) => forall j :: 0 <= j < |os| ==> Earlier(h, os[j], x)
  }

  lemma {:induction false} GatherFinds(h: History, x: Origin, ps: seq<Commit>, calls: nat, kept: seq<Origin>)
    requires h.Valid()
    requires forall j :: 0 <= j < |kept| ==> Earlier(h, kept[j], x)
    requires forall i :: 0 <= i < |ps| ==> h.rank(ps[i]) < h.rank(x.commit)
    ensures GoodPlan(h, Gather(h, x, ps, calls, kept).0, x)
    decreases |ps|
  {
    if ps != [] {
      var r := h.find(calls, ps[0], x);
      if r.None? {
        GatherFinds(h, x, ps[1..], calls + 1, kept);
      } else {
        var o := r.value;
        assert o.commit == ps[0];
        assert h.rank(ps[0]) < h.rank(x.commit);
        assert Earlier(h, o, x);
        if h.file(o) == h.file(x) {
        } else if exists j :: 0 <= j < |kept| && h.file(kept[j]) == h.file(o) {
          GatherFinds(h, x, ps[1..], calls + 1, kept);
        } else {
          GatherFinds(h, x, ps[1..], calls + 1, kept + [o]);
        }
      }
    }
  }

  // A line either stays or falls, still open, from x to an earlier commit.
  ghost predicate Falls(h: History, a: Attr, b: Attr, x: Origin) {
    b == a || (IsOpen(a, x) && !b.guilty && !b.boundary && h.rank(b.origin.commit) < h.rank(x.commit))
  }

  lemma {:induction false} PassEachFalls(h: History, ls: seq<Attr>, x: Origin, os: seq<Origin>)
    requires forall j :: 0 <= j < |os| ==> Earlier(h, os[j], x)
    ensures var r := PassEach(h, ls, x, os);
      r.Some? ==> |r.value| == |ls| && forall i :: 0 <= i < |ls| ==> Falls(h, ls[i], r.value[i], x)
    decreases |os|
  {
    if os != [] && AnyOpen(ls, x) && h.diff(os[0], x).Some? {
      var hs := h.diff(os[0], x).value;
      var ls' := MapAll(ls, a => PassLine(a, hs, 0, 0, x, os[0]));
      PassEachFalls(h, ls', x, os[1..]);
      var r := PassEach(h, ls', x, os[1..]);
      if r.Some? {
        forall i | 0 <= i < |ls|
          ensures Falls(h, ls[i], r.value[i], x)
        {
          assert Falls(h, ls'[i], r.value[i], x);
        }
      }
    }
  }

  // What a round does to a line: x's open lines fall or are convicted, x's decided lines
  // may be handed on whole, all others stay.
  ghost predicate Rounded(h: History, a: Attr, b: Attr, x: Origin) {
    if a.origin != x then b == a
    else
      || (b.origin == x && b.line == a.line && b.guilty)
      || (b.guilty == a.guilty && h.rank(b.origin.commit) < h.rank(x.commit))
  }

  lemma RoundRounds(h: History, s: State, x: Origin)
    requires h.Valid()
    ensures var t := Round(h, s, x);
      t.Some? ==> |t.value.lines| == |s.lines| && forall i :: 0 <= i < |s.lines| ==> Rounded(h, s.lines[i], t.value.lines[i], x)
  {
    var ps := Considered(h, s.oldest, x.commit);
    assert forall i :: 0 <= i < |ps| ==> ps[i] == h.parents(x.commit)[i];
    if ps != [] {
      GatherFinds(h, x, ps, s.calls, []);
      match Gather(h, x, ps, s.calls, []).0 {
        case Whole(p) =>
        case Each(os) => PassEachFalls(h, s.lines, x, os);
      }
    }
  }

  lemma RoundDescends(h: History, s: State, x: Origin)
    requires h.Valid() && FirstOpen(s.lines) == Some(x)
    ensures var t := Round(h, s, x); t.Some? ==> Measure(h, t.value.lines) < Measure(h, s.lines)
  {
    RoundRounds(h, s, x);
    var t := Round(h, s, x);
    if t.Some? {
      assert forall i :: 0 <= i < |s.lines| ==> Rounded(h, s.lines[i], t.value.lines[i], x);
      var k :| 0 <= k < |s.lines| && IsOpen(s.lines[k], x);
      MeasureDescends(h, s.lines, t.value.lines, k);
    }
  }

  // ---- entries and their lines

  // Every line of the board is a line of an entry, and the other way round.
  lemma {:induction false} LineOfEntry(es: seq<Entry>, p: nat) returns (i: nat, t: nat)
    requires p < |Lines(es)|
    ensures i < |es| && t < es[i].num && Lines(es)[p] == AttrAt(es[i], t)
  {
    if p < es[0].num {
      i, t := 0, p;
    } else {
      i, t := LineOfEntry(es[1..], p - es[0].num);
      i := i + 1;
    }
  }

  lemma {:induction false} EntryHasLine(es: seq<Entry>, i: nat, t: nat) returns (p: nat)
    requires i < |es| && t < es[i].num
    ensures p < |Lines(es)| && Lines(es)[p] == AttrAt(es[i], t)
  {
    if i == 0 {
      p := t;
    } else {
      p := EntryHasLine(es[1..], i - 1, t);
      p := p + es[0].num;
    }
  }

  ghost predicate OpenEntry(e: Entry, x: Origin) {
    !e.guilty && e.suspect == x
  }

  lemma OpenLines(es: seq<Entry>, first: nat, count: nat, x: Origin, last: nat)
    requires Tiles(es, first, count)
    ensures AnyOpen(Lines(es), x) <==> exists i :: 0 <= i < |es| && OpenEntry(es[i], x)
    ensures Below(Lines(es), x, last) <==> forall i :: 0 <= i < |es| && OpenEntry(es[i], x) ==> es[i].sLno + es[i].num <= last
  {
    hide Lines, Tiles;
    NoneEmpty(es, first, count);
    if AnyOpen(Lines(es), x) {
      var p :| 0 <= p < |Lines(es)| && IsOpen(Lines(es)[p], x);
      var i, t := LineOfEntry(es, p);
      assert OpenEntry(es[i], x);
    }
    if i :| 0 <= i < |es| && OpenEntry(es[i], x) {
      var p := EntryHasLine(es, i, 0);
      assert IsOpen(Lines(es)[p], x);
    }
    if Below(Lines(es), x, last) {
      forall i | 0 <= i < |es| && OpenEntry(es[i], x)
        ensures es[i].sLno + es[i].num <= last
      {
        var p := EntryHasLine(es, i, es[i].num - 1);
      }
    }
    if forall i :: 0 <= i < |es| && OpenEntry(es[i], x) ==> es[i].sLno + es[i].num <= last {
      forall p | 0 <= p < |Lines(es)| && !Lines(es)[p].guilty && Lines(es)[p].origin == x
        ensures Lines(es)[p].line < last
      {
        var i, t := LineOfEntry(es, p);
        assert OpenEntry(es[i], x);
      }
    }
  }

  lemma NoneEmpty(es: seq<Entry>, first: nat, count: nat)
    requires Tiles(es, first, count)
    ensures es != [] && forall i :: 0 <= i < |es| ==> es[i].num > 0
  {
    TilesOrder(es, first, first + count);
  }

  lemma BelowStays(ls: seq<Attr>, st: Stretch, last: nat)
    requires Below(ls, st.target, last) && st.parent != st.target
    ensures Below(RedirectAll(ls, st), st.target, last)
  {
  }

  ghost predicate LineWise(f: Entry -> Entry, g: Attr -> Attr) {
    forall e :: f(e).lno == e.lno && f(e).num == e.num && forall t :: 0 <= t < e.num ==> AttrAt(f(e), t) == g(AttrAt(e, t))
  }

  lemma {:induction false} MapLinesOfEntries(es: seq<Entry>, f: Entry -> Entry, g: Attr -> Attr)
    requires LineWise(f, g)
    ensures Lines(MapAll(es, f)) == MapAll(Lines(es), g)
  {
    if es != [] {
      MapLinesOfEntries(es[1..], f, g);
      assert MapAll(es, f)[1..] == MapAll(es[1..], f);
      assert EntryLines(f(es[0])) == MapAll(EntryLines(es[0]), g);
    }
  }

  lemma {:induction false} MapTiles(es: seq<Entry>, f: Entry -> Entry, lo: nat, hi: nat)
    requires TilesFrom(es, lo, hi) && forall e :: f(e).lno == e.lno && f(e).num == e.num
    ensures TilesFrom(MapAll(es, f), lo, hi)
  {
    if es != [] {
      MapTiles(es[1..], f, lo + es[0].num, hi);
      assert MapAll(es, f)[1..] == MapAll(es[1..], f);
    }
  }

  function WholeEntry(e: Entry, x: Origin, p: Origin): Entry {
    if e.suspect == x then e.(suspect := p) else e
  }

  function ConvictEntry(e: Entry, x: Origin, boundary: bool): Entry {
    if e.suspect == x then e.(guilty := true, boundary := boundary) else e
  }

  lemma WholeLines(es: seq<Entry>, x: Origin, p: Origin)
    ensures Lines(MapAll(es, e => WholeEntry(e, x, p))) == MapAll(Lines(es), a => WholeLine(a, x, p))
  {
    hide Lines, MapAll;
    MapLinesOfEntries(es, e => WholeEntry(e, x, p), a => WholeLine(a, x, p));
  }

  lemma ConvictLines(es: seq<Entry>, x: Origin, b: bool)
    ensures Lines(MapAll(es, e => ConvictEntry(e, x, b))) == MapAll(Lines(es), a => Convict(a, x, b))
  {
    hide Lines, MapAll;
    MapLinesOfEntries(es, e => ConvictEntry(e, x, b), a => Convict(a, x, b));
  }

  lemma WholeKeeps(es: seq<Entry>, first: nat, count: nat, x: Origin, p: Origin)
    requires Tiles(es, first, count) && Fresh(es)
    ensures var r := MapAll(es, e => WholeEntry(e, x, p));
      Tiles(r, first, count) && Fresh(r) && Lines(r) == MapAll(Lines(es), a => WholeLine(a, x, p))
  {
    hide Lines, TilesFrom, MapAll;
    WholeLines(es, x, p);
    MapTiles(es, e => WholeEntry(e, x, p), first, first + count);
  }

  lemma ConvictKeeps(es: seq<Entry>, first: nat, count: nat, x: Origin, b: bool)
    requires Tiles(es, first, count) && Fresh(es)
    ensures var r := MapAll(es, e => ConvictEntry(e, x, b));
      Tiles(r, first, count) && Fresh(r) && Lines(r) == MapAll(Lines(es), a => Convict(a, x, b))
  {
    hide Lines, TilesFrom, MapAll;
    ConvictLines(es, x, b);
    MapTiles(es, e => ConvictEntry(e, x, b), first, first + count);
  }

  // The first undecided entry holds the first open line.
  lemma {:induction false} FirstOpenEntry(es: seq<Entry>, lo: nat, hi: nat, k: nat)
    requires TilesFrom(es, lo, hi) && k <= |es| && forall i :: 0 <= i < k ==> es[i].guilty
    ensures k == |es| ==> FirstOpen(Lines(es)) == None
    ensures k < |es| && !es[k].guilty ==> FirstOpen(Lines(es)) == Some(es[k].suspect)
  {
    if es != [] {
      if k > 0 {
        FirstOpenEntry(es[1..], lo + es[0].num, hi, k - 1);
        FirstOpenSkips(EntryLines(es[0]), Lines(es[1..]));
      } else {
        assert Lines(es)[0] == AttrAt(es[0], 0);
      }
    }
  }

  lemma {:induction false} FirstOpenSkips(a: seq<Attr>, b: seq<Attr>)
    requires forall i :: 0 <= i < |a| ==> a[i].guilty
    ensures FirstOpen(a + b) == FirstOpen(b)
  {
    if a == [] {
      assert a + b == b;
    } else {
      assert (a + b)[1..] == a[1..] + b;
      FirstOpenSkips(a[1..], b);
    }
  }
}
