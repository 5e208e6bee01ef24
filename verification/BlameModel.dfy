// The scoreboard of libgit2/src/blame_git.c over values: entries and what each says of
// every line it covers, the hunks of a diff, and one line's own way through history.
module BlameModel {
  import opened Options

  type Commit = nat

  // A file as it stands in a commit. Two origins are the same suspect if they agree.
  datatype Origin = Origin(commit: Commit, path: string)

  // git_blame__entry: num lines of the final file from lno on, which are suspected to
  // come from the lines of the suspect's file from sLno on.
  datatype Entry = Entry(lno: nat, num: nat, suspect: Origin, guilty: bool, sLno: nat, boundary: bool)

  // What a scoreboard says of one line.
  datatype Attr = Attr(origin: Origin, line: nat, guilty: bool, boundary: bool)

  function AttrAt(e: Entry, i: nat): Attr {
    Attr(e.suspect, e.sLno + i, e.guilty, e.boundary)
  }

  function EntryLines(e: Entry): (s: seq<Attr>)
    ensures |s| == e.num
  {
    seq(e.num, i requires 0 <= i < e.num => AttrAt(e, i))
  }

  function Lines(es: seq<Entry>): seq<Attr> {
    if es == [] then [] else EntryLines(es[0]) + Lines(es[1..])
  }

  // The entries cover the lines first to first + count, in order and without gaps, and
  // none is empty.
  ghost predicate Tiles(es: seq<Entry>, first: nat, count: nat) {
    count > 0 && TilesFrom(es, first, first + count)
  }

  ghost predicate TilesFrom(es: seq<Entry>, lo: nat, hi: nat) {
    if es == [] then lo == hi
    else es[0].lno == lo && es[0].num > 0 && TilesFrom(es[1..], lo + es[0].num, hi)
  }

  // ---- splitting an entry

  // Lines tlno to same of the target are lines of the parent, from plno on.
  datatype Stretch = Stretch(tlno: nat, plno: nat, same: nat, target: Origin, parent: Origin)

  // The part of e's lines that the stretch covers, by their numbers in the target.
  function From(e: Entry, st: Stretch): nat {
    if e.sLno < st.tlno then st.tlno else e.sLno
  }

  function To(e: Entry, st: Stretch): nat {
    if st.same < e.sLno + e.num then st.same else e.sLno + e.num
  }

  // Lines a to b of the suspect, as an entry of their own, still undecided.
  function Part(e: Entry, a: nat, b: nat): seq<Entry>
    requires e.sLno <= a
  {
    if a < b then [Entry(e.lno + (a - e.sLno), b - a, e.suspect, false, a, false)] else []
  }

  function Passed(e: Entry, st: Stretch): Entry
    requires From(e, st) < To(e, st)
  {
    Entry(e.lno + (From(e, st) - e.sLno), To(e, st) - From(e, st), st.parent, false, st.plno + (From(e, st) - st.tlno), false)
  }

  // split_overlap and split_blame: the part before the stretch, the part that is passed
  // to the parent, and the part after.
  function SplitEntry(e: Entry, st: Stretch): (r: seq<Entry>) {
    if From(e, st) >= To(e, st) then [e]
    else Part(e, e.sLno, From(e, st)) + ([Passed(e, st)] + Part(e, To(e, st), e.sLno + e.num))
  }

  // The guards of blame_chunk.
  predicate Overlaps(e: Entry, st: Stretch) {
    !e.guilty && e.suspect == st.target && e.sLno < st.same && st.tlno < e.sLno + e.num
  }

  function ChunkOne(e: Entry, st: Stretch): seq<Entry> {
    if Overlaps(e, st) then SplitEntry(e, st) else [e]
  }

  function Chunk(es: seq<Entry>, st: Stretch): seq<Entry> {
    if es == [] then [] else ChunkOne(es[0], st) + Chunk(es[1..], st)
  }

  // The same for one line: it moves to the parent exactly if it is a line of the target,
  // not yet decided, inside the stretch.
  function Redirect(a: Attr, st: Stretch): Attr {
    if !a.guilty && a.origin == st.target && st.tlno <= a.line < st.same
    then Attr(st.parent, st.plno + (a.line - st.tlno), false, false) else a
  }

  function RedirectAll(s: seq<Attr>, st: Stretch): (r: seq<Attr>)
    ensures |r| == |s|
    ensures forall i :: 0 <= i < |s| ==> r[i] == Redirect(s[i], st)
  {
    seq(|s|, i requires 0 <= i < |s| => Redirect(s[i], st))
  }

  // Undecided entries carry no boundary mark.
  ghost predicate Fresh(es: seq<Entry>) {
    forall i :: 0 <= i < |es| && !es[i].guilty ==> !es[i].boundary
  }

  lemma LinesConcat(a: seq<Entry>, b: seq<Entry>)
    ensures Lines(a + b) == Lines(a) + Lines(b)
  {
    if a == [] {
      assert a + b == b;
    } else {
      assert (a + b)[1..] == a[1..] + b;
      LinesConcat(a[1..], b);
    }
  }

  lemma ChunkConcat(a: seq<Entry>, b: seq<Entry>, st: Stretch)
    ensures Chunk(a + b, st)
         == Chunk(a, st) + Chunk(b, st)
  {
    if a == [] {
      assert a + b == b;
    } else {
      assert (a + b)[1..] == a[1..] + b;
      ChunkConcat(a[1..], b, st);
    }
  }

  lemma LinesOfOne(e: Entry)
    ensures Lines([e]) == EntryLines(e)
  {
  }

  lemma RedirectConcat(a: seq<Attr>, b: seq<Attr>, st: Stretch)
    ensures RedirectAll(a + b, st) == RedirectAll(a, st) + RedirectAll(b, st)
  {
  }

  lemma PartLines(e: Entry, a: nat, b: nat)
    requires e.sLno <= a <= b <= e.sLno + e.num && !e.guilty && !e.boundary
    ensures Lines(Part(e, a, b)) == EntryLines(e)[a - e.sLno..b - e.sLno]
  {
    if a < b {
      LinesOfOne(Part(e, a, b)[0]);
    }
  }

  lemma PassedLines(e: Entry, st: Stretch)
    requires Overlaps(e, st) && From(e, st) < To(e, st)
    ensures EntryLines(Passed(e, st)) == RedirectAll(EntryLines(e)[From(e, st) - e.sLno..To(e, st) - e.sLno], st)
  {
  }

  // Lines outside the stretch stay as they are.
  lemma OutsideLines(e: Entry, st: Stretch, i: nat, j: nat)
    requires i <= j <= e.num
    requires e.sLno + j <= st.tlno || st.same <= e.sLno + i || st.same <= st.tlno || i == j
    ensures RedirectAll(EntryLines(e)[i..j], st) == EntryLines(e)[i..j]
  {
  }

  lemma ThreeParts(s: seq<Attr>, i: nat, j: nat, st: Stretch)
    requires i <= j <= |s|
    requires RedirectAll(s[..i], st) == s[..i] && RedirectAll(s[j..], st) == s[j..]
    ensures RedirectAll(s, st) == s[..i] + (RedirectAll(s[i..j], st) + s[j..])
  {
    RedirectConcat(s[i..j], s[j..], st);
    RedirectConcat(s[..i], s[i..j] + s[j..], st);
    assert s[..i] + (s[i..j] + s[j..]) == s;
  }

  // Splitting an entry redirects its lines, one by one.
  lemma SplitLines(e: Entry, st: Stretch)
    requires Overlaps(e, st) && !e.boundary
    ensures Lines(SplitEntry(e, st)) == RedirectAll(EntryLines(e), st)
  {
    hide RedirectAll, Part, EntryLines, Passed, Lines;
    var s := EntryLines(e);
    if From(e, st) >= To(e, st) {
      LinesOfOne(e);
      OutsideLines(e, st, 0, e.num);
      assert s[0..e.num] == s;
    } else {
      var i, j := From(e, st) - e.sLno, To(e, st) - e.sLno;
      var p, m, q := Part(e, e.sLno, From(e, st)), Passed(e, st), Part(e, To(e, st), e.sLno + e.num);
      hide From, To;
      PartLines(e, e.sLno, From(e, st));
      PartLines(e, To(e, st), e.sLno + e.num);
      LinesOfOne(m);
      LinesConcat([m], q);
      LinesConcat(p, [m] + q);
      PassedLines(e, st);
      OutsideLines(e, st, 0, i);
      OutsideLines(e, st, j, e.num);
      assert s[0..i] == s[..i] && s[j..e.num] == s[j..];
      ThreeParts(s, i, j, st);
    }
  }

  lemma ChunkOneLines(e: Entry, st: Stretch)
    requires e.guilty || !e.boundary
    ensures Lines(ChunkOne(e, st)) == RedirectAll(EntryLines(e), st)
  {
    if Overlaps(e, st) {
      SplitLines(e, st);
    } else {
      LinesOfOne(e);
      assert RedirectAll(EntryLines(e), st) == EntryLines(e);
    }
  }

  lemma {:induction false} ChunkLines(es: seq<Entry>, st: Stretch)
    requires Fresh(es)
    ensures Lines(Chunk(es, st)) == RedirectAll(Lines(es), st)
  {
    hide ChunkOne, RedirectAll, EntryLines;
    if es == [] {
      RedirectNone(st);
    } else {
      ChunkOneLines(es[0], st);
      ChunkLines(es[1..], st);
      LinesConcat(ChunkOne(es[0], st), Chunk(es[1..], st));
      RedirectConcat(EntryLines(es[0]), Lines(es[1..]), st);
    }
  }

  lemma RedirectNone(st: Stretch)
    ensures RedirectAll([], st) == []
  {
  }

  lemma ChunkOneTiles(e: Entry, st: Stretch)
    requires e.num > 0 && (e.guilty || !e.boundary)
    ensures var r := ChunkOne(e, st);
      r != [] && TilesFrom(r, e.lno, e.lno + e.num) && Fresh(r)
  {
    if Overlaps(e, st) && From(e, st) < To(e, st) {
      var a, m, b := Part(e, e.sLno, From(e, st)), Passed(e, st), Part(e, To(e, st), e.sLno + e.num);
      var lo, hi := e.lno + (From(e, st) - e.sLno), e.lno + (To(e, st) - e.sLno);
      assert TilesFrom([m], lo, hi) by { assert [m][1..] == []; }
      assert b != [] ==> b[1..] == [];
      assert a != [] ==> a[1..] == [];
      TilesConcat([m], b, lo, hi, e.lno + e.num);
      TilesConcat(a, [m] + b, e.lno, lo, e.lno + e.num);
    } else {
      assert [e][1..] == [];
    }
  }

  lemma {:induction false} ChunkTilesFrom(es: seq<Entry>, lo: nat, hi: nat, st: Stretch)
    requires TilesFrom(es, lo, hi) && Fresh(es)
    ensures var r := Chunk(es, st);
      TilesFrom(r, lo, hi) && Fresh(r) && |r| >= |es|
  {
    hide ChunkOne;
    if es != [] {
      var one := ChunkOne(es[0], st);
      var rest := Chunk(es[1..], st);
      ChunkOneTiles(es[0], st);
      ChunkTilesFrom(es[1..], lo + es[0].num, hi, st);
      TilesConcat(one, rest, lo, lo + es[0].num, hi);
    }
  }

  lemma TilesConcat(a: seq<Entry>, b: seq<Entry>, lo: nat, mid: nat, hi: nat)
    requires TilesFrom(a, lo, mid) && TilesFrom(b, mid, hi)
    ensures TilesFrom(a + b, lo, hi)
  {
    if a == [] {
      assert a + b == b;
    } else {
      assert (a + b)[1..] == a[1..] + b;
      TilesConcat(a[1..], b, lo + a[0].num, mid, hi);
    }
  }

  // What one call of blame_chunk keeps, and what it does to every line.
  lemma ChunkKeeps(es: seq<Entry>, first: nat, count: nat, st: Stretch)
    requires Tiles(es, first, count) && Fresh(es)
    ensures var r := Chunk(es, st);
      Tiles(r, first, count) && Fresh(r) && Lines(r) == RedirectAll(Lines(es), st)
  {
    hide TilesFrom;
    ChunkLines(es, st);
    ChunkTilesFrom(es, first, first + count, st);
  }

  // ---- the hunks of a diff

  // countA lines of the old file from startA on have become countB lines of the new one
  // from startB on.
  datatype Hunk = Hunk(startA: nat, countA: nat, startB: nat, countB: nat)

  // The hunks from one on, in order; between them, and after the last, old and new are
  // the same. a and b are where the previous hunk ended.
  ghost predicate Aligned(before: seq<string>, after: seq<string>, hs: seq<Hunk>, a: nat, b: nat) {
    if hs == [] then a <= |before| && b <= |after| && before[a..] == after[b..]
    else
      var h := hs[0];
      && a <= h.startA <= h.startA + h.countA <= |before| && b <= h.startB <= h.startB + h.countB <= |after|
      && before[a..h.startA] == after[b..h.startB]
      && Aligned(before, after, hs[1..], h.startA + h.countA, h.startB + h.countB)
  }

  // The line of the old file that line s of the new one is, if it lies in a stretch that
  // the diff left alone.
  function SourceLine(hs: seq<Hunk>, a: nat, b: nat, s: nat): Option<nat> {
    if s < b then None
    else if hs == [] then Some(a + (s - b))
    else if s < hs[0].startB then Some(a + (s - b))
    else SourceLine(hs[1..], hs[0].startA + hs[0].countA, hs[0].startB + hs[0].countB, s)
  }

  // my_emit for every hunk and the call for the rest of the file up to line last.
  function EmitAll(es: seq<Entry>, hs: seq<Hunk>, a: nat, b: nat, last: nat, target: Origin, parent: Origin): seq<Entry>
    decreases |hs|
  {
    if hs == [] then Chunk(es, Stretch(b, a, last, target, parent))
    else EmitAll(Chunk(es, Stretch(b, a, hs[0].startB, target, parent)), hs[1..],
                 hs[0].startA + hs[0].countA, hs[0].startB + hs[0].countB, last, target, parent)
  }

  // The same for a line: an undecided line of the target that is the parent's goes there.
  function PassLine(x: Attr, hs: seq<Hunk>, a: nat, b: nat, target: Origin, parent: Origin): Attr {
    if x.guilty || x.origin != target then x
    else match SourceLine(hs, a, b, x.line)
      case None => x
      case Some(line) => Attr(parent, line, false, false)
  }

  // The lines under suspicion lie before line last of the target.
  ghost predicate Below(ls: seq<Attr>, target: Origin, last: nat) {
    forall i :: 0 <= i < |ls| && !ls[i].guilty && ls[i].origin == target ==> ls[i].line < last
  }

  lemma {:induction false} EmitAllPasses(es: seq<Entry>, first: nat, count: nat, hs: seq<Hunk>, a: nat, b: nat,
                                         last: nat, target: Origin, parent: Origin)
    requires Tiles(es, first, count) && Fresh(es) && Below(Lines(es), target, last) && parent != target
    requires Ordered(hs, b)
    ensures var r := EmitAll(es, hs, a, b, last, target, parent);
      && Tiles(r, first, count) && Fresh(r) && |Lines(r)| == |Lines(es)|
      && forall i :: 0 <= i < |Lines(r)| ==> Lines(r)[i] == PassLine(Lines(es)[i], hs, a, b, target, parent)
    decreases |hs|
  {
    hide Tiles, Fresh, Lines, Chunk;
    if hs == [] {
      ChunkKeeps(es, first, count, Stretch(b, a, last, target, parent));
    } else {
      var h := hs[0];
      var st := Stretch(b, a, h.startB, target, parent);
      ChunkKeeps(es, first, count, st);
      EmitAllPasses(Chunk(es, st), first, count, hs[1..], h.startA + h.countA, h.startB + h.countB, last, target, parent);
    }
  }

  ghost predicate Ordered(hs: seq<Hunk>, b: nat) {
    hs != [] ==> b <= hs[0].startB && Ordered(hs[1..], hs[0].startB + hs[0].countB)
  }

  lemma {:induction false} AlignedIsOrdered(before: seq<string>, after: seq<string>, hs: seq<Hunk>, a: nat, b: nat)
    requires Aligned(before, after, hs, a, b)
    ensures Ordered(hs, b)
  {
    if hs != [] {
      AlignedIsOrdered(before, after, hs[1..], hs[0].startA + hs[0].countA, hs[0].startB + hs[0].countB);
    }
  }

  // A line that comes from the old file reads the same there.
  lemma {:induction false} SourceLineAgrees(before: seq<string>, after: seq<string>, hs: seq<Hunk>, a: nat, b: nat, s: nat)
    requires Aligned(before, after, hs, a, b) && s < |after| && SourceLine(hs, a, b, s).Some?
    ensures SourceLine(hs, a, b, s).value < |before| && before[SourceLine(hs, a, b, s).value] == after[s]
  {
    if hs == [] {
      assert after[s] == after[b..][s - b] && before[a..][s - b] == before[a + (s - b)];
    } else if s < hs[0].startB {
      assert after[s] == after[b..hs[0].startB][s - b] && before[a..hs[0].startA][s - b] == before[a + (s - b)];
    } else {
      SourceLineAgrees(before, after, hs[1..], hs[0].startA + hs[0].countA, hs[0].startB + hs[0].countB, s);
    }
  }

  ghost predicate InHunk(hs: seq<Hunk>, s: nat) {
    exists j :: 0 <= j < |hs| && hs[j].startB <= s < hs[j].startB + hs[j].countB
  }

  // The lines that do not come from the old file are those the hunks added.
  lemma {:induction false} NoSourceIsInHunk(hs: seq<Hunk>, a: nat, b: nat, s: nat)
    requires Ordered(hs, b) && b <= s
    ensures SourceLine(hs, a, b, s).None? <==> InHunk(hs, s)
  {
    if hs != [] {
      var h := hs[0];
      assert forall j :: 0 <= j < |hs[1..]| ==> hs[1..][j] == hs[j + 1];
      HunksFollow(hs[1..], h.startB + h.countB);
      if h.startB + h.countB <= s {
        NoSourceIsInHunk(hs[1..], h.startA + h.countA, h.startB + h.countB, s);
        if InHunk(hs, s) {
          var j :| 0 <= j < |hs| && hs[j].startB <= s < hs[j].startB + hs[j].countB;
          assert hs[1..][j - 1] == hs[j];
        }
        if InHunk(hs[1..], s) {
          var j :| 0 <= j < |hs[1..]| && hs[1..][j].startB <= s < hs[1..][j].startB + hs[1..][j].countB;
          assert hs[j + 1] == hs[1..][j];
        }
      } else if h.startB <= s {
        assert hs[0] == h;
      }
    }
  }

  lemma {:induction false} HunksFollow(hs: seq<Hunk>, b: nat)
    requires Ordered(hs, b)
    ensures forall j :: 0 <= j < |hs| ==> b <= hs[j].startB
  {
    if hs != [] {
      HunksFollow(hs[1..], hs[0].startB + hs[0].countB);
      forall j | 0 <= j < |hs|
        ensures b <= hs[j].startB
      {
        assert j > 0 ==> hs[j] == hs[1..][j - 1];
      }
    }
  }

  // ---- going over the list while it is being split

  lemma {:induction false} TilesOrder(es: seq<Entry>, lo: nat, hi: nat)
    requires TilesFrom(es, lo, hi)
    ensures forall i :: 0 <= i < |es| ==> lo <= es[i].lno && es[i].num > 0
    ensures forall i, j :: 0 <= i < j < |es| ==> es[i].lno + es[i].num <= es[j].lno
  {
    if es != [] {
      TilesOrder(es[1..], lo + es[0].num, hi);
      assert forall j :: 0 < j < |es| ==> es[j] == es[1..][j - 1];
    }
  }

  lemma {:induction false} TilesSplit(es: seq<Entry>, j: nat, lo: nat, hi: nat) returns (mid: nat)
    requires TilesFrom(es, lo, hi) && j <= |es|
    ensures TilesFrom(es[..j], lo, mid) && TilesFrom(es[j..], mid, hi)
  {
    if j == 0 {
      assert es[..j] == [] && es[j..] == es;
      mid := lo;
    } else {
      mid := TilesSplit(es[1..], j - 1, lo + es[0].num, hi);
      assert es[..j][1..] == es[1..][..j - 1] && es[1..][j - 1..] == es[j..];
    }
  }

  // The list when the first j entries have been dealt with.
  function Halfway(es: seq<Entry>, j: nat, st: Stretch): seq<Entry>
    requires j <= |es|
  {
    Chunk(es[..j], st) + es[j..]
  }

  lemma HalfwayTiles(es: seq<Entry>, j: nat, st: Stretch, first: nat, count: nat)
    requires Tiles(es, first, count) && Fresh(es) && j <= |es|
    ensures Tiles(Halfway(es, j, st), first, count)
  {
    var mid := TilesSplit(es, j, first, first + count);
    ChunkTilesFrom(es[..j], first, mid, st);
    TilesConcat(Chunk(es[..j], st), es[j..], first, mid, first + count);
  }

  lemma HalfwayStep(es: seq<Entry>, j: nat, st: Stretch)
    requires j < |es|
    ensures var d := |Chunk(es[..j], st)|;
      && Chunk(es[..j + 1], st) == Chunk(es[..j], st) + ChunkOne(es[j], st)
      && Halfway(es, j, st)[d] == es[j]
      && Halfway(es, j + 1, st) == Halfway(es, j, st)[..d] + ChunkOne(es[j], st) + Halfway(es, j, st)[d + 1..]
  {
    assert es[..j + 1] == es[..j] + [es[j]];
    ChunkConcat(es[..j], [es[j]], st);
    assert [es[j]][1..] == [];
    assert Chunk([es[j]], st) == ChunkOne(es[j], st);
    var d := |Chunk(es[..j], st)|;
    assert Halfway(es, j, st)[..d] == Chunk(es[..j], st);
    assert Halfway(es, j, st)[d + 1..] == es[j + 1..];
  }

  // The parts of a split entry that come after the first are left alone.
  lemma LaterPartsStay(e: Entry, st: Stretch)
    requires st.parent != st.target
    ensures var r := ChunkOne(e, st); r != [] && forall i :: 0 < i < |r| ==> !Overlaps(r[i], st)
  {
  }

  lemma NotSplit(e: Entry, st: Stretch)
    requires !Overlaps(e, st)
    ensures ChunkOne(e, st) == [e]
  {
  }

  // The state of the walk: j entries dealt with, their d parts in front, the walk at
  // position k; the parts from k on will be left alone.
  ghost predicate Progress(es: seq<Entry>, j: nat, d: nat, k: nat, view: seq<Entry>, st: Stretch) {
    && j <= |es| && d == |Chunk(es[..j], st)| && k <= d <= |view| && view == Halfway(es, j, st)
    && (forall i :: k <= i < d ==> !Overlaps(view[i], st))
    && st.parent != st.target
  }

  lemma ProgressStart(es: seq<Entry>, st: Stretch)
    requires st.parent != st.target
    ensures Progress(es, 0, 0, 0, es, st)
  {
    assert es[..0] == [];
  }

  lemma ProgressStep(es: seq<Entry>, j: nat, d: nat, k: nat, view: seq<Entry>, view': seq<Entry>, st: Stretch)
    requires Progress(es, j, d, k, view, st) && k < |view|
    requires view' == view[..k] + ChunkOne(view[k], st) + view[k + 1..]
    ensures if k < d then Progress(es, j, d, k + 1, view', st)
      else j < |es| && Progress(es, j + 1, d + |ChunkOne(es[j], st)|, k + 1, view', st) && ChunkOne(es[j], st) != []
  {
    hide Overlaps, ChunkOne, Chunk;
    if k < d {
      NotSplit(view[k], st);
      assert view' == view;
    } else {
      HalfwayStep(es, j, st);
      LaterPartsStay(es[j], st);
    }
  }

  lemma ProgressFits(es: seq<Entry>, j: nat, d: nat, k: nat, view: seq<Entry>, st: Stretch, first: nat, count: nat)
    requires Progress(es, j, d, k, view, st) && Tiles(es, first, count) && Fresh(es)
    ensures Tiles(view, first, count)
    ensures k < d && k < |view| ==> !Overlaps(view[k], st)
    ensures k == d && k < |view| ==> j < |es| && view[k] == es[j]
  {
    hide Overlaps, Chunk, Tiles, Fresh;
    HalfwayTiles(es, j, st, first, count);
    if j < |es| {
      HalfwayStep(es, j, st);
    }
  }

  lemma ProgressEnds(es: seq<Entry>, j: nat, d: nat, k: nat, view: seq<Entry>, st: Stretch)
    requires Progress(es, j, d, k, view, st) && k == |view|
    ensures view == Chunk(es, st)
  {
    hide Chunk;
    assert es[..|es|] == es;
  }

  lemma TilesInPlace(es: seq<Entry>, first: nat, count: nat, k: nat)
    requires Tiles(es, first, count) && k < |es|
    ensures forall i :: 0 <= i < k ==> es[i].lno < es[k].lno
    ensures k + 1 < |es| ==> es[k].lno < es[k].lno + es[k].num <= es[k + 1].lno
  {
    TilesOrder(es, first, first + count);
  }
}
