// git_blame_file: the rounds of git_blame__like_git over the scoreboard, and the hunks
// that blame_internal makes of what it leaves there.
module BlameFile {
  import opened Options
  import opened BlameModel
  import opened BlameRun
  import opened BlameTheory
  import opened BlameBoard

  class Blame {
    const board: Board
    // options.oldest_commit, which the source overwrites as it goes
    var oldest: Commit
    // how often find_origin has been called
    var calls: nat

    constructor (board: Board, oldest: Commit)
      ensures this.board == board && this.oldest == oldest && calls == 0
    {
      this.board, this.oldest, this.calls := board, oldest, 0;
    }

    ghost function Now(): State
      reads this, board, board.repr
      requires board.Linked()
    {
      State(Lines(board.View()), oldest, calls)
    }

    // The first half of pass_blame: the origins in the parents, up to one that is the
    // same file; of several with one content the first is kept.
    method GatherOrigins(h: History, x: Origin, ps: seq<Commit>) returns (plan: Plan)
      modifies this`calls
      ensures (plan, calls) == Gather(h, x, ps, old(calls), [])
    {
      var kept := [];
      var i := 0;
      while i < |ps|
        invariant i <= |ps| && Gather(h, x, ps, old(calls), []) == Gather(h, x, ps[i..], calls, kept)
      {
        var porigin := h.find(calls, ps[i], x);
        assert ps[i..][0] == ps[i] && ps[i..][1..] == ps[i + 1..];
        calls := calls + 1;
        if porigin.Some? {
          if h.file(porigin.value) == h.file(x) {
            return Whole(porigin.value);
          }
          var same, j := false, 0;
          while j < |kept| && !same
            invariant j <= |kept|
            invariant same <==> exists l :: 0 <= l < j && h.file(kept[l]) == h.file(porigin.value)
          {
            same := h.file(kept[j]) == h.file(porigin.value);
            j := j + 1;
          }
          if !same {
            kept := kept + [porigin.value];
          }
        }
        i := i + 1;
      }
      return Each(kept);
    }

    // The second half: blame goes to one origin after the other.
    method PassToEach(h: History, x: Origin, os: seq<Origin>, ghost first: nat, ghost count: nat) returns (ok: bool)
      requires h.Valid() && board.Sorted(first, count) && forall j :: 0 <= j < |os| ==> os[j] != x
      modifies board, board.repr
      ensures board.Sorted(first, count) && fresh(board.repr - old(board.repr))
      ensures var r := PassEach(h, old(Lines(board.View())), x, os);
        ok == r.Some? && (ok ==> Lines(board.View()) == r.value)
    {
      hide Tiles, Fresh, Lines, AnyOpen;
      ghost var ls := Lines(board.View());
      var i := 0;
      assert os[0..] == os;
      while i < |os|
        invariant i <= |os| && board.Sorted(first, count) && fresh(board.repr - old(board.repr))
        invariant PassEach(h, ls, x, os) == PassEach(h, Lines(board.View()), x, os[i..])
      {
        assert os[i..][0] == os[i] && os[i..][1..] == os[i + 1..];
        var r := board.PassBlameToParent(h, x, os[i], first, count);
        if r != 0 {
          return r > 0;
        }
        i := i + 1;
      }
      return true;
    }

    // pass_blame
    method PassBlame(h: History, x: Origin, ghost first: nat, ghost count: nat) returns (ok: bool)
      requires h.Valid() && board.Sorted(first, count)
      modifies this, board, board.repr
      ensures board.Sorted(first, count) && fresh(board.repr - old(board.repr))
      ensures var r := BlameRun.PassBlame(h, old(Now()), x);
        ok == r.Some? && (ok ==> Now() == r.value)
    {
      hide Tiles, Fresh, Lines, PassEach, Gather;
      var ps := h.parents(x.commit);
      if x.commit == oldest {
        ps := [];
      } else if h.firstParent && |ps| > 1 {
        ps := ps[..1];
      }
      if ps == [] {
        oldest := x.commit;
        return true;
      }
      GatherFinds(h, x, ps, calls, []);
      var plan := GatherOrigins(h, x, ps);
      match plan {
        case Whole(p) =>
          board.HandOver(x, p, first, count);
          ok := true;
        case Each(os) =>
          assert forall j :: 0 <= j < |os| ==> Earlier(h, os[j], x);
          ok := PassToEach(h, x, os, first, count);
      }
    }

    // git_blame__like_git
    method LikeGit(h: History, ghost first: nat, ghost count: nat) returns (ok: bool)
      requires h.Valid() && board.Sorted(first, count)
      modifies this, board, board.repr
      ensures board.Sorted(first, count) && fresh(board.repr - old(board.repr))
      ensures var r := RunAll(h, old(Now()));
        ok == r.Some? && (ok ==> Now() == r.value)
    {
      hide Tiles, Fresh, Lines, BlameRun.PassBlame, Convict;
      while true
        invariant board.Sorted(first, count) && fresh(board.repr - old(board.repr))
        invariant RunAll(h, old(Now())) == RunAll(h, Now())
        decreases Measure(h, Lines(board.View()))
      {
        ghost var s := Now();
        var suspect := board.FindSuspect(first, count);
        if suspect.None? {
          return true;
        }
        RoundDescends(h, s, suspect.value);
        var passed := PassBlame(h, suspect.value, first, count);
        if !passed {
          return false;
        }
        board.TakeResponsibility(suspect.value, suspect.value.commit == oldest, first, count);
      }
    }
  }

  // git_blame_hunk: lines and positions count from 1.
  datatype FileHunk = FileHunk(finalStart: nat, lines: nat, origStart: nat, commit: Commit, path: string, boundary: bool)

  // hunk_from_entry
  function HunkOf(e: Entry): FileHunk {
    FileHunk(e.lno + 1, e.num, e.sLno + 1, e.suspect.commit, e.suspect.path, e.boundary)
  }

  function HunksOf(es: seq<Entry>): seq<FileHunk> {
    if es == [] then [] else [HunkOf(es[0])] + HunksOf(es[1..])
  }

  // The hunks follow each other from line number first on without gaps, and say of each
  // line what ls says of it.
  ghost predicate Report(hunks: seq<FileHunk>, first: nat, ls: seq<Attr>) {
    if hunks == [] then ls == []
    else
      var h := hunks[0];
      && h.finalStart == first && 0 < h.lines <= |ls|
      && (forall t :: 0 <= t < h.lines ==> Says(h, t, ls[t]))
      && Report(hunks[1..], first + h.lines, ls[h.lines..])
  }

  predicate Says(h: FileHunk, t: nat, a: Attr) {
    a.origin == Origin(h.commit, h.path) && a.line + 1 == h.origStart + t && a.boundary == h.boundary
  }

  lemma {:induction false} HunksReport(es: seq<Entry>, lo: nat, hi: nat)
    requires TilesFrom(es, lo, hi)
    ensures Report(HunksOf(es), lo + 1, Lines(es)) && |Lines(es)| == hi - lo
  {
    if es != [] {
      HunksReport(es[1..], lo + es[0].num, hi);
      assert Lines(es)[es[0].num..] == Lines(es[1..]);
    }
  }

  // A line is in one of the hunks, which has only one of them.
  ghost predicate Covers(hunks: seq<FileHunk>, n: nat) {
    exists i :: 0 <= i < |hunks| && StandsIn(hunks[i], n)
  }

  predicate StandsIn(h: FileHunk, n: nat) {
    h.finalStart <= n < h.finalStart + h.lines
  }

  ghost predicate Apart(hunks: seq<FileHunk>) {
    forall i, j, n: nat :: 0 <= i < |hunks| && 0 <= j < |hunks| && StandsIn(hunks[i], n) && StandsIn(hunks[j], n) ==> i == j
  }

  lemma {:induction false} ReportCovers(hunks: seq<FileHunk>, first: nat, ls: seq<Attr>)
    requires Report(hunks, first, ls)
    ensures forall n: nat :: Covers(hunks, n) <==> first <= n < first + |ls|
    ensures Apart(hunks)
  {
    if hunks != [] {
      var h := hunks[0];
      ReportCovers(hunks[1..], first + h.lines, ls[h.lines..]);
      forall n: nat
        ensures Covers(hunks, n) <==> StandsIn(h, n) || Covers(hunks[1..], n)
      {
        CoversRest(hunks, n);
      }
      forall i, j, n: nat | 0 <= i < |hunks| && 0 <= j < |hunks| && StandsIn(hunks[i], n) && StandsIn(hunks[j], n)
        ensures i == j
      {
        assert i > 0 ==> hunks[i] == hunks[1..][i - 1] && Covers(hunks[1..], n);
        assert j > 0 ==> hunks[j] == hunks[1..][j - 1] && Covers(hunks[1..], n);
      }
    }
  }

  lemma CoversRest(hunks: seq<FileHunk>, n: nat)
    requires hunks != []
    ensures Covers(hunks, n) <==> StandsIn(hunks[0], n) || Covers(hunks[1..], n)
  {
    if Covers(hunks, n) && !StandsIn(hunks[0], n) {
      var i :| 0 <= i < |hunks| && StandsIn(hunks[i], n);
      assert StandsIn(hunks[1..][i - 1], n);
    }
    if Covers(hunks[1..], n) {
      var i :| 0 <= i < |hunks[1..]| && StandsIn(hunks[1..][i], n);
      assert StandsIn(hunks[i + 1], n);
    }
  }

  // The number of lines asked for; a last line of 0 stands for the last of the file.
  function Requested(total: nat, minLine: nat, maxLine: nat): int {
    if maxLine > 0 then maxLine - minLine + 1 else total - minLine + 1
  }

  // The loop at the end of blame_internal.
  method DrainHunks(board: Board) returns (hunks: seq<FileHunk>)
    requires board.Linked()
    ensures hunks == HunksOf(board.View())
  {
    hide Board.Linked;
    ghost var es := board.View();
    hunks := [];
    var ent := board.First();
    ghost var k := 0;
    assert es[0..] == es;
    while ent != null
      invariant k <= |board.nodes| && ent == if k < |board.nodes| then board.nodes[k] else null
      invariant hunks + HunksOf(es[k..]) == HunksOf(es)
      decreases |board.nodes| - k
    {
      assert es[k..][0] == ent.Val() && es[k..][1..] == es[k + 1..];
      hunks := hunks + [HunkOf(ent.Val())];
      ent := board.Next(ent, k);
      k := k + 1;
    }
  }

  // The scoreboard at the start: all lines that were asked for, in one entry.
  method OneEntry(e: Entry) returns (board: Board)
    requires e.num > 0 && !e.guilty && !e.boundary && e.lno == e.sLno
    ensures fresh(board) && fresh(board.repr) && board.Sorted(e.lno, e.num)
    ensures Lines(board.View()) == Suspected(e.suspect, e.lno, e.num)
  {
    var n := new Node(e);
    board := new Board(n);
    assert Tiles([e], e.lno, e.num) by {
      assert [e][1..] == [];
    }
    assert board.View() == [e];
  }

  // blame_internal for the file final as it is in its commit.
  method BlameInternal(h: History, final: Origin, minLine: nat, maxLine: nat, limit: Commit)
    returns (ok: bool, hunks: seq<FileHunk>)
    requires h.Valid() && 0 < minLine <= if maxLine > 0 then maxLine else |h.file(final)|
    ensures ok ==> Apart(hunks) && forall n: nat ::
      Covers(hunks, n) <==> minLine <= n <= if maxLine > 0 then maxLine else |h.file(final)|
    ensures var r := RunAll(h, State(Suspected(final, minLine - 1, Requested(|h.file(final)|, minLine, maxLine)), limit, 0));
      ok == r.Some? && (ok ==> Report(hunks, minLine, r.value.lines))
  {
    hide TilesFrom, Fresh, Report, RunAll, Board.Linked, Lines, HunksOf, Suspected, Covers, Apart;
    var count := Requested(|h.file(final)|, minLine, maxLine);
    var board := OneEntry(Entry(minLine - 1, count, final, false, minLine - 1, false));
    var blame := new Blame(board, limit);
    ok := blame.LikeGit(h, minLine - 1, count);
    hunks := DrainHunks(board);
    HunksReport(board.View(), minLine - 1, minLine - 1 + count);
    ReportCovers(hunks, minLine, Lines(board.View()));
  }

  // What a caller of git_blame_file can rely on, whatever the repository answers: every
  // line of every hunk reads like the line of the final file that it stands for. (Lines
  // beyond the end of the file can be asked for; nothing is said of them.)
  lemma {:induction false} ReportIsTrue(h: History, hunks: seq<FileHunk>, first: nat, ls: seq<Attr>, final: Origin)
    requires Report(hunks, first, ls) && first > 0 && Sound(h, ls, final, first - 1)
    ensures forall i, t :: 0 <= i < |hunks| && 0 <= t < hunks[i].lines ==> ReadsAlike(h, hunks[i], t, final)
  {
    if hunks != [] {
      var g := hunks[0];
      forall i | 0 <= i < |ls[g.lines..]|
        ensures SoundLine(h, ls[g.lines..][i], final, first + g.lines - 1 + i)
      {
        assert SoundLine(h, ls[g.lines + i], final, first - 1 + (g.lines + i));
      }
      ReportIsTrue(h, hunks[1..], first + g.lines, ls[g.lines..], final);
      forall i, t | 0 <= i < |hunks| && 0 <= t < hunks[i].lines
        ensures ReadsAlike(h, hunks[i], t, final)
      {
        if i == 0 {
          assert Says(g, t, ls[t]) && SoundLine(h, ls[t], final, first - 1 + t);
        } else {
          assert hunks[i] == hunks[1..][i - 1];
        }
      }
    }
  }

  ghost predicate ReadsAlike(h: History, g: FileHunk, t: nat, final: Origin) {
    var file := h.file(Origin(g.commit, g.path));
    && 0 < g.finalStart + t
    && (g.finalStart + t <= |h.file(final)| ==>
          0 < g.origStart + t <= |file| && file[g.origStart + t - 1] == h.file(final)[g.finalStart + t - 1])
  }

  lemma BlameReadsAlike(h: History, final: Origin, minLine: nat, maxLine: nat, limit: Commit, hunks: seq<FileHunk>)
    requires h.Valid() && 0 < minLine <= if maxLine > 0 then maxLine else |h.file(final)|
    requires var r := RunAll(h, State(Suspected(final, minLine - 1, Requested(|h.file(final)|, minLine, maxLine)), limit, 0));
      r.Some? && Report(hunks, minLine, r.value.lines)
    ensures forall i, t :: 0 <= i < |hunks| && 0 <= t < hunks[i].lines ==> ReadsAlike(h, hunks[i], t, final)
  {
    hide RunAll, Report;
    var count := Requested(|h.file(final)|, minLine, maxLine);
    var s := State(Suspected(final, minLine - 1, count), limit, 0);
    assert Sound(h, s.lines, final, minLine - 1);
    RunSound(h, s, final, minLine - 1);
    ReportIsTrue(h, hunks, minLine, RunAll(h, s).value.lines, final);
  }
}
