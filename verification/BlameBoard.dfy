// The scoreboard of libgit2/src/blame_git.c as it is: a doubly linked list of entries
// that are split, relinked and marked in place.
module BlameBoard {
  import opened Options
  import opened BlameModel
  import opened BlameRun

  class Node {
    var prev: Node?
    var next: Node?
    var lno: nat
    var num: nat
    var suspect: Origin
    var guilty: bool
    var sLno: nat
    var boundary: bool

    function Val(): Entry
      reads this
    {
      Entry(lno, num, suspect, guilty, sLno, boundary)
    }

    constructor (e: Entry)
      ensures Val() == e && prev == null && next == null
    {
      lno, num, suspect := e.lno, e.num, e.suspect;
      guilty, sLno, boundary := e.guilty, e.sLno, e.boundary;
      prev, next := null, null;
    }

    // memcpy of an entry, keeping the links
    method Put(e: Entry)
      modifies this
      ensures Val() == e && prev == old(prev) && next == old(next)
    {
      lno, num, suspect := e.lno, e.num, e.suspect;
      guilty, sLno, boundary := e.guilty, e.sLno, e.boundary;
    }
  }

  class Board {
    var ent: Node?
    ghost var nodes: seq<Node>
    ghost var repr: set<Node>

    ghost predicate Linked()
      reads this, repr
    {
      && (forall i :: 0 <= i < |nodes| ==> nodes[i] in repr)
      && (forall i, j :: 0 <= i < j < |nodes| ==> nodes[i] != nodes[j])
      && ent == (if nodes == [] then null else nodes[0])
      && (forall i {:trigger nodes[i].next} :: 0 <= i < |nodes| ==> nodes[i].next == if i + 1 < |nodes| then nodes[i + 1] else null)
      && (forall i {:trigger nodes[i].prev} :: 0 <= i < |nodes| ==> nodes[i].prev == if i > 0 then nodes[i - 1] else null)
    }

    ghost function View(): (es: seq<Entry>)
      reads this, repr
      requires Linked()
      ensures |es| == |nodes| && forall i :: 0 <= i < |nodes| ==> es[i] == nodes[i].Val()
    {
      seq(|nodes|, i requires 0 <= i < |nodes| && Linked() reads this, repr => nodes[i].Val())
    }

    // One entry, for all the lines asked for.
    constructor (n: Node)
      requires n.prev == null && n.next == null
      ensures Linked() && View() == [n.Val()] && fresh(repr - {n})
    {
      ent, nodes, repr := n, [n], {n};
    }

    // The place of a line number: the last entry below it.
    method FindPlace(lno: nat, ghost k: nat) returns (prev: Node?)
      requires Linked() && k <= |nodes|
      requires forall i :: 0 <= i < k ==> nodes[i].lno < lno
      requires k < |nodes| ==> lno <= nodes[k].lno
      ensures prev == if k > 0 then nodes[k - 1] else null
    {
      prev := null;
      var cur := ent;
      ghost var i := 0;
      while cur != null && cur.lno < lno
        invariant i <= k && cur == (if i < |nodes| then nodes[i] else null) && prev == (if i > 0 then nodes[i - 1] else null)
        decreases |nodes| - i
      {
        prev, cur := cur, cur.next;
        i := i + 1;
      }
    }

    // Links n in after prev, or in front.
    method Link(n: Node, prev: Node?, ghost k: nat)
      requires Linked() && n !in repr && k <= |nodes| && prev == if k > 0 then nodes[k - 1] else null
      modifies this, repr, n
      ensures Linked() && nodes == old(nodes)[..k] + [n] + old(nodes)[k..] && repr == old(repr) + {n}
      ensures n.Val() == old(n.Val()) && forall i :: 0 <= i < |old(nodes)| ==> old(nodes)[i].Val() == old(nodes[i].Val())
    {
      ghost var after: Node? := if k < |nodes| then nodes[k] else null;
      assert (if prev != null then prev.next else ent) == after;
      n.prev := prev;
      if prev != null {
        n.next := prev.next;
        prev.next := n;
      } else {
        n.next := ent;
        ent := n;
      }
      assert n.next == after;
      if n.next != null {
        n.next.prev := n;
      }
      ghost var list := nodes;
      nodes := list[..k] + [n] + list[k..];
      repr := repr + {n};
      InsertedAt(list, k, n);
      forall i | 0 <= i < |nodes|
        ensures nodes[i].next == (if i + 1 < |nodes| then nodes[i + 1] else null)
        ensures nodes[i].prev == (if i > 0 then nodes[i - 1] else null)
      {
        if i < k {
          assert nodes[i] == list[i];
        } else if i > k {
          assert nodes[i] == list[i - 1];
        }
      }
    }

    // add_blame_entry
    method AddEntry(n: Node, ghost k: nat)
      requires Linked() && n !in repr && k <= |nodes|
      requires forall i :: 0 <= i < k ==> View()[i].lno < n.lno
      requires k < |nodes| ==> n.lno <= View()[k].lno
      modifies this, repr, n
      ensures Linked() && nodes == old(nodes)[..k] + [n] + old(nodes)[k..] && repr == old(repr) + {n}
      ensures View() == old(View())[..k] + [old(n.Val())] + old(View())[k..]
    {
      assert forall i :: 0 <= i < |nodes| ==> View()[i].lno == nodes[i].lno;
      var prev := FindPlace(n.lno, k);
      Link(n, prev, k);
    }

    // dup_entry: the entry at k takes on other contents, keeping its place in the list.
    method Replace(e: Node, v: Entry, ghost k: nat)
      requires Linked() && k < |nodes| && nodes[k] == e && InPlace(k)
      requires v.lno == View()[k].lno
      modifies repr
      ensures Linked() && nodes == old(nodes) && repr == old(repr) && View() == old(View())[k := v] && InPlace(k)
    {
      e.Put(v);
    }

    // Where the entry at k stands among the others.
    ghost predicate InPlace(k: nat)
      reads this, repr
      requires Linked() && k < |nodes|
    {
      && (forall i :: 0 <= i < k ==> View()[i].lno < View()[k].lno)
      && (k + 1 < |nodes| ==> View()[k].lno < View()[k + 1].lno)
    }

    // A new entry after the one at k.
    method AddAfter(v: Entry, ghost k: nat)
      requires Linked() && k < |nodes| && InPlace(k)
      requires View()[k].lno < v.lno && (k + 1 < |nodes| ==> v.lno < View()[k + 1].lno)
      modifies this, repr
      ensures Linked() && Grown(old(nodes), nodes, k) && InPlace(k)
      ensures fresh(repr - old(repr))
      ensures View() == old(View())[..k + 1] + [v] + old(View())[k + 1..]
    {
      hide Linked;
      var n := new Node(v);
      AddEntry(n, k + 1);
    }

    // split_blame: the parts take the place of the entry, which keeps the first of them.
    method SplitBlame(e: Node, pre: Option<Entry>, mid: Entry, post: Option<Entry>, ghost k: nat)
      requires Linked() && k < |nodes| && nodes[k] == e && InPlace(k)
      requires Consecutive(View()[k], pre, mid, post)
      requires k + 1 < |nodes| ==> View()[k].lno + View()[k].num <= View()[k + 1].lno
      modifies this, repr
      ensures Linked() && View() == old(View())[..k] + (Opt(pre) + ([mid] + Opt(post))) + old(View())[k + 1..]
      ensures Grown(old(nodes), nodes, k)
      ensures fresh(repr - old(repr))
    {
      hide Linked, Grown;
      ghost var view, list := View(), nodes;
      GrownNot(nodes, k);
      if pre.Some? && post.Some? {
        Replace(e, pre.value, k);
        AddAfter(post.value, k);
        ghost var more := nodes;
        AddAfter(mid, k);
        GrownTwice(list, more, nodes, k);
        ThreeFor(view, k, pre.value, mid, post.value);
      } else if pre.None? && post.None? {
        Replace(e, mid, k);
        OneFor(view, k, mid);
      } else if pre.Some? {
        Replace(e, pre.value, k);
        AddAfter(mid, k);
        TwoFor(view, k, pre.value, mid);
      } else {
        Replace(e, mid, k);
        AddAfter(post.value, k);
        TwoFor(view, k, mid, post.value);
      }
    }

    // blame_overlap
    method BlameOverlap(e: Node, st: Stretch, ghost k: nat)
      requires Linked() && k < |nodes| && nodes[k] == e && InPlace(k)
      requires Overlaps(View()[k], st) && (st.tlno <= st.same || e.sLno + e.num <= st.same)
      requires k + 1 < |nodes| ==> View()[k].lno + View()[k].num <= View()[k + 1].lno
      modifies this, repr
      ensures Linked() && View() == old(View())[..k] + SplitEntry(old(View())[k], st) + old(View())[k + 1..]
      ensures Grown(old(nodes), nodes, k)
      ensures fresh(repr - old(repr))
    {
      ghost var v, view := View()[k], View();
      var pre, mid, post := SplitOverlap(e.Val(), st);
      if mid.Some? {
        SplitBlame(e, pre, mid.value, post, k);
      } else {
        assert view[..k] + [v] + view[k + 1..] == view;
      }
    }

    // The body of the loop of blame_chunk.
    method Visit(e: Node, st: Stretch, ghost k: nat)
      requires Linked() && k < |nodes| && nodes[k] == e && InPlace(k)
      requires k + 1 < |nodes| ==> View()[k].lno + View()[k].num <= View()[k + 1].lno
      requires Overlaps(View()[k], st) ==> st.tlno <= st.same || View()[k].sLno + View()[k].num <= st.same
      modifies this, repr
      ensures Linked() && fresh(repr - old(repr)) && k < |nodes| && nodes[k] == e
      ensures View() == old(View())[..k] + ChunkOne(old(View())[k], st) + old(View())[k + 1..]
    {
      hide Linked, SplitEntry;
      assert View()[k] == e.Val();
      if !(e.guilty || e.suspect != st.target) && !(st.same <= e.sLno) && st.tlno < e.sLno + e.num {
        BlameOverlap(e, st, k);
      } else {
        assert View() == View()[..k] + [View()[k]] + View()[k + 1..];
      }
    }

    method First() returns (e: Node?)
      requires Linked()
      ensures e == if |nodes| > 0 then nodes[0] else null
    {
      e := ent;
    }

    method Next(e: Node, ghost k: nat) returns (next: Node?)
      requires Linked() && k < |nodes| && nodes[k] == e
      ensures next == if k + 1 < |nodes| then nodes[k + 1] else null
    {
      next := e.next;
    }

    // blame_chunk: goes over the list from the front; what a split puts in is met again
    // on the way and left alone.
    method BlameChunk(st: Stretch, ghost first: nat, ghost count: nat)
      requires Linked() && Tiles(View(), first, count) && Fresh(View()) && st.parent != st.target
      requires st.tlno <= st.same || forall i :: 0 <= i < |View()| && Overlaps(View()[i], st) ==> View()[i].sLno + View()[i].num <= st.same
      modifies this, repr
      ensures Linked() && fresh(repr - old(repr)) && View() == Chunk(old(View()), st)
    {
      hide Linked, Chunk, Tiles, Fresh, Overlaps, ChunkOne, Progress;
      ghost var es := View();
      ghost var j: nat, k: nat, d: nat := 0, 0, 0;
      ProgressStart(es, st);
      var e := First();
      while e != null
        invariant Linked() && fresh(repr - old(repr)) && Progress(es, j, d, k, View(), st)
        invariant j <= |es| && k <= d && k <= |nodes| && e == if k < |nodes| then nodes[k] else null
        decreases |es| - j, d - k
      {
        ProgressFits(es, j, d, k, View(), st, first, count);
        TilesInPlace(View(), first, count, k);
        ghost var v := View();
        Visit(e, st, k);
        e := Next(e, k);
        ProgressStep(es, j, d, k, v, View(), st);
        if k < d {
          k := k + 1;
        } else {
          j, d, k := j + 1, d + |ChunkOne(es[j], st)|, k + 1;
        }
      }
      ProgressEnds(es, j, d, k, View(), st);
    }

    // What holds between the calls: a list that tiles the lines asked for.
    ghost predicate Sorted(first: nat, count: nat)
      reads this, repr
    {
      Linked() && Tiles(View(), first, count) && Fresh(View())
    }

    // find_last_in_target
    method FindLast(x: Origin, ghost first: nat, ghost count: nat) returns (found: bool, last: nat)
      requires Sorted(first, count)
      ensures found == AnyOpen(Lines(View()), x) && Below(Lines(View()), x, last)
    {
      hide Linked, Lines, Tiles, Fresh, Below, AnyOpen;
      hide LastUpTo;
      found, last := false, 0;
      var e := First();
      ghost var k := 0;
      NoneEmpty(View(), first, count);
      LastStart(View(), x);
      while e != null
        invariant k <= |nodes| && (e == if k < |nodes| then nodes[k] else null) && LastUpTo(View(), x, k, found, last)
        decreases |nodes| - k
      {
        assert View()[k] == e.Val();
        LastStep(View(), x, k, found, last);
        if !(e.guilty || e.suspect != x) {
          if last < e.sLno + e.num {
            found, last := true, e.sLno + e.num;
          }
        }
        e := Next(e, k);
        k := k + 1;
      }
      LastEnd(View(), x, found, last);
      OpenLines(View(), first, count, x, last);
    }

    // pass_blame_to_parent: 1 if nothing is left to pass on, -1 if the diff fails.
    method PassBlameToParent(h: History, x: Origin, p: Origin, ghost first: nat, ghost count: nat) returns (r: int)
      requires h.Valid() && Sorted(first, count) && p != x
      modifies this, repr
      ensures Sorted(first, count) && fresh(repr - old(repr)) && r in {-1, 0, 1}
      ensures r == 1 <==> !AnyOpen(old(Lines(View())), x)
      ensures r == -1 <==> AnyOpen(old(Lines(View())), x) && h.diff(p, x) == None
      ensures r != 0 ==> Lines(View()) == old(Lines(View()))
      ensures r == 0 ==> Lines(View()) == MapAll(old(Lines(View())), a => PassLine(a, h.diff(p, x).value, 0, 0, x, p))
    {
      hide Linked, Lines, Tiles, Fresh, Below, AnyOpen, Chunk, PassLine;
      var found, last := FindLast(x, first, count);
      if !found {
        return 1;
      }
      var diff := h.diff(p, x);
      if diff.None? {
        return -1;
      }
      ghost var es := View();
      var hs := diff.value;
      AlignedIsOrdered(h.file(p), h.file(x), hs, 0, 0);
      EmitAllPasses(es, first, count, hs, 0, 0, last, x, p);
      var tlno: nat, plno: nat, i := 0, 0, 0;
      assert hs[0..] == hs;
      while i < |hs|
        invariant i <= |hs| && Sorted(first, count) && fresh(repr - old(repr)) && Ordered(hs[i..], tlno)
        invariant Below(Lines(View()), x, last)
        invariant EmitAll(es, hs, 0, 0, last, x, p) == EmitAll(View(), hs[i..], plno, tlno, last, x, p)
      {
        var st := Stretch(tlno, plno, hs[i].startB, x, p);
        ChunkKeeps(View(), first, count, st);
        BelowStays(Lines(View()), st, last);
        BlameChunk(st, first, count);
        assert hs[i..][0] == hs[i] && hs[i..][1..] == hs[i + 1..];
        plno, tlno := hs[i].startA + hs[i].countA, hs[i].startB + hs[i].countB;
        i := i + 1;
      }
      var st := Stretch(tlno, plno, last, x, p);
      ChunkKeeps(View(), first, count, st);
      OpenLines(View(), first, count, x, last);
      BlameChunk(st, first, count);
      return 0;
    }

    // The entry at k takes on other contents.
    method Suspect(e: Node, p: Origin, ghost k: nat)
      requires Linked() && k < |nodes| && nodes[k] == e
      modifies repr
      ensures Linked() && nodes == old(nodes) && repr == old(repr) && ent == old(ent)
      ensures View() == old(View())[k := old(View())[k].(suspect := p)]
    {
      e.suspect := p;
    }

    method Mark(e: Node, boundary: bool, ghost k: nat)
      requires Linked() && k < |nodes| && nodes[k] == e
      modifies repr
      ensures Linked() && nodes == old(nodes) && repr == old(repr) && ent == old(ent)
      ensures View() == old(View())[k := old(View())[k].(guilty := true, boundary := boundary)]
    {
      e.guilty := true;
      e.boundary := boundary;
    }

    // pass_whole_blame: every entry of x, decided or not, is handed to p.
    method HandOver(x: Origin, p: Origin, ghost first: nat, ghost count: nat)
      requires Sorted(first, count)
      modifies repr
      ensures Sorted(first, count) && repr == old(repr)
      ensures Lines(View()) == MapAll(old(Lines(View())), a => WholeLine(a, x, p))
    {
      hide Linked, Lines, Tiles, Fresh, Mapped;
      ghost var es, f := View(), e => WholeEntry(e, x, p);
      WholeKeeps(es, first, count, x, p);
      MappedStart(es, f);
      var e := First();
      ghost var k := 0;
      while e != null
        invariant Linked() && repr == old(repr) && k <= |nodes| && e == if k < |nodes| then nodes[k] else null
        invariant Mapped(es, View(), f, k)
        decreases |nodes| - k
      {
        MappedStep(es, View(), f, k);
        assert View()[k] == e.Val();
        if e.suspect == x {
          Suspect(e, p, k);
        }
        e := Next(e, k);
        k := k + 1;
      }
      MappedEnd(es, View(), f);
    }

    // The end of a round of git_blame__like_git: what is still x's is x's fault.
    method TakeResponsibility(x: Origin, boundary: bool, ghost first: nat, ghost count: nat)
      requires Sorted(first, count)
      modifies repr
      ensures Sorted(first, count) && repr == old(repr)
      ensures Lines(View()) == MapAll(old(Lines(View())), a => Convict(a, x, boundary))
    {
      hide Linked, Lines, Tiles, Fresh, Mapped;
      ghost var es, f := View(), e => ConvictEntry(e, x, boundary);
      ConvictKeeps(es, first, count, x, boundary);
      MappedStart(es, f);
      var e := First();
      ghost var k := 0;
      while e != null
        invariant Linked() && repr == old(repr) && k <= |nodes| && e == if k < |nodes| then nodes[k] else null
        invariant Mapped(es, View(), f, k)
        decreases |nodes| - k
      {
        MappedStep(es, View(), f, k);
        assert View()[k] == e.Val();
        if e.suspect == x {
          Mark(e, boundary, k);
        }
        e := Next(e, k);
        k := k + 1;
      }
      MappedEnd(es, View(), f);
    }

    // The suspect of the first undecided entry.
    method FindSuspect(ghost first: nat, ghost count: nat) returns (r: Option<Origin>)
      requires Sorted(first, count)
      ensures r == FirstOpen(Lines(View()))
    {
      hide Linked, Lines, Fresh, FirstOpen;
      var e := First();
      ghost var k := 0;
      while e != null
        invariant k <= |nodes| && e == if k < |nodes| then nodes[k] else null
        invariant forall i :: 0 <= i < k ==> View()[i].guilty
        decreases |nodes| - k
      {
        FirstOpenEntry(View(), first, first + count, k);
        assert View()[k] == e.Val();
        if !e.guilty {
          return Some(e.suspect);
        }
        e := Next(e, k);
        k := k + 1;
      }
      FirstOpenEntry(View(), first, first + count, k);
      return None;
    }
  }

  lemma InsertedAt(list: seq<Node>, k: nat, n: Node)
    requires k <= |list|
    ensures var r := list[..k] + [n] + list[k..];
      |r| == |list| + 1 && forall i :: 0 <= i < |r| ==> r[i] == if i < k then list[i] else if i == k then n else list[i - 1]
  {
  }

  // What find_last_in_target knows of the first k entries.
  ghost predicate LastUpTo(es: seq<Entry>, x: Origin, k: nat, found: bool, last: nat) {
    && k <= |es| && (last > 0 ==> found)
    && (found <==> exists i :: 0 <= i < k && OpenEntry(es[i], x))
    && (forall i :: 0 <= i < k && OpenEntry(es[i], x) ==> es[i].sLno + es[i].num <= last)
  }

  lemma LastStart(es: seq<Entry>, x: Origin)
    ensures LastUpTo(es, x, 0, false, 0)
  {
  }

  lemma LastStep(es: seq<Entry>, x: Origin, k: nat, found: bool, last: nat)
    requires LastUpTo(es, x, k, found, last) && k < |es| && es[k].num > 0
    ensures var next := es[k].sLno + es[k].num;
      if OpenEntry(es[k], x) && last < next then LastUpTo(es, x, k + 1, true, next) else LastUpTo(es, x, k + 1, found, last)
  {
    if exists i :: 0 <= i < k && OpenEntry(es[i], x) {
      var i :| 0 <= i < k && OpenEntry(es[i], x);
      assert i < k + 1;
    }
  }

  lemma LastEnd(es: seq<Entry>, x: Origin, found: bool, last: nat)
    requires LastUpTo(es, x, |es|, found, last)
    ensures found <==> exists i :: 0 <= i < |es| && OpenEntry(es[i], x)
    ensures forall i :: 0 <= i < |es| && OpenEntry(es[i], x) ==> es[i].sLno + es[i].num <= last
  {
  }

  // The first k entries have been changed by f.
  ghost predicate Mapped(es: seq<Entry>, view: seq<Entry>, f: Entry -> Entry, k: nat) {
    |view| == |es| && forall i :: 0 <= i < |es| ==> view[i] == if i < k then f(es[i]) else es[i]
  }

  lemma MappedStart(es: seq<Entry>, f: Entry -> Entry)
    ensures Mapped(es, es, f, 0)
  {
  }

  lemma MappedStep(es: seq<Entry>, view: seq<Entry>, f: Entry -> Entry, k: nat)
    requires Mapped(es, view, f, k) && k < |view|
    ensures k < |es| && view[k] == es[k] && Mapped(es, view[k := f(es[k])], f, k + 1)
    ensures f(es[k]) == es[k] ==> Mapped(es, view, f, k + 1)
  {
  }

  lemma MappedEnd(es: seq<Entry>, view: seq<Entry>, f: Entry -> Entry)
    requires Mapped(es, view, f, |view|)
    ensures view == MapAll(es, f)
  {
  }

  ghost function Opt(o: Option<Entry>): seq<Entry> {
    if o.Some? then [o.value] else []
  }

  // The parts follow each other from the line number of the entry on, and end with it.
  ghost predicate Consecutive(e: Entry, pre: Option<Entry>, mid: Entry, post: Option<Entry>) {
    && (if pre.Some? then pre.value.lno == e.lno && e.lno < mid.lno else mid.lno == e.lno)
    && (if post.Some? then mid.lno < post.value.lno < e.lno + e.num else mid.lno < e.lno + e.num)
  }

  // The list up to k is as before, what comes later moved on to make room.
  ghost predicate Grown(before: seq<Node>, after: seq<Node>, k: nat) {
    k < |before| <= |after| && after[..k + 1] == before[..k + 1] && after[|after| - (|before| - k - 1)..] == before[k + 1..]
  }

  lemma GrownNot(a: seq<Node>, k: nat)
    requires k < |a|
    ensures Grown(a, a, k)
  {
  }

  lemma GrownTwice(a: seq<Node>, b: seq<Node>, c: seq<Node>, k: nat)
    requires Grown(a, b, k) && Grown(b, c, k)
    ensures Grown(a, c, k)
  {
    assert a[k + 1..] == b[|b| - (|a| - k - 1)..] == b[k + 1..][|b| - |a|..];
    assert c[|c| - (|b| - k - 1)..][|b| - |a|..] == c[|c| - (|a| - k - 1)..];
  }

  lemma OneFor(view: seq<Entry>, k: nat, a: Entry)
    requires k < |view|
    ensures view[k := a] == view[..k] + ([] + ([a] + [])) + view[k + 1..]
  {
  }

  lemma TwoFor(view: seq<Entry>, k: nat, a: Entry, b: Entry)
    requires k < |view|
    ensures var v := view[k := a];
      && v[..k + 1] + [b] + v[k + 1..] == view[..k] + ([a] + ([b] + [])) + view[k + 1..]
      && v[..k + 1] + [b] + v[k + 1..] == view[..k] + ([] + ([a] + [b])) + view[k + 1..]
  {
  }

  lemma ThreeFor(view: seq<Entry>, k: nat, a: Entry, b: Entry, c: Entry)
    requires k < |view|
    ensures var v := view[k := a]; var w := v[..k + 1] + [c] + v[k + 1..];
      w[..k + 1] + [b] + w[k + 1..] == view[..k] + ([a] + ([b] + [c])) + view[k + 1..]
  {
  }

  // split_overlap: the part before the stretch, the part passed to the parent (none if
  // it would be empty) and the part after it.
  method SplitOverlap(e: Entry, st: Stretch) returns (pre: Option<Entry>, mid: Option<Entry>, post: Option<Entry>)
    requires Overlaps(e, st) && (st.tlno <= st.same || e.sLno + e.num <= st.same)
    ensures SplitEntry(e, st) == if mid.None? then [e] else Opt(pre) + ([mid.value] + Opt(post))
    ensures mid.Some? ==> Consecutive(e, pre, mid.value, post)
  {
    pre, mid, post := None, None, None;
    var midLno, midSLno, chunkEnd;
    if e.sLno < st.tlno {
      pre := Some(Entry(e.lno, st.tlno - e.sLno, e.suspect, false, e.sLno, false));
      midLno, midSLno := e.lno + st.tlno - e.sLno, st.plno;
    } else {
      midLno, midSLno := e.lno, st.plno + (e.sLno - st.tlno);
    }
    if st.same < e.sLno + e.num {
      post := Some(Entry(e.lno + (st.same - e.sLno), e.sLno + e.num - st.same, e.suspect, false, st.same, false));
      chunkEnd := post.value.lno;
    } else {
      chunkEnd := e.lno + e.num;
    }
    var midNum := chunkEnd - midLno;
    if midNum < 1 {
      return;
    }
    mid := Some(Entry(midLno, midNum, st.parent, false, midSLno, false));
  }
}
