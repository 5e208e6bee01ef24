// hdr_sz and git_delta_apply of libgit2/src/delta.c as the loops they are, and the
// round trip of git_delta (libgit2/src/delta.h) through both ends.
module DeltaDecoder {
  import opened Bytes
  import opened Options
  import opened DeltaFormat
  import opened DeltaOffsets
  import opened DeltaIndexes
  import opened DeltaEncoder

  // What reading a size comes to when size has been gathered from the n bytes before d,
  // the k-th group is next and mul is its unit.
  ghost function Gathered(size: nat, mul: nat, n: nat, d: seq<byte>, k: nat): Option<(nat, nat)> {
    match ReadSize(d, k)
    case None => None
    case Some((v, m)) => Some((size + mul * v, n + m))
  }

  function Group(c: byte, k: nat): nat {
    if k < 4 then c as nat % 0x80 else if k == 4 then c as nat % 0x10 else 0
  }

  lemma GatherOne(size: nat, mul: nat, n: nat, d: seq<byte>, k: nat)
    requires d != []
    ensures Gathered(size, mul, n, d, k) ==
      if d[0] < 0x80 then Some((size + Group(d[0], k) * mul, n + 1))
      else Gathered(size + Group(d[0], k) * mul, 0x80 * mul, n + 1, d[1..], k + 1)
  {
    match ReadSize(d[1..], k + 1) {
      case None =>
      case Some((v, m)) => Distribute(size, mul, Group(d[0], k), v);
    }
  }

  lemma Distribute(r: nat, mul: nat, group: nat, v: nat)
    ensures r + mul * (group + 0x80 * v) == (r + group * mul) + (0x80 * mul) * v
    ensures mul * group == group * mul
  {
  }

  // hdr_sz: the size at position start, and the position after it.
  method HdrSz(delta: seq<byte>, start: nat) returns (r: Option<(nat, nat)>)
    requires start <= |delta|
    ensures r == Gathered(0, 1, start, delta[start..], 0)
  {
    var size: nat, p: nat, k: nat, mul: nat := 0, start, 0, 1;
    while p < |delta|
      invariant start <= p <= |delta|
      invariant Gathered(0, 1, start, delta[start..], 0) == Gathered(size, mul, p, delta[p..], k)
    {
      GatherOne(size, mul, p, delta[p..], k);
      assert delta[p..][1..] == delta[p + 1..];
      var c := delta[p];
      size, mul, p, k := size + Group(c, k) * mul, 0x80 * mul, p + 1, k + 1;
      if c < 0x80 {
        return Some((size, p));
      }
    }
    return None;
  }

  lemma GatheredFromScratch(n: nat, d: seq<byte>)
    ensures Gathered(0, 1, n, d, 0) == match ReadSize(d, 0)
      case None => None
      case Some((v, m)) => Some((v, n + m))
  {
  }

  // A position in the delta with the value gathered so far; None past the end.
  ghost function Reading(delta: seq<byte>, p: nat, v: nat): Option<(nat, seq<byte>)> {
    if p <= |delta| then Some((v, delta[p..])) else None
  }

  lemma FirstOperand(d: seq<byte>, present: bool)
    ensures AndThen(Some((0, d)), 1, present) == Operand(d, present)
  {
  }

  // One operand byte, added in at its place. Past the end of the delta the source reads
  // whatever is there; here that is 0, and the position is what makes the run fail.
  method ReadOperand(delta: seq<byte>, p: nat, v: nat, unit: nat, present: bool) returns (v': nat, p': nat)
    ensures p <= p' && Reading(delta, p', v') == AndThen(Reading(delta, p, v), unit, present)
    ensures v' <= v + unit * 255
  {
    v', p' := v, p;
    if present {
      if p < |delta| {
        v' := v + unit * delta[p] as nat;
        assert unit * delta[p] as nat <= unit * 255;
        assert delta[p..][1..] == delta[p + 1..];
      }
      p' := p + 1;
    }
  }

  // The operands of the copy command at position p - 1; off is the offset as a size_t.
  method ReadCopy(delta: seq<byte>, p: nat, cmd: byte) returns (off: nat, len: nat, p': nat, ghost op: Op)
    requires 0 < p <= |delta| && cmd == delta[p - 1] >= 0x80
    ensures p <= p' && op.Copy? && IsRead(op) && off == SignExtended(op.off) && len == op.len
    ensures ReadOp(delta[p - 1..]) == if p' <= |delta| then Some((op, delta[p'..])) else None
  {
    hide Flag, Operand, AndThen;
    assert delta[p - 1..][1..] == delta[p..];
    FirstOperand(delta[p..], Flag(cmd, 0x01));
    off, p' := ReadOperand(delta, p, 0, 1, Flag(cmd, 0x01));
    off, p' := ReadOperand(delta, p', off, 0x100, Flag(cmd, 0x02));
    off, p' := ReadOperand(delta, p', off, 0x1_0000, Flag(cmd, 0x04));
    off, p' := ReadOperand(delta, p', off, 0x100_0000, Flag(cmd, 0x08));
    ghost var v, q := off, p';
    if off >= 0x8000_0000 {
      off := off + (WORD - 0x1_0000_0000);
    }
    if q <= |delta| {
      FirstOperand(delta[q..], Flag(cmd, 0x10));
    }
    len, p' := ReadOperand(delta, p', 0, 1, Flag(cmd, 0x10));
    len, p' := ReadOperand(delta, p', len, 0x100, Flag(cmd, 0x20));
    len, p' := ReadOperand(delta, p', len, 0x1_0000, Flag(cmd, 0x40));
    if len == 0 {
      len := 0x1_0000;
    }
    op := Copy(v, len);
  }

  // memcpy to the position done of the result
  method Blit(src: seq<byte>, off: nat, len: nat, res: array<byte>, done: nat)
    requires off + len <= |src| && done + len <= res.Length
    modifies res
    ensures res[..done + len] == old(res[..done]) + src[off..off + len]
  {
    var i := 0;
    while i < len
      invariant i <= len && res[..done + i] == old(res[..done]) + src[off..off + i]
    {
      res[done + i] := src[off + i];
      i := i + 1;
    }
  }

  // memcpy from the base, or from before it where the position has wrapped around.
  method Fetch(below: seq<byte>, base: seq<byte>, off: nat, len: nat, res: array<byte>, done: nat, ghost op: Op)
    requires |below| == REACH && op.Copy? && IsRead(op) && off == SignExtended(op.off) && len == op.len
    requires (off + len) % WORD <= |base| && done + len <= res.Length
    modifies res
    ensures Fetched(below, base, op).Some? && res[..done + len] == old(res[..done]) + Fetched(below, base, op).value
  {
    if off + len < WORD {
      Blit(base, off, len, res, done);
    } else {
      Blit(below + base, REACH + off - WORD, len, res, done);
    }
  }

  // out is what has been written when the position is p.
  ghost predicate Running(below: seq<byte>, base: seq<byte>, delta: seq<byte>, ops: seq<byte>, p: nat, out: seq<byte>)
    requires |below| == REACH
  {
    Decoded(below, base, ops) == if p <= |delta| then Prepend(out, Decoded(below, base, delta[p..])) else None
  }

  lemma RunningStep(below: seq<byte>, base: seq<byte>, delta: seq<byte>, ops: seq<byte>, p: nat, out: seq<byte>)
    requires |below| == REACH && p < |delta| && Running(below, base, delta, ops, p, out)
    ensures match ReadOp(delta[p..])
      case None => Decoded(below, base, ops) == None
      case Some((op, rest)) =>
        match Fetched(below, base, op)
        case None => Decoded(below, base, ops) == None
        case Some(s) => Decoded(below, base, ops) == Prepend(out + s, Decoded(below, base, rest))
  {
    hide ReadOp, Fetched;
    match ReadOp(delta[p..]) {
      case None =>
      case Some((op, rest)) =>
        match Fetched(below, base, op) {
          case None =>
          case Some(s) =>
            if Decoded(below, base, rest).Some? {
              assert out + (s + Decoded(below, base, rest).value) == (out + s) + Decoded(below, base, rest).value;
            }
        }
    }
  }

  // git_delta_apply, with the result written in place. below is what memory holds before
  // the base, as far as a copy can reach.
  method ApplyDelta(below: seq<byte>, base: seq<byte>, delta: seq<byte>) returns (r: Option<array<byte>>)
    requires |below| == REACH
    ensures r.None? <==> Applied(below, base, delta).None?
    ensures r.Some? ==> fresh(r.value) && Applied(below, base, delta) == Some(r.value[..])
  {
    hide ReadOp, ReadSize, Decoded;
    GatheredFromScratch(0, delta[0..]);
    var h := HdrSz(delta, 0);
    assert delta[0..] == delta;
    if h.None? || h.value.0 != |base| {
      return None;
    }
    var p := h.value.1;
    GatheredFromScratch(p, delta[p..]);
    h := HdrSz(delta, p);
    if h.None? {
      return None;
    }
    p := h.value.1;
    var ok, res := RunInPlace(below, base, delta, p, h.value.0);
    if ok {
      return Some(res);
    }
    return None;
  }

  // The loop over the operations from position start on.
  method RunInPlace(below: seq<byte>, base: seq<byte>, delta: seq<byte>, start: nat, size: nat) returns (ok: bool, res: array<byte>)
    requires |below| == REACH && start <= |delta|
    ensures fresh(res) && res.Length == size
    ensures ok <==> Decoded(below, base, delta[start..]).Some? && |Decoded(below, base, delta[start..]).value| == size
    ensures ok ==> Decoded(below, base, delta[start..]) == Some(res[..])
  {
    hide ReadOp, Decoded;
    res := new byte[size](_ => 0);
    ok := false;
    var p := start;
    ghost var ops := delta[start..];
    var done: nat := 0;
    RunningFirst(below, base, delta, start);
    assert res[..0] == [];
    while p < |delta|
      invariant done <= res.Length && Running(below, base, delta, ops, p, res[..done])
      decreases |delta| - p
    {
      RunningStep(below, base, delta, ops, p, res[..done]);
      var cmd := delta[p];
      p := p + 1;
      if cmd >= 0x80 {
        var off, len;
        ghost var op;
        off, len, p, op := ReadCopy(delta, p, cmd);
        if |base| < (off + len) % WORD || res.Length - done < len {
          return;
        }
        Fetch(below, base, off, len, res, done, op);
        done := done + len;
      } else if cmd > 0 {
        InsertIsRead(delta, p - 1);
        if |delta| - p < cmd as nat || res.Length - done < cmd as nat {
          return;
        }
        Blit(delta, p, cmd as nat, res, done);
        p, done := p + cmd as nat, done + cmd as nat;
      } else {
        InsertIsRead(delta, p - 1);
        return;
      }
    }
    RunningLast(below, base, delta, ops, p, res[..done]);
    ok := p == |delta| && done == res.Length;
    assert ok ==> res[..done] == res[..];
  }

  lemma RunningFirst(below: seq<byte>, base: seq<byte>, delta: seq<byte>, start: nat)
    requires |below| == REACH && start <= |delta|
    ensures Running(below, base, delta, delta[start..], start, [])
  {
    hide Decoded;
    if Decoded(below, base, delta[start..]).Some? {
      assert [] + Decoded(below, base, delta[start..]).value == Decoded(below, base, delta[start..]).value;
    }
  }

  lemma RunningLast(below: seq<byte>, base: seq<byte>, delta: seq<byte>, ops: seq<byte>, p: nat, out: seq<byte>)
    requires |below| == REACH && p >= |delta| && Running(below, base, delta, ops, p, out)
    ensures Decoded(below, base, ops) == if p == |delta| then Some(out) else None
  {
    if p == |delta| {
      assert out + [] == out;
    }
  }

  lemma InsertIsRead(delta: seq<byte>, p: nat)
    requires p < |delta| && delta[p] < 0x80
    ensures var n := delta[p] as nat;
      ReadOp(delta[p..]) ==
        if n == 0 || |delta| - p - 1 < n then None
        else Some((Insert(delta[p + 1..p + 1 + n]), delta[p + 1 + n..]))
  {
    var n := delta[p] as nat;
    if n > 0 && n <= |delta| - p - 1 {
      assert delta[p..][1..1 + n] == delta[p + 1..p + 1 + n];
      assert delta[p..][1 + n..] == delta[p + 1 + n..];
    }
  }

  // ---- git_delta: index the base, encode the target

  // The round trip. A delta stands for the target it was made of, and is applied as such
  // if the base has no more than 2^31 bytes; with a larger one it is refused if one of its
  // copies begins beyond them. What else can fail is the limit the caller sets or, from
  // 785 million bytes of target on, the 32-bit size of the buffer.
  method GitDelta(base: seq<byte>, trg: seq<byte>, maxSize: nat) returns (r: Outcome)
    requires |base| < 0x1_0000_0000 && |trg| < 0x1_0000_0000
    ensures r == Nothing <==> base == [] || trg == []
    ensures r.Delta? ==> IsDeltaFor(base, trg, r.bytes) && (maxSize > 0 ==> |r.bytes| <= maxSize)
    ensures r.Delta? ==> forall below :: |below| == REACH ==>
      Applied(below, base, r.bytes) == if Near(Operations(r.bytes)) then Some(trg) else None
    ensures r.Delta? && |base| <= 0x8000_0000 ==> Near(Operations(r.bytes))
    ensures r == TooLong ==> 0 < maxSize < 10 + 2 * |trg|
    ensures r == SizeWraps ==> |trg| >= 785_412_064 && (maxSize == 0 || maxSize > LAST_SIZE)
    ensures 0 < |base| <= 16 && trg != [] ==>
      var n := InsertedSize(|base|, |trg|);
      && (r == SizeWraps <==> Wraps(n, maxSize))
      && (r == TooLong <==> 0 < maxSize < n && !Wraps(n, maxSize))
  {
    hide IsTable, Culled, Covers, ReadSize, Near, Run, InsertedSize;
    var index, full := Init(base);
    if index == null {
      return Nothing;
    }
    r := CreateFromIndex(index, trg, maxSize);
    if r.Delta? {
      forall below | |below| == REACH
        ensures Applied(below, base, r.bytes) == if Near(Operations(r.bytes)) then Some(trg) else None
      {
        AppliedIff(below, base, r.bytes);
      }
      if |base| <= 0x8000_0000 {
        SmallBaseIsNear(base, Operations(r.bytes));
      }
    }
  }
}
