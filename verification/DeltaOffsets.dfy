// Copy offsets in git_delta_apply (libgit2/src/delta.c). The fourth byte of an offset is
// shifted as an int of 32 bits, so that an offset of 2^31 or more comes out negative and is
// sign-extended to the 64 bits of a size_t; the check against the size of the base adds in
// 64 bits.
module DeltaOffsets {
  import opened Bytes
  import opened Options
  import opened DeltaFormat

  const WORD: nat := 0x1_0000_0000_0000_0000

  // How far before the base a copy can reach.
  const REACH: nat := 0x100_0000

  function SignExtended(off: nat): nat {
    if off < 0x8000_0000 then off else off + (WORD - 0x1_0000_0000)
  }

  // What an operation writes. A sum that wraps around passes the check, and bytes are
  // taken from what memory holds before the base.
  function Fetched(below: seq<byte>, base: seq<byte>, op: Op): Option<seq<byte>>
    requires |below| == REACH && IsRead(op)
  {
    match op
    case Insert(data) => Some(data)
    case Copy(off, len) =>
      var at := SignExtended(off);
      if |base| < (at + len) % WORD then None
      else if at + len < WORD then Some(base[at..at + len])
      else Some((below + base)[REACH + at - WORD..REACH + at - WORD + len])
  }

  // What the loop over the operations writes, or None where it fails.
  function Decoded(below: seq<byte>, base: seq<byte>, d: seq<byte>): Option<seq<byte>>
    requires |below| == REACH
    decreases |d|
  {
    if d == [] then Some([])
    else match ReadOp(d)
      case None => None
      case Some((op, rest)) =>
        match Fetched(below, base, op)
        case None => None
        case Some(s) => Prepend(s, Decoded(below, base, rest))
  }

  // git_delta_apply: None stands for its error return.
  function Applied(below: seq<byte>, base: seq<byte>, delta: seq<byte>): Option<seq<byte>>
    requires |below| == REACH
  {
    match ReadSize(delta, 0)
    case None => None
    case Some((baseSize, n)) =>
      if baseSize != |base| then None
      else match ReadSize(delta[n..], 0)
        case None => None
        case Some((resultSize, m)) =>
          match Decoded(below, base, delta[n + m..])
          case None => None
          case Some(t) => if |t| == resultSize then Some(t) else None
  }

  // ---- when that is what the delta stands for

  // No copy in d begins at 2^31 or later.
  ghost predicate Near(d: seq<byte>)
    decreases |d|
  {
    d != [] ==> ReadOp(d).Some? && (ReadOp(d).value.0.Copy? ==> ReadOp(d).value.0.off < 0x8000_0000) && Near(ReadOp(d).value.1)
  }

  function Operations(delta: seq<byte>): seq<byte> {
    match ReadSize(delta, 0)
    case None => []
    case Some((_, n)) =>
      match ReadSize(delta[n..], 0)
      case None => []
      case Some((_, m)) => delta[n + m..]
  }

  // An operation that stays inside the base is carried out, or fails if it begins too far.
  lemma FetchedIs(below: seq<byte>, base: seq<byte>, op: Op)
    requires |below| == REACH && IsRead(op) && |base| < 0x1_0000_0000 && Written(base, op).Some?
    ensures Fetched(below, base, op) == if op.Copy? && op.off >= 0x8000_0000 then None else Written(base, op)
  {
    if op.Copy? {
      var sum := SignExtended(op.off) + op.len;
      assert sum < WORD;
      assert sum % WORD == sum;
    }
  }

  lemma {:induction false} DecodedIs(below: seq<byte>, base: seq<byte>, d: seq<byte>)
    requires |below| == REACH && |base| < 0x1_0000_0000 && Run(base, d).Some?
    ensures Decoded(below, base, d) == if Near(d) then Run(base, d) else None
    decreases |d|
  {
    hide ReadOp, Written, Fetched;
    if d != [] {
      var (op, rest) := ReadOp(d).value;
      FetchedIs(below, base, op);
      DecodedIs(below, base, rest);
    }
  }

  // A delta that stands for something is applied as it should be exactly if none of its
  // copies begins at 2^31 or later; otherwise it is refused.
  lemma AppliedIff(below: seq<byte>, base: seq<byte>, delta: seq<byte>)
    requires |below| == REACH && Apply(base, delta).Some?
    ensures Applied(below, base, delta) == if Near(Operations(delta)) then Apply(base, delta) else None
  {
    hide ReadSize, Run, Near, Decoded;
    ReadSizeBound(delta, 0);
    DecodedIs(below, base, Operations(delta));
  }

  // With a base of at most 2^31 bytes there are no such copies.
  lemma {:induction false} SmallBaseIsNear(base: seq<byte>, d: seq<byte>)
    requires |base| <= 0x8000_0000 && Run(base, d).Some?
    ensures Near(d)
    decreases |d|
  {
    hide ReadOp;
    if d != [] {
      SmallBaseIsNear(base, ReadOp(d).value.1);
    }
  }

  lemma SmallBaseApplies(below: seq<byte>, base: seq<byte>, delta: seq<byte>)
    requires |below| == REACH && |base| <= 0x8000_0000 && Apply(base, delta).Some?
    ensures Applied(below, base, delta) == Apply(base, delta)
  {
    hide ReadSize, Run, Near, Decoded;
    AppliedIff(below, base, delta);
    SmallBaseIsNear(base, Operations(delta));
  }

  // ---- larger bases

  // A base that begins with 2^31 zeros, and a target without a zero: a copy that begins
  // among the zeros writes one, so that only inserts and copies from beyond them can make
  // the target.
  lemma {:induction false} NearIsLong(base: seq<byte>, d: seq<byte>)
    requires |base| >= 0x8000_0000 && forall i :: 0 <= i < 0x8000_0000 ==> base[i] == 0
    requires Near(d) && Run(base, d).Some? && 0 !in Run(base, d).value
    ensures |Run(base, d).value| <= |d| && (d != [] ==> |Run(base, d).value| < |d|)
    decreases |d|
  {
    hide ReadOp;
    if d != [] {
      var (op, rest) := ReadOp(d).value;
      var s, t := Written(base, op).value, Run(base, rest).value;
      assert forall x :: x in t ==> x in s + t;
      assert forall x :: x in s ==> x in s + t;
      NearIsLong(base, rest);
      if op.Copy? {
        CopyHasZero(base, op);
      } else {
        InsertLength(d);
      }
    }
  }

  lemma CopyHasZero(base: seq<byte>, op: Op)
    requires |base| >= 0x8000_0000 && forall i :: 0 <= i < 0x8000_0000 ==> base[i] == 0
    requires op.Copy? && op.off < 0x8000_0000 && IsRead(op) && Written(base, op).Some?
    ensures 0 in Written(base, op).value
  {
    assert Written(base, op).value[0] == base[op.off];
  }

  lemma InsertLength(d: seq<byte>)
    requires d != [] && ReadOp(d).Some? && ReadOp(d).value.0.Insert?
    ensures |ReadOp(d).value.0.data| + 1 + |ReadOp(d).value.1| == |d|
  {
  }

  // With such a base no delta that is shorter than its target is ever applied: the round
  // trip fails for every one of these inputs that the encoder has a shorter delta for.
  lemma FarFails(below: seq<byte>, base: seq<byte>, trg: seq<byte>, delta: seq<byte>)
    requires |below| == REACH && |base| >= 0x8000_0000 && forall i :: 0 <= i < 0x8000_0000 ==> base[i] == 0
    requires 0 !in trg && Apply(base, delta) == Some(trg) && |delta| <= |trg|
    ensures Applied(below, base, delta) == None
  {
    hide ReadSize, Run, Near, Decoded;
    AppliedIff(below, base, delta);
    var ops := Operations(delta);
    assert Run(base, ops) == Some(trg);
    assert |ops| <= |delta|;
    if Near(ops) {
      NearIsLong(base, ops);
      SizesTakeRoom(delta);
    }
  }

  lemma SizesTakeRoom(delta: seq<byte>)
    requires ReadSize(delta, 0).Some? && ReadSize(delta[ReadSize(delta, 0).value.1..], 0).Some?
    ensures |Operations(delta)| < |delta|
  {
    hide ReadSize;
  }

  // The least of them: one copy, from 2^31 on. The delta stands for the eight bytes there,
  // and git_delta_apply refuses it.
  lemma FarCopyFails(below: seq<byte>, base: seq<byte>)
    requires |below| == REACH && |base| == 0x8000_0008
    ensures var delta := WriteSize(|base|) + WriteSize(8) + CopyOp(0x8000_0000, 8);
      && Apply(base, delta) == Some(base[0x8000_0000..]) && Applied(below, base, delta) == None
  {
    hide ReadSize, WriteSize, ReadOp, CopyOp;
    var op := CopyOp(0x8000_0000, 8);
    var b, t := WriteSize(|base|), WriteSize(8);
    var delta := b + t + op;
    SizeRoundTrip(|base|, 0, t + op);
    SizeRoundTrip(8, 0, op);
    assert delta == b + (t + op);
    assert delta[|b|..] == t + op;
    assert delta[|b| + |t|..] == op;
    CopyOpReadsBack(0x8000_0000, 8, []);
    assert op + [] == op;
    RunCopy(base, [], 0x8000_0000, 8);
    assert [] + op == op && [] + base[0x8000_0000..0x8000_0008] == base[0x8000_0000..];
    AppliedIff(below, base, delta);
  }

  // A copy that begins just before 2^32 wraps around to the start of the base: the check
  // lets it pass, and the sixteen bytes before the base are copied with those of it.
  lemma BeforeTheBase(below: seq<byte>, base: seq<byte>)
    requires |below| == REACH && |base| == 16
    ensures var delta := [0x10, 0x20, 0x9f, 0xf0, 0xff, 0xff, 0xff, 0x20];
      && Apply(base, delta) == None && Applied(below, base, delta) == Some(below[REACH - 16..] + base)
  {
    var delta: seq<byte> := [0x10, 0x20, 0x9f, 0xf0, 0xff, 0xff, 0xff, 0x20];
    var ops := delta[2..];
    assert delta[1..] == [0x20, 0x9f, 0xf0, 0xff, 0xff, 0xff, 0x20];
    assert ReadSize(delta, 0) == Some((16, 1)) && ReadSize(delta[1..], 0) == Some((32, 1));
    assert delta[1 + 1..] == ops;
    WrappingCopy(ops);
    hide ReadOp, ReadSize;
    var op := Copy(0xffff_fff0, 32);
    assert Run(base, ops) == None;
    var s := Fetched(below, base, op).value;
    assert s == below[REACH - 16..] + base;
    assert Decoded(below, base, []) == Some([]);
    assert Decoded(below, base, ops) == Some(s) by {
      assert s + [] == s;
    }
  }

  lemma WrappingCopy(ops: seq<byte>)
    requires ops == [0x9f, 0xf0, 0xff, 0xff, 0xff, 0x20]
    ensures ReadOp(ops) == Some((Copy(0xffff_fff0, 32), []))
  {
    hide ReadOp, CopyBytes;
    CopyOpReadsBack(0xffff_fff0, 32, []);
    WrappingBytes();
    assert CopyBytes(0xf0, 0xff, 0xff, 0xff, 0x20, 0) + [] == ops;
  }

  lemma WrappingBytes()
    ensures CopyBytes(0xf0, 0xff, 0xff, 0xff, 0x20, 0) == [0x9f, 0xf0, 0xff, 0xff, 0xff, 0x20]
  {
    assert CopyCommand(0xf0, 0xff, 0xff, 0xff, 0x20, 0) == 0x9f;
  }
}
