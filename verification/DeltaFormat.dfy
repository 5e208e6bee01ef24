// The delta format of libgit2/src/delta.c: sizes, copy and insert operations, and what
// a delta decodes to.
module DeltaFormat {
  import opened Bytes
  import opened Options

  // ---- sizes: seven bits a byte, least significant group first

  function WriteSize(n: nat): seq<byte> {
    if n >= 0x80 then [(n % 0x80 + 0x80) as byte] + WriteSize(n / 0x80) else [n as byte]
  }

  // hdr_sz from the k-th byte on: the remaining value in units of 1 << 7k, and the
  // number of bytes read. Groups that do not fit the 32-bit word are shifted out.
  function ReadSize(d: seq<byte>, k: nat): (r: Option<(nat, nat)>)
    ensures r.Some? ==> 1 <= r.value.1 <= |d|
  {
    if d == [] then None
    else
      var group := if k < 4 then d[0] as nat % 0x80 else if k == 4 then d[0] as nat % 0x10 else 0;
      if d[0] < 0x80 then Some((group, 1))
      else match ReadSize(d[1..], k + 1)
        case None => None
        case Some((v, n)) => Some((group + 0x80 * v, n + 1))
  }

  lemma {:induction false} ReadSizeBound(d: seq<byte>, k: nat)
    requires ReadSize(d, k).Some?
    ensures ReadSize(d, k).value.0 < if k <= 4 then SizeLimit(k) else 1
  {
    if d[0] >= 0x80 {
      ReadSizeBound(d[1..], k + 1);
    }
  }

  // The room left for groups from the k-th on in a 32-bit word.
  function SizeLimit(k: nat): nat {
    if k == 0 then 0x1_0000_0000 else if k == 1 then 0x200_0000 else if k == 2 then 0x4_0000
    else if k == 3 then 0x800 else if k == 4 then 0x10 else 0
  }

  lemma {:induction false} SizeRoundTrip(n: nat, k: nat, rest: seq<byte>)
    requires n < SizeLimit(k)
    ensures ReadSize(WriteSize(n) + rest, k) == Some((n, |WriteSize(n)|))
    ensures |WriteSize(n)| <= 5 - k
  {
    if n >= 0x80 {
      SizeRoundTrip(n / 0x80, k + 1, rest);
      assert (WriteSize(n) + rest)[1..] == WriteSize(n / 0x80) + rest;
    }
  }

  // The number that groups of seven bits stand for.
  function Sevens(s: seq<byte>): nat {
    if s == [] then 0 else s[0] as nat % 128 + 128 * Sevens(s[1..])
  }

  // All bytes but the last have their high bit set, and no group too many is written.
  lemma {:induction false} SizeIsSum(n: nat)
    ensures var s := WriteSize(n);
      && s != [] && Sevens(s) == n && s[|s| - 1] < 128 && (|s| > 1 ==> s[|s| - 1] > 0)
      && forall i :: 0 <= i < |s| - 1 ==> s[i] >= 128
  {
    if n >= 0x80 {
      SizeIsSum(n / 0x80);
      assert WriteSize(n)[1..] == WriteSize(n / 0x80);
    } else {
      assert WriteSize(n)[1..] == [];
    }
  }

  lemma WriteSizeBound(n: nat)
    requires n < 0x1_0000_0000
    ensures 1 <= |WriteSize(n)| <= 5
  {
    SizeRoundTrip(n, 0, []);
  }

  // ---- operations

  datatype Op = Copy(off: nat, len: nat) | Insert(data: seq<byte>)

  function Flag(cmd: byte, bit: nat): bool
    requires bit > 0
  {
    cmd as nat / bit % 2 == 1
  }

  // An operand byte of a copy, present only if its flag is set, and what follows it.
  // None if the delta ends before it. (The source reads on without looking, and
  // fails later, when it finds its position past the end.)
  function Operand(d: seq<byte>, present: bool): (r: Option<(nat, seq<byte>)>)
    ensures r.Some? ==> |d| == |r.value.1| + (if present then 1 else 0) && r.value.0 < 256
  {
    if !present then Some((0, d)) else if d == [] then None else Some((d[0] as nat, d[1..]))
  }

  // Chains two operand reads: the second is the more significant by the factor unit.
  function AndThen(low: Option<(nat, seq<byte>)>, unit: nat, present: bool): (r: Option<(nat, seq<byte>)>)
    ensures r.Some? ==> low.Some? && |r.value.1| <= |low.value.1| && r.value.0 <= low.value.0 + unit * 255
  {
    match low
    case None => None
    case Some((v, d)) =>
      match Operand(d, present)
      case None => None
      case Some((w, rest)) => assert unit * w <= unit * 255; Some((v + unit * w, rest))
  }

  function ReadOffset(cmd: byte, d: seq<byte>): (r: Option<(nat, seq<byte>)>)
    ensures r.Some? ==> |r.value.1| <= |d| && r.value.0 < 0x1_0000_0000
  {
    AndThen(AndThen(AndThen(Operand(d, Flag(cmd, 0x01)), 0x100, Flag(cmd, 0x02)), 0x1_0000, Flag(cmd, 0x04)), 0x100_0000, Flag(cmd, 0x08))
  }

  function ReadLength(cmd: byte, d: seq<byte>): (r: Option<(nat, seq<byte>)>)
    ensures r.Some? ==> |r.value.1| <= |d| && 0 < r.value.0 < 0x100_0000
  {
    match AndThen(AndThen(Operand(d, Flag(cmd, 0x10)), 0x100, Flag(cmd, 0x20)), 0x1_0000, Flag(cmd, 0x40))
    case None => None
    case Some((len, rest)) => Some((if len == 0 then 0x1_0000 else len, rest))
  }

  // An operation as it can be read: four bytes for an offset, three for a length.
  predicate IsRead(op: Op) {
    op.Copy? ==> op.off < 0x1_0000_0000 && 0 < op.len < 0x100_0000
  }

  // The operation at the front of d and what follows it.
  function ReadOp(d: seq<byte>): (r: Option<(Op, seq<byte>)>)
    requires d != []
    ensures r.Some? ==> |r.value.1| < |d| && IsRead(r.value.0)
  {
    var cmd := d[0];
    if cmd >= 0x80 then
      match ReadOffset(cmd, d[1..])
      case None => None
      case Some((off, d1)) =>
        match ReadLength(cmd, d1)
        case None => None
        case Some((len, d2)) => Some((Copy(off, len), d2))
    else if cmd == 0 || |d| - 1 < cmd as nat then None
    else Some((Insert(d[1..1 + cmd as nat]), d[1 + cmd as nat..]))
  }

  // An operand byte where its flag is set.
  function Byte(b: byte, present: bool): seq<byte> {
    if present then [b] else []
  }

  function Worth(b: byte, present: bool): nat {
    if present then b as nat else 0
  }

  lemma ByteReads(b: byte, present: bool, rest: seq<byte>)
    ensures Operand(Byte(b, present) + rest, present) == Some((Worth(b, present), rest))
  {
    assert present ==> (Byte(b, present) + rest)[1..] == rest;
    assert !present ==> Byte(b, present) + rest == rest;
  }

  function OffsetOperands(cmd: byte, o0: byte, o1: byte, o2: byte, o3: byte, rest: seq<byte>): seq<byte> {
    Byte(o0, Flag(cmd, 0x01)) + (Byte(o1, Flag(cmd, 0x02)) + (Byte(o2, Flag(cmd, 0x04)) + (Byte(o3, Flag(cmd, 0x08)) + rest)))
  }

  function LengthOperands(cmd: byte, l0: byte, l1: byte, l2: byte, rest: seq<byte>): seq<byte> {
    Byte(l0, Flag(cmd, 0x10)) + (Byte(l1, Flag(cmd, 0x20)) + (Byte(l2, Flag(cmd, 0x40)) + rest))
  }

  lemma OffsetReads(cmd: byte, o0: byte, o1: byte, o2: byte, o3: byte, rest: seq<byte>)
    ensures ReadOffset(cmd, OffsetOperands(cmd, o0, o1, o2, o3, rest)) ==
      Some((Worth(o0, Flag(cmd, 0x01)) + 0x100 * Worth(o1, Flag(cmd, 0x02))
            + 0x1_0000 * Worth(o2, Flag(cmd, 0x04)) + 0x100_0000 * Worth(o3, Flag(cmd, 0x08)), rest))
  {
    hide Flag, Operand, Byte, Worth;
    var t3 := Byte(o3, Flag(cmd, 0x08)) + rest;
    var t2 := Byte(o2, Flag(cmd, 0x04)) + t3;
    ByteReads(o3, Flag(cmd, 0x08), rest);
    ByteReads(o2, Flag(cmd, 0x04), t3);
    ByteReads(o1, Flag(cmd, 0x02), t2);
    ByteReads(o0, Flag(cmd, 0x01), Byte(o1, Flag(cmd, 0x02)) + t2);
  }

  lemma LengthReads(cmd: byte, l0: byte, l1: byte, l2: byte, rest: seq<byte>)
    ensures var len := Worth(l0, Flag(cmd, 0x10)) + 0x100 * Worth(l1, Flag(cmd, 0x20)) + 0x1_0000 * Worth(l2, Flag(cmd, 0x40));
      ReadLength(cmd, LengthOperands(cmd, l0, l1, l2, rest)) == Some((if len == 0 then 0x1_0000 else len, rest))
  {
    hide Flag, Operand, Byte, Worth;
    var t2 := Byte(l2, Flag(cmd, 0x40)) + rest;
    ByteReads(l2, Flag(cmd, 0x40), rest);
    ByteReads(l1, Flag(cmd, 0x20), t2);
    ByteReads(l0, Flag(cmd, 0x10), Byte(l1, Flag(cmd, 0x20)) + t2);
  }

  // Every copy, whichever of the seven operand bytes it has, as it is read.
  lemma CopyReads(cmd: byte, o0: byte, o1: byte, o2: byte, o3: byte, l0: byte, l1: byte, l2: byte, rest: seq<byte>)
    requires cmd >= 0x80
    ensures var d := [cmd] + OffsetOperands(cmd, o0, o1, o2, o3, LengthOperands(cmd, l0, l1, l2, rest));
      var off := Worth(o0, Flag(cmd, 0x01)) + 0x100 * Worth(o1, Flag(cmd, 0x02))
               + 0x1_0000 * Worth(o2, Flag(cmd, 0x04)) + 0x100_0000 * Worth(o3, Flag(cmd, 0x08));
      var len := Worth(l0, Flag(cmd, 0x10)) + 0x100 * Worth(l1, Flag(cmd, 0x20)) + 0x1_0000 * Worth(l2, Flag(cmd, 0x40));
      ReadOp(d) == Some((Copy(off, if len == 0 then 0x1_0000 else len), rest))
  {
    hide Flag, Worth, OffsetOperands, LengthOperands, ReadOffset, ReadLength;
    var t := LengthOperands(cmd, l0, l1, l2, rest);
    assert ([cmd] + OffsetOperands(cmd, o0, o1, o2, o3, t))[1..] == OffsetOperands(cmd, o0, o1, o2, o3, t);
    OffsetReads(cmd, o0, o1, o2, o3, t);
    LengthReads(cmd, l0, l1, l2, rest);
  }

  function One(present: bool): nat {
    if present then 1 else 0
  }

  // How many operand bytes the flags of a copy announce.
  function Announced(cmd: byte): nat {
    One(Flag(cmd, 0x01)) + One(Flag(cmd, 0x02)) + One(Flag(cmd, 0x04)) + One(Flag(cmd, 0x08))
    + (One(Flag(cmd, 0x10)) + One(Flag(cmd, 0x20)) + One(Flag(cmd, 0x40)))
  }

  // A copy is refused exactly if operand bytes are missing. The zero byte is refused, and so
  // is an insert of more than there is.
  lemma OpIs(cmd: byte, rest: seq<byte>)
    ensures cmd >= 0x80 ==> (ReadOp([cmd] + rest).Some? <==> Announced(cmd) <= |rest|)
    ensures cmd < 0x80 ==>
      (ReadOp([cmd] + rest) ==
       if cmd == 0 || |rest| < cmd as nat then None else Some((Insert(rest[..cmd as nat]), rest[cmd as nat..])))
  {
    hide Flag, ReadOffset, ReadLength;
    var d := [cmd] + rest;
    assert d[1..] == rest;
    if cmd >= 0x80 {
      OperandsOf(cmd, rest);
    } else if cmd as nat <= |rest| {
      var n := cmd as nat;
      assert d[1..1 + n] == rest[..n] && d[1 + n..] == rest[n..];
    }
  }

  lemma OperandsOf(cmd: byte, d: seq<byte>)
    ensures var n := One(Flag(cmd, 0x01)) + One(Flag(cmd, 0x02)) + One(Flag(cmd, 0x04)) + One(Flag(cmd, 0x08));
      (ReadOffset(cmd, d).Some? <==> n <= |d|) && (n <= |d| ==> |ReadOffset(cmd, d).value.1| == |d| - n)
    ensures var n := One(Flag(cmd, 0x10)) + One(Flag(cmd, 0x20)) + One(Flag(cmd, 0x40));
      forall e: seq<byte> :: ReadLength(cmd, e).Some? <==> n <= |e|
  {
    hide Flag;
  }

  // The bytes an operation stands for, if it stays inside base.
  function Written(base: seq<byte>, op: Op): Option<seq<byte>> {
    match op
    case Copy(off, len) => if off + len <= |base| then Some(base[off..off + len]) else None
    case Insert(data) => Some(data)
  }

  // What the operations in d stand for, or None if one of them is malformed.
  function Run(base: seq<byte>, d: seq<byte>): Option<seq<byte>>
    decreases |d|
  {
    if d == [] then Some([])
    else match ReadOp(d)
      case None => None
      case Some((op, rest)) =>
        match Written(base, op)
        case None => None
        case Some(s) => Prepend(s, Run(base, rest))
  }

  function Prepend(s: seq<byte>, r: Option<seq<byte>>): Option<seq<byte>> {
    if r.None? then None else Some(s + r.value)
  }

  // What a delta stands for: the two sizes, and operations that write a target of the
  // second. Offsets are unsigned; what git_delta_apply makes of them is another matter.
  function Apply(base: seq<byte>, delta: seq<byte>): Option<seq<byte>> {
    match ReadSize(delta, 0)
    case None => None
    case Some((baseSize, n)) =>
      if baseSize != |base| then None
      else match ReadSize(delta[n..], 0)
        case None => None
        case Some((resultSize, m)) =>
          match Run(base, delta[n + m..])
          case None => None
          case Some(t) => if |t| == resultSize then Some(t) else None
  }

  // ---- the encodings the encoder emits

  // The bytes of a copy: a command byte whose flags say which operand bytes follow.
  function CopyOp(off: nat, len: nat): (r: seq<byte>)
    requires off < 0x1_0000_0000 && 1 <= len <= 0x1_0000
    ensures 1 <= |r| <= 7
  {
    var o0, o1, o2, o3 := off % 0x100, off / 0x100 % 0x100, off / 0x1_0000 % 0x100, off / 0x100_0000;
    var l0, l1 := len % 0x100, len / 0x100 % 0x100;
    CopyBytes(o0, o1, o2, o3, l0, l1)
  }

  function CopyBytes(o0: nat, o1: nat, o2: nat, o3: nat, l0: nat, l1: nat): (r: seq<byte>)
    requires o0 < 256 && o1 < 256 && o2 < 256 && o3 < 256 && l0 < 256 && l1 < 256
    ensures 1 <= |r| <= 7
  {
    [CopyCommand(o0, o1, o2, o3, l0, l1)] +
    (Present(o0) + (Present(o1) + (Present(o2) + (Present(o3) + (Present(l0) + Present(l1))))))
  }

  function CopyCommand(o0: nat, o1: nat, o2: nat, o3: nat, l0: nat, l1: nat): byte {
    (0x80 + (if o0 > 0 then 0x01 else 0) + (if o1 > 0 then 0x02 else 0) + (if o2 > 0 then 0x04 else 0)
      + (if o3 > 0 then 0x08 else 0) + (if l0 > 0 then 0x10 else 0) + (if l1 > 0 then 0x20 else 0)) as byte
  }

  function Present(b: nat): (r: seq<byte>)
    requires b < 256
    ensures |r| <= 1
  {
    if b > 0 then [b as byte] else []
  }

  function InsertOp(data: seq<byte>): seq<byte>
    requires 1 <= |data| <= 127
  {
    [|data| as byte] + data
  }

  lemma CopyCommandFlags(o0: nat, o1: nat, o2: nat, o3: nat, l0: nat, l1: nat)
    ensures var cmd := CopyCommand(o0, o1, o2, o3, l0, l1);
      && cmd >= 0x80
      && Flag(cmd, 0x01) == (o0 > 0) && Flag(cmd, 0x02) == (o1 > 0) && Flag(cmd, 0x04) == (o2 > 0)
      && Flag(cmd, 0x08) == (o3 > 0) && Flag(cmd, 0x10) == (l0 > 0) && Flag(cmd, 0x20) == (l1 > 0)
      && !Flag(cmd, 0x40)
  {
  }

  lemma OperandReadsBack(b: nat, rest: seq<byte>)
    requires b < 256
    ensures Operand(Present(b) + rest, b > 0) == Some((b, rest))
  {
    assert [] + rest == rest;
    assert b > 0 ==> (Present(b) + rest)[1..] == rest;
  }

  lemma OffsetReadsBack(cmd: byte, o0: nat, o1: nat, o2: nat, o3: nat, rest: seq<byte>)
    requires o0 < 256 && o1 < 256 && o2 < 256 && o3 < 256
    requires Flag(cmd, 0x01) == (o0 > 0) && Flag(cmd, 0x02) == (o1 > 0)
    requires Flag(cmd, 0x04) == (o2 > 0) && Flag(cmd, 0x08) == (o3 > 0)
    ensures ReadOffset(cmd, Present(o0) + (Present(o1) + (Present(o2) + (Present(o3) + rest))))
         == Some((o0 + 0x100 * o1 + 0x1_0000 * o2 + 0x100_0000 * o3, rest))
  {
    hide Flag, Present, Operand;
    OperandReadsBack(o3, rest);
    OperandReadsBack(o2, Present(o3) + rest);
    OperandReadsBack(o1, Present(o2) + (Present(o3) + rest));
    OperandReadsBack(o0, Present(o1) + (Present(o2) + (Present(o3) + rest)));
  }

  lemma LengthReadsBack(cmd: byte, l0: nat, l1: nat, rest: seq<byte>)
    requires l0 < 256 && l1 < 256
    requires Flag(cmd, 0x10) == (l0 > 0) && Flag(cmd, 0x20) == (l1 > 0) && !Flag(cmd, 0x40)
    ensures ReadLength(cmd, Present(l0) + (Present(l1) + rest))
         == Some((if l0 + 0x100 * l1 == 0 then 0x1_0000 else l0 + 0x100 * l1, rest))
  {
    hide Flag, Present;
    OperandReadsBack(l1, rest);
    OperandReadsBack(l0, Present(l1) + rest);
  }

  lemma CopyBytesReadBack(o0: nat, o1: nat, o2: nat, o3: nat, l0: nat, l1: nat, rest: seq<byte>)
    requires o0 < 256 && o1 < 256 && o2 < 256 && o3 < 256 && l0 < 256 && l1 < 256
    ensures ReadOp(CopyBytes(o0, o1, o2, o3, l0, l1) + rest)
         == Some((Copy(o0 + 0x100 * o1 + 0x1_0000 * o2 + 0x100_0000 * o3,
                       if l0 + 0x100 * l1 == 0 then 0x1_0000 else l0 + 0x100 * l1), rest))
  {
    hide Flag, Present, CopyCommand, ReadOffset, ReadLength;
    var cmd := CopyCommand(o0, o1, o2, o3, l0, l1);
    CopyCommandFlags(o0, o1, o2, o3, l0, l1);
    var t := Present(l0) + (Present(l1) + rest);
    OffsetReadsBack(cmd, o0, o1, o2, o3, t);
    LengthReadsBack(cmd, l0, l1, rest);
    var t0 := Present(l0) + Present(l1);
    var t1 := Present(o3) + t0;
    var t2 := Present(o2) + t1;
    var t3 := Present(o1) + t2;
    var t4 := Present(o0) + t3;
    Associates(Present(l0), Present(l1), rest);
    Associates(Present(o3), t0, rest);
    Associates(Present(o2), t1, rest);
    Associates(Present(o1), t2, rest);
    Associates(Present(o0), t3, rest);
    Associates([cmd], t4, rest);
    assert ([cmd] + (t4 + rest))[1..] == t4 + rest;
  }

  lemma Associates(a: seq<byte>, b: seq<byte>, c: seq<byte>)
    ensures (a + b) + c == a + (b + c)
  {
  }

  lemma CopyOpReadsBack(off: nat, len: nat, rest: seq<byte>)
    requires off < 0x1_0000_0000 && 1 <= len <= 0x1_0000
    ensures ReadOp(CopyOp(off, len) + rest) == Some((Copy(off, len), rest))
  {
    hide CopyBytes, ReadOp;
    CopyBytesReadBack(off % 0x100, off / 0x100 % 0x100, off / 0x1_0000 % 0x100, off / 0x100_0000,
                      len % 0x100, len / 0x100 % 0x100, rest);
    OffsetDigits(off);
    LengthDigits(len);
  }

  lemma OffsetDigits(off: nat)
    requires off < 0x1_0000_0000
    ensures off / 0x100_0000 < 0x100
    ensures off == off % 0x100 + 0x100 * (off / 0x100 % 0x100) + 0x1_0000 * (off / 0x1_0000 % 0x100) + 0x100_0000 * (off / 0x100_0000)
  {
  }

  lemma LengthDigits(len: nat)
    requires 1 <= len <= 0x1_0000
    ensures var v := len % 0x100 + 0x100 * (len / 0x100 % 0x100); len == if v == 0 then 0x1_0000 else v
  {
  }

  lemma InsertOpReadsBack(data: seq<byte>, rest: seq<byte>)
    requires 1 <= |data| <= 127
    ensures ReadOp(InsertOp(data) + rest) == Some((Insert(data), rest))
  {
    var d := InsertOp(data) + rest;
    assert d[1..1 + |data|] == data;
    assert d[1 + |data|..] == rest;
  }

  // ---- running one stretch of operations after another

  lemma ReadOpIgnoresRest(d1: seq<byte>, d2: seq<byte>)
    requires d1 != [] && ReadOp(d1).Some?
    ensures ReadOp(d1 + d2) == Some((ReadOp(d1).value.0, ReadOp(d1).value.1 + d2))
  {
    var cmd := d1[0];
    assert (d1 + d2)[1..] == d1[1..] + d2;
    if cmd >= 0x80 {
      OffsetIgnoresRest(cmd, d1[1..], d2);
      LengthIgnoresRest(cmd, ReadOffset(cmd, d1[1..]).value.1, d2);
    } else {
      var n := 1 + cmd as nat;
      assert (d1 + d2)[n..] == d1[n..] + d2;
      assert (d1 + d2)[1..n] == d1[1..n];
    }
  }

  lemma OperandIgnoresRest(d1: seq<byte>, present: bool, d2: seq<byte>)
    requires Operand(d1, present).Some?
    ensures Operand(d1 + d2, present) == Some((Operand(d1, present).value.0, Operand(d1, present).value.1 + d2))
  {
    if present {
      assert (d1 + d2)[1..] == d1[1..] + d2;
    }
  }

  lemma OffsetIgnoresRest(cmd: byte, d1: seq<byte>, d2: seq<byte>)
    requires ReadOffset(cmd, d1).Some?
    ensures ReadOffset(cmd, d1 + d2) == Some((ReadOffset(cmd, d1).value.0, ReadOffset(cmd, d1).value.1 + d2))
  {
    hide Flag, Operand;
    var a := Operand(d1, Flag(cmd, 0x01));
    var b := AndThen(a, 0x100, Flag(cmd, 0x02));
    var c := AndThen(b, 0x1_0000, Flag(cmd, 0x04));
    OperandIgnoresRest(d1, Flag(cmd, 0x01), d2);
    OperandIgnoresRest(a.value.1, Flag(cmd, 0x02), d2);
    OperandIgnoresRest(b.value.1, Flag(cmd, 0x04), d2);
    OperandIgnoresRest(c.value.1, Flag(cmd, 0x08), d2);
  }

  lemma LengthIgnoresRest(cmd: byte, d1: seq<byte>, d2: seq<byte>)
    requires ReadLength(cmd, d1).Some?
    ensures ReadLength(cmd, d1 + d2) == Some((ReadLength(cmd, d1).value.0, ReadLength(cmd, d1).value.1 + d2))
  {
    hide Flag, Operand;
    var a := Operand(d1, Flag(cmd, 0x10));
    var b := AndThen(a, 0x100, Flag(cmd, 0x20));
    OperandIgnoresRest(d1, Flag(cmd, 0x10), d2);
    OperandIgnoresRest(a.value.1, Flag(cmd, 0x20), d2);
    OperandIgnoresRest(b.value.1, Flag(cmd, 0x40), d2);
  }

  lemma {:induction false} RunAppend(base: seq<byte>, d1: seq<byte>, d2: seq<byte>)
    requires Run(base, d1).Some?
    ensures Run(base, d1 + d2) == Prepend(Run(base, d1).value, Run(base, d2))
    decreases |d1|
  {
    hide ReadOp;
    if d1 == [] {
      assert d1 + d2 == d2;
      assert Run(base, d2).Some? ==> [] + Run(base, d2).value == Run(base, d2).value;
    } else {
      ReadOpIgnoresRest(d1, d2);
      var (op, rest) := ReadOp(d1).value;
      RunAppend(base, rest, d2);
      var s, t := Written(base, op).value, Run(base, rest).value;
      assert Run(base, d2).Some? ==> (s + t) + Run(base, d2).value == s + (t + Run(base, d2).value);
    }
  }

  lemma RunOne(base: seq<byte>, d: seq<byte>, bytes: seq<byte>, op: Op)
    requires bytes != [] && ReadOp(bytes) == Some((op, []))
    requires Run(base, d).Some? && Written(base, op).Some?
    ensures Run(base, d + bytes) == Some(Run(base, d).value + Written(base, op).value)
  {
    hide ReadOp;
    RunAppend(base, d, bytes);
    assert Written(base, op).value + [] == Written(base, op).value;
  }

  lemma RunCopy(base: seq<byte>, d: seq<byte>, off: nat, len: nat)
    requires off < 0x1_0000_0000 && 1 <= len <= 0x1_0000 && off + len <= |base|
    requires Run(base, d).Some?
    ensures Run(base, d + CopyOp(off, len)) == Some(Run(base, d).value + base[off..off + len])
  {
    hide CopyOp, ReadOp, Run;
    CopyOpReadsBack(off, len, []);
    assert CopyOp(off, len) + [] == CopyOp(off, len);
    RunOne(base, d, CopyOp(off, len), Copy(off, len));
  }

  lemma RunInsert(base: seq<byte>, d: seq<byte>, data: seq<byte>)
    requires 1 <= |data| <= 127
    requires Run(base, d).Some?
    ensures Run(base, d + InsertOp(data)) == Some(Run(base, d).value + data)
  {
    hide InsertOp, ReadOp, Run;
    InsertOpReadsBack(data, []);
    assert InsertOp(data) + [] == InsertOp(data);
    RunOne(base, d, InsertOp(data), Insert(data));
  }

  // A copy from beyond the base is refused.
  lemma CopyOutside(base: seq<byte>, off: nat, len: nat, rest: seq<byte>)
    requires off < 0x1_0000_0000 && 1 <= len <= 0x1_0000 && off + len > |base|
    ensures Run(base, CopyOp(off, len) + rest) == None
  {
    hide CopyOp, ReadOp;
    CopyOpReadsBack(off, len, rest);
  }

  // A delta is applied exactly if it names the size of the base, and its operations write as
  // much as it says.
  lemma ApplyIs(base: seq<byte>, m: nat, n: nat, d: seq<byte>)
    requires m < 0x1_0000_0000 && n < 0x1_0000_0000
    ensures Apply(base, WriteSize(m) + (WriteSize(n) + d)) ==
      if m == |base| && Run(base, d).Some? && |Run(base, d).value| == n then Run(base, d) else None
  {
    hide Run, WriteSize, ReadSize;
    var delta := WriteSize(m) + (WriteSize(n) + d);
    SizeRoundTrip(m, 0, WriteSize(n) + d);
    SizeRoundTrip(n, 0, d);
    assert delta[|WriteSize(m)|..] == WriteSize(n) + d;
    assert delta[|WriteSize(m)| + |WriteSize(n)|..] == d;
  }

  // ---- the operations the encoder confines itself to

  // Every operation in d inserts 1 to 127 bytes or copies 1 to 65536.
  ghost predicate AllShort(d: seq<byte>)
    decreases |d|
  {
    d != [] ==> ReadOp(d).Some? && IsShort(ReadOp(d).value.0) && AllShort(ReadOp(d).value.1)
  }

  predicate IsShort(op: Op) {
    match op
    case Copy(off, len) => off < 0x1_0000_0000 && 1 <= len <= 0x1_0000
    case Insert(data) => 1 <= |data| <= 127
  }

  lemma {:induction false} AllShortAppend(d1: seq<byte>, d2: seq<byte>)
    requires AllShort(d1) && AllShort(d2)
    ensures AllShort(d1 + d2)
    decreases |d1|
  {
    hide ReadOp;
    if d1 == [] {
      assert d1 + d2 == d2;
    } else {
      ReadOpIgnoresRest(d1, d2);
      AllShortAppend(ReadOp(d1).value.1, d2);
    }
  }

  lemma ShortCopy(d: seq<byte>, off: nat, len: nat)
    requires AllShort(d) && off < 0x1_0000_0000 && 1 <= len <= 0x1_0000
    ensures AllShort(d + CopyOp(off, len))
  {
    hide ReadOp, CopyOp;
    CopyOpReadsBack(off, len, []);
    assert CopyOp(off, len) + [] == CopyOp(off, len);
    AllShortAppend(d, CopyOp(off, len));
  }

  lemma ShortInsert(d: seq<byte>, data: seq<byte>)
    requires AllShort(d) && 1 <= |data| <= 127
    ensures AllShort(d + InsertOp(data))
  {
    hide ReadOp, InsertOp;
    InsertOpReadsBack(data, []);
    assert InsertOp(data) + [] == InsertOp(data);
    AllShortAppend(d, InsertOp(data));
  }
}
