// The Rabin fingerprint of libgit2/src/delta.c: the step over 32-bit words, the
// fingerprint of a window computed from scratch, and the proof that the rolling
// update with T and U computes the latter.
module Rabin {
  import opened Bytes
  import opened RabinTables

  const RABIN_WINDOW: nat := 16

  // The fingerprint never uses the top bit, so that shifting it right by
  // RABIN_SHIFT == 23 gives an index into T.
  type Hash = v: bv32 | v < 0x80000000

  function Shift(v: bv32, c: bv8): bv32 {
    (v << 8) | (c as bv32)
  }

  // val = ((val << 8) | c) ^ T[val >> RABIN_SHIFT]
  function Step(v: Hash, c: bv8): (r: bv32) {
    Xor(Shift(v, c), T((v >> 23) as bv8))
  }

  lemma StepStaysBelow31Bits(v: Hash, c: bv8)
    ensures Step(v, c) < 0x80000000
  {
    TIsLinear((v >> 23) as bv8);
    StepSumStaysBelow31Bits(v, c);
  }

  // Step with the table replaced by its linear form.
  function StepSum(v: Hash, c: bv8): (r: bv32) {
    Xor(Shift(v, c), TSum((v >> 23) as bv8))
  }

  lemma StepSumStaysBelow31Bits(v: Hash, c: bv8)
    ensures StepSum(v, c) < 0x80000000
  {
    hide Xor, TSum, Shift, Odd;
    var i := (v >> 23) as bv8;
    TopOfShift(v, c);
    TopOfTSum(i);
    TopOfXor(Shift(v, c), TSum(i));
  }

  predicate Top(v: bv32) {
    v >= 0x80000000
  }

  lemma TopOfXor(a: bv32, b: bv32)
    ensures Top(Xor(a, b)) == (Top(a) != Top(b))
  {
  }

  lemma TopOfShift(v: Hash, c: bv8)
    ensures Top(Shift(v, c)) == Odd((v >> 23) as bv8)
  {
  }

  // Of the eight words behind T only the first has the top bit set.
  lemma TopOfTSum(i: bv8)
    ensures Top(TSum(i)) == Odd(i)
  {
    hide Xor, Odd, Top;
    TopOfSum2(i, 0xab59b4d1, 0x56b369a2);
    TopOfSum2(i >> 2, 0x063f6795, 0x0c7ecf2a);
    TopOfSum2(i >> 4, 0x18fd9e54, 0x31fb3ca8);
    TopOfSum2((i >> 4) >> 2, 0x63f67950, 0x6cb54671);
    TopOfConstants();
    TopOfXor(Sum2(i, 0xab59b4d1, 0x56b369a2), Sum2(i >> 2, 0x063f6795, 0x0c7ecf2a));
    TopOfXor(Sum2(i >> 4, 0x18fd9e54, 0x31fb3ca8), Sum2((i >> 4) >> 2, 0x63f67950, 0x6cb54671));
    TopOfXor(Sum4(i, 0xab59b4d1, 0x56b369a2, 0x063f6795, 0x0c7ecf2a),
             Sum4(i >> 4, 0x18fd9e54, 0x31fb3ca8, 0x63f67950, 0x6cb54671));
  }

  lemma TopOfConstants()
    ensures Top(0xab59b4d1) && !Top(0x56b369a2) && !Top(0x063f6795) && !Top(0x0c7ecf2a)
    ensures !Top(0x18fd9e54) && !Top(0x31fb3ca8) && !Top(0x63f67950) && !Top(0x6cb54671)
  {
  }

  lemma TopOfSum2(i: bv8, a: bv32, b: bv32)
    ensures Top(Sum2(i, a, b)) == ((Odd(i) && Top(a)) != (Odd(i >> 1) && Top(b)))
  {
    hide Xor, Odd;
    TopOfXor(Bit(Odd(i), a), Bit(Odd(i >> 1), b));
  }

  function Next(v: Hash, c: bv8): (r: Hash) {
    StepStaysBelow31Bits(v, c);
    Step(v, c)
  }

  // The fingerprint of a run of bytes, from scratch.
  function WindowHash(w: seq<byte>): Hash {
    if w == [] then 0 else Next(WindowHash(w[..|w| - 1]), w[|w| - 1] as bv8)
  }

  // n zero bytes shifted into v.
  ghost function Zeros(v: Hash, n: nat): Hash {
    if n == 0 then v else Next(Zeros(v, n - 1), 0)
  }

  // ---- linearity

  lemma XorCommutes(a: bv32, b: bv32)
    ensures Xor(a, b) == Xor(b, a)
  {
    assert a ^ b == b ^ a;
  }

  lemma XorZero(a: bv32)
    ensures Xor(a, 0) == a
  {
    assert a ^ 0 == a;
  }

  lemma XorAssociates(a: bv32, b: bv32, c: bv32)
    ensures Xor(Xor(a, b), c) == Xor(a, Xor(b, c))
  {
    assert (a ^ b) ^ c == a ^ (b ^ c);
  }

  lemma XorCancels(a: bv32, b: bv32)
    ensures Xor(Xor(a, b), a) == b
  {
    assert (a ^ b) ^ a == b;
  }

  lemma XorSwap(a: bv32, b: bv32, c: bv32, d: bv32)
    ensures Xor(Xor(a, b), Xor(c, d)) == Xor(Xor(a, c), Xor(b, d))
  {
    XorAssociates(a, b, Xor(c, d));
    XorAssociates(b, c, d);
    XorCommutes(b, c);
    XorAssociates(c, b, d);
    XorAssociates(a, c, Xor(b, d));
  }

  lemma BitIsLinear(b: bool, c: bool, v: bv32)
    ensures Bit(b != c, v) == Xor(Bit(b, v), Bit(c, v))
  {
    if b {
      if c {} else {}
    } else {
      if c {} else {}
    }
  }

  lemma OddIsLinear(i: bv8, j: bv8)
    ensures Odd(i ^ j) == (Odd(i) != Odd(j))
    ensures (i ^ j) >> 1 == (i >> 1) ^ (j >> 1)
    ensures (i ^ j) >> 2 == (i >> 2) ^ (j >> 2)
    ensures (i ^ j) >> 4 == (i >> 4) ^ (j >> 4)
  {
  }

  lemma Sum2IsLinear(i: bv8, j: bv8, a: bv32, b: bv32)
    ensures Sum2(i ^ j, a, b) == Xor(Sum2(i, a, b), Sum2(j, a, b))
  {
    OddIsLinear(i, j);
    OddIsLinear(i >> 1, j >> 1);
    BitIsLinear(Odd(i), Odd(j), a);
    BitIsLinear(Odd(i >> 1), Odd(j >> 1), b);
    XorSwap(Bit(Odd(i), a), Bit(Odd(j), a), Bit(Odd(i >> 1), b), Bit(Odd(j >> 1), b));
  }

  lemma Sum4IsLinear(i: bv8, j: bv8, a: bv32, b: bv32, c: bv32, d: bv32)
    ensures Sum4(i ^ j, a, b, c, d) == Xor(Sum4(i, a, b, c, d), Sum4(j, a, b, c, d))
  {
    OddIsLinear(i, j);
    Sum2IsLinear(i, j, a, b);
    Sum2IsLinear(i >> 2, j >> 2, c, d);
    XorSwap(Sum2(i, a, b), Sum2(j, a, b), Sum2(i >> 2, c, d), Sum2(j >> 2, c, d));
  }

  lemma Sum8IsLinear(i: bv8, j: bv8, a0: bv32, a1: bv32, a2: bv32, a3: bv32,
                     a4: bv32, a5: bv32, a6: bv32, a7: bv32)
    ensures Sum8(i ^ j, a0, a1, a2, a3, a4, a5, a6, a7)
         == Xor(Sum8(i, a0, a1, a2, a3, a4, a5, a6, a7), Sum8(j, a0, a1, a2, a3, a4, a5, a6, a7))
  {
    OddIsLinear(i, j);
    Sum4IsLinear(i, j, a0, a1, a2, a3);
    Sum4IsLinear(i >> 4, j >> 4, a4, a5, a6, a7);
    XorSwap(Sum4(i, a0, a1, a2, a3), Sum4(j, a0, a1, a2, a3),
            Sum4(i >> 4, a4, a5, a6, a7), Sum4(j >> 4, a4, a5, a6, a7));
  }

  lemma TSumIsLinear(i: bv8, j: bv8)
    ensures TSum(i ^ j) == Xor(TSum(i), TSum(j))
  {
    Sum8IsLinear(i, j, 0xab59b4d1, 0x56b369a2, 0x063f6795, 0x0c7ecf2a,
                       0x18fd9e54, 0x31fb3ca8, 0x63f67950, 0x6cb54671);
  }

  lemma ShiftIsLinear(v: Hash, w: Hash, c: bv8, d: bv8)
    ensures Xor(v, w) < 0x80000000
    ensures Shift(Xor(v, w), c ^ d) == Xor(Shift(v, c), Shift(w, d))
    ensures (Xor(v, w) >> 23) as bv8 == ((v >> 23) as bv8) ^ ((w >> 23) as bv8)
  {
  }

  lemma StepIsLinear(v: Hash, w: Hash, c: bv8, d: bv8)
    ensures Xor(v, w) < 0x80000000
    ensures Step(Xor(v, w), c ^ d) == Xor(Step(v, c), Step(w, d))
  {
    hide T;
    ShiftIsLinear(v, w, c, d);
    var i, j := (v >> 23) as bv8, (w >> 23) as bv8;
    TIsLinear(i);
    TIsLinear(j);
    TIsLinear(i ^ j);
    TSumIsLinear(i, j);
    XorSwap(Shift(v, c), Shift(w, d), TSum(i), TSum(j));
  }

  // ---- the rolling update

  lemma NextIsLinear(v: Hash, w: Hash, c: bv8, d: bv8)
    ensures Xor(v, w) < 0x80000000
    ensures Next(Xor(v, w), c ^ d) == Xor(Next(v, c), Next(w, d))
  {
    StepIsLinear(v, w, c, d);
  }

  lemma {:induction false} ZerosIsLinear(v: Hash, w: Hash, n: nat)
    ensures Xor(v, w) < 0x80000000
    ensures Zeros(Xor(v, w), n) == Xor(Zeros(v, n), Zeros(w, n))
  {
    hide Next, T;
    ShiftIsLinear(v, w, 0, 0);
    if n > 0 {
      ZerosIsLinear(v, w, n - 1);
      NextIsLinear(Zeros(v, n - 1), Zeros(w, n - 1), 0, 0);
    }
  }

  // A byte at the front of a run contributes itself followed by zeros.
  lemma {:induction false} FrontByte(a: byte, s: seq<byte>)
    ensures WindowHash([a] + s) == Xor(Zeros((a as bv8) as bv32, |s|), WindowHash(s))
  {
    hide Next, T, Xor;
    if s == [] {
      assert [a] + s == [a];
      FirstByte(a);
      XorZero((a as bv8) as bv32);
    } else {
      var t, c := s[..|s| - 1], s[|s| - 1] as bv8;
      assert ([a] + s)[..|s|] == [a] + t;
      FrontByte(a, t);
      NextIsLinear(Zeros((a as bv8) as bv32, |t|), WindowHash(t), 0, c);
      assert 0 ^ c == c;
    }
  }

  lemma FirstByte(a: byte)
    ensures WindowHash([a]) == (a as bv8) as bv32
  {
    hide T;
    var c := a as bv8;
    TIsLinear(0);
    assert [a][..0] == [];
    assert Shift(0, c) == c as bv32;
    assert TSum(0) == 0;
    assert (c as bv32) ^ 0 == c as bv32;
  }

  // ---- the table U is what fifteen zero bytes leave of each byte

  // One zero byte, over the linear form of the table.
  function OneZero(v: bv32): bv32 {
    Xor(Shift(v, 0), TSum(((v >> 23) & 0xff) as bv8))
  }

  function FifteenZeros(v: bv32): bv32 {
    FiveZeros(FiveZeros(FiveZeros(v)))
  }

  function FiveZeros(v: bv32): bv32 {
    OneZero(OneZero(OneZero(OneZero(OneZero(v)))))
  }

  lemma OneZeroIsNext(v: Hash)
    ensures OneZero(v) == Next(v, 0)
  {
    TIsLinear((v >> 23) as bv8);
    assert (v >> 23) & 0xff == v >> 23;
  }

  lemma FiveZerosAreZeros(v: Hash, n: nat)
    ensures FiveZeros(Zeros(v, n)) == Zeros(v, n + 5)
  {
    hide OneZero, Next;
    OneZeroIsNext(Zeros(v, n));
    OneZeroIsNext(Zeros(v, n + 1));
    OneZeroIsNext(Zeros(v, n + 2));
    OneZeroIsNext(Zeros(v, n + 3));
    OneZeroIsNext(Zeros(v, n + 4));
  }

  lemma FifteenZerosAreZeros(v: Hash)
    ensures FifteenZeros(v) == Zeros(v, 15)
  {
    hide FiveZeros, Next;
    FiveZerosAreZeros(v, 0);
    FiveZerosAreZeros(v, 5);
    FiveZerosAreZeros(v, 10);
  }

  lemma Basis0()
    ensures FifteenZeros(0x01) == 0x7eb5200d
  {
    assert FiveZeros(0x01) == 0x4f3fc4b7;
    assert FiveZeros(0x4f3fc4b7) == 0x5bcd14dc;
  }

  lemma Basis1()
    ensures FifteenZeros(0x02) == 0x5633f4cb
  {
    assert FiveZeros(0x02) == 0x35263dbf;
    assert FiveZeros(0x35263dbf) == 0x1cc39d69;
  }

  lemma Basis2()
    ensures FifteenZeros(0x04) == 0x073e5d47
  {
    assert FiveZeros(0x04) == 0x6a4c7b7e;
    assert FiveZeros(0x6a4c7b7e) == 0x39873ad2;
  }

  lemma Basis3()
    ensures FifteenZeros(0x08) == 0x0e7cba8e
  {
    assert FiveZeros(0x08) == 0x7fc1422d;
    assert FiveZeros(0x7fc1422d) == 0x730e75a4;
  }

  lemma Basis4()
    ensures FifteenZeros(0x10) == 0x1cf9751c
  {
    assert FiveZeros(0x10) == 0x54db308b;
    assert FiveZeros(0x54db308b) == 0x4d455f99;
  }

  lemma Basis5()
    ensures FifteenZeros(0x20) == 0x39f2ea38
  {
    assert FiveZeros(0x20) == 0x02efd5c7;
    assert FiveZeros(0x02efd5c7) == 0x31d30be3;
  }

  lemma Basis6()
    ensures FifteenZeros(0x40) == 0x73e5d470
  {
    assert FiveZeros(0x40) == 0x05dfab8e;
    assert FiveZeros(0x05dfab8e) == 0x63a617c6;
  }

  lemma Basis7()
    ensures FifteenZeros(0x80) == 0x4c921c31
  {
    assert FiveZeros(0x80) == 0x0bbf571c;
    assert FiveZeros(0x0bbf571c) == 0x6c159b5d;
  }

  lemma {:induction false} ZerosOfZero(n: nat)
    ensures Zeros(0, n) == 0
  {
    hide Next;
    if n > 0 {
      ZerosOfZero(n - 1);
      NextOfZero();
    }
  }

  lemma NextOfZero()
    ensures Next(0, 0) == 0
  {
    hide Next;
    assert OneZero(0) == 0;
    OneZeroIsNext(0);
  }

  lemma ZerosOfBit(b: bool, a: Hash)
    ensures Bit(b, a) < 0x80000000
    ensures Zeros(Bit(b, a), 15) == Bit(b, Zeros(a, 15))
  {
    hide Next;
    if !b {
      ZerosOfZero(15);
    }
  }

  lemma ZerosOfSum2(i: bv8, a: Hash, b: Hash)
    ensures Sum2(i, a, b) < 0x80000000
    ensures Zeros(Sum2(i, a, b), 15) == Sum2(i, Zeros(a, 15), Zeros(b, 15))
  {
    hide Next, Bit, Odd, Xor;
    ZerosOfBit(Odd(i), a);
    ZerosOfBit(Odd(i >> 1), b);
    ZerosIsLinear(Bit(Odd(i), a), Bit(Odd(i >> 1), b), 15);
  }

  lemma ZerosOfSum4(i: bv8, a: Hash, b: Hash, c: Hash, d: Hash)
    ensures Sum4(i, a, b, c, d) < 0x80000000
    ensures Zeros(Sum4(i, a, b, c, d), 15) == Sum4(i, Zeros(a, 15), Zeros(b, 15), Zeros(c, 15), Zeros(d, 15))
  {
    hide Next, Sum2, Xor;
    ZerosOfSum2(i, a, b);
    ZerosOfSum2(i >> 2, c, d);
    ZerosIsLinear(Sum2(i, a, b), Sum2(i >> 2, c, d), 15);
  }

  lemma ByteIsSum(c: bv8)
    ensures c as bv32 == Sum8(c, 1, 2, 4, 8, 16, 32, 64, 128)
  {
  }

  // Fifteen zero bytes after the byte c leave U[c].
  lemma FifteenZerosAreU(c: bv8)
    ensures Zeros(c as bv32, 15) == U(c)
  {
    hide Next, T, U, Sum4, Xor, FifteenZeros;
    ByteIsSum(c);
    ZerosOfSum4(c, 1, 2, 4, 8);
    ZerosOfSum4(c >> 4, 16, 32, 64, 128);
    ZerosIsLinear(Sum4(c, 1, 2, 4, 8), Sum4(c >> 4, 16, 32, 64, 128), 15);
    FifteenZerosAreZeros(1);
    FifteenZerosAreZeros(2);
    FifteenZerosAreZeros(4);
    FifteenZerosAreZeros(8);
    FifteenZerosAreZeros(16);
    FifteenZerosAreZeros(32);
    FifteenZerosAreZeros(64);
    FifteenZerosAreZeros(128);
    Basis0();
    Basis1();
    Basis2();
    Basis3();
    Basis4();
    Basis5();
    Basis6();
    Basis7();
    UIsLinear(c);
  }

  // One step of the rolling update of the source on a window of sixteen bytes
  // w[..16], when the byte w[16] comes in: the oldest byte is cancelled through
  // U and the new one is shifted in through T.
  function Roll(val: Hash, oldest: byte, newest: byte): Hash {
    UStaysBelow31Bits(oldest as bv8);
    ShiftIsLinear(val, U(oldest as bv8), 0, 0);
    Next(Xor(val, U(oldest as bv8)), newest as bv8)
  }

  lemma UStaysBelow31Bits(c: bv8)
    ensures U(c) < 0x80000000
  {
    hide Next, U;
    FifteenZerosAreU(c);
  }

  // The rolling update refines the fingerprint from scratch.
  lemma RollIsWindowHash(w: seq<byte>)
    requires |w| == RABIN_WINDOW + 1
    ensures Roll(WindowHash(w[..16]), w[0], w[16]) == WindowHash(w[1..])
  {
    hide Next, U, Xor;
    var c := w[0] as bv8;
    assert w[..16] == [w[0]] + w[1..16];
    FrontByte(w[0], w[1..16]);
    FifteenZerosAreU(c);
    XorCancels(U(c), WindowHash(w[1..16]));
    assert w[1..][..15] == w[1..16];
  }

  // The loop of the source that fingerprints the sixteen bytes from position from on.
  method Fingerprint(buf: seq<byte>, from: nat) returns (val: Hash)
    requires from + RABIN_WINDOW <= |buf|
    ensures val == WindowHash(buf[from..from + RABIN_WINDOW])
  {
    hide Next;
    val := 0;
    for j := 0 to RABIN_WINDOW
      invariant val == WindowHash(buf[from..from + j])
    {
      val := Next(val, buf[from + j] as bv8);
      assert buf[from..from + j + 1][..j] == buf[from..from + j];
    }
  }
}
