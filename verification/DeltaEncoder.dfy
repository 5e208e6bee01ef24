// git_delta_create_from_index of libgit2/src/delta.c: the greedy encoder. The local
// variables of the C function are the fields of Encoder, the parts of its loop body
// the methods.
module DeltaEncoder {
  import opened Bytes
  import opened Options
  import opened Rabin
  import opened DeltaFormat
  import opened DeltaIndexes

  const MAX_OP_SIZE: nat := 5 + 5 + 1 + RABIN_WINDOW + 7

  // ---- what the output holds at every point, over values

  // The base and the target agree for n bytes at the two positions.
  ghost predicate Match(base: seq<byte>, trg: seq<byte>, moff: nat, data: nat, n: nat) {
    moff + n <= |base| && data + n <= |trg| && base[moff..moff + n] == trg[data..data + n]
  }

  // e is what follows the header: operations that write trg[..data - inscnt], and then,
  // if inscnt is positive, the count slot and the bytes of the pending insert.
  ghost predicate Encoded(base: seq<byte>, trg: seq<byte>, e: seq<byte>, data: nat, inscnt: nat) {
    && inscnt <= data <= |trg| && inscnt < 0x7f
    && Pending(inscnt) <= |e| && |Done(e, inscnt)| <= 2 * (data - inscnt)
    && Run(base, Done(e, inscnt)) == Some(trg[..data - inscnt])
    && AllShort(Done(e, inscnt))
    && (inscnt > 0 ==> e[|e| - inscnt..] == trg[data - inscnt..data])
  }

  function Pending(inscnt: nat): nat {
    if inscnt > 0 then inscnt + 1 else 0
  }

  ghost function Done(e: seq<byte>, inscnt: nat): seq<byte>
    requires Pending(inscnt) <= |e|
  {
    e[..|e| - Pending(inscnt)]
  }

  lemma EncodedBounds(base: seq<byte>, trg: seq<byte>, e: seq<byte>, data: nat, inscnt: nat)
    requires Encoded(base, trg, e, data, inscnt)
    ensures Pending(inscnt) <= |e| <= 2 * data && inscnt <= data <= |trg| && inscnt < 0x7f
  {
  }

  lemma NextByte(trg: seq<byte>, d: nat)
    requires d <= |trg|
    ensures d == 0 ==> WindowHash(trg[..d]) == 0
    ensures d < |trg| ==> WindowHash(trg[..d + 1]) == Next(WindowHash(trg[..d]), trg[d] as bv8)
    ensures d < |trg| ==> trg[..d + 1] == trg[..d] + [trg[d]]
  {
    hide Next;
    if d < |trg| {
      assert trg[..d + 1][..d] == trg[..d];
    }
  }

  lemma FirstEncoded(base: seq<byte>, trg: seq<byte>, e: seq<byte>, n: nat)
    requires 0 < n <= |trg| && n < 0x7f && |e| == n + 1 && e[1..] == trg[..n]
    ensures Encoded(base, trg, e, n, n)
  {
    assert Done(e, n) == [] == trg[..n - n];
    assert trg[n - n..n] == trg[..n];
  }

  // Writing the count into its slot completes the pending insert.
  lemma FlushKeeps(base: seq<byte>, trg: seq<byte>, e: seq<byte>, data: nat, inscnt: nat)
    requires 0 < inscnt <= 0x7f && inscnt <= data <= |trg| && inscnt + 1 <= |e| && |Done(e, inscnt)| <= 2 * (data - inscnt)
    requires Run(base, Done(e, inscnt)) == Some(trg[..data - inscnt])
    requires AllShort(Done(e, inscnt))
    requires e[|e| - inscnt..] == trg[data - inscnt..data]
    ensures Encoded(base, trg, e[|e| - inscnt - 1 := inscnt as byte], data, 0)
  {
    hide Run, AllShort;
    var d, ins := Done(e, inscnt), trg[data - inscnt..data];
    var e' := e[|e| - inscnt - 1 := inscnt as byte];
    assert e' == d + InsertOp(ins);
    RunInsert(base, d, ins);
    ShortInsert(d, ins);
    assert trg[..data - inscnt] + ins == trg[..data];
    assert Done(e', 0) == e';
  }

  lemma FlushPending(base: seq<byte>, trg: seq<byte>, e: seq<byte>, data: nat, inscnt: nat)
    requires Encoded(base, trg, e, data, inscnt) && inscnt > 0
    ensures Encoded(base, trg, e[|e| - inscnt - 1 := inscnt as byte], data, 0)
  {
    FlushKeeps(base, trg, e, data, inscnt);
  }

  lemma LiteralKeeps(base: seq<byte>, trg: seq<byte>, e: seq<byte>, data: nat, inscnt: nat, slot: byte)
    requires Encoded(base, trg, e, data, inscnt) && data < |trg|
    ensures var e' := (if inscnt == 0 then e + [slot] else e) + [trg[data]];
      if inscnt + 1 < 0x7f then Encoded(base, trg, e', data + 1, inscnt + 1)
      else Encoded(base, trg, e'[|e'| - 0x80 := 0x7f], data + 1, 0)
  {
    hide Run, AllShort;
    var e' := (if inscnt == 0 then e + [slot] else e) + [trg[data]];
    assert Done(e', inscnt + 1) == Done(e, inscnt);
    assert trg[data - inscnt..data + 1] == trg[data - inscnt..data] + [trg[data]];
    if inscnt > 0 {
      assert e'[|e'| - (inscnt + 1)..] == e[|e| - inscnt..] + [trg[data]];
    }
    assert data + 1 - (inscnt + 1) == data - inscnt;
    if inscnt + 1 == 0x7f {
      FlushKeeps(base, trg, e', data + 1, inscnt + 1);
    }
  }

  // Taking the last pending byte back, and the count slot with the last of them.
  lemma BackKeeps(base: seq<byte>, trg: seq<byte>, e: seq<byte>, data: nat, inscnt: nat)
    requires Encoded(base, trg, e, data, inscnt) && inscnt > 0
    ensures Encoded(base, trg, e[..|e| - (if inscnt == 1 then 2 else 1)], data - 1, inscnt - 1)
  {
    hide Run, AllShort;
    var e' := e[..|e| - (if inscnt == 1 then 2 else 1)];
    assert Done(e', inscnt - 1) == Done(e, inscnt);
    if inscnt > 1 {
      assert e'[|e'| - (inscnt - 1)..] == e[|e| - inscnt..][..inscnt - 1];
      assert trg[data - inscnt..data - 1] == trg[data - inscnt..data][..inscnt - 1];
    }
  }

  lemma CopyKeeps(base: seq<byte>, trg: seq<byte>, e: seq<byte>, data: nat, moff: nat, n: nat)
    requires Encoded(base, trg, e, data, 0) && Match(base, trg, moff, data, n)
    requires moff < 0x1_0000_0000 && 4 <= n <= 0x1_0000
    ensures Encoded(base, trg, e + CopyOp(moff, n), data + n, 0)
  {
    hide Run, AllShort, CopyOp;
    assert Done(e, 0) == e;
    RunCopy(base, e, moff, n);
    ShortCopy(e, moff, n);
    assert trg[..data] + trg[data..data + n] == trg[..data + n];
    assert Done(e + CopyOp(moff, n), 0) == e + CopyOp(moff, n);
  }

  lemma MatchGrows(base: seq<byte>, trg: seq<byte>, moff: nat, data: nat, n: nat)
    requires Match(base, trg, moff, data, n) && moff + n < |base| && data + n < |trg|
    requires base[moff + n] == trg[data + n]
    ensures Match(base, trg, moff, data, n + 1)
  {
    assert base[moff..moff + n + 1] == base[moff..moff + n] + [base[moff + n]];
    assert trg[data..data + n + 1] == trg[data..data + n] + [trg[data + n]];
  }

  // ---- the search

  lemma MatchShrinks(base: seq<byte>, trg: seq<byte>, moff: nat, data: nat, m: nat, n: nat)
    requires m <= n && Match(base, trg, moff, data, n)
    ensures Match(base, trg, moff, data, m)
  {
    assert base[moff..moff + m] == base[moff..moff + n][..m];
    assert trg[data..data + m] == trg[data..data + n][..m];
  }

  // No entry of c[..upto] with this fingerprint has a match of more than n bytes.
  ghost predicate NoLonger(src: seq<byte>, ptr: seq<nat>, vals: seq<Hash>, c: seq<int>, upto: nat,
                           trg: seq<byte>, data: nat, val: Hash, n: nat)
  {
    forall j :: 0 <= j < upto <= |c| && 0 <= c[j] < |vals| && c[j] < |ptr| && vals[c[j]] == val ==>
      !Match(src, trg, ptr[c[j]], data, n + 1)
  }

  lemma NoLongerThanMore(src: seq<byte>, ptr: seq<nat>, vals: seq<Hash>, c: seq<int>, upto: nat,
                         trg: seq<byte>, data: nat, val: Hash, m: nat, n: nat)
    requires NoLonger(src, ptr, vals, c, upto, trg, data, val, m) && m <= n
    ensures NoLonger(src, ptr, vals, c, upto, trg, data, val, n)
  {
    hide Match;
    forall j | 0 <= j < upto <= |c| && 0 <= c[j] < |vals| && c[j] < |ptr| && vals[c[j]] == val
      ensures !Match(src, trg, ptr[c[j]], data, n + 1)
    {
      if Match(src, trg, ptr[c[j]], data, n + 1) {
        MatchShrinks(src, trg, ptr[c[j]], data, m + 1, n + 1);
      }
    }
  }

  // A match that ends at a difference or at the end of a buffer is as long as it gets.
  lemma MatchEnds(base: seq<byte>, trg: seq<byte>, ref: nat, data: nat, n: nat, m: nat)
    requires n <= m && data + n <= |trg| && ref + n <= |base|
    requires data + n == |trg| || ref + n == |base| || trg[data + n] != base[ref + n]
    ensures !Match(base, trg, ref, data, m + 1)
  {
    if ref + m < |base| && data + m < |trg| {
      assert base[ref..ref + m + 1][n] == base[ref + n];
      assert trg[data..data + m + 1][n] == trg[data + n];
    }
  }

  lemma MatchBack(base: seq<byte>, trg: seq<byte>, moff: nat, data: nat, n: nat)
    requires Match(base, trg, moff, data, n) && moff > 0 && data > 0 && base[moff - 1] == trg[data - 1]
    ensures Match(base, trg, moff - 1, data - 1, n + 1)
  {
    assert base[moff - 1..moff + n] == [base[moff - 1]] + base[moff..moff + n];
    assert trg[data - 1..data + n] == [trg[data - 1]] + trg[data..data + n];
  }

  lemma MatchSplit(base: seq<byte>, trg: seq<byte>, moff: nat, data: nat, n: nat, left: nat)
    requires Match(base, trg, moff, data, n + left)
    ensures Match(base, trg, moff, data, n) && Match(base, trg, moff + n, data + n, left)
  {
    MatchShrinks(base, trg, moff, data, n, n + left);
    assert base[moff + n..moff + n + left] == base[moff..moff + n + left][n..];
    assert trg[data + n..data + n + left] == trg[data..data + n + left][n..];
  }

  lemma NoMatch(base: seq<byte>, trg: seq<byte>, moff: nat, data: nat, n: nat)
    requires Match(base, trg, moff, data, n)
    ensures moff <= |base|
    ensures data < |trg| ==> Match(base, trg, moff, data + 1, 0)
  {
  }

  method MatchLength(base: seq<byte>, trg: seq<byte>, ref: nat, data: nat, limit: nat) returns (n: nat)
    requires ref + limit <= |base| && data + limit <= |trg|
    ensures n <= limit && Match(base, trg, ref, data, n)
    ensures n == limit || trg[data + n] != base[ref + n]
  {
    n := 0;
    while n < limit && trg[data + n] == base[ref + n]
      invariant n <= limit && Match(base, trg, ref, data, n)
    {
      MatchGrows(base, trg, ref, data, n);
      n := n + 1;
    }
  }

  // The loop over the chain of a bucket. It returns a match at least as long as the one
  // given and, unless that reaches 4096 bytes, the longest at any entry of the chain
  // that has the fingerprint looked for. (It stops where too little of the base is left
  // after an entry; later entries have less.)
  method Search(index: DeltaIndex, trg: seq<byte>, data: nat, val: Hash, moff0: nat, msize0: nat)
    returns (moff: nat, msize: nat)
    requires index.Valid() && data < |trg| && Match(index.src, trg, moff0, data, msize0)
    requires |index.src| < 0x1_0000_0000 && |trg| < 0x1_0000_0000
    ensures Match(index.src, trg, moff, data, msize) && msize >= msize0
    ensures index.used == 0 ==> moff == moff0 && msize == msize0
    ensures msize < 4096 ==>
      var c := index.chains[Bucket(val, index.hash.Length)];
      NoLonger(index.src, index.ptr[..], index.val[..], c, |c|, trg, data, val, msize)
  {
    hide IsChain, WindowHash, Bucket, IsTable, Match, NoLonger;
    moff, msize := moff0, msize0;
    var b := Bucket(val, index.hash.Length);
    var entry := index.hash[b];
    ghost var c, pos := index.chains[b], 0;
    ghost var ptr, vals := index.ptr[..], index.val[..];
    index.OnChain(b, 0);
    NoneOfNone(index.src, ptr, vals, c, trg, data, val, msize);
    while entry >= 0
      invariant pos <= |c| && entry == (if pos == |c| then -1 else c[pos]) && entry < index.used && (pos < |c| ==> entry >= 0)
      invariant Match(index.src, trg, moff, data, msize) && msize >= msize0
      invariant NoLonger(index.src, ptr, vals, c, pos, trg, data, val, msize)
      invariant index.used == 0 ==> moff == moff0 && msize == msize0
      decreases |c| - pos
    {
      index.OnChain(b, pos);
      var ref := index.ptr[entry];
      var refSize := |index.src| - ref;
      if index.val[entry] == val {
        if refSize > |trg| - data {
          refSize := |trg| - data;
        }
        if refSize <= msize {
          RestTooFar(index, b, pos, trg, data, val, msize);
          break;
        }
        var n := MatchLength(index.src, trg, ref, data, refSize);
        ghost var most := if n < msize then msize else n;
        MatchEnds(index.src, trg, ref, data, n, most);
        NoLongerThanMore(index.src, ptr, vals, c, pos, trg, data, val, msize, most);
        if msize < n {
          msize, moff := n, ref;
          if msize >= 4096 {
            break;
          }
        }
      }
      OneMore(index.src, ptr, vals, c, pos, trg, data, val, msize);
      entry := index.next[entry];
      pos := pos + 1;
    }
  }

  // No entry that the fingerprint of the window ending at d leads to has a longer match.
  ghost predicate LongestAt(index: DeltaIndex, trg: seq<byte>, d: nat, n: nat)
    requires index.Valid() && RABIN_WINDOW <= d < |trg|
    reads index, index.hash, index.ptr, index.val, index.next
  {
    var val := WindowHash(trg[d - 15..d + 1]);
    var c := index.chains[Bucket(val, index.hash.Length)];
    NoLonger(index.src, index.ptr[..], index.val[..], c, |c|, trg, d, val, n)
  }

  lemma NoneOfNone(src: seq<byte>, ptr: seq<nat>, vals: seq<Hash>, c: seq<int>, trg: seq<byte>, data: nat, val: Hash, n: nat)
    ensures NoLonger(src, ptr, vals, c, 0, trg, data, val, n)
  {
  }

  lemma OneMore(src: seq<byte>, ptr: seq<nat>, vals: seq<Hash>, c: seq<int>, upto: nat,
                trg: seq<byte>, data: nat, val: Hash, n: nat)
    requires upto < |c| && 0 <= c[upto] < |vals| == |ptr|
    requires NoLonger(src, ptr, vals, c, upto, trg, data, val, n)
    requires vals[c[upto]] == val ==> !Match(src, trg, ptr[c[upto]], data, n + 1)
    ensures NoLonger(src, ptr, vals, c, upto + 1, trg, data, val, n)
  {
    hide Match;
  }

  // Where too little of the base is left after an entry, less is left after later ones.
  lemma RestTooFar(index: DeltaIndex, b: nat, pos: nat, trg: seq<byte>, data: nat, val: Hash, n: nat)
    requires index.Valid() && b < index.hash.Length && pos < |index.chains[b]| && data <= |trg|
    requires var e := index.chains[b][pos]; 0 <= e < index.ptr.Length && (index.ptr[e] + n >= |index.src| || data + n >= |trg|)
    requires NoLonger(index.src, index.ptr[..], index.val[..], index.chains[b], pos, trg, data, val, n)
    ensures NoLonger(index.src, index.ptr[..], index.val[..], index.chains[b], |index.chains[b]|, trg, data, val, n)
  {
    hide IsTable;
    var c := index.chains[b];
    forall j | pos <= j < |c| && 0 <= c[j] < index.ptr.Length
      ensures !Match(index.src, trg, index.ptr[c[j]], data, n + 1)
    {
      if pos < j {
        index.ChainOrder(b, pos, j);
      }
    }
  }

  // ---- the encoder

  datatype Outcome =
    | Nothing               // no target: success without a delta
    | Delta(bytes: seq<byte>)
    | TooLong               // GIT_EBUFS: the delta would exceed the maximum size
    | SizeWraps             // the 32-bit computation of the next buffer size overflows

  datatype Growth = Grown | Stop | Overflow

  // Without a limit the buffer has one of these sizes: 8192 bytes and then half as many
  // again each time. The thirtieth step is the last: three times its size needs 33 bits.
  function SizeAt(k: nat): nat {
    if k == 0 then 8192 else SizeAt(k - 1) * 3 / 2
  }

  const LAST_SIZE: nat := 1_570_824_171

  ghost predicate Scheduled(size: nat) {
    exists k :: 0 <= k <= 30 && size == SizeAt(k)
  }

  lemma SizeAtLast()
    ensures SizeAt(29) == 1_047_216_114 && SizeAt(30) == LAST_SIZE
  {
    hide SizeAt;
    SizeAtFirst();
    NextSizeAt(0, 8_192); NextSizeAt(1, 12_288); NextSizeAt(2, 18_432);
    NextSizeAt(3, 27_648); NextSizeAt(4, 41_472); NextSizeAt(5, 62_208);
    NextSizeAt(6, 93_312); NextSizeAt(7, 139_968); NextSizeAt(8, 209_952);
    NextSizeAt(9, 314_928); NextSizeAt(10, 472_392); NextSizeAt(11, 708_588);
    NextSizeAt(12, 1_062_882); NextSizeAt(13, 1_594_323); NextSizeAt(14, 2_391_484);
    NextSizeAt(15, 3_587_226); NextSizeAt(16, 5_380_839); NextSizeAt(17, 8_071_258);
    NextSizeAt(18, 12_106_887); NextSizeAt(19, 18_160_330); NextSizeAt(20, 27_240_495);
    NextSizeAt(21, 40_860_742); NextSizeAt(22, 61_291_113); NextSizeAt(23, 91_936_669);
    NextSizeAt(24, 137_905_003); NextSizeAt(25, 206_857_504); NextSizeAt(26, 310_286_256);
    NextSizeAt(27, 465_429_384); NextSizeAt(28, 698_144_076); NextSizeAt(29, 1_047_216_114);
  }

  lemma SizeAtFirst()
    ensures SizeAt(0) == 8192
  {
  }

  lemma NextSizeAt(k: nat, size: nat)
    requires SizeAt(k) == size
    ensures SizeAt(k + 1) == size * 3 / 2
  {
  }

  lemma {:induction false} SizesGrow(j: nat, k: nat)
    requires j <= k
    ensures 8192 <= SizeAt(j) <= SizeAt(k)
  {
    if j < k {
      SizesGrow(j, k - 1);
    } else if j > 0 {
      SizesGrow(j - 1, j - 1);
    }
  }

  // The product wraps at the last of the sizes only.
  lemma ScheduledFacts(size: nat)
    requires Scheduled(size)
    ensures 8192 <= size <= LAST_SIZE
    ensures size * 3 < 0x1_0000_0000 <==> size != LAST_SIZE
    ensures size * 3 < 0x1_0000_0000 ==> Scheduled(size * 3 / 2)
  {
    var k :| 0 <= k <= 30 && size == SizeAt(k);
    SizeAtLast();
    SizesGrow(k, 30);
    if k < 30 {
      SizesGrow(k, 29);
      assert size * 3 / 2 == SizeAt(k + 1);
    }
  }

  // The sizes there are with a limit: it ends the schedule.
  ghost predicate OnSchedule(size: nat, maxSize: nat) {
    (Scheduled(size) && (maxSize > 0 ==> size < maxSize)) || (size == maxSize + MAX_OP_SIZE + 1 && 0 < maxSize <= LAST_SIZE)
  }

  lemma OnScheduleFacts(size: nat, maxSize: nat)
    requires OnSchedule(size, maxSize)
    ensures 36 <= size < 0x8000_0000
    ensures maxSize == 0 || maxSize > LAST_SIZE ==> 8192 <= size <= LAST_SIZE
  {
    if Scheduled(size) {
      ScheduledFacts(size);
    }
  }

  // The next size of the buffer, in 32-bit arithmetic.
  function NextSize(size: nat, maxSize: nat): nat {
    var bufsize := size * 3 % 0x1_0000_0000 / 2;
    if maxSize > 0 && bufsize >= maxSize then (maxSize + MAX_OP_SIZE + 1) % 0x1_0000_0000 else bufsize
  }

  lemma NextSizeIsEnough(size: nat, bufpos: nat, maxSize: nat)
    requires OnSchedule(size, maxSize) && size - MAX_OP_SIZE <= bufpos <= size && !(0 < maxSize < bufpos)
    ensures size * 3 >= 0x1_0000_0000 ==> size == LAST_SIZE && (maxSize == 0 || maxSize > LAST_SIZE)
    ensures size * 3 < 0x1_0000_0000 ==>
      var next := NextSize(size, maxSize); OnSchedule(next, maxSize) && bufpos + MAX_OP_SIZE < next
  {
    hide Scheduled, SizeAt;
    if Scheduled(size) {
      ScheduledFacts(size);
      if size * 3 < 0x1_0000_0000 {
        ScheduledFacts(size * 3 / 2);
      }
    }
  }

  class Encoder {
    const base: seq<byte>
    const trg: seq<byte>
    const maxSize: nat
    var buf: array<byte>
    var bufpos: nat
    var data: nat
    var inscnt: nat
    var moff: nat
    var msize: nat
    var val: Hash
    ghost var header: nat

    // The buffer of the source, and the two sizes at its front.
    constructor (base: seq<byte>, trg: seq<byte>, maxSize: nat)
      requires |base| < 0x1_0000_0000 && 0 < |trg| < 0x1_0000_0000
      ensures this.base == base && this.trg == trg && this.maxSize == maxSize && fresh(buf)
      ensures header == bufpos <= 10 && data == inscnt == moff == msize == 0 && val == 0
      ensures OnSchedule(buf.Length, maxSize) && bufpos <= buf.Length
      ensures buf[..bufpos] == WriteSize(|base|) + WriteSize(|trg|)
    {
      this.base, this.trg, this.maxSize := base, trg, maxSize;
      var bufsize := 8192;
      if maxSize > 0 && bufsize >= maxSize {
        bufsize := maxSize + MAX_OP_SIZE + 1;
      }
      buf := new byte[bufsize](_ => 0);
      bufpos, data, inscnt, moff, msize, val, header := 0, 0, 0, 0, 0, 0, 0;
      new;
      WriteSizeBound(|base|);
      WriteSizeBound(|trg|);
      PutSize(|base|);
      PutSize(|trg|);
      header := bufpos;
      SizeAtFirst();
    }

    // The loop that stores a size.
    method PutSize(n: nat)
      requires bufpos + |WriteSize(n)| <= buf.Length
      modifies this`bufpos, buf
      ensures bufpos == old(bufpos) + |WriteSize(n)| <= buf.Length
      ensures buf[..bufpos] == old(buf[..bufpos]) + WriteSize(n)
    {
      var i := n;
      while i >= 0x80
        invariant bufpos <= buf.Length && bufpos + |WriteSize(i)| == old(bufpos) + |WriteSize(n)|
        invariant buf[..bufpos] + WriteSize(i) == old(buf[..bufpos]) + WriteSize(n)
      {
        buf[bufpos] := (i % 0x80 + 0x80) as byte;
        bufpos := bufpos + 1;
        i := i / 0x80;
      }
      buf[bufpos] := i as byte;
      bufpos := bufpos + 1;
    }

    // The buffer is large enough for the next operation.
    ghost predicate Roomy(slack: nat)
      reads this
    {
      OnSchedule(buf.Length, maxSize) && bufpos + slack <= buf.Length
    }

    ghost predicate Valid()
      reads this, buf
    {
      && |base| < 0x1_0000_0000 && |trg| < 0x1_0000_0000
      && header <= bufpos <= buf.Length && data <= |trg|
      && buf[..header] == WriteSize(|base|) + WriteSize(|trg|)
      && Encoded(base, trg, buf[header..bufpos], data, inscnt)
      && Match(base, trg, moff, data, msize)
    }

    // All that has been put out are inserts.
    ghost predicate Inserting()
      reads this
    {
      && inscnt == data % 127 && header == |WriteSize(|base|)| + |WriteSize(|trg|)|
      && bufpos == header + data + Counts(data)
    }

    // Without a limit that would stop it, the output is below the last of the scheduled sizes.
    predicate Spare()
      reads this
    {
      maxSize == 0 || maxSize > LAST_SIZE ==> bufpos + MAX_OP_SIZE < LAST_SIZE
    }

    // At the head of the loop the fingerprint is that of the last sixteen bytes.
    ghost predicate Hashed()
      reads this
    {
      data < |trg| && msize < 4096 ==> (data >= RABIN_WINDOW && val == WindowHash(trg[data - 16..data]))
    }

    // buf[bufpos++] = b
    method Put(b: byte)
      requires header <= bufpos < buf.Length
      modifies this`bufpos, buf
      ensures bufpos == old(bufpos) + 1 && buf[..header] == old(buf[..header])
      ensures buf[header..bufpos] == old(buf[header..bufpos]) + [b]
    {
      buf[bufpos] := b;
      bufpos := bufpos + 1;
      SliceGrow(buf[..], header, bufpos);
    }

    // bufpos++, which leaves a slot for a count
    method Reserve() returns (ghost slot: byte)
      requires header <= bufpos < buf.Length
      modifies this`bufpos
      ensures bufpos == old(bufpos) + 1 && slot == buf[bufpos - 1]
      ensures buf[header..bufpos] == old(buf[header..bufpos]) + [slot]
    {
      slot := buf[bufpos];
      bufpos := bufpos + 1;
      SliceGrow(buf[..], header, bufpos);
    }

    // buf[bufpos - inscnt - 1] = inscnt, inscnt = 0
    method PatchCount()
      requires header + inscnt + 1 <= bufpos <= buf.Length && inscnt < 0x80
      modifies this`inscnt, buf
      ensures inscnt == 0 && buf[..header] == old(buf[..header])
      ensures buf[header..bufpos] == old(buf[header..bufpos])[bufpos - header - old(inscnt) - 1 := old(inscnt) as byte]
    {
      ghost var s := buf[..];
      buf[bufpos - inscnt - 1] := inscnt as byte;
      assert buf[..] == s[bufpos - inscnt - 1 := inscnt as byte];
      SliceUpdate(s, header, bufpos, bufpos - inscnt - 1, inscnt as byte);
      inscnt := 0;
    }

    // No match: one more byte of the pending insert, completed when it is full.
    method Literal()
      requires Valid() && Roomy(7) && data < |trg|
      modifies this`bufpos, this`data, this`inscnt, this`msize, buf
      ensures Valid() && bufpos == old(bufpos) + (if old(inscnt) == 0 then 2 else 1)
      ensures data == old(data) + 1 && msize == 0
      ensures inscnt == if old(inscnt) + 1 == 0x7f then 0 else old(inscnt) + 1
    {
      hide Encoded, Match, WriteSize;
      Bounds();
      NoMatch(base, trg, moff, data, msize);
      ghost var e := buf[header..bufpos];
      ghost var slot: byte := 0;
      if inscnt == 0 {
        slot := Reserve();
      }
      Put(trg[data]);
      LiteralKeeps(base, trg, e, data, inscnt, slot);
      data, inscnt := data + 1, inscnt + 1;
      if inscnt == 0x7f {
        PatchCount();
      }
      msize := 0;
    }

    // One pending byte joins the match; the count slot goes with the last of them.
    method TakeBackByte()
      requires Valid() && inscnt > 0 && msize > 0 && moff > 0 && data > 0
      requires base[moff - 1] == trg[data - 1]
      modifies this`bufpos, this`data, this`inscnt, this`moff, this`msize
      ensures Valid() && bufpos < old(bufpos) && inscnt == old(inscnt) - 1
      ensures msize == old(msize) + 1 && moff == old(moff) - 1 && data == old(data) - 1
    {
      hide Encoded, Match, WriteSize;
      ghost var e := buf[header..bufpos];
      EncodedBounds(base, trg, e, data, inscnt);
      BackKeeps(base, trg, e, data, inscnt);
      MatchBack(base, trg, moff, data, msize);
      msize, moff, data, bufpos := msize + 1, moff - 1, data - 1, bufpos - 1;
      inscnt := inscnt - 1;
      if inscnt == 0 {
        bufpos := bufpos - 1;
      }
      SlicePrefix(buf[..], header, bufpos, header + |e|);
    }

    // As many pending bytes as agree with the base are taken back into the match, and
    // what is left of the pending insert is completed. When all are taken back the
    // source writes the count -1 where the copy operation will begin.
    method TakeBack()
      requires Valid() && Roomy(7) && inscnt > 0 && msize > 0
      modifies this`bufpos, this`data, this`inscnt, this`moff, this`msize, buf
      ensures Valid() && bufpos <= old(bufpos)
      ensures inscnt == 0 && msize >= old(msize) && data + msize == old(data) + old(msize)
      ensures old(data) - old(inscnt) <= data <= old(data) && moff == old(moff) - (old(data) - data)
      ensures data == old(data) - old(inscnt) || moff == 0 || base[moff - 1] != trg[data - 1]
    {
      hide Encoded, Match, WriteSize;
      Bounds();
      while inscnt > 0 && moff > 0 && base[moff - 1] == trg[data - 1]
        invariant Valid() && bufpos <= old(bufpos)
        invariant inscnt <= data && moff <= |base| && old(data) - data == old(inscnt) - inscnt
        invariant 0 < old(msize) <= msize && data + msize == old(data) + old(msize)
        invariant moff == old(moff) - (old(data) - data)
        decreases moff
      {
        TakeBackByte();
        Bounds();
      }
      Bounds();
      ghost var e := buf[header..bufpos];
      if inscnt > 0 {
        FlushPending(base, trg, e, data, inscnt);
        PatchCount();
      } else {
        buf[bufpos] := 0xff;
        assert buf[header..bufpos] == e;
      }
    }

    lemma Bounds()
      requires Valid()
      ensures inscnt <= data <= |trg| && inscnt < 0x7f && Pending(inscnt) <= bufpos - header <= 2 * data
      ensures moff + msize <= |base| && data + msize <= |trg|
    {
      hide Run, AllShort, WriteSize;
    }

    // An operand byte of a copy and its flag, if the byte is not zero.
    method PutOperand(b: nat, flag: nat, flags: nat) returns (flags': nat)
      requires b < 256 && bufpos < buf.Length
      modifies this`bufpos, buf
      ensures bufpos == old(bufpos) + |Present(b)| <= buf.Length
      ensures buf[..bufpos] == old(buf[..bufpos]) + Present(b)
      ensures flags' == flags + if b > 0 then flag else 0
    {
      flags' := flags;
      if b != 0 {
        buf[bufpos] := b as byte;
        bufpos, flags' := bufpos + 1, flags + flag;
      }
    }

    method PutOffset(o0: nat, o1: nat, o2: nat, o3: nat, flags: nat) returns (flags': nat)
      requires o0 < 256 && o1 < 256 && o2 < 256 && o3 < 256 && bufpos + 4 <= buf.Length
      modifies this`bufpos, buf
      ensures bufpos == old(bufpos) + |OffsetBytes(o0, o1, o2, o3)| <= old(bufpos) + 4 <= buf.Length
      ensures buf[..bufpos] == old(buf[..bufpos]) + OffsetBytes(o0, o1, o2, o3)
      ensures flags' == flags + OffsetFlags(o0, o1, o2, o3)
    {
      hide Present;
      PresentBound(o0, o1, o2, o3);
      ghost var s := buf[..bufpos];
      flags' := PutOperand(o0, 0x01, flags);
      flags' := PutOperand(o1, 0x02, flags');
      flags' := PutOperand(o2, 0x04, flags');
      flags' := PutOperand(o3, 0x08, flags');
      Associate(s + Present(o0) + Present(o1), Present(o2), Present(o3));
      Associate(s + Present(o0), Present(o1), Present(o2) + Present(o3));
      Associate(s, Present(o0), Present(o1) + (Present(o2) + Present(o3)));
    }

    method PutLength(l0: nat, l1: nat, flags: nat) returns (flags': nat)
      requires l0 < 256 && l1 < 256 && bufpos + 2 <= buf.Length
      modifies this`bufpos, buf
      ensures bufpos == old(bufpos) + |LengthBytes(l0, l1)| <= old(bufpos) + 2 <= buf.Length
      ensures buf[..bufpos] == old(buf[..bufpos]) + LengthBytes(l0, l1)
      ensures flags' == flags + LengthFlags(l0, l1)
    {
      hide Present;
      PresentBound(l0, l1, 0, 0);
      ghost var s := buf[..bufpos];
      flags' := PutOperand(l0, 0x10, flags);
      flags' := PutOperand(l1, 0x20, flags');
      Associate(s, Present(l0), Present(l1));
    }

    // The bytes of a copy operation; the command byte is stored last, when the flags
    // are known.
    method PutCopyBytes(o0: nat, o1: nat, o2: nat, o3: nat, l0: nat, l1: nat)
      requires o0 < 256 && o1 < 256 && o2 < 256 && o3 < 256 && l0 < 256 && l1 < 256 && bufpos + 7 <= buf.Length
      modifies this`bufpos, buf
      ensures bufpos == old(bufpos) + |CopyBytes(o0, o1, o2, o3, l0, l1)| <= buf.Length
      ensures buf[..bufpos] == old(buf[..bufpos]) + CopyBytes(o0, o1, o2, o3, l0, l1)
    {
      hide Present, OffsetBytes, LengthBytes, OffsetFlags, LengthFlags;
      var op := bufpos;
      bufpos := bufpos + 1;
      var flags := PutOffset(o0, o1, o2, o3, 0x80);
      flags := PutLength(l0, l1, flags);
      FlagsAreCommand(o0, o1, o2, o3, l0, l1);
      ghost var t := buf[..bufpos];
      buf[op] := flags as byte;
      assert buf[..bufpos] == t[op := flags as byte];
      CopyBytesInTwo(o0, o1, o2, o3, l0, l1);
    }

    method PutCopy(off: nat, len: nat)
      requires off < 0x1_0000_0000 && 1 <= len <= 0x1_0000 && bufpos + 7 <= buf.Length
      modifies this`bufpos, buf
      ensures bufpos == old(bufpos) + |CopyOp(off, len)| <= old(bufpos) + 7 <= buf.Length
      ensures buf[..bufpos] == old(buf[..bufpos]) + CopyOp(off, len)
    {
      PutCopyBytes(off % 0x100, off / 0x100 % 0x100, off / 0x1_0000 % 0x100, off / 0x100_0000,
                   len % 0x100, len / 0x100 % 0x100);
    }

    // The match, capped at 64 KB, becomes a copy operation.
    method CopyMatch()
      requires Valid() && Roomy(7) && inscnt == 0 && msize >= 4 && data + msize >= RABIN_WINDOW
      modifies this`bufpos, this`data, this`moff, this`msize, this`val, buf
      ensures Valid() && old(bufpos) < bufpos <= old(bufpos) + 7
      ensures Hashed() && data >= RABIN_WINDOW && data + msize == old(data) + old(msize)
      ensures data == old(data) + if old(msize) < 0x1_0000 then old(msize) else 0x1_0000
      ensures moff == old(moff) + (data - old(data))
      ensures buf[..bufpos] == old(buf[..bufpos]) + CopyOp(old(moff), data - old(data))
    {
      hide Encoded, Match, WriteSize, CopyOp, WindowHash, OnSchedule;
      Bounds();
      var left := if msize < 0x1_0000 then 0 else msize - 0x1_0000;
      msize := msize - left;
      MatchSplit(base, trg, moff, data, msize, left);
      ghost var e, b := buf[header..bufpos], buf[..bufpos];
      CopyKeeps(base, trg, e, data, moff, msize);
      PutCopy(moff, msize);
      AppendAfter(b, CopyOp(moff, msize), header);
      assert buf[header..bufpos] == buf[..bufpos][header..] && buf[..header] == buf[..bufpos][..header] == b[..header];
      data, moff := data + msize, moff + msize;
      msize := left;
      if msize < 4096 {
        val := Fingerprint(trg, data - RABIN_WINDOW);
      }
    }

    // One byte of the first sixteen.
    method FirstByte(ghost slot: byte)
      requires data == inscnt < |trg| && header <= bufpos < buf.Length
      requires buf[header..bufpos] == [slot] + trg[..data] && val == WindowHash(trg[..data])
      modifies this`bufpos, this`data, this`inscnt, this`val, buf
      ensures data == inscnt == old(data) + 1 && bufpos == old(bufpos) + 1 && buf[..header] == old(buf[..header])
      ensures buf[header..bufpos] == [slot] + trg[..data] && val == WindowHash(trg[..data])
    {
      hide Next, WindowHash;
      NextByte(trg, data);
      Associate([slot], trg[..data], [trg[data]]);
      Put(trg[data]);
      val := Next(val, trg[data] as bv8);
      data, inscnt := data + 1, inscnt + 1;
    }

    // The count slot of the first insert and the first sixteen bytes of the target.
    method FirstWindow()
      requires header == bufpos <= 10 && bufpos <= buf.Length && OnSchedule(buf.Length, maxSize)
      requires data == inscnt == moff == msize == 0 && val == 0
      requires 0 < |trg| < 0x1_0000_0000 && |base| < 0x1_0000_0000
      requires buf[..bufpos] == WriteSize(|base|) + WriteSize(|trg|)
      modifies this`bufpos, this`data, this`inscnt, this`val, buf
      ensures Valid() && Hashed() && data == inscnt == (if |trg| < RABIN_WINDOW then |trg| else RABIN_WINDOW)
      ensures bufpos == header + 1 + data && Counts(data) == 1
    {
      hide Next, WriteSize, Encoded, WindowHash, OnSchedule;
      OnScheduleFacts(buf.Length, maxSize);
      NextByte(trg, 0);
      ghost var slot := Reserve();
      while inscnt < RABIN_WINDOW && data < |trg|
        invariant data == inscnt <= RABIN_WINDOW && data <= |trg| && bufpos == header + 1 + data
        invariant buf[..header] == old(buf[..bufpos]) && buf[header..bufpos] == [slot] + trg[..data]
        invariant val == WindowHash(trg[..data])
      {
        FirstByte(slot);
      }
      FirstEncoded(base, trg, buf[header..bufpos], data);
    }

    // The growth of the buffer by half, in 32-bit arithmetic, or the end of the run once
    // the delta is past its maximum size.
    method Grow() returns (g: Growth)
      requires Valid() && Roomy(0)
      modifies this`buf
      ensures Valid() && Roomy(0) && (buf == old(buf) || fresh(buf)) && buf[..bufpos] == old(buf[..bufpos])
      ensures g == Grown ==> bufpos + MAX_OP_SIZE < buf.Length
      ensures g == Stop <==> old(buf.Length) <= bufpos + MAX_OP_SIZE && 0 < maxSize < bufpos
      ensures g == Overflow ==> bufpos >= LAST_SIZE - MAX_OP_SIZE && (maxSize == 0 || maxSize > LAST_SIZE)
    {
      hide Encoded, Match, WriteSize, NextSize, OnSchedule;
      g := Grown;
      OnScheduleFacts(buf.Length, maxSize);
      if bufpos >= buf.Length - MAX_OP_SIZE {
        var bufsize := NextSize(buf.Length, maxSize);
        if maxSize > 0 && bufpos > maxSize {
          return Stop;
        }
        NextSizeIsEnough(buf.Length, bufpos, maxSize);
        if buf.Length * 3 >= 0x1_0000_0000 {
          return Overflow;
        }
        Realloc(bufsize);
      }
    }

    method Realloc(bufsize: nat)
      requires Valid() && bufpos <= bufsize
      modifies this`buf
      ensures Valid() && buf.Length == bufsize && fresh(buf) && buf[..bufpos] == old(buf[..bufpos])
    {
      hide Encoded, Match, WriteSize;
      ghost var s := buf[..bufpos];
      var larger := new byte[bufsize](_ => 0);
      var i := 0;
      while i < bufpos
        invariant i <= bufpos <= buf.Length && buf[..bufpos] == s && larger[..i] == s[..i]
      {
        larger[i] := buf[i];
        i := i + 1;
      }
      SlicePrefix(buf[..bufpos], 0, header, bufpos);
      buf := larger;
      assert buf[..header] == s[..header] && buf[header..bufpos] == s[header..];
    }

    // The body of the main loop, up to the check for room: the search, then a literal
    // or a copy. found is the length of the match at the position of the target: what is
    // left of one of 4096 bytes or more, or else the longest that the index leads to. Less
    // than four bytes give way to a literal. The position in the target moves forward,
    // whatever is taken back.
    method Step(index: DeltaIndex) returns (ghost at: nat, ghost found: nat)
      requires index.Valid() && index.src == base
      requires Valid() && Roomy(7) && Hashed() && RABIN_WINDOW <= data < |trg|
      modifies this`bufpos, this`data, this`inscnt, this`moff, this`msize, this`val, buf
      ensures Valid() && Roomy(0) && Hashed() && old(data) < data
      ensures Match(base, trg, at, old(data), found) && found >= old(msize)
      ensures old(msize) >= 4096 ==> at == old(moff) && found == old(msize)
      ensures found < 4096 ==> LongestAt(index, trg, old(data), found)
      ensures found < 4 ==>
        && data == old(data) + 1 && msize == 0 && inscnt == (if old(inscnt) + 1 == 0x7f then 0 else old(inscnt) + 1)
        && bufpos == old(bufpos) + if old(inscnt) == 0 then 2 else 1
      ensures found >= 4 ==> inscnt == 0 && data + msize == old(data) + found && moff - data == at - old(data)
      ensures index.used == 0 && old(msize) == 0 ==> found == 0
    {
      hide Encoded, Match, WriteSize, WindowHash, Roll, Next, NoLonger, Bucket, CopyOp, OnSchedule;
      if msize < 4096 {
        var w := trg[data - 16..data + 1];
        RollIsWindowHash(w);
        assert w[..16] == trg[data - 16..data] && w[1..] == trg[data - 15..data + 1];
        val := Roll(val, trg[data - 16], trg[data]);
        moff, msize := Search(index, trg, data, val, moff, msize);
      }
      at, found := moff, msize;
      if msize < 4 {
        Literal();
      } else {
        Bounds();
        if inscnt > 0 {
          TakeBack();
        }
        CopyMatch();
      }
    }

    // One turn of the main loop.
    method Turn(index: DeltaIndex) returns (g: Growth)
      requires index.Valid() && index.src == base
      requires Valid() && Roomy(7) && Hashed() && RABIN_WINDOW <= data < |trg|
      modifies this`buf, this`bufpos, this`data, this`inscnt, this`moff, this`msize, this`val, buf
      ensures Valid() && Roomy(0) && Hashed() && old(data) < data && (buf == old(buf) || fresh(buf))
      ensures g == Grown ==> bufpos + MAX_OP_SIZE < buf.Length
      ensures g == Stop ==> 0 < maxSize < bufpos && maxSize <= LAST_SIZE
      ensures g == Overflow ==> bufpos >= LAST_SIZE - MAX_OP_SIZE && (maxSize == 0 || maxSize > LAST_SIZE)
      ensures index.used == 0 && old(msize) == 0 && old(Inserting()) ==> msize == 0 && Inserting()
    {
      hide Encoded, Match, WriteSize, WindowHash, OnSchedule, NoLonger, Bucket;
      var _, _ := Step(index);
      OneMoreInserted(old(data));
      OnScheduleFacts(buf.Length, maxSize);
      g := Grow();
    }

    // The main loop, to the end of the target or to one of the ways to stop before.
    method MainLoop(index: DeltaIndex) returns (g: Growth)
      requires index.Valid() && index.src == base
      requires Valid() && Hashed() && Roomy(0) && Spare() && (data == |trg| || (Roomy(7) && data >= RABIN_WINDOW))
      requires index.used == 0 ==> msize == 0 && Inserting()
      modifies this`buf, this`bufpos, this`data, this`inscnt, this`moff, this`msize, this`val, buf
      ensures Valid() && (buf == old(buf) || fresh(buf))
      ensures g == Grown ==> data == |trg| && Spare()
      ensures g == Stop ==> 0 < maxSize < bufpos && maxSize <= LAST_SIZE
      ensures g == Overflow ==> bufpos >= LAST_SIZE - MAX_OP_SIZE && (maxSize == 0 || maxSize > LAST_SIZE)
      ensures index.used == 0 ==> Inserting()
    {
      hide Encoded, Match, WriteSize, WindowHash, IsTable, OnSchedule, NoLonger, Bucket, Inserting;
      g := Grown;
      while data < |trg|
        invariant Valid() && Hashed() && (buf == old(buf) || fresh(buf))
        invariant data == |trg| || (Roomy(7) && data >= RABIN_WINDOW)
        invariant Roomy(0) && Spare() && g == Grown
        invariant index.used == 0 ==> msize == 0 && Inserting()
        decreases |trg| - data
      {
        g := Turn(index);
        OnScheduleFacts(buf.Length, maxSize);
        if g != Grown {
          return;
        }
      }
    }

    // What follows the loop: the pending insert is completed, the limit checked.
    method Finish() returns (r: Outcome)
      requires Valid() && (data == |trg| || 0 < maxSize < bufpos)
      modifies this`inscnt, buf
      ensures r == if 0 < maxSize < bufpos then TooLong else Delta(buf[..bufpos])
      ensures r.Delta? ==> IsDeltaFor(base, trg, r.bytes)
    {
      hide Encoded, Match, WriteSize, IsDeltaFor;
      Bounds();
      if inscnt > 0 {
        FlushPending(base, trg, buf[header..bufpos], data, inscnt);
        PatchCount();
      }
      if maxSize > 0 && bufpos > maxSize {
        return TooLong;
      }
      FinishedDelta(base, trg, buf[header..bufpos]);
      assert buf[..bufpos] == buf[..header] + buf[header..bufpos];
      r := Delta(buf[..bufpos]);
    }
  }

  ghost function OffsetBytes(o0: nat, o1: nat, o2: nat, o3: nat): seq<byte>
    requires o0 < 256 && o1 < 256 && o2 < 256 && o3 < 256
  {
    Present(o0) + (Present(o1) + (Present(o2) + Present(o3)))
  }

  ghost function LengthBytes(l0: nat, l1: nat): seq<byte>
    requires l0 < 256 && l1 < 256
  {
    Present(l0) + Present(l1)
  }

  ghost function OffsetFlags(o0: nat, o1: nat, o2: nat, o3: nat): nat {
    (if o0 > 0 then 0x01 else 0) + (if o1 > 0 then 0x02 else 0) + (if o2 > 0 then 0x04 else 0) + (if o3 > 0 then 0x08 else 0)
  }

  ghost function LengthFlags(l0: nat, l1: nat): nat {
    (if l0 > 0 then 0x10 else 0) + (if l1 > 0 then 0x20 else 0)
  }

  lemma PresentBound(b0: nat, b1: nat, b2: nat, b3: nat)
    requires b0 < 256 && b1 < 256 && b2 < 256 && b3 < 256
    ensures |Present(b0)| <= 1 && |Present(b1)| <= 1 && |Present(b2)| <= 1 && |Present(b3)| <= 1
  {
  }

  lemma FlagsAreCommand(o0: nat, o1: nat, o2: nat, o3: nat, l0: nat, l1: nat)
    ensures var flags := 0x80 + OffsetFlags(o0, o1, o2, o3) + LengthFlags(l0, l1);
      flags < 256 && CopyCommand(o0, o1, o2, o3, l0, l1) == flags as byte
  {
  }

  lemma CopyBytesInTwo(o0: nat, o1: nat, o2: nat, o3: nat, l0: nat, l1: nat)
    requires o0 < 256 && o1 < 256 && o2 < 256 && o3 < 256 && l0 < 256 && l1 < 256
    ensures CopyBytes(o0, o1, o2, o3, l0, l1)
      == [CopyCommand(o0, o1, o2, o3, l0, l1)] + (OffsetBytes(o0, o1, o2, o3) + LengthBytes(l0, l1))
  {
    hide Present;
    var l := Present(l0) + Present(l1);
    Associate(Present(o2), Present(o3), l);
    Associate(Present(o1), Present(o2) + Present(o3), l);
    Associate(Present(o0), Present(o1) + (Present(o2) + Present(o3)), l);
  }

  lemma SliceUpdate(s: seq<byte>, lo: nat, hi: nat, i: nat, x: byte)
    requires lo <= hi <= |s| && i < |s| && lo <= i
    ensures s[i := x][lo..hi] == if i < hi then s[lo..hi][i - lo := x] else s[lo..hi]
  {
  }

  lemma SlicePrefix(s: seq<byte>, lo: nat, mid: nat, hi: nat)
    requires lo <= mid <= hi <= |s|
    ensures s[lo..mid] == s[lo..hi][..mid - lo]
  {
  }

  lemma AppendAfter(b: seq<byte>, op: seq<byte>, lo: nat)
    requires lo <= |b|
    ensures (b + op)[lo..] == b[lo..] + op && (b + op)[..lo] == b[..lo]
  {
  }

  lemma Associate(a: seq<byte>, b: seq<byte>, c: seq<byte>)
    ensures (a + b) + c == a + (b + c)
  {
  }

  lemma SliceGrow(s: seq<byte>, lo: nat, hi: nat)
    requires lo < hi <= |s|
    ensures s[lo..hi] == s[lo..hi - 1] + [s[hi - 1]]
  {
  }

  // ---- git_delta_create_from_index, and the round trip

  // A delta that the decoder turns back into the target; its operations insert 1 to
  // 127 bytes or copy 1 to 65536 from inside the base.
  ghost predicate IsDeltaFor(base: seq<byte>, trg: seq<byte>, d: seq<byte>) {
    && Apply(base, d) == Some(trg)
    && |d| <= 10 + 2 * |trg|
    && exists ops :: d == WriteSize(|base|) + WriteSize(|trg|) + ops && AllShort(ops)
  }

  lemma FinishedDelta(base: seq<byte>, trg: seq<byte>, e: seq<byte>)
    requires |base| < 0x1_0000_0000 && |trg| < 0x1_0000_0000
    requires Encoded(base, trg, e, |trg|, 0)
    ensures IsDeltaFor(base, trg, WriteSize(|base|) + WriteSize(|trg|) + e)
  {
    hide Run, AllShort, WriteSize, ReadSize;
    var b, t := WriteSize(|base|), WriteSize(|trg|);
    var d := b + t + e;
    assert Done(e, 0) == e && trg[..|trg| - 0] == trg;
    SizeRoundTrip(|base|, 0, t + e);
    SizeRoundTrip(|trg|, 0, e);
    assert d == b + (t + e);
    assert d[|b|..] == t + e;
    assert d[|b| + |t|..] == e;
  }

  // How many counts so many inserted bytes take.
  function Counts(n: nat): nat {
    (n + 126) / 127
  }

  lemma OneMoreInserted(n: nat)
    ensures (n + 1) % 127 == if n % 127 + 1 == 127 then 0 else n % 127 + 1
    ensures Counts(n + 1) == Counts(n) + if n % 127 == 0 then 1 else 0
  {
  }

  lemma InsertedGrows(m: nat, n: nat)
    requires m <= n
    ensures Counts(m) <= Counts(n)
  {
  }

  // The size of a delta for a base of b bytes and a target of t that inserts everything.
  function InsertedSize(b: nat, t: nat): nat {
    |WriteSize(b)| + |WriteSize(t)| + t + Counts(t)
  }

  // Whether the limit lets the buffer grow as far as its size can be computed, and the
  // output is too long for it then.
  predicate Wraps(n: nat, maxSize: nat) {
    (maxSize == 0 || maxSize > LAST_SIZE) && n >= LAST_SIZE - MAX_OP_SIZE
  }

  // Where nothing of the base is indexed, how the run ends depends on the sizes only.
  method CreateFromIndex(index: DeltaIndex, trg: seq<byte>, maxSize: nat) returns (r: Outcome)
    requires index.Valid() && |index.src| < 0x1_0000_0000 && |trg| < 0x1_0000_0000
    ensures r == Nothing <==> trg == []
    ensures r.Delta? ==> IsDeltaFor(index.src, trg, r.bytes) && (maxSize > 0 ==> |r.bytes| <= maxSize)
    ensures r == TooLong ==> 0 < maxSize < 10 + 2 * |trg|
    ensures r == SizeWraps ==> Wraps(10 + 2 * |trg|, maxSize)
    ensures index.used == 0 && trg != [] ==>
      var n := InsertedSize(|index.src|, |trg|);
      && (r == SizeWraps <==> Wraps(n, maxSize))
      && (r == TooLong <==> 0 < maxSize < n && !Wraps(n, maxSize))
  {
    hide Encoded, Match, WriteSize, WindowHash, IsDeltaFor, IsTable, OnSchedule, NoLonger, Bucket, Counts;
    if trg == [] {
      return Nothing;
    }
    var enc := new Encoder(index.src, trg, maxSize);
    OnScheduleFacts(enc.buf.Length, maxSize);
    enc.FirstWindow();
    var g := enc.MainLoop(index);
    enc.Bounds();
    InsertedGrows(enc.data, |trg|);
    if g == Overflow {
      return SizeWraps;
    }
    r := enc.Finish();
  }
}
