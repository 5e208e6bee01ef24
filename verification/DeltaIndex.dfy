// git_delta_index_init of libgit2/src/delta.c: the chained hash index over the
// sixteen-byte blocks of the base, and the thinning of its long chains.
module DeltaIndexes {
  import opened Bytes
  import opened Rabin

  const HASH_LIMIT: nat := 64

  // c is the chain of entries from head on; -1 is the null pointer. Entries are
  // numbered in the order they are made, so chains run downwards.
  ghost predicate IsChain(next: seq<int>, head: int, c: seq<int>) {
    && Links(next, c)
    && (c == [] <==> head == -1)
    && (c != [] ==> c[0] == head && next[c[|c| - 1]] == -1)
  }

  ghost predicate Links(next: seq<int>, c: seq<int>) {
    && (forall j :: 0 <= j < |c| ==> 0 <= c[j] < |next|)
    && (forall j, k :: 0 <= j < k < |c| ==> c[k] < c[j])
    && (forall j :: 0 <= j < |c| - 1 ==> next[c[j]] == c[j + 1])
  }

  // Making entry u the new head of a chain, and what that leaves as it was.
  lemma PushChain(next: seq<int>, head: int, c: seq<int>, u: nat)
    requires u < |next| && IsChain(next, head, c)
    requires forall j :: 0 <= j < |c| ==> c[j] < u
    ensures IsChain(next[u := head], u, [u] + c)
  {
    var d, n := [u] + c, next[u := head];
    assert forall j :: 0 < j < |d| ==> d[j] == c[j - 1];
    assert c != [] ==> d[|d| - 1] == c[|c| - 1];
  }

  lemma KeepChain(next: seq<int>, head: int, c: seq<int>, u: nat, x: int)
    requires u < |next| && IsChain(next, head, c)
    requires u !in c
    ensures IsChain(next[u := x], head, c)
  {
  }

  // ---- what thinning leaves of a chain

  // Every skip-th element of c, the first included.
  ghost function Thin(c: seq<int>, skip: nat): seq<int>
    requires skip > 0
  {
    if c == [] then [] else if skip < |c| then [c[0]] + Thin(c[skip..], skip) else [c[0]]
  }

  // The distance between survivors in a chain of n entries. Below 2 * HASH_LIMIT the
  // source computes a skip of 0, decrements it past zero and runs to the end.
  function Spacing(n: nat): (s: nat)
    requires n > 0
    ensures s > 0
  {
    if n / HASH_LIMIT / 2 == 0 then n else n / HASH_LIMIT / 2
  }

  ghost function Culled(c: seq<int>): seq<int> {
    if |c| < HASH_LIMIT then c else Thin(c, Spacing(|c|))
  }

  // The survivors are the entries at multiples of the spacing, all of them.
  lemma {:induction false} ThinKeepsMultiples(c: seq<int>, skip: nat)
    requires skip > 0 && c != []
    ensures var t := Thin(c, skip);
      && (|t| - 1) * skip < |c| <= |t| * skip
      && forall j :: 0 <= j < |t| ==> 0 <= j * skip < |c| && t[j] == c[j * skip]
  {
    if skip < |c| {
      ThinKeepsMultiples(c[skip..], skip);
      var t, u := Thin(c, skip), Thin(c[skip..], skip);
      Step(|u|, skip);
      Step(|u| - 1, skip);
      forall j | 0 <= j < |t|
        ensures 0 <= j * skip < |c| && t[j] == c[j * skip]
      {
        if j > 0 {
          Step(j - 1, skip);
          assert t[j] == u[j - 1] == c[skip..][(j - 1) * skip];
        }
      }
    }
  }

  lemma Step(j: int, skip: nat)
    ensures (j + 1) * skip == j * skip + skip
  {
  }

  // How many entries of a bucket the thinning leaves: one of 64 to 127, all of 128 to
  // 255, and of more between 128 and 255; so a bucket may stay above HASH_LIMIT.
  lemma CulledLength(c: seq<int>)
    ensures |c| < 64 ==> Culled(c) == c
    ensures 64 <= |c| < 128 ==> Culled(c) == [c[0]]
    ensures 128 <= |c| < 256 ==> Culled(c) == c
    ensures 128 <= |c| ==> 2 * HASH_LIMIT <= |Culled(c)| < 4 * HASH_LIMIT
  {
    if 128 <= |c| {
      var q := Spacing(|c|);
      SpacingBound(|c|);
      ThinKeepsMultiples(c, q);
      QuotientBound(|c|, |Thin(c, q)|, q);
      if |c| < 256 {
        ThinByOne(c);
      }
    }
  }

  lemma SpacingBound(n: nat)
    requires 128 <= n
    ensures 128 * Spacing(n) <= n < 128 * Spacing(n) + 128
  {
  }

  lemma {:induction false} ThinByOne(c: seq<int>)
    ensures Thin(c, 1) == c
  {
    if 1 < |c| {
      ThinByOne(c[1..]);
    }
  }

  lemma MulMonotone(a: int, b: int, q: nat)
    requires a <= b
    ensures a * q <= b * q
  {
  }

  lemma QuotientBound(m: nat, n: nat, q: nat)
    requires q >= 1 && 128 * q <= m < 128 * q + 128
    requires (n - 1) * q < m <= n * q
    ensures 128 <= n < 256
  {
    if n >= 256 {
      MulMonotone(255, n - 1, q);
    }
    if n < 128 {
      MulMonotone(n, 127, q);
    }
  }

  // ---- the index

  function Mod(n: int, m: nat): (r: nat)
    requires m > 0
    ensures r < m
  {
    n % m
  }

  // val & hash_mask: hash_mask is hsize - 1 and hsize a power of two.
  function Bucket(v: Hash, hsize: nat): (b: nat)
    requires hsize > 0
    ensures b < hsize
  {
    Mod(v as int, hsize)
  }

  lemma BucketIsRest(v: Hash, hsize: nat) returns (k: int)
    requires hsize > 0
    ensures v as int == k * hsize + Bucket(v, hsize)
  {
    k := ModIsRest(v as int, hsize);
  }

  lemma ModIsRest(n: int, m: nat) returns (k: int)
    requires m > 0
    ensures n == k * m + Mod(n, m)
  {
    k := n / m;
    assert n == m * k + n % m;
  }

  // Entry e stands for a sixteen-byte block of the base, ending at ptr[e].
  ghost predicate IsEntry(src: seq<byte>, p: nat, v: Hash) {
    RABIN_WINDOW <= p < |src| && v == WindowHash(src[p - 15..p + 1])
  }

  // The first used entries, and the chains that the buckets hold.
  ghost predicate IsTable(src: seq<byte>, hash: seq<int>, ptr: seq<nat>, val: seq<Hash>, next: seq<int>,
                          used: nat, chains: seq<seq<int>>) {
    && used <= |ptr| == |val| == |next|
    && |hash| == |chains| > 0
    && (forall e :: 0 <= e < used ==> IsEntry(src, ptr[e], val[e]))
    && (forall e, f :: 0 <= e < f < used ==> ptr[f] < ptr[e])
    && (forall i :: 0 <= i < |hash| ==> IsBucket(hash, val, next, used, i, chains[i]))
  }

  // c is the chain of bucket i, and its entries have hashes that fall into i.
  ghost predicate IsBucket(hash: seq<int>, val: seq<Hash>, next: seq<int>, used: nat, i: nat, c: seq<int>)
    requires i < |hash| && used <= |val|
  {
    && IsChain(next, hash[i], c)
    && (forall j :: 0 <= j < |c| ==> 0 <= c[j] < used && Bucket(val[c[j]], |hash|) == i)
  }

  // Every entry is on the chain of its bucket.
  ghost predicate Complete(val: seq<Hash>, used: nat, chains: seq<seq<int>>)
    requires used <= |val| && |chains| > 0
  {
    forall e :: 0 <= e < used ==> e in chains[Bucket(val[e], |chains|)]
  }

  lemma PushTable(src: seq<byte>, hash: seq<int>, ptr: seq<nat>, val: seq<Hash>, next: seq<int>,
                  used: nat, chains: seq<seq<int>>, p: nat, v: Hash)
    requires IsTable(src, hash, ptr, val, next, used, chains) && Complete(val, used, chains)
    requires used < |ptr| && IsEntry(src, p, v) && (used > 0 ==> p < ptr[used - 1])
    ensures var i := Bucket(v, |hash|);
      var (hash', ptr', val', next') := (hash[i := used], ptr[used := p], val[used := v], next[used := hash[i]]);
      var chains' := chains[i := [used] + chains[i]];
      IsTable(src, hash', ptr', val', next', used + 1, chains') && Complete(val', used + 1, chains')
  {
    hide Bucket, WindowHash, Next, IsChain;
    var i := Bucket(v, |hash|);
    var (hash', ptr', val', next') := (hash[i := used], ptr[used := p], val[used := v], next[used := hash[i]]);
    var chains' := chains[i := [used] + chains[i]];
    forall b | 0 <= b < |hash|
      ensures IsBucket(hash', val', next', used + 1, b, chains'[b])
    {
      assert IsBucket(hash, val, next, used, b, chains[b]);
      if b == i {
        PushChain(next, hash[i], chains[i], used);
      } else {
        KeepChain(next, hash[b], chains[b], used, hash[i]);
      }
    }
  }

  // The fingerprint of the b-th block; indexing skips the first byte of the base.
  ghost function BlockHash(src: seq<byte>, b: nat): Hash
    requires 16 * b + 17 <= |src|
  {
    WindowHash(src[16 * b + 1..16 * b + 17])
  }

  // The fingerprints of blocks k to n are in the index.
  ghost predicate Covers(src: seq<byte>, vals: seq<Hash>, k: nat, n: nat)
    requires 16 * n < |src|
  {
    forall b :: k <= b < n ==> BlockHash(src, b) in vals
  }

  lemma CoversNone(src: seq<byte>, vals: seq<Hash>, n: nat)
    requires 16 * n < |src|
    ensures Covers(src, vals, n, n)
  {
  }

  lemma CoversMore(src: seq<byte>, vals: seq<Hash>, vals': seq<Hash>, k: nat, n: nat)
    requires 0 < k <= n && 16 * n < |src|
    requires Covers(src, vals, k, n) && vals <= vals' && BlockHash(src, k - 1) in vals'
    ensures Covers(src, vals', k - 1, n)
  {
    hide BlockHash;
    forall b | k - 1 <= b < n
      ensures BlockHash(src, b) in vals'
    {
      if b != k - 1 {
        assert BlockHash(src, b) in vals;
      }
    }
  }

  lemma HeadOfChain(next: seq<int>, head: int, c: seq<int>)
    requires IsChain(next, head, c)
    ensures c != [] ==> head == c[0] >= 0
    ensures forall e :: e in c ==> 0 <= e < |next|
  {
  }

  lemma NextOnChain(next: seq<int>, head: int, kept: seq<int>, c: seq<int>, pos: nat)
    requires pos < |c| && IsChain(next, head, kept + c[pos..])
    ensures 0 <= c[pos] < |next|
    ensures next[c[pos]] == if pos + 1 == |c| then -1 else c[pos + 1]
  {
    var d := kept + c[pos..];
    assert d[|kept|] == c[pos];
    if pos + 1 < |c| {
      assert d[|kept| + 1] == c[pos + 1];
    }
  }

  lemma DropFirst(next: seq<int>, head: int, kept: seq<int>, c: seq<int>, from: nat, pos: nat)
    requires from <= pos < |c| && IsChain(next, head, kept + c[from..])
    ensures 0 <= c[pos] < |next|
    ensures next[c[pos]] == if pos + 1 == |c| then -1 else c[pos + 1]
  {
    assert kept + c[from..] == (kept + c[from..pos]) + c[pos..];
    NextOnChain(next, head, kept + c[from..pos], c, pos);
  }

  // Relinking the entry at from to the one at pos drops those between.
  lemma CutChain(next: seq<int>, head: int, kept: seq<int>, c: seq<int>, from: nat, pos: nat)
    requires from < pos <= |c| && IsChain(next, head, kept + c[from..])
    requires 0 <= c[from] < |next|
    ensures IsChain(next[c[from] := if pos == |c| then -1 else c[pos]], head, (kept + [c[from]]) + c[pos..])
  {
    var d, d' := kept + c[from..], (kept + [c[from]]) + c[pos..];
    assert forall j :: 0 <= j < |kept| ==> d[j] == d'[j] == kept[j];
    assert d[|kept|] == d'[|kept|] == c[from];
    assert forall j :: |kept| < j < |d'| ==> d'[j] == d[j + pos - from - 1];
  }

  lemma ThinOfNone(skip: nat)
    requires skip > 0
    ensures Thin([], skip) == []
  {
  }

  lemma ThinStep(d: seq<int>, skip: nat, c: seq<int>, from: nat, pos: nat)
    requires skip > 0 && from < pos <= |c| && d == c[from..]
    requires pos == if from + skip < |c| then from + skip else |c|
    ensures Thin(d, skip) == [c[from]] + Thin(c[pos..], skip)
  {
    if skip < |d| {
      assert d[skip..] == c[pos..];
    }
  }

  // The inner do-while of the thinning: skip entries along the chain, or to its end;
  // a skip of 0 is decremented past zero and so goes to the end.
  method Advance(next: array<int>, from: int, count: nat, ghost head: int, ghost kept: seq<int>, ghost c: seq<int>, ghost start: nat)
    returns (entry: int, ghost pos: nat)
    requires start < |c| && from == c[start] && IsChain(next[..], head, kept + c[start..])
    requires 0 < |c| == count
    ensures start < pos <= |c| && entry == (if pos == |c| then -1 else c[pos]) && (pos < |c| ==> entry >= 0)
    ensures pos == if start + Spacing(count) < |c| then start + Spacing(count) else |c|
  {
    hide IsChain;
    DropFirst(next[..], head, kept, c, start, start);
    var skip: int := count / HASH_LIMIT / 2;
    ghost var s := skip;
    entry := next[from];
    skip := skip - 1;
    pos := start + 1;
    while skip != 0 && entry >= 0
      invariant start < pos <= |c| && entry == if pos == |c| then -1 else c[pos]
      invariant skip == s - (pos - start)
      invariant s > 0 ==> skip >= 0
      decreases |c| - pos
    {
      DropFirst(next[..], head, kept, c, start, pos);
      entry := next[entry];
      skip := skip - 1;
      pos := pos + 1;
    }
    if pos < |c| {
      DropFirst(next[..], head, kept, c, start, pos);
    }
  }

  // The thinning of one bucket.
  method CullChain(next: array<int>, head: int, count: nat, ghost c: seq<int>)
    requires IsChain(next[..], head, c) && |c| == count >= HASH_LIMIT
    modifies next
    ensures IsChain(next[..], head, Culled(c))
    ensures forall e :: 0 <= e < next.Length && e !in c ==> next[e] == old(next[e])
  {
    hide IsChain, Thin, Spacing;
    HeadOfChain(next[..], head, c);
    var entry := head;
    ghost var pos := 0;
    ghost var kept: seq<int> := [];
    assert kept + c[0..] == c && kept + Thin(c, Spacing(count)) == Thin(c, Spacing(count));
    while entry >= 0
      invariant 0 <= pos <= |c| && entry == (if pos == |c| then -1 else c[pos]) && (pos < |c| ==> entry >= 0)
      invariant IsChain(next[..], head, kept + c[pos..])
      invariant Culled(c) == kept + Thin(c[pos..], Spacing(count))
      invariant forall e :: 0 <= e < next.Length && e !in c ==> next[e] == old(next[e])
      decreases |c| - pos
    {
      ghost var from := pos;
      var keep := entry;
      DropFirst(next[..], head, kept, c, from, from);
      entry, pos := Advance(next, keep, count, head, kept, c, from);
      CutChain(next[..], head, kept, c, from, pos);
      ThinStep(c[from..], Spacing(count), c, from, pos);
      ghost var links := next[..];
      next[keep] := entry;
      kept := kept + [keep];
      assert next[..] == links[c[from] := entry];
    }
    assert kept + c[pos..] == kept && c[pos..] == [];
    ThinOfNone(Spacing(count));
    assert kept + [] == kept;
  }

  class DeltaIndex {
    const src: seq<byte>
    const hash: array<int>
    const ptr: array<nat>
    const val: array<Hash>
    const next: array<int>
    var used: nat
    ghost var chains: seq<seq<int>>

    ghost predicate Valid()
      reads this, hash, ptr, val, next
    {
      && hash != next
      && hash.Length == |chains| > 0 && used <= ptr.Length == val.Length == next.Length
      && IsTable(src, hash[..], ptr[..], val[..], next[..], used, chains)
    }

    // The entry at a position of a chain, and the one its link leads to.
    lemma OnChain(b: nat, pos: nat)
      requires Valid() && b < hash.Length && pos <= |chains[b]|
      ensures pos == 0 ==> hash[b] == if chains[b] == [] then -1 else chains[b][0]
      ensures pos < |chains[b]| ==>
        && 0 <= chains[b][pos] < used && RABIN_WINDOW <= ptr[chains[b][pos]] < |src|
        && next[chains[b][pos]] == (if pos + 1 == |chains[b]| then -1 else chains[b][pos + 1])
        && (pos + 1 < |chains[b]| ==> 0 <= chains[b][pos + 1] < used)
    {
      hide Bucket, WindowHash;
      assert IsBucket(hash[..], val[..], next[..], used, b, chains[b]);
      if pos < |chains[b]| {
        assert IsEntry(src, ptr[..][chains[b][pos]], val[..][chains[b][pos]]);
      }
    }

    // Later entries of a chain lie further on in the base.
    lemma ChainOrder(b: nat, j: nat, k: nat)
      requires Valid() && b < hash.Length && j < k < |chains[b]|
      ensures 0 <= chains[b][k] < chains[b][j] < used && ptr[chains[b][j]] < ptr[chains[b][k]]
    {
      hide Bucket, WindowHash;
      assert IsBucket(hash[..], val[..], next[..], used, b, chains[b]);
      assert ptr[..][chains[b][j]] < ptr[..][chains[b][k]];
    }

    constructor (buf: seq<byte>, entries: nat, hsize: nat)
      requires hsize > 0
      ensures Valid() && used == 0 && src == buf && hash.Length == hsize && ptr.Length == entries
      ensures chains == seq(hsize, _ => []) && Complete(val[..], used, chains)
      ensures fresh(hash) && fresh(ptr) && fresh(val) && fresh(next)
    {
      src := buf;
      hash := new int[hsize](_ => -1);
      ptr := new nat[entries](_ => 0);
      val := new Hash[entries](_ => 0);
      next := new int[entries](_ => -1);
      used := 0;
      chains := seq(hsize, _ => []);
    }

    // A new entry at the head of the chain of its bucket.
    method Push(p: nat, v: Hash, hashCount: array<nat>)
      requires Valid() && Complete(val[..], used, chains) && used < ptr.Length
      requires IsEntry(src, p, v) && (used > 0 ==> p < ptr[used - 1])
      requires hashCount != ptr && hashCount.Length == hash.Length
      requires forall i :: 0 <= i < hash.Length ==> hashCount[i] == |chains[i]|
      modifies this`used, this`chains, hash, ptr, val, next, hashCount
      ensures Valid() && Complete(val[..], used, chains)
      ensures used == old(used) + 1 && val[..] == old(val[..])[old(used) := v] && ptr[old(used)] == p
      ensures forall i :: 0 <= i < hash.Length ==> hashCount[i] == |chains[i]|
    {
      hide IsTable, Complete, Bucket;
      PushTable(src, hash[..], ptr[..], val[..], next[..], used, chains, p, v);
      var i := Bucket(v, hash.Length);
      ptr[used] := p;
      val[used] := v;
      next[used] := hash[i];
      hash[i] := used;
      hashCount[i] := hashCount[i] + 1;
      chains := chains[i := [used] + chains[i]];
      used := used + 1;
      assert hash[..] == old(hash[..])[i := used - 1];
      assert ptr[..] == old(ptr[..])[used - 1 := p];
      assert next[..] == old(next[..])[used - 1 := old(hash[i])];
      assert val[..] == old(val[..])[used - 1 := v];
    }

    // The loop that populates the index, from the last block of the base to the first.
    method Fill(hashCount: array<nat>)
      requires Valid() && used == 0 && Complete(val[..], used, chains) && 16 * ptr.Length < |src|
      requires hashCount != ptr && hashCount.Length == hash.Length
      requires forall i :: 0 <= i < hash.Length ==> hashCount[i] == |chains[i]|
      modifies this`used, this`chains, hash, ptr, val, next, hashCount
      ensures Valid() && Complete(val[..], used, chains)
      ensures Covers(src, val[..used], 0, ptr.Length)
      ensures forall i :: 0 <= i < hash.Length ==> hashCount[i] == |chains[i]|
    {
      hide IsTable, IsEntry, BlockHash, Covers, WindowHash, Complete;
      CoversNone(src, val[..used], ptr.Length);
      var prevVal: bv32 := 0xffffffff;
      var data: int := ptr.Length * 16 - 16;
      ghost var k := ptr.Length;
      while data >= 0
        invariant 0 <= k <= ptr.Length && data == 16 * k - 16
        invariant Valid() && Complete(val[..], used, chains) && used <= ptr.Length - k
        invariant used > 0 ==> ptr[used - 1] == 16 * k + 16
        invariant prevVal == if used == 0 then 0xffffffff else val[used - 1]
        invariant Covers(src, val[..used], k, ptr.Length)
        invariant forall i :: 0 <= i < hash.Length ==> hashCount[i] == |chains[i]|
        decreases k
      {
        var v := Fingerprint(src, data + 1);
        EntryOfBlock(src, k - 1, v);
        ghost var before := val[..used];
        if v == prevVal {
          KeepLowest(data + 16);
        } else {
          Push(data + 16, v, hashCount);
          prevVal := v;
        }
        assert before <= val[..used] && val[used - 1] == v && v in val[..used];
        CoversMore(src, before, val[..used], k, ptr.Length);
        data := data - 16;
        k := k - 1;
      }
    }

    // Of consecutive identical blocks the lowest is kept.
    method KeepLowest(p: nat)
      requires Valid() && Complete(val[..], used, chains) && used > 0
      requires IsEntry(src, p, val[used - 1]) && p < ptr[used - 1]
      modifies ptr
      ensures Valid() && Complete(val[..], used, chains) && val[..] == old(val[..]) && ptr[used - 1] == p
    {
      hide IsBucket, IsEntry, Complete;
      ptr[used - 1] := p;
      assert ptr[..] == old(ptr[..])[used - 1 := p];
    }

    // Limits the buckets that the fill has left with HASH_LIMIT entries or more.
    method Cull(hashCount: array<nat>)
      requires Valid() && hashCount.Length == hash.Length
      requires forall i :: 0 <= i < hash.Length ==> hashCount[i] == |chains[i]|
      modifies this`chains, next
      ensures Valid() && |chains| == |old(chains)|
      ensures forall i :: 0 <= i < hash.Length ==> chains[i] == Culled(old(chains[i]))
    {
      hide IsTable, IsChain, Culled;
      for i := 0 to hash.Length
        invariant Valid() && |chains| == |old(chains)|
        invariant forall b :: 0 <= b < i ==> chains[b] == Culled(old(chains[b]))
        invariant forall b :: i <= b < hash.Length ==> chains[b] == old(chains[b])
      {
        ghost var links := next[..];
        ChainOfBucket(src, hash[..], ptr[..], val[..], links, used, chains, i);
        if hashCount[i] >= HASH_LIMIT {
          CullChain(next, hash[i], hashCount[i], chains[i]);
        } else {
          CulledShort(chains[i]);
        }
        CullTable(src, hash[..], ptr[..], val[..], links, next[..], used, chains, i);
        chains := chains[i := Culled(chains[i])];
      }
    }
  }

  lemma ChainOfBucket(src: seq<byte>, hash: seq<int>, ptr: seq<nat>, val: seq<Hash>, next: seq<int>,
                      used: nat, chains: seq<seq<int>>, i: nat)
    requires IsTable(src, hash, ptr, val, next, used, chains) && i < |hash|
    ensures IsChain(next, hash[i], chains[i])
  {
    hide IsChain, IsEntry, Bucket;
    assert IsBucket(hash, val, next, used, i, chains[i]);
  }

  lemma CulledShort(c: seq<int>)
    requires |c| < HASH_LIMIT
    ensures Culled(c) == c
  {
  }

  lemma CulledIsSubset(c: seq<int>)
    ensures forall j :: 0 <= j < |Culled(c)| ==> Culled(c)[j] in c
  {
    if |c| >= HASH_LIMIT {
      ThinKeepsMultiples(c, Spacing(|c|));
    }
  }

  // Thinning one bucket leaves a table: the other chains do not meet it.
  lemma CullTable(src: seq<byte>, hash: seq<int>, ptr: seq<nat>, val: seq<Hash>, next: seq<int>, next': seq<int>,
                  used: nat, chains: seq<seq<int>>, i: nat)
    requires IsTable(src, hash, ptr, val, next, used, chains) && i < |hash| && |next'| == |next|
    requires IsChain(next', hash[i], Culled(chains[i]))
    requires forall e :: 0 <= e < |next| && e !in chains[i] ==> next'[e] == next[e]
    ensures IsTable(src, hash, ptr, val, next', used, chains[i := Culled(chains[i])])
  {
    hide IsEntry, Bucket, Culled;
    var chains' := chains[i := Culled(chains[i])];
    assert IsBucket(hash, val, next, used, i, chains[i]);
    forall b | 0 <= b < |hash|
      ensures IsBucket(hash, val, next', used, b, chains'[b])
    {
      assert IsBucket(hash, val, next, used, b, chains[b]);
      if b == i {
        CulledIsSubset(chains[i]);
      } else {
        forall j | 0 <= j < |chains[b]|
          ensures next'[chains[b][j]] == next[chains[b][j]]
        {
          assert Bucket(val[chains[b][j]], |hash|) == b;
        }
      }
    }
  }

  lemma EntryOfBlock(src: seq<byte>, b: nat, v: Hash)
    requires 16 * b + 17 <= |src| && v == WindowHash(src[16 * b + 1..16 * b + 17])
    ensures IsEntry(src, 16 * b + 16, v) && v == BlockHash(src, b)
  {
  }

  function Two(i: nat): nat {
    if i == 0 then 1 else 2 * Two(i - 1)
  }

  lemma TwoToFour()
    ensures Two(4) == 16
  {
  }

  lemma TwoMore(i: nat)
    ensures Two(i + 1) == 2 * Two(i)
  {
  }

  // The number of buckets is the least power of two, from 16 to 2^31, that is a quarter of
  // the number of blocks at least.
  ghost predicate IsHashSize(hsize: nat, entries: nat) {
    exists i: nat :: 4 <= i <= 31 && hsize == Two(i) && (i < 31 ==> entries / 4 <= hsize) && (i > 4 ==> Two(i - 1) < entries / 4)
  }

  lemma {:induction false} TwoPositive(i: nat)
    ensures Two(i) > 0
  {
    if i > 0 {
      TwoPositive(i - 1);
    }
  }

  lemma SizeFound(i: nat, entries: nat)
    requires 4 <= i <= 31 && (i < 31 ==> entries / 4 <= Two(i)) && (i > 4 ==> Two(i - 1) < entries / 4)
    ensures IsHashSize(Two(i), entries) && Two(i) > 0
  {
    TwoPositive(i);
    hide Two;
  }

  // git_delta_index_init: null for an empty base. full holds the chains before the
  // long ones are thinned: they hold every entry, and every block has an entry.
  method Init(buf: seq<byte>) returns (index: DeltaIndex?, ghost full: seq<seq<int>>)
    ensures index == null <==> buf == []
    ensures index != null ==>
      && index.Valid() && index.src == buf
      && index.ptr.Length == Blocks(|buf|) && IsHashSize(index.hash.Length, Blocks(|buf|))
      && |full| == index.hash.Length > 0 && index.used <= index.val.Length
      && Complete(index.val[..], index.used, full)
      && Covers(buf, index.val[..index.used], 0, Blocks(|buf|))
      && index.chains == seq(|full|, i requires 0 <= i < |full| => Culled(full[i]))
  {
    hide Covers, IsTable, IsHashSize, Two;
    TwoToFour();
    index, full := null, [];
    if buf == [] {
      return;
    }
    var entries := Blocks(|buf|);
    var hsize := entries / 4;
    var i, size := 4, 0x10;
    while i < 31 && size < hsize
      invariant 4 <= i <= 31 && size == Two(i) && (i > 4 ==> Two(i - 1) < hsize)
    {
      TwoMore(i);
      i, size := i + 1, 2 * size;
    }
    SizeFound(i, entries);
    index := new DeltaIndex(buf, entries, size);
    var hashCount := new nat[size](_ => 0);
    index.Fill(hashCount);
    full := index.chains;
    index.Cull(hashCount);
  }

  // The number of blocks indexed: offsets must stay within 32 bits.
  function Blocks(n: nat): (b: nat)
    requires n > 0
    ensures 16 * b < n && (n < 0xffff_ffff ==> n <= 16 * b + 16) && (n >= 0xffff_ffff ==> b == 0xfff_ffff)
  {
    if n >= 0xffff_ffff then 0xffff_fffe / RABIN_WINDOW else (n - 1) / RABIN_WINDOW
  }
}
