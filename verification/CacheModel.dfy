// The objects and tables of libgit2/src/cache.c, and how they are counted.
module CacheModel {
  import opened Options

  // The address of an object.
  type Ref = nat

  type Oid = nat

  datatype Flags = Any | Raw | Parsed

  // An object that has been made and not yet been stored has no reference; one whose last
  // reference is given up is freed.
  datatype Life = Fresh | Live | Freed

  // git_cached_obj
  datatype Obj = Obj(oid: Oid, kind: nat, size: nat, flags: Flags, refcount: int, life: Life)

  type Heap = map<Ref, Obj>

  // git_cache: the table has slots that are taken or free.
  datatype Cache = Cache(slots: seq<Option<Ref>>, used: int)

  function Members(slots: seq<Option<Ref>>): multiset<Ref> {
    if slots == [] then multiset{}
    else Of(slots[0]) + Members(slots[1..])
  }

  function AllMembers(caches: seq<Cache>): multiset<Ref> {
    if caches == [] then multiset{} else Members(caches[0].slots) + AllMembers(caches[1..])
  }

  function SlotSize(heap: Heap, slot: Option<Ref>): nat {
    if slot.Some? && slot.value in heap then heap[slot.value].size else 0
  }

  // The memory that the objects in the table take.
  function TotalSize(heap: Heap, slots: seq<Option<Ref>>): nat {
    if slots == [] then 0 else SlotSize(heap, slots[0]) + TotalSize(heap, slots[1..])
  }

  function TotalUsed(caches: seq<Cache>): int {
    if caches == [] then 0 else caches[0].used + TotalUsed(caches[1..])
  }

  function Of(slot: Option<Ref>): multiset<Ref> {
    if slot.Some? then multiset{slot.value} else multiset{}
  }

  // ---- changing one slot, one cache

  lemma Shuffle(a: multiset<Ref>, b: multiset<Ref>, c: multiset<Ref>, d: multiset<Ref>, e: multiset<Ref>)
    requires b + c == d + e
    ensures a + b + c == a + d + e
  {
    assert a + b + c == a + (b + c) == a + (d + e);
  }

  lemma {:induction false} MembersUpdate(slots: seq<Option<Ref>>, i: nat, slot: Option<Ref>)
    requires i < |slots|
    ensures Members(slots[i := slot]) + Of(slots[i]) == Members(slots) + Of(slot)
  {
    hide Of;
    var upd := slots[i := slot];
    if i == 0 {
      assert upd[1..] == slots[1..];
      var m := Members(slots[1..]);
      assert Of(slot) + m + Of(slots[0]) == Of(slots[0]) + m + Of(slot);
    } else {
      assert upd[1..] == slots[1..][i - 1 := slot] && upd[0] == slots[0];
      MembersUpdate(slots[1..], i - 1, slot);
      Shuffle(Of(slots[0]), Members(upd[1..]), Of(slots[i]), Members(slots[1..]), Of(slot));
    }
  }

  lemma {:induction false} SizeUpdate(heap: Heap, slots: seq<Option<Ref>>, i: nat, slot: Option<Ref>)
    requires i < |slots|
    ensures TotalSize(heap, slots[i := slot]) + SlotSize(heap, slots[i]) == TotalSize(heap, slots) + SlotSize(heap, slot)
  {
    if i == 0 {
      assert slots[i := slot][1..] == slots[1..];
    } else {
      assert slots[i := slot][1..] == slots[1..][i - 1 := slot];
      SizeUpdate(heap, slots[1..], i - 1, slot);
    }
  }

  lemma {:induction false} AllUpdate(caches: seq<Cache>, i: nat, c: Cache)
    requires i < |caches|
    ensures AllMembers(caches[i := c]) + Members(caches[i].slots) == AllMembers(caches) + Members(c.slots)
    ensures TotalUsed(caches[i := c]) == TotalUsed(caches) - caches[i].used + c.used
  {
    hide Members;
    var upd := caches[i := c];
    if i == 0 {
      assert upd[1..] == caches[1..];
      var m := AllMembers(caches[1..]);
      assert Members(c.slots) + m + Members(caches[0].slots) == Members(caches[0].slots) + m + Members(c.slots);
    } else {
      assert upd[1..] == caches[1..][i - 1 := c] && upd[0] == caches[0];
      AllUpdate(caches[1..], i - 1, c);
      Shuffle(Members(caches[0].slots), AllMembers(upd[1..]), Members(caches[i].slots), AllMembers(caches[1..]), Members(c.slots));
    }
  }

  // ---- members and slots

  lemma {:induction false} MemberHasSlot(slots: seq<Option<Ref>>, r: Ref) returns (i: nat)
    requires r in Members(slots)
    ensures i < |slots| && slots[i] == Some(r)
  {
    if slots[0] == Some(r) {
      i := 0;
    } else {
      i := MemberHasSlot(slots[1..], r);
      i := i + 1;
    }
  }

  lemma {:induction false} SlotIsMember(slots: seq<Option<Ref>>, i: nat)
    requires i < |slots| && slots[i].Some?
    ensures slots[i].value in Members(slots)
  {
    if i > 0 {
      SlotIsMember(slots[1..], i - 1);
    } else {
      assert slots[0].value in Of(slots[0]);
    }
  }

  lemma {:induction false} NoMembers(slots: seq<Option<Ref>>)
    requires forall i :: 0 <= i < |slots| ==> slots[i] == None
    ensures Members(slots) == multiset{}
  {
    if slots != [] {
      NoMembers(slots[1..]);
    }
  }

  // ---- sizes do not change

  ghost predicate SameSizes(a: Heap, b: Heap) {
    && (forall r :: r in a <==> r in b)
    && (forall r :: r in a ==> b[r].size == a[r].size && b[r].oid == a[r].oid && b[r].kind == a[r].kind)
  }

  ghost predicate SameFlags(a: Heap, b: Heap) {
    forall r :: r in a && r in b ==> b[r].flags == a[r].flags
  }

  lemma FlagsStay(a: Heap, b: Heap, r: Ref)
    requires SameFlags(a, b) && SameSizes(a, b) && r in b
    ensures SameFlags(a, Kept(b, r)) && SameFlags(a, Dropped(b, r))
  {
  }

  lemma {:induction false} SizesStay(a: Heap, b: Heap, slots: seq<Option<Ref>>)
    requires SameSizes(a, b) && forall i :: 0 <= i < |slots| && slots[i].Some? ==> slots[i].value in a
    ensures TotalSize(b, slots) == TotalSize(a, slots)
  {
    if slots != [] {
      assert forall i :: 0 <= i < |slots[1..]| ==> slots[1..][i] == slots[i + 1];
      SizesStay(a, b, slots[1..]);
    }
  }

  // ---- references

  // git_cached_obj_incref
  function Kept(heap: Heap, r: Ref): Heap
    requires r in heap
  {
    heap[r := heap[r].(refcount := heap[r].refcount + 1, life := Live)]
  }

  // git_cached_obj_decref: the object is freed when its count reaches zero.
  function Dropped(heap: Heap, r: Ref): Heap
    requires r in heap
  {
    var n := heap[r].refcount - 1;
    heap[r := heap[r].(refcount := n, life := if n == 0 then Freed else heap[r].life)]
  }

  // Every object's count is the number of references there are to it, and it lives just
  // as long as there are any.
  ghost predicate Counted(heap: Heap, refs: multiset<Ref>) {
    && (forall r :: r in refs ==> r in heap)
    && (forall r :: r in heap ==> heap[r].refcount == refs[r] && (heap[r].life.Live? <==> refs[r] > 0))
  }

  lemma KeptCounted(heap: Heap, refs: multiset<Ref>, r: Ref)
    requires Counted(heap, refs) && r in heap
    ensures Counted(Kept(heap, r), refs + multiset{r}) && SameSizes(heap, Kept(heap, r))
  {
  }

  lemma DroppedCounted(heap: Heap, refs: multiset<Ref>, r: Ref)
    requires Counted(heap, refs + multiset{r})
    ensures r in heap && Counted(Dropped(heap, r), refs) && SameSizes(heap, Dropped(heap, r))
    ensures Dropped(heap, r)[r].life.Freed? <==> r !in refs
  {
    assert r in refs + multiset{r};
  }

  // ---- tables

  function Pow2(e: nat): nat {
    if e == 0 then 1 else 2 * Pow2(e - 1)
  }

  // Table sizes are powers of two, so that they divide the range of the probing counter.
  ghost predicate IsTable(n: nat) {
    n == 0 || exists e :: 2 <= e <= 31 && n == Pow2(e)
  }

  ghost predicate Divides(n: nat, m: nat) {
    exists k: nat :: Product(n, k) == m
  }

  function Product(n: nat, k: nat): nat {
    n * k
  }

  lemma {:induction false} PowSum(d: nat, e: nat)
    ensures Pow2(d) * Pow2(e) == Pow2(d + e)
  {
    if d > 0 {
      PowSum(d - 1, e);
      assert Pow2(d) * Pow2(e) == 2 * (Pow2(d - 1) * Pow2(e));
    }
  }

  lemma Pow32()
    ensures Pow2(32) == 0x1_0000_0000 && Pow2(2) == 4
  {
    assert Pow2(4) == 16 && Pow2(8) == 256 && Pow2(12) == 4096 && Pow2(16) == 65536;
    PowSum(16, 16);
  }

  lemma TableDivides(n: nat)
    requires IsTable(n) && n > 0
    ensures Divides(n, 0x1_0000_0000)
  {
    var e :| 2 <= e <= 31 && n == Pow2(e);
    PowSum(e, 32 - e);
    Pow32();
    assert Product(n, Pow2(32 - e)) == 0x1_0000_0000;
  }

  lemma TableDoubles(n: nat)
    requires IsTable(n) && 0 < n && 2 * n < 0x1_0000_0000
    ensures IsTable(2 * n)
  {
    var e :| 2 <= e <= 31 && n == Pow2(e);
    Pow32();
    assert 2 * Pow2(31) == 0x1_0000_0000;
    assert e != 31;
    assert 2 * n == Pow2(e + 1);
  }

  // No two objects of a table have the same id.
  ghost predicate Distinct(heap: Heap, slots: seq<Option<Ref>>) {
    forall i, j :: 0 <= i < j < |slots| && slots[i].Some? && slots[j].Some? && slots[i].value in heap && slots[j].value in heap ==>
      heap[slots[i].value].oid != heap[slots[j].value].oid
  }

  // What holds of a cache between the calls.
  ghost predicate Sound(heap: Heap, c: Cache) {
    && (forall i :: 0 <= i < |c.slots| && c.slots[i].Some? ==> c.slots[i].value in heap)
    && Distinct(heap, c.slots) && c.used == TotalSize(heap, c.slots) && IsTable(|c.slots|)
  }

  lemma SoundStays(a: Heap, b: Heap, c: Cache)
    requires Sound(a, c) && SameSizes(a, b)
    ensures Sound(b, c)
  {
    SizesStay(a, b, c.slots);
  }

  lemma SameSelf(heap: Heap)
    ensures SameSizes(heap, heap)
  {
  }

  lemma SameTwice(a: Heap, b: Heap, c: Heap)
    requires SameSizes(a, b) && SameSizes(b, c)
    ensures SameSizes(a, c)
  {
  }

  lemma TableFits(heap: Heap, c: Cache)
    requires Sound(heap, c)
    ensures c.slots == [] || Divides(|c.slots|, 0x1_0000_0000)
    ensures Members(c.slots) != multiset{} ==> c.slots != []
    ensures forall i :: 0 <= i < |c.slots| && c.slots[i].Some? ==> c.slots[i].value in heap
  {
    if c.slots != [] {
      TableDivides(|c.slots|);
    }
  }

  lemma TableIs(heap: Heap, c: Cache)
    requires Sound(heap, c)
    ensures IsTable(|c.slots|)
  {
  }

  // ---- a larger table

  lemma {:induction false} MoreSlots(heap: Heap, a: seq<Option<Ref>>, b: seq<Option<Ref>>)
    requires forall j :: 0 <= j < |b| ==> b[j] == None
    ensures Members(a + b) == Members(a) && TotalSize(heap, a + b) == TotalSize(heap, a)
  {
    if a == [] {
      assert a + b == b;
      NoMembers(b);
      NothingTotals(heap, b);
    } else {
      assert (a + b)[1..] == a[1..] + b;
      MoreSlots(heap, a[1..], b);
    }
  }

  lemma {:induction false} NothingTotals(heap: Heap, slots: seq<Option<Ref>>)
    requires forall j :: 0 <= j < |slots| ==> slots[j] == None
    ensures TotalSize(heap, slots) == 0
  {
    if slots != [] {
      NothingTotals(heap, slots[1..]);
    }
  }

  lemma SoundGrows(heap: Heap, c: Cache, b: seq<Option<Ref>>)
    requires Sound(heap, c) && IsTable(|c.slots| + |b|) && forall j :: 0 <= j < |b| ==> b[j] == None
    ensures Sound(heap, c.(slots := c.slots + b)) && Members(c.slots + b) == Members(c.slots)
  {
    MoreSlots(heap, c.slots, b);
  }

  lemma SlotFilled(heap: Heap, c: Cache, pos: nat, r: Ref)
    requires Sound(heap, c) && pos < |c.slots| && c.slots[pos].None? && r in heap
    requires forall j :: 0 <= j < |c.slots| && c.slots[j].Some? ==> heap[c.slots[j].value].oid != heap[r].oid
    ensures Sound(heap, Cache(c.slots[pos := Some(r)], c.used + heap[r].size))
    ensures Members(c.slots[pos := Some(r)]) == Members(c.slots) + multiset{r}
  {
    hide Members, TotalSize, IsTable;
    MembersUpdate(c.slots, pos, Some(r));
    SizeUpdate(heap, c.slots, pos, Some(r));
    DistinctUpdate(heap, c.slots, pos, r);
    assert Of(None) == multiset{} && Of(Some(r)) == multiset{r};
    assert Members(c.slots[pos := Some(r)]) + multiset{} == Members(c.slots[pos := Some(r)]);
  }

  // The parsed form takes the place of the raw form of the same object.
  lemma SlotReplaced(heap: Heap, c: Cache, pos: nat, r: Ref)
    requires Sound(heap, c) && pos < |c.slots| && c.slots[pos].Some? && r in heap
    requires heap[c.slots[pos].value].oid == heap[r].oid && heap[c.slots[pos].value].size == heap[r].size
    ensures Sound(heap, c.(slots := c.slots[pos := Some(r)]))
    ensures Members(c.slots[pos := Some(r)]) + multiset{c.slots[pos].value} == Members(c.slots) + multiset{r}
  {
    hide Members, TotalSize, IsTable;
    MembersUpdate(c.slots, pos, Some(r));
    SizeUpdate(heap, c.slots, pos, Some(r));
    DistinctUpdate(heap, c.slots, pos, r);
    assert Of(c.slots[pos]) == multiset{c.slots[pos].value} && Of(Some(r)) == multiset{r};
  }

  lemma DistinctUpdate(heap: Heap, slots: seq<Option<Ref>>, pos: nat, r: Ref)
    requires pos < |slots| && r in heap && Distinct(heap, slots)
    requires forall j :: 0 <= j < |slots| && j != pos && slots[j].Some? ==>
      slots[j].value in heap && heap[slots[j].value].oid != heap[r].oid
    ensures Distinct(heap, slots[pos := Some(r)])
  {
  }
}
