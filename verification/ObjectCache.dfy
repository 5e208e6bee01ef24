// The object cache of libgit2/src/cache.c with its reference counts: all caches of a
// process together, since they share a counter for the memory they use.
module ObjectCache {
  import opened Options
  import opened CacheModel

  const RANGE := 0x1_0000_0000

  function Occupied(c: Cache): multiset<Ref> {
    Members(c.slots)
  }

  // ---- probing

  // The first slot from a position on that is taken.
  function FirstTaken(slots: seq<Option<Ref>>, from: nat): (i: nat)
    requires from <= |slots|
    ensures from <= i <= |slots| && (i < |slots| ==> slots[i].Some?)
    ensures forall j :: from <= j < i ==> slots[j].None?
    decreases |slots| - from
  {
    if from == |slots| || slots[from].Some? then from else FirstTaken(slots, from + 1)
  }

  // How far it is from there to the next slot that is taken, around the end.
  function Steps(slots: seq<Option<Ref>>, pos: nat): nat
    requires pos < |slots|
  {
    var i := FirstTaken(slots, pos);
    if i < |slots| then i - pos else |slots| - pos + FirstTaken(slots, 0)
  }

  lemma StepsDescend(slots: seq<Option<Ref>>, pos: nat)
    requires pos < |slots| && slots[pos].None? && Members(slots) != multiset{}
    ensures Steps(slots, if pos + 1 == |slots| then 0 else pos + 1) < Steps(slots, pos)
  {
    if FirstTaken(slots, 0) == |slots| {
      NoMembers(slots);
    }
    if pos + 1 == |slots| {
      assert FirstTaken(slots, pos) == FirstTaken(slots, pos + 1) == |slots|;
    }
  }

  lemma NextPosition(n: nat, seed: nat)
    requires n > 0 && Divides(n, RANGE) && seed < RANGE
    ensures (seed + 1) % RANGE % n == if seed % n + 1 == n then 0 else seed % n + 1
  {
    var k: nat :| Product(n, k) == RANGE;
    var q, p := seed / n, seed % n;
    assert seed == n * q + p;
    if p + 1 == n {
      assert seed + 1 == n * (q + 1);
      MultipleMod(n, q + 1, 0);
      if seed + 1 == RANGE {
        assert 0 % n == 0;
      }
    } else {
      MultipleMod(n, q, p + 1);
      if seed + 1 == RANGE {
        MultipleMod(n, k, 0);
      }
    }
  }

  lemma MultipleMod(n: nat, q: nat, p: nat)
    requires p < n
    ensures (n * q + p) % n == p
  {
    var m := n * q + p;
    assert m == n * (m / n) + m % n;
    assert n * (m / n - q) == p - m % n;
    SmallMultiple(n, m / n - q);
  }

  lemma SmallMultiple(n: nat, k: int)
    ensures k != 0 ==> n * k >= n || n * k + n <= 0
  {
    if k > 0 {
      assert n * (k - 1) >= 0;
    } else if k < 0 {
      assert n * (-k - 1) >= 0;
    }
  }

  class Library {
    var heap: Heap
    var caches: seq<Cache>
    // git_cache__current_storage, git_cache__max_storage, git_cache__enabled and
    // git_cache__max_object_size
    var current: int
    var maxStorage: int
    var enabled: bool
    var maxSize: seq<nat>
    // the references that callers hold
    ghost var handles: multiset<Ref>

    constructor (caches: nat, maxStorage: int, maxSize: seq<nat>)
      requires |maxSize| == 8
      ensures Valid() && |this.caches| == caches && heap == map[] && handles == multiset{} && current == 0 && enabled
      ensures this.maxStorage == maxStorage && this.maxSize == maxSize
    {
      NothingCounted(caches);
      this.caches, this.maxStorage, this.maxSize := seq(caches, j => Cache([], 0)), maxStorage, maxSize;
      heap, handles, current, enabled := map[], multiset{}, 0, true;
    }

    // What callers and caches hold is what the objects' counts say, what a cache says it
    // uses is what its objects take, and the shared counter is the sum over all caches.
    ghost predicate Valid()
      reads this
    {
      && Counted(heap, handles + AllMembers(caches))
      && (forall i :: 0 <= i < |caches| ==> Sound(heap, caches[i]))
      && current == TotalUsed(caches) && |maxSize| == 8 && OneSizeEach(heap)
    }

    // All caches but one, and all settings, are as they were, and so are the objects but for
    // their references.
    twostate predicate Elsewhere(i: nat)
      reads this
    {
      && |caches| == |old(caches)| && maxStorage == old(maxStorage) && enabled == old(enabled) && maxSize == old(maxSize)
      && (forall j :: 0 <= j < |caches| && j != i ==> caches[j] == old(caches)[j])
      && SameSizes(old(heap), heap)
    }

    // kh_del of a slot, and git_cached_obj_decref of the object in it.
    method RemoveAt(i: nat, pos: nat, r: Ref, ghost used: int)
      requires i < |caches| && pos < |caches[i].slots| && caches[i].slots[pos] == Some(r)
      requires Counted(heap, handles + AllMembers(caches)) && Sound(heap, caches[i].(used := used))
      modifies this`heap, this`caches
      ensures r in old(heap) && heap == Dropped(old(heap), r) && SameSizes(old(heap), heap)
      ensures caches == old(caches)[i := Cache(old(caches)[i].slots[pos := None], old(caches)[i].used)]
      ensures Counted(heap, handles + AllMembers(caches))
      ensures Sound(heap, caches[i].(used := used - old(heap)[r].size))
      ensures Occupied(caches[i]) + multiset{r} == old(Occupied(caches[i]))
    {
      hide Counted, Sound, SameSizes, Members, AllMembers, Dropped;
      var slots := caches[i].slots[pos := None];
      TakenOut(heap, handles, caches, i, pos, r, used);
      heap := Dropped(heap, r);
      caches := caches[i := Cache(slots, caches[i].used)];
    }

    // cache_evict_entries past its check: eight entries go, found by probing the slots
    // from a random one on. The caller has not yet been told how much memory that is.
    method ProbeAndEvict(i: nat, seed0: nat) returns (evicted: int)
      requires i < |caches| && |Occupied(caches[i])| >= 8 && seed0 < RANGE
      requires Counted(heap, handles + AllMembers(caches)) && forall j :: 0 <= j < |caches| ==> Sound(heap, caches[j])
      modifies this`heap, this`caches
      ensures Counted(heap, handles + AllMembers(caches)) && SameSizes(old(heap), heap) && SameFlags(old(heap), heap)
      ensures |caches| == |old(caches)| && forall j :: 0 <= j < |caches| && j != i ==> caches[j] == old(caches)[j]
      ensures Sound(heap, caches[i].(used := caches[i].used - evicted)) && caches[i].used == old(caches)[i].used
      ensures Occupied(caches[i]) <= old(Occupied(caches[i])) && |Occupied(caches[i])| == old(|Occupied(caches[i])|) - 8
    {
      hide Counted, Sound, SameSizes, SameFlags, Members, AllMembers, Steps, IsTable, Dropped;
      var seed: nat, left := seed0, 8;
      evicted := 0;
      SameSelf(heap);
      FlagsSelf(heap);
      TableFits(heap, caches[i]);
      assert caches[i].(used := caches[i].used - 0) == caches[i];
      while left > 0
        invariant 0 <= left <= 8 && seed < RANGE && i < |caches| == |old(caches)| && |caches[i].slots| > 0
        invariant Counted(heap, handles + AllMembers(caches)) && SameSizes(old(heap), heap) && SameFlags(old(heap), heap)
        invariant forall j :: 0 <= j < |caches| && j != i ==> caches[j] == old(caches)[j]
        invariant caches[i].used == old(caches)[i].used && Sound(heap, caches[i].(used := caches[i].used - evicted))
        invariant Occupied(caches[i]) <= old(Occupied(caches[i]))
        invariant |Occupied(caches[i])| == old(|Occupied(caches[i])|) - 8 + left
        decreases left, Steps(caches[i].slots, seed % |caches[i].slots|)
      {
        var n := |caches[i].slots|;
        var pos := seed % n;
        TableFits(heap, caches[i].(used := caches[i].used - evicted));
        NextPosition(n, seed);
        seed := (seed + 1) % RANGE;
        if caches[i].slots[pos].Some? {
          var evict := caches[i].slots[pos].value;
          left := left - 1;
          evicted := evicted + heap[evict].size;
          ghost var before := heap;
          RemoveAt(i, pos, evict, caches[i].used - evicted + heap[evict].size);
          FlagsStay(old(heap), before, evict);
          SameTwice(old(heap), before, heap);
        } else {
          StepsDescend(caches[i].slots, pos);
        }
      }
    }

    // clear_cache: the references go one by one, then the table is emptied.
    method ClearTable(i: nat)
      requires Valid() && i < |caches|
      modifies this`heap, this`caches, this`current
      ensures Valid() && Elsewhere(i) && SameFlags(old(heap), heap)
      ensures Occupied(caches[i]) == multiset{} && caches[i].used == 0
    {
      hide Counted, Sound, SameSizes, SameFlags, Members, AllMembers, TotalUsed, OneSizeEach, Dropped;
      FlagsSelf(heap);
      ghost var start := caches[i];
      SameSelf(heap);
      assert caches[i].(used := caches[i].used - 0) == caches[i];
      ghost var gone := 0;
      var pos := 0;
      while pos < |caches[i].slots|
        invariant i < |caches| == |old(caches)| && pos <= |caches[i].slots| == |start.slots| && current == old(current)
        invariant Counted(heap, handles + AllMembers(caches)) && SameSizes(old(heap), heap) && SameFlags(old(heap), heap)
        invariant forall j :: 0 <= j < |caches| && j != i ==> caches[j] == old(caches)[j]
        invariant caches[i].used == start.used && Sound(heap, caches[i].(used := caches[i].used - gone))
        invariant forall j :: 0 <= j < pos ==> caches[i].slots[j] == None
      {
        if caches[i].slots[pos].Some? {
          ghost var before := heap;
          var r := caches[i].slots[pos].value;
          RemoveAt(i, pos, r, caches[i].used - gone);
          FlagsStay(old(heap), before, r);
          gone := gone + before[r].size;
          SameTwice(old(heap), before, heap);
        }
        pos := pos + 1;
      }
      NoMembers(caches[i].slots);
      EmptyIsZero(heap, caches[i].(used := caches[i].used - gone));
      ghost var table := caches;
      current := current - caches[i].used;
      caches := caches[i := caches[i].(used := 0)];
      Settled(old(heap), heap, handles, old(caches), table, caches, i, 0);
    }

    // git_cache_clear
    method Clear(i: nat)
      requires Valid() && i < |caches|
      modifies this`heap, this`caches, this`current
      ensures Valid() && Elsewhere(i) && SameFlags(old(heap), heap)
      ensures Occupied(caches[i]) == multiset{}
    {
      ClearTable(i);
    }

    // cache_evict_entries
    method EvictEntries(i: nat, seed: nat)
      requires Valid() && i < |caches| && seed < RANGE
      modifies this`heap, this`caches, this`current
      ensures Valid() && Elsewhere(i) && SameFlags(old(heap), heap)
      ensures Occupied(caches[i]) <= old(Occupied(caches[i]))
      ensures |Occupied(caches[i])| == if old(|Occupied(caches[i])|) < 8 then 0 else old(|Occupied(caches[i])|) - 8
    {
      hide Counted, Sound, SameSizes, SameFlags, Members, AllMembers, TotalUsed, OneSizeEach;
      if TableCount(caches[i]) < 8 {
        ClearTable(i);
        return;
      }
      var evicted := ProbeAndEvict(i, seed);
      ghost var table := caches;
      caches := caches[i := caches[i].(used := caches[i].used - evicted)];
      current := current - evicted;
      Settled(old(heap), heap, handles, old(caches), table, caches, i, caches[i].used);
    }

    // kh_get
    method Find(c: Cache, oid: Oid) returns (pos: Option<nat>)
      requires forall j :: 0 <= j < |c.slots| && c.slots[j].Some? ==> c.slots[j].value in heap
      ensures match pos
        case Some(p) => p < |c.slots| && c.slots[p].Some? && heap[c.slots[p].value].oid == oid
        case None => forall j :: 0 <= j < |c.slots| && c.slots[j].Some? ==> heap[c.slots[j].value].oid != oid
    {
      var p := 0;
      while p < |c.slots|
        invariant p <= |c.slots|
        invariant forall j :: 0 <= j < p && c.slots[j].Some? ==> heap[c.slots[j].value].oid != oid
      {
        if c.slots[p].Some? && heap[c.slots[p].value].oid == oid {
          return Some(p);
        }
        p := p + 1;
      }
      return None;
    }

    // git_cached_obj_incref for a caller.
    method TakeHandle(r: Ref)
      requires Valid() && r in heap && !heap[r].life.Freed?
      modifies this`heap, this`handles
      ensures Valid() && heap == Kept(old(heap), r) && handles == old(handles) + multiset{r}
    {
      hide Counted, Sound, AllMembers, TotalUsed, OneSizeEach, SameSizes;
      KeptCounted(heap, handles + AllMembers(caches), r);
      assert handles + AllMembers(caches) + multiset{r} == handles + multiset{r} + AllMembers(caches);
      AllStay(heap, Kept(heap, r), caches);
      heap := Kept(heap, r);
      handles := handles + multiset{r};
    }

    // git_cached_obj_decref by a caller. The object is freed exactly if no one else holds
    // it and no cache does.
    method Release(r: Ref)
      requires Valid() && r in handles
      modifies this`heap, this`handles
      ensures Valid() && handles == old(handles) - multiset{r} && SameSizes(old(heap), heap)
      ensures r in heap && (heap[r].life.Freed? <==> r !in handles + AllMembers(caches))
      ensures r in old(heap) && heap == Dropped(old(heap), r)
    {
      hide Counted, Sound, AllMembers, TotalUsed, OneSizeEach, SameSizes;
      ghost var rest := handles - multiset{r};
      assert handles + AllMembers(caches) == rest + AllMembers(caches) + multiset{r};
      DroppedCounted(heap, rest + AllMembers(caches), r);
      AllStay(heap, Dropped(heap, r), caches);
      heap := Dropped(heap, r);
      handles := rest;
    }

    // An object that has just been read or parsed, at an address that the allocator chose.
    method Make(r: Ref, oid: Oid, kind: nat, size: nat)
      requires Valid() && r !in heap && kind < 8 && forall q :: q in heap && heap[q].oid == oid ==> heap[q].size == size
      modifies this`heap
      ensures Valid() && heap == old(heap)[r := Obj(oid, kind, size, Any, 0, Fresh)]
    {
      hide Sound;
      AllGrow(heap, r, Obj(oid, kind, size, Any, 0, Fresh), caches);
      NotReferred(handles + AllMembers(caches), r, heap);
      heap := heap[r := Obj(oid, kind, size, Any, 0, Fresh)];
    }

    // cache_get: an object with the id, if it is of the form asked for.
    method Get(i: nat, oid: Oid, flags: Flags) returns (r: Option<Ref>)
      requires Valid() && i < |caches|
      modifies this`heap, this`handles
      ensures Valid() && SameSizes(old(heap), heap)
      ensures r.Some? <==> enabled && exists q :: q in Occupied(caches[i]) && Suits(old(heap), q, oid, flags)
      ensures r.Some? ==> r.value in Occupied(caches[i]) && Suits(old(heap), r.value, oid, flags)
      ensures heap == if r.Some? && r.value in old(heap) then Kept(old(heap), r.value) else old(heap)
      ensures handles == old(handles) + if r.Some? then multiset{r.value} else multiset{}
    {
      hide Counted, AllMembers, TotalUsed, OneSizeEach, Members;
      SameSelf(heap);
      if !enabled {
        return None;
      }
      var pos := Find(caches[i], oid);
      if pos.Some? {
        var entry := caches[i].slots[pos.value].value;
        OnlyOne(heap, caches[i], pos.value);
        if !(flags != Any && heap[entry].flags != flags) {
          CachedIsLive(heap, handles, caches, i, pos.value);
          assert Suits(heap, entry, oid, flags);
          TakeHandle(entry);
          return Some(entry);
        }
      } else {
        NoneFound(heap, caches[i], oid);
      }
      return None;
    }

    // cache_should_store
    function ShouldStore(kind: nat, size: nat): bool
      reads this
      requires kind < |maxSize|
    {
      enabled && size < maxSize[kind]
    }

    // kh_put: any slot that is free will do. The table doubles when there is none, which
    // fails when it cannot get any larger.
    method PutEntry(i: nat, entry: Ref) returns (ok: bool)
      requires Valid() && i < |caches| && entry in heap && !heap[entry].life.Freed?
      requires forall j :: 0 <= j < |caches[i].slots| && caches[i].slots[j].Some? ==>
        caches[i].slots[j].value in heap && heap[caches[i].slots[j].value].oid != heap[entry].oid
      modifies this`heap, this`caches, this`current
      ensures Valid() && Elsewhere(i)
      ensures Occupied(caches[i]) == old(Occupied(caches[i])) + if ok then multiset{entry} else multiset{}
      ensures heap == if ok then Kept(old(heap), entry) else old(heap)
      ensures ok || (caches == old(caches) && 2 * |caches[i].slots| >= RANGE)
    {
      hide Counted, SameSizes, AllMembers, Members, Sound, OneSizeEach, TotalUsed, IsTable;
      SameSelf(heap);
      TableIs(heap, caches[i]);
      assert Occupied(caches[i]) + multiset{} == Occupied(caches[i]);
      var more, pos := Room(caches[i].slots);
      if pos.None? {
        return false;
      }
      var slots := caches[i].slots + more;
      PutIn(heap, handles, caches, i, more, pos.value, entry);
      var c := Cache(slots[pos.value := Some(entry)], caches[i].used + heap[entry].size);
      current := current + heap[entry].size;
      caches := caches[i := c];
      heap := Kept(heap, entry);
      return true;
    }

    // git_cache_store_raw and git_cache_store_parsed write the form down first.
    method SetFlags(entry: Ref, flags: Flags)
      requires Valid() && entry in heap
      modifies this`heap
      ensures Valid() && heap == old(heap)[entry := old(heap)[entry].(flags := flags)] && SameSizes(old(heap), heap)
    {
      hide Sound, OneSizeEach, AllMembers, TotalUsed;
      var heap' := heap[entry := heap[entry].(flags := flags)];
      AllStay(heap, heap', caches);
      heap := heap';
    }

    // The parsed form of an object takes the place of its raw form.
    method ReplaceEntry(i: nat, pos: nat, entry: Ref)
      requires Valid() && i < |caches| && pos < |caches[i].slots| && caches[i].slots[pos].Some?
      requires entry in heap && !heap[entry].life.Freed? && caches[i].slots[pos].value in heap
      requires heap[caches[i].slots[pos].value].oid == heap[entry].oid && caches[i].slots[pos].value != entry
      modifies this`heap, this`caches
      ensures Valid() && Elsewhere(i)
      ensures Occupied(caches[i]) + multiset{old(caches)[i].slots[pos].value} == old(Occupied(caches[i])) + multiset{entry}
      ensures heap == Kept(Dropped(old(heap), old(caches)[i].slots[pos].value), entry)
    {
      hide Counted, SameSizes, AllMembers, Members, Sound, OneSizeEach, TotalUsed, Kept, Dropped;
      var stored := caches[i].slots[pos].value;
      ExchangeIn(heap, handles, caches, i, pos, entry);
      heap := Dropped(heap, stored);
      heap := Kept(heap, entry);
      caches := caches[i := caches[i].(slots := caches[i].slots[pos := Some(entry)])];
    }

    // cache_store where an object with the id is there already.
    method InsertOver(i: nat, pos: nat, entry: Ref) returns (result: Ref)
      requires Valid() && i < |caches| && entry in handles && entry in heap
      requires pos < |caches[i].slots| && caches[i].slots[pos].Some? && caches[i].slots[pos].value in heap
      requires heap[caches[i].slots[pos].value].oid == heap[entry].oid
      modifies this`heap, this`caches, this`handles
      ensures Valid() && Elsewhere(i) && handles == old(handles) - multiset{entry} + multiset{result}
      ensures result in heap && entry in heap && heap[result].oid == heap[entry].oid
      ensures Entered(heap, old(Occupied(caches[i])), caches[i], entry, result) && SameFlags(old(heap), heap)
    {
      hide Counted, AllMembers, Members, OneSizeEach, TotalUsed, Sound, Entered, SameFlags, Kept, Dropped;
      ghost var h, before := heap, Occupied(caches[i]);
      var stored := caches[i].slots[pos].value;
      SameSelf(h);
      FlagsSelf(h);
      FlagsStay(h, h, entry);
      HandleIsLive(heap, handles, caches, entry);
      OnlyOne(heap, caches[i], pos);
      assert handles - multiset{entry} + multiset{entry} == handles;
      result := entry;
      if heap[stored].flags == heap[entry].flags {
        Release(entry);
        ghost var h1 := heap;
        CachedIsLive(heap, handles, caches, i, pos);
        TakeHandle(stored);
        KeptSame(h1, stored);
        SameTwice(h, h1, heap);
        FlagsStay(h, h1, stored);
        result := stored;
      } else if heap[stored].flags == Raw && heap[entry].flags == Parsed {
        ReplaceEntry(i, pos, entry);
        FlagsStay(h, h, stored);
        DroppedSame(h, stored);
        FlagsStay(h, Dropped(h, stored), entry);
      }
      EnteredOver(h, heap, before, caches[i], entry, stored, result);
    }

    // The second half of cache_store: the entry is put into the table, or the caller gets
    // the object that is there already.
    method Insert(i: nat, entry: Ref) returns (result: Ref)
      requires Valid() && i < |caches| && entry in handles && entry in heap
      modifies this`heap, this`caches, this`current, this`handles
      ensures Valid() && Elsewhere(i) && handles == old(handles) - multiset{entry} + multiset{result}
      ensures result in heap && entry in heap && heap[result].oid == heap[entry].oid
      ensures Entered(heap, old(Occupied(caches[i])), caches[i], entry, result) && SameFlags(old(heap), heap)
    {
      hide Counted, AllMembers, Members, OneSizeEach, TotalUsed, Sound, Entered, SameFlags, Kept, Dropped, SameSizes, Divides;
      TableFits(heap, caches[i]);
      var pos := Find(caches[i], heap[entry].oid);
      if pos.Some? {
        result := InsertOver(i, pos.value, entry);
        return;
      }
      ghost var h, before := heap, Occupied(caches[i]);
      SameSelf(h);
      FlagsSelf(h);
      FlagsStay(h, h, entry);
      HandleIsLive(heap, handles, caches, entry);
      NoneFound(heap, caches[i], heap[entry].oid);
      HandedBack(handles, entry);
      hide Occupied;
      var ok := PutEntry(i, entry);
      SameFacts(h, heap, entry);
      EnteredNew(h, heap, before, caches[i], entry, ok);
      result := entry;
    }

    // cache_store behind the first reference that it takes. Where the entry is to be stored,
    // rest is what the cache holds once there is room.
    method Place(i: nat, entry: Ref, seed: nat) returns (result: Ref, ghost rest: multiset<Ref>)
      requires Valid() && i < |caches| && seed < RANGE && entry in handles && entry in heap && heap[entry].kind < 8
      modifies this`heap, this`caches, this`current, this`handles
      ensures Valid() && Elsewhere(i) && handles == old(handles) - multiset{entry} + multiset{result}
      ensures result in heap && entry in heap && heap[result].oid == heap[entry].oid && SameFlags(old(heap), heap)
      ensures Placed(i, entry, result, rest)
    {
      hide Counted, AllMembers, Members, OneSizeEach, TotalUsed, Sound, Entered, SameFlags;
      SameSelf(heap);
      FlagsSelf(heap);
      rest := Occupied(caches[i]);
      assert handles - multiset{entry} + multiset{entry} == handles;
      if !enabled && caches[i].used > 0 {
        Clear(i);
        return entry, rest;
      }
      if !ShouldStore(heap[entry].kind, heap[entry].size) {
        return entry, rest;
      }
      if current > maxStorage {
        EvictEntries(i, seed);
        rest := Occupied(caches[i]);
      }
      ghost var h := heap;
      result := Insert(i, entry);
      SameTwice(old(heap), h, heap);
      FlagsTwice(old(heap), h, heap);
    }

    // What becomes of the cache: it is emptied if caching has been turned off; an entry of
    // a kind or size that is not cached changes nothing; and before another one is stored,
    // eight entries go, or all of fewer, if the caches take more memory than they may.
    twostate predicate Placed(i: nat, entry: Ref, result: Ref, rest: multiset<Ref>)
      requires i < |old(caches)| && i < |caches| && entry in heap && heap[entry].kind < |old(maxSize)|
      reads this
    {
      var before := old(Occupied(caches[i]));
      if !old(enabled) && old(caches)[i].used > 0 then result == entry && Occupied(caches[i]) == multiset{}
      else if !old(enabled) || heap[entry].size >= old(maxSize)[heap[entry].kind] then
        result == entry && Occupied(caches[i]) == before
      else
        && Entered(heap, rest, caches[i], entry, result)
        && if old(current) > old(maxStorage) then rest <= before && |rest| == (if |before| < 8 then 0 else |before| - 8)
           else rest == before
    }

    // cache_store: the form of the entry is written down, and the caller holds one
    // reference more in the end, to the entry or to the object that is stored already.
    method Store(i: nat, entry: Ref, flags: Flags, seed: nat) returns (result: Ref, ghost rest: multiset<Ref>)
      requires Valid() && i < |caches| && seed < RANGE && flags != Any
      requires entry in heap && !heap[entry].life.Freed? && heap[entry].kind < 8
      modifies this`heap, this`caches, this`current, this`handles
      ensures Valid() && Elsewhere(i) && handles == old(handles) + multiset{result}
      ensures result in heap && heap[result].life.Live? && entry in heap && heap[result].oid == heap[entry].oid
      ensures SameFlags(old(heap)[entry := old(heap)[entry].(flags := flags)], heap)
      ensures heap[entry].kind < 8 && Placed(i, entry, result, rest)
    {
      hide Counted, AllMembers, Members, OneSizeEach, TotalUsed, Sound, SameSizes, SameFlags, Entered;
      SetFlags(entry, flags);
      ghost var h1 := heap;
      TakeHandle(entry);
      ghost var h2 := heap;
      KeptSame(h1, entry);
      FlagsSelf(h1);
      SameSelf(h1);
      FlagsStay(h1, h1, entry);
      SameTwice(old(heap), h1, h2);
      SameFacts(old(heap), h2, entry);
      result, rest := Place(i, entry, seed);
      SameTwice(old(heap), h2, heap);
      FlagsTwice(h1, h2, heap);
      assert old(handles) + multiset{entry} - multiset{entry} == old(handles);
      HandleIsLive(heap, handles, caches, result);
    }
  }

  // What storing an entry makes of a table that held before: an object that is there with
  // the same id takes the entry's place if it has the same form, gives way to it if the
  // entry is the parsed form of it, and stays in the table otherwise. There is no room for
  // a new one only if the table cannot grow.
  ghost predicate Entered(heap: Heap, before: multiset<Ref>, c: Cache, entry: Ref, result: Ref) {
    && entry in heap
    && if exists q :: q in before && IsForm(heap, q, entry) then
         forall q :: q in before && IsForm(heap, q, entry) ==>
           if heap[q].flags == heap[entry].flags then result == q && Occupied(c) == before
           else if heap[q].flags == Raw && heap[entry].flags == Parsed
           then result == entry && Occupied(c) + multiset{q} == before + multiset{entry}
           else result == entry && Occupied(c) == before
       else
         && result == entry
         && (Occupied(c) == before + multiset{entry} || (Occupied(c) == before && 2 * |c.slots| >= RANGE))
  }

  predicate IsForm(heap: Heap, q: Ref, entry: Ref) {
    q in heap && entry in heap && heap[q].oid == heap[entry].oid
  }

  lemma EnteredNew(a: Heap, b: Heap, before: multiset<Ref>, c: Cache, entry: Ref, ok: bool)
    requires SameSizes(a, b) && entry in a && forall q :: q in before ==> q in a && a[q].oid != a[entry].oid
    requires Occupied(c) == before + (if ok then multiset{entry} else multiset{}) && (ok || 2 * |c.slots| >= RANGE)
    ensures Entered(b, before, c, entry, entry)
  {
    hide Members;
    assert before + multiset{} == before;
  }

  lemma HandedBack(handles: multiset<Ref>, entry: Ref)
    requires entry in handles
    ensures handles - multiset{entry} + multiset{entry} == handles
  {
  }

  lemma EnteredOver(a: Heap, b: Heap, before: multiset<Ref>, c: Cache, entry: Ref, stored: Ref, result: Ref)
    requires SameSizes(a, b) && SameFlags(a, b) && entry in a && stored in a && stored in before && a[stored].oid == a[entry].oid
    requires forall q :: q in before && q in a && a[q].oid == a[stored].oid ==> q == stored
    requires if a[stored].flags == a[entry].flags then result == stored && Occupied(c) == before
      else if a[stored].flags == Raw && a[entry].flags == Parsed
      then result == entry && Occupied(c) + multiset{stored} == before + multiset{entry}
      else result == entry && Occupied(c) == before
    ensures Entered(b, before, c, entry, result)
  {
    hide Members;
    assert IsForm(b, stored, entry);
  }

  lemma FlagsSelf(heap: Heap)
    ensures SameFlags(heap, heap)
  {
  }

  lemma FlagsTwice(a: Heap, b: Heap, c: Heap)
    requires SameFlags(a, b) && SameFlags(b, c) && forall r :: r in a && r in c ==> r in b
    ensures SameFlags(a, c)
  {
  }

  lemma DroppedSame(heap: Heap, r: Ref)
    requires r in heap
    ensures SameSizes(heap, Dropped(heap, r))
  {
  }

  lemma SameFacts(a: Heap, b: Heap, r: Ref)
    requires SameSizes(a, b) && r in a
    ensures r in b && b[r].kind == a[r].kind && b[r].size == a[r].size && b[r].oid == a[r].oid
  {
  }

  lemma {:induction false} NothingCounted(n: nat)
    ensures AllMembers(seq(n, j => Cache([], 0))) == multiset{} && TotalUsed(seq(n, j => Cache([], 0))) == 0
  {
    if n > 0 {
      NothingCounted(n - 1);
      assert seq(n, j => Cache([], 0))[1..] == seq((n - 1) as nat, j => Cache([], 0));
    }
  }

  lemma KeptSame(heap: Heap, r: Ref)
    requires r in heap
    ensures SameSizes(heap, Kept(heap, r))
  {
  }

  lemma HandleIsLive(heap: Heap, handles: multiset<Ref>, caches: seq<Cache>, r: Ref)
    requires r in handles && Counted(heap, handles + AllMembers(caches))
    ensures r in heap && heap[r].life.Live?
  {
    assert r in handles + AllMembers(caches);
  }

  lemma ExchangeIn(heap: Heap, handles: multiset<Ref>, caches: seq<Cache>, i: nat, pos: nat, r: Ref)
    requires i < |caches| && r in heap && OneSizeEach(heap) && Counted(heap, handles + AllMembers(caches))
    requires forall j :: 0 <= j < |caches| ==> Sound(heap, caches[j])
    requires pos < |caches[i].slots| && caches[i].slots[pos].Some? && caches[i].slots[pos].value in heap
    requires heap[caches[i].slots[pos].value].oid == heap[r].oid
    ensures var slots := caches[i].slots[pos := Some(r)]; var stored := caches[i].slots[pos].value;
      var caches' := caches[i := caches[i].(slots := slots)];
      && r in Dropped(heap, stored)
      && var heap' := Kept(Dropped(heap, stored), r);
        && Counted(heap', handles + AllMembers(caches')) && SameSizes(heap, heap') && OneSizeEach(heap')
        && (forall j :: 0 <= j < |caches'| ==> Sound(heap', caches'[j]))
        && TotalUsed(caches') == TotalUsed(caches)
        && Members(slots) + multiset{stored} == Members(caches[i].slots) + multiset{r}
  {
    hide Counted, SameSizes, AllMembers, Members, Sound, TotalUsed, Kept;
    var c, stored := caches[i], caches[i].slots[pos].value;
    SlotReplaced(heap, c, pos, r);
    var c' := c.(slots := c.slots[pos := Some(r)]);
    var caches' := caches[i := c'];
    AllUpdate(caches, i, c');
    var refs := handles + AllMembers(caches) - multiset{stored};
    assert stored in Members(c.slots) by { SlotIsMember(c.slots, pos); }
    InAll(caches, i, stored);
    Exchanged(handles, AllMembers(caches), AllMembers(caches'), Members(c.slots), Members(c'.slots), stored, r);
    assert refs + multiset{stored} == handles + AllMembers(caches);
    DroppedCounted(heap, refs, stored);
    KeptCounted(Dropped(heap, stored), refs, r);
    SameTwice(heap, Dropped(heap, stored), Kept(Dropped(heap, stored), r));
    forall j | 0 <= j < |caches'|
      ensures Sound(heap, caches'[j])
    {
    }
    AllStay(heap, Kept(Dropped(heap, stored), r), caches');
  }

  lemma Exchanged(h: multiset<Ref>, all: multiset<Ref>, all': multiset<Ref>, m: multiset<Ref>, m': multiset<Ref>,
                                     s: Ref, r: Ref)
    requires all' + m == all + m' && m' + multiset{s} == m + multiset{r} && s in all
    ensures h + all - multiset{s} + multiset{r} == h + all'
  {
    forall x
      ensures (h + all - multiset{s} + multiset{r})[x] == (h + all')[x]
    {
      assert (all' + m)[x] == all'[x] + m[x] && (all + m')[x] == all[x] + m'[x];
      assert (m' + multiset{s})[x] == m'[x] + multiset{s}[x] && (m + multiset{r})[x] == m[x] + multiset{r}[x];
    }
  }

  // The free slots that have to be added, and the slot to take.
  method Room(slots: seq<Option<Ref>>) returns (more: seq<Option<Ref>>, pos: Option<nat>)
    requires IsTable(|slots|)
    ensures forall j :: 0 <= j < |more| ==> more[j] == None
    ensures pos.Some? ==> IsTable(|slots| + |more|) && pos.value < |slots| + |more| && (slots + more)[pos.value] == None
    ensures pos.None? ==> 2 * |slots| >= RANGE && forall j :: 0 <= j < |slots| ==> slots[j] != None
  {
    more := [];
    var p := 0;
    while p < |slots|
      invariant p <= |slots| && forall j :: 0 <= j < p ==> slots[j] != None
    {
      if slots[p] == None {
        return [], Some(p);
      }
      p := p + 1;
    }
    if |slots| == 0 {
      Pow32();
      return [None, None, None, None], Some(0);
    }
    if 2 * |slots| >= RANGE {
      return [], None;
    }
    TableDoubles(|slots|);
    more := seq(|slots|, j => None);
    return more, Some(|slots|);
  }

  lemma PutIn(heap: Heap, handles: multiset<Ref>, caches: seq<Cache>, i: nat, more: seq<Option<Ref>>, pos: nat, r: Ref)
    requires i < |caches| && r in heap && OneSizeEach(heap) && Counted(heap, handles + AllMembers(caches))
    requires forall j :: 0 <= j < |caches| ==> Sound(heap, caches[j])
    requires (forall j :: 0 <= j < |more| ==> more[j] == None) && IsTable(|caches[i].slots| + |more|)
    requires var slots := caches[i].slots + more; pos < |slots| && slots[pos] == None
    requires forall j :: 0 <= j < |caches[i].slots| && caches[i].slots[j].Some? ==>
      caches[i].slots[j].value in heap && heap[caches[i].slots[j].value].oid != heap[r].oid
    ensures var slots := (caches[i].slots + more)[pos := Some(r)]; var heap' := Kept(heap, r);
      var caches' := caches[i := Cache(slots, caches[i].used + heap[r].size)];
      && Counted(heap', handles + AllMembers(caches')) && SameSizes(heap, heap') && OneSizeEach(heap')
      && (forall j :: 0 <= j < |caches'| ==> Sound(heap', caches'[j]))
      && TotalUsed(caches') == TotalUsed(caches) + heap[r].size
      && Members(slots) == Members(caches[i].slots) + multiset{r}
  {
    hide Counted, SameSizes, AllMembers, Members, Sound, OneSizeEach, TotalUsed, IsTable, Kept;
    var c := caches[i];
    var wide := c.(slots := c.slots + more);
    SoundGrows(heap, c, more);
    assert forall j :: 0 <= j < |wide.slots| && wide.slots[j].Some? ==> wide.slots[j] == c.slots[j];
    SlotFilled(heap, wide, pos, r);
    var c' := Cache(wide.slots[pos := Some(r)], c.used + heap[r].size);
    var caches' := caches[i := c'];
    AllUpdate(caches, i, c');
    Balance(AllMembers(caches), Members(c'.slots), AllMembers(caches'), Members(c.slots), multiset{r});
    assert handles + AllMembers(caches') == handles + AllMembers(caches) + multiset{r};
    KeptCounted(heap, handles + AllMembers(caches), r);
    forall j | 0 <= j < |caches'|
      ensures Sound(heap, caches'[j])
    {
    }
    AllStay(heap, Kept(heap, r), caches');
  }

  predicate Suits(heap: Heap, r: Ref, oid: Oid, flags: Flags) {
    r in heap && heap[r].oid == oid && (flags.Any? || heap[r].flags == flags)
  }

  lemma AllStay(a: Heap, b: Heap, caches: seq<Cache>)
    requires SameSizes(a, b) && OneSizeEach(a) && forall i :: 0 <= i < |caches| ==> Sound(a, caches[i])
    ensures OneSizeEach(b) && forall i :: 0 <= i < |caches| ==> Sound(b, caches[i])
  {
    hide Sound;
    forall i | 0 <= i < |caches|
      ensures Sound(b, caches[i])
    {
      SoundStays(a, b, caches[i]);
    }
  }

  lemma AllGrow(heap: Heap, r: Ref, o: Obj, caches: seq<Cache>)
    requires r !in heap && forall i :: 0 <= i < |caches| ==> Sound(heap, caches[i])
    ensures forall i :: 0 <= i < |caches| ==> Sound(heap[r := o], caches[i])
  {
    forall i | 0 <= i < |caches|
      ensures Sound(heap[r := o], caches[i])
    {
      SizesGrow(heap, r, o, caches[i].slots);
    }
  }

  lemma {:induction false} SizesGrow(heap: Heap, r: Ref, o: Obj, slots: seq<Option<Ref>>)
    requires r !in heap && forall i :: 0 <= i < |slots| && slots[i].Some? ==> slots[i].value in heap
    ensures TotalSize(heap[r := o], slots) == TotalSize(heap, slots)
  {
    if slots != [] {
      assert forall i :: 0 <= i < |slots[1..]| ==> slots[1..][i] == slots[i + 1];
      SizesGrow(heap, r, o, slots[1..]);
    }
  }

  lemma NotReferred(refs: multiset<Ref>, r: Ref, heap: Heap)
    requires Counted(heap, refs) && r !in heap
    ensures refs[r] == 0
  {
    assert r !in refs;
  }

  lemma CachedIsLive(heap: Heap, handles: multiset<Ref>, caches: seq<Cache>, i: nat, pos: nat)
    requires i < |caches| && pos < |caches[i].slots| && caches[i].slots[pos].Some?
    requires Counted(heap, handles + AllMembers(caches))
    ensures var r := caches[i].slots[pos].value; r in heap && heap[r].life.Live? && heap[r].refcount >= 1
  {
    var r := caches[i].slots[pos].value;
    SlotIsMember(caches[i].slots, pos);
    InAll(caches, i, r);
    assert r in handles + AllMembers(caches);
  }

  lemma {:induction false} InAll(caches: seq<Cache>, i: nat, r: Ref)
    requires i < |caches| && r in Members(caches[i].slots)
    ensures r in AllMembers(caches)
  {
    if i > 0 {
      InAll(caches[1..], i - 1, r);
    }
  }

  // An id is in the table once at most.
  lemma OnlyOne(heap: Heap, c: Cache, pos: nat)
    requires Sound(heap, c) && pos < |c.slots| && c.slots[pos].Some?
    ensures var r := c.slots[pos].value;
      r in Members(c.slots) && forall q :: q in Members(c.slots) && q in heap && heap[q].oid == heap[r].oid ==> q == r
  {
    var r := c.slots[pos].value;
    SlotIsMember(c.slots, pos);
    forall q | q in Members(c.slots) && q in heap && heap[q].oid == heap[r].oid
      ensures q == r
    {
      var j := MemberHasSlot(c.slots, q);
    }
  }

  lemma NoneFound(heap: Heap, c: Cache, oid: Oid)
    requires forall j :: 0 <= j < |c.slots| && c.slots[j].Some? ==> c.slots[j].value in heap && heap[c.slots[j].value].oid != oid
    ensures forall q :: q in Members(c.slots) ==> q in heap && heap[q].oid != oid
  {
    forall q | q in Members(c.slots)
      ensures q in heap && heap[q].oid != oid
    {
      var j := MemberHasSlot(c.slots, q);
    }
  }

  // kh_size
  function TableCount(c: Cache): nat {
    |Members(c.slots)|
  }

  lemma EmptyIsZero(heap: Heap, c: Cache)
    requires Sound(heap, c) && forall j :: 0 <= j < |c.slots| ==> c.slots[j] == None
    ensures c.used == 0
  {
    NothingTotals(heap, c.slots);
  }

  // All is as it should be again once the memory in use has been brought up to date.
  lemma Settled(before: Heap, heap: Heap, handles: multiset<Ref>, start: seq<Cache>, table: seq<Cache>,
                                   caches: seq<Cache>, i: nat, used: int)
    requires i < |start| == |table| && forall j :: 0 <= j < |start| && j != i ==> table[j] == start[j]
    requires caches == table[i := table[i].(used := used)] && table[i].used == start[i].used
    requires forall j :: 0 <= j < |start| ==> Sound(before, start[j])
    requires SameSizes(before, heap) && Sound(heap, caches[i]) && OneSizeEach(before)
    requires Counted(heap, handles + AllMembers(table))
    ensures Counted(heap, handles + AllMembers(caches)) && OneSizeEach(heap)
    ensures forall j :: 0 <= j < |caches| ==> Sound(heap, caches[j])
    ensures TotalUsed(caches) == TotalUsed(start) - start[i].used + used
  {
    hide Counted, Sound, AllMembers, TotalUsed, Members;
    AllUpdate(table, i, caches[i]);
    SameMembers(AllMembers(caches), AllMembers(table), Members(table[i].slots));
    assert table == start[i := table[i]];
    AllUpdate(start, i, table[i]);
    forall j | 0 <= j < |caches|
      ensures Sound(heap, caches[j])
    {
      if j != i {
        SoundStays(before, heap, caches[j]);
      }
    }
  }

  lemma SameMembers(a: multiset<Ref>, b: multiset<Ref>, m: multiset<Ref>)
    requires a + m == b + m
    ensures a == b
  {
    forall x
      ensures a[x] == b[x]
    {
      assert (a + m)[x] == a[x] + m[x] && (b + m)[x] == b[x] + m[x];
    }
  }

  // What a slot that is given up does to the references and to the size of the table.
  lemma TakenOut(heap: Heap, handles: multiset<Ref>, caches: seq<Cache>, i: nat, pos: nat, r: Ref, used: int)
    requires i < |caches| && pos < |caches[i].slots| && caches[i].slots[pos] == Some(r)
    requires Counted(heap, handles + AllMembers(caches)) && Sound(heap, caches[i].(used := used))
    ensures r in heap
    ensures var slots := caches[i].slots[pos := None]; var heap' := Dropped(heap, r);
      && Counted(heap', handles + AllMembers(caches[i := Cache(slots, caches[i].used)])) && SameSizes(heap, heap')
      && Members(slots) + multiset{r} == Members(caches[i].slots)
      && Sound(heap', Cache(slots, used - heap[r].size))
  {
    hide Counted, SameSizes, Members, AllMembers, Dropped;
    var c := caches[i];
    var slots := c.slots[pos := None];
    var c' := Cache(slots, c.used);
    MembersUpdate(c.slots, pos, None);
    assert Members(slots) + multiset{r} == Members(c.slots);
    AllUpdate(caches, i, c');
    Balance(AllMembers(caches[i := c']), Members(c.slots), AllMembers(caches), Members(slots), multiset{r});
    assert handles + AllMembers(caches) == handles + AllMembers(caches[i := c']) + multiset{r};
    DroppedCounted(heap, handles + AllMembers(caches[i := c']), r);
    SlotCleared(heap, c.(used := used), pos, r);
    SoundStays(heap, Dropped(heap, r), Cache(slots, used - heap[r].size));
  }

  lemma SlotCleared(heap: Heap, c: Cache, pos: nat, r: Ref)
    requires Sound(heap, c) && pos < |c.slots| && c.slots[pos] == Some(r)
    ensures r in heap && Sound(heap, Cache(c.slots[pos := None], c.used - heap[r].size))
  {
    SizeUpdate(heap, c.slots, pos, None);
    var slots := c.slots[pos := None];
    assert forall j :: 0 <= j < |slots| && slots[j].Some? ==> slots[j] == c.slots[j];
  }

  lemma Balance(a: multiset<Ref>, m: multiset<Ref>, b: multiset<Ref>, n: multiset<Ref>, r: multiset<Ref>)
    requires a + m == b + n && n + r == m
    ensures a + r == b
  {
    forall x
      ensures (a + r)[x] == b[x]
    {
      assert (a + m)[x] == a[x] + m[x] && (b + n)[x] == b[x] + n[x] && (n + r)[x] == n[x] + r[x];
    }
  }

  // Objects with one id have one size.
  ghost predicate OneSizeEach(heap: Heap) {
    forall r, q :: r in heap && q in heap && heap[r].oid == heap[q].oid ==> heap[r].size == heap[q].size
  }
}
