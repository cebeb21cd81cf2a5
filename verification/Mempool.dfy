/** Memory pools of fixed-size objects (mempool.c) on top of the kernel's
    allocator and of the static emergency area. */
module Mempool {
  import opened Words

  const MAX_ALIGN: nat := 16
  const PAGE_SIZE: nat := 4096
  const SOS_MEMORY_SIZE: nat := 16384

  /** `UNW_ALIGN` for the two alignments in use. */
  function AlignMax(x: nat): (r: nat)
    ensures x <= r < x + MAX_ALIGN && r % MAX_ALIGN == 0
  {
    (x + MAX_ALIGN - 1) / MAX_ALIGN * MAX_ALIGN
  }

  function AlignPage(x: nat): (r: nat)
    ensures x <= r < x + PAGE_SIZE && r % PAGE_SIZE == 0 && r % MAX_ALIGN == 0
  {
    (x + PAGE_SIZE - 1) / PAGE_SIZE * PAGE_SIZE
  }

  /** A half-open range of addresses. */
  datatype Region = Region(start: int, size: nat)

  predicate Apart(a: Region, b: Region) {
    a.start + a.size <= b.start || b.start + b.size <= a.start
  }

  ghost predicate Inside(a: Region, b: Region) {
    b.start <= a.start && a.start + a.size <= b.start + b.size
  }

  ghost predicate AllApart(rs: set<Region>) {
    forall a, b :: a in rs && b in rs && a != b ==> Apart(a, b)
  }

  /** What was asked of the store: memory, and the answer; or emergency memory. */
  datatype Request = Memory(size: nat, got: int) | Emergency(size: nat)

  /** Where memory comes from. `regions` is everything handed out so far, `requests` what
      was asked for. */
  class Store {
    const sosBase: int
    var sosFreePos: nat
    var regions: set<Region>
    ghost var requests: seq<Request>

    constructor (sosBase: int)
      requires sosBase > 0 && sosBase % MAX_ALIGN == 0
      ensures Valid() && regions == {} && requests == []
    {
      this.sosBase, sosFreePos, regions, requests := sosBase, 0, {}, [];
    }

    /** Memory outside what is left of the emergency area. */
    predicate ClearOfSos(r: Region)
      reads this`sosFreePos
    {
      sosFreePos >= SOS_MEMORY_SIZE || Apart(r, Region(sosBase + sosFreePos, SOS_MEMORY_SIZE - sosFreePos))
    }

    ghost predicate Valid()
      reads this
    {
      && sosBase > 0 && sosBase % MAX_ALIGN == 0 && sosFreePos % MAX_ALIGN == 0
      && AllApart(regions)
      && forall r :: r in regions ==> ClearOfSos(r)
    }

    /** `GET_MEMORY`: null, or aligned memory that nobody holds. */
    method GetMemory(size: nat) returns (mem: int)
      requires Valid() && size > 0
      modifies this`regions, this`requests
      ensures Valid() && requests == old(requests) + [Memory(size, mem)]
      ensures mem == 0 ==> regions == old(regions)
      ensures mem != 0 ==> mem > 0 && mem % MAX_ALIGN == 0 && regions == old(regions) + {Region(mem, size)}
      ensures mem != 0 ==> forall r :: r in old(regions) ==> Apart(r, Region(mem, size))
    {
      mem :| mem == 0 ||
             (mem > 0 && mem % MAX_ALIGN == 0 && ClearOfSos(Region(mem, size))
              && forall r :: r in regions ==> Apart(r, Region(mem, size)));
      requests := requests + [Memory(size, mem)];
      if mem != 0 {
        assert ClearOfSos(Region(mem, size));
        regions := regions + {Region(mem, size)};
        forall r | r in regions
          ensures ClearOfSos(r)
        {
          assert r == Region(mem, size) || old(ClearOfSos(r));
        }
      }
    }

    /** `sos_alloc`; None is the failed assertion on an exhausted area. */
    method SosAlloc(size: nat) returns (mem: Option<int>)
      requires Valid() && size > 0
      modifies this
      ensures Valid() && requests == old(requests) + [Emergency(size)]
      ensures mem.None? <==> sosFreePos > SOS_MEMORY_SIZE
      ensures mem.None? ==> regions == old(regions)
      ensures mem.Some? ==> mem.value > 0 && mem.value % MAX_ALIGN == 0
                            && regions == old(regions) + {Region(mem.value, AlignMax(size))}
      ensures mem.Some? ==> forall r :: r in old(regions) ==> Apart(r, Region(mem.value, AlignMax(size)))
    {
      requests := requests + [Emergency(size)];
      var aligned := AlignMax(size);
      var pos := sosFreePos;
      sosFreePos := sosFreePos + aligned;
      if pos + aligned > SOS_MEMORY_SIZE {
        return None;
      }
      mem := Some(sosBase + pos);
      regions := regions + {Region(sosBase + pos, aligned)};
    }
  }

  /** A list of addresses threaded through the first words of the objects. */
  ghost predicate Threaded(links: map<int, int>, head: int, list: seq<int>)
    decreases list
  {
    if list == [] then head == 0
    else head == list[0] && head != 0 && head in links && Threaded(links, links[head], list[1..])
  }

  lemma {:induction false} ThreadedFrame(links: map<int, int>, head: int, list: seq<int>, obj: int, next: int)
    requires Threaded(links, head, list) && obj !in list
    ensures Threaded(links[obj := next], head, list)
    decreases list
  {
    if list != [] {
      ThreadedFrame(links, links[head], list[1..], obj, next);
    }
  }

  class Pool {
    const objSize: nat
    const chunkSize: nat
    const reserve: nat
    const store: Store
    var numFree: nat
    var freeList: int
    var links: map<int, int>      // the first word of every object on the free list
    ghost var free: seq<int>      // the free list
    ghost var carved: set<int>    // every object ever made

    ghost predicate Valid()
      reads this, store
    {
      && store.Valid()
      && objSize > 0 && objSize % MAX_ALIGN == 0 && reserve > 0 && chunkSize >= 2 * reserve * objSize
      && |free| == numFree
      && Threaded(links, freeList, free)
      && (forall i, j :: 0 <= i < j < |free| ==> free[i] != free[j])
      && (forall a :: a in free ==> a in carved)
      && (forall a :: a in carved ==> Placed(a))
      && (forall a, b :: a in carved && b in carved && a != b ==> Apart(Region(a, objSize), Region(b, objSize)))
    }

    /** An object lies, aligned, inside memory that was handed out. */
    ghost predicate Placed(a: int)
      reads store
    {
      a > 0 && a % MAX_ALIGN == 0 && exists r :: r in store.regions && Inside(Region(a, objSize), r)
    }

    /** The objects in the hands of callers. */
    ghost function Outstanding(): set<int>
      reads this
    {
      set a | a in carved && a !in free
    }

    /** `mempool_init`: round the size up, pick a reserve, and expand once. */
    constructor (store: Store, size: nat, wanted: nat)
      requires store.Valid() && size > 0
      modifies store
      ensures Valid() && this.store == store && Outstanding() == {}
      ensures objSize == AlignMax(size) && (wanted > 0 ==> reserve == wanted)
      ensures wanted == 0 ==> QuarterPage(reserve, objSize)
      ensures chunkSize % PAGE_SIZE == 0 && chunkSize < 2 * reserve * objSize + PAGE_SIZE
      ensures GotChunk(old(store.requests), store.requests) ==> numFree >= 2 * reserve
    {
      hide QuarterPage;
      this.store := store;
      objSize := AlignMax(size);
      QuarterPageReserve(AlignMax(size));
      var r := wanted;
      if r == 0 {
        r := PAGE_SIZE / AlignMax(size) / 4;
        if r == 0 { r := 16; }
      }
      reserve := r;
      chunkSize := AlignPage(2 * r * AlignMax(size));
      numFree, freeList, links := 0, 0, map[];
      free, carved := [], {};
      new;
      assert Outstanding() == {};
      var ok := Expand();
    }

    /** `free_object`. */
    method FreeObject(obj: int)
      requires Valid() && obj in Outstanding()
      modifies this
      ensures Valid() && free == [obj] + old(free) && carved == old(carved)
    {
      ThreadedFrame(links, freeList, free, obj, freeList);
      links := links[obj := freeList];
      freeList := obj;
      numFree := numFree + 1;
      free := [obj] + free;
    }

    /** Every object overlaps nothing of the region, or lies before `obj`. */
    ghost predicate ClearFrom(obj: int, region: Region)
      reads this
    {
      forall a :: a in carved ==> Apart(Region(a, objSize), region) || a + objSize <= obj
    }

    lemma ClearHere(obj: int, region: Region)
      requires ClearFrom(obj, region) && objSize > 0
      requires region.start <= obj && obj + objSize <= region.start + region.size
      ensures obj !in carved && forall a :: a in carved ==> Apart(Region(a, objSize), Region(obj, objSize))
    {
    }

    /** One round of `add_memory`: the object at `obj` is made and freed. */
    method Carve(obj: int, ghost region: Region)
      requires Valid() && ClearFrom(obj, region) && region in store.regions
      requires obj > 0 && obj % MAX_ALIGN == 0
      requires region.start <= obj && obj + objSize <= region.start + region.size
      modifies this
      ensures Valid() && Outstanding() == old(Outstanding()) && numFree == old(numFree) + 1
      ensures ClearFrom(obj + objSize, region)
    {
      ClearHere(obj, region);
      assert Inside(Region(obj, objSize), region);
      carved := carved + {obj};
      FreeObject(obj);
    }

    /** `add_memory`: carve a region just handed out into free objects. */
    method AddMemory(mem: int, size: nat)
      requires Valid() && size >= objSize && mem > 0 && mem % MAX_ALIGN == 0
      requires Region(mem, size) in store.regions
      requires forall a :: a in carved ==> Apart(Region(a, objSize), Region(mem, size))
      modifies this
      ensures Valid() && Outstanding() == old(Outstanding())
      ensures numFree == old(numFree) + Fitting(size, objSize)
    {
      assert objSize > 0 && objSize % MAX_ALIGN == 0;
      assert ClearFrom(mem, Region(mem, size));
      hide Valid, Outstanding, Placed, ClearFrom, Fitting, Apart;
      var obj := mem;
      while obj <= mem + size - objSize
        invariant Valid() && Outstanding() == old(Outstanding())
        invariant mem <= obj <= mem + size && obj % MAX_ALIGN == 0
        invariant numFree + Fitting(mem + size - obj, objSize) == old(numFree) + Fitting(size, objSize)
        invariant ClearFrom(obj, Region(mem, size))
        decreases mem + size - obj
      {
        FittingStep(mem + size - obj, objSize);
        AlignedStep(obj, objSize);
        Carve(obj, Region(mem, size));
        obj := obj + objSize;
      }
      FittingNone(mem + size - obj, objSize);
    }

    /** `expand`: a chunk, else a page-rounded object, else one emergency object; the result
        is false when the emergency area's assertion fails. */
    method Expand() returns (ok: bool)
      requires Valid()
      modifies this, store
      ensures Valid() && Outstanding() == old(Outstanding())
      ensures AskedInOrder(old(store.requests), store.requests)
      ensures ok <==> GotMemory(old(store.requests), store.requests) || store.sosFreePos <= SOS_MEMORY_SIZE
      ensures ok ==> numFree > old(numFree)
      ensures GotChunk(old(store.requests), store.requests) ==> ok && numFree >= old(numFree) + 2 * reserve
      ensures !ok ==> free == old(free)
    {
      FittingAtLeast(2 * reserve, chunkSize, objSize);
      var mem: Option<int>, size: nat;
      mem, size := Acquire();
      hide Valid, Outstanding, Apart, AskedInOrder, GotChunk, GotMemory;
      if mem.None? {
        return false;
      }
      FittingSome(size, objSize);
      AddMemory(mem.value, size);
      ok := true;
    }

    /** A chunk was asked for; if it was not had, a page-rounded object; if that was not had
        either, an emergency object; and nothing else. */
    ghost predicate AskedInOrder(before: seq<Request>, after: seq<Request>) {
      var k := |before|;
      && |after| > k && after[..k] == before && after[k].Memory? && after[k].size == chunkSize
      && if after[k].got != 0 then |after| == k + 1
         else
           && |after| > k + 1 && after[k + 1].Memory? && after[k + 1].size == AlignPage(objSize)
           && if after[k + 1].got != 0 then |after| == k + 2
              else |after| == k + 3 && after[k + 2] == Emergency(objSize)
    }

    ghost predicate GotChunk(before: seq<Request>, after: seq<Request>) {
      AskedInOrder(before, after) && after[|before|].got != 0
    }

    ghost predicate GotMemory(before: seq<Request>, after: seq<Request>) {
      AskedInOrder(before, after) && |after| < |before| + 3
    }

    /** Where the memory of an expansion comes from. */
    method Acquire() returns (mem: Option<int>, size: nat)
      requires Valid()
      modifies store
      ensures Valid() && Outstanding() == old(Outstanding()) && size >= objSize
      ensures mem.Some? ==> NewRegion(mem.value, size)
      ensures AskedInOrder(old(store.requests), store.requests)
      ensures mem.Some? <==> GotMemory(old(store.requests), store.requests) || store.sosFreePos <= SOS_MEMORY_SIZE
      ensures GotChunk(old(store.requests), store.requests) ==> mem.Some? && size == chunkSize
    {
      ChunkHolds(reserve, objSize, chunkSize);
      hide Valid, Outstanding, Apart, NewRegion;
      size := chunkSize;
      mem := FromStore(size);
      if mem.None? {
        size := AlignPage(objSize);
        mem := FromStore(size);
        if mem.None? {
          size := objSize;
          mem := FromSos();
        }
      }
    }

    /** `GET_MEMORY`, seen from the pool. */
    method FromStore(size: nat) returns (mem: Option<int>)
      requires Valid() && size > 0
      modifies store
      ensures Valid() && Outstanding() == old(Outstanding())
      ensures mem.Some? ==> mem.value != 0 && NewRegion(mem.value, size)
      ensures store.requests == old(store.requests) + [Memory(size, if mem.Some? then mem.value else 0)]
    {
      var got := store.GetMemory(size);
      mem := if got == 0 then None else Some(got);
    }

    method FromSos() returns (mem: Option<int>)
      requires Valid()
      modifies store
      ensures Valid() && Outstanding() == old(Outstanding())
      ensures mem.Some? ==> NewRegion(mem.value, objSize)
      ensures store.requests == old(store.requests) + [Emergency(objSize)]
      ensures mem.None? <==> store.sosFreePos > SOS_MEMORY_SIZE
    {
      assert AlignMax(objSize) == objSize;
      mem := store.SosAlloc(objSize);
    }

    /** Aligned memory that was handed out and holds no object. */
    ghost predicate NewRegion(mem: int, size: nat)
      reads this, store
    {
      && mem > 0 && mem % MAX_ALIGN == 0 && Region(mem, size) in store.regions
      && forall a :: a in carved ==> Apart(Region(a, objSize), Region(mem, size))
    }

    /** `mempool_alloc`: the object returned is aligned, was not outstanding, and
        overlaps no outstanding object. The pool is expanded exactly if no more than the
        reserve is free, and there is no object only if the emergency area is exhausted. */
    method Alloc() returns (obj: Option<int>)
      requires Valid()
      modifies this, store
      ensures Valid()
      ensures obj.Some? ==> obj.value !in old(Outstanding()) && Outstanding() == old(Outstanding()) + {obj.value}
      ensures obj.None? ==> Outstanding() == old(Outstanding()) && store.sosFreePos > SOS_MEMORY_SIZE
      ensures old(numFree) > reserve ==>
                obj.Some? && numFree == old(numFree) - 1 && store.requests == old(store.requests)
      ensures old(numFree) <= reserve ==> AskedInOrder(old(store.requests), store.requests)
      ensures old(numFree) <= reserve && GotChunk(old(store.requests), store.requests) ==>
                obj.Some? && numFree >= old(numFree) + 2 * reserve - 1 >= reserve
    {
      hide AskedInOrder, GotChunk, GotMemory;
      if numFree <= reserve {
        var ok := Expand();
        if !ok {
          return None;
        }
      }
      numFree := numFree - 1;
      var head := freeList;
      freeList := links[head];
      free := free[1..];
      obj := Some(head);
    }

    /** `mempool_free`. */
    method Free(obj: int)
      requires Valid() && obj in Outstanding()
      modifies this
      ensures Valid() && Outstanding() == old(Outstanding()) - {obj}
      ensures numFree == old(numFree) + 1
    {
      FreeObject(obj);
    }
  }

  /** As many objects as fit into a quarter of a page, or 16 if none does. */
  ghost predicate QuarterPage(reserve: nat, s: nat) {
    if 4 * s > PAGE_SIZE then reserve == 16 else reserve * s <= PAGE_SIZE / 4 < (reserve + 1) * s
  }

  lemma QuarterPageReserve(s: nat)
    requires s > 0
    ensures QuarterPage(if PAGE_SIZE / s / 4 == 0 then 16 else PAGE_SIZE / s / 4, s)
  {
    var q := PAGE_SIZE / s;
    var r := q / 4;
    Quotients(PAGE_SIZE, s);
    AtMostTimes(4 * r, q, s);
    AtMostTimes(q + 1, 4 * (r + 1), s);
    FourTimes(r, s);
    FourTimes(r + 1, s);
    if r > 0 {
      AtMostTimes(1, r, s);
    }
  }

  lemma Quotients(x: nat, s: nat)
    requires s > 0
    ensures (x / s) * s <= x < (x / s + 1) * s
  {
  }

  lemma AtMostTimes(a: nat, b: nat, s: nat)
    requires a <= b
    ensures a * s <= b * s
  {
  }

  lemma FourTimes(r: nat, s: nat)
    ensures (4 * r) * s == 4 * (r * s)
  {
  }

  /** How many objects of size `s` fit into `size` bytes. */
  function Fitting(size: nat, s: nat): nat
    requires s > 0
  {
    if size < s then 0 else 1 + Fitting(size - s, s)
  }

  lemma ChunkHolds(n: nat, s: nat, size: nat)
    requires n > 0 && size >= 2 * n * s
    ensures size >= s
  {
    assert 2 * n * s >= s;
  }

  lemma FittingSome(size: nat, s: nat)
    requires 0 < s <= size
    ensures Fitting(size, s) > 0
  {
  }

  lemma FittingStep(size: nat, s: nat)
    requires 0 < s <= size
    ensures Fitting(size, s) == 1 + Fitting(size - s, s)
  {
  }

  lemma FittingNone(size: nat, s: nat)
    requires size < s
    ensures Fitting(size, s) == 0
  {
  }

  lemma AlignedStep(a: int, s: nat)
    requires a % MAX_ALIGN == 0 && s % MAX_ALIGN == 0
    ensures (a + s) % MAX_ALIGN == 0
  {
  }

  lemma {:induction false} FittingAtLeast(n: nat, size: nat, s: nat)
    requires s > 0 && n * s <= size
    ensures n <= Fitting(size, s)
  {
    if n > 0 {
      assert n * s == (n - 1) * s + s;
      FittingAtLeast(n - 1, size - s, s);
    }
  }
}
