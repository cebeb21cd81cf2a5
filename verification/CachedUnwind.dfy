/** Unwinding through the register-state cache (the body of
    `dwarf_find_save_locs`) against unwinding without it, and the lazy flush by
    generation numbers. */
module CachedUnwind {
  import opened Words
  import opened Rules
  import opened RsCache

  /** What the unwind info says about an ip: the return-address column, whether the CIE is
      marked as a signal frame, and the row to apply, if its programs run without error. */
  datatype Unwound = Unwound(row: Result<Row>, retCol: Word, signalFrame: bool)

  /** The unwind info: the record is looked up at one address and run up to another. */
  type Info = (Word, Word) -> Result<Unwound>

  /** `fetch_proc_info` backs up into the call before it looks the record up. */
  function LookupAt(ip: Word, usePrev: bool): Word {
    if usePrev then Wrap(ip - 1) else ip
  }

  /** The info for an ip, by the previous-instruction bit. */
  function At(info: Info, ip: Word, usePrev: bool): Result<Unwound> {
    info(LookupAt(ip, usePrev), ip)
  }

  /** A result, and what becomes of the two cursor fields. */
  datatype Done = Done(row: Result<Row>, retCol: Word, usePrev: bool)

  /** `uncached_dwarf_find_save_locs` up to the call of `apply_reg_state`. A failed fetch
      leaves the cursor alone; a failed program does not. */
  function Uncached(info: Info, ip: Word, retCol: Word, usePrev: bool): Done {
    match At(info, ip, usePrev)
    case Err(e) => Done(Err(e), retCol, usePrev)
    case Ok(u) => Done(u.row, u.retCol, !u.signalFrame)
  }

  /** The entry tells what the info says for this bit. */
  predicate Tells(info: Info, e: Entry, usePrev: bool) {
    var u := At(info, e.ip, usePrev);
    u.Ok? && u.value.row == Ok(e.row) && u.value.retCol == e.retCol
  }

  /** Entries are filed by ip alone. */
  predicate Agrees(info: Info, e: Entry) {
    Tells(info, e, true) || Tells(info, e, false)
  }

  /** Wherever either lookup has a row, the other has the same. */
  predicate BitFree(info: Info, ip: Word) {
    var called, resumed := At(info, ip, true), At(info, ip, false);
    HasRow(called) || HasRow(resumed) ==>
      && HasRow(called) && HasRow(resumed)
      && called.value.row == resumed.value.row && called.value.retCol == resumed.value.retCol
  }

  predicate HasRow(u: Result<Unwound>) {
    u.Ok? && u.value.row.Ok?
  }

  /** What a consultation of the cached entries `es` leaves: on a hit, what the entry tells
      and the bit set; otherwise what the info says for the bit as it was. */
  ghost predicate Consulted(info: Info, es: seq<Entry>, ip: Word, after: Done, retCol: Word, usePrev: bool) {
    if HasIp(es, ip) then after.row.Ok? && Entry(ip, after.row.value, after.retCol) in es && after.usePrev
    else after == Uncached(info, ip, retCol, usePrev)
  }

  /** What that means: a hit on an entry of the info gives row and column of the uncached
      function if the lookups do not differ, and its bit too unless the CIE is marked. On a
      miss a failed fetch changes neither field, and any other sets the bit exactly for
      unmarked CIEs. */
  lemma ConsultedMeans(info: Info, es: seq<Entry>, ip: Word, after: Done, retCol: Word, usePrev: bool)
    requires Consulted(info, es, ip, after, retCol, usePrev)
    requires forall e :: e in es ==> Agrees(info, e)
    ensures var u := At(info, ip, usePrev);
            && (HasIp(es, ip) && BitFree(info, ip) ==> u.Ok? && after.row == u.value.row && after.retCol == u.value.retCol)
            && (!HasIp(es, ip) && u.Ok? ==> after.row == u.value.row && after.retCol == u.value.retCol)
            && (u.Ok? && !u.value.signalFrame ==> after.usePrev)
            && (u.Ok? && u.value.signalFrame ==> (after.usePrev <==> HasIp(es, ip)))
            && (!HasIp(es, ip) && u.Err? ==> after == Done(Err(u.error), retCol, usePrev))
  {
    if HasIp(es, ip) && BitFree(info, ip) {
      var e := Entry(ip, after.row.value, after.retCol);
      HitsAgree(info, ip);
      assert Agrees(info, e) && Tells(info, e, usePrev);
    }
  }

  predicate NothingAtZero(info: Info) {
    At(info, 0, true).Err? && At(info, 0, false).Err?
  }

  /** Every entry that may be cached for an ip gives what the uncached function gives,
      whichever the bit, exactly if the two lookups do not differ: not so for the first
      instruction of a function that follows another. */
  lemma HitsAgree(info: Info, ip: Word)
    ensures BitFree(info, ip) <==> forall e, b :: Agrees(info, e) && e.ip == ip ==> Tells(info, e, b)
  {
    forall b | HasRow(At(info, ip, b)) && forall e, b' :: Agrees(info, e) && e.ip == ip ==> Tells(info, e, b')
      ensures BitFree(info, ip)
    {
      var u := At(info, ip, b).value;
      var e := Entry(ip, u.row.value, u.retCol);
      assert Tells(info, e, b);
      assert Tells(info, e, true) && Tells(info, e, false);
    }
  }

  /** Appending to a bounded FIFO. */
  lemma RecentPush(es: seq<Entry>, e: Entry)
    ensures Recent(Recent(es, CACHE_SIZE), CACHE_SIZE - 1) + [e] == Recent(es + [e], CACHE_SIZE)
  {
  }

  class AddressSpace {
    var cacheGeneration: nat // uint32_t
    const cache: Cache
    ghost var info: Info             // the unwind info in force
    ghost var inserted: seq<Entry>   // insertions since the cache was last emptied
    ghost var pending: nat           // flush requests since the cache was last consulted

    /** Zeroed memory followed by the first flush request. */
    constructor (ghost info: Info)
      requires NothingAtZero(info)
      ensures Valid() && Fresh() && fresh(cache) && fresh(cache.hash) && fresh(cache.buckets)
      ensures this.info == info
    {
      cache := new Cache();
      cacheGeneration := 1;
      this.info, inserted, pending := info, [], 1;
    }

    ghost predicate Valid()
      reads this, cache, cache.hash, cache.buckets
    {
      && cache.Shape()
      && NothingAtZero(info)
      && cache.generation < TWO_32
      && cacheGeneration == (cache.generation + pending) % TWO_32
      && (pending == 0 ==> cache.Valid() && cache.Entries() == Recent(inserted, CACHE_SIZE))
      && (pending == 0 ==> forall e :: e in inserted ==> Agrees(info, e))
    }

    /** The generation counter has not come full circle unnoticed. */
    ghost predicate Fresh()
      reads this
    {
      pending == 0 || pending % TWO_32 != 0
    }

    /** `unw_flush_cache`: the unwind info may have changed. */
    method FlushCache(ghost newInfo: Info)
      requires Valid() && NothingAtZero(newInfo)
      modifies this`cacheGeneration, this`info, this`pending
      ensures Valid() && info == newInfo && pending == old(pending) + 1
    {
      cacheGeneration := (cacheGeneration + 1) % TWO_32;
      info, pending := newInfo, pending + 1;
    }

    /** `get_rs_cache`: empties the cache if and only if a flush was requested since
        the last access, counted modulo 2^32. */
    method GetRsCache() returns (flushed: bool)
      requires Valid()
      modifies this`inserted, this`pending, cache, cache.hash, cache.buckets
      ensures flushed <==> old(pending) % TWO_32 != 0
      ensures old(Fresh()) ==> Valid() && pending == 0
      ensures inserted == if flushed then [] else old(inserted)
    {
      flushed := cacheGeneration != cache.generation;
      if flushed {
        cache.Flush();
        cache.generation := cacheGeneration;
        inserted := [];
      }
      if Fresh() {
        pending := 0;
      }
    }

    /** `dwarf_find_save_locs` up to the call of `apply_reg_state`, whose row it
        returns. */
    method FindSaveLocs(c: Cursor, fetch: Info) returns (r: Result<Row>)
      requires Valid() && Fresh() && c.InRange() && fetch == info
      modifies this`inserted, this`pending, cache, cache.hash, cache.buckets
      modifies c`hint, c`prevRs, c`retAddrColumn, c`usePrevInstr
      ensures Valid() && Fresh() && c.InRange()
      ensures var before := if old(pending) == 0 then old(inserted) else [];
              && Consulted(info, Recent(before, CACHE_SIZE), c.ip, Done(r, c.retAddrColumn, c.usePrevInstr),
                           old(c.retAddrColumn), old(c.usePrevInstr))
              && inserted == (if HasIp(Recent(before, CACHE_SIZE), c.ip) || r.Err? then before
                              else before + [Entry(c.ip, r.value, c.retAddrColumn)])
      // for a CIE without a signal mark hit, miss and failed program leave the same row,
      // column and bit, unless the two lookups differ
      ensures var u := At(info, c.ip, old(c.usePrevInstr));
              u.Ok? && !u.value.signalFrame && BitFree(info, c.ip) ==>
                r == u.value.row && c.retAddrColumn == u.value.retCol && c.usePrevInstr
    {
      hide HasIp, Recent, Structure, EntriesOf, Uncached, Consulted;
      var flushed := GetRsCache();
      ghost var es := Recent(inserted, CACHE_SIZE);
      ghost var col, bit := c.retAddrColumn, c.usePrevInstr;
      assert forall e :: e in es ==> Agrees(info, e) by { RecentAgree(info, inserted); }
      r := Consult(c, fetch);
      ConsultedMeans(info, es, c.ip, Done(r, c.retAddrColumn, c.usePrevInstr), col, bit);
    }

    /** The consultation, once the cache is up to date. */
    method Consult(c: Cursor, fetch: Info) returns (r: Result<Row>)
      requires Valid() && pending == 0 && c.InRange() && fetch == info
      modifies this`inserted, cache, cache.hash, cache.buckets
      modifies c`hint, c`prevRs, c`retAddrColumn, c`usePrevInstr
      ensures Valid() && c.InRange()
      ensures Consulted(info, Recent(old(inserted), CACHE_SIZE), c.ip, Done(r, c.retAddrColumn, c.usePrevInstr),
                        old(c.retAddrColumn), old(c.usePrevInstr))
      ensures inserted == if HasIp(Recent(old(inserted), CACHE_SIZE), c.ip) || r.Err? then old(inserted)
                          else old(inserted) + [Entry(c.ip, r.value, c.retAddrColumn)]
    {
      hide HasIp, Recent, Structure, EntriesOf;
      var found := cache.Lookup(c);
      var rs: nat;
      if found.Some? {
        rs := found.value;
        c.retAddrColumn := cache.buckets[rs].retCol;
        c.usePrevInstr := !cache.buckets[rs].signalFrame;
      } else {
        // the uncached computation
        var sr := fetch(LookupAt(c.ip, c.usePrevInstr), c.ip);
        if sr.Err? {
          return Err(sr.error);
        }
        c.usePrevInstr := !sr.value.signalFrame;
        c.retAddrColumn := sr.value.retCol;
        if sr.value.row.Err? {
          return Err(sr.value.row.error);
        }
        rs := Remember(c, sr.value.row.value);
      }
      r := Ok(cache.buckets[rs].row);
    }

    /** The insertion after a miss. */
    method Remember(c: Cursor, row: Row) returns (rs: nat)
      requires Valid() && pending == 0 && c.InRange()
      requires Agrees(info, Entry(c.ip, row, c.retAddrColumn))
      requires forall i :: 0 <= i < CACHE_SIZE ==> !CacheMatch(cache.buckets[i], c.ip)
      modifies this`inserted, cache, cache.hash, cache.buckets, c`hint, c`prevRs
      ensures Valid() && pending == 0 && c.InRange()
      ensures rs < CACHE_SIZE && cache.buckets[rs].row == row
      ensures inserted == old(inserted) + [Entry(c.ip, row, c.retAddrColumn)]
    {
      hide HasIp, Recent, Structure, EntriesOf;
      rs := cache.Insert(c, row);
      inserted := inserted + [Entry(c.ip, row, c.retAddrColumn)];
      RecentPush(old(inserted), Entry(c.ip, row, c.retAddrColumn));

      cache.SetHint(c.prevRs, rs);
      c.hint := cache.buckets[rs].hint;
      c.prevRs := rs;
    }
  }

  lemma RecentAgree(info: Info, es: seq<Entry>)
    requires forall e :: e in es ==> Agrees(info, e)
    ensures forall e :: e in Recent(es, CACHE_SIZE) ==> Agrees(info, e)
  {
  }
}
