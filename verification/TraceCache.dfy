/** The trace cache, an open-addressing hash table of frame summaries, and the fast
    trace that runs on it (Gtrace.c). */
module TraceCache {
  import opened Words
  import opened Rules
  import opened Trace

  const HASH_MIN_BITS: nat := 14
  const PROBES: nat := 16

  /** The hash before masking: the top 21 bits of a 64-bit product. */
  function HashBits(rip: Word): nat {
    Wrap(rip * 0x9e37_79b9_7f4a_7c16) / 0x800_0000_0000
  }

  /** The home slot in a table of `size` slots, a power of two. */
  function Home(rip: Word, size: nat): (slot: nat)
    requires size > 0
    ensures slot < size
  {
    HashBits(rip) % size
  }

  /** The `d`-th probe from a slot. */
  function Probe(home: nat, d: nat, size: nat): (slot: nat)
    requires home < size && d <= size
    ensures slot < size
  {
    if home + d < size then home + d else home + d - size
  }

  function Occupied(fs: seq<Frame>): (n: nat)
    ensures n <= |fs|
  {
    if fs == [] then 0 else (if fs[0].virtualAddress != 0 then 1 else 0) + Occupied(fs[1..])
  }

  lemma {:induction false} OccupiedUpdate(fs: seq<Frame>, i: nat, f: Frame)
    requires i < |fs| && fs[i].virtualAddress == 0 && f.virtualAddress != 0
    ensures Occupied(fs[i := f]) == Occupied(fs) + 1
    decreases |fs|
  {
    if i == 0 {
      assert fs[0 := f][1..] == fs[1..];
    } else {
      assert fs[i := f][1..] == fs[1..][i - 1 := f];
      OccupiedUpdate(fs[1..], i - 1, f);
    }
  }

  lemma {:induction false} OccupiedNone(fs: seq<Frame>)
    requires forall i :: 0 <= i < |fs| ==> fs[i].virtualAddress == 0
    ensures Occupied(fs) == 0
  {
    if fs != [] {
      OccupiedNone(fs[1..]);
    }
  }

  /** The entry in slot `i` is `d` probes from its home, over occupied slots. */
  ghost predicate AtProbe(fs: seq<Frame>, i: nat, d: nat)
    requires PROBES <= |fs| && i < |fs| && d < PROBES
  {
    var home := Home(fs[i].virtualAddress, |fs|);
    i == Probe(home, d, |fs|) && forall e :: 0 <= e < d ==> fs[Probe(home, e, |fs|)].virtualAddress != 0
  }

  ghost predicate Reachable(fs: seq<Frame>, i: nat)
    requires PROBES <= |fs| && i < |fs|
  {
    exists d :: 0 <= d < PROBES && AtProbe(fs, i, d)
  }

  /** The probing invariant: entries are reachable and their addresses unique. */
  ghost predicate Probing(fs: seq<Frame>) {
    && PROBES <= |fs|
    && (forall i :: 0 <= i < |fs| && fs[i].virtualAddress != 0 ==> Reachable(fs, i))
    && (forall i, j :: 0 <= i < j < |fs| && fs[i].virtualAddress != 0 ==> fs[i].virtualAddress != fs[j].virtualAddress)
  }

  /** Filling the first empty slot of a probe keeps the invariant. */
  lemma InsertKeepsProbing(fs: seq<Frame>, d: nat, f: Frame)
    requires Probing(fs) && d < PROBES && f.virtualAddress != 0
    requires var home := Home(f.virtualAddress, |fs|);
             && fs[Probe(home, d, |fs|)].virtualAddress == 0
             && forall e :: 0 <= e < d ==> fs[Probe(home, e, |fs|)].virtualAddress !in {0, f.virtualAddress}
    ensures Probing(fs[Probe(Home(f.virtualAddress, |fs|), d, |fs|) := f])
  {
    hide HashBits;
    var home := Home(f.virtualAddress, |fs|);
    var slot := Probe(home, d, |fs|);
    var fs' := fs[slot := f];
    forall i | 0 <= i < |fs'| && fs'[i].virtualAddress != 0
      ensures Reachable(fs', i)
    {
      if i == slot {
        assert AtProbe(fs', slot, d);
      } else {
        assert Reachable(fs, i);
        var e :| 0 <= e < PROBES && AtProbe(fs, i, e);
        assert AtProbe(fs', i, e);
      }
    }
    forall i | 0 <= i < |fs| && i != slot
      ensures fs[i].virtualAddress != f.virtualAddress
    {
      if fs[i].virtualAddress == f.virtualAddress {
        NotElsewhere(fs, d, f.virtualAddress, i);
        assert false;
      }
    }
  }

  /** An address that the probe did not meet before an empty slot is not in the table. */
  lemma NotElsewhere(fs: seq<Frame>, d: nat, rip: Word, i: nat)
    requires Probing(fs) && d < PROBES && rip != 0 && i < |fs|
    requires var home := Home(rip, |fs|);
             && fs[Probe(home, d, |fs|)].virtualAddress == 0
             && forall e :: 0 <= e < d ==> fs[Probe(home, e, |fs|)].virtualAddress != rip
    ensures fs[i].virtualAddress != rip
  {
    hide HashBits;
    if fs[i].virtualAddress != 0 {
      assert Reachable(fs, i);
      var e :| 0 <= e < PROBES && AtProbe(fs, i, e);
      var home := Home(fs[i].virtualAddress, |fs|);
      assert e > d ==> fs[Probe(home, d, |fs|)].virtualAddress != 0;
    }
  }

  /** The address is in the table. */
  ghost predicate Present(fs: seq<Frame>, rip: Word) {
    exists i :: 0 <= i < |fs| && fs[i].virtualAddress == rip
  }

  /** The `d`-th probe meets the first free slot, and the address not before. */
  ghost predicate FreeAt(fs: seq<Frame>, rip: Word, d: nat)
    requires PROBES <= |fs| && d < PROBES
  {
    var home := Home(rip, |fs|);
    && fs[Probe(home, d, |fs|)].virtualAddress == 0
    && forall e :: 0 <= e < d ==> fs[Probe(home, e, |fs|)].virtualAddress !in {0, rip}
  }

  /** Within 16 probes there is a free slot for the address. */
  ghost predicate FreeInReach(fs: seq<Frame>, rip: Word)
    requires PROBES <= |fs|
  {
    exists d :: 0 <= d < PROBES && FreeAt(fs, rip, d)
  }

  /** Probes that end at a free slot, or not at all, without meeting the address: it is
      not there. */
  lemma NotPresent(fs: seq<Frame>, rip: Word, d: nat)
    requires Probing(fs) && rip != 0 && d <= PROBES
    requires var home := Home(rip, |fs|);
             && (d < PROBES ==> fs[Probe(home, d, |fs|)].virtualAddress == 0)
             && forall e :: 0 <= e < d ==> fs[Probe(home, e, |fs|)].virtualAddress !in {0, rip}
    ensures !Present(fs, rip)
    ensures FreeInReach(fs, rip) <==> d < PROBES
  {
    hide HashBits;
    if d < PROBES {
      assert FreeAt(fs, rip, d);
    }
    forall i | 0 <= i < |fs|
      ensures fs[i].virtualAddress != rip
    {
      if d < PROBES {
        NotElsewhere(fs, d, rip, i);
      } else if fs[i].virtualAddress != 0 {
        assert Reachable(fs, i);
        var e :| 0 <= e < PROBES && AtProbe(fs, i, e);
      }
    }
  }

  lemma EmptyProbing(fs: seq<Frame>)
    requires PROBES <= |fs| && forall i :: 0 <= i < |fs| ==> fs[i].virtualAddress == 0
    ensures Probing(fs) && Occupied(fs) == 0
  {
    OccupiedNone(fs);
  }

  /** `unw_trace_cache_t`. */
  class Table {
    var frames: array<Frame>
    var logSize: nat
    var used: nat

    /** `trace_cache_create`: 2^14 empty buckets. */
    constructor ()
      ensures Valid() && fresh(frames) && logSize == HASH_MIN_BITS
      ensures forall i :: 0 <= i < frames.Length ==> frames[i] == EMPTY_FRAME
    {
      hide Scale;
      frames := new Frame[0x4000](_ => EMPTY_FRAME);
      logSize := HASH_MIN_BITS;
      used := 0;
      new;
      Scale8(1);
      Scale8(TWO_7);
      ScaleTwice(1, 7, 7);
      EmptyProbing(frames[..]);
    }

    /** `used` counts the occupied slots, at most half of the table. */
    ghost predicate Valid()
      reads this, frames
    {
      && frames.Length == Pow2(logSize) >= PROBES
      && Probing(frames[..])
      && used == Occupied(frames[..])
      && used <= frames.Length / 2
    }

    /** `trace_cache_expand`: four times the buckets, all empty; false when there is no
        memory for them. */
    method Expand(memory: nat -> bool) returns (ok: bool)
      requires Valid()
      modifies this
      ensures Valid() && logSize == old(logSize) + (if ok then 2 else 0)
      ensures ok <==> memory(4 * old(frames.Length))
      ensures !ok ==> frames == old(frames) && used == old(used)
      ensures ok ==> fresh(frames) && used == 0 && frames.Length == 4 * old(frames.Length)
      ensures ok ==> forall i :: 0 <= i < frames.Length ==> frames[i] == EMPTY_FRAME
    {
      var newSize := 4 * frames.Length;
      if !memory(newSize) {
        return false;
      }
      var newFrames := new Frame[newSize](_ => EMPTY_FRAME);
      assert Pow2(logSize + 2) == 2 * Pow2(logSize + 1) == 4 * Pow2(logSize);
      frames := newFrames;
      logSize := logSize + 2;
      used := 0;
      ok := true;
      EmptyProbing(frames[..]);
    }

    /** `trace_lookup`: the slot that describes `rip`, filled if need be. Slots other
        than the one returned are as they were, or empty if the table was expanded. */
    method Lookup(env: Env, memory: nat -> bool, cfa: Word, rip: Word, usePrev: int, rbp: Word)
      returns (r: Option<nat>, filled: bool)
      requires Valid() && rip != 0
      modifies this, frames
      ensures Valid() && (frames == old(frames) || fresh(frames))
      ensures r.Some? ==> r.value < frames.Length && frames[r.value].virtualAddress == rip
      ensures r.Some? && !filled ==> frames == old(frames) && old(frames[r.value]) == frames[r.value]
      ensures r.Some? && filled ==> frames[r.value] == InitFrame(env, cfa, rip, usePrev, rbp)
      ensures forall i :: 0 <= i < frames.Length && Some(i) != r ==>
                frames[i] == EMPTY_FRAME || (frames == old(frames) && frames[i] == old(frames[i]))
      ensures r.None? ==> frames == old(frames) && frames[..] == old(frames[..]) && !memory(4 * frames.Length)
      // a hit changes nothing; a miss fills a free slot within reach, if the table is less
      // than half full; otherwise the table is expanded, if there is memory
      ensures if old(Present(frames[..], rip)) then r.Some? && !filled && used == old(used)
              else if old(FreeInReach(frames[..], rip) && used < frames.Length / 2)
              then r.Some? && filled && frames == old(frames) && used == old(used) + 1
              else if memory(4 * old(frames.Length))
              then r.Some? && filled && fresh(frames) && logSize == old(logSize) + 2 && used == 1
              else r.None? && used == old(used)
    {
      hide HashBits, InitFrame, Probing, Occupied, Present, FreeInReach;
      var slot, addr, d := SearchSlot(rip);
      // hit
      if addr == rip {
        return Some(slot), false;
      }
      // no free slot within reach, or too full
      if addr != 0 || used >= frames.Length / 2 {
        r := FillExpanded(env, memory, cfa, rip, usePrev, rbp);
        return r, r.Some?;
      }
      Fill(env, slot, d, cfa, rip, usePrev, rbp);
      r, filled := Some(slot), true;
    }

    /** The expansion in `trace_lookup`: the home slot of the new table is filled. */
    method FillExpanded(env: Env, memory: nat -> bool, cfa: Word, rip: Word, usePrev: int, rbp: Word)
      returns (r: Option<nat>)
      requires Valid() && rip != 0
      modifies this, frames
      ensures Valid() && (r.Some? <==> memory(4 * old(frames.Length)))
      ensures r.None? ==> frames == old(frames) && used == old(used) && frames[..] == old(frames[..])
      ensures r.Some? ==> fresh(frames) && logSize == old(logSize) + 2 && used == 1 && r.value < frames.Length
      ensures r.Some? ==> frames[r.value] == InitFrame(env, cfa, rip, usePrev, rbp) && frames[r.value].virtualAddress == rip
      ensures r.Some? ==> forall i :: 0 <= i < frames.Length && i != r.value ==> frames[i] == EMPTY_FRAME
    {
      hide HashBits, InitFrame, Probing, Occupied;
      var ok := Expand(memory);
      if !ok {
        return None;
      }
      var slot := Home(rip, frames.Length);
      Fill(env, slot, 0, cfa, rip, usePrev, rbp);
      r := Some(slot);
    }

    /** The probing loop: the slot where it ends, and the address found there. */
    method SearchSlot(rip: Word) returns (slot: nat, addr: Word, ghost d: nat)
      requires Valid() && rip != 0
      ensures slot < frames.Length && (addr == rip ==> frames[slot].virtualAddress == rip)
      ensures addr == rip <==> Present(frames[..], rip)
      ensures addr != rip ==> (addr == 0 <==> FreeInReach(frames[..], rip))
      ensures addr == 0 ==> d < PROBES && slot == Probe(Home(rip, frames.Length), d, frames.Length)
                            && frames[slot].virtualAddress == 0
      ensures addr == 0 ==> forall e :: 0 <= e < d ==>
                frames[Probe(Home(rip, frames.Length), e, frames.Length)].virtualAddress !in {0, rip}
    {
      hide HashBits, Probing, Occupied, FreeInReach;
      var size := frames.Length;
      var home := Home(rip, size);
      slot, addr := home, 0;
      var i := 0;
      while i < PROBES
        invariant 0 <= i <= PROBES && slot == Probe(home, i, size)
        invariant forall e :: 0 <= e < i ==> frames[Probe(home, e, size)].virtualAddress !in {0, rip}
        invariant i > 0 ==> addr !in {0, rip}
      {
        addr := frames[slot].virtualAddress;
        // hit
        if addr == rip {
          assert frames[..][slot].virtualAddress == rip;
          return slot, addr, 0;
        }
        // free slot
        if addr == 0 {
          break;
        }
        // next slot, cyclically
        slot := slot + 1;
        if slot >= size {
          slot := slot - size;
        }
        i := i + 1;
      }
      d := i;
      NotPresent(frames[..], rip, d);
    }

    /** The end of `trace_lookup`: the first free slot of a probe is filled. */
    method Fill(env: Env, slot: nat, ghost d: nat, cfa: Word, rip: Word, usePrev: int, rbp: Word)
      requires Valid() && rip != 0 && used < frames.Length / 2 && d < PROBES
      requires slot < frames.Length && slot == Probe(Home(rip, frames.Length), d, frames.Length)
      requires frames[slot].virtualAddress == 0
      requires forall e :: 0 <= e < d ==> frames[Probe(Home(rip, frames.Length), e, frames.Length)].virtualAddress !in {0, rip}
      modifies this`used, frames
      ensures Valid() && frames[slot] == InitFrame(env, cfa, rip, usePrev, rbp) && frames[slot].virtualAddress == rip
      ensures forall i :: 0 <= i < frames.Length && i != slot ==> frames[i] == old(frames[i])
      ensures used == old(used) + 1
    {
      hide HashBits, InitFrame;
      if frames[slot].virtualAddress == 0 {
        used := used + 1;
      }
      ghost var before := frames[..];
      var f := InitFrame(env, cfa, rip, usePrev, rbp);
      FillAgrees(env, cfa, rip, usePrev, rbp);
      InsertKeepsProbing(before, d, f);
      OccupiedUpdate(before, slot, f);
      hide Probing, Occupied;
      frames[slot] := f;
      assert frames[..] == before[slot := f];
    }
  }

  // ----- the fast trace -----

  /** What the slots of the table say about the unwind info. */
  ghost predicate Truthful(env: Env, fs: seq<Frame>) {
    forall i :: 0 <= i < |fs| && fs[i].virtualAddress != 0 ==> Agrees(env, fs[i])
  }

  ghost predicate AllComplete(env: Env, fs: seq<Frame>) {
    forall i :: 0 <= i < |fs| && fs[i].virtualAddress != 0 ==> Complete(env, fs[i])
  }

  /** The first `n` cursors of the slow walk are regular. */
  ghost predicate RegularUpTo(env: Env, s: Slow, n: nat) {
    forall i: nat :: i < n && Walk(env, s, i).Some? ==> Regular(env, Walk(env, s, i).value)
  }

  /** A regular cursor whose frame is standard, does not end the chain, and returns to
      an address that is not bogus. */
  ghost predicate Traceable(env: Env, s: Slow) {
    && Regular(env, s)
    && var row := env.info(s.ip).value;
       && StandardRow(row) && row[RBP].where != Undef
       && SlowStep(env, row, s).Go? && SlowStep(env, row, s).s.ip >= 0x4000
  }

  /** The first `n` frames of the slow walk can be traced. */
  ghost predicate TraceableUpTo(env: Env, s: Slow, n: nat) {
    forall i: nat :: i < n ==> Walk(env, s, i).Some? && Traceable(env, Walk(env, s, i).value)
  }

  const GREGS_RIP: int := 0xb0
  const GREGS_RBP: int := 0x58
  const GREGS_RSP: int := 0xc8

  /** `ACCESS_MEM_FAST`: a plain read unless validation is on. */
  function AccessFast(env: Env, validate: bool, addr: Word): Result<Word> {
    if validate then Get(env, At(addr)) else Ok(env.mem(addr))
  }
}
