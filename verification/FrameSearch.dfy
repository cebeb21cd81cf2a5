/** Finding the FDE of an ip: the linear scan of a section and the binary-search
    index (Gfind_proc_info-lsb.c). */
module FrameSearch {
  import opened Words
  import opened Pointers
  import opened FrameInfo
  import opened FrameParser
  import opened FrameRoundTrip

  /** A record of an .eh_frame section, with what parsing it yields. */
  datatype Rec =
    | CieRec(addr: int, next: int)
    | FdeRec(addr: int, next: int, startIp: Word, endIp: Word, lsda: Word, handler: Word, info: CieInfo)

  /** The proc-info after a record was extracted into it. */
  function After(rec: Rec, pi: ProcInfo, need: bool): ProcInfo {
    match rec
    case CieRec(_, _) => pi
    case FdeRec(_, _, startIp, endIp, lsda, handler, info) =>
      pi.(startIp := startIp, endIp := endIp, lsda := lsda, handler := handler,
          info := if need then Some(info) else pi.info)
  }

  /** Extraction succeeds on the record, whatever proc-info with this base of the data it
      starts from. */
  ghost predicate Reads(mem: Memory, rec: Rec, gp: Word) {
    forall pi: ProcInfo, need: bool :: pi.gp == gp ==>
      ExtractFde(mem, rec.addr, pi, need, 0) == Extracted(rec.next, After(rec, pi, need), Ok(()))
  }

  /** The bytes from `addr` to `end` are the records `recs`, up to the end or to a
      zero length. Every record holds at least its length and its id. */
  ghost predicate Section(mem: Memory, addr: int, end: int, recs: seq<Rec>, gp: Word)
    decreases |recs|
  {
    if recs == [] then addr >= end || Fixed(mem, addr, 4) == Ok((0, addr + 4))
    else
      && recs[0].addr == addr && addr + 8 <= recs[0].next <= end
      && Reads(mem, recs[0], gp) && Section(mem, recs[0].next, end, recs[1..], gp)
  }

  predicate Covers(rec: Rec, ip: Word) {
    rec.FdeRec? && rec.startIp <= ip < rec.endIp
  }

  /** The first record that covers the ip. */
  function Lookup(recs: seq<Rec>, ip: Word): Option<Rec> {
    if recs == [] then None
    else if Covers(recs[0], ip) then Some(recs[0])
    else Lookup(recs[1..], ip)
  }

  /** A section of n bytes has at most n / 8 records, so counting to n / 8 never cuts
      the scan short. */
  lemma {:induction false} RecordsBounded(mem: Memory, addr: int, end: int, recs: seq<Rec>, gp: Word)
    requires Section(mem, addr, end, recs, gp) && addr <= end
    ensures |recs| <= (end - addr) / 8
    decreases |recs|
  {
    if recs != [] {
      RecordsBounded(mem, recs[0].next, end, recs[1..], gp);
    }
  }

  lemma ZeroLength(mem: Memory, addr: int, pi: ProcInfo, need: bool)
    requires Fixed(mem, addr, 4) == Ok((0, addr + 4))
    ensures ExtractFde(mem, addr, pi, need, 0) == Extracted(addr, pi, Err(NoInfo))
  {
    hide Fixed;
  }

  /** What the scan stops at. A CIE leaves the proc-info as it was, so if that covers the ip
      before the scan and the section begins with a CIE, the CIE is taken for a match. */
  function FirstMatch(recs: seq<Rec>, ip: Word, covered: bool): Option<Rec> {
    if covered && recs != [] && recs[0].CieRec? then Some(recs[0]) else Lookup(recs, ip)
  }

  /** That is the first record covering the ip exactly if the proc-info did not cover the ip
      before, or the section does not begin with a CIE. */
  lemma {:induction false} StaleMatch(recs: seq<Rec>, ip: Word, covered: bool)
    ensures FirstMatch(recs, ip, covered) == Lookup(recs, ip) <==> !(covered && recs != [] && recs[0].CieRec?)
  {
    LookupIsFde(recs, ip);
  }

  /** The lookup is the first FDE whose range has the ip, its end excluded; none if there is
      no such FDE. */
  lemma {:induction false} LookupIsFirst(recs: seq<Rec>, ip: Word)
    ensures match Lookup(recs, ip)
            case None => forall i :: 0 <= i < |recs| && recs[i].FdeRec? ==> !(recs[i].startIp <= ip < recs[i].endIp)
            case Some(rec) =>
              exists k :: 0 <= k < |recs| && recs[k] == rec && rec.FdeRec? && rec.startIp <= ip < rec.endIp
                && forall i :: 0 <= i < k && recs[i].FdeRec? ==> !(recs[i].startIp <= ip < recs[i].endIp)
  {
    if recs != [] && !Covers(recs[0], ip) {
      LookupIsFirst(recs[1..], ip);
      if Lookup(recs, ip).Some? {
        var k :| 0 <= k < |recs[1..]| && recs[1..][k] == Lookup(recs, ip).value
                 && forall i :: 0 <= i < k && recs[1..][i].FdeRec? ==> !(recs[1..][i].startIp <= ip < recs[1..][i].endIp);
        forall i | 0 <= i < k + 1 && recs[i].FdeRec?
          ensures !(recs[i].startIp <= ip < recs[i].endIp)
        {
          assert i > 0 ==> recs[i] == recs[1..][i - 1];
        }
        assert recs[k + 1] == recs[1..][k];
      } else {
        forall i | 0 <= i < |recs| && recs[i].FdeRec?
          ensures !(recs[i].startIp <= ip < recs[i].endIp)
        {
          assert i > 0 ==> recs[i] == recs[1..][i - 1];
        }
      }
    }
  }

  lemma {:induction false} LookupIsFde(recs: seq<Rec>, ip: Word)
    ensures Lookup(recs, ip).Some? ==> Covers(Lookup(recs, ip).value, ip)
  {
    if recs != [] {
      LookupIsFde(recs[1..], ip);
    }
  }

  /** `linear_search`, with the record count that `dwarf_callback` computes. */
  method LinearSearch(mem: Memory, ip: Word, start: int, end: int, pi: UnwProcInfo, need: bool, ghost recs: seq<Rec>)
    returns (r: Result<()>)
    requires start <= end && Section(mem, start, end, recs, pi.gp)
    modifies pi
    ensures match FirstMatch(recs, ip, old(pi.startIp <= ip < pi.endIp))
            case Some(rec) => r == Ok(()) && pi.Abs() == After(rec, old(pi.Abs()), need)
            case None => r == Err(NoInfo)
  {
    hide ExtractFde, Fixed;
    RecordsBounded(mem, start, end, recs, pi.gp);
    var fdeCount := (end - start) / 8;
    var i, addr := 0, start;
    ghost var covered := pi.startIp <= ip < pi.endIp;
    ghost var rest := recs;
    while i < fdeCount && addr < end
      invariant 0 <= i <= fdeCount
      invariant Section(mem, addr, end, rest, pi.gp) && |rest| <= fdeCount - i && addr <= end
      invariant pi.gp == old(pi.gp) && pi.info == old(pi.info)
      invariant i == 0 ==> rest == recs && pi.Abs() == old(pi.Abs())
      invariant i > 0 ==> FirstMatch(recs, ip, covered) == Lookup(rest, ip) && (rest == [] || !(pi.startIp <= ip < pi.endIp))
      decreases fdeCount - i
    {
      i := i + 1;
      var fdeAddr := addr;
      var code: Result<()>;
      ghost var before := pi.Abs();
      addr, code := ExtractProcInfo(mem, addr, pi, false, 0);
      if rest == [] {
        ZeroLength(mem, fdeAddr, before, false);
      }
      if code.Err? { continue; }
      ghost var rec := rest[0];
      assert Extracted(addr, pi.Abs(), code) == Extracted(rec.next, After(rec, before, false), Ok(()));
      if ip >= pi.startIp && ip < pi.endIp {
        if !need { return Ok(()); }
        ghost var found := pi.Abs();
        var again: int;
        again, code := ExtractProcInfo(mem, fdeAddr, pi, need, 0);
        assert Extracted(again, pi.Abs(), code) == Extracted(rec.next, After(rec, found, need), Ok(()));
        return code;
      }
      rest := rest[1..];
    }
    r := Err(NoInfo);
  }

  /** Written records are records of a section. */
  lemma WrittenCieReads(mem: Memory, addr: int, cie: Cie, bases: Bases, gp: Word)
    requires CieWritten(mem, cie, addr, 0, bases)
    ensures Reads(mem, CieRec(addr, addr + |CieRecord(cie, 0)|), gp)
  {
    hide CieWritten, CieRecord, ExtractFde;
    forall pi: ProcInfo, need: bool {
      CieSkipped(mem, addr, cie, bases, 0, pi, need);
    }
  }

  /** Both records are written for whatever function start the scan comes with. */
  ghost predicate WrittenPair(mem: Memory, addr: int, cieAddr: int, cie: Cie, fde: Fde, info: CieInfo, offset: int, gp: Word) {
    forall bases: Bases :: bases.gp == gp ==>
      CieWritten(mem, cie, cieAddr, 0, bases) && FdeWritten(mem, fde, info, addr, offset, bases)
  }

  lemma WrittenFdeReads(mem: Memory, addr: int, cieAddr: int, cie: Cie, fde: Fde, info: CieInfo, offset: int, gp: Word)
    requires LengthsOk(cie) && info == CieMeaning(cie, cieAddr, 0) && offset == CieOffset(fde.wide, addr, cieAddr, 0)
    requires OffsetOk(fde.wide, offset, 0) && fde.sizeLen > 0
    requires WrittenPair(mem, addr, cieAddr, cie, fde, info, offset, gp)
    requires info.abiMarker && info.sized ==> addr + |FdeRecord(fde, info, offset)| + 4 <= |mem|
    ensures var end := addr + |FdeRecord(fde, info, offset)|;
            var pi := FdeMeaning(fde, info, BodyAddr(fde.wide, addr), end, ProcInfo(0, 0, 0, 0, gp, None), true);
            Reads(mem, FdeRec(addr, end, pi.startIp, pi.endIp, pi.lsda, pi.handler, pi.info.value), gp)
  {
    hide CieWritten, FdeWritten, FdeRecord, CieMeaning, ExtractFde, FdeAug, OffsetOk, CieOffset;
    forall pi: ProcInfo, need: bool | pi.gp == gp
      ensures ExtractFde(mem, addr, pi, need, 0)
              == Extracted(addr + |FdeRecord(fde, info, offset)|,
                           FdeMeaning(fde, info, BodyAddr(fde.wide, addr), addr + |FdeRecord(fde, info, offset)|, pi, need), Ok(()))
    {
      assert BasesOf(pi).gp == gp;
      FdeRoundTrip(mem, addr, cieAddr, cie, fde, 0, pi, need, info, offset);
    }
  }

  // ----- the index -----

  /** `struct table_entry`: two 32-bit offsets from the segment base. */
  datatype Entry = Entry(startIpOffset: int, fdeOffset: int)

  ghost predicate Sorted(table: seq<Entry>) {
    forall i, j :: 0 <= i < j < |table| ==> table[i].startIpOffset < table[j].startIpOffset
  }

  ghost predicate LastAtOrBefore(table: seq<Entry>, relIp: int, k: nat) {
    && k < |table| && table[k].startIpOffset <= relIp
    && forall j :: k < j < |table| ==> relIp < table[j].startIpOffset
  }

  /** `unw_lookup`: the last entry that starts at or before the ip. */
  method UnwLookup(table: seq<Entry>, relIp: int) returns (e: Option<Entry>)
    requires Sorted(table)
    ensures e.None? ==> forall k :: 0 <= k < |table| ==> relIp < table[k].startIpOffset
    ensures e.Some? ==> exists k :: 0 <= k < |table| && table[k] == e.value && LastAtOrBefore(table, relIp, k)
  {
    var lo, hi := 0, |table|;
    while lo < hi
      invariant 0 <= lo <= hi <= |table|
      invariant forall k :: 0 <= k < lo ==> table[k].startIpOffset <= relIp
      invariant forall k :: hi <= k < |table| ==> relIp < table[k].startIpOffset
    {
      var mid := (lo + hi) / 2;
      if relIp < table[mid].startIpOffset {
        hi := mid;
      } else {
        lo := mid + 1;
      }
    }
    if hi <= 0 {
      return None;
    }
    e := Some(table[hi - 1]);
    assert LastAtOrBefore(table, relIp, hi - 1);
  }

  /** Non-empty ranges that do not overlap. */
  ghost predicate Disjoint(recs: seq<Rec>) {
    && (forall i :: 0 <= i < |recs| && recs[i].FdeRec? ==> recs[i].startIp < recs[i].endIp)
    && (forall i, j :: 0 <= i < j < |recs| && recs[i].FdeRec? && recs[j].FdeRec? ==>
          recs[i].endIp <= recs[j].startIp || recs[j].endIp <= recs[i].startIp)
  }

  ghost predicate Describes(e: Entry, rec: Rec, segbase: Word) {
    rec.FdeRec? && rec.startIp == segbase + e.startIpOffset && rec.addr == segbase + e.fdeOffset
  }

  /** The entries and the FDEs correspond: entry k is for record `recOf[k]`, and the
      FDE at position i has entry `entryOf[i]`. */
  ghost predicate Indexes(table: seq<Entry>, recs: seq<Rec>, segbase: Word, recOf: seq<nat>, entryOf: seq<nat>) {
    && Sorted(table) && |recOf| == |table| && |entryOf| == |recs|
    && (forall k :: 0 <= k < |table| ==> recOf[k] < |recs| && Describes(table[k], recs[recOf[k]], segbase))
    && (forall i :: 0 <= i < |recs| && recs[i].FdeRec? ==>
          entryOf[i] < |table| && Describes(table[entryOf[i]], recs[i], segbase))
  }

  /** The cast to `int32_t`. */
  function Int32(x: int): int {
    Signed32(Wrap(x))
  }

  /** `dwarf_search_unwind_table`, for a remote-format table in the local address space.
      It gives the answer of the linear scan. */
  method SearchTable(mem: Memory, ip: Word, table: seq<Entry>, segbase: Word, pi: UnwProcInfo, need: bool,
                     ghost start: int, ghost end: int, ghost recs: seq<Rec>, ghost recOf: seq<nat>, ghost entryOf: seq<nat>)
    returns (r: Result<()>)
    requires Section(mem, start, end, recs, pi.gp) && Disjoint(recs) && Indexes(table, recs, segbase, recOf, entryOf)
    requires -0x8000_0000 <= ip - segbase < 0x8000_0000
    modifies pi
    ensures match Lookup(recs, ip)
            case Some(rec) => r == Ok(()) && pi.Abs() == After(rec, old(pi.Abs()), need)
            case None => r == Err(NoInfo)
  {
    hide ExtractFde, Int32, Section, Disjoint, Lookup, Sorted, Indexes, Describes;
    Int32Small(ip - segbase);
    assert Sorted(table) && |recOf| == |table| by { IndexesSizes(table, recs, segbase, recOf, entryOf); }
    var e := UnwLookup(table, Int32(ip - segbase));
    if e.None? {
      NoneCovers(table, recs, segbase, recOf, entryOf, ip);
      return Err(NoInfo);
    }
    ghost var k :| 0 <= k < |table| && table[k] == e.value && LastAtOrBefore(table, ip - segbase, k);
    ghost var i := recOf[k];
    IndexEntry(table, recs, segbase, recOf, entryOf, k);
    SectionReads(mem, start, end, recs, pi.gp, i);
    var fdeAddr := e.value.fdeOffset + segbase;
    var next: int;
    next, r := ExtractProcInfo(mem, fdeAddr, pi, need, 0);
    assert Extracted(next, pi.Abs(), r) == Extracted(recs[i].next, After(recs[i], old(pi.Abs()), need), Ok(()));
    OnlyCandidate(table, recs, segbase, recOf, entryOf, ip, k);
    if ip < pi.startIp || ip >= pi.endIp {
      return Err(NoInfo);
    }
  }

  lemma IndexesSizes(table: seq<Entry>, recs: seq<Rec>, segbase: Word, recOf: seq<nat>, entryOf: seq<nat>)
    requires Indexes(table, recs, segbase, recOf, entryOf)
    ensures Sorted(table) && |recOf| == |table|
  {
  }

  lemma IndexEntry(table: seq<Entry>, recs: seq<Rec>, segbase: Word, recOf: seq<nat>, entryOf: seq<nat>, k: nat)
    requires Indexes(table, recs, segbase, recOf, entryOf) && k < |table|
    ensures |recOf| == |table| && recOf[k] < |recs|
    ensures recs[recOf[k]].FdeRec? && recs[recOf[k]].addr == segbase + table[k].fdeOffset
  {
    assert Describes(table[k], recs[recOf[k]], segbase);
  }

  lemma Int32Small(x: int)
    requires -0x8000_0000 <= x < 0x8000_0000
    ensures Int32(x) == x
  {
  }

  lemma {:induction false} SectionReads(mem: Memory, addr: int, end: int, recs: seq<Rec>, gp: Word, i: nat)
    requires Section(mem, addr, end, recs, gp) && i < |recs|
    ensures Reads(mem, recs[i], gp)
    decreases |recs|
  {
    if i > 0 {
      SectionReads(mem, recs[0].next, end, recs[1..], gp, i - 1);
    }
  }

  lemma {:induction false} LookupNone(recs: seq<Rec>, ip: Word)
    requires forall i :: 0 <= i < |recs| ==> !Covers(recs[i], ip)
    ensures Lookup(recs, ip) == None
  {
    if recs != [] {
      LookupNone(recs[1..], ip);
    }
  }

  lemma {:induction false} LookupSome(recs: seq<Rec>, ip: Word, i: nat)
    requires i < |recs| && Covers(recs[i], ip)
    requires forall j :: 0 <= j < |recs| && j != i ==> !Covers(recs[j], ip)
    ensures Lookup(recs, ip) == Some(recs[i])
  {
    if i > 0 {
      LookupSome(recs[1..], ip, i - 1);
    }
  }

  /** Before the first entry there is no FDE. */
  lemma NoneCovers(table: seq<Entry>, recs: seq<Rec>, segbase: Word, recOf: seq<nat>, entryOf: seq<nat>, ip: Word)
    requires Indexes(table, recs, segbase, recOf, entryOf)
    requires forall k :: 0 <= k < |table| ==> ip - segbase < table[k].startIpOffset
    ensures Lookup(recs, ip) == None
  {
    forall i | 0 <= i < |recs|
      ensures !Covers(recs[i], ip)
    {
      assert recs[i].FdeRec? ==> Describes(table[entryOf[i]], recs[i], segbase);
    }
    LookupNone(recs, ip);
  }

  /** No record but the one of the last entry at or before the ip can cover it. */
  lemma OnlyCandidate(table: seq<Entry>, recs: seq<Rec>, segbase: Word, recOf: seq<nat>, entryOf: seq<nat>, ip: Word, k: nat)
    requires Indexes(table, recs, segbase, recOf, entryOf) && Disjoint(recs)
    requires LastAtOrBefore(table, ip - segbase, k)
    ensures Lookup(recs, ip) == var rec := recs[recOf[k]]; if Covers(rec, ip) then Some(rec) else None
  {
    var i := recOf[k];
    assert Describes(table[k], recs[i], segbase);
    forall j | 0 <= j < |recs| && j != i
      ensures !Covers(recs[j], ip)
    {
      if recs[j].FdeRec? && recs[j].startIp <= ip {
        var m := entryOf[j];
        assert Describes(table[m], recs[j], segbase);
        assert m <= k;
        assert recs[j].startIp <= recs[i].startIp;
      }
    }
    if Covers(recs[i], ip) {
      LookupSome(recs, ip, i);
    } else {
      LookupNone(recs, ip);
    }
  }
}
