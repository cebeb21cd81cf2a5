/** The call-frame machine as it runs: rules edited in place, remembered rows in
    pool objects (`run_cfi_program` and `parse_fde` of Gparser.c). */
module CfiMachine {
  import opened Words
  import opened Rules
  import opened Leb128
  import opened Cfi
  import opened Mempool

  /** `dwarf_state_record_t`: the rules after the CIE, and the current rules. */
  class StateRecord {
    const initial: array<SaveLoc>
    const current: array<SaveLoc>
    var argsSize: Word

    /** Cleared memory and unchanged registers (`create_state_record_for`). */
    constructor ()
      ensures Valid() && fresh(initial) && fresh(current)
      ensures Initial() == ZERO_ROW && Current() == ALL_SAME && argsSize == 0
    {
      initial := new SaveLoc[19](_ => SaveLoc(Undef, 0));
      current := new SaveLoc[19](_ => SaveLoc(Same, 0));
      argsSize := 0;
      new;
      assert initial[..] == ZERO_ROW && current[..] == ALL_SAME;
    }

    predicate Valid()
    {
      initial.Length == 19 && current.Length == 19 && initial != current
    }

    function Initial(): Row
      requires Valid()
      reads initial
    {
      initial[..]
    }

    function Current(): Row
      requires Valid()
      reads current
    {
      current[..]
    }
  }

  /** A remembered row and the pool object that holds it. */
  datatype Saved = Saved(obj: int, row: Row)

  function Rows(saved: seq<Saved>): (rows: seq<Row>)
    ensures |rows| == |saved|
  {
    if saved == [] then [] else [saved[0].row] + Rows(saved[1..])
  }

  function Objects(saved: seq<Saved>): set<int> {
    set x | x in saved :: x.obj
  }

  ghost predicate DistinctObjects(saved: seq<Saved>) {
    forall i, j :: 0 <= i < j < |saved| ==> saved[i].obj != saved[j].obj
  }

  /** `memcpy` of a row. */
  method CopyRow(dst: array<SaveLoc>, row: Row)
    requires dst.Length == 19
    modifies dst
    ensures dst[..] == row
  {
    forall i | 0 <= i < 19 {
      dst[i] := row[i];
    }
  }

  /** One iteration of the switch, but for the two state instructions. */
  method Edit(env: Env, sr: StateRecord, currIp: Word, i: Instr) returns (newIp: Word)
    requires sr.Valid() && !i.Remember? && !i.RestoreState?
    modifies sr`argsSize, sr.current
    ensures forall stack :: Exec(env, sr.Initial(), i, State(currIp, old(sr.Current()), stack, old(sr.argsSize)))
                            == Ok(State(newIp, sr.Current(), stack, sr.argsSize))
  {
    newIp := currIp;
    match i {
      case Advance(n) => newIp := Wrap(currIp + n * env.codeAlign);
      case Goto(loc) => newIp := loc;
      case SetRule(col, rule) => sr.current[col] := rule;
      case SetCfa(reg, off) =>
        sr.current[CFA_REG_COLUMN] := SaveLoc(Reg, reg);
        sr.current[CFA_OFF_COLUMN] := SaveLoc(Undef, off);
      case Restore(col) => sr.current[col] := sr.initial[col];
      case ArgsSize(size) => sr.argsSize := size;
      case Nop =>
    }
  }

  /** How many rows are remembered at once, at most, on the way to `ip`. */
  function Deepest(env: Env, initial: Row, ip: Word, addr: int, end: int, s: State): (n: nat)
    ensures n >= |s.stack|
    decreases end - addr
  {
    if s.loc > ip || addr >= end || Decode(env, addr).Err? then |s.stack|
    else
      var (i, next) := Decode(env, addr).value;
      match Exec(env, initial, i, s)
      case Err(_) => |s.stack|
      case Ok(s') => Max(|s.stack|, Deepest(env, initial, ip, next, end, s'))
  }

  function Max(a: nat, b: nat): nat {
    if a < b then b else a
  }

  /** How many rows the two programs of an FDE remember at once. */
  function DeepestFde(env: Env, p: Programs, startIp: Word, ip: Word): nat {
    var inCie := Deepest(env, ZERO_ROW, MAX_IP, p.cieStart, p.cieEnd, State(startIp, ALL_SAME, [], 0));
    match RunCie(env, p, startIp)
    case Err(_) => inCie
    case Ok(s) =>
      Max(inCie, Deepest(env, s.row, ip, p.fdeStart, p.fdeEnd, State(startIp, s.row, [], s.argsSize)))
  }

  /** `run_cfi_program`. Whatever the exit, every object taken from the pool has been
      given back; the result and the rules are those of the specification, unless the
      pool ran dry, and it runs dry only when the emergency area is exhausted. With enough
      free objects for the deepest nesting no memory is asked for. */
  method RunCfiProgram(env: Env, sr: StateRecord, pool: Pool, startIp: Word, ip: Word, start: int, end: int)
    returns (r: Result<()>)
    requires sr.Valid() && pool.Valid()
    modifies sr`argsSize, sr.current, pool, pool.store
    ensures pool.Valid() && pool.Outstanding() == old(pool.Outstanding())
    ensures var spec := RunFrom(env, sr.Initial(), ip, start, end, State(startIp, old(sr.Current()), [], old(sr.argsSize)));
            && (r.Ok? ==> spec.Ok? && spec.value.row == sr.Current() && spec.value.argsSize == sr.argsSize)
            && (r.Err? && r.error != NoMem ==> spec == Err(r.error))
    ensures r == Err(NoMem) ==> pool.store.sosFreePos > SOS_MEMORY_SIZE
    ensures var depth := Deepest(env, sr.Initial(), ip, start, end, State(startIp, old(sr.Current()), [], old(sr.argsSize)));
            old(pool.numFree) >= pool.reserve + depth ==>
              r != Err(NoMem) && pool.numFree == old(pool.numFree) && pool.store.requests == old(pool.store.requests)
  {
    hide Decode, Rows, Objects, DistinctObjects, Pool.Valid, Pool.Outstanding, Wrap;
    var addr := start;
    var currIp: Word := startIp;
    var saved: seq<Saved> := [];
    r := Ok(());
    SavedNone();
    ghost var spec := RunFrom(env, sr.Initial(), ip, start, end, State(startIp, sr.Current(), [], sr.argsSize));
    ghost var depth := Deepest(env, sr.Initial(), ip, start, end, State(startIp, sr.Current(), [], sr.argsSize));
    ghost var ample := pool.numFree >= pool.reserve + depth;
    while currIp <= ip && addr < end
      invariant r == Ok(())
      invariant ample ==> pool.numFree == old(pool.numFree) - |saved| && pool.store.requests == old(pool.store.requests)
      invariant Deepest(env, sr.Initial(), ip, addr, end, State(currIp, sr.Current(), Rows(saved), sr.argsSize)) <= depth
      invariant pool.Valid() && sr.Initial() == old(sr.Initial())
      invariant DistinctObjects(saved) && Objects(saved) !! old(pool.Outstanding())
      invariant pool.Outstanding() == old(pool.Outstanding()) + Objects(saved)
      invariant RunFrom(env, sr.Initial(), ip, addr, end, State(currIp, sr.Current(), Rows(saved), sr.argsSize)) == spec
      decreases end - addr
    {
      var d := Decode(env, addr);
      if d.Err? {
        DecodeErrors(env, addr);
        r := Err(d.error);
        break;
      }
      var (i, next) := d.value;
      if i.Remember? {
        var newRs := pool.Alloc();
        if newRs.None? {
          r := Err(NoMem);
          break;
        }
        SavedPush(saved, Saved(newRs.value, sr.Current()));
        saved := [Saved(newRs.value, sr.Current())] + saved;
      } else if i.RestoreState? {
        if saved == [] {
          r := Err(Inval);
          break;
        }
        var oldRs := saved[0];
        CopyRow(sr.current, oldRs.row);
        SavedPop(saved);
        saved := saved[1..];
        pool.Free(oldRs.obj);
      } else {
        currIp := Edit(env, sr, currIp, i);
      }
      addr := next;
    }
    FreeSaved(pool, saved);
  }

  /** Reading an instruction takes no memory. */
  lemma DecodeErrors(env: Env, addr: int)
    ensures Decode(env, addr) != Err(NoMem)
  {
    hide Wrap, SignExtend, LittleEndian, Scale, UlebFrom, SlebFrom;
    forall a
      ensures ReadUleb(env.mem, a) != Err(NoMem) && ReadSleb(env.mem, a) != Err(NoMem)
    {
      GroupErrors(env.mem, a, 0, 0);
    }
  }

  lemma {:induction false} GroupErrors(mem: Memory, addr: int, val: Word, shift: nat)
    ensures UlebFrom(mem, addr, val, shift) != Err(NoMem) && SlebFrom(mem, addr, val, shift) != Err(NoMem)
    decreases |mem| - addr
  {
    hide BitOp, Shl;
    if U8(mem, addr).Ok? {
      var v := BitOp(OrGate, val, Shl(mem[addr] % 0x80, shift));
      GroupErrors(mem, addr + 1, v, shift + 7);
    }
  }

  /** Every saved state goes back to the pool. */
  method FreeSaved(pool: Pool, stack: seq<Saved>)
    requires pool.Valid() && DistinctObjects(stack) && Objects(stack) <= pool.Outstanding()
    modifies pool
    ensures pool.Valid() && pool.Outstanding() == old(pool.Outstanding()) - Objects(stack)
    ensures pool.numFree == old(pool.numFree) + |stack|
  {
    var saved := stack;
    while saved != []
      invariant pool.Valid() && DistinctObjects(saved) && Objects(saved) <= pool.Outstanding()
      invariant pool.Outstanding() - Objects(saved) == old(pool.Outstanding()) - Objects(stack)
      invariant pool.numFree + |saved| == old(pool.numFree) + |stack|
      decreases |saved|
    {
      var oldRs := saved[0];
      SavedPop(saved);
      saved := saved[1..];
      pool.Free(oldRs.obj);
    }
  }

  lemma SavedNone()
    ensures Rows([]) == [] && Objects([]) == {} && DistinctObjects([])
  {
  }

  lemma SavedPush(saved: seq<Saved>, x: Saved)
    ensures Rows([x] + saved) == [x.row] + Rows(saved)
    ensures Objects([x] + saved) == Objects(saved) + {x.obj}
    ensures DistinctObjects(saved) && x.obj !in Objects(saved) ==> DistinctObjects([x] + saved)
  {
    assert ([x] + saved)[1..] == saved;
    ObjectsPush(saved, x);
    DistinctPush(saved, x);
    hide Objects, DistinctObjects;
  }

  lemma DistinctPush(saved: seq<Saved>, x: Saved)
    ensures DistinctObjects(saved) && x.obj !in Objects(saved) ==> DistinctObjects([x] + saved)
  {
    if DistinctObjects(saved) && x.obj !in Objects(saved) {
      forall j | 0 <= j < |saved|
        ensures saved[j].obj != x.obj
      {
        assert saved[j] in saved && saved[j].obj in Objects(saved);
      }
    }
  }

  lemma ObjectsPush(saved: seq<Saved>, x: Saved)
    ensures Objects([x] + saved) == Objects(saved) + {x.obj}
  {
    assert forall y :: y in [x] + saved <==> y == x || y in saved;
  }

  lemma SavedPop(saved: seq<Saved>)
    requires saved != []
    ensures Rows(saved) == [saved[0].row] + Rows(saved[1..])
    ensures Objects(saved) == Objects(saved[1..]) + {saved[0].obj}
    ensures DistinctObjects(saved) ==> DistinctObjects(saved[1..]) && saved[0].obj !in Objects(saved[1..])
  {
    assert saved == [saved[0]] + saved[1..];
    SavedPush(saved[1..], saved[0]);
  }

  /** `parse_fde`: the CIE program, a copy of its rules, the FDE program. */
  method ParseFde(env: Env, sr: StateRecord, pool: Pool, p: Programs, startIp: Word, ip: Word)
    returns (r: Result<()>)
    requires sr.Valid() && pool.Valid()
    requires sr.Initial() == ZERO_ROW && sr.Current() == ALL_SAME && sr.argsSize == 0
    modifies sr`argsSize, sr.initial, sr.current, pool, pool.store
    ensures pool.Valid() && pool.Outstanding() == old(pool.Outstanding())
    ensures var spec := RunFde(env, p, startIp, ip);
            && (r.Ok? ==> spec.Ok? && spec.value.row == sr.Current() && spec.value.argsSize == sr.argsSize)
            && (r.Err? && r.error != NoMem ==> spec == Err(r.error))
    ensures r == Err(NoMem) ==> pool.store.sosFreePos > SOS_MEMORY_SIZE
    ensures old(pool.numFree) >= pool.reserve + DeepestFde(env, p, startIp, ip) ==>
              r != Err(NoMem) && pool.numFree == old(pool.numFree) && pool.store.requests == old(pool.store.requests)
    // the rules that restore goes back to are those of the CIE
    ensures r.Ok? ==> RowOf(RunCie(env, p, startIp)) == Ok(sr.Initial())
  {
    r := RunCfiProgram(env, sr, pool, startIp, MAX_IP, p.cieStart, p.cieEnd);
    if r.Err? {
      return;
    }
    CopyRow(sr.initial, sr.Current());
    r := RunCfiProgram(env, sr, pool, startIp, ip, p.fdeStart, p.fdeEnd);
  }
}
