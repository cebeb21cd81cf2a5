/** Unwinding undoes calling: the walk over the stack that nested calls leave. */
module CallChain {
  import opened Words
  import opened Rules
  import opened Trace
  import opened FastTrace

  /** The machine, as far as calls go. Memory is addressed by word. */
  datatype Machine = Machine(rip: Word, rsp: Word, rbp: Word, mem: Word -> Word)

  function Store(mem: Word -> Word, addr: Word, v: Word): Word -> Word {
    a => if a == addr then v else mem(a)
  }

  function Push(m: Machine, v: Word): Machine {
    var rsp := Wrap(m.rsp - 8);
    m.(rsp := rsp, mem := Store(m.mem, rsp, v))
  }

  /** `call`: the return address is pushed. */
  function Call(m: Machine, target: Word, ret: Word): Machine {
    Push(m, ret).(rip := target)
  }

  /** `push rbp`. */
  function PushRbp(m: Machine, next: Word): Machine {
    Push(m, m.rbp).(rip := next)
  }

  /** `mov rbp, rsp` and `sub rsp, locals`. */
  function SetFrame(m: Machine, locals: nat, next: Word): Machine {
    m.(rbp := m.rsp, rsp := Wrap(m.rsp - locals), rip := next)
  }

  /** The cursor for a machine state. */
  function CursorOf(m: Machine): Slow {
    Slow(m.rip, m.rsp, Context(m.rbp))
  }

  /** The cursor stands at a return address in a caller: its stack pointer and its RBP
      are those at the call. */
  ghost predicate Returned(env: Env, s: Slow, ret: Word, caller: Machine) {
    s.ip == ret && s.cfa == caller.rsp && Get(env, s.rbpLoc) == Ok(caller.rbp)
  }

  /** At the entry of a function the step leads back to the caller. */
  lemma EntryUndone(env: Env, m: Machine, target: Word, ret: Word)
    requires m.rsp >= PAGE_SIZE + 8
    requires env.mem == Call(m, target, ret).mem
    ensures var step := SlowStep(env, ENTRY_ROW, CursorOf(Call(m, target, ret)));
            step.Go? && Returned(env, step.s, ret, m)
  {
  }

  /** And once RBP has been pushed. */
  lemma PushUndone(env: Env, m: Machine, target: Word, ret: Word, next: Word)
    requires m.rsp >= PAGE_SIZE + 16
    requires env.mem == PushRbp(Call(m, target, ret), next).mem
    ensures var step := SlowStep(env, PUSHED_ROW, CursorOf(PushRbp(Call(m, target, ret), next)));
            step.Go? && Returned(env, step.s, ret, m)
  {
    hide SlowStep, PushRbp, Call, Returned;
    PushedState(m, target, ret, next);
    PushedStep(env, CursorOf(PushRbp(Call(m, target, ret), next)), ret, m);
  }

  lemma PushedState(m: Machine, target: Word, ret: Word, next: Word)
    requires m.rsp >= 16
    ensures var n := PushRbp(Call(m, target, ret), next);
            && n.rsp == m.rsp - 16 && n.rbp == m.rbp
            && n.mem(m.rsp - 8) == ret && n.mem(m.rsp - 16) == m.rbp
  {
  }

  lemma PushedStep(env: Env, s: Slow, ret: Word, caller: Machine)
    requires caller.rsp >= PAGE_SIZE + 16 && s.cfa == caller.rsp - 16
    requires env.mem(caller.rsp - 8) == ret && env.mem(caller.rsp - 16) == caller.rbp
    ensures var step := SlowStep(env, PUSHED_ROW, s); step.Go? && Returned(env, step.s, ret, caller)
  {
  }

  // ----- nested calls -----

  /** A call of a function with the usual prologue, up to its body. */
  datatype Invocation = Invocation(target: Word, ret: Word, pushed: Word, body: Word, locals: nat)

  function Invoke(m: Machine, c: Invocation): Machine {
    SetFrame(PushRbp(Call(m, c.target, c.ret), c.pushed), c.locals, c.body)
  }

  /** The machine inside the last of nested calls. */
  function After(m: Machine, calls: seq<Invocation>): Machine {
    if calls == [] then m
    else
      Invoke(After(m, calls[..|calls| - 1]), calls[|calls| - 1])
  }

  /** The stack that the calls take. */
  function Room(calls: seq<Invocation>): nat {
    if calls == [] then 0 else Room(calls[..|calls| - 1]) + 16 + calls[|calls| - 1].locals
  }

  lemma {:induction false} StackPointer(m: Machine, calls: seq<Invocation>)
    requires m.rsp >= Room(calls)
    ensures After(m, calls).rsp == m.rsp - Room(calls)
    decreases |calls|
  {
    hide Invoke;
    if calls != [] {
      var shorter := calls[..|calls| - 1];
      StackPointer(m, shorter);
      InvokeFrame(After(m, shorter), calls[|calls| - 1]);
    }
  }

  lemma {:induction false} RoomGrows(calls: seq<Invocation>, i: nat)
    requires i < |calls|
    ensures Room(calls[..i]) + 16 + calls[i].locals == Room(calls[..i + 1]) <= Room(calls)
    decreases |calls|
  {
    assert calls[..i + 1][..i] == calls[..i];
    if i + 1 < |calls| {
      var shorter := calls[..|calls| - 1];
      RoomGrows(shorter, i);
      assert shorter[..i] == calls[..i] && shorter[..i + 1] == calls[..i + 1];
    } else {
      assert calls[..i + 1] == calls;
    }
  }

  /** What one invocation leaves in its frame. */
  lemma InvokeFrame(m: Machine, c: Invocation)
    requires m.rsp >= 16 + c.locals
    ensures var n := Invoke(m, c);
            && n.rbp == m.rsp - 16 && n.rsp == m.rsp - 16 - c.locals && n.rip == c.body
            && n.mem(Wrap(m.rsp - 8)) == c.ret && n.mem(Wrap(m.rsp - 16)) == m.rbp
            && forall a: Word :: a >= m.rsp ==> n.mem(a) == m.mem(a)
  {
  }

  /** The frames of outer calls stay as they are. */
  lemma {:induction false} FramesPersist(m: Machine, calls: seq<Invocation>, i: nat)
    requires i < |calls| && m.rsp >= Room(calls)
    ensures var outer, now := After(m, calls[..i]), After(m, calls);
            && outer.rsp >= 16 && outer.rsp == m.rsp - Room(calls[..i])
            && now.mem(outer.rsp - 8) == calls[i].ret && now.mem(outer.rsp - 16) == outer.rbp
            && After(m, calls[..i + 1]).rbp == outer.rsp - 16
    decreases |calls|
  {
    hide Invoke, After, Room;
    var n := |calls| - 1;
    var shorter, c := calls[..n], calls[n];
    assert calls[..|calls|] == calls;
    AfterLast(m, calls);
    RoomGrows(calls, i);
    RoomGrows(calls, n);
    StackPointer(m, calls[..i]);
    StackPointer(m, shorter);
    InvokeFrame(After(m, shorter), c);
    if i < n {
      RoomGrows(shorter, i);
      assert shorter[..i] == calls[..i] && shorter[..i + 1] == calls[..i + 1];
      FramesPersist(m, shorter, i);
    } else {
      assert calls[..i] == shorter && calls[..i + 1] == calls;
    }
  }

  lemma AfterLast(m: Machine, calls: seq<Invocation>)
    requires calls != []
    ensures After(m, calls) == Invoke(After(m, calls[..|calls| - 1]), calls[|calls| - 1])
  {
    hide Invoke;
  }

  /** With RBP as the frame pointer, the step leads back to the caller. */
  lemma FrameUndone(env: Env, s: Slow, ret: Word, caller: Machine)
    requires caller.rsp >= PAGE_SIZE + 16 && s.cfa != caller.rsp
    requires Get(env, s.rbpLoc) == Ok(caller.rsp - 16)
    requires env.mem(caller.rsp - 8) == ret && env.mem(caller.rsp - 16) == caller.rbp
    ensures var step := SlowStep(env, FRAMED_ROW, s); step.Go? && Returned(env, step.s, ret, caller)
  {
  }

  /** The code at an ip has set up its frame. */
  predicate Framed(env: Env, ip: Word) {
    HasInfo(env, ip) && env.info(ip).value == FRAMED_ROW
  }

  /** Unwinding undoes calling: inside `k` nested calls, the `j`-th step of the walk stands
      at the return address of the `j`-th innermost call, with the stack pointer and RBP
      that its caller had. */
  lemma {:induction false} WalkUndoesCalls(env: Env, m: Machine, calls: seq<Invocation>, j: nat)
    requires 0 < j <= |calls| && m.rsp >= PAGE_SIZE + Room(calls)
    requires env.mem == After(m, calls).mem && Framed(env, After(m, calls).rip)
    requires forall i :: 0 < i < |calls| ==> Framed(env, calls[i].ret)
    ensures var k := |calls| - j;
            var w := Walk(env, CursorOf(After(m, calls)), j);
            w.Some? && Returned(env, w.value, calls[k].ret, After(m, calls[..k]))
    decreases j
  {
    hide SlowStep, After, Room;
    var s := CursorOf(After(m, calls));
    var k := |calls| - j;
    FramesPersist(m, calls, k);
    RoomGrows(calls, k);
    StackPointer(m, calls[..k]);
    StackPointer(m, calls[..k + 1]);
    var caller := After(m, calls[..k]);
    assert calls[..|calls|] == calls;
    if j > 1 {
      WalkUndoesCalls(env, m, calls, j - 1);
    } else {
      assert Walk(env, s, 0) == Some(s);
    }
    var t := Walk(env, s, j - 1).value;
    FrameUndone(env, t, calls[k].ret, caller);
  }

  /** All those frames are of moderate size, so that the fast trace records every one of
      them, if the return addresses are not bogus. */
  lemma CallsAreModerate(env: Env, m: Machine, calls: seq<Invocation>)
    requires m.rsp >= PAGE_SIZE + Room(calls)
    requires env.mem == After(m, calls).mem && Framed(env, After(m, calls).rip)
    requires forall i :: 0 < i < |calls| ==> Framed(env, calls[i].ret)
    requires forall i :: 0 <= i < |calls| ==> calls[i].ret >= 0x4000
    ensures ModerateUpTo(env, CursorOf(After(m, calls)), |calls|)
  {
    hide Moderate, Walk, After, Room;
    var s := CursorOf(After(m, calls));
    forall i: nat | i < |calls|
      ensures Walk(env, s, i).Some? && Moderate(env, Walk(env, s, i).value)
    {
      var k := |calls| - 1 - i;
      FramesPersist(m, calls, k);
      RoomGrows(calls, k);
      StackPointer(m, calls[..k]);
      StackPointer(m, calls[..k + 1]);
      assert calls[..|calls|] == calls;
      if i > 0 {
        WalkUndoesCalls(env, m, calls, i);
      } else {
        WalkStart(env, s);
      }
      FramedModerate(env, Walk(env, s, i).value, calls[k].ret, After(m, calls[..k]));
    }
  }

  lemma WalkStart(env: Env, s: Slow)
    ensures Walk(env, s, 0) == Some(s)
  {
  }

  lemma FramedModerate(env: Env, s: Slow, ret: Word, caller: Machine)
    requires Framed(env, s.ip) && caller.rsp >= PAGE_SIZE + 16 && s.cfa != caller.rsp && ret >= 0x4000
    requires Get(env, s.rbpLoc) == Ok(caller.rsp - 16) && env.mem(caller.rsp - 8) == ret
    ensures Moderate(env, s)
  {
  }
}
