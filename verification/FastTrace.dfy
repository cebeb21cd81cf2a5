/** `tdep_trace` and `unw_backtrace` against the slow walk (Gtrace.c, backtrace.c). */
module FastTrace {
  import opened Words
  import opened Rules
  import opened Trace
  import opened TraceCache

  lemma UpToMonotone(env: Env, s: Slow, n: nat, m: nat)
    requires n <= m
    ensures RegularUpTo(env, s, m) ==> RegularUpTo(env, s, n)
    ensures TraceableUpTo(env, s, m) ==> TraceableUpTo(env, s, n) && RegularUpTo(env, s, m)
  {
  }

  /** The frames that tracing comes to within `size` are regular. */
  ghost predicate RegularWhereTraced(env: Env, s: Slow, size: int) {
    forall i: nat :: i < size && TraceableUpTo(env, s, i) && Walk(env, s, i).Some? ==> Regular(env, Walk(env, s, i).value)
  }

  lemma TracedSoFar(env: Env, s: Slow, size: int, n: nat)
    requires RegularWhereTraced(env, s, size) && TraceableUpTo(env, s, n) && n < size
    ensures RegularUpTo(env, s, n + 1)
  {
    hide Traceable, Regular, Walk;
    UpToMonotone(env, s, n, n);
  }

  /** The first `n` frames are regular, and the next one is too or has no plain info. */
  ghost predicate RegularOrBare(env: Env, s: Slow, n: nat) {
    && RegularUpTo(env, s, n)
    && (Walk(env, s, n).Some? ==> Regular(env, Walk(env, s, n).value) || !HasInfo(env, Walk(env, s, n).value.ip))
  }

  /** So are the frames that a trace which stopped after `depth` records has looked up. */
  ghost predicate VisitedRegular(env: Env, s: Slow, depth: nat, size: int) {
    if depth < size then RegularOrBare(env, s, depth) else RegularUpTo(env, s, depth)
  }

  /** The registers stand for the slow cursor after `n` steps, if the walk is regular
      that far. */
  ghost predicate OnWalk(env: Env, s: Slow, n: nat, r: Fast) {
    RegularUpTo(env, s, n) ==>
      Walk(env, s, n).Some? && StandsFor(env, Walk(env, s, n).value, r)
  }

  /** Position `j - 1` of the buffer is right, if the walk is regular that far. */
  ghost predicate Recorded(env: Env, s: Slow, j: nat, entry: Word) {
    RegularUpTo(env, s, j) ==> Walk(env, s, j).Some? && entry == Wrap(Walk(env, s, j).value.ip - 1)
  }

  /** Every address recorded is that of the walk, less one. */
  ghost predicate AllRecorded(env: Env, s: Slow, entries: seq<Word>) {
    forall j :: 0 <= j < |entries| ==> Recorded(env, s, j + 1, entries[j])
  }

  lemma RecordMore(env: Env, s: Slow, entries: seq<Word>, entry: Word)
    requires AllRecorded(env, s, entries) && Recorded(env, s, |entries| + 1, entry)
    ensures AllRecorded(env, s, entries + [entry])
  {
    hide Recorded;
  }

  lemma AllRecordedNone(env: Env, s: Slow)
    ensures AllRecorded(env, s, [])
  {
  }

  // ----- the walk meets a frame that cannot be traced -----

  /** The frame has plain info that is neither standard nor that of the last frame. */
  ghost predicate Untraceable(env: Env, s: Slow) {
    HasInfo(env, s.ip) &&
    var row := env.info(s.ip).value; !StandardRow(row) && row[RBP].where != Undef
  }

  /** Within `size` frames an untraceable one follows traceable ones. */
  ghost predicate MeetsUntraceable(env: Env, s: Slow, size: int) {
    exists i: nat :: i < size && TraceableUpTo(env, s, i) && Walk(env, s, i).Some? && Untraceable(env, Walk(env, s, i).value)
  }

  /** The first frame that is not traceable decides. */
  lemma FirstDecides(env: Env, s: Slow, n: nat, size: int)
    requires TraceableUpTo(env, s, n) && Walk(env, s, n).Some? && n < size
    requires !Traceable(env, Walk(env, s, n).value)
    ensures MeetsUntraceable(env, s, size) <==> Untraceable(env, Walk(env, s, n).value)
  {
    hide Walk, Traceable, Untraceable;
    assert forall i: nat :: TraceableUpTo(env, s, i) ==> i <= n;
    forall i: nat | i < n
      ensures Traceable(env, Walk(env, s, i).value)
    {
    }
    forall i: nat | i < n && Untraceable(env, Walk(env, s, i).value)
      ensures false
    {
      NotBoth(env, Walk(env, s, i).value);
    }
  }

  lemma AllTraceable(env: Env, s: Slow, size: nat)
    requires TraceableUpTo(env, s, size)
    ensures !MeetsUntraceable(env, s, size)
  {
    hide Walk, Traceable, Untraceable;
    forall i: nat | i < size && Untraceable(env, Walk(env, s, i).value)
      ensures false
    {
      NotBoth(env, Walk(env, s, i).value);
    }
  }

  lemma NotBoth(env: Env, s: Slow)
    ensures !(Traceable(env, s) && Untraceable(env, s))
  {
  }

  /** The first `n` frames of the walk are of moderate size. */
  ghost predicate ModerateUpTo(env: Env, s: Slow, n: int) {
    forall i: nat :: i < n ==> Walk(env, s, i).Some? && Moderate(env, Walk(env, s, i).value)
  }

  lemma ModerateTraceable(env: Env, s: Slow)
    requires Moderate(env, s)
    ensures Traceable(env, s)
  {
    var row := env.info(s.ip).value;
    var base := if row[CFA_REG_COLUMN].val == RSP then s.cfa else Get(env, s.rbpLoc).value;
    ModerateRow(row);
    var cfa := Wrap(base + row[CFA_OFF_COLUMN].val);
    MinusEight(row[RIP].val, cfa);
    ModerateStep(env, s, cfa);
    ModerateTelling(env, s, cfa);
    hide IsStandard, StandardRow, Packable, Signed, Wrap, Telling, Applied, SlowStep, SavedNear;
  }

  lemma ModerateStep(env: Env, s: Slow, cfa: Word)
    requires Moderate(env, s) && StandardRow(env.info(s.ip).value)
    requires var row := env.info(s.ip).value;
             && cfa == Wrap((if row[CFA_REG_COLUMN].val == RSP then s.cfa else Get(env, s.rbpLoc).value) + row[CFA_OFF_COLUMN].val)
             && Wrap(cfa + row[RIP].val) == Wrap(cfa - 8)
    ensures var row := env.info(s.ip).value;
            && Applied(env, row, s).Ok? && Applied(env, row, s).value.cfa == cfa
            && Applied(env, row, s).value.ip == env.mem(Wrap(cfa - 8))
            && SlowStep(env, row, s) == Go(Applied(env, row, s).value)
  {
    hide Wrap, IsStandard, Signed;
  }

  lemma ModerateTelling(env: Env, s: Slow, cfa: Word)
    requires Moderate(env, s) && StandardRow(env.info(s.ip).value)
    requires var row := env.info(s.ip).value;
             && cfa == Wrap((if row[CFA_REG_COLUMN].val == RSP then s.cfa else Get(env, s.rbpLoc).value) + row[CFA_OFF_COLUMN].val)
             && Wrap(cfa + row[RIP].val) == Wrap(cfa - 8)
    ensures Telling(env, s.cfa, s.ip, Get(env, s.rbpLoc).value)
  {
    hide Wrap, IsStandard, Signed;
  }

  lemma ModerateRow(row: Row)
    requires Plain(row) && Signed(row[RIP].val) == -8 && SavedNear(row[RBP]) && SavedNear(row[RSP])
    requires -0x2000_0000 < Signed(row[CFA_OFF_COLUMN].val) < 0x2000_0000
    ensures StandardRow(row) && Packable(row)
  {
  }

  lemma MinusEight(v: Word, cfa: Word)
    requires Signed(v) == -8
    ensures Wrap(cfa + v) == Wrap(cfa - 8)
  {
  }

  lemma ModerateFrames(env: Env, s: Slow, n: nat)
    ensures ModerateUpTo(env, s, n) ==> TraceableUpTo(env, s, n)
  {
    hide Walk, Moderate, Traceable;
    if ModerateUpTo(env, s, n) {
      forall i: nat | i < n
        ensures Traceable(env, Walk(env, s, i).value)
      {
        ModerateTraceable(env, Walk(env, s, i).value);
      }
    }
  }

  // ----- one round -----

  /** One recorded round of the trace is one step of the walk. */
  lemma WalkOn(env: Env, s: Slow, n: nat, f: Frame, r: Fast)
    requires Walk(env, s, n).Some? && RegularUpTo(env, s, n + 1)
    requires StandsFor(env, Walk(env, s, n).value, r) && Agrees(env, f)
    requires f.virtualAddress == Wrap(r.rip - 1)
    ensures f.frameType == Standard || f.frameType == Other
    ensures f.frameType == Standard && !f.lastFrame ==>
              Walk(env, s, n + 1).Some? && StandsFor(env, Walk(env, s, n + 1).value, FastStep(env, f, r))
  {
    hide Pack, StandardRow, FastStep;
    var t := Walk(env, s, n).value;
    PredSucc(t.ip);
    assert Regular(env, t);
    if f.frameType == Standard && !f.lastFrame {
      RoundAgrees(env, f, t, r);
    }
  }

  /** What a complete summary of a regular cursor's frame says about the cursor. */
  lemma SummaryDecides(env: Env, s: Slow, f: Frame, r: Fast)
    requires StandsFor(env, s, r) && Regular(env, s) && Agrees(env, f) && Complete(env, f)
    requires f.virtualAddress == Wrap(r.rip - 1)
    ensures f.frameType == Standard || f.frameType == Other
    ensures f.lastFrame ==> !Traceable(env, s) && !Untraceable(env, s)
    ensures f.frameType == Other && !f.lastFrame ==> Untraceable(env, s) && !Traceable(env, s)
    ensures f.frameType == Standard && !f.lastFrame ==>
              !Untraceable(env, s) && (Traceable(env, s) <==> FastStep(env, f, r).rip >= 0x4000)
  {
    hide Pack, IsStandard, FastStep;
    PredSucc(s.ip);
    if f.frameType == Standard && !f.lastFrame {
      RoundAgrees(env, f, s, r);
    }
  }

  /** Validation accepts the slots that a frame with this CFA reads. */
  predicate SlotsReadable(env: Env, f: Frame, cfa: Word) {
    && Get(env, At(Wrap(cfa - 8))).Ok?
    && (f.rbpCfaOffset != -1 ==> Get(env, At(Wrap(cfa + f.rbpCfaOffset))).Ok?)
  }

  predicate ContextReadable(env: Env, context: Word) {
    && Get(env, At(Wrap(context + GREGS_RIP))).Ok?
    && Get(env, At(Wrap(context + GREGS_RBP))).Ok?
    && Get(env, At(Wrap(context + GREGS_RSP))).Ok?
  }

  /** The stack resumes where the interrupted context had it. */
  function ContextRegisters(env: Env, context: Word): Fast {
    var rsp := env.mem(Wrap(context + GREGS_RSP));
    Fast(rsp, env.mem(Wrap(context + GREGS_RIP)), env.mem(Wrap(context + GREGS_RBP)), rsp)
  }

  /** The switch over the frame type: the registers of the next frame. */
  method Advance(env: Env, f: Frame, validate: bool, r: Fast)
    returns (validate': bool, r': Fast, usePrev: int, ret: Result<()>)
    ensures validate' == (validate || f.frameType == Guessed)
    // a standard or a guessed frame: the saved registers relative to the new CFA
    ensures f.frameType == Standard || f.frameType == Guessed ==>
              && (ret.Ok? ==> r' == FastStep(env, f, r) && usePrev == 1)
              && (ret.Ok? <==> !validate' || SlotsReadable(env, f, FastStep(env, f, r).cfa))
    // a signal frame: the registers of the interrupted context
    ensures f.frameType == Sigreturn ==>
              var context := Wrap(r.cfa + f.cfaRegOffset);
              && (ret.Ok? <==> !validate' || ContextReadable(env, context))
              && (ret.Ok? ==> usePrev == 0 && r' == ContextRegisters(env, context))
    // a round fails on a frame of no known form, or on a read that validation rejects
    ensures ret == Err(StopUnwind) <==> f.frameType == Other
    ensures ret.Err? && f.frameType != Other ==> ret.error in {BadReg, Unspec} && validate'
  {
    validate', r', usePrev, ret := validate, r, 0, Ok(());
    var cfa, rip, rbp, rsp := r.cfa, r.rip, r.rbp, r.rsp;
    match f.frameType {
      case Standard | Guessed =>
        if f.frameType == Guessed {
          validate' := true;
        }
        cfa := Wrap((if f.cfaRegRsp then rsp else rbp) + f.cfaRegOffset);
        var ra := AccessFast(env, validate', Wrap(cfa - 8));
        if ra.Err? { ret := Err(ra.error); return; }
        rip := ra.value;
        if f.rbpCfaOffset != -1 {
          var v := AccessFast(env, validate', Wrap(cfa + f.rbpCfaOffset));
          if v.Err? { ret := Err(v.error); return; }
          rbp := v.value;
        }
        // a return address: the next lookup decrements it
        rsp := cfa;
        usePrev := 1;
      case Sigreturn =>
        cfa := Wrap(cfa + f.cfaRegOffset);
        var ra := AccessFast(env, validate', Wrap(cfa + GREGS_RIP));
        if ra.Err? { ret := Err(ra.error); return; }
        rip := ra.value;
        var v := AccessFast(env, validate', Wrap(cfa + GREGS_RBP));
        if v.Err? { ret := Err(v.error); return; }
        rbp := v.value;
        v := AccessFast(env, validate', Wrap(cfa + GREGS_RSP));
        if v.Err? { ret := Err(v.error); return; }
        rsp := v.value;
        cfa := rsp;
        usePrev := 0;
      case Other =>
        ret := Err(StopUnwind);
    }
    r' := Fast(cfa, rip, rbp, rsp);
  }

  /** One round keeps the trace on the walk. */
  lemma RoundOnWalk(env: Env, s: Slow, n: nat, f: Frame, r: Fast, validate: bool,
                    r': Fast, validate': bool, ret: Result<()>)
    requires OnWalk(env, s, n, r) && Agrees(env, f) && !f.lastFrame
    requires f.virtualAddress == Wrap(r.rip - 1) && (RegularUpTo(env, s, n + 1) ==> !validate)
    requires f.frameType == Standard && !validate ==> r' == FastStep(env, f, r) && !validate'
    requires f.frameType == Other ==> ret == Err(StopUnwind)
    requires ret.Ok?
    ensures OnWalk(env, s, n + 1, r') && (RegularUpTo(env, s, n + 1) ==> !validate')
    ensures Recorded(env, s, n + 1, Wrap(r'.rip - 1))
  {
    hide FastStep, Agrees, StandsFor, Walk;
    UpToMonotone(env, s, n, n + 1);
    if RegularUpTo(env, s, n + 1) {
      WalkOn(env, s, n, f, r);
      StandsRip(env, s, n + 1, r');
    }
  }

  lemma StandsRip(env: Env, s: Slow, n: nat, r: Fast)
    ensures Walk(env, s, n).Some? && StandsFor(env, Walk(env, s, n).value, r) ==> r.rip == Walk(env, s, n).value.ip
  {
  }

  lemma NoSigreturn(env: Env, f: Frame)
    requires Agrees(env, f)
    ensures f.frameType != Sigreturn
  {
  }

  /** The lookup of one round: the frame for the current registers, if there is one. */
  method FrameFor(env: Env, memory: nat -> bool, table: Table, r: Fast, usePrev: int, validate: bool,
                  ghost s: Slow, ghost n: nat)
    returns (found: Option<Frame>, validate': bool)
    requires table.Valid() && Truthful(env, table.frames[..])
    requires usePrev == 1 && Wrap(r.rip - usePrev) != 0
    requires OnWalk(env, s, n, r)
    modifies table, table.frames
    ensures table.Valid() && Truthful(env, table.frames[..])
    ensures table.frames == old(table.frames) || fresh(table.frames)
    ensures found.Some? ==> found.value.virtualAddress == Wrap(r.rip - 1) && Agrees(env, found.value)
    ensures found.None? ==> exists k :: !memory(k)
    ensures RegularUpTo(env, s, n + 1) ==> validate' == validate
    ensures old(AllComplete(env, table.frames[..])) && RegularOrBare(env, s, n) ==>
              AllComplete(env, table.frames[..]) && (found.Some? ==> Complete(env, found.value))
  {
    hide FastStep, InitFrame, Agrees, Complete, Walk, StandsFor, RegularUpTo, TraceableUpTo, OnWalk, AllComplete;
    hide Probing, Occupied, Scale, RegularOrBare;
    ghost var before := table.frames[..];
    var rip := Wrap(r.rip - usePrev);
    var slot, filled := table.Lookup(env, memory, r.cfa, rip, usePrev, r.rbp);
    validate' := validate;
    /* a step on missing or bad info leaves validation on */
    if filled && !HasInfo(env, Wrap(rip + usePrev)) && env.guess(r.cfa, Wrap(rip + usePrev), r.rbp).validate {
      validate' := true;
    }
    LookupKeeps(env, s, n, before, table.frames[..], slot, r);
    if slot.None? {
      assert !memory(4 * table.frames.Length);
      return None, validate';
    }
    found := Some(table.frames[slot.value]);
    assert table.frames[..][slot.value] == found.value;
    SlotAgrees(env, table.frames[..], slot.value);
  }

  lemma SlotAgrees(env: Env, fs: seq<Frame>, i: nat)
    requires i < |fs| && fs[i].virtualAddress != 0 && Truthful(env, fs)
    ensures Agrees(env, fs[i]) && (AllComplete(env, fs) ==> Complete(env, fs[i]))
  {
  }

  /** After a lookup the table is truthful, and at a regular cursor still complete. */
  lemma LookupKeeps(env: Env, s: Slow, n: nat, before: seq<Frame>, after: seq<Frame>, slot: Option<nat>,
                    r: Fast)
    requires OnWalk(env, s, n, r) && Truthful(env, before)
    requires slot.Some? ==> slot.value < |after|
    requires forall i :: 0 <= i < |after| ==>
               || after[i] == EMPTY_FRAME || (|before| == |after| && after[i] == before[i])
               || (Some(i) == slot && after[i] == InitFrame(env, r.cfa, Wrap(r.rip - 1), 1, r.rbp))
    ensures Truthful(env, after)
    ensures RegularUpTo(env, s, n + 1) ==> HasInfo(env, Wrap(Wrap(r.rip - 1) + 1))
    ensures RegularOrBare(env, s, n) && AllComplete(env, before) ==> AllComplete(env, after)
  {
    hide InitFrame, Agrees, Complete, StandsFor, Walk, Telling, HasInfo, Regular;
    FillAgrees(env, r.cfa, Wrap(r.rip - 1), 1, r.rbp);
    if RegularUpTo(env, s, n + 1) {
      UpToMonotone(env, s, n, n + 1);
      RegularTelling(env, Walk(env, s, n).value, r);
    }
    if RegularOrBare(env, s, n) {
      FillComplete(env, r.cfa, Wrap(r.rip - 1), r.rbp);
      RegularTelling(env, Walk(env, s, n).value, r);
    }
  }

  lemma RegularTelling(env: Env, s: Slow, r: Fast)
    requires StandsFor(env, s, r)
    ensures Regular(env, s) ==> HasInfo(env, Wrap(Wrap(r.rip - 1) + 1))
    ensures Regular(env, s) || !HasInfo(env, s.ip) ==> Telling(env, r.cfa, Wrap(Wrap(r.rip - 1) + 1), r.rbp)
  {
    PredSucc(s.ip);
  }

  lemma Initially(env: Env, s: Slow)
    requires Get(env, s.rbpLoc).Ok?
    ensures OnWalk(env, s, 0, Fast(s.cfa, s.ip, Get(env, s.rbpLoc).value, s.cfa))
    ensures Wrap(s.ip - 1) == 0 <==> s.ip == 1
    ensures TraceableUpTo(env, s, 0)
  {
  }

  /** Where the round at a regular cursor leads, on complete summaries. */
  lemma RoundDecides(env: Env, s: Slow, n: nat, f: Frame, r: Fast, size: int)
    requires OnWalk(env, s, n, r) && Agrees(env, f) && Complete(env, f) && n < size
    requires f.virtualAddress == Wrap(r.rip - 1) && RegularUpTo(env, s, n + 1) && TraceableUpTo(env, s, n)
    ensures f.frameType == Standard || f.frameType == Other
    ensures f.lastFrame ==> !TraceableUpTo(env, s, n + 1) && !MeetsUntraceable(env, s, size)
    ensures f.frameType == Other && !f.lastFrame ==> !TraceableUpTo(env, s, n + 1) && MeetsUntraceable(env, s, size)
    ensures f.frameType == Standard && !f.lastFrame ==>
              if FastStep(env, f, r).rip >= 0x4000 then TraceableUpTo(env, s, n + 1)
              else !TraceableUpTo(env, s, n + 1) && !MeetsUntraceable(env, s, size)
  {
    hide FastStep, Agrees, Complete, StandsFor, Walk, Traceable, Untraceable, MeetsUntraceable;
    UpToMonotone(env, s, n, n + 1);
    var t := Walk(env, s, n).value;
    SummaryDecides(env, t, f, r);
    if !Traceable(env, t) {
      FirstDecides(env, s, n, size);
    }
  }

  /** Why the trace gave up, if it did: a frame of no known form, a read that validation
      rejects, or no memory for the table. */
  ghost predicate KnownReason(ret: Result<()>, memory: nat -> bool) {
    ret.Err? ==> || ret.error == StopUnwind || ret.error == BadReg || ret.error == Unspec
                 || (ret.error == NoInfo && exists k :: !memory(k))
  }

  /** Only traceable frames are recorded, and unless memory ran out the trace gave up
      exactly if an untraceable frame was met. */
  ghost predicate GaveUpRightly(env: Env, s: Slow, size: int, depth: nat, ret: Result<()>) {
    && TraceableUpTo(env, s, depth)
    && (ret == Err(NoInfo) || (if MeetsUntraceable(env, s, size) then ret == Err(StopUnwind) else ret.Ok?))
  }

  lemma VisitedSoFar(env: Env, s: Slow, n: nat)
    ensures RegularOrBare(env, s, n) ==> RegularUpTo(env, s, n)
    ensures RegularUpTo(env, s, n + 1) ==> RegularOrBare(env, s, n)
  {
    hide Regular, Walk;
  }

  /** One round of `tdep_trace`, up to the recording; `go` tells whether it comes to that. */
  method Round(env: Env, memory: nat -> bool, table: Table, r: Fast, usePrev: int, validate: bool,
               ghost s: Slow, ghost n: nat, ghost size: int)
    returns (go: bool, r': Fast, usePrev': int, validate': bool, ret: Result<()>)
    requires table.Valid() && Truthful(env, table.frames[..])
    requires usePrev == 1 && Wrap(r.rip - usePrev) != 0 && n < size
    requires OnWalk(env, s, n, r) && (RegularUpTo(env, s, n) ==> !validate)
    modifies table, table.frames
    ensures table.Valid() && Truthful(env, table.frames[..])
    ensures table.frames == old(table.frames) || fresh(table.frames)
    ensures old(AllComplete(env, table.frames[..])) && RegularOrBare(env, s, n) ==> AllComplete(env, table.frames[..])
    ensures KnownReason(ret, memory) && (go ==> ret.Ok?)
    ensures go ==> usePrev' == 1 && Wrap(r'.rip - usePrev') != 0 && OnWalk(env, s, n + 1, r')
    ensures go ==> (RegularUpTo(env, s, n + 1) ==> !validate') && Recorded(env, s, n + 1, Wrap(r'.rip - 1))
    // at a regular cursor a complete table decides
    ensures old(AllComplete(env, table.frames[..])) && TraceableUpTo(env, s, n) && RegularUpTo(env, s, n + 1)
            && ret != Err(NoInfo) ==>
              && (go <==> TraceableUpTo(env, s, n + 1))
              && (!go ==> if MeetsUntraceable(env, s, size) then ret == Err(StopUnwind) else ret.Ok?)
  {
    hide FastStep, Agrees, Complete, Walk, StandsFor, RegularUpTo, TraceableUpTo, OnWalk, Recorded, AllComplete;
    hide Probing, Occupied, Scale, Truthful, MeetsUntraceable, RegularOrBare;
    r', usePrev', ret := r, usePrev, Ok(());
    ghost var complete := AllComplete(env, table.frames[..]);
    VisitedSoFar(env, s, n);
    var found: Option<Frame>;
    found, validate' := FrameFor(env, memory, table, r, usePrev, validate, s, n);
    // the table could not grow
    if found.None? {
      return false, r', usePrev', validate', Err(NoInfo);
    }
    var f := found.value;
    NoSigreturn(env, f);
    UpToMonotone(env, s, n, n + 1);
    if complete && TraceableUpTo(env, s, n) && RegularUpTo(env, s, n + 1) {
      RoundDecides(env, s, n, f, r, size);
    }
    // outermost frame
    if f.lastFrame {
      return false, r', usePrev', validate', ret;
    }
    var strict := validate';
    validate', r', usePrev', ret := Advance(env, f, strict, r);
    // no code lies below 0x4000
    if ret.Err? || r'.rip < 0x4000 {
      return false, r', usePrev', validate', ret;
    }
    RoundOnWalk(env, s, n, f, r, strict, r', validate', ret);
    go := true;
  }

  /** `tdep_trace`. */
  method TdepTrace(env: Env, memory: nat -> bool, table: Table, s: Slow, buffer: array<Word>, size: int)
    returns (depth: nat, ret: Result<()>)
    requires table.Valid() && Truthful(env, table.frames[..])
    requires size <= buffer.Length && Get(env, s.rbpLoc).Ok? && s.ip != 1
    modifies table, table.frames, buffer
    // the table is fit for the next trace
    ensures table.Valid() && Truthful(env, table.frames[..])
    ensures table.frames == old(table.frames) || fresh(table.frames)
    ensures size <= 0 ==> depth == 0 && ret == Err(Inval)
    ensures size > 0 ==> depth <= size
    ensures size > 0 ==> KnownReason(ret, memory)
    // every address recorded is that of the slow walk, less one, as long as the walk is regular
    ensures depth <= buffer.Length && AllRecorded(env, s, buffer[..depth])
    // traceable frames are all recorded, if the table was complete
    ensures old(AllComplete(env, table.frames[..])) && depth < size && ret != Err(NoInfo) ==>
              !TraceableUpTo(env, s, depth + 1)
    // frames of moderate size are all recorded
    ensures old(AllComplete(env, table.frames[..])) && size > 0 && ModerateUpTo(env, s, size) && ret != Err(NoInfo) ==>
              depth == size && ret.Ok?
    // the table stays complete if the frames looked up were regular, the last one apart if
    // it has no plain info
    ensures old(AllComplete(env, table.frames[..])) && VisitedRegular(env, s, depth, size) ==>
              AllComplete(env, table.frames[..])
    // if the frames that tracing comes to are regular, nothing else is recorded, and the
    // trace gives up exactly if it meets an untraceable frame
    ensures old(AllComplete(env, table.frames[..])) && size > 0 && RegularWhereTraced(env, s, size) ==>
              AllComplete(env, table.frames[..]) && GaveUpRightly(env, s, size, depth, ret)
  {
    hide FastStep, Agrees, Complete, Walk, StandsFor, RegularUpTo, TraceableUpTo, OnWalk, Recorded, AllComplete;
    hide AllRecorded, Probing, Occupied, Scale, Truthful, MeetsUntraceable, Get, RegularWhereTraced, RegularOrBare;
    hide KnownReason, ModerateUpTo;
    depth := 0;
    AllRecordedNone(env, s);
    Initially(env, s);
    if size <= 0 {
      return 0, Err(Inval);
    }
    // the captured context
    var r := Fast(s.cfa, s.ip, Get(env, s.rbpLoc).value, s.cfa);
    var usePrev: int, validate := 1, false;
    ret := Ok(());
    ghost var complete := AllComplete(env, table.frames[..]);
    ghost var smooth := complete && RegularWhereTraced(env, s, size);
    NoReason(memory);
    while depth < size
      invariant 0 <= depth <= size && table.Valid() && Truthful(env, table.frames[..])
      invariant table.frames == old(table.frames) || fresh(table.frames)
      invariant usePrev == 1 && Wrap(r.rip - usePrev) != 0 && ret.Ok? && KnownReason(ret, memory)
      invariant OnWalk(env, s, depth, r) && (RegularUpTo(env, s, depth) ==> !validate)
      invariant AllRecorded(env, s, buffer[..depth])
      invariant complete && RegularUpTo(env, s, depth) ==> AllComplete(env, table.frames[..])
      invariant smooth ==> TraceableUpTo(env, s, depth)
    {
      SoFar(env, s, size, depth);
      var go;
      go, r, usePrev, validate, ret := Round(env, memory, table, r, usePrev, validate, s, depth, size);
      if !go {
        break;
      }
      RecordMore(env, s, buffer[..depth], Wrap(r.rip - usePrev));
      ghost var sofar := buffer[..depth];
      buffer[depth] := Wrap(r.rip - usePrev);
      depth := depth + 1;
      assert buffer[..depth] == sofar + [Wrap(r.rip - usePrev)];
    }
    if smooth && depth == size {
      AllTraceable(env, s, size);
    }
    UpToMonotone(env, s, depth, depth);
    if size > 0 && ModerateUpTo(env, s, size) {
      ModerateFrames(env, s, size);
      UpToMonotone(env, s, if depth < size then depth + 1 else depth, size);
    }
  }

  lemma NoReason(memory: nat -> bool)
    ensures KnownReason(Ok(()), memory)
  {
  }

  /** How the hypotheses about the frames so far hang together. */
  lemma SoFar(env: Env, s: Slow, size: int, n: nat)
    requires n < size
    ensures TraceableUpTo(env, s, n) ==> RegularUpTo(env, s, n)
    ensures TraceableUpTo(env, s, n + 1) ==> TraceableUpTo(env, s, n) && RegularUpTo(env, s, n + 1)
    ensures RegularUpTo(env, s, n + 1) ==> RegularOrBare(env, s, n)
    ensures RegularOrBare(env, s, n) ==> RegularUpTo(env, s, n)
    ensures RegularWhereTraced(env, s, size) && TraceableUpTo(env, s, n) ==> RegularUpTo(env, s, n + 1)
  {
    hide Walk, Regular, Traceable, RegularOrBare, RegularUpTo, TraceableUpTo, RegularWhereTraced;
    UpToMonotone(env, s, n, n + 1);
    UpToMonotone(env, s, n, n);
    VisitedSoFar(env, s, n);
    if RegularWhereTraced(env, s, size) && TraceableUpTo(env, s, n) {
      TracedSoFar(env, s, size, n);
    }
  }

  // ----- unw_backtrace -----

  /** `unw_step` from any cursor: as described where the info is plain, opaque elsewhere. */
  ghost predicate Honest(env: Env, step: Slow -> StepResult) {
    forall t: Slow :: HasInfo(env, t.ip) ==> step(t) == SlowStep(env, env.info(t.ip).value, t)
  }

  /** The entries are the addresses of the walk. */
  ghost predicate Follows(env: Env, s: Slow, entries: seq<Word>) {
    forall j :: 0 <= j < |entries| ==> OnPath(env, s, j + 1, entries[j])
  }

  ghost predicate OnPath(env: Env, s: Slow, j: nat, ip: Word) {
    Walk(env, s, j).Some? ==> ip == Walk(env, s, j).value.ip
  }

  /** `slow_backtrace`: the loop that the fast trace replaces. The cursor's ip is read
      without a lookup, so reading it does not fail. */
  method SlowBacktrace(env: Env, step: Slow -> StepResult, s: Slow, buffer: array<Word>, size: int)
    returns (n: nat)
    requires size <= buffer.Length && Honest(env, step)
    modifies buffer
    ensures n <= buffer.Length && Follows(env, s, buffer[..n])
    ensures size >= 0 ==> n <= size
    ensures n < size ==> Walk(env, s, n + 1).None?
  {
    hide SlowStep;
    var t := s;
    n := 0;
    while true
      invariant 0 <= n <= buffer.Length && (size >= 0 ==> n <= size) && (size < 0 ==> n == 0)
      invariant Walk(env, s, n).Some? ==> t == Walk(env, s, n).value
      invariant forall j :: 0 <= j < n ==> OnPath(env, s, j + 1, buffer[j])
      decreases size - n
    {
      StepOnWalk(env, step, s, n, t);
      var r := step(t);
      if !r.Go? || n >= size {
        return;
      }
      t := r.s;
      buffer[n] := t.ip;
      n := n + 1;
    }
  }

  /** A null return-address slot does not end the loop: the step succeeds with ip 0, and
      that is the next cursor's ip, which is recorded. */
  lemma NullReturnRecorded(env: Env, step: Slow -> StepResult, s: Slow)
    requires Honest(env, step) && HasInfo(env, s.ip) && Applied(env, env.info(s.ip).value, s).Ok?
    requires var row, a := env.info(s.ip).value, Applied(env, env.info(s.ip).value, s).value;
             && Wrap(a.cfa + row[RIP].val) == 0 && !IsNull(a.rbpLoc) && a.cfa != s.cfa
    ensures step(s).Go? && step(s).s.ip == 0
    ensures Walk(env, s, 1) == Some(step(s).s)
  {
    assert Walk(env, s, 0) == Some(s);
    StepOnWalk(env, step, s, 0, s);
  }

  lemma StepOnWalk(env: Env, step: Slow -> StepResult, s: Slow, n: nat, t: Slow)
    requires Honest(env, step) && (Walk(env, s, n).Some? ==> t == Walk(env, s, n).value)
    ensures Walk(env, s, n + 1).Some? ==> step(t).Go? && Walk(env, s, n + 1).value == step(t).s
  {
    hide SlowStep;
  }

  /** `unw_backtrace`: the fast trace, and the slow loop if it gave up. The fast trace
      stores each return address less one and the slow loop does not; `fast` tells which
      one filled the buffer. */
  method Backtrace(env: Env, step: Slow -> StepResult, memory: nat -> bool, table: Table, s: Slow,
                   buffer: array<Word>, size: int)
    returns (n: nat, fast: bool, ghost depth: nat)
    requires table.Valid() && Truthful(env, table.frames[..]) && Honest(env, step)
    requires size <= buffer.Length && Get(env, s.rbpLoc).Ok? && s.ip != 1
    modifies table, table.frames, buffer
    ensures table.Valid() && Truthful(env, table.frames[..])
    ensures n <= buffer.Length && (fast ==> n == depth)
    ensures if fast then AllRecorded(env, s, buffer[..n]) else Follows(env, s, buffer[..n])
    // nothing is missing that either way of walking would have found
    ensures old(AllComplete(env, table.frames[..])) && n < size ==> !TraceableUpTo(env, s, n + 1)
    // the table stays complete if the frames that the trace looked up were regular
    ensures old(AllComplete(env, table.frames[..])) && VisitedRegular(env, s, depth, size) ==>
              AllComplete(env, table.frames[..])
    // if the frames that tracing comes to are regular, the addresses are stored as they are
    // exactly if one of them is not of the standard form
    ensures old(AllComplete(env, table.frames[..])) && size > 0 && RegularWhereTraced(env, s, size) ==>
              AllComplete(env, table.frames[..]) && ((forall k :: memory(k)) ==> (fast <==> !MeetsUntraceable(env, s, size)))
  {
    hide Walk, RegularUpTo, TraceableUpTo, AllComplete, Honest, MeetsUntraceable, Truthful, Probing, AllRecorded, Follows;
    hide RegularWhereTraced, VisitedRegular;
    var ret: Result<()>;
    n, ret := TdepTrace(env, memory, table, s, buffer, size);
    depth := n;
    fast := ret.Ok?;
    if ret.Err? {
      n := SlowBacktrace(env, step, s, buffer, size);
      TraceableWalks(env, s, n + 1);
    }
  }

  lemma TraceableWalks(env: Env, s: Slow, n: nat)
    requires n > 0
    ensures TraceableUpTo(env, s, n) ==> Walk(env, s, n).Some?
  {
  }
}
