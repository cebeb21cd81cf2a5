/** Two-phase exception handling (Unwind.c, unwind-internal.h) against the protocol of
    section 1.3 of the Itanium C++ ABI: Exception Handling. */
module TwoPhase {
  import opened Words

  /** The bits or-ed into an action mask. */
  datatype Action = SearchPhase | CleanupPhase | HandlerFrame | ForceUnwind | EndOfStack

  type Actions = set<Action>

  datatype Reason =
    | NoReason | ForeignExceptionCaught | FatalPhase2Error | FatalPhase1Error | NormalStop
    | ReachedEnd | HandlerFound | InstallContext | ContinueUnwind

  /** What the cursor says of one frame: the instruction pointer and the personality
      routine, 0 if there is none; `None` where the query fails. */
  datatype Activation = Activation(ip: Option<Word>, handler: Option<Word>)

  /** The frames that successive steps reach, and what the step after the last returns:
      0 at the end of the stack, a negative number for an error. */
  datatype Stack = Stack(frames: seq<Activation>, last: int)

  /** The answers of the personality routines, or of a stop function, frame by frame. */
  type Answers = (nat, Actions) -> Reason

  datatype Call = Personality(frame: nat, actions: Actions) | StopFunction(frame: nat, actions: Actions)

  /** `Resumed` leaves for the landing pad of a frame and does not return. */
  datatype Outcome = Returned(reason: Reason) | Resumed(frame: nat) | Panicked

  /** How a cleanup phase ended, and the calls it made. */
  datatype Run = Run(outcome: Outcome, calls: seq<Call>)

  datatype Searched = Found(frame: nat) | Stopped(reason: Reason)

  predicate HasPersonality(stack: Stack, i: nat) {
    i < |stack.frames| && stack.frames[i].handler.Some? && stack.frames[i].handler.value != 0
  }

  // ----- the search phase -----

  /** The search phase from frame `i`. */
  function Search(stack: Stack, answer: Answers, i: nat): Searched
    requires i <= |stack.frames|
    decreases |stack.frames| - i
  {
    if i == |stack.frames| then Stopped(if stack.last == 0 then ReachedEnd else FatalPhase1Error)
    else if stack.frames[i].handler.None? then Stopped(FatalPhase1Error)
    else if stack.frames[i].handler.value == 0 then Search(stack, answer, i + 1)
    else
      match answer(i, {SearchPhase})
      case ContinueUnwind => Search(stack, answer, i + 1)
      case HandlerFound => Found(i)
      case _ => Stopped(FatalPhase1Error)
  }

  /** The search finds a frame exactly if it is the first whose personality claims the
      exception, and every one before it passes. */
  lemma {:induction false} SearchFinds(stack: Stack, answer: Answers, i: nat, k: nat)
    requires i <= |stack.frames|
    ensures Search(stack, answer, i) == Found(k) <==>
            && i <= k && HasPersonality(stack, k) && answer(k, {SearchPhase}) == HandlerFound
            && forall j :: i <= j < k ==> stack.frames[j].handler.Some? &&
                                          (HasPersonality(stack, j) ==> answer(j, {SearchPhase}) == ContinueUnwind)
    decreases |stack.frames| - i
  {
    if i < |stack.frames| {
      SearchFinds(stack, answer, i + 1, k);
    }
  }

  /** The search comes to the end of the stack exactly if there is one and every personality
      on the way passes; every other search without a handler is a fatal error. */
  lemma {:induction false} SearchStops(stack: Stack, answer: Answers, i: nat)
    requires i <= |stack.frames|
    ensures Search(stack, answer, i) == Stopped(ReachedEnd) <==>
            && stack.last == 0
            && forall j :: i <= j < |stack.frames| ==>
                 stack.frames[j].handler.Some? && (HasPersonality(stack, j) ==> answer(j, {SearchPhase}) == ContinueUnwind)
    ensures Search(stack, answer, i).Stopped? ==> Search(stack, answer, i).reason in {ReachedEnd, FatalPhase1Error}
    decreases |stack.frames| - i
  {
    if i < |stack.frames| {
      SearchStops(stack, answer, i + 1);
    }
  }

  // ----- the cleanup phase -----

  /** `_Unwind_Phase2` from frame `i`, as it is written: whoever answers "continue", the
      panic after the personality call is reached. */
  function Phase2(stack: Stack, answer: Answers, stop: Option<Answers>, marker: Word, i: nat): (r: Run)
    requires i <= |stack.frames|
    decreases |stack.frames| - i
  {
    var fatal := Returned(FatalPhase2Error);
    var actions := if stop.Some? then {CleanupPhase, ForceUnwind} else {CleanupPhase};
    if i == |stack.frames| then
      Run(fatal, if stop.Some? && stack.last == 0 then [StopFunction(i, {CleanupPhase, ForceUnwind, EndOfStack})] else [])
    else
      var stopCalls := if stop.Some? then [StopFunction(i, actions)] else [];
      var a := stack.frames[i];
      if stop.Some? && stop.value(i, actions) != NoReason then Run(fatal, stopCalls)
      else if a.handler.None? then Run(fatal, stopCalls)
      else if a.handler.value == 0 then
        var rest := Phase2(stack, answer, stop, marker, i + 1);
        Run(rest.outcome, stopCalls + rest.calls)
      else if stop.None? && a.ip.None? then Run(fatal, stopCalls)
      else
        var mask := if stop.None? && a.ip == Some(marker) then {CleanupPhase, HandlerFrame} else actions;
        Run(match answer(i, mask)
         case ContinueUnwind => Panicked
         case InstallContext => Resumed(i)
         case _ => fatal,
         stopCalls + [Personality(i, mask)])
  }

  /** The cleanup phase that the ABI describes: every personality on the way is called, and
      only the handler frame may not answer "continue". */
  function Protocol(stack: Stack, answer: Answers, marker: Word, i: nat): (r: Run)
    requires i <= |stack.frames|
    decreases |stack.frames| - i
  {
    var fatal := Returned(FatalPhase2Error);
    if i == |stack.frames| then Run(fatal, [])
    else
      var a := stack.frames[i];
      if a.handler.None? then Run(fatal, [])
      else if a.handler.value == 0 then Protocol(stack, answer, marker, i + 1)
      else if a.ip.None? then Run(fatal, [])
      else
        var mask := if a.ip == Some(marker) then {CleanupPhase, HandlerFrame} else {CleanupPhase};
        match answer(i, mask)
        case InstallContext => Run(Resumed(i), [Personality(i, mask)])
        case ContinueUnwind =>
          if HandlerFrame in mask then Run(Panicked, [Personality(i, mask)])
          else
            var rest := Protocol(stack, answer, marker, i + 1);
            Run(rest.outcome, [Personality(i, mask)] + rest.calls)
        case _ => Run(fatal, [Personality(i, mask)])
  }

  /** A personality claims or passes an exception by its ip alone. */
  ghost predicate ClaimsByIp(stack: Stack, answer: Answers) {
    forall i: nat, j: nat :: HasPersonality(stack, i) && HasPersonality(stack, j) && stack.frames[i].ip == stack.frames[j].ip ==>
      answer(i, {SearchPhase}) == answer(j, {SearchPhase})
  }

  /** The calls passing the handler-frame action are made to frame `k`, and once at most. */
  ghost predicate HandlerOnlyAt(calls: seq<Call>, k: nat) {
    && (forall c :: 0 <= c < |calls| && HandlerFrame in calls[c].actions ==> calls[c].frame == k)
    && (forall c, d :: 0 <= c < d < |calls| ==> !(HandlerFrame in calls[c].actions && HandlerFrame in calls[d].actions))
  }

  /** Calls are made in stack order. */
  lemma {:induction false} ProtocolFrames(stack: Stack, answer: Answers, marker: Word, i: nat)
    requires i <= |stack.frames|
    ensures forall c :: 0 <= c < |Protocol(stack, answer, marker, i).calls| ==>
              var call := Protocol(stack, answer, marker, i).calls[c];
              && i <= call.frame && HasPersonality(stack, call.frame)
              && (HandlerFrame in call.actions <==> stack.frames[call.frame].ip == Some(marker))
    ensures forall c, d :: 0 <= c < d < |Protocol(stack, answer, marker, i).calls| ==>
              && Protocol(stack, answer, marker, i).calls[c].frame < Protocol(stack, answer, marker, i).calls[d].frame
              && HandlerFrame !in Protocol(stack, answer, marker, i).calls[c].actions
    decreases |stack.frames| - i
  {
    if i < |stack.frames| {
      ProtocolFrames(stack, answer, marker, i + 1);
    }
  }

  /** What is written makes the first call of the protocol, if it makes any. */
  lemma {:induction false} FirstCallOnly(stack: Stack, answer: Answers, marker: Word, i: nat)
    requires i <= |stack.frames|
    ensures var protocol := Protocol(stack, answer, marker, i).calls;
            Phase2(stack, answer, None, marker, i).calls == if protocol == [] then [] else [protocol[0]]
    decreases |stack.frames| - i
  {
    if i < |stack.frames| {
      FirstCallOnly(stack, answer, marker, i + 1);
    }
  }

  /** The two phases agree: if personalities claim by ip, a personality is told that it is
      the handler frame at most once, and only where the search stopped, even when
      recursion gives several frames one ip. */
  lemma Agreement(stack: Stack, answer: Answers, k: nat, marker: Word)
    requires ClaimsByIp(stack, answer) && Search(stack, answer, 0) == Found(k)
    requires HasPersonality(stack, k) ==> stack.frames[k].ip == Some(marker)
    ensures HandlerOnlyAt(Phase2(stack, answer, None, marker, 0).calls, k)
    ensures HandlerOnlyAt(Protocol(stack, answer, marker, 0).calls, k)
  {
    hide Search, Phase2, Protocol;
    SearchFinds(stack, answer, 0, k);
    FirstCallOnly(stack, answer, marker, 0);
    forall c | 0 <= c < |Protocol(stack, answer, marker, 0).calls|
               && HandlerFrame in Protocol(stack, answer, marker, 0).calls[c].actions
      ensures Protocol(stack, answer, marker, 0).calls[c].frame == k
    {
      HandlerCall(stack, answer, k, marker, c);
    }
    ProtocolFrames(stack, answer, marker, 0);
  }

  /** A handler-frame call goes to the frame where the search stopped. */
  lemma HandlerCall(stack: Stack, answer: Answers, k: nat, marker: Word, c: nat)
    requires ClaimsByIp(stack, answer) && Search(stack, answer, 0) == Found(k)
    requires HasPersonality(stack, k) ==> stack.frames[k].ip == Some(marker)
    requires c < |Protocol(stack, answer, marker, 0).calls|
    requires HandlerFrame in Protocol(stack, answer, marker, 0).calls[c].actions
    ensures Protocol(stack, answer, marker, 0).calls[c].frame == k
  {
    hide Search, Protocol;
    var j := Protocol(stack, answer, marker, 0).calls[c].frame;
    assert HasPersonality(stack, j) && stack.frames[j].ip == Some(marker) by {
      ProtocolFrames(stack, answer, marker, 0);
    }
    SearchFinds(stack, answer, 0, k);
    assert answer(j, {SearchPhase}) == HandlerFound;
    ProtocolStops(stack, answer, marker, 0, k, c);
  }

  /** The protocol does not get past a frame with a personality and the marker's ip. */
  lemma {:induction false} ProtocolStops(stack: Stack, answer: Answers, marker: Word, i: nat, k: nat, c: nat)
    requires i <= k && HasPersonality(stack, k) && stack.frames[k].ip == Some(marker)
    requires c < |Protocol(stack, answer, marker, i).calls|
    ensures Protocol(stack, answer, marker, i).calls[c].frame <= k
    decreases k - i
  {
    var a := stack.frames[i];
    if i < k && a.handler.Some? {
      if a.handler.value == 0 {
        ProtocolStops(stack, answer, marker, i + 1, k, c);
      } else if c > 0 {
        ProtocolStops(stack, answer, marker, i + 1, k, c - 1);
      }
    }
  }

  /** Every personality from frame `i` on, before `k`, called to clean up. */
  function CleanupCalls(stack: Stack, i: nat, k: nat): seq<Call>
    requires i <= k
    decreases k - i
  {
    if i == k then []
    else (if HasPersonality(stack, i) then [Personality(i, {CleanupPhase})] else []) + CleanupCalls(stack, i + 1, k)
  }

  /** The frames from `i` up to `k` let the exception pass, and none has the ip of `k`. */
  ghost predicate PassTo(stack: Stack, answer: Answers, marker: Word, i: nat, k: nat) {
    forall j :: i <= j < k && j < |stack.frames| ==>
      && stack.frames[j].handler.Some? && stack.frames[j].ip.Some?
      && (HasPersonality(stack, j) ==>
            answer(j, {CleanupPhase}) == ContinueUnwind && stack.frames[j].ip != Some(marker))
  }

  /** What the protocol is for: each frame on the way cleans up, in order, and then the
      frame that claimed the exception is told so. */
  lemma {:induction false} ProtocolReaches(stack: Stack, answer: Answers, marker: Word, i: nat, k: nat)
    requires i <= k && HasPersonality(stack, k) && stack.frames[k].ip == Some(marker)
    requires PassTo(stack, answer, marker, i, k)
    ensures Protocol(stack, answer, marker, i).calls
              == CleanupCalls(stack, i, k) + [Personality(k, {CleanupPhase, HandlerFrame})]
    decreases k - i
  {
    if i < k {
      ProtocolReaches(stack, answer, marker, i + 1, k);
      assert HasPersonality(stack, i) ==> stack.frames[i].ip != Some(marker);
    }
  }

  /** What is written reaches that frame exactly if no frame before it has a personality. */
  lemma {:induction false} CodeReaches(stack: Stack, answer: Answers, marker: Word, i: nat, k: nat)
    requires i <= k && HasPersonality(stack, k) && stack.frames[k].ip == Some(marker)
    requires PassTo(stack, answer, marker, i, k)
    ensures Personality(k, {CleanupPhase, HandlerFrame}) in Phase2(stack, answer, None, marker, i).calls
            <==> CleanupCalls(stack, i, k) == []
  {
    ProtocolReaches(stack, answer, marker, i, k);
    FirstCallOnly(stack, answer, marker, i);
    CleanupOnly(stack, i, k);
  }

  lemma {:induction false} CleanupOnly(stack: Stack, i: nat, k: nat)
    requires i <= k
    ensures forall c :: 0 <= c < |CleanupCalls(stack, i, k)| ==> CleanupCalls(stack, i, k)[c].actions == {CleanupPhase}
    ensures CleanupCalls(stack, i, k) == [] <==> forall j :: i <= j < k ==> !HasPersonality(stack, j)
    decreases k - i
  {
    if i < k {
      CleanupOnly(stack, i + 1, k);
    }
  }

  /** The first frame from `i` whose personality the cleanup phase calls. */
  function FirstCalled(stack: Stack, i: nat): Option<nat>
    requires i <= |stack.frames|
    decreases |stack.frames| - i
  {
    if i == |stack.frames| || stack.frames[i].handler.None? then None
    else if stack.frames[i].handler.value == 0 then FirstCalled(stack, i + 1)
    else if stack.frames[i].ip.None? then None
    else Some(i)
  }

  /** That is the first frame with a personality, if its ip is known and the frames before it
      can be asked for theirs. */
  lemma {:induction false} FirstCalledIs(stack: Stack, i: nat, k: nat)
    requires i <= |stack.frames|
    ensures FirstCalled(stack, i) == Some(k) <==>
            && i <= k && HasPersonality(stack, k) && stack.frames[k].ip.Some?
            && forall j :: i <= j < k ==> stack.frames[j].handler == Some(0)
    decreases |stack.frames| - i
  {
    if i < |stack.frames| {
      FirstCalledIs(stack, i + 1, k);
    }
  }

  /** What is written calls that personality, as the handler frame if it has the marker's ip,
      and does as it answers: it leaves for the landing pad only on "install context". With
      no personality to call it fails. */
  lemma {:induction false} CodeOutcome(stack: Stack, answer: Answers, marker: Word, i: nat)
    requires i <= |stack.frames|
    ensures FirstCalled(stack, i).Some? ==> FirstCalled(stack, i).value < |stack.frames|
    ensures Phase2(stack, answer, None, marker, i) ==
            match FirstCalled(stack, i)
            case None => Run(Returned(FatalPhase2Error), [])
            case Some(k) =>
              var actions := if stack.frames[k].ip == Some(marker) then {CleanupPhase, HandlerFrame} else {CleanupPhase};
              Run(match answer(k, actions)
                  case InstallContext => Resumed(k)
                  case ContinueUnwind => Panicked
                  case _ => Returned(FatalPhase2Error),
                  [Personality(k, actions)])
    decreases |stack.frames| - i
  {
    if i < |stack.frames| {
      CodeOutcome(stack, answer, marker, i + 1);
    }
  }

  /** The code follows the protocol exactly if the first personality called is told that it
      is the handler frame or does not answer "continue". */
  lemma {:induction false} CodeFollowsProtocol(stack: Stack, answer: Answers, marker: Word, i: nat)
    requires i <= |stack.frames|
    ensures FirstCalled(stack, i).Some? ==> FirstCalled(stack, i).value < |stack.frames|
    ensures Phase2(stack, answer, None, marker, i) == Protocol(stack, answer, marker, i) <==>
            var first := FirstCalled(stack, i);
            first.Some? && stack.frames[first.value].ip != Some(marker) ==>
              answer(first.value, {CleanupPhase}) != ContinueUnwind
    decreases |stack.frames| - i
  {
    if i < |stack.frames| {
      CodeFollowsProtocol(stack, answer, marker, i + 1);
      PanicAtHandler(stack, answer, marker, i + 1);
      var rest := Phase2(stack, answer, None, marker, i + 1);
      assert stack.frames[i].handler == Some(0) ==>
          Phase2(stack, answer, None, marker, i) == Run(rest.outcome, [] + rest.calls) && [] + rest.calls == rest.calls;
      assert |Phase2(stack, answer, None, marker, i).calls| <= 1 by { FirstCallOnly(stack, answer, marker, i); }
    }
  }

  lemma {:induction false} PanicAtHandler(stack: Stack, answer: Answers, marker: Word, i: nat)
    requires i <= |stack.frames|
    ensures Protocol(stack, answer, marker, i).outcome == Panicked ==> Protocol(stack, answer, marker, i).calls != []
    decreases |stack.frames| - i
  {
    if i < |stack.frames| {
      PanicAtHandler(stack, answer, marker, i + 1);
    }
  }

  /** A frame that only cleans up stands in the way of the handler. */
  lemma CleanupPanics(stack: Stack, answer: Answers)
    requires stack == Stack([Activation(Some(0x4000), Some(1)), Activation(Some(0x5000), Some(1))], 0)
    requires answer == ((i, actions) => if i == 0 then ContinueUnwind else
                                        if SearchPhase in actions then HandlerFound else InstallContext)
    ensures Search(stack, answer, 0) == Found(1)
    ensures Protocol(stack, answer, 0x5000, 0).outcome == Resumed(1)
    ensures Phase2(stack, answer, None, 0x5000, 0).outcome == Panicked
  {
    assert Protocol(stack, answer, 0x5000, 1).outcome == Resumed(1);
    assert Search(stack, answer, 1) == Found(1);
  }

  /** A forced unwind asks the stop function about every frame in turn, calls at most one
      personality, and never names a handler frame. */
  lemma {:induction false} ForcedCalls(stack: Stack, answer: Answers, stop: Answers, marker: Word, i: nat, c: nat)
    requires i <= |stack.frames|
    requires c < |Phase2(stack, answer, Some(stop), marker, i).calls|
    ensures var calls := Phase2(stack, answer, Some(stop), marker, i).calls;
            && {CleanupPhase, ForceUnwind} <= calls[c].actions && HandlerFrame !in calls[c].actions
            && (calls[c].StopFunction? ==> calls[c].frame == i + c)
            && (calls[c].Personality? ==>
                  && c > 0 && c == |calls| - 1 && calls[c].frame == i + c - 1 && HasPersonality(stack, calls[c].frame)
                  && stop(calls[c].frame, calls[c].actions) == NoReason)
    decreases |stack.frames| - i
  {
    var actions := {CleanupPhase, ForceUnwind};
    if i < |stack.frames| && stack.frames[i].handler == Some(0) && stop(i, actions) == NoReason && c > 0 {
      ForcedCalls(stack, answer, stop, marker, i + 1, c - 1);
    }
  }

  /** A frame that a forced unwind passes: the stop function agrees and there is no
      personality. */
  ghost predicate ForcedPast(stack: Stack, stop: Answers, j: nat)
    requires j < |stack.frames|
  {
    stop(j, {CleanupPhase, ForceUnwind}) == NoReason && stack.frames[j].handler == Some(0)
  }

  /** Where a forced unwind ends. Past every frame it asks once more, with the end of the
      stack marked, and fails; at the first frame that it does not pass, the stop function
      ends it, or the missing answer, or the personality's answer. */
  lemma {:induction false} ForcedOutcome(stack: Stack, answer: Answers, stop: Answers, marker: Word, i: nat, k: nat)
    requires i <= k <= |stack.frames| && forall j :: i <= j < k ==> ForcedPast(stack, stop, j)
    ensures var actions: Actions := {CleanupPhase, ForceUnwind};
            var run := Phase2(stack, answer, Some(stop), marker, i);
            && (k == |stack.frames| ==>
                  && run.outcome == Returned(FatalPhase2Error)
                  && |run.calls| == k - i + (if stack.last == 0 then 1 else 0)
                  && (stack.last == 0 ==> run.calls[k - i] == StopFunction(k, actions + {EndOfStack})))
            && (k < |stack.frames| && stop(k, actions) != NoReason ==>
                  run.outcome == Returned(FatalPhase2Error) && |run.calls| == k - i + 1)
            && (k < |stack.frames| && stop(k, actions) == NoReason && stack.frames[k].handler.None? ==>
                  run.outcome == Returned(FatalPhase2Error) && |run.calls| == k - i + 1)
            && (stop(k, actions) == NoReason && HasPersonality(stack, k) ==>
                  && |run.calls| == k - i + 2
                  && run.outcome == match answer(k, actions)
                                    case InstallContext => Resumed(k)
                                    case ContinueUnwind => Panicked
                                    case _ => Returned(FatalPhase2Error))
    decreases k - i
  {
    if i < k {
      assert ForcedPast(stack, stop, i);
      ForcedOutcome(stack, answer, stop, marker, i + 1, k);
    } else if k == |stack.frames| {
      assert {CleanupPhase, ForceUnwind} + {EndOfStack} == {CleanupPhase, ForceUnwind, EndOfStack};
    }
  }

  // ----- the loops -----

  /** The fields of `_Unwind_Exception` that the unwinder owns: the stop function, 0 if
      there is none, and the frame marker or the stop function's parameter. */
  class ExceptionObject {
    var private1: Word
    var private2: Word

    constructor ()
    {
      private1, private2 := 0, 0;
    }

    ghost function Stop(stopAt: Word -> Answers): Option<Answers>
      reads this
    {
      if private1 == 0 then None else Some(stopAt(private1))
    }
  }

  /** The run that made `calls` first. */
  ghost function After(calls: seq<Call>, run: Run): Run {
    Run(run.outcome, calls + run.calls)
  }

  lemma AfterTwice(calls: seq<Call>, more: seq<Call>, run: Run)
    ensures After(calls, After(more, run)) == After(calls + more, run)
    ensures After(calls, Run(run.outcome, more)) == Run(run.outcome, calls + more)
    ensures After([], run) == run
  {
    assert calls + (more + run.calls) == (calls + more) + run.calls;
  }

  /** `_Unwind_Phase2`, with the calls it makes. */
  method CleanupLoop(stack: Stack, answer: Answers, stopAt: Word -> Answers, e: ExceptionObject)
    returns (outcome: Outcome, calls: seq<Call>)
    ensures Run(outcome, calls) == Phase2(stack, answer, e.Stop(stopAt), e.private2, 0)
  {
    hide After, Phase2;
    var stop, marker := e.private1, e.private2;
    var actions: Actions := {CleanupPhase};
    if stop != 0 {
      actions := actions + {ForceUnwind};
    }
    ghost var whole := Phase2(stack, answer, e.Stop(stopAt), marker, 0);
    calls := [];
    var i := 0;
    AfterTwice([], [], whole);
    while true
      invariant i <= |stack.frames|
      invariant actions == if stop != 0 then {CleanupPhase, ForceUnwind} else {CleanupPhase}
      invariant whole == After(calls, Phase2(stack, answer, e.Stop(stopAt), marker, i))
      decreases |stack.frames| - i
    {
      var done: Option<Outcome>, made: seq<Call>;
      done, made := CleanupFrame(stack, answer, stopAt, e, actions, i);
      AfterTwice(calls, made, if done.Some? then Run(done.value, []) else Phase2(stack, answer, e.Stop(stopAt), marker, i + 1));
      calls := calls + made;
      if done.Some? {
        return done.value, calls;
      }
      i := i + 1;
    }
  }

  /** One round of the loop: the outcome, unless the loop goes on, and the calls made. */
  method CleanupFrame(stack: Stack, answer: Answers, stopAt: Word -> Answers, e: ExceptionObject,
                      mask: Actions, i: nat)
    returns (done: Option<Outcome>, calls: seq<Call>)
    requires i <= |stack.frames|
    requires mask == if e.private1 != 0 then {CleanupPhase, ForceUnwind} else {CleanupPhase}
    ensures done.None? ==> i < |stack.frames|
    ensures Phase2(stack, answer, e.Stop(stopAt), e.private2, i) ==
            if done.Some? then Run(done.value, calls)
            else After(calls, Phase2(stack, answer, e.Stop(stopAt), e.private2, i + 1))
  {
    var actions := mask;
    calls := [];
    var endOfStack := false;
    if i == |stack.frames| {
      if stack.last == 0 {
        actions := actions + {EndOfStack};
        assert e.private1 != 0 ==> actions == {CleanupPhase, ForceUnwind, EndOfStack};
        endOfStack := true;
      } else {
        return Some(Returned(FatalPhase2Error)), calls;
      }
    }
    if e.private1 != 0 {
      calls := [StopFunction(i, actions)];
      if stopAt(e.private1)(i, actions) != NoReason {
        return Some(Returned(FatalPhase2Error)), calls;
      }
    }
    if endOfStack || stack.frames[i].handler.None? {
      return Some(Returned(FatalPhase2Error)), calls;
    }
    if stack.frames[i].handler.value == 0 {
      return None, calls;
    }
    if e.private1 == 0 {
      if stack.frames[i].ip.None? {
        return Some(Returned(FatalPhase2Error)), calls;
      }
      if e.private2 == stack.frames[i].ip.value {
        actions := actions + {HandlerFrame};
        assert actions == {CleanupPhase, HandlerFrame};
      }
    }
    calls := calls + [Personality(i, actions)];
    var reason := answer(i, actions);
    if reason != ContinueUnwind {
      return Some(if reason == InstallContext then Resumed(i) else Returned(FatalPhase2Error)), calls;
    }
    return Some(Panicked), calls;
  }

  /** `_Unwind_RaiseException`. */
  method RaiseException(stack: Stack, answer: Answers, stopAt: Word -> Answers, e: ExceptionObject)
    returns (outcome: Outcome, calls: seq<Call>)
    modifies e
    ensures match Search(stack, answer, 0)
            case Stopped(reason) =>
              outcome == Returned(reason) && calls == [] && unchanged(e)
            case Found(k) =>
              k < |stack.frames| &&
              match stack.frames[k].ip
              case None => outcome == Returned(FatalPhase1Error) && calls == [] && unchanged(e)
              case Some(ip) =>
                && e.private1 == 0 && e.private2 == ip
                && Run(outcome, calls) == Phase2(stack, answer, None, ip, 0)
                && (ClaimsByIp(stack, answer) ==> HandlerOnlyAt(calls, k))
  {
    var i := 0;
    while true
      invariant i <= |stack.frames| && Search(stack, answer, i) == Search(stack, answer, 0)
      decreases |stack.frames| - i
    {
      if i == |stack.frames| {
        return Returned(if stack.last == 0 then ReachedEnd else FatalPhase1Error), [];
      }
      if stack.frames[i].handler.None? {
        return Returned(FatalPhase1Error), [];
      }
      if stack.frames[i].handler.value != 0 {
        var reason := answer(i, {SearchPhase});
        if reason != ContinueUnwind {
          if reason == HandlerFound {
            break;
          }
          return Returned(FatalPhase1Error), [];
        }
      }
      i := i + 1;
    }
    if stack.frames[i].ip.None? {
      return Returned(FatalPhase1Error), [];
    }
    e.private1 := 0;
    e.private2 := stack.frames[i].ip.value;
    if ClaimsByIp(stack, answer) {
      Agreement(stack, answer, i, e.private2);
    }
    outcome, calls := CleanupLoop(stack, answer, stopAt, e);
  }
}
