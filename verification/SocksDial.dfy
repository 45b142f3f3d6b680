/**
 The SOCKS5 dial bounded by a context: a goroutine dials and offers its result on a channel
 with one slot, the caller waits for that result or for the context, and closes the channel
 on its way out.
 */
module SocksDial {
  import opened Prelude

  datatype DialResult = Conn(id: int) | DialError(code: int)

  datatype Ret = FromDial(r: DialResult) | ContextError

  datatype Caller = Selecting | Leaving(ret: Ret) | Gone(ret: Ret)

  datatype Dialer =
    | Dialing
    | Offering(r: DialResult)
    | Sent(r: DialResult)
    | Skipped(r: DialResult)
    | Panicked(r: DialResult)

  /** `sends` is history. */
  datatype State = State(ctxDone: bool, caller: Caller, dialer: Dialer, slot: Option<DialResult>,
                         closed: bool, sends: nat)

  datatype Step = CtxEnds | DialReturns(r: DialResult) | TakeResult | TakeCtx | CloseSlot | Offer | Skip

  const INIT := State(false, Selecting, Dialing, None, false, 0)

  /** An offer on a closed channel is selectable in Go, and panics. */
  predicate Enabled(s: State, x: Step) {
    match x
    case CtxEnds => true
    case DialReturns(_) => s.dialer.Dialing?
    case TakeResult => s.caller.Selecting? && s.slot.Some?
    case TakeCtx => s.caller.Selecting? && s.ctxDone
    case CloseSlot => s.caller.Leaving?
    case Offer => s.dialer.Offering? && (s.closed || s.slot.None?)
    case Skip => s.dialer.Offering? && s.ctxDone
  }

  function Do(s: State, x: Step): State
    requires Enabled(s, x)
  {
    match x
    case CtxEnds => s.(ctxDone := true)
    case DialReturns(r) => s.(dialer := Offering(r))
    case TakeResult => s.(caller := Leaving(FromDial(s.slot.value)), slot := None)
    case TakeCtx => s.(caller := Leaving(ContextError))
    case CloseSlot => s.(caller := Gone(s.caller.ret), closed := true)
    case Offer =>
      if s.closed then s.(dialer := Panicked(s.dialer.r))
      else s.(dialer := Sent(s.dialer.r), slot := Some(s.dialer.r), sends := s.sends + 1)
    case Skip => s.(dialer := Skipped(s.dialer.r))
  }

  function After(steps: seq<Step>): Option<State> {
    if steps == [] then Some(INIT)
    else
      var prev := After(steps[..|steps| - 1]);
      var x := steps[|steps| - 1];
      if prev.Some? && Enabled(prev.value, x) then Some(Do(prev.value, x)) else None
  }

  function Returned(c: Caller): Option<Ret> {
    if c.Selecting? then None else Some(c.ret)
  }

  ghost predicate Inv(s: State) {
    && s.sends == (if s.dialer.Sent? then 1 else 0)
    && (s.slot.Some? ==>
          s.dialer == Sent(s.slot.value) && (s.caller.Selecting? || Returned(s.caller) == Some(ContextError)))
    && (s.dialer.Sent? && s.slot.None? ==> Returned(s.caller) == Some(FromDial(s.dialer.r)))
    && (!s.caller.Selecting? && s.caller.ret.FromDial? ==> s.dialer == Sent(s.caller.ret.r) && s.slot.None?)
    && (Returned(s.caller) == Some(ContextError) ==> s.ctxDone)
    && (s.closed <==> s.caller.Gone?)
    && (s.dialer.Panicked? ==> s.caller == Gone(ContextError))
  }

  lemma {:induction false} RunKeeps(steps: seq<Step>)
    requires After(steps).Some?
    ensures Inv(After(steps).value)
  {
    if steps != [] {
      RunKeeps(steps[..|steps| - 1]);
    }
  }

  // ---- Runs as interleavings of the caller, the goroutine and the context ----

  predicate Dialled(steps: seq<Step>) { exists i | 0 <= i < |steps| :: steps[i].DialReturns? }

  /** Where the caller and the goroutine are, from the steps alone. */
  ghost predicate Says(s: State, steps: seq<Step>) {
    && (s.ctxDone <==> CtxEnds in steps)
    && (s.dialer.Dialing? <==> !Dialled(steps))
    && (s.dialer.Offering? <==> Dialled(steps) && Offer !in steps && Skip !in steps)
    && (s.dialer.Sent? || s.dialer.Panicked? <==> Offer in steps)
    && (s.dialer.Skipped? <==> Skip in steps)
    && (s.caller.Selecting? <==> TakeResult !in steps && TakeCtx !in steps)
    && (s.caller.Leaving? <==> (TakeResult in steps || TakeCtx in steps) && CloseSlot !in steps)
    && (s.caller.Gone? <==> CloseSlot in steps)
  }

  lemma SaysKept(s: State, steps: seq<Step>, x: Step)
    requires Inv(s) && Says(s, steps) && Enabled(s, x)
    ensures Says(Do(s, x), steps + [x])
  {
    var all := steps + [x];
    assert all[|steps|] == x && forall i | 0 <= i < |steps| :: all[i] == steps[i];
    assert Dialled(all) <==> Dialled(steps) || x.DialReturns?;
  }

  lemma {:induction false} RunSays(steps: seq<Step>)
    requires After(steps).Some?
    ensures Says(After(steps).value, steps)
  {
    if steps != [] {
      var front, x := steps[..|steps| - 1], steps[|steps| - 1];
      RunSays(front);
      RunKeeps(front);
      SaysKept(After(front).value, front, x);
      assert front + [x] == steps;
    }
  }

  /**
   Exactly which steps a run can go on with. The dial returns once; the goroutine's select then offers or, when
   the context has ended, may skip; the caller takes an offered result or, when the context has ended, may leave
   on it, and then closes the channel.
   */
  lemma CanGoOnIff(steps: seq<Step>, x: Step)
    requires After(steps).Some?
    ensures Enabled(After(steps).value, x) <==>
              match x
              case CtxEnds => true
              case DialReturns(_) => !Dialled(steps)
              case Offer => Dialled(steps) && Offer !in steps && Skip !in steps
              case Skip => Dialled(steps) && Offer !in steps && Skip !in steps && CtxEnds in steps
              case TakeResult => Offer in steps && TakeResult !in steps && TakeCtx !in steps
              case TakeCtx => CtxEnds in steps && TakeResult !in steps && TakeCtx !in steps
              case CloseSlot => (TakeResult in steps || TakeCtx in steps) && CloseSlot !in steps
  {
    RunKeeps(steps);
    RunSays(steps);
  }

  // ---- Main results ----

  /** At most one result is ever sent, and the goroutine's offer can always proceed. */
  lemma SendOnceNeverBlocks(steps: seq<Step>)
    requires After(steps).Some?
    ensures After(steps).value.sends <= 1
    ensures After(steps).value.dialer.Offering? ==> Enabled(After(steps).value, Offer)
  {
    RunKeeps(steps);
  }

  /** The caller returns what this dial produced, or the error of a context that has really ended. */
  lemma ReturnsOwnResultOrContext(steps: seq<Step>)
    requires After(steps).Some? && !After(steps).value.caller.Selecting?
    ensures match Returned(After(steps).value.caller).value
            case FromDial(r) => DialReturns(r) in steps && After(steps).value.dialer == Sent(r)
            case ContextError => CtxEnds in steps
  {
    RunKeeps(steps);
    HistoryOf(steps);
  }

  lemma {:induction false} HistoryOf(steps: seq<Step>)
    requires After(steps).Some?
    ensures After(steps).value.ctxDone ==> CtxEnds in steps
    ensures !After(steps).value.dialer.Dialing? ==> DialReturns(After(steps).value.dialer.r) in steps
  {
    if steps != [] {
      HistoryOf(steps[..|steps| - 1]);
    }
  }

  ghost predicate OfferAfterClose(steps: seq<Step>) {
    exists j, k :: 0 <= j < k < |steps| && steps[j] == CloseSlot && steps[k] == Offer
  }

  /** The goroutine panics exactly in the runs where its offer comes after the caller closed the channel. */
  lemma {:induction false} PanicIffOfferAfterClose(steps: seq<Step>)
    requires After(steps).Some?
    ensures After(steps).value.closed <==> CloseSlot in steps
    ensures After(steps).value.dialer.Panicked? <==> OfferAfterClose(steps)
  {
    if steps != [] {
      var front, x := steps[..|steps| - 1], steps[|steps| - 1];
      PanicIffOfferAfterClose(front);
      assert forall i | 0 <= i < |front| :: front[i] == steps[i];
      if OfferAfterClose(front) {
        var j, k :| 0 <= j < k < |front| && front[j] == CloseSlot && front[k] == Offer;
        assert steps[j] == CloseSlot && steps[k] == Offer;
      }
      if x == Offer && CloseSlot in front {
        var j :| 0 <= j < |front| && front[j] == CloseSlot;
        assert steps[j] == CloseSlot && steps[|front|] == Offer;
      }
      if OfferAfterClose(steps) && !OfferAfterClose(front) {
        var j, k :| 0 <= j < k < |steps| && steps[j] == CloseSlot && steps[k] == Offer;
        assert k == |front|;
      }
    }
  }

  /** It can only happen to a caller that left on the context before the goroutine made its offer. */
  lemma {:induction false} PanicNeedsContextExit(steps: seq<Step>) returns (i: nat, k: nat)
    requires After(steps).Some? && After(steps).value.dialer.Panicked?
    ensures i < k < |steps| && steps[i] == TakeCtx && steps[k] == Offer
    ensures After(steps).value.caller == Gone(ContextError)
  {
    RunKeeps(steps);
    var front, x := steps[..|steps| - 1], steps[|steps| - 1];
    if x == Offer && !After(front).value.dialer.Panicked? {
      RunKeeps(front);
      PanicIffOfferAfterClose(steps);
      k := |front|;
      i := ContextExit(front);
    } else {
      i, k := PanicNeedsContextExit(front);
    }
  }

  lemma {:induction false} ContextExit(steps: seq<Step>) returns (i: nat)
    requires After(steps).Some? && Returned(After(steps).value.caller) == Some(ContextError)
    ensures i < |steps| && steps[i] == TakeCtx
  {
    var front := steps[..|steps| - 1];
    if steps[|steps| - 1] == TakeCtx {
      i := |front|;
    } else {
      i := ContextExit(front);
    }
  }

  ghost predicate Panics(steps: seq<Step>) { After(steps).Some? && After(steps).value.dialer.Panicked? }

  ghost predicate MayPanic(steps: seq<Step>) { exists more: seq<Step> :: Panics(steps + more) }

  lemma OneMore(steps: seq<Step>, x: Step)
    requires After(steps).Some? && Enabled(After(steps).value, x)
    ensures After(steps + [x]) == Some(Do(After(steps).value, x))
  {
    assert (steps + [x])[..|steps|] == steps;
  }

  lemma MoreThenPanic(steps: seq<Step>, x: Step)
    requires MayPanic(steps + [x])
    ensures MayPanic(steps)
  {
    var more :| Panics(steps + [x] + more);
    Associative(steps, [x], more);
  }

  /** A goroutine that has sent or skipped stays so. */
  lemma {:induction false} DoneForGood(steps: seq<Step>, more: seq<Step>)
    requires After(steps + more).Some? && After(steps).Some?
    requires After(steps).value.dialer.Sent? || After(steps).value.dialer.Skipped?
    ensures After(steps + more).value.dialer == After(steps).value.dialer
  {
    if more == [] {
      assert steps + more == steps;
    } else {
      assert (steps + more)[..|steps + more| - 1] == steps + more[..|more| - 1];
      DoneForGood(steps, more[..|more| - 1]);
    }
  }

  /** How many of the steps towards the panic are still to come. */
  function Distance(s: State): nat {
    (match s.dialer case Dialing => 2 case Offering(_) => 1 case _ => 0)
    + (match s.caller case Selecting => 2 case Leaving(_) => 1 case Gone(_) => 0)
    + (if s.ctxDone then 0 else 1)
  }

  /**
   At every moment of every run: the panic can still come, or has come, iff the goroutine has neither sent nor
   skipped.
   */
  lemma {:induction false} MayPanicIff(steps: seq<Step>)
    requires After(steps).Some?
    ensures MayPanic(steps) <==> !After(steps).value.dialer.Sent? && !After(steps).value.dialer.Skipped?
    decreases Distance(After(steps).value)
  {
    var s := After(steps).value;
    RunKeeps(steps);
    if s.dialer.Sent? || s.dialer.Skipped? {
      forall more: seq<Step> ensures !Panics(steps + more) {
        if After(steps + more).Some? { DoneForGood(steps, more); }
      }
    } else if s.dialer.Panicked? {
      assert steps + [] == steps;
    } else {
      var x := if s.dialer.Dialing? then DialReturns(Conn(0))
               else if !s.ctxDone then CtxEnds
               else if s.caller.Selecting? then TakeCtx
               else if s.caller.Leaving? then CloseSlot
               else Offer;
      OneMore(steps, x);
      MayPanicIff(steps + [x]);
      MoreThenPanic(steps, x);
    }
  }

  /** The panic is reachable: the context ends first and the goroutine's select picks the send. */
  lemma PanicWitness()
    ensures var run := [CtxEnds, TakeCtx, CloseSlot, DialReturns(Conn(1)), Offer];
            After(run) == Some(State(true, Gone(ContextError), Panicked(Conn(1)), None, true, 0))
  {
    var r1: seq<Step> := [CtxEnds];
    var r2 := r1 + [TakeCtx];
    var r3 := r2 + [CloseSlot];
    var r4 := r3 + [DialReturns(Conn(1))];
    var r5 := r4 + [Offer];
    assert r1[..0] == [] && r2[..1] == r1 && r3[..2] == r2 && r4[..3] == r3 && r5[..4] == r4;
    assert After(r1).Some? && After(r2).Some? && After(r3).Some? && After(r4).Some?;
    assert r5 == [CtxEnds, TakeCtx, CloseSlot, DialReturns(Conn(1)), Offer];
  }

  /** When both sides are done, a dialled result reached the caller unless the caller left on the context. */
  lemma ResultLostIffContextExit(steps: seq<Step>)
    requires After(steps).Some? && After(steps).value.caller.Gone?
    requires var d := After(steps).value.dialer; d.Sent? || d.Skipped? || d.Panicked?
    ensures var s := After(steps).value;
            s.caller.ret != FromDial(s.dialer.r) <==> s.caller.ret == ContextError
  {
    RunKeeps(steps);
  }
}
