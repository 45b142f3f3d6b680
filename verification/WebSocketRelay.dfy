/**
 The WebSocket relay: two pumps, one per direction, each reading a message, teeing its
 payload to a bounded capture channel and only then writing it to the other side. The
 handler closes both channels after both pumps have ended.

 Direction 0 carries target to client and tees to RespBody; direction 1 carries client to
 target and tees to ReqBody. A send on a closed channel and a second close panic in Go;
 the model has those outcomes, and the theorems show that no run reaches them.
 */
module WebSocketRelay {
  import opened Prelude

  datatype Msg = Msg(kind: int, payload: seq<Byte>)

  datatype Pc = Reading | Teeing(m: Msg) | Writing(m: Msg) | Ended

  /** `read`, `teed`, `delivered` and `taken` are history; `queue` is the channel's content. */
  datatype Pump = Pump(pc: Pc, read: seq<Msg>, teed: seq<seq<Byte>>, delivered: seq<Msg>,
                       queue: seq<seq<Byte>>, taken: seq<seq<Byte>>, closed: bool)

  datatype Main = Waiting | ReqClosed | AllClosed

  /** `capture` says whether the proxy was given a message channel at all. */
  datatype Relay = Relay(capture: bool, pumps: seq<Pump>, main: Main, panicked: bool)

  datatype Step =
    | Read(d: nat, m: Msg)
    | ReadFails(d: nat)
    | Tee(d: nat)
    | Write(d: nat)
    | WriteFails(d: nat)
    | Drain(d: nat)
    | CloseReq
    | CloseResp

  /** The capacity of either capture channel. */
  const TEE_CAPACITY := 1024

  const FRESH := Pump(Reading, [], [], [], [], [], false)

  function Init(capture: bool): Relay { Relay(capture, [FRESH, FRESH], Waiting, false) }

  function PumpOf(s: Relay, d: nat): Pump {
    if d < |s.pumps| then s.pumps[d] else FRESH
  }

  predicate BothEnded(s: Relay) { PumpOf(s, 0).pc.Ended? && PumpOf(s, 1).pc.Ended? }

  predicate Enabled(s: Relay, x: Step, cap: nat) {
    |s.pumps| == 2 && !s.panicked &&
    match x
    case Read(d, _) => d < 2 && s.pumps[d].pc.Reading?
    case ReadFails(d) => d < 2 && s.pumps[d].pc.Reading?
    case Tee(d) => d < 2 && s.pumps[d].pc.Teeing? && (s.pumps[d].closed || |s.pumps[d].queue| < cap)
    case Write(d) => d < 2 && s.pumps[d].pc.Writing?
    case WriteFails(d) => d < 2 && s.pumps[d].pc.Writing?
    case Drain(d) => d < 2 && s.pumps[d].queue != []
    case CloseReq => s.capture && s.main.Waiting? && BothEnded(s)
    case CloseResp => s.capture && s.main.ReqClosed?
  }

  function PumpStep(p: Pump, x: Step, capture: bool): Pump {
    match x
    case Read(_, m) => p.(pc := if capture then Teeing(m) else Writing(m), read := p.read + [m])
    case ReadFails(_) => p.(pc := Ended)
    case Tee(_) =>
      if p.pc.Teeing? && !p.closed then
        p.(pc := Writing(p.pc.m), teed := p.teed + [p.pc.m.payload], queue := p.queue + [p.pc.m.payload])
      else p
    case Write(_) => if p.pc.Writing? then p.(pc := Reading, delivered := p.delivered + [p.pc.m]) else p
    case WriteFails(_) => p.(pc := Ended)
    case Drain(_) => if p.queue != [] then p.(queue := p.queue[1..], taken := p.taken + [p.queue[0]]) else p
    case CloseReq => p.(closed := true)
    case CloseResp => p.(closed := true)
  }

  function Target(x: Step): nat {
    match x
    case CloseReq => 1
    case CloseResp => 0
    case _ => x.d
  }

  function Do(s: Relay, x: Step, cap: nat): Relay
    requires Enabled(s, x, cap)
  {
    var d := Target(x);
    var p := s.pumps[d];
    s.(pumps := s.pumps[d := PumpStep(p, x, s.capture)],
       panicked := (x.Tee? || x.CloseReq? || x.CloseResp?) && p.closed,
       main := if x.CloseReq? then ReqClosed else if x.CloseResp? then AllClosed else s.main)
  }

  /** The state after a run, or None when some step was not possible. */
  function After(capture: bool, steps: seq<Step>, cap: nat): Option<Relay> {
    if steps == [] then Some(Init(capture))
    else
      var prev := After(capture, steps[..|steps| - 1], cap);
      var x := steps[|steps| - 1];
      if prev.Some? && Enabled(prev.value, x, cap) then Some(Do(prev.value, x, cap)) else None
  }

  function Payloads(ms: seq<Msg>): seq<seq<Byte>> {
    seq(|ms|, i requires 0 <= i < |ms| => ms[i].payload)
  }

  // ---- The invariant of every run ----

  ghost predicate PumpOk(p: Pump, capture: bool, cap: nat) {
    && p.delivered <= p.read
    && (p.pc.Reading? ==> p.delivered == p.read)
    && (p.pc.Teeing? || p.pc.Writing? ==> p.read == p.delivered + [p.pc.m])
    && |p.read| <= |p.delivered| + 1
    && (capture ==> p.teed == Payloads(if p.pc.Teeing? then p.delivered else p.read))
    && (!capture ==> p.teed == [] && !p.pc.Teeing?)
    && p.teed == p.taken + p.queue
    && |p.queue| <= cap
    && (p.closed ==> p.pc.Ended?)
  }

  ghost predicate Inv(s: Relay, cap: nat) {
    && |s.pumps| == 2
    && PumpOk(s.pumps[0], s.capture, cap) && PumpOk(s.pumps[1], s.capture, cap)
    && !s.panicked
    && (!s.main.Waiting? ==> BothEnded(s))
    && (s.pumps[1].closed <==> !s.main.Waiting?)
    && (s.pumps[0].closed <==> s.main.AllClosed?)
  }

  lemma PumpKept(p: Pump, x: Step, capture: bool, cap: nat)
    requires PumpOk(p, capture, cap)
    requires x.Read? || x.ReadFails? ==> p.pc.Reading?
    requires x.Tee? ==> p.pc.Teeing? && |p.queue| < cap
    requires x.Write? || x.WriteFails? ==> p.pc.Writing?
    requires x.Drain? ==> p.queue != []
    requires x.CloseReq? || x.CloseResp? ==> p.pc.Ended?
    ensures PumpOk(PumpStep(p, x, capture), capture, cap)
  {
    var q := PumpStep(p, x, capture);
    if x.Drain? {
      assert p.taken + p.queue == q.taken + q.queue;
    } else if x.Tee? {
      assert p.teed + [p.pc.m.payload] == p.taken + (p.queue + [p.pc.m.payload]);
      assert Payloads(p.read) == Payloads(p.delivered) + [p.pc.m.payload];
    }
  }

  lemma StepKeeps(s: Relay, x: Step, cap: nat)
    requires Inv(s, cap) && Enabled(s, x, cap)
    ensures Inv(Do(s, x, cap), cap)
  {
    PumpKept(s.pumps[Target(x)], x, s.capture, cap);
  }

  lemma {:induction false} RunKeeps(capture: bool, steps: seq<Step>, cap: nat)
    requires After(capture, steps, cap).Some?
    ensures Inv(After(capture, steps, cap).value, cap) && After(capture, steps, cap).value.capture == capture
  {
    if steps != [] {
      var front := steps[..|steps| - 1];
      RunKeeps(capture, front, cap);
      StepKeeps(After(capture, front, cap).value, steps[|steps| - 1], cap);
    }
  }

  // ---- Runs as interleavings of two pumps, a reader of each channel and the handler ----

  function Count(steps: seq<Step>, x: Step): nat {
    if steps == [] then 0
    else Count(steps[..|steps| - 1], x) + if steps[|steps| - 1] == x then 1 else 0
  }

  /** The messages a direction has read, in order. */
  function ReadBy(steps: seq<Step>, d: nat): seq<Msg> {
    if steps == [] then []
    else
      var front := ReadBy(steps[..|steps| - 1], d);
      match steps[|steps| - 1]
      case Read(e, m) => if e == d then front + [m] else front
      case _ => front
  }

  /** A step of the pump of direction d, as opposed to its channel's reader and the handler. */
  predicate OfPump(x: Step, d: nat) { (x.Read? || x.ReadFails? || x.Tee? || x.Write? || x.WriteFails?) && x.d == d }

  /** The latest step of a pump. */
  function LastOf(steps: seq<Step>, d: nat): Option<Step> {
    if steps == [] then None
    else if OfPump(steps[|steps| - 1], d) then Some(steps[|steps| - 1])
    else LastOf(steps[..|steps| - 1], d)
  }

  /** One pump's program: read, tee when capturing, write, and so on until a read or a write fails. */
  predicate MayFollow(last: Option<Step>, x: Step, capture: bool) {
    match x
    case Read(_, _) => last.None? || last.value.Write?
    case ReadFails(_) => last.None? || last.value.Write?
    case Tee(_) => capture && last.Some? && last.value.Read?
    case Write(_) => last.Some? && if capture then last.value.Tee? else last.value.Read?
    case WriteFails(_) => last.Some? && if capture then last.value.Tee? else last.value.Read?
    case _ => false
  }

  predicate PumpIsOver(last: Option<Step>) { last.Some? && (last.value.ReadFails? || last.value.WriteFails?) }

  /** What a pump holds and has done, from its steps alone. */
  ghost predicate PumpSays(p: Pump, steps: seq<Step>, d: nat, capture: bool) {
    && p.read == ReadBy(steps, d)
    && |p.delivered| == Count(steps, Write(d))
    && |p.teed| == Count(steps, Tee(d)) && |p.taken| == Count(steps, Drain(d))
    && var last := LastOf(steps, d);
       && (p.pc.Reading? <==> last.None? || last.value.Write?)
       && (p.pc.Teeing? <==> capture && last.Some? && last.value.Read?)
       && (p.pc.Writing? <==> last.Some? && if capture then last.value.Tee? else last.value.Read?)
       && (p.pc.Ended? <==> PumpIsOver(last))
  }

  lemma SaysOneMore(front: seq<Step>, x: Step, d: nat)
    ensures ReadBy(front + [x], d) == if x.Read? && x.d == d then ReadBy(front, d) + [x.m] else ReadBy(front, d)
    ensures LastOf(front + [x], d) == if OfPump(x, d) then Some(x) else LastOf(front, d)
    ensures forall y :: Count(front + [x], y) == Count(front, y) + if x == y then 1 else 0
  {
    assert (front + [x])[..|front|] == front;
  }

  lemma PumpSaysKept(s: Relay, steps: seq<Step>, x: Step, d: nat, cap: nat)
    requires Inv(s, cap) && Enabled(s, x, cap) && d < 2 && PumpSays(s.pumps[d], steps, d, s.capture)
    ensures PumpSays(Do(s, x, cap).pumps[d], steps + [x], d, s.capture)
  {
    SaysOneMore(steps, x, d);
    if Target(x) != d { assert Do(s, x, cap).pumps[d] == s.pumps[d]; }
  }

  lemma {:induction false} RunSays(capture: bool, steps: seq<Step>, d: nat, cap: nat)
    requires After(capture, steps, cap).Some? && d < 2
    ensures PumpSays(PumpOf(After(capture, steps, cap).value, d), steps, d, capture)
  {
    if steps != [] {
      var front, x := steps[..|steps| - 1], steps[|steps| - 1];
      RunSays(capture, front, d, cap);
      RunKeeps(capture, front, cap);
      RunKeeps(capture, steps, cap);
      PumpSaysKept(After(capture, front, cap).value, front, x, d, cap);
      assert front + [x] == steps;
    }
  }

  lemma PumpCanGoOnIff(s: Relay, steps: seq<Step>, x: Step, cap: nat)
    requires Inv(s, cap) && (OfPump(x, 0) || OfPump(x, 1)) && PumpSays(s.pumps[x.d], steps, x.d, s.capture)
    ensures Enabled(s, x, cap) <==>
              && MayFollow(LastOf(steps, x.d), x, s.capture)
              && (x.Tee? ==> Count(steps, Tee(x.d)) - Count(steps, Drain(x.d)) < cap)
  {
    var p := s.pumps[x.d];
    assert |p.teed| == |p.taken| + |p.queue|;
  }

  lemma OthersCanGoOnIff(s: Relay, steps: seq<Step>, x: Step, cap: nat)
    requires Inv(s, cap) && PumpSays(s.pumps[0], steps, 0, s.capture) && PumpSays(s.pumps[1], steps, 1, s.capture)
    requires Count(steps, CloseReq) == if s.pumps[1].closed then 1 else 0
    requires Count(steps, CloseResp) == if s.pumps[0].closed then 1 else 0
    ensures x.CloseReq? ==>
              (Enabled(s, x, cap) <==> s.capture && PumpIsOver(LastOf(steps, 0)) && PumpIsOver(LastOf(steps, 1))
                                       && Count(steps, CloseReq) == 0)
    ensures x.CloseResp? ==>
              (Enabled(s, x, cap) <==> s.capture && Count(steps, CloseReq) == 1 && Count(steps, CloseResp) == 0)
    ensures x.Drain? ==> (Enabled(s, x, cap) <==> x.d < 2 && Count(steps, Drain(x.d)) < Count(steps, Tee(x.d)))
  {
    if x.Drain? && x.d < 2 {
      var p := s.pumps[x.d];
      assert |p.teed| == |p.taken| + |p.queue|;
    }
  }

  /**
   Exactly which steps a run can go on with: each pump's own next step, a tee only while its channel has room,
   a drain only of something teed and not yet drained, and each close once, after both pumps are over.
   */
  lemma CanGoOnIff(capture: bool, steps: seq<Step>, x: Step, cap: nat)
    requires After(capture, steps, cap).Some?
    ensures Enabled(After(capture, steps, cap).value, x, cap) <==>
              match x
              case Drain(d) => d < 2 && Count(steps, Drain(d)) < Count(steps, Tee(d))
              case CloseReq =>
                capture && PumpIsOver(LastOf(steps, 0)) && PumpIsOver(LastOf(steps, 1)) && Count(steps, CloseReq) == 0
              case CloseResp => capture && Count(steps, CloseReq) == 1 && Count(steps, CloseResp) == 0
              case Tee(d) =>
                && d < 2 && MayFollow(LastOf(steps, d), x, capture)
                && Count(steps, Tee(d)) - Count(steps, Drain(d)) < cap
              case _ => x.d < 2 && MayFollow(LastOf(steps, x.d), x, capture)
  {
    RunKeeps(capture, steps, cap);
    RunSays(capture, steps, 0, cap);
    RunSays(capture, steps, 1, cap);
    ClosedOnce(capture, steps, cap);
    var s := After(capture, steps, cap).value;
    if OfPump(x, 0) || OfPump(x, 1) { PumpCanGoOnIff(s, steps, x, cap); } else { OthersCanGoOnIff(s, steps, x, cap); }
  }

  // ---- Main results ----

  /**
   In every interleaving and either direction: what was delivered is exactly the first of the messages read,
   types included, one for each write; at most one message is in flight.
   */
  lemma DeliveredInOrder(capture: bool, steps: seq<Step>, d: nat, cap: nat)
    requires After(capture, steps, cap).Some? && d < 2
    ensures var p := PumpOf(After(capture, steps, cap).value, d);
            && p.delivered <= ReadBy(steps, d) && |p.delivered| == Count(steps, Write(d))
            && |ReadBy(steps, d)| <= |p.delivered| + 1
  {
    RunKeeps(capture, steps, cap);
    RunSays(capture, steps, d, cap);
  }

  lemma PumpOrder(p: Pump, cap: nat)
    requires PumpOk(p, true, cap)
    ensures Payloads(p.delivered) <= p.teed <= Payloads(p.read)
  {
    assert p.delivered == p.read[..|p.delivered|];
    assert Payloads(p.delivered) == Payloads(p.read)[..|p.delivered|];
  }

  /** While capturing, the tee holds the payloads in between, one for each tee step. */
  lemma DeliveredTeedRead(steps: seq<Step>, d: nat, cap: nat)
    requires After(true, steps, cap).Some? && d < 2
    ensures var p := PumpOf(After(true, steps, cap).value, d);
            && Payloads(p.delivered) <= p.teed <= Payloads(ReadBy(steps, d)) && |p.teed| == Count(steps, Tee(d))
  {
    RunKeeps(true, steps, cap);
    RunSays(true, steps, d, cap);
    PumpOrder(PumpOf(After(true, steps, cap).value, d), cap);
  }

  /** Nothing teed is lost or reordered: the reader has the first part, the channel the rest. */
  lemma TeeConserved(capture: bool, steps: seq<Step>, d: nat, cap: nat)
    requires After(capture, steps, cap).Some? && d < 2
    ensures var p := PumpOf(After(capture, steps, cap).value, d);
            && p.teed == p.taken + p.queue && |p.queue| <= cap && (!capture ==> p.teed == [])
            && |p.taken| == Count(steps, Drain(d))
  {
    RunKeeps(capture, steps, cap);
    RunSays(capture, steps, d, cap);
  }

  /** No run sends on a closed channel or closes one twice. */
  lemma NeverPanics(capture: bool, steps: seq<Step>, cap: nat)
    requires After(capture, steps, cap).Some?
    ensures !After(capture, steps, cap).value.panicked
  {
    RunKeeps(capture, steps, cap);
  }

  lemma QuietState(s: Relay, d: nat, x: Step, cap: nat)
    requires Inv(s, cap) && d < 2 && s.pumps[d].closed && Enabled(s, x, cap)
    ensures BothEnded(s) && (x.Drain? || (x.CloseResp? && !s.pumps[0].closed))
  {
  }

  /** Once a channel is closed both pumps have ended, and only draining and the other close are left to happen. */
  lemma ClosedMeansQuiet(capture: bool, steps: seq<Step>, d: nat, x: Step, cap: nat)
    requires After(capture, steps, cap).Some? && d < 2
    requires PumpOf(After(capture, steps, cap).value, d).closed && Enabled(After(capture, steps, cap).value, x, cap)
    ensures BothEnded(After(capture, steps, cap).value)
    ensures x.Drain? || (x.CloseResp? && !PumpOf(After(capture, steps, cap).value, 0).closed)
  {
    RunKeeps(capture, steps, cap);
    QuietState(After(capture, steps, cap).value, d, x, cap);
  }

  /** Each channel is closed at most once in a run. */
  lemma {:induction false} ClosedOnce(capture: bool, steps: seq<Step>, cap: nat)
    requires After(capture, steps, cap).Some?
    ensures Count(steps, CloseReq) == if PumpOf(After(capture, steps, cap).value, 1).closed then 1 else 0
    ensures Count(steps, CloseResp) == if PumpOf(After(capture, steps, cap).value, 0).closed then 1 else 0
  {
    if steps != [] {
      var front := steps[..|steps| - 1];
      ClosedOnce(capture, front, cap);
      RunKeeps(capture, front, cap);
    }
  }

  lemma {:induction false} NothingDrained(steps: seq<Step>, d: nat, cap: nat)
    requires After(true, steps, cap).Some? && d < 2 && Drain(d) !in steps
    ensures PumpOf(After(true, steps, cap).value, d).taken == []
  {
    if steps != [] {
      NothingDrained(steps[..|steps| - 1], d, cap);
      RunKeeps(true, steps[..|steps| - 1], cap);
    }
  }

  /**
   With nobody draining a tee channel, as in the program, its direction delivers at most the
   channel's capacity; the next message read then waits at the tee for ever.
   */
  lemma StallsAtCapacity(steps: seq<Step>, d: nat, cap: nat)
    requires After(true, steps, cap).Some? && d < 2 && Drain(d) !in steps
    ensures var s := After(true, steps, cap).value;
            var p := PumpOf(s, d);
            && |p.delivered| <= cap
            && (p.pc.Teeing? && |p.queue| == cap ==> !Enabled(s, Tee(d), cap) && |p.read| == cap + 1)
  {
    RunKeeps(true, steps, cap);
    NothingDrained(steps, d, cap);
  }

  /** In the program: at most 1024 messages of either captured direction are ever delivered. */
  lemma AtMost1024Messages(steps: seq<Step>, d: nat)
    requires After(true, steps, TEE_CAPACITY).Some? && d < 2 && Drain(d) !in steps
    ensures |PumpOf(After(true, steps, TEE_CAPACITY).value, d).delivered| <= 1024
  {
    StallsAtCapacity(steps, d, TEE_CAPACITY);
  }

  /** Reads, tees and delivers the given messages in one direction. */
  function FullSpeed(ms: seq<Msg>, d: nat): seq<Step> {
    if ms == [] then []
    else FullSpeed(ms[..|ms| - 1], d) + [Read(d, ms[|ms| - 1]), Tee(d), Write(d)]
  }

  lemma Extend(steps: seq<Step>, s: Relay, x: Step, cap: nat) returns (longer: seq<Step>, t: Relay)
    requires After(true, steps, cap) == Some(s) && Enabled(s, x, cap)
    ensures longer == steps + [x] && t == Do(s, x, cap) && After(true, longer, cap) == Some(t)
  {
    longer, t := steps + [x], Do(s, x, cap);
    assert (steps + [x])[..|steps|] == steps;
  }

  /** The state in which that direction has passed on all of ms and nobody has drained it. */
  function Passed(ms: seq<Msg>, d: nat): Relay
    requires d < 2
  {
    Relay(true, [FRESH, FRESH][d := Pump(Reading, ms, Payloads(ms), ms, Payloads(ms), [], false)], Waiting, false)
  }

  lemma PassOne(steps: seq<Step>, ms: seq<Msg>, m: Msg, d: nat, cap: nat)
    requires d < 2 && After(true, steps, cap) == Some(Passed(ms, d)) && |ms| < cap
    ensures After(true, steps + [Read(d, m), Tee(d), Write(d)], cap) == Some(Passed(ms + [m], d))
  {
    var p, s := steps, Passed(ms, d);
    p, s := Extend(p, s, Read(d, m), cap);
    p, s := Extend(p, s, Tee(d), cap);
    p, s := Extend(p, s, Write(d), cap);
    assert p == steps + [Read(d, m), Tee(d), Write(d)];
    assert Payloads(ms) + [m.payload] == Payloads(ms + [m]);
    assert s.pumps == Passed(ms + [m], d).pumps;
  }

  /** The bound is tight in either direction: any list of messages up to the capacity does get through undrained. */
  lemma {:induction false} CapacityReached(ms: seq<Msg>, d: nat, cap: nat)
    requires |ms| <= cap && d < 2
    ensures After(true, FullSpeed(ms, d), cap) == Some(Passed(ms, d))
  {
    if ms == [] {
      assert Payloads(ms) == [] && [FRESH, FRESH][d := FRESH] == [FRESH, FRESH];
    } else {
      var front, m := ms[..|ms| - 1], ms[|ms| - 1];
      CapacityReached(front, d, cap);
      PassOne(FullSpeed(front, d), front, m, d, cap);
      assert front + [m] == ms;
    }
  }
}
