/**
 The SSE relay loop as a step system: the client may fail, the capture channel is bounded and may or
 may not be read, and the channel is closed when the handler returns.
 */
module SseTee {
  import opened Prelude

  type Line = seq<Byte>

  datatype Pc = Scanning | Writing(line: Line) | Teeing(line: Line) | Ended

  /** `scanned`, `written`, `teed` and `taken` are history; `queue` is the channel's content. */
  datatype Relay = Relay(capture: bool, pc: Pc, scanned: seq<Line>, written: seq<Line>, teed: seq<Line>,
                         queue: seq<Line>, taken: seq<Line>, closed: bool, panicked: bool)

  datatype Step = Scan(line: Line) | ScanEnds | Write | WriteFails | Tee | Drain | Close

  /** The capacity of the capture channel. */
  const TEE_CAPACITY := 1024

  function Init(capture: bool): Relay { Relay(capture, Scanning, [], [], [], [], [], false, false) }

  predicate Enabled(s: Relay, x: Step, cap: nat) {
    !s.panicked &&
    match x
    case Scan(_) => s.pc.Scanning?
    case ScanEnds => s.pc.Scanning?
    case Write => s.pc.Writing?
    case WriteFails => s.pc.Writing?
    case Tee => s.pc.Teeing? && (s.closed || |s.queue| < cap)
    case Drain => s.queue != []
    case Close => s.capture && s.pc.Ended? && !s.closed
  }

  function Do(s: Relay, x: Step, cap: nat): Relay
    requires Enabled(s, x, cap)
  {
    match x
    case Scan(line) => s.(pc := Writing(line), scanned := s.scanned + [line])
    case ScanEnds => s.(pc := Ended)
    case Write => s.(pc := if s.capture then Teeing(s.pc.line) else Scanning, written := s.written + [s.pc.line])
    case WriteFails => s.(pc := Ended)
    case Tee =>
      if s.closed then s.(panicked := true)
      else s.(pc := Scanning, teed := s.teed + [s.pc.line], queue := s.queue + [s.pc.line])
    case Drain => s.(queue := s.queue[1..], taken := s.taken + [s.queue[0]])
    case Close => s.(closed := true)
  }

  function After(capture: bool, steps: seq<Step>, cap: nat): Option<Relay> {
    if steps == [] then Some(Init(capture))
    else
      var prev := After(capture, steps[..|steps| - 1], cap);
      var x := steps[|steps| - 1];
      if prev.Some? && Enabled(prev.value, x, cap) then Some(Do(prev.value, x, cap)) else None
  }

  ghost predicate Inv(s: Relay, cap: nat) {
    && (s.pc.Scanning? || s.pc.Teeing? ==> s.written == s.scanned)
    && (s.pc.Writing? ==> s.scanned == s.written + [s.pc.line])
    && s.written <= s.scanned && |s.scanned| <= |s.written| + 1
    && (s.capture && !s.pc.Teeing? ==> s.teed == s.written)
    && (s.capture && s.pc.Teeing? ==> s.written == s.teed + [s.pc.line])
    && (!s.capture ==> s.teed == [] && !s.pc.Teeing?)
    && s.teed == s.taken + s.queue
    && |s.queue| <= cap
    && (s.closed ==> s.pc.Ended?)
    && !s.panicked
  }

  lemma StepKeeps(s: Relay, x: Step, cap: nat)
    requires Inv(s, cap) && Enabled(s, x, cap)
    ensures Inv(Do(s, x, cap), cap)
  {
    if x.Drain? {
      assert s.taken + s.queue == s.taken + [s.queue[0]] + s.queue[1..];
    } else if x.Tee? {
      assert s.teed + [s.pc.line] == s.taken + (s.queue + [s.pc.line]);
    }
  }

  lemma {:induction false} RunKeeps(capture: bool, steps: seq<Step>, cap: nat)
    requires After(capture, steps, cap).Some?
    ensures Inv(After(capture, steps, cap).value, cap) && After(capture, steps, cap).value.capture == capture
  {
    if steps != [] {
      var front := steps[..|steps| - 1];
      RunKeeps(capture, front, cap);
      StepKeeps(After(capture, front, cap).value, steps[|steps| - 1], cap);
    }
  }

  // ---- Runs as interleavings of the relay and a reader of its channel ----

  function Count(steps: seq<Step>, x: Step): nat {
    if steps == [] then 0
    else Count(steps[..|steps| - 1], x) + if steps[|steps| - 1] == x then 1 else 0
  }

  /** The lines scanned, in order. */
  function ScannedBy(steps: seq<Step>): seq<Line> {
    if steps == [] then []
    else
      var front := ScannedBy(steps[..|steps| - 1]);
      match steps[|steps| - 1]
      case Scan(line) => front + [line]
      case _ => front
  }

  /** The latest step of the relay itself. */
  function LastOwn(steps: seq<Step>): Option<Step> {
    if steps == [] then None
    else if steps[|steps| - 1].Drain? then LastOwn(steps[..|steps| - 1])
    else Some(steps[|steps| - 1])
  }

  /** The relay's program: scan, write, tee when capturing, until scanning or a write ends it; then the close. */
  predicate MayFollow(last: Option<Step>, x: Step, capture: bool) {
    match x
    case Scan(_) => last.None? || (if capture then last.value.Tee? else last.value.Write?)
    case ScanEnds => last.None? || (if capture then last.value.Tee? else last.value.Write?)
    case Write => last.Some? && last.value.Scan?
    case WriteFails => last.Some? && last.value.Scan?
    case Tee => capture && last.Some? && last.value.Write?
    case Close => capture && last.Some? && (last.value.ScanEnds? || last.value.WriteFails?)
    case Drain => false
  }

  /** What the relay holds and has done, from the steps alone. */
  ghost predicate Says(s: Relay, steps: seq<Step>) {
    var last := LastOwn(steps);
    && s.scanned == ScannedBy(steps) && |s.written| == Count(steps, Write)
    && |s.teed| == Count(steps, Tee) && |s.taken| == Count(steps, Drain)
    && (s.pc.Scanning? <==> last.None? || (if s.capture then last.value.Tee? else last.value.Write?))
    && (s.pc.Writing? <==> last.Some? && last.value.Scan?)
    && (s.pc.Teeing? <==> s.capture && last.Some? && last.value.Write?)
    && (s.pc.Ended? && !s.closed <==> last.Some? && (last.value.ScanEnds? || last.value.WriteFails?))
    && (s.closed <==> last == Some(Close))
  }

  lemma SaysOneMore(front: seq<Step>, x: Step)
    ensures ScannedBy(front + [x]) == if x.Scan? then ScannedBy(front) + [x.line] else ScannedBy(front)
    ensures LastOwn(front + [x]) == if x.Drain? then LastOwn(front) else Some(x)
    ensures forall y :: Count(front + [x], y) == Count(front, y) + if x == y then 1 else 0
  {
    assert (front + [x])[..|front|] == front;
  }

  lemma SaysKept(s: Relay, steps: seq<Step>, x: Step, cap: nat)
    requires Inv(s, cap) && Enabled(s, x, cap) && Says(s, steps)
    ensures Says(Do(s, x, cap), steps + [x])
  {
    SaysOneMore(steps, x);
  }

  lemma {:induction false} RunSays(capture: bool, steps: seq<Step>, cap: nat)
    requires After(capture, steps, cap).Some?
    ensures Says(After(capture, steps, cap).value, steps)
  {
    if steps != [] {
      var front, x := steps[..|steps| - 1], steps[|steps| - 1];
      RunSays(capture, front, cap);
      RunKeeps(capture, front, cap);
      SaysKept(After(capture, front, cap).value, front, x, cap);
      assert front + [x] == steps;
    }
  }

  /**
   Exactly which steps a run can go on with: the relay's own next step, a tee only while the channel has room,
   and a drain only of something teed and not yet drained.
   */
  lemma CanGoOnIff(capture: bool, steps: seq<Step>, x: Step, cap: nat)
    requires After(capture, steps, cap).Some?
    ensures Enabled(After(capture, steps, cap).value, x, cap) <==>
              if x.Drain? then Count(steps, Drain) < Count(steps, Tee)
              else MayFollow(LastOwn(steps), x, capture) && (x.Tee? ==> Count(steps, Tee) - Count(steps, Drain) < cap)
  {
    RunKeeps(capture, steps, cap);
    RunSays(capture, steps, cap);
    var s := After(capture, steps, cap).value;
    assert |s.teed| == |s.taken| + |s.queue|;
  }

  // ---- Main results ----

  lemma PrefixOrder(s: Relay, cap: nat)
    requires Inv(s, cap) && s.capture
    ensures s.teed <= s.written <= s.scanned && |s.written| <= |s.teed| + 1
  {
  }

  /** With or without capture: the client has the first of the lines scanned, one for each write. */
  lemma WrittenInOrder(capture: bool, steps: seq<Step>, cap: nat)
    requires After(capture, steps, cap).Some?
    ensures var s := After(capture, steps, cap).value;
            && s.written <= ScannedBy(steps) && |s.written| == Count(steps, Write)
            && |ScannedBy(steps)| <= |s.written| + 1 && !s.panicked
  {
    RunKeeps(capture, steps, cap);
    RunSays(capture, steps, cap);
  }

  /** Written before teed: the tee is the written lines but possibly the last, one for each tee step. */
  lemma WrittenThenTeed(steps: seq<Step>, cap: nat)
    requires After(true, steps, cap).Some?
    ensures var s := After(true, steps, cap).value;
            && s.teed <= s.written <= ScannedBy(steps) && |s.written| <= |s.teed| + 1 && |s.teed| == Count(steps, Tee)
            && s.teed == s.taken + s.queue && |s.taken| == Count(steps, Drain) && !s.panicked
  {
    RunKeeps(true, steps, cap);
    RunSays(true, steps, cap);
    PrefixOrder(After(true, steps, cap).value, cap);
  }

  lemma {:induction false} NothingDrained(steps: seq<Step>, cap: nat)
    requires After(true, steps, cap).Some? && Drain !in steps
    ensures After(true, steps, cap).value.taken == []
  {
    if steps != [] { NothingDrained(steps[..|steps| - 1], cap); }
  }

  /**
   With nobody draining the channel, the relay writes at most one line more than its capacity, then waits for ever.
   */
  lemma StallsAtCapacity(steps: seq<Step>, cap: nat)
    requires After(true, steps, cap).Some? && Drain !in steps
    ensures var s := After(true, steps, cap).value;
            && |s.written| <= cap + 1
            && (|s.written| == cap + 1 ==> forall x :: x != Drain ==> !Enabled(s, x, cap))
  {
    WrittenThenTeed(steps, cap);
    NothingDrained(steps, cap);
    RunKeeps(true, steps, cap);
  }

  /** In the program: at most 1025 lines of a captured stream ever reach the client. */
  lemma AtMost1025Lines(steps: seq<Step>)
    requires After(true, steps, TEE_CAPACITY).Some? && Drain !in steps
    ensures |After(true, steps, TEE_CAPACITY).value.written| <= 1025
  {
    StallsAtCapacity(steps, TEE_CAPACITY);
  }

  /** Scans, writes and tees all of the lines. */
  function FullSpeed(lines: seq<Line>): seq<Step> {
    if lines == [] then []
    else FullSpeed(lines[..|lines| - 1]) + [Scan(lines[|lines| - 1]), Write, Tee]
  }

  function Passed(lines: seq<Line>): Relay {
    Relay(true, Scanning, lines, lines, lines, lines, [], false, false)
  }

  lemma Extend(steps: seq<Step>, s: Relay, x: Step, cap: nat) returns (longer: seq<Step>, t: Relay)
    requires After(true, steps, cap) == Some(s) && Enabled(s, x, cap)
    ensures longer == steps + [x] && t == Do(s, x, cap) && After(true, longer, cap) == Some(t)
  {
    longer, t := steps + [x], Do(s, x, cap);
    assert (steps + [x])[..|steps|] == steps;
  }

  lemma PassOne(steps: seq<Step>, lines: seq<Line>, line: Line, cap: nat)
    requires After(true, steps, cap) == Some(Passed(lines)) && |lines| < cap
    ensures After(true, steps + [Scan(line), Write, Tee], cap) == Some(Passed(lines + [line]))
  {
    var p, s := steps, Passed(lines);
    p, s := Extend(p, s, Scan(line), cap);
    p, s := Extend(p, s, Write, cap);
    p, s := Extend(p, s, Tee, cap);
    assert p == steps + [Scan(line), Write, Tee];
  }

  lemma {:induction false} CapacityReached(lines: seq<Line>, cap: nat)
    requires |lines| <= cap
    ensures After(true, FullSpeed(lines), cap) == Some(Passed(lines))
  {
    if lines != [] {
      var front, line := lines[..|lines| - 1], lines[|lines| - 1];
      CapacityReached(front, cap);
      assert front + [line] == lines && FullSpeed(lines) == FullSpeed(front) + [Scan(line), Write, Tee];
      PassOne(FullSpeed(front), front, line, cap);
    }
  }

  /** The bound is tight: one line beyond the capacity is still written, and then the relay hangs. */
  lemma BoundReached(lines: seq<Line>, last: Line, cap: nat)
    requires |lines| == cap
    ensures var run := FullSpeed(lines) + [Scan(last), Write];
            After(true, run, cap).Some? && After(true, run, cap).value.written == lines + [last]
            && After(true, run, cap).value.pc.Teeing?
  {
    CapacityReached(lines, cap);
    var p, s := FullSpeed(lines), Passed(lines);
    p, s := Extend(p, s, Scan(last), cap);
    p, s := Extend(p, s, Write, cap);
    assert p == FullSpeed(lines) + [Scan(last), Write];
  }
}
