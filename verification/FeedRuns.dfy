/**
 What a run of the live feed behind `/event` does, read off its steps alone: which step each loop may take next,
 why and when it must leave, which messages it takes, and where each HTTP message it took ends up.
 */
module FeedRuns {
  import opened Prelude
  import opened EventFeed

  // ---- What the steps of a run say ----

  /** Whether recording is on: it is at the start, and then as the latest switch says. */
  function Recording(steps: seq<Step>): bool {
    if steps == [] then true
    else if steps[|steps| - 1].Record? then steps[|steps| - 1].on else Recording(steps[..|steps| - 1])
  }

  /** The messages that got into the channel, in order. */
  function Arrived(steps: seq<Step>): seq<Kind> {
    if steps == [] then []
    else Arrived(steps[..|steps| - 1]) + if steps[|steps| - 1].Arrive? then [steps[|steps| - 1].kind] else []
  }

  function Connects(steps: seq<Step>): nat {
    if steps == [] then 0 else Connects(steps[..|steps| - 1]) + if steps[|steps| - 1].Connect? then 1 else 0
  }

  function Takes(steps: seq<Step>): nat {
    if steps == [] then 0 else Takes(steps[..|steps| - 1]) + if steps[|steps| - 1].Take? then 1 else 0
  }

  function Adds(steps: seq<Step>): nat {
    if steps == [] then 0 else Adds(steps[..|steps| - 1]) + if steps[|steps| - 1].AddId? then 1 else 0
  }

  function Count(steps: seq<Step>, x: Step): nat {
    if steps == [] then 0 else Count(steps[..|steps| - 1], x) + if steps[|steps| - 1] == x then 1 else 0
  }

  /** The messages a loop has taken: the n-th take of the run, whoever makes it, takes message n. */
  function TakenBy(steps: seq<Step>, c: nat): seq<nat> {
    if steps == [] then []
    else
      var front := steps[..|steps| - 1];
      TakenBy(front, c) + if steps[|steps| - 1] == Take(c) then [Takes(front)] else []
  }

  /** Where in the run the loop made its latest step. */
  function LastOwn(steps: seq<Step>, c: nat): (k: Option<nat>)
    ensures k.Some? ==> k.value < |steps| && ByLoop(steps[k.value], c)
  {
    if steps == [] then None
    else if ByLoop(steps[|steps| - 1], c) then Some(|steps| - 1)
    else LastOwn(steps[..|steps| - 1], c)
  }

  lemma SaysOneMore(front: seq<Step>, x: Step)
    ensures Recording(front + [x]) == if x.Record? then x.on else Recording(front)
    ensures Arrived(front + [x]) == if x.Arrive? then Arrived(front) + [x.kind] else Arrived(front)
    ensures Connects(front + [x]) == Connects(front) + if x.Connect? then 1 else 0
    ensures Takes(front + [x]) == Takes(front) + if x.Take? then 1 else 0
    ensures Adds(front + [x]) == Adds(front) + if x.AddId? then 1 else 0
  {
    assert (front + [x])[..|front|] == front;
  }

  lemma LoopSaysOneMore(front: seq<Step>, x: Step, c: nat)
    ensures TakenBy(front + [x], c) == if x == Take(c) then TakenBy(front, c) + [Takes(front)] else TakenBy(front, c)
    ensures LastOwn(front + [x], c) == if ByLoop(x, c) then Some(|front|) else LastOwn(front, c)
    ensures forall y :: Count(front + [x], y) == Count(front, y) + if x == y then 1 else 0
  {
    assert (front + [x])[..|front|] == front;
  }

  /** Recording is off exactly when it was switched off with no switch since. */
  lemma {:induction false} RecordingOffIff(steps: seq<Step>)
    ensures !Recording(steps) <==>
              exists j ::
                0 <= j < |steps| && steps[j] == Record(false) && forall i | j < i < |steps| :: !steps[i].Record?
  {
    if steps != [] {
      var front, x := steps[..|steps| - 1], steps[|steps| - 1];
      RecordingOffIff(front);
      if !Recording(front) && !x.Record? {
        var j :| 0 <= j < |front| && front[j] == Record(false) && forall i | j < i < |front| :: !front[i].Record?;
        assert steps[j] == Record(false) && forall i | j < i < |steps| :: !steps[i].Record?;
      }
      if j :| 0 <= j < |front| && steps[j] == Record(false) && forall i | j < i < |steps| :: !steps[i].Record? {
        assert front[j] == Record(false) && forall i | j < i < |front| :: !front[i].Record?;
      }
    }
  }

  // ---- The state of a run is what its steps say ----

  ghost predicate FeedSays(s: Feed, steps: seq<Step>) {
    && s.record == Recording(steps) && s.arrivals == Arrived(steps) && s.head == Takes(steps) <= |s.arrivals|
    && |s.loops| == Connects(steps) && s.id == Adds(steps) % TWO_64
  }

  lemma FeedSaysKept(s: Feed, steps: seq<Step>, x: Step, cap: nat)
    requires Enabled(s, x, cap) && FeedSays(s, steps)
    ensures FeedSays(Do(s, x, cap), steps + [x])
  {
    SaysOneMore(steps, x);
    WrapsAgree(Adds(steps));
  }

  lemma {:induction false} RunSays(steps: seq<Step>, cap: nat)
    requires After(steps, cap).Some?
    ensures FeedSays(After(steps, cap).value, steps)
  {
    if steps != [] {
      var front, x := steps[..|steps| - 1], steps[|steps| - 1];
      RunSays(front, cap);
      FeedSaysKept(After(front, cap).value, front, x, cap);
      assert front + [x] == steps;
    }
  }

  /** Where step x of a loop leads, coming after `before`. */
  ghost predicate LeadsTo(before: seq<Step>, x: Step, pc: Pc) {
    match x
    case Check(_) => pc == if Recording(before) then Select else Left(RecordOff)
    case Take(_) =>
      var m := Takes(before);
      m < |Arrived(before)| && pc == if Arrived(before)[m].Http? then Got(m) else Top
    case PollEmpty(_) => pc == Polled
    case Yield(c) => pc == if Connects(before) % TWO_64 == (c + 1) % TWO_64 then Top else Left(TookOver)
    case AddId(_, m) => pc == Added(m)
    case LoadId(_, m) => pc == Numbered(m, Adds(before) % TWO_64)
    case Write(_, ok) => pc == if ok then Top else Left(WriteError)
    case _ => false
  }

  ghost predicate LoopSays(s: Feed, steps: seq<Step>, c: nat)
    requires c < |s.loops|
  {
    && s.loops[c].taken == TakenBy(steps, c)
    && |s.loops[c].sent| == Count(steps, Write(c, true))
    && match LastOwn(steps, c)
       case None => s.loops[c].pc == Top
       case Some(k) => LeadsTo(steps[..k], steps[k], s.loops[c].pc)
  }

  lemma {:induction false} NotYetThere(steps: seq<Step>, c: nat, cap: nat)
    requires After(steps, cap).Some? && c >= |After(steps, cap).value.loops|
    ensures TakenBy(steps, c) == [] && LastOwn(steps, c) == None && Count(steps, Write(c, true)) == 0
  {
    if steps != [] { NotYetThere(steps[..|steps| - 1], c, cap); }
  }

  lemma OwnStepLeads(s: Feed, steps: seq<Step>, x: Step, c: nat, cap: nat)
    requires Enabled(s, x, cap) && FeedSays(s, steps) && ClientInv(s) && ByLoop(x, c) && c < |s.loops|
    ensures LeadsTo(steps, x, Do(s, x, cap).loops[c].pc)
  {
  }

  lemma LoopSaysKept(s: Feed, steps: seq<Step>, x: Step, c: nat, cap: nat)
    requires Enabled(s, x, cap) && FeedSays(s, steps) && ClientInv(s) && c < |s.loops| && LoopSays(s, steps, c)
    ensures LoopSays(Do(s, x, cap), steps + [x], c)
  {
    var all, t := steps + [x], Do(s, x, cap);
    LoopSaysOneMore(steps, x, c);
    assert all[..|steps|] == steps;
    if ByLoop(x, c) {
      OwnStepLeads(s, steps, x, c, cap);
    } else {
      assert t.loops[c] == s.loops[c];
      if LastOwn(steps, c).Some? {
        var k := LastOwn(steps, c).value;
        assert all[..k] == steps[..k] && all[k] == steps[k];
      }
    }
  }

  lemma FreshSays(s: Feed, steps: seq<Step>, x: Step, cap: nat)
    requires Enabled(s, x, cap) && x.Connect? && FeedSays(s, steps)
    requires TakenBy(steps, |s.loops|) == [] && LastOwn(steps, |s.loops|) == None
    requires Count(steps, Write(|s.loops|, true)) == 0
    ensures LoopSays(Do(s, x, cap), steps + [x], |s.loops|)
  {
    LoopSaysOneMore(steps, x, |s.loops|);
  }

  lemma OnlyConnectAdds(s: Feed, x: Step, c: nat, cap: nat)
    requires Enabled(s, x, cap) && |s.loops| <= c < |Do(s, x, cap).loops|
    ensures x.Connect? && c == |s.loops|
  {
  }

  lemma {:induction false} RunSaysOfLoop(steps: seq<Step>, c: nat, cap: nat)
    requires After(steps, cap).Some? && c < |After(steps, cap).value.loops|
    ensures LoopSays(After(steps, cap).value, steps, c)
  {
    var front, x := steps[..|steps| - 1], steps[|steps| - 1];
    var s := After(front, cap).value;
    RunSays(front, cap);
    ClientInvHolds(front, cap);
    assert front + [x] == steps;
    if c < |s.loops| {
      RunSaysOfLoop(front, c, cap);
      LoopSaysKept(s, front, x, c, cap);
    } else {
      NotYetThere(front, c, cap);
      OnlyConnectAdds(s, x, c, cap);
      FreshSays(s, front, x, cap);
    }
  }

  // ---- Exactly which runs there are ----

  /** One loop's program: what may come after its step y, made when the run was `before`. */
  predicate Follows(before: seq<Step>, y: Step, x: Step) {
    match y
    case Check(_) => Recording(before) && (x.Take? || x.PollEmpty?)
    case Take(c) =>
      Takes(before) < |Arrived(before)| &&
      if Arrived(before)[Takes(before)].Http? then x == AddId(c, Takes(before)) else x.Check?
    case PollEmpty(_) => x.Yield?
    case Yield(c) => Connects(before) % TWO_64 == (c + 1) % TWO_64 && x.Check?
    case AddId(c, m) => x == LoadId(c, m)
    case LoadId(_, _) => x.Write?
    case Write(_, ok) => ok && x.Check?
    case _ => false
  }

  predicate MayFollow(steps: seq<Step>, c: nat, x: Step) {
    && ByLoop(x, c) && c < Connects(steps)
    && match LastOwn(steps, c)
       case None => x.Check?
       case Some(k) => Follows(steps[..k], steps[k], x)
  }

  lemma LoopCanGoOnIff(s: Feed, steps: seq<Step>, c: nat, x: Step, cap: nat)
    requires FeedSays(s, steps) && c < |s.loops| && LoopSays(s, steps, c) && ByLoop(x, c)
    ensures Enabled(s, x, cap) <==>
              && MayFollow(steps, c, x)
              && (x.Take? ==> Takes(steps) < |Arrived(steps)|) && (x.PollEmpty? ==> Takes(steps) == |Arrived(steps)|)
  {
  }

  /**
   Exactly which steps a run can go on with: clients connect and recording is switched at any time, a message
   arrives while the channel has room, and a loop makes its program's next step, taking a message if there is
   one and seeing the channel empty if there is none.
   */
  lemma CanGoOnIff(steps: seq<Step>, x: Step, cap: nat)
    requires After(steps, cap).Some?
    ensures Enabled(After(steps, cap).value, x, cap) <==>
              match x
              case Connect => true
              case Record(_) => true
              case Arrive(_) => |Arrived(steps)| - Takes(steps) < cap
              case Take(c) => MayFollow(steps, c, x) && Takes(steps) < |Arrived(steps)|
              case PollEmpty(c) => MayFollow(steps, c, x) && Takes(steps) == |Arrived(steps)|
              case _ => MayFollow(steps, x.c, x)
  {
    RunSays(steps, cap);
    var s := After(steps, cap).value;
    if !x.Connect? && !x.Record? && !x.Arrive? && x.c < |s.loops| {
      RunSaysOfLoop(steps, x.c, cap);
      LoopCanGoOnIff(s, steps, x.c, x, cap);
    }
  }

  /** The channel holds what arrived and was not taken; each loop has taken what its own takes were for. */
  lemma TakenAre(steps: seq<Step>, cap: nat)
    requires After(steps, cap).Some?
    ensures var s := After(steps, cap).value;
            && s.arrivals == Arrived(steps) && s.head == Takes(steps) && |s.loops| == Connects(steps)
            && forall c | 0 <= c < |s.loops| ::
              s.loops[c].taken == TakenBy(steps, c) && |s.loops[c].sent| == Count(steps, Write(c, true))
  {
    RunSays(steps, cap);
    var s := After(steps, cap).value;
    forall c | 0 <= c < |s.loops|
      ensures s.loops[c].taken == TakenBy(steps, c) && |s.loops[c].sent| == Count(steps, Write(c, true))
    {
      RunSaysOfLoop(steps, c, cap);
    }
  }

  // ---- When a loop must leave ----

  lemma RightAfter(steps: seq<Step>, k: nat, c: nat, cap: nat)
    requires After(steps, cap).Some? && k < |steps| && ByLoop(steps[k], c)
    ensures var s, t := Before(steps, k, cap), Before(steps, k + 1, cap);
            && c < |s.loops| == Connects(steps[..k]) && Enabled(s, steps[k], cap) && t == Do(s, steps[k], cap)
            && LeadsTo(steps[..k], steps[k], t.loops[c].pc)
  {
    PrefixRuns(steps, k, cap);
    var before := steps[..k];
    RunSays(before, cap);
    ClientInvHolds(before, cap);
    OwnStepLeads(After(before, cap).value, before, steps[k], c, cap);
  }

  /** At the test of `record` a loop leaves exactly when the latest switch before it was off; else it selects. */
  lemma CheckLeavesIff(steps: seq<Step>, c: nat, k: nat, cap: nat)
    requires After(steps, cap).Some? && k < |steps| && steps[k] == Check(c)
    ensures var t := Before(steps, k + 1, cap);
            && c < |t.loops|
            && (t.loops[c].pc == Left(RecordOff) <==>
                  exists j :: 0 <= j < k && steps[j] == Record(false) && forall i | j < i < k :: !steps[i].Record?)
            && (t.loops[c].pc != Left(RecordOff) ==> t.loops[c].pc == Select)
  {
    RightAfter(steps, k, c, cap);
    RecordingOffIff(steps[..k]);
    if j :| 0 <= j < k && steps[j] == Record(false) && forall i | j < i < k :: !steps[i].Record? {
      assert steps[..k][j] == Record(false) && forall i | j < i < k :: !steps[..k][i].Record?;
    }
    if !Recording(steps[..k]) {
      var j :| 0 <= j < k && steps[..k][j] == Record(false) && forall i | j < i < k :: !steps[..k][i].Record?;
      assert steps[j] == Record(false) && forall i | j < i < k :: !steps[i].Record? by {
        forall i | j < i < k ensures !steps[i].Record? { assert steps[..k][i] == steps[i]; }
      }
    }
  }

  /** A failed write always ends the loop; a write that succeeds sends the message it held and goes on. */
  lemma WriteLeavesIff(steps: seq<Step>, c: nat, ok: bool, k: nat, cap: nat)
    requires After(steps, cap).Some? && k < |steps| && steps[k] == Write(c, ok)
    ensures var s, t := Before(steps, k, cap), Before(steps, k + 1, cap);
            && c < |s.loops| && c < |t.loops| && s.loops[c].pc.Numbered?
            && t.loops[c].pc == (if ok then Top else Left(WriteError))
            && t.loops[c].sent == s.loops[c].sent + if ok then [Sent(s.loops[c].pc.m, s.loops[c].pc.id)] else []
  {
    RightAfter(steps, k, c, cap);
  }

  /** The id a loop loads is the number of adds so far, whoever made them. */
  lemma LoadNumbers(steps: seq<Step>, c: nat, m: nat, k: nat, cap: nat)
    requires After(steps, cap).Some? && k < |steps| && steps[k] == LoadId(c, m)
    ensures var t := Before(steps, k + 1, cap);
            c < |t.loops| && t.loops[c].pc == Numbered(m, Adds(steps[..k]) % TWO_64)
  {
    RightAfter(steps, k, c, cap);
  }

  /** A loop gives way exactly when the number of a client connected after its own is current. */
  lemma YieldLeavesIff(steps: seq<Step>, c: nat, k: nat, cap: nat)
    requires After(steps, cap).Some? && k < |steps| && steps[k] == Yield(c)
    ensures var n, t := Connects(steps[..k]), Before(steps, k + 1, cap);
            && c < n && c < |t.loops|
            && t.loops[c].pc == if n % TWO_64 == (c + 1) % TWO_64 then Top else Left(TookOver)
  {
    RightAfter(steps, k, c, cap);
  }

  /** Below 2^64 clients: exactly when a client has connected after its own. */
  lemma YieldsToNewer(steps: seq<Step>, c: nat, k: nat, cap: nat)
    requires After(steps, cap).Some? && k < |steps| && steps[k] == Yield(c) && Connects(steps[..k]) < TWO_64
    ensures var t := Before(steps, k + 1, cap);
            c < |t.loops| && t.loops[c].pc == if c + 1 < Connects(steps[..k]) then Left(TookOver) else Top
  {
    YieldLeavesIff(steps, c, k, cap);
    SameNumberIff(Connects(steps[..k]), c);
  }

  lemma SameNumberIff(connects: nat, c: nat)
    requires c < connects < TWO_64
    ensures connects % TWO_64 == (c + 1) % TWO_64 <==> connects <= c + 1
  {
    assert connects % TWO_64 == connects && (c + 1) % TWO_64 == c + 1;
  }

  lemma OffStep(s: Feed, x: Step, c: nat, cap: nat)
    requires Enabled(s, x, cap) && !s.record && x != Record(true)
    ensures !Do(s, x, cap).record
    ensures At(Do(s, x, cap), c, Select) ==> At(s, c, Select) && x != Take(c)
    ensures x == Take(c) ==> At(s, c, Select)
  {
  }

  lemma {:induction false} OffForGoodKeeps(steps: seq<Step>, more: seq<Step>, c: nat, cap: nat)
    requires After(steps, cap).Some? && After(steps + more, cap).Some?
    requires !Recording(steps) && Record(true) !in more
    ensures !After(steps + more, cap).value.record
    ensures Count(more, Take(c)) + (if At(After(steps + more, cap).value, c, Select) then 1 else 0)
            <= if At(After(steps, cap).value, c, Select) then 1 else 0
    decreases |more|
  {
    RunSays(steps, cap);
    if more == [] {
      assert steps + more == steps;
    } else {
      var shorter, x := more[..|more| - 1], more[|more| - 1];
      assert (steps + more)[..|steps + more| - 1] == steps + shorter;
      OffForGoodKeeps(steps, shorter, c, cap);
      OffStep(After(steps + shorter, cap).value, x, c, cap);
    }
  }

  /** Once recording is off for good, a loop takes at most the one message it was already selecting for. */
  lemma OffForGood(steps: seq<Step>, more: seq<Step>, c: nat, cap: nat)
    requires After(steps, cap).Some? && After(steps + more, cap).Some?
    requires !Recording(steps) && Record(true) !in more
    ensures Count(more, Take(c)) <= if At(After(steps, cap).value, c, Select) then 1 else 0
  {
    OffForGoodKeeps(steps, more, c, cap);
  }

  // ---- Where the HTTP messages go ----

  /** The HTTP messages among those a loop took. */
  function HttpAmong(taken: seq<nat>, arrivals: seq<Kind>): seq<nat> {
    if taken == [] then []
    else
      var m := taken[|taken| - 1];
      HttpAmong(taken[..|taken| - 1], arrivals) + if m < |arrivals| && arrivals[m].Http? then [m] else []
  }

  lemma {:induction false} LaterArrivals(taken: seq<nat>, arrivals: seq<Kind>, kind: Kind)
    requires forall i | 0 <= i < |taken| :: taken[i] < |arrivals|
    ensures HttpAmong(taken, arrivals + [kind]) == HttpAmong(taken, arrivals)
  {
    if taken != [] { LaterArrivals(taken[..|taken| - 1], arrivals, kind); }
  }

  function Messages(sent: seq<Sent>): seq<nat> {
    seq(|sent|, i requires 0 <= i < |sent| => sent[i].m)
  }

  /** The message a loop has in hand, or lost to the write error it left on; `hand` names it. */
  ghost predicate InHand(pc: Pc, hand: seq<nat>) {
    match pc
    case Got(m) => hand == [m]
    case Added(m) => hand == [m]
    case Numbered(m, _) => hand == [m]
    case Left(why) => |hand| == if why.WriteError? then 1 else 0
    case _ => hand == []
  }

  ghost predicate Accounted(s: Feed, c: nat, hand: seq<nat>)
    requires c < |s.loops|
  {
    InHand(s.loops[c].pc, hand) && HttpAmong(s.loops[c].taken, s.arrivals) == Messages(s.loops[c].sent) + hand
  }

  lemma AccountedTake(s: Feed, c: nat, hand: seq<nat>, cap: nat) returns (hand': seq<nat>)
    requires Enabled(s, Take(c), cap) && Accounted(s, c, hand)
    ensures Accounted(Do(s, Take(c), cap), c, hand')
  {
    var taken := s.loops[c].taken;
    assert (taken + [s.head])[..|taken|] == taken;
    hand' := if s.arrivals[s.head].Http? then [s.head] else [];
    assert Messages(s.loops[c].sent) + [] == Messages(s.loops[c].sent);
  }

  lemma AccountedStep(s: Feed, x: Step, c: nat, hand: seq<nat>, cap: nat) returns (hand': seq<nat>)
    requires Enabled(s, x, cap) && c < |s.loops| && Accounted(s, c, hand)
    requires forall i | 0 <= i < |s.loops[c].taken| :: s.loops[c].taken[i] < |s.arrivals|
    ensures Accounted(Do(s, x, cap), c, hand')
  {
    hand' := hand;
    if x == Take(c) {
      hand' := AccountedTake(s, c, hand, cap);
    } else if x == Write(c, true) {
      hand' := [];
      var sent := s.loops[c].sent;
      assert Messages(sent + [Sent(s.loops[c].pc.m, s.loops[c].pc.id)]) == Messages(sent) + [s.loops[c].pc.m] + [];
    } else if x.Arrive? {
      LaterArrivals(s.loops[c].taken, s.arrivals, x.kind);
    } else if !ByLoop(x, c) && c < |s.loops| {
      assert Do(s, x, cap).loops[c] == s.loops[c];
    }
  }

  /**
   Every HTTP message a loop took was sent to its client, in the order taken, or is the one it has in hand, or
   the one lost to the write error the loop left on.
   */
  lemma {:induction false} HttpAccounted(steps: seq<Step>, c: nat, cap: nat) returns (hand: seq<nat>)
    requires After(steps, cap).Some? && c < |After(steps, cap).value.loops|
    ensures var l := After(steps, cap).value.loops[c];
            && HttpAmong(TakenBy(steps, c), Arrived(steps)) == Messages(l.sent) + hand
            && match l.pc
               case Got(m) => hand == [m]
               case Added(m) => hand == [m]
               case Numbered(m, _) => hand == [m]
               case Left(WriteError) => |hand| == 1
               case _ => hand == []
  {
    hand := RunAccounted(steps, c, cap);
    TakenAre(steps, cap);
  }

  lemma {:induction false} RunAccounted(steps: seq<Step>, c: nat, cap: nat) returns (hand: seq<nat>)
    requires After(steps, cap).Some? && c < |After(steps, cap).value.loops|
    ensures Accounted(After(steps, cap).value, c, hand)
  {
    var front, x := steps[..|steps| - 1], steps[|steps| - 1];
    var s := After(front, cap).value;
    if c < |s.loops| {
      hand := RunAccounted(front, c, cap);
      TakeInvHolds(front, cap);
      assert TakenOk(s, c);
      hand := AccountedStep(s, x, c, hand, cap);
    } else {
      hand := [];
    }
  }
}
