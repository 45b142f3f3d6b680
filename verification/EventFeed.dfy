/**
 The live feed behind `/event`: any number of event loops take captured messages from one
 bounded channel, number the HTTP ones in two steps (atomic add, then load), write them to
 their own client, and give way to newer clients.

 A goroutine is a program counter, the channel is the unread tail of `arrivals`, and a run
 is the list of atomic steps in the order they happened.
 */
module EventFeed {
  import opened Prelude
  import opened Ticket

  datatype Kind = Http | Sse | WebSocket

  datatype Reason = RecordOff | WriteError | TookOver

  datatype Pc =
    | Top                       // about to test `record`
    | Select                    // about to take from the channel or see it empty
    | Polled                    // saw the channel empty, about to compare client numbers
    | Got(m: nat)               // holds HTTP message m, about to add
    | Added(m: nat)             // has added, about to load the id
    | Numbered(m: nat, id: nat) // about to write
    | Left(why: Reason)

  datatype Sent = Sent(m: nat, id: nat)

  /** One connected client. Messages are named by their position in `arrivals`; `taken` is history. */
  datatype Loop = Loop(number: nat, pc: Pc, sent: seq<Sent>, taken: seq<nat>)

  datatype Feed = Feed(record: bool, id: nat, client: nat, loops: seq<Loop>,
                       arrivals: seq<Kind>, head: nat, adds: nat)

  datatype Step =
    | Connect
    | Check(c: nat)
    | Take(c: nat)
    | PollEmpty(c: nat)
    | Yield(c: nat)
    | AddId(c: nat, m: nat)
    | LoadId(c: nat, m: nat)
    | Write(c: nat, ok: bool)
    | Arrive(kind: Kind)
    | Record(on: bool)

  const INIT := Feed(true, 0, 0, [], [], 0, 0)

  /** The capacity the program gives the channel. */
  const CAPACITY := 10240

  predicate At(s: Feed, c: nat, pc: Pc) { c < |s.loops| && s.loops[c].pc == pc }

  predicate Enabled(s: Feed, x: Step, cap: nat) {
    match x
    case Connect => true
    case Check(c) => At(s, c, Top)
    case Take(c) => At(s, c, Select) && s.head < |s.arrivals|
    case PollEmpty(c) => At(s, c, Select) && s.head >= |s.arrivals|
    case Yield(c) => At(s, c, Polled)
    case AddId(c, m) => At(s, c, Got(m))
    case LoadId(c, m) => At(s, c, Added(m))
    case Write(c, _) => c < |s.loops| && s.loops[c].pc.Numbered?
    case Arrive(_) => |s.arrivals| < s.head + cap
    case Record(_) => true
  }

  function Goto(s: Feed, c: nat, pc: Pc): Feed
    requires c < |s.loops|
  {
    s.(loops := s.loops[c := s.loops[c].(pc := pc)])
  }

  function Do(s: Feed, x: Step, cap: nat): Feed
    requires Enabled(s, x, cap)
  {
    match x
    case Connect =>
      var number := (s.client + 1) % TWO_64;
      s.(client := number, loops := s.loops + [Loop(number, Top, [], [])])
    case Check(c) => Goto(s, c, if s.record then Select else Left(RecordOff))
    case Take(c) =>
      var pc := if s.arrivals[s.head].Http? then Got(s.head) else Top;
      s.(loops := s.loops[c := s.loops[c].(pc := pc, taken := s.loops[c].taken + [s.head])], head := s.head + 1)
    case PollEmpty(c) => Goto(s, c, Polled)
    case Yield(c) => Goto(s, c, if s.loops[c].number != s.client then Left(TookOver) else Top)
    case AddId(c, m) => Goto(s, c, Added(m)).(id := (s.id + 1) % TWO_64, adds := s.adds + 1)
    case LoadId(c, m) => Goto(s, c, Numbered(m, s.id))
    case Write(c, ok) =>
      if ok then
        var l := s.loops[c];
        s.(loops := s.loops[c := l.(pc := Top, sent := l.sent + [Sent(l.pc.m, l.pc.id)])])
      else Goto(s, c, Left(WriteError))
    case Arrive(kind) => s.(arrivals := s.arrivals + [kind])
    case Record(on) => s.(record := on)
  }

  /** The state after a run, or None when some step was not possible. */
  function After(steps: seq<Step>, cap: nat): Option<Feed> {
    if steps == [] then Some(INIT)
    else
      var prev := After(steps[..|steps| - 1], cap);
      var x := steps[|steps| - 1];
      if prev.Some? && Enabled(prev.value, x, cap) then Some(Do(prev.value, x, cap)) else None
  }

  function TickOf(x: Step): Tick {
    match x
    case AddId(_, m) => Add(m)
    case LoadId(_, m) => Load(m)
    case _ => Idle
  }

  /** The counter traffic of a run; a message stands for the one numbering it receives. */
  function Ticks(steps: seq<Step>): seq<Tick> {
    seq(|steps|, i requires 0 <= i < |steps| => TickOf(steps[i]))
  }

  /** HTTP messages taken off the channel so far. */
  function HttpTaken(s: Feed): set<nat> {
    set m | 0 <= m < s.head && m < |s.arrivals| && s.arrivals[m].Http?
  }

  predicate Increasing(a: seq<nat>) {
    forall i, j | 0 <= i < j < |a| :: a[i] < a[j]
  }

  predicate IdsIncrease(sent: seq<Sent>) {
    forall i, j | 0 <= i < j < |sent| :: sent[i].id < sent[j].id
  }

  predicate AllBelow(sent: seq<Sent>, bound: nat) {
    forall i | 0 <= i < |sent| :: sent[i].id < bound
  }

  // ---- Who took what ----

  ghost predicate Holding(pc: Pc) { pc.Got? || pc.Added? || pc.Numbered? }

  ghost predicate TakenOk(s: Feed, c: nat)
    requires c < |s.loops|
  {
    var l := s.loops[c];
    && Increasing(l.taken)
    && (forall i | 0 <= i < |l.taken| :: l.taken[i] < s.head)
    && (Holding(l.pc) ==> l.pc.m in l.taken && l.pc.m in HttpTaken(s))
    && (forall i | 0 <= i < |l.sent| :: l.sent[i].m in l.taken)
  }

  ghost predicate Disjoint(s: Feed) {
    forall c, d | 0 <= c < d < |s.loops| :: forall m | m in s.loops[c].taken :: m !in s.loops[d].taken
  }

  ghost predicate TakeInv(s: Feed) {
    && s.head <= |s.arrivals|
    && Disjoint(s)
    && forall c | 0 <= c < |s.loops| :: TakenOk(s, c)
  }

  lemma TakenKeptOther(s: Feed, x: Step, c: nat, cap: nat)
    requires TakeInv(s) && Enabled(s, x, cap) && c < |s.loops|
    requires x.Connect? || x.Arrive? || x.Record? || x.c != c
    ensures TakenOk(Do(s, x, cap), c)
  {
    assert TakenOk(s, c);
    assert Do(s, x, cap).loops[c] == s.loops[c];
    assert HttpTaken(s) <= HttpTaken(Do(s, x, cap));
  }

  lemma TakenKeptTake(s: Feed, c: nat, cap: nat)
    requires TakeInv(s) && Enabled(s, Take(c), cap)
    ensures TakenOk(Do(s, Take(c), cap), c)
  {
    assert TakenOk(s, c);
    var grown := s.loops[c].taken + [s.head];
    assert forall m | m in s.loops[c].taken :: m in grown;
    assert s.head in grown;
  }

  lemma TakenKeptSelf(s: Feed, x: Step, cap: nat)
    requires TakeInv(s) && Enabled(s, x, cap)
    requires !x.Connect? && !x.Arrive? && !x.Record? && !x.Take?
    ensures TakenOk(Do(s, x, cap), x.c)
  {
    assert TakenOk(s, x.c);
    assert HttpTaken(s) == HttpTaken(Do(s, x, cap));
  }

  lemma TakenKept(s: Feed, x: Step, c: nat, cap: nat)
    requires TakeInv(s) && Enabled(s, x, cap) && c < |s.loops|
    ensures TakenOk(Do(s, x, cap), c)
  {
    if x.Connect? || x.Arrive? || x.Record? || x.c != c {
      TakenKeptOther(s, x, c, cap);
    } else if x.Take? {
      TakenKeptTake(s, c, cap);
    } else {
      TakenKeptSelf(s, x, cap);
    }
  }

  lemma DisjointKept(s: Feed, x: Step, cap: nat)
    requires TakeInv(s) && Enabled(s, x, cap)
    ensures Disjoint(Do(s, x, cap))
  {
    var t := Do(s, x, cap);
    forall c, d | 0 <= c < d < |t.loops|
      ensures forall m | m in t.loops[c].taken :: m !in t.loops[d].taken
    {
      if d < |s.loops| {
        assert TakenOk(s, c) && TakenOk(s, d);
        if x.Take? && s.head in s.loops[c].taken { assert false; }
        if x.Take? && s.head in s.loops[d].taken { assert false; }
      }
    }
  }

  lemma {:induction false} TakeInvHolds(steps: seq<Step>, cap: nat)
    requires After(steps, cap).Some?
    ensures TakeInv(After(steps, cap).value)
  {
    if steps != [] {
      var front, x := steps[..|steps| - 1], steps[|steps| - 1];
      TakeInvHolds(front, cap);
      var s := After(front, cap).value;
      forall c | 0 <= c < |s.loops| ensures TakenOk(Do(s, x, cap), c) { TakenKept(s, x, c, cap); }
      DisjointKept(s, x, cap);
    }
  }

  /** Each queued message is taken by at most one loop, and by that loop at most once. */
  lemma TakenAtMostOnce(steps: seq<Step>, c: nat, i: nat, d: nat, j: nat, cap: nat)
    requires After(steps, cap).Some?
    requires var s := After(steps, cap).value;
             c < |s.loops| && d < |s.loops| && i < |s.loops[c].taken| && j < |s.loops[d].taken|
             && s.loops[c].taken[i] == s.loops[d].taken[j]
    ensures c == d && i == j
  {
    TakeInvHolds(steps, cap);
    var s := After(steps, cap).value;
    assert TakenOk(s, c) && TakenOk(s, d);
    var m := s.loops[c].taken[i];
    assert m in s.loops[c].taken && m in s.loops[d].taken;
  }

  // ---- Numbering ----

  ghost predicate NumberOk(tr: seq<Tick>, s: Feed, c: nat)
    requires c < |s.loops|
  {
    var l := s.loops[c];
    && (l.pc.Got? ==> l.pc.m !in AddSet(tr))
    && (l.pc.Added? ==> l.pc.m in AddSet(tr) && l.pc.m !in LoadSet(tr) && AllBelow(l.sent, s.adds))
    && (l.pc.Numbered? ==> l.pc.m in LoadSet(tr) && l.pc.id == Drawn(tr, l.pc.m) <= s.adds && AllBelow(l.sent, l.pc.id))
    && IdsIncrease(l.sent)
    && AllBelow(l.sent, s.adds + 1)
    && (forall i | 0 <= i < |l.sent| ::
          l.sent[i].m in LoadSet(tr) && l.sent[i].id == Drawn(tr, l.sent[i].m))
  }

  ghost predicate NumberInv(tr: seq<Tick>, s: Feed) {
    && Disciplined(tr)
    && s.adds == Adds(tr) < TWO_64
    && s.id == s.adds
    && AddSet(tr) <= HttpTaken(s)
    && forall c | 0 <= c < |s.loops| :: NumberOk(tr, s, c)
  }

  /** No two loops hold the same message, so an add or load by one leaves the others as they were. */
  lemma HeldByOne(s: Feed, c: nat, d: nat)
    requires TakeInv(s) && c < |s.loops| && d < |s.loops| && c != d
    requires Holding(s.loops[c].pc) && Holding(s.loops[d].pc)
    ensures s.loops[c].pc.m != s.loops[d].pc.m
  {
    assert TakenOk(s, c) && TakenOk(s, d);
    assert s.loops[c].pc.m in s.loops[c].taken && s.loops[d].pc.m in s.loops[d].taken;
  }

  /** A tick for a message the loop does not hold leaves what is known of the loop. */
  lemma NumberStays(tr: seq<Tick>, s: Feed, tick: Tick, t: Feed, d: nat)
    requires d < |s.loops| == |t.loops| && t.loops[d] == s.loops[d] && NumberOk(tr, s, d) && s.adds <= t.adds
    requires tick.Idle? || (Holding(s.loops[d].pc) ==> tick.who != s.loops[d].pc.m)
    requires tick.Load? ==> tick.who !in LoadSet(tr)
    ensures NumberOk(tr + [tick], t, d)
  {
    Snoc(tr, tick);
  }

  lemma NumberKeptOther(tr: seq<Tick>, s: Feed, x: Step, d: nat, cap: nat)
    requires TakeInv(s) && NumberInv(tr, s) && Enabled(s, x, cap) && d < |s.loops|
    requires !x.Connect? && !x.Arrive? && !x.Record? && x.c != d
    ensures NumberOk(tr + [TickOf(x)], Do(s, x, cap), d)
  {
    assert NumberOk(tr, s, d) && NumberOk(tr, s, x.c);
    if Holding(s.loops[d].pc) && Holding(s.loops[x.c].pc) { HeldByOne(s, x.c, d); }
    NumberStays(tr, s, TickOf(x), Do(s, x, cap), d);
  }

  lemma NumberKeptDraw(tr: seq<Tick>, s: Feed, x: Step, cap: nat)
    requires TakeInv(s) && NumberInv(tr, s) && Enabled(s, x, cap) && (x.AddId? || x.LoadId?)
    requires Do(s, x, cap).adds < TWO_64
    ensures NumberOk(tr + [TickOf(x)], Do(s, x, cap), x.c)
  {
    assert NumberOk(tr, s, x.c);
    Snoc(tr, TickOf(x));
    if x.AddId? && x.m in LoadSet(tr) { LoadsAreAdded(tr, x.m); }
  }

  lemma NumberKeptWrite(tr: seq<Tick>, s: Feed, x: Step, cap: nat)
    requires TakeInv(s) && NumberInv(tr, s) && Enabled(s, x, cap) && x.Write?
    ensures NumberOk(tr + [TickOf(x)], Do(s, x, cap), x.c)
  {
    assert NumberOk(tr, s, x.c);
    Snoc(tr, Idle);
  }

  lemma NumberKeptSelf(tr: seq<Tick>, s: Feed, x: Step, cap: nat)
    requires TakeInv(s) && NumberInv(tr, s) && Enabled(s, x, cap)
    requires !x.Connect? && !x.Arrive? && !x.Record?
    requires Do(s, x, cap).adds < TWO_64
    ensures NumberOk(tr + [TickOf(x)], Do(s, x, cap), x.c)
  {
    if x.AddId? || x.LoadId? {
      NumberKeptDraw(tr, s, x, cap);
    } else if x.Write? {
      NumberKeptWrite(tr, s, x, cap);
    } else {
      assert NumberOk(tr, s, x.c);
      Snoc(tr, Idle);
      assert s.head !in HttpTaken(s);
    }
  }

  lemma DisciplineKept(tr: seq<Tick>, s: Feed, x: Step, cap: nat)
    requires TakeInv(s) && NumberInv(tr, s) && Enabled(s, x, cap)
    ensures Disciplined(tr + [TickOf(x)])
    ensures AddSet(tr + [TickOf(x)]) <= HttpTaken(Do(s, x, cap))
  {
    Snoc(tr, TickOf(x));
    assert HttpTaken(s) <= HttpTaken(Do(s, x, cap));
    if x.AddId? || x.LoadId? { assert NumberOk(tr, s, x.c) && TakenOk(s, x.c); }
  }

  lemma NumberKept(tr: seq<Tick>, s: Feed, x: Step, d: nat, cap: nat)
    requires TakeInv(s) && NumberInv(tr, s) && Enabled(s, x, cap)
    requires Do(s, x, cap).adds < TWO_64 && d < |Do(s, x, cap).loops|
    ensures NumberOk(tr + [TickOf(x)], Do(s, x, cap), d)
  {
    if x.Connect? || x.Arrive? || x.Record? {
      Snoc(tr, TickOf(x));
      if d < |s.loops| { assert NumberOk(tr, s, d); }
    } else if x.c == d {
      NumberKeptSelf(tr, s, x, cap);
    } else {
      NumberKeptOther(tr, s, x, d, cap);
    }
  }

  lemma NumberStep(tr: seq<Tick>, s: Feed, x: Step, cap: nat)
    requires TakeInv(s) && NumberInv(tr, s) && Enabled(s, x, cap) && Do(s, x, cap).adds < TWO_64
    ensures NumberInv(tr + [TickOf(x)], Do(s, x, cap))
  {
    var t := Do(s, x, cap);
    forall d | 0 <= d < |t.loops| ensures NumberOk(tr + [TickOf(x)], t, d) { NumberKept(tr, s, x, d, cap); }
    DisciplineKept(tr, s, x, cap);
    Snoc(tr, TickOf(x));
  }

  lemma {:induction false} NumberInvHolds(steps: seq<Step>, cap: nat)
    requires After(steps, cap).Some? && After(steps, cap).value.adds < TWO_64
    ensures NumberInv(Ticks(steps), After(steps, cap).value)
  {
    if steps != [] {
      var front, x := steps[..|steps| - 1], steps[|steps| - 1];
      NumberInvHolds(front, cap);
      TakeInvHolds(front, cap);
      assert Ticks(steps) == Ticks(front) + [TickOf(x)];
      NumberStep(Ticks(front), After(front, cap).value, x, cap);
    }
  }

  // ---- Main results on numbering ----

  /** On one client's stream the ids strictly increase, until the 64-bit counter wraps. */
  lemma StreamIdsIncrease(steps: seq<Step>, c: nat, cap: nat)
    requires After(steps, cap).Some? && After(steps, cap).value.adds < TWO_64
    requires c < |After(steps, cap).value.loops|
    ensures IdsIncrease(After(steps, cap).value.loops[c].sent)
  {
    NumberInvHolds(steps, cap);
    assert NumberOk(Ticks(steps), After(steps, cap).value, c);
  }

  /** Every id is positive and at most the number of HTTP messages taken from the channel. */
  lemma IdsBounded(steps: seq<Step>, c: nat, i: nat, cap: nat)
    requires After(steps, cap).Some? && After(steps, cap).value.adds < TWO_64
    requires c < |After(steps, cap).value.loops| && i < |After(steps, cap).value.loops[c].sent|
    ensures 1 <= After(steps, cap).value.loops[c].sent[i].id <= |HttpTaken(After(steps, cap).value)|
  {
    NumberInvHolds(steps, cap);
    var s, tr := After(steps, cap).value, Ticks(steps);
    assert NumberOk(tr, s, c);
    AddsCountCallers(tr);
    SubsetSize(AddSet(tr), HttpTaken(s));
    var a, b := LoadPosition(tr, s.loops[c].sent[i].m);
    DrawnBounds(tr, s.loops[c].sent[i].m, a);
  }

  lemma {:induction false} SubsetSize(a: set<nat>, b: set<nat>)
    requires a <= b
    ensures |a| <= |b|
  {
    if a != {} {
      var x :| x in a;
      SubsetSize(a - {x}, b - {x});
    }
  }

  /** Two different messages carry the same id only if the add of one fell between the add and the load of the other. */
  lemma SharedIdNeedsOverlap(steps: seq<Step>, c: nat, i: nat, d: nat, j: nat, cap: nat)
    requires After(steps, cap).Some? && After(steps, cap).value.adds < TWO_64
    requires var s := After(steps, cap).value;
             c < |s.loops| && d < |s.loops| && i < |s.loops[c].sent| && j < |s.loops[d].sent|
             && s.loops[c].sent[i].id == s.loops[d].sent[j].id && s.loops[c].sent[i].m != s.loops[d].sent[j].m
    ensures var s := After(steps, cap).value;
            Overlap(Ticks(steps), s.loops[c].sent[i].m, s.loops[d].sent[j].m)
  {
    NumberInvHolds(steps, cap);
    var s, tr := After(steps, cap).value, Ticks(steps);
    assert NumberOk(tr, s, c) && NumberOk(tr, s, d);
    DuplicateNeedsOverlap(tr, s.loops[c].sent[i].m, s.loops[d].sent[j].m);
  }

  /** The exact condition: the ids agree iff nobody adds between the two loads. */
  lemma SharedIdIffNoAddBetween(steps: seq<Step>, c: nat, i: nat, d: nat, j: nat, k1: nat, k2: nat, cap: nat)
    requires After(steps, cap).Some? && After(steps, cap).value.adds < TWO_64
    requires var s := After(steps, cap).value;
             c < |s.loops| && d < |s.loops| && i < |s.loops[c].sent| && j < |s.loops[d].sent|
             && k1 < k2 < |steps| && steps[k1] == LoadId(c, s.loops[c].sent[i].m)
                 && steps[k2] == LoadId(d, s.loops[d].sent[j].m)
    ensures var s := After(steps, cap).value;
            s.loops[c].sent[i].id == s.loops[d].sent[j].id <==> forall k | k1 < k < k2 :: !steps[k].AddId?
  {
    NumberInvHolds(steps, cap);
    var s, tr := After(steps, cap).value, Ticks(steps);
    assert NumberOk(tr, s, c) && NumberOk(tr, s, d);
    DuplicateIffNoAddBetween(tr, k1, k2);
    assert forall k | k1 < k < k2 :: tr[k].Add? <==> steps[k].AddId?;
  }

  // ---- A schedule that numbers two messages alike: both loops add before either loads ----

  const RACE_TAKEN: seq<Step> :=
    [Connect, Connect, Arrive(Http), Arrive(Http), Check(0), Check(1), Take(0), Take(1)]

  const RACE: seq<Step> :=
    RACE_TAKEN + [AddId(0, 0), AddId(1, 1), LoadId(0, 0), LoadId(1, 1), Write(0, true), Write(1, true)]

  lemma Extend(steps: seq<Step>, s: Feed, x: Step, cap: nat) returns (longer: seq<Step>, t: Feed)
    requires After(steps, cap) == Some(s) && Enabled(s, x, cap)
    ensures longer == steps + [x] && t == Do(s, x, cap) && After(longer, cap) == Some(t)
  {
    longer, t := steps + [x], Do(s, x, cap);
    assert (steps + [x])[..|steps|] == steps;
  }

  lemma RaceConnected(cap: nat) returns (p: seq<Step>)
    requires cap >= 2
    ensures p == [Connect, Connect, Arrive(Http), Arrive(Http)]
    ensures After(p, cap) == Some(Feed(true, 0, 2, [Loop(1, Top, [], []), Loop(2, Top, [], [])], [Http, Http], 0, 0))
  {
    var s := INIT;
    p := [];
    p, s := Extend(p, s, Connect, cap);
    p, s := Extend(p, s, Connect, cap);
    p, s := Extend(p, s, Arrive(Http), cap);
    p, s := Extend(p, s, Arrive(Http), cap);
    assert s.loops == [Loop(1, Top, [], []), Loop(2, Top, [], [])] && s.arrivals == [Http, Http];
  }

  lemma RaceTaken(cap: nat)
    requires cap >= 2
    ensures After(RACE_TAKEN, cap) ==
            Some(Feed(true, 0, 2, [Loop(1, Got(0), [], [0]), Loop(2, Got(1), [], [1])], [Http, Http], 2, 0))
  {
    var p := RaceConnected(cap);
    var s := After(p, cap).value;
    p, s := Extend(p, s, Check(0), cap);
    p, s := Extend(p, s, Check(1), cap);
    assert s.loops == [Loop(1, Select, [], []), Loop(2, Select, [], [])];
    assert [] + [0] == [0] && [] + [1] == [1];
    p, s := Extend(p, s, Take(0), cap);
    assert s.loops == [Loop(1, Got(0), [], [0]), Loop(2, Select, [], [])];
    p, s := Extend(p, s, Take(1), cap);
    assert s.loops == [Loop(1, Got(0), [], [0]), Loop(2, Got(1), [], [1])];
    assert p == RACE_TAKEN;
  }

  lemma RaceAdded(cap: nat) returns (p: seq<Step>)
    requires cap >= 2
    ensures p == RACE_TAKEN + [AddId(0, 0), AddId(1, 1)]
    ensures After(p, cap) ==
            Some(Feed(true, 2, 2, [Loop(1, Added(0), [], [0]), Loop(2, Added(1), [], [1])], [Http, Http], 2, 2))
  {
    RaceTaken(cap);
    var s := After(RACE_TAKEN, cap).value;
    p := RACE_TAKEN;
    p, s := Extend(p, s, AddId(0, 0), cap);
    assert s.loops == [Loop(1, Added(0), [], [0]), Loop(2, Got(1), [], [1])];
    p, s := Extend(p, s, AddId(1, 1), cap);
    assert s.loops == [Loop(1, Added(0), [], [0]), Loop(2, Added(1), [], [1])];
  }

  lemma RaceNumbered(cap: nat) returns (p: seq<Step>)
    requires cap >= 2
    ensures p == RACE_TAKEN + [AddId(0, 0), AddId(1, 1), LoadId(0, 0), LoadId(1, 1)]
    ensures After(p, cap) ==
            Some(Feed(true, 2, 2, [Loop(1, Numbered(0, 2), [], [0]), Loop(2, Numbered(1, 2), [], [1])],
                      [Http, Http], 2, 2))
  {
    p := RaceAdded(cap);
    var s := After(p, cap).value;
    p, s := Extend(p, s, LoadId(0, 0), cap);
    assert s.loops == [Loop(1, Numbered(0, 2), [], [0]), Loop(2, Added(1), [], [1])];
    p, s := Extend(p, s, LoadId(1, 1), cap);
    assert s.loops == [Loop(1, Numbered(0, 2), [], [0]), Loop(2, Numbered(1, 2), [], [1])];
  }

  /** Two clients each receive a message numbered 2, and no message is numbered 1. */
  lemma SharedIdWitness(cap: nat)
    requires cap >= 2
    ensures After(RACE, cap).Some?
    ensures var s := After(RACE, cap).value;
            |s.loops| == 2 && s.loops[0].sent == [Sent(0, 2)] && s.loops[1].sent == [Sent(1, 2)]
  {
    var p := RaceNumbered(cap);
    var s := After(p, cap).value;
    p, s := Extend(p, s, Write(0, true), cap);
    p, s := Extend(p, s, Write(1, true), cap);
    assert p == RACE;
  }

  // ---- Leaving and taking over ----

  ghost predicate ClientInv(s: Feed) {
    && s.client == |s.loops| % TWO_64
    && forall c | 0 <= c < |s.loops| :: s.loops[c].number == (c + 1) % TWO_64
  }

  lemma WrapsAgree(n: nat)
    ensures (n % TWO_64 + 1) % TWO_64 == (n + 1) % TWO_64
  {
  }

  lemma ClientStep(s: Feed, x: Step, cap: nat)
    requires ClientInv(s) && Enabled(s, x, cap)
    ensures ClientInv(Do(s, x, cap))
  {
    WrapsAgree(|s.loops|);
  }

  lemma {:induction false} ClientInvHolds(steps: seq<Step>, cap: nat)
    requires After(steps, cap).Some?
    ensures ClientInv(After(steps, cap).value)
  {
    if steps != [] {
      var front := steps[..|steps| - 1];
      ClientInvHolds(front, cap);
      ClientStep(After(front, cap).value, steps[|steps| - 1], cap);
    }
  }

  /** The state just before step k of a run. */
  function Before(steps: seq<Step>, k: nat, cap: nat): Feed
    requires After(steps, cap).Some? && k <= |steps|
  {
    PrefixRuns(steps, k, cap);
    After(steps[..k], cap).value
  }

  lemma {:induction false} PrefixRuns(steps: seq<Step>, k: nat, cap: nat)
    requires After(steps, cap).Some? && k <= |steps|
    ensures After(steps[..k], cap).Some?
    ensures k < |steps| ==>
              && Enabled(After(steps[..k], cap).value, steps[k], cap)
              && After(steps[..k + 1], cap) == Some(Do(After(steps[..k], cap).value, steps[k], cap))
    decreases |steps|
  {
    assert steps[..|steps|] == steps;
    if k < |steps| {
      var front := steps[..|steps| - 1];
      PrefixRuns(front, k, cap);
      assert front[..k] == steps[..k];
      if k < |front| { assert front[..k + 1] == steps[..k + 1]; }
    }
  }

  lemma BeforeFront(steps: seq<Step>, k: nat, cap: nat)
    requires After(steps, cap).Some? && k < |steps|
    ensures After(steps[..|steps| - 1], cap).Some? && Before(steps[..|steps| - 1], k, cap) == Before(steps, k, cap)
  {
    assert steps[..|steps| - 1][..k] == steps[..k];
  }

  /** A step of the loop of client c. */
  predicate ByLoop(x: Step, c: nat) { !x.Connect? && !x.Arrive? && !x.Record? && x.c == c }

  /** Why a loop that is still running can be gone after one step. */
  lemma LeaveReason(s: Feed, x: Step, c: nat, cap: nat)
    requires Enabled(s, x, cap) && !(c < |s.loops| && s.loops[c].pc.Left?)
    requires c < |Do(s, x, cap).loops| && Do(s, x, cap).loops[c].pc.Left?
    ensures c < |s.loops|
    ensures match Do(s, x, cap).loops[c].pc.why
            case RecordOff => x == Check(c) && !s.record
            case WriteError => x == Write(c, false)
            case TookOver => x == Yield(c) && s.client != s.loops[c].number
  {
  }

  /** Step k compares client numbers right after the loop's own step e found the channel empty, and finds another. */
  ghost predicate TakenOver(steps: seq<Step>, c: nat, e: nat, k: nat, cap: nat)
    requires After(steps, cap).Some? && k < |steps|
  {
    && c < |Before(steps, k, cap).loops|
    && steps[k] == Yield(c) && Before(steps, k, cap).client != Before(steps, k, cap).loops[c].number
    && (|Before(steps, k, cap).loops| < TWO_64 ==> Before(steps, k, cap).client > Before(steps, k, cap).loops[c].number)
    && e < k && steps[e] == PollEmpty(c) && Before(steps, e, cap).head >= |Before(steps, e, cap).arrivals|
    && forall j | e < j < k :: !ByLoop(steps[j], c)
  }

  lemma JustTakenOver(steps: seq<Step>, c: nat, k: nat, cap: nat) returns (e: nat)
    requires After(steps, cap).Some? && k < |steps| && steps[k] == Yield(c)
    requires var s := Before(steps, k, cap); c < |s.loops| && s.client != s.loops[c].number
    ensures TakenOver(steps, c, e, k, cap)
  {
    PrefixRuns(steps, k, cap);
    var front, s := steps[..k], Before(steps, k, cap);
    e := PolledBecauseEmpty(front, c, cap);
    assert front[..e] == steps[..e] && steps[e] == front[e];
    forall j | e < j < k ensures !ByLoop(steps[j], c) { assert steps[j] == front[j]; }
    ClientInvHolds(front, cap);
    if |s.loops| < TWO_64 { NewerIfDifferent(s, c); }
  }

  lemma NewerIfDifferent(s: Feed, c: nat)
    requires ClientInv(s) && c < |s.loops| < TWO_64
    ensures s.client != s.loops[c].number ==> s.client > s.loops[c].number
  {
    assert (c + 1) % TWO_64 == c + 1 && |s.loops| % TWO_64 == |s.loops|;
  }

  lemma LeftStays(s: Feed, x: Step, c: nat, cap: nat)
    requires Enabled(s, x, cap) && c < |s.loops| && s.loops[c].pc.Left?
    ensures c < |Do(s, x, cap).loops| && Do(s, x, cap).loops[c].pc == s.loops[c].pc
  {
  }

  /** The step with which a loop that has left did so. */
  lemma {:induction false} LeavingStep(steps: seq<Step>, c: nat, cap: nat) returns (k: nat)
    requires After(steps, cap).Some? && c < |After(steps, cap).value.loops| && After(steps, cap).value.loops[c].pc.Left?
    ensures k < |steps| && c < |Before(steps, k, cap).loops| && !Before(steps, k, cap).loops[c].pc.Left?
    ensures var t := Before(steps, k + 1, cap);
            c < |t.loops| && t.loops[c].pc == After(steps, cap).value.loops[c].pc
    decreases |steps|
  {
    var front, x := steps[..|steps| - 1], steps[|steps| - 1];
    var s := After(front, cap).value;
    if c < |s.loops| && s.loops[c].pc.Left? {
      k := LeavingStep(front, c, cap);
      BeforeFront(steps, k, cap);
      BeforeFront(steps, k + 1, cap);
      LeftStays(s, x, c, cap);
    } else {
      k := |steps| - 1;
      assert steps[..k + 1] == steps;
      LeaveReason(s, x, c, cap);
    }
  }

  /**
   A loop that has left did so for one of three reasons: recording was off, its client could not be written to,
   or it had found the channel empty in its step before and a different client number was current when it
   compared: the number of a newer client, as long as the numbers have not wrapped.
   */
  lemma LeavesOnlyFor(steps: seq<Step>, c: nat, cap: nat) returns (e: nat, k: nat)
    requires After(steps, cap).Some? && c < |After(steps, cap).value.loops| && After(steps, cap).value.loops[c].pc.Left?
    ensures k < |steps| && c < |Before(steps, k, cap).loops| && !Before(steps, k, cap).loops[c].pc.Left?
    ensures match After(steps, cap).value.loops[c].pc.why
            case RecordOff => steps[k] == Check(c) && !Before(steps, k, cap).record
            case WriteError => steps[k] == Write(c, false)
            case TookOver => TakenOver(steps, c, e, k, cap)
  {
    k := LeavingStep(steps, c, cap);
    e := 0;
    PrefixRuns(steps, k, cap);
    LeaveReason(Before(steps, k, cap), steps[k], c, cap);
    if steps[k] == Yield(c) { e := JustTakenOver(steps, c, k, cap); }
  }

  lemma OnlyYieldFromPolled(s: Feed, x: Step, c: nat, cap: nat)
    requires Enabled(s, x, cap) && At(Do(s, x, cap), c, Polled) && x != PollEmpty(c)
    ensures At(s, c, Polled) && !ByLoop(x, c)
  {
  }

  lemma NoneBehind(front: seq<Step>, x: Step, e: nat, c: nat)
    requires e < |front| && !ByLoop(x, c) && forall j | e < j < |front| :: !ByLoop(front[j], c)
    ensures var all := front + [x]; all[e] == front[e] && forall j | e < j < |all| :: !ByLoop(all[j], c)
  {
  }

  lemma {:induction false} PolledBecauseEmpty(steps: seq<Step>, c: nat, cap: nat) returns (e: nat)
    requires After(steps, cap).Some? && At(After(steps, cap).value, c, Polled)
    ensures e < |steps| && steps[e] == PollEmpty(c)
    ensures Before(steps, e, cap).head >= |Before(steps, e, cap).arrivals|
    ensures forall j | e < j < |steps| :: !ByLoop(steps[j], c)
    decreases |steps|
  {
    var front, x := steps[..|steps| - 1], steps[|steps| - 1];
    if x == PollEmpty(c) {
      assert steps[..|steps| - 1] == front;
      e := |steps| - 1;
    } else {
      OnlyYieldFromPolled(After(front, cap).value, x, c, cap);
      e := PolledBecauseEmpty(front, c, cap);
      BeforeFront(steps, e, cap);
      NoneBehind(front, x, e, c);
      assert steps == front + [x];
    }
  }

  lemma NewestStep(s: Feed, x: Step, cap: nat)
    requires ClientInv(s) && Enabled(s, x, cap)
    requires |s.loops| > 0 ==> s.loops[|s.loops| - 1].pc != Left(TookOver)
    ensures var t := Do(s, x, cap); |t.loops| > 0 ==> t.loops[|t.loops| - 1].pc != Left(TookOver)
  {
  }

  /** The newest client never leaves by take-over. */
  lemma {:induction false} NewestNeverYields(steps: seq<Step>, cap: nat)
    requires After(steps, cap).Some?
    ensures var s := After(steps, cap).value; |s.loops| > 0 ==> s.loops[|s.loops| - 1].pc != Left(TookOver)
  {
    if steps != [] {
      var front := steps[..|steps| - 1];
      ClientInvHolds(front, cap);
      NewestNeverYields(front, cap);
      NewestStep(After(front, cap).value, steps[|steps| - 1], cap);
    }
  }

  /** A loop that leaves stays away. */
  lemma {:induction false} LeftForGood(steps: seq<Step>, more: seq<Step>, c: nat, cap: nat)
    requires After(steps + more, cap).Some? && After(steps, cap).Some?
    requires c < |After(steps, cap).value.loops| && After(steps, cap).value.loops[c].pc.Left?
    ensures c < |After(steps + more, cap).value.loops|
    ensures After(steps + more, cap).value.loops[c].pc == After(steps, cap).value.loops[c].pc
    decreases |more|
  {
    if more == [] {
      assert steps + more == steps;
    } else {
      var shorter := more[..|more| - 1];
      assert (steps + more)[..|steps + more| - 1] == steps + shorter;
      LeftForGood(steps, shorter, c, cap);
    }
  }

  lemma {:induction false} NoConnectKeepsClients(steps: seq<Step>, more: seq<Step>, cap: nat)
    requires After(steps + more, cap).Some? && forall x | x in more :: !x.Connect?
    ensures After(steps, cap).Some? && |After(steps + more, cap).value.loops| == |After(steps, cap).value.loops|
    decreases |more|
  {
    if more == [] {
      assert steps + more == steps;
    } else {
      var shorter := more[..|more| - 1];
      assert (steps + more)[..|steps + more| - 1] == steps + shorter;
      NoConnectKeepsClients(steps, shorter, cap);
    }
  }

  lemma OlderLoopYields(s: Feed, c: nat, cap: nat)
    requires ClientInv(s) && Enabled(s, Yield(c), cap) && c + 1 < |s.loops| < TWO_64
    ensures Do(s, Yield(c), cap).loops[c].pc == Left(TookOver)
  {
    assert (c + 1) % TWO_64 == c + 1;
    assert |s.loops| % TWO_64 == |s.loops|;
  }

  lemma SameClients(all: seq<Step>, i: nat, cap: nat)
    requires After(all, cap).Some? && i <= |all| && (forall x | x in all[i..] :: !x.Connect?)
    ensures After(all[..i], cap).Some? && |After(all[..i], cap).value.loops| == |After(all, cap).value.loops|
  {
    assert all[..i] + all[i..] == all;
    NoConnectKeepsClients(all[..i], all[i..], cap);
  }

  lemma StaysLeft(all: seq<Step>, i: nat, c: nat, cap: nat)
    requires After(all, cap).Some? && i <= |all| && After(all[..i], cap).Some?
    requires c < |After(all[..i], cap).value.loops| && After(all[..i], cap).value.loops[c].pc.Left?
    ensures c < |After(all, cap).value.loops| && After(all, cap).value.loops[c].pc.Left?
  {
    assert all[..i] + all[i..] == all;
    LeftForGood(all[..i], all[i..], c, cap);
  }

  lemma GoneFromThen(all: seq<Step>, i: nat, c: nat, cap: nat)
    requires After(all, cap).Some? && i < |all| && all[i] == Yield(c) && (forall x | x in all[i..] :: !x.Connect?)
    requires c + 1 < |After(all, cap).value.loops| < TWO_64
    ensures After(all, cap).value.loops[c].pc.Left?
  {
    PrefixRuns(all, i, cap);
    SameClients(all, i, cap);
    ClientInvHolds(all[..i], cap);
    OlderLoopYields(After(all[..i], cap).value, c, cap);
    StaysLeft(all, i + 1, c, cap);
  }

  /** An older loop that compares client numbers while no newcomer arrives is gone afterwards. */
  lemma YieldingLoopIsGone(steps: seq<Step>, more: seq<Step>, c: nat, k: nat, cap: nat)
    requires After(steps + more, cap).Some? && (forall x | x in more :: !x.Connect?)
    requires var n := |After(steps + more, cap).value.loops|; c < n - 1 && n < TWO_64
    requires k < |more| && more[k] == Yield(c)
    ensures c < |After(steps + more, cap).value.loops|
    ensures After(steps + more, cap).value.loops[c].pc.Left?
  {
    var all, i := steps + more, |steps| + k;
    assert all[i] == more[k] && all[i..] == more[k..];
    assert forall x | x in more[k..] :: x in more;
    GoneFromThen(all, i, c, cap);
  }

  /**
   Once every loop but the newest has found the channel empty and compared, with no newcomer
   meanwhile, at most the newest loop is still running.
   */
  lemma AtMostOneLoopRemains(steps: seq<Step>, more: seq<Step>, cap: nat)
    requires After(steps + more, cap).Some? && (forall x | x in more :: !x.Connect?)
    requires |After(steps + more, cap).value.loops| < TWO_64
    requires forall c | 0 <= c < |After(steps + more, cap).value.loops| - 1 ::
               After(steps + more, cap).value.loops[c].pc.Left? || Yield(c) in more
    ensures var s := After(steps + more, cap).value;
            forall c | 0 <= c < |s.loops| && !s.loops[c].pc.Left? :: c == |s.loops| - 1
  {
    var s := After(steps + more, cap).value;
    forall c | 0 <= c < |s.loops| && !s.loops[c].pc.Left? ensures c == |s.loops| - 1 {
      if c < |s.loops| - 1 {
        var k :| 0 <= k < |more| && more[k] == Yield(c);
        YieldingLoopIsGone(steps, more, c, k, cap);
      }
    }
  }

  // ---- The channel is bounded ----

  lemma {:induction false} ChannelBounded(steps: seq<Step>, cap: nat)
    requires After(steps, cap).Some?
    ensures var s := After(steps, cap).value; s.head <= |s.arrivals| <= s.head + cap
  {
    if steps != [] { ChannelBounded(steps[..|steps| - 1], cap); }
  }

  lemma {:induction false} NothingTaken(steps: seq<Step>, cap: nat)
    requires After(steps, cap).Some? && forall x | x in steps :: !x.Take?
    ensures After(steps, cap).value.head == 0
  {
    if steps != [] { NothingTaken(steps[..|steps| - 1], cap); }
  }

  /** While no loop takes from the channel, at most its capacity of captured exchanges gets past the send. */
  lemma CaptureStallsAtCapacity(steps: seq<Step>, cap: nat)
    requires After(steps, cap).Some? && forall x | x in steps :: !x.Take?
    ensures |After(steps, cap).value.arrivals| <= cap
    ensures |After(steps, cap).value.arrivals| == cap ==>
              forall kind :: !Enabled(After(steps, cap).value, Arrive(kind), cap)
  {
    ChannelBounded(steps, cap);
    NothingTaken(steps, cap);
  }

  /** In the program: with no client connected, at most 10240 exchanges are captured before the proxy blocks. */
  lemma AtMost10240Captured(steps: seq<Step>)
    requires After(steps, CAPACITY).Some? && forall x | x in steps :: !x.Connect?
    ensures |After(steps, CAPACITY).value.arrivals| <= 10240
  {
    NobodyTakes(steps, CAPACITY);
    CaptureStallsAtCapacity(steps, CAPACITY);
  }

  /** Without a client there is no loop, and so nothing is taken. */
  lemma {:induction false} NobodyTakes(steps: seq<Step>, cap: nat)
    requires After(steps, cap).Some? && forall x | x in steps :: !x.Connect?
    ensures After(steps, cap).value.loops == [] && forall x | x in steps :: !x.Take?
  {
    if steps != [] {
      var front := steps[..|steps| - 1];
      NobodyTakes(front, cap);
      assert steps == front + [steps[|steps| - 1]];
    }
  }
}
