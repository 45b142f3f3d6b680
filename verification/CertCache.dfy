/**
 Certificates minted on demand by `getCertificate`: a concurrent cache keyed by domain and
 a serial counter that is incremented atomically and then read in a separate step.

 Any number of calls run at once; every call is a program counter and a run is the list of
 steps the calls took, in order. Key generation and signing are a constructor recording
 what the certificate names and its serial number; both may fail.
 */
module CertCache {
  import opened Prelude
  import opened Ticket

  datatype Cert = Cert(commonName: string, dnsNames: seq<string>, ipNames: seq<string>, serial: int)

  datatype Pc = Loading | Missed | Added | Templated | Signed(cert: Cert) | Returned(cert: Cert) | Failed

  /** One call. `startedAt` and `drawn` are history: adds done before the call began, serial read. */
  datatype Call = Call(domain: string, pc: Pc, startedAt: nat, drawn: Option<int>)

  /** `storedBy` is history: which call put the cached certificate there. */
  datatype Server = Server(serialNumber: int, cache: map<string, Cert>, calls: seq<Call>,
                           adds: nat, storedBy: map<string, nat>)

  datatype Step =
    | Begin(domain: string)
    | Lookup(c: nat)
    | AddSerial(c: nat)
    | ReadSerial(c: nat)
    | Sign(c: nat, ok: bool)
    | Store(c: nat)

  const TWO_63 := 0x8000_0000_0000_0000

  /** Go's int64 increment wraps to the negative end. */
  function WrapInt64(n: int): int {
    (n + TWO_63) % TWO_64 - TWO_63
  }

  const INIT := Server(0, map[], [], 0, map[])

  predicate Enabled(s: Server, x: Step) {
    match x
    case Begin(_) => true
    case Lookup(c) => c < |s.calls| && s.calls[c].pc.Loading?
    case AddSerial(c) => c < |s.calls| && s.calls[c].pc.Missed?
    case ReadSerial(c) => c < |s.calls| && s.calls[c].pc.Added?
    case Sign(c, _) => c < |s.calls| && s.calls[c].pc.Templated?
    case Store(c) => c < |s.calls| && s.calls[c].pc.Signed?
  }

  function MakeCert(domain: string, serial: int, isIP: string -> bool): Cert {
    if isIP(domain) then Cert(domain, [], [domain], serial) else Cert(domain, [domain], [], serial)
  }

  function Goto(s: Server, c: nat, pc: Pc): Server
    requires c < |s.calls|
  {
    s.(calls := s.calls[c := s.calls[c].(pc := pc)])
  }

  function Do(s: Server, x: Step, isIP: string -> bool): Server
    requires Enabled(s, x)
  {
    match x
    case Begin(domain) =>
      s.(calls := s.calls + [Call(domain, Loading, s.adds, None)])
    case Lookup(c) =>
      var d := s.calls[c].domain;
      Goto(s, c, if d in s.cache then Returned(s.cache[d]) else Missed)
    case AddSerial(c) =>
      Goto(s, c, Added).(serialNumber := WrapInt64(s.serialNumber + 1), adds := s.adds + 1)
    case ReadSerial(c) =>
      s.(calls := s.calls[c := s.calls[c].(pc := Templated, drawn := Some(s.serialNumber))])
    case Sign(c, ok) =>
      if ok && s.calls[c].drawn.Some? then
        Goto(s, c, Signed(MakeCert(s.calls[c].domain, s.calls[c].drawn.value, isIP)))
      else
        Goto(s, c, Failed)
    case Store(c) =>
      var call := s.calls[c];
      Goto(s, c, Returned(call.pc.cert)).(cache := s.cache[call.domain := call.pc.cert],
                                         storedBy := s.storedBy[call.domain := c])
  }

  /** The state after a run, or None when some step was not possible. */
  function After(steps: seq<Step>, isIP: string -> bool): Option<Server> {
    if steps == [] then Some(INIT)
    else
      var prev := After(steps[..|steps| - 1], isIP);
      var x := steps[|steps| - 1];
      if prev.Some? && Enabled(prev.value, x) then Some(Do(prev.value, x, isIP)) else None
  }

  function TickOf(x: Step): Tick {
    match x
    case AddSerial(c) => Add(c)
    case ReadSerial(c) => Load(c)
    case _ => Idle
  }

  /** The counter traffic of a run. */
  function Ticks(steps: seq<Step>): seq<Tick> {
    seq(|steps|, i requires 0 <= i < |steps| => TickOf(steps[i]))
  }

  /** A certificate a browser accepts for the domain. */
  predicate Names(cert: Cert, domain: string, isIP: string -> bool) {
    cert.commonName == domain &&
    (if isIP(domain) then cert.ipNames == [domain] && cert.dnsNames == []
     else cert.dnsNames == [domain] && cert.ipNames == [])
  }

  predicate HoldsCert(pc: Pc) { pc.Signed? || pc.Returned? }

  // ---- The invariant of every run ----

  ghost predicate CallOk(tr: seq<Tick>, s: Server, c: nat, isIP: string -> bool)
    requires c < |s.calls|
  {
    var call := s.calls[c];
    && call.startedAt <= s.adds
    && (call.pc.Loading? || call.pc.Missed? ==> c !in AddSet(tr) && call.drawn.None?)
    && (call.pc.Added? || call.pc.Templated? || call.pc.Signed? ==> c in AddSet(tr))
    && (c in LoadSet(tr) <==> call.drawn.Some?)
    && (call.drawn.Some? ==> call.drawn.value == WrapInt64(Drawn(tr, c)) && call.startedAt < Drawn(tr, c) <= s.adds)
    && (call.pc.Added? ==> call.drawn.None? && call.startedAt < s.adds)
    && (call.pc.Templated? ==> call.drawn.Some?)
    && (HoldsCert(call.pc) ==> Names(call.pc.cert, call.domain, isIP))
    && (call.pc.Signed? ==> call.drawn == Some(call.pc.cert.serial))
  }

  ghost predicate StoredOk(s: Server, d: string)
    requires d in s.cache
  {
    d in s.storedBy && s.storedBy[d] < |s.calls| &&
    s.calls[s.storedBy[d]].domain == d && s.calls[s.storedBy[d]].drawn == Some(s.cache[d].serial)
  }

  ghost predicate Inv(tr: seq<Tick>, s: Server, isIP: string -> bool) {
    && Disciplined(tr)
    && s.adds == Adds(tr)
    && s.serialNumber == WrapInt64(s.adds)
    && (forall w | w in AddSet(tr) :: w < |s.calls|)
    && (forall c | 0 <= c < |s.calls| :: CallOk(tr, s, c, isIP))
    && (forall d | d in s.cache :: Names(s.cache[d], d, isIP) && StoredOk(s, d))
  }

  lemma CallKept(tr: seq<Tick>, s: Server, x: Step, c: nat, isIP: string -> bool)
    requires Inv(tr, s, isIP) && Enabled(s, x) && c < |s.calls|
    ensures CallOk(tr + [TickOf(x)], Do(s, x, isIP), c, isIP)
  {
    Snoc(tr, TickOf(x));
    assert CallOk(tr, s, c, isIP);
  }

  lemma NewCallOk(tr: seq<Tick>, s: Server, x: Step, isIP: string -> bool)
    requires Inv(tr, s, isIP) && x.Begin?
    ensures CallOk(tr + [TickOf(x)], Do(s, x, isIP), |s.calls|, isIP)
  {
    Snoc(tr, TickOf(x));
    if |s.calls| in LoadSet(tr) { LoadsAreAdded(tr, |s.calls|); }
  }

  lemma DisciplineKept(tr: seq<Tick>, s: Server, x: Step, isIP: string -> bool)
    requires Inv(tr, s, isIP) && Enabled(s, x)
    ensures Disciplined(tr + [TickOf(x)])
  {
    Snoc(tr, TickOf(x));
    if !x.Begin? { assert CallOk(tr, s, x.c, isIP); }
  }

  lemma StoreKept(tr: seq<Tick>, s: Server, x: Step, d: string, isIP: string -> bool)
    requires Inv(tr, s, isIP) && Enabled(s, x) && d in Do(s, x, isIP).cache
    ensures Names(Do(s, x, isIP).cache[d], d, isIP) && StoredOk(Do(s, x, isIP), d)
  {
    if d in s.cache { assert StoredOk(s, d); }
    if !x.Begin? { assert CallOk(tr, s, x.c, isIP); }
    if d in s.cache && s.storedBy[d] < |s.calls| { assert CallOk(tr, s, s.storedBy[d], isIP); }
  }

  lemma CounterKept(n: nat)
    ensures WrapInt64(WrapInt64(n) + 1) == WrapInt64(n + 1)
  {
  }

  lemma StepKeeps(tr: seq<Tick>, s: Server, x: Step, isIP: string -> bool)
    requires Inv(tr, s, isIP) && Enabled(s, x)
    ensures Inv(tr + [TickOf(x)], Do(s, x, isIP), isIP)
  {
    var t := Do(s, x, isIP);
    forall c | 0 <= c < |t.calls| ensures CallOk(tr + [TickOf(x)], t, c, isIP) {
      if c < |s.calls| { CallKept(tr, s, x, c, isIP); } else { NewCallOk(tr, s, x, isIP); }
    }
    forall d | d in t.cache ensures Names(t.cache[d], d, isIP) && StoredOk(t, d) {
      StoreKept(tr, s, x, d, isIP);
    }
    DisciplineKept(tr, s, x, isIP);
    Snoc(tr, TickOf(x));
    CounterKept(s.adds);
  }

  lemma {:induction false} RunKeeps(steps: seq<Step>, isIP: string -> bool)
    requires After(steps, isIP).Some?
    ensures Inv(Ticks(steps), After(steps, isIP).value, isIP)
  {
    if steps != [] {
      var front := steps[..|steps| - 1];
      RunKeeps(front, isIP);
      StepKeeps(Ticks(front), After(front, isIP).value, steps[|steps| - 1], isIP);
      assert Ticks(steps) == Ticks(front) + [TickOf(steps[|steps| - 1])];
    }
  }

  // ---- Main results ----

  /** Whatever the interleaving, every cached or returned certificate names the domain it was asked for. */
  lemma CertificatesNameTheirDomain(steps: seq<Step>, isIP: string -> bool)
    requires After(steps, isIP).Some?
    ensures var s := After(steps, isIP).value;
            && (forall d | d in s.cache ::
                  var cert := s.cache[d];
                  && cert.commonName == d
                  && cert.ipNames == (if isIP(d) then [d] else []) && cert.dnsNames == if isIP(d) then [] else [d])
            && (forall c | 0 <= c < |s.calls| && s.calls[c].pc.Returned? ::
                  var cert, d := s.calls[c].pc.cert, s.calls[c].domain;
                  && cert.commonName == d
                  && cert.ipNames == (if isIP(d) then [d] else []) && cert.dnsNames == if isIP(d) then [] else [d])
  {
    RunKeeps(steps, isIP);
    var s := After(steps, isIP).value;
    forall c | 0 <= c < |s.calls| && s.calls[c].pc.Returned?
      ensures Names(s.calls[c].pc.cert, s.calls[c].domain, isIP)
    {
      assert CallOk(Ticks(steps), s, c, isIP);
    }
  }

  /** A domain once cached stays cached for the rest of the run. */
  lemma {:induction false} CachedDomainsStay(steps: seq<Step>, more: seq<Step>, isIP: string -> bool)
    requires After(steps + more, isIP).Some?
    ensures After(steps, isIP).Some?
    ensures After(steps, isIP).value.cache.Keys <= After(steps + more, isIP).value.cache.Keys
    decreases |more|
  {
    if more == [] {
      assert steps + more == steps;
    } else {
      var shorter := more[..|more| - 1];
      assert (steps + more)[..|steps + more| - 1] == steps + shorter;
      CachedDomainsStay(steps, shorter, isIP);
    }
  }

  lemma WrapSmall(n: nat)
    requires n < TWO_63
    ensures WrapInt64(n) == n
  {
  }

  lemma InvGives(tr: seq<Tick>, s: Server, c: nat, isIP: string -> bool)
    requires Inv(tr, s, isIP) && c < |s.calls| && s.adds < TWO_63
    ensures Disciplined(tr) && s.serialNumber == s.adds
    ensures c in LoadSet(tr) <==> s.calls[c].drawn.Some?
    ensures s.calls[c].drawn.Some? ==>
              s.calls[c].drawn.value == Drawn(tr, c) && s.calls[c].startedAt < s.calls[c].drawn.value <= s.adds
  {
    assert CallOk(tr, s, c, isIP);
    WrapSmall(s.adds);
    if c in LoadSet(tr) { WrapSmall(Drawn(tr, c)); }
  }

  /** While the counter has not wrapped, a serial is the number of adds before its read. */
  lemma SerialIsDrawn(steps: seq<Step>, c: nat, isIP: string -> bool)
    requires After(steps, isIP).Some?
    requires var s := After(steps, isIP).value; c < |s.calls| && s.adds < TWO_63
    ensures var s := After(steps, isIP).value;
            && Disciplined(Ticks(steps)) && s.serialNumber == s.adds
            && (c in LoadSet(Ticks(steps)) <==> s.calls[c].drawn.Some?)
            && (s.calls[c].drawn.Some? ==>
                  && s.calls[c].drawn.value == Drawn(Ticks(steps), c)
                  && s.calls[c].startedAt < s.calls[c].drawn.value <= s.adds)
  {
    RunKeeps(steps, isIP);
    InvGives(Ticks(steps), After(steps, isIP).value, c, isIP);
  }

  /** A serial lies strictly above the counter at the start of its call and at most at the current counter. */
  lemma SerialBounds(steps: seq<Step>, c: nat, isIP: string -> bool)
    requires After(steps, isIP).Some?
    requires var s := After(steps, isIP).value;
             c < |s.calls| && s.calls[c].drawn.Some? && s.adds < TWO_63
    ensures var s := After(steps, isIP).value;
            s.calls[c].startedAt < s.calls[c].drawn.value <= s.serialNumber
  {
    SerialIsDrawn(steps, c, isIP);
  }

  /** Two calls share a serial only if the add of one fell between the add and the read of the other. */
  lemma SharedSerialNeedsOverlap(steps: seq<Step>, c1: nat, c2: nat, isIP: string -> bool)
    requires After(steps, isIP).Some? && c1 != c2
    requires var s := After(steps, isIP).value;
             c1 < |s.calls| && c2 < |s.calls| && s.calls[c1].drawn.Some? && s.calls[c1].drawn == s.calls[c2].drawn
             && s.adds < TWO_63
    ensures Overlap(Ticks(steps), c1, c2)
  {
    SerialIsDrawn(steps, c1, isIP);
    SerialIsDrawn(steps, c2, isIP);
    DuplicateNeedsOverlap(Ticks(steps), c1, c2);
  }

  lemma ReaderExists(steps: seq<Step>, j: nat, isIP: string -> bool)
    requires After(steps, isIP).Some? && j < |steps| && steps[j].ReadSerial?
    ensures Ticks(steps)[j] == Load(steps[j].c) && steps[j].c < |After(steps, isIP).value.calls|
  {
    RunKeeps(steps, isIP);
    assert Ticks(steps)[j] == Load(steps[j].c);
    LoadsAreAdded(Ticks(steps), steps[j].c);
  }

  /** Two calls share a serial exactly when nobody adds between their two reads. */
  lemma SharedSerialIffNoAddBetween(steps: seq<Step>, j1: nat, j2: nat, isIP: string -> bool)
    requires After(steps, isIP).Some? && After(steps, isIP).value.adds < TWO_63
    requires j1 < j2 < |steps| && steps[j1].ReadSerial? && steps[j2].ReadSerial?
    ensures var s := After(steps, isIP).value;
            var c1, c2 := steps[j1].c, steps[j2].c;
            && c1 < |s.calls| && c2 < |s.calls|
            && s.calls[c1].drawn.Some? && s.calls[c2].drawn.Some?
            && (s.calls[c1].drawn == s.calls[c2].drawn <==> forall k | j1 < k < j2 :: !steps[k].AddSerial?)
  {
    var tr, c1, c2 := Ticks(steps), steps[j1].c, steps[j2].c;
    ReaderExists(steps, j1, isIP);
    ReaderExists(steps, j2, isIP);
    SerialIsDrawn(steps, c1, isIP);
    SerialIsDrawn(steps, c2, isIP);
    DuplicateIffNoAddBetween(tr, j1, j2);
    assert forall k | j1 < k < j2 :: tr[k].Add? <==> steps[k].AddSerial?;
  }

  lemma CacheEntryFrom(steps: seq<Step>, d: string, isIP: string -> bool) returns (c: nat)
    requires After(steps, isIP).Some? && d in After(steps, isIP).value.cache
    ensures var s := After(steps, isIP).value;
            c < |s.calls| && s.calls[c].domain == d && s.calls[c].drawn == Some(s.cache[d].serial)
  {
    RunKeeps(steps, isIP);
    assert StoredOk(After(steps, isIP).value, d);
    c := After(steps, isIP).value.storedBy[d];
  }

  /** Without overlapping windows, certificates cached for different domains have different serials. */
  lemma CachedSerialsDistinct(steps: seq<Step>, d1: string, d2: string, isIP: string -> bool)
    requires After(steps, isIP).Some?
    requires var s := After(steps, isIP).value;
             d1 in s.cache && d2 in s.cache && d1 != d2 && s.adds < TWO_63
    requires forall w1, w2 | w1 in LoadSet(Ticks(steps)) && w2 in LoadSet(Ticks(steps)) && w1 != w2 ::
               !Overlap(Ticks(steps), w1, w2)
    ensures var s := After(steps, isIP).value; s.cache[d1].serial != s.cache[d2].serial
  {
    var c1 := CacheEntryFrom(steps, d1, isIP);
    var c2 := CacheEntryFrom(steps, d2, isIP);
    SerialIsDrawn(steps, c1, isIP);
    SerialIsDrawn(steps, c2, isIP);
    if After(steps, isIP).value.cache[d1].serial == After(steps, isIP).value.cache[d2].serial {
      SharedSerialNeedsOverlap(steps, c1, c2, isIP);
    }
  }

  // ---- A schedule that breaks uniqueness: both calls add before either reads ----

  const RACE_MISS: seq<Step> := [Begin("a"), Begin("b"), Lookup(0), Lookup(1)]

  const RACE_START: seq<Step> := RACE_MISS + [AddSerial(0), AddSerial(1)]

  const RACE_READ: seq<Step> := RACE_START + [ReadSerial(0), ReadSerial(1)]

  const RACE: seq<Step> := RACE_READ + [Sign(0, true), Sign(1, true), Store(0), Store(1)]

  lemma Extend(steps: seq<Step>, s: Server, x: Step, isIP: string -> bool) returns (longer: seq<Step>, t: Server)
    requires After(steps, isIP) == Some(s) && Enabled(s, x)
    ensures longer == steps + [x] && t == Do(s, x, isIP) && After(longer, isIP) == Some(t)
  {
    longer, t := steps + [x], Do(s, x, isIP);
    assert (steps + [x])[..|steps|] == steps;
  }

  lemma RaceMiss(isIP: string -> bool)
    ensures After(RACE_MISS, isIP) ==
            Some(Server(0, map[], [Call("a", Missed, 0, None), Call("b", Missed, 0, None)], 0, map[]))
  {
    var p, s := [], INIT;
    p, s := Extend(p, s, Begin("a"), isIP);
    p, s := Extend(p, s, Begin("b"), isIP);
    assert s.calls == [Call("a", Loading, 0, None), Call("b", Loading, 0, None)];
    p, s := Extend(p, s, Lookup(0), isIP);
    p, s := Extend(p, s, Lookup(1), isIP);
    assert s.calls == [Call("a", Missed, 0, None), Call("b", Missed, 0, None)];
    assert p == RACE_MISS;
  }

  lemma RaceStart(isIP: string -> bool)
    ensures After(RACE_START, isIP) ==
            Some(Server(2, map[], [Call("a", Added, 0, None), Call("b", Added, 0, None)], 2, map[]))
  {
    RaceMiss(isIP);
    var p, s := RACE_MISS, After(RACE_MISS, isIP).value;
    p, s := Extend(p, s, AddSerial(0), isIP);
    p, s := Extend(p, s, AddSerial(1), isIP);
    assert s.calls == [Call("a", Added, 0, None), Call("b", Added, 0, None)];
    assert p == RACE_START;
  }

  lemma RaceRead(isIP: string -> bool)
    ensures After(RACE_READ, isIP) ==
            Some(Server(2, map[], [Call("a", Templated, 0, Some(2)), Call("b", Templated, 0, Some(2))], 2, map[]))
  {
    RaceStart(isIP);
    var p, s := RACE_START, After(RACE_START, isIP).value;
    p, s := Extend(p, s, ReadSerial(0), isIP);
    p, s := Extend(p, s, ReadSerial(1), isIP);
    assert s.calls == [Call("a", Templated, 0, Some(2)), Call("b", Templated, 0, Some(2))];
    assert p == RACE_READ;
  }

  /** Two domains end up cached with the same serial number 2. */
  lemma SharedSerialWitness(isIP: string -> bool)
    ensures After(RACE, isIP).Some?
    ensures var s := After(RACE, isIP).value;
            "a" in s.cache && "b" in s.cache && s.cache["a"].serial == 2 && s.cache["b"].serial == 2
  {
    RaceRead(isIP);
    var p, s := RACE_READ, After(RACE_READ, isIP).value;
    p, s := Extend(p, s, Sign(0, true), isIP);
    p, s := Extend(p, s, Sign(1, true), isIP);
    p, s := Extend(p, s, Store(0), isIP);
    p, s := Extend(p, s, Store(1), isIP);
    assert p == RACE;
  }
}
