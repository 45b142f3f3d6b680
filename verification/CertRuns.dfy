/**
 What a run of the certificate cache does, read off its steps alone: which step each call may take next, when a
 lookup finds a certificate and whose, and which certificate a call signs and stores.
 */
module CertRuns {
  import opened Prelude
  import opened Ticket
  import opened CertCache

  // ---- What the steps of a run say ----

  /** The domains asked for, call by call. */
  function Begun(steps: seq<Step>): seq<string> {
    if steps == [] then []
    else Begun(steps[..|steps| - 1]) + if steps[|steps| - 1].Begin? then [steps[|steps| - 1].domain] else []
  }

  function AddsIn(steps: seq<Step>): nat {
    if steps == [] then 0 else AddsIn(steps[..|steps| - 1]) + if steps[|steps| - 1].AddSerial? then 1 else 0
  }

  /** The serial a call has read: the adds so far, whoever made them, as an int64. */
  function SerialRead(steps: seq<Step>, c: nat): Option<int> {
    if steps == [] then None
    else
      var front := steps[..|steps| - 1];
      if steps[|steps| - 1] == ReadSerial(c) then Some(WrapInt64(AddsIn(front))) else SerialRead(front, c)
  }

  /** The call that was the last to store a certificate for the domain. */
  function LastStore(steps: seq<Step>, d: string): Option<nat> {
    if steps == [] then None
    else
      var front, x := steps[..|steps| - 1], steps[|steps| - 1];
      if x.Store? && x.c < |Begun(front)| && Begun(front)[x.c] == d then Some(x.c) else LastStore(front, d)
  }

  predicate ByCall(x: Step, c: nat) { !x.Begin? && x.c == c }

  /** Where in the run the call made its latest step. */
  function LastOwn(steps: seq<Step>, c: nat): (k: Option<nat>)
    ensures k.Some? ==> k.value < |steps| && ByCall(steps[k.value], c)
  {
    if steps == [] then None
    else if ByCall(steps[|steps| - 1], c) then Some(|steps| - 1)
    else LastOwn(steps[..|steps| - 1], c)
  }

  lemma SaysOneMore(front: seq<Step>, x: Step)
    ensures Begun(front + [x]) == if x.Begin? then Begun(front) + [x.domain] else Begun(front)
    ensures AddsIn(front + [x]) == AddsIn(front) + if x.AddSerial? then 1 else 0
    ensures forall d :: LastStore(front + [x], d) ==
                        if x.Store? && x.c < |Begun(front)| && Begun(front)[x.c] == d then Some(x.c)
                        else LastStore(front, d)
  {
    assert (front + [x])[..|front|] == front;
  }

  lemma CallSaysOneMore(front: seq<Step>, x: Step, c: nat)
    ensures SerialRead(front + [x], c) ==
            if x == ReadSerial(c) then Some(WrapInt64(AddsIn(front))) else SerialRead(front, c)
    ensures LastOwn(front + [x], c) == if ByCall(x, c) then Some(|front|) else LastOwn(front, c)
  {
    assert (front + [x])[..|front|] == front;
  }

  // ---- The state of a run is what its steps say ----

  ghost predicate ServerSays(s: Server, steps: seq<Step>) {
    && |s.calls| == |Begun(steps)| && s.adds == AddsIn(steps)
    && (forall c | 0 <= c < |s.calls| :: s.calls[c].domain == Begun(steps)[c])
    && (forall d :: d in s.cache <==> LastStore(steps, d).Some?)
    && (forall d | d in s.cache :: d in s.storedBy && s.storedBy[d] == LastStore(steps, d).value)
  }

  lemma ServerSaysKept(s: Server, steps: seq<Step>, x: Step, isIP: string -> bool)
    requires Enabled(s, x) && ServerSays(s, steps)
    ensures ServerSays(Do(s, x, isIP), steps + [x])
  {
    SaysOneMore(steps, x);
  }

  lemma {:induction false} RunSays(steps: seq<Step>, isIP: string -> bool)
    requires After(steps, isIP).Some?
    ensures ServerSays(After(steps, isIP).value, steps)
  {
    if steps != [] {
      var front, x := steps[..|steps| - 1], steps[|steps| - 1];
      RunSays(front, isIP);
      ServerSaysKept(After(front, isIP).value, front, x, isIP);
      assert front + [x] == steps;
    }
  }

  /** The certificate call c makes: it names that call's domain and carries the serial the call read. */
  predicate IsCertOf(cert: Cert, steps: seq<Step>, c: nat, isIP: string -> bool) {
    c < |Begun(steps)| && Names(cert, Begun(steps)[c], isIP) && SerialRead(steps, c) == Some(cert.serial)
  }

  /** Where step x of a call leads, coming after `before`. */
  ghost predicate LeadsTo(before: seq<Step>, x: Step, pc: Pc, isIP: string -> bool) {
    match x
    case Lookup(c) =>
      c < |Begun(before)| &&
      (match LastStore(before, Begun(before)[c])
       case None => pc == Missed
       case Some(e) => pc.Returned? && IsCertOf(pc.cert, before, e, isIP))
    case AddSerial(_) => pc == Added
    case ReadSerial(_) => pc == Templated
    case Sign(c, ok) => if ok then pc.Signed? && IsCertOf(pc.cert, before, c, isIP) else pc == Failed
    case Store(c) => pc.Returned? && IsCertOf(pc.cert, before, c, isIP)
    case Begin(_) => false
  }

  ghost predicate CallSays(s: Server, steps: seq<Step>, c: nat, isIP: string -> bool)
    requires c < |s.calls|
  {
    && s.calls[c].drawn == SerialRead(steps, c)
    && match LastOwn(steps, c)
       case None => s.calls[c].pc == Loading
       case Some(k) => LeadsTo(steps[..k], steps[k], s.calls[c].pc, isIP)
  }

  ghost predicate AllSay(s: Server, steps: seq<Step>, isIP: string -> bool) {
    ServerSays(s, steps) && forall c | 0 <= c < |s.calls| :: CallSays(s, steps, c, isIP)
  }

  lemma OwnStepLeads(tr: seq<Tick>, s: Server, steps: seq<Step>, x: Step, c: nat, isIP: string -> bool)
    requires Enabled(s, x) && AllSay(s, steps, isIP) && Inv(tr, s, isIP) && ByCall(x, c)
    ensures LeadsTo(steps, x, Do(s, x, isIP).calls[c].pc, isIP)
  {
    assert CallOk(tr, s, c, isIP) && CallSays(s, steps, c, isIP);
    var d := s.calls[c].domain;
    if x.Lookup? && d in s.cache {
      assert StoredOk(s, d);
      assert CallSays(s, steps, s.storedBy[d], isIP);
    }
  }

  lemma CallSaysKept(tr: seq<Tick>, s: Server, steps: seq<Step>, x: Step, c: nat, isIP: string -> bool)
    requires Enabled(s, x) && AllSay(s, steps, isIP) && Inv(tr, s, isIP) && c < |s.calls|
    ensures CallSays(Do(s, x, isIP), steps + [x], c, isIP)
  {
    var all := steps + [x];
    CallSaysOneMore(steps, x, c);
    assert all[..|steps|] == steps && CallSays(s, steps, c, isIP) && CallOk(tr, s, c, isIP);
    if ByCall(x, c) {
      OwnStepLeads(tr, s, steps, x, c, isIP);
      SerialKept(tr, s, x, c, isIP);
    } else {
      assert Do(s, x, isIP).calls[c] == s.calls[c];
      if LastOwn(steps, c).Some? {
        var k := LastOwn(steps, c).value;
        assert all[..k] == steps[..k] && all[k] == steps[k];
      }
    }
  }

  lemma SerialKept(tr: seq<Tick>, s: Server, x: Step, c: nat, isIP: string -> bool)
    requires Enabled(s, x) && Inv(tr, s, isIP) && ByCall(x, c)
    ensures Do(s, x, isIP).calls[c].drawn == if x.ReadSerial? then Some(WrapInt64(s.adds)) else s.calls[c].drawn
  {
  }

  lemma {:induction false} NotYetThere(steps: seq<Step>, c: nat, isIP: string -> bool)
    requires After(steps, isIP).Some? && c >= |After(steps, isIP).value.calls|
    ensures SerialRead(steps, c) == None && LastOwn(steps, c) == None
  {
    if steps != [] { NotYetThere(steps[..|steps| - 1], c, isIP); }
  }

  lemma FreshSays(s: Server, steps: seq<Step>, x: Step, isIP: string -> bool)
    requires x.Begin? && SerialRead(steps, |s.calls|) == None && LastOwn(steps, |s.calls|) == None
    ensures CallSays(Do(s, x, isIP), steps + [x], |s.calls|, isIP)
  {
    CallSaysOneMore(steps, x, |s.calls|);
  }

  lemma {:induction false} RunSaysAll(steps: seq<Step>, isIP: string -> bool)
    requires After(steps, isIP).Some?
    ensures AllSay(After(steps, isIP).value, steps, isIP)
  {
    RunSays(steps, isIP);
    if steps != [] {
      var front, x := steps[..|steps| - 1], steps[|steps| - 1];
      var s, t := After(front, isIP).value, After(steps, isIP).value;
      RunSaysAll(front, isIP);
      RunKeeps(front, isIP);
      assert front + [x] == steps;
      forall c | 0 <= c < |t.calls| ensures CallSays(t, steps, c, isIP) {
        if c < |s.calls| {
          CallSaysKept(Ticks(front), s, front, x, c, isIP);
        } else {
          NotYetThere(front, |s.calls|, isIP);
          FreshSays(s, front, x, isIP);
        }
      }
    }
  }

  // ---- Main results ----

  /** One call's program: what may come after its step y, made when the run was `before`. */
  predicate Follows(before: seq<Step>, y: Step, x: Step) {
    match y
    case Lookup(c) => c < |Begun(before)| && LastStore(before, Begun(before)[c]).None? && x.AddSerial?
    case AddSerial(_) => x.ReadSerial?
    case ReadSerial(_) => x.Sign?
    case Sign(_, ok) => ok && x.Store?
    case _ => false
  }

  lemma CallCanGoOnIff(s: Server, steps: seq<Step>, x: Step, isIP: string -> bool)
    requires AllSay(s, steps, isIP) && !x.Begin? && x.c < |s.calls|
    ensures Enabled(s, x) <==>
              match LastOwn(steps, x.c)
              case None => x.Lookup?
              case Some(k) => Follows(steps[..k], steps[k], x)
  {
    assert CallSays(s, steps, x.c, isIP);
  }

  /**
   Exactly which steps a run can go on with: a call may begin at any time, and each call looks up, and only if that
   finds nothing adds, reads, signs and, if signing went well, stores.
   */
  lemma CanGoOnIff(steps: seq<Step>, x: Step, isIP: string -> bool)
    requires After(steps, isIP).Some?
    ensures Enabled(After(steps, isIP).value, x) <==>
              || x.Begin?
              || (x.c < |Begun(steps)| &&
                  match LastOwn(steps, x.c)
                  case None => x.Lookup?
                  case Some(k) => Follows(steps[..k], steps[k], x))
  {
    RunSaysAll(steps, isIP);
    var s := After(steps, isIP).value;
    if !x.Begin? && x.c < |s.calls| { CallCanGoOnIff(s, steps, x, isIP); }
  }

  predicate StoreFor(steps: seq<Step>, x: Step, d: string) {
    x.Store? && x.c < |Begun(steps)| && Begun(steps)[x.c] == d
  }

  /** Step j stores the domain, and no step behind it does. */
  predicate LatestFor(steps: seq<Step>, j: nat, d: string)
    requires j < |steps|
  {
    StoreFor(steps, steps[j], d) && forall i | j < i < |steps| :: !StoreFor(steps, steps[i], d)
  }

  lemma {:induction false} StoresEnabled(steps: seq<Step>, j: nat, isIP: string -> bool)
    requires After(steps, isIP).Some? && j < |steps| && !steps[j].Begin?
    ensures steps[j].c < |Begun(steps)|
  {
    var front, x := steps[..|steps| - 1], steps[|steps| - 1];
    RunSays(front, isIP);
    SaysOneMore(front, x);
    assert front + [x] == steps;
    if j < |front| { StoresEnabled(front, j, isIP); }
  }

  lemma {:induction false} StoresKept(front: seq<Step>, x: Step, d: string, isIP: string -> bool)
    requires After(front, isIP).Some?
    ensures forall j | 0 <= j < |front| :: StoreFor(front + [x], front[j], d) <==> StoreFor(front, front[j], d)
  {
    SaysOneMore(front, x);
    forall j | 0 <= j < |front| ensures StoreFor(front + [x], front[j], d) <==> StoreFor(front, front[j], d) {
      if front[j].Store? { StoresEnabled(front, j, isIP); }
    }
  }

  /** The call that stored the domain last: it made such a store and none is behind it. */
  lemma {:induction false} LastStoreIff(steps: seq<Step>, d: string, c: nat, isIP: string -> bool)
    requires After(steps, isIP).Some?
    ensures LastStore(steps, d) == Some(c) <==>
              exists j :: 0 <= j < |steps| && steps[j] == Store(c) && LatestFor(steps, j, d)
  {
    if steps != [] {
      var front, x := steps[..|steps| - 1], steps[|steps| - 1];
      assert front + [x] == steps;
      LastStoreIff(front, d, c, isIP);
      StoresKept(front, x, d, isIP);
      RunSays(front, isIP);
      SaysOneMore(front, x);
      assert StoreFor(steps, x, d) <==> StoreFor(front, x, d);
      if j :| 0 <= j < |front| && front[j] == Store(c) && LatestFor(front, j, d) {
        if !StoreFor(steps, x, d) { assert steps[j] == Store(c) && LatestFor(steps, j, d); }
      }
      if j :| 0 <= j < |front| && steps[j] == Store(c) && LatestFor(steps, j, d) {
        assert front[j] == Store(c) && LatestFor(front, j, d);
        assert steps[|front|] == x;
      }
      if x == Store(c) && StoreFor(steps, x, d) { assert steps[|front|] == x; }
    }
  }

  /** None is stored exactly when there is no such store. */
  lemma {:induction false} NoStoreIff(steps: seq<Step>, d: string, isIP: string -> bool)
    requires After(steps, isIP).Some?
    ensures LastStore(steps, d).None? <==> forall j | 0 <= j < |steps| :: !StoreFor(steps, steps[j], d)
  {
    if steps != [] {
      var front, x := steps[..|steps| - 1], steps[|steps| - 1];
      assert front + [x] == steps;
      NoStoreIff(front, d, isIP);
      StoresKept(front, x, d, isIP);
      RunSays(front, isIP);
      SaysOneMore(front, x);
      assert steps[|front|] == x && forall j | 0 <= j < |front| :: steps[j] == front[j];
    }
  }

  lemma JustAfter(steps: seq<Step>, x: Step, isIP: string -> bool)
    requires After(steps + [x], isIP).Some? && !x.Begin?
    ensures After(steps, isIP).Some? && x.c < |Begun(steps)|
    ensures x.c < |After(steps + [x], isIP).value.calls|
    ensures LeadsTo(steps, x, After(steps + [x], isIP).value.calls[x.c].pc, isIP)
  {
    assert (steps + [x])[..|steps|] == steps;
    RunSaysAll(steps, isIP);
    RunKeeps(steps, isIP);
    OwnStepLeads(Ticks(steps), After(steps, isIP).value, steps, x, x.c, isIP);
  }

  /** A lookup misses exactly when no call for the same domain has stored its certificate before. */
  lemma LookupMissesIff(steps: seq<Step>, c: nat, isIP: string -> bool)
    requires After(steps + [Lookup(c)], isIP).Some?
    ensures c < |Begun(steps)| && c < |After(steps + [Lookup(c)], isIP).value.calls|
    ensures After(steps + [Lookup(c)], isIP).value.calls[c].pc == Missed <==>
              forall j | 0 <= j < |steps| && steps[j].Store? ::
                steps[j].c < |Begun(steps)| ==> Begun(steps)[steps[j].c] != Begun(steps)[c]
  {
    JustAfter(steps, Lookup(c), isIP);
    NoStoreIff(steps, Begun(steps)[c], isIP);
    if j :| 0 <= j < |steps| && StoreFor(steps, steps[j], Begun(steps)[c]) { assert steps[j].Store?; }
  }

  /** A lookup that does not miss returns the certificate made by the last call that stored one for the domain. */
  lemma LookupFinds(steps: seq<Step>, c: nat, isIP: string -> bool) returns (e: nat)
    requires After(steps + [Lookup(c)], isIP).Some?
    requires c < |After(steps + [Lookup(c)], isIP).value.calls|
    requires After(steps + [Lookup(c)], isIP).value.calls[c].pc != Missed
    ensures var pc := After(steps + [Lookup(c)], isIP).value.calls[c].pc;
            && c < |Begun(steps)| && LastStore(steps, Begun(steps)[c]) == Some(e)
            && pc.Returned? && IsCertOf(pc.cert, steps, e, isIP)
  {
    JustAfter(steps, Lookup(c), isIP);
    e := LastStore(steps, Begun(steps)[c]).value;
  }

  /** Signing fails the call or makes a certificate for its own domain with the serial it read. */
  lemma SignFailsIff(steps: seq<Step>, c: nat, ok: bool, isIP: string -> bool)
    requires After(steps + [Sign(c, ok)], isIP).Some?
    ensures c < |Begun(steps)| && c < |After(steps + [Sign(c, ok)], isIP).value.calls|
    ensures var pc := After(steps + [Sign(c, ok)], isIP).value.calls[c].pc;
            if ok then pc.Signed? && IsCertOf(pc.cert, steps, c, isIP) else pc == Failed
  {
    JustAfter(steps, Sign(c, ok), isIP);
  }

  /** The domain is cached exactly when it was stored. */
  lemma CachedIff(steps: seq<Step>, d: string, isIP: string -> bool)
    requires After(steps, isIP).Some?
    ensures d in After(steps, isIP).value.cache <==>
              exists j ::
                0 <= j < |steps| && steps[j].Store? && steps[j].c < |Begun(steps)| && Begun(steps)[steps[j].c] == d
  {
    RunSays(steps, isIP);
    NoStoreIff(steps, d, isIP);
    if j :| 0 <= j < |steps| && StoreFor(steps, steps[j], d) { assert steps[j].Store?; }
  }

  /** What is cached is the certificate made by the last call that stored one for the domain. */
  lemma CachedIs(steps: seq<Step>, d: string, isIP: string -> bool) returns (e: nat)
    requires After(steps, isIP).Some? && d in After(steps, isIP).value.cache
    ensures LastStore(steps, d) == Some(e) && IsCertOf(After(steps, isIP).value.cache[d], steps, e, isIP)
  {
    RunSaysAll(steps, isIP);
    RunKeeps(steps, isIP);
    var s := After(steps, isIP).value;
    e := LastStore(steps, d).value;
    assert StoredOk(s, d) && CallSays(s, steps, e, isIP);
  }
}
