/**
 The process-wide upstream proxy. `SetProxy` and `ClearProxy` change the configured proxy;
 the shared HTTP transport and the shared WebSocket dialer pick it up when they are next
 handed out, but only in the direction nil to non-nil or non-nil to nil.
 */
module ProxyLatch {
  import opened Prelude

  /** A proxy function: the environment's, or one fixed by SetProxy. */
  datatype ProxyFn = Environment | Fixed(uri: string)

  /** The dialer in force: direct, through a SOCKS5 server, or nil when constructing that one failed. */
  datatype DialFn = Direct | Socks5(addr: string) | NoDialer

  datatype Op =
    | SetProxyOp(uri: string)
    | ClearProxyOp
    | SetSocks5Op(addr: string, built: bool)
    | ClearSocks5Op
    | HttpOp
    | WebSocketOp

  // ---- What a history of calls configures and shows ----

  /** The configured proxy after a history: the last effective SetProxy not followed by a ClearProxy. */
  function Configured(history: seq<Op>): Option<ProxyFn> {
    if history == [] then None
    else
      var op := history[|history| - 1];
      if op.ClearProxyOp? then None
      else if op.SetProxyOp? && op.uri != "" then Some(Fixed(op.uri))
      else Configured(history[..|history| - 1])
  }

  function ConfiguredDial(history: seq<Op>): DialFn {
    if history == [] then Direct
    else
      var op := history[|history| - 1];
      if op.ClearSocks5Op? then Direct
      else if op.SetSocks5Op? && op.addr != "" then (if op.built then Socks5(op.addr) else NoDialer)
      else ConfiguredDial(history[..|history| - 1])
  }

  /** A call with no dialer configured panics before it touches the object. */
  predicate Panics(history: seq<Op>) { ConfiguredDial(history).NoDialer? }

  /** The configurations seen by the calls of one kind that did not panic, oldest first. */
  function Seen(history: seq<Op>, call: Op): seq<Option<ProxyFn>> {
    if history == [] then []
    else
      var front := history[..|history| - 1];
      if history[|history| - 1] == call && !Panics(front) then Seen(front, call) + [Configured(front)]
      else Seen(front, call)
  }

  /** The dialer configured at the latest such call, None before any. */
  function LatestDial(history: seq<Op>, call: Op): Option<DialFn> {
    if history == [] then None
    else
      var front := history[..|history| - 1];
      if history[|history| - 1] == call && !Panics(front) then Some(ConfiguredDial(front)) else LatestDial(front, call)
  }

  ghost predicate NilFree(seen: seq<Option<ProxyFn>>) {
    forall i | 0 <= i < |seen| :: seen[i].Some?
  }

  /** Call k saw nil, and no later call did. */
  ghost predicate LastNil(seen: seq<Option<ProxyFn>>, k: nat) {
    k < |seen| && seen[k].None? && NilFree(seen[k + 1..])
  }

  /**
   The law of the latch: the environment's if no call has seen nil; otherwise nil if the last
   call saw nil, and else what the first call after the last nil saw.
   */
  ghost predicate Latched(seen: seq<Option<ProxyFn>>, proxy: Option<ProxyFn>) {
    && (NilFree(seen) ==> proxy == Some(Environment))
    && (forall k: nat | LastNil(seen, k) :: proxy == if k + 1 < |seen| then seen[k + 1] else None)
  }

  /** The transport or dialer object that is handed out. */
  class Outbound {
    var proxy: Option<ProxyFn>
    var dial: Option<DialFn>

    constructor ()
      ensures proxy == Some(Environment) && dial == None
    {
      proxy := Some(Environment);
      dial := None;
    }
  }

  class Globals {
    var proxyFunc: Option<ProxyFn>
    var netDialer: DialFn
    const tr: Outbound
    const dialer: Outbound
    ghost var history: seq<Op>

    ghost predicate Valid()
      reads this, tr, dialer
    {
      && tr != dialer
      && proxyFunc == Configured(history)
      && netDialer == ConfiguredDial(history)
      && Latched(Seen(history, HttpOp), tr.proxy)
      && Latched(Seen(history, WebSocketOp), dialer.proxy)
      && tr.dial == LatestDial(history, HttpOp)
      && dialer.dial == LatestDial(history, WebSocketOp)
    }

    constructor ()
      ensures Valid() && history == [] && fresh(tr) && fresh(dialer)
    {
      proxyFunc := None;
      netDialer := Direct;
      history := [];
      tr := new Outbound();
      dialer := new Outbound();
    }

    ghost method Log(op: Op)
      modifies this`history
      ensures history == old(history) + [op] && history[..|history| - 1] == old(history)
    {
      history := history + [op];
    }

    method SetProxy(uri: string)
      requires Valid()
      modifies this`proxyFunc, this`history
      ensures Valid() && history == old(history) + [SetProxyOp(uri)]
      ensures proxyFunc == if uri == "" then old(proxyFunc) else Some(Fixed(uri))
    {
      Log(SetProxyOp(uri));
      if uri == "" {
        return;
      }
      proxyFunc := Some(Fixed(uri));
    }

    method ClearProxy()
      requires Valid()
      modifies this`proxyFunc, this`history
      ensures Valid() && history == old(history) + [ClearProxyOp] && proxyFunc == None
    {
      Log(ClearProxyOp);
      proxyFunc := None;
    }

    /** The constructor's error is dropped, and with it the dialer there was. */
    method SetSocks5(addr: string, built: bool)
      requires Valid()
      modifies this`netDialer, this`history
      ensures Valid() && history == old(history) + [SetSocks5Op(addr, built)]
      ensures netDialer == if addr == "" then old(netDialer) else if built then Socks5(addr) else NoDialer
    {
      Log(SetSocks5Op(addr, built));
      if addr == "" {
        return;
      }
      netDialer := if built then Socks5(addr) else NoDialer;
    }

    method ClearSocks5()
      requires Valid()
      modifies this`netDialer, this`history
      ensures Valid() && history == old(history) + [ClearSocks5Op] && netDialer == Direct
    {
      Log(ClearSocks5Op);
      netDialer := Direct;
    }

    /** Taking the methods of a nil dialer panics. */
    method HttpTransport() returns (panics: bool)
      requires Valid()
      modifies tr, this`history
      ensures Valid() && history == old(history) + [HttpOp]
      ensures panics <==> netDialer.NoDialer?
      ensures panics ==> tr.proxy == old(tr.proxy) && tr.dial == old(tr.dial)
      ensures !panics ==> tr.dial == Some(netDialer)
      ensures !panics ==> tr.proxy == if proxyFunc.None? || old(tr.proxy).None? then proxyFunc else old(tr.proxy)
    {
      panics := netDialer.NoDialer?;
      if panics {
        Log(HttpOp);
        return;
      }
      tr.dial := Some(netDialer);
      if proxyFunc.Some? && tr.proxy.None? {
        tr.proxy := proxyFunc;
      }
      if proxyFunc.None? && tr.proxy.Some? {
        tr.proxy := None;
      }
      LatchStep(Seen(history, HttpOp), old(tr.proxy), proxyFunc);
      Log(HttpOp);
    }

    method WebSocketDialer() returns (panics: bool)
      requires Valid()
      modifies dialer, this`history
      ensures Valid() && history == old(history) + [WebSocketOp]
      ensures panics <==> netDialer.NoDialer?
      ensures panics ==> dialer.proxy == old(dialer.proxy) && dialer.dial == old(dialer.dial)
      ensures !panics ==> dialer.dial == Some(netDialer)
      ensures !panics ==>
                dialer.proxy == if proxyFunc.None? || old(dialer.proxy).None? then proxyFunc else old(dialer.proxy)
    {
      panics := netDialer.NoDialer?;
      if panics {
        Log(WebSocketOp);
        return;
      }
      dialer.dial := Some(netDialer);
      if proxyFunc.Some? && dialer.proxy.None? {
        dialer.proxy := proxyFunc;
      }
      if proxyFunc.None? && dialer.proxy.Some? {
        dialer.proxy := None;
      }
      LatchStep(Seen(history, WebSocketOp), old(dialer.proxy), proxyFunc);
      Log(WebSocketOp);
    }

    /** Any run of the six operations keeps the law. */
    method Play(ops: seq<Op>)
      requires Valid()
      modifies this, tr, dialer
      ensures Valid() && history == old(history) + ops
    {
      for i := 0 to |ops|
        invariant Valid() && history == old(history) + ops[..i]
      {
        match ops[i] {
          case SetProxyOp(uri) => SetProxy(uri);
          case ClearProxyOp => ClearProxy();
          case SetSocks5Op(addr, built) => SetSocks5(addr, built);
          case ClearSocks5Op => ClearSocks5();
          case HttpOp => var panics := HttpTransport();
          case WebSocketOp => var panics := WebSocketDialer();
        }
        assert ops[..i + 1] == ops[..i] + [ops[i]];
      }
      assert ops[..|ops|] == ops;
    }
  }

  /** One call moves the latch by the nil-to-non-nil and non-nil-to-nil rules and keeps the law. */
  lemma LatchStep(seen: seq<Option<ProxyFn>>, proxy: Option<ProxyFn>, configured: Option<ProxyFn>)
    requires Latched(seen, proxy)
    ensures Latched(seen + [configured],
                    if configured.Some? && proxy.None? then configured
                    else if configured.None? && proxy.Some? then None else proxy)
  {
    var all := seen + [configured];
    assert forall i | 0 <= i < |seen| :: all[i] == seen[i];
    assert all[|seen|] == configured;
    if NilFree(all) { assert NilFree(seen); }
    forall k: nat | LastNil(all, k) && k < |seen| ensures LastNil(seen, k) {
      assert all[k + 1..] == seen[k + 1..] + [configured];
    }
    if !NilFree(seen) { var k := FindLastNil(seen); }
  }

  lemma {:induction false} FindLastNil(seen: seq<Option<ProxyFn>>) returns (k: nat)
    requires !NilFree(seen)
    ensures LastNil(seen, k)
  {
    if seen[|seen| - 1].None? {
      k := |seen| - 1;
    } else {
      k := FindLastNil(seen[..|seen| - 1]);
    }
  }

  // ---- Consequences of the law ----

  /** The law leaves exactly one possible proxy. */
  lemma LatchedUnique(seen: seq<Option<ProxyFn>>, p: Option<ProxyFn>, q: Option<ProxyFn>)
    requires Latched(seen, p) && Latched(seen, q)
    ensures p == q
  {
    if !NilFree(seen) {
      var k := FindLastNil(seen);
    }
  }

  /** After a call, the object has no proxy exactly when none is configured. */
  lemma NilIffNoneConfigured(seen: seq<Option<ProxyFn>>, p: Option<ProxyFn>)
    requires Latched(seen, p) && |seen| > 0
    ensures p.None? <==> seen[|seen| - 1].None?
  {
    if !NilFree(seen) {
      var k := FindLastNil(seen);
      if k < |seen| - 1 { assert seen[k + 1].Some?; }
    }
  }

  /**
   After a call the configured proxy is really in use exactly when none is configured, or a nil
   has been seen and the first call after the last nil saw this same proxy.
   */
  lemma ConfiguredInUseIff(history: seq<Op>, call: Op, p: Option<ProxyFn>)
    requires |Seen(history, call)| > 0 && Latched(Seen(history, call), p)
    ensures var seen := Seen(history, call);
            p == seen[|seen| - 1] <==>
              seen[|seen| - 1].None? ||
              exists k: nat :: LastNil(seen, k) && k < |seen| - 1 && seen[k + 1] == seen[|seen| - 1]
  {
    var seen := Seen(history, call);
    NeverSeesEnvironment(history, call, |seen| - 1);
    if !NilFree(seen) {
      var k := FindLastNil(seen);
    }
  }

  // ---- What is configured, by positions in the history ----

  /** Operations that decide the proxy, or the dialer. */
  predicate DecidesProxy(op: Op) { op.ClearProxyOp? || (op.SetProxyOp? && op.uri != "") }

  predicate DecidesDial(op: Op) { op.ClearSocks5Op? || (op.SetSocks5Op? && op.addr != "") }

  /** `op` is in the history with nothing behind it that decides the proxy. */
  ghost predicate LastProxyOp(history: seq<Op>, op: Op) {
    exists k :: 0 <= k < |history| && history[k] == op && forall j | k < j < |history| :: !DecidesProxy(history[j])
  }

  ghost predicate LastDialOp(history: seq<Op>, op: Op) {
    exists k :: 0 <= k < |history| && history[k] == op && forall j | k < j < |history| :: !DecidesDial(history[j])
  }

  lemma LastProxyOneMore(front: seq<Op>, x: Op, op: Op)
    ensures LastProxyOp(front + [x], op) <==> x == op || (LastProxyOp(front, op) && !DecidesProxy(x))
  {
    var all := front + [x];
    assert all[|front|] == x && forall i | 0 <= i < |front| :: all[i] == front[i];
    if LastProxyOp(all, op) && x != op {
      var k :| 0 <= k < |all| && all[k] == op && forall j | k < j < |all| :: !DecidesProxy(all[j]);
      assert front[k] == op && forall j | k < j < |front| :: !DecidesProxy(front[j]);
    }
    if LastProxyOp(front, op) && !DecidesProxy(x) {
      var k :| 0 <= k < |front| && front[k] == op && forall j | k < j < |front| :: !DecidesProxy(front[j]);
      assert all[k] == op && forall j | k < j < |all| :: !DecidesProxy(all[j]);
    }
  }

  lemma LastDialOneMore(front: seq<Op>, x: Op, op: Op)
    ensures LastDialOp(front + [x], op) <==> x == op || (LastDialOp(front, op) && !DecidesDial(x))
  {
    var all := front + [x];
    assert all[|front|] == x && forall i | 0 <= i < |front| :: all[i] == front[i];
    if LastDialOp(all, op) && x != op {
      var k :| 0 <= k < |all| && all[k] == op && forall j | k < j < |all| :: !DecidesDial(all[j]);
      assert front[k] == op && forall j | k < j < |front| :: !DecidesDial(front[j]);
    }
    if LastDialOp(front, op) && !DecidesDial(x) {
      var k :| 0 <= k < |front| && front[k] == op && forall j | k < j < |front| :: !DecidesDial(front[j]);
      assert all[k] == op && forall j | k < j < |all| :: !DecidesDial(all[j]);
    }
  }

  /** A proxy is configured exactly when it was set, with an address, and neither cleared nor set to another since. */
  lemma {:induction false} ConfiguredIff(history: seq<Op>, uri: string)
    ensures Configured(history) == Some(Fixed(uri)) <==> uri != "" && LastProxyOp(history, SetProxyOp(uri))
    ensures Configured(history) != Some(Environment)
  {
    if history != [] {
      var front, x := history[..|history| - 1], history[|history| - 1];
      ConfiguredIff(front, uri);
      LastProxyOneMore(front, x, SetProxyOp(uri));
      assert front + [x] == history;
    }
  }

  /** None is configured exactly when no such address is. */
  lemma {:induction false} NoneConfiguredIff(history: seq<Op>)
    ensures Configured(history).None? <==> forall uri | uri != "" :: !LastProxyOp(history, SetProxyOp(uri))
  {
    forall uri | uri != "" && LastProxyOp(history, SetProxyOp(uri)) ensures Configured(history).Some? {
      ConfiguredIff(history, uri);
    }
    if Configured(history).Some? {
      var p := Configured(history).value;
      ConfiguredIff(history, "");
      if p.Fixed? { ConfiguredIff(history, p.uri); }
    }
  }

  /** The dialer: the SOCKS5 server set last and not cleared, none when constructing that one failed, else direct. */
  lemma {:induction false} ConfiguredDialIff(history: seq<Op>, addr: string)
    ensures ConfiguredDial(history) == Socks5(addr) <==> addr != "" && LastDialOp(history, SetSocks5Op(addr, true))
  {
    if history != [] {
      var front, x := history[..|history| - 1], history[|history| - 1];
      ConfiguredDialIff(front, addr);
      LastDialOneMore(front, x, SetSocks5Op(addr, true));
      assert front + [x] == history;
    }
  }

  /** Calls panic exactly from a failed construction on until a dialer is configured again. */
  lemma {:induction false} PanicsIff(history: seq<Op>)
    ensures Panics(history) <==> exists addr :: addr != "" && LastDialOp(history, SetSocks5Op(addr, false))
  {
    if history != [] {
      var front, x := history[..|history| - 1], history[|history| - 1];
      PanicsIff(front);
      assert front + [x] == history;
      forall addr: string
        ensures LastDialOp(history, SetSocks5Op(addr, false)) <==>
                  x == SetSocks5Op(addr, false) || (LastDialOp(front, SetSocks5Op(addr, false)) && !DecidesDial(x))
      {
        LastDialOneMore(front, x, SetSocks5Op(addr, false));
      }
      if x.SetSocks5Op? { assert x == SetSocks5Op(x.addr, x.built); }
    }
  }

  // ---- What is in use, by positions in the history ----

  /** A call of this kind at position k that did not panic. */
  predicate CallAt(history: seq<Op>, k: int, call: Op) {
    0 <= k < |history| && history[k] == call && !Panics(history[..k])
  }

  /** The position of the i-th such call. */
  function Position(history: seq<Op>, call: Op, i: nat): (k: nat)
    requires i < |Seen(history, call)|
    ensures CallAt(history, k, call) && Configured(history[..k]) == Seen(history, call)[i]
  {
    var front := history[..|history| - 1];
    if i < |Seen(front, call)| then
      var k := Position(front, call, i);
      assert front[..k] == history[..k];
      k
    else |front|
  }

  lemma {:induction false} PositionsIncrease(history: seq<Op>, call: Op, i: nat, j: nat)
    requires i < j < |Seen(history, call)|
    ensures Position(history, call, i) < Position(history, call, j)
  {
    var front := history[..|history| - 1];
    if j < |Seen(front, call)| { PositionsIncrease(front, call, i, j); }
  }

  lemma {:induction false} WhichCall(history: seq<Op>, call: Op, k: nat) returns (i: nat)
    requires CallAt(history, k, call)
    ensures i < |Seen(history, call)| && Position(history, call, i) == k
  {
    var front := history[..|history| - 1];
    if k == |front| {
      assert history[..k] == front;
      i := |Seen(front, call)|;
    } else {
      assert front[..k] == history[..k];
      i := WhichCall(front, call, k);
    }
  }

  /** The last call that found no proxy configured. */
  ghost predicate LastNilAt(history: seq<Op>, call: Op, n: nat) {
    && CallAt(history, n, call) && Configured(history[..n]).None?
    && forall j | n < j && CallAt(history, j, call) :: Configured(history[..j]).Some?
  }

  /** The first call behind position n. */
  ghost predicate NextCall(history: seq<Op>, call: Op, n: nat, k: nat) {
    n < k && CallAt(history, k, call) && forall j | n < j < k :: !CallAt(history, j, call)
  }

  /**
   What is in use after any history: the environment's proxy until some call has found none configured; after
   the last such call, none, or from the next call on what that next call found.
   */
  lemma InUse(history: seq<Op>, call: Op, p: Option<ProxyFn>)
    requires Latched(Seen(history, call), p)
    ensures (forall k | CallAt(history, k, call) :: Configured(history[..k]).Some?) ==> p == Some(Environment)
    ensures forall n: nat | LastNilAt(history, call, n) ::
              && ((forall j | n < j :: !CallAt(history, j, call)) ==> p == None)
              && forall k: nat | NextCall(history, call, n, k) :: p == Configured(history[..k])
  {
    var seen := Seen(history, call);
    if forall k | CallAt(history, k, call) :: Configured(history[..k]).Some? {
      forall i | 0 <= i < |seen| ensures seen[i].Some? { var k := Position(history, call, i); }
      assert NilFree(seen);
    }
    forall n: nat | LastNilAt(history, call, n)
      ensures (forall j | n < j :: !CallAt(history, j, call)) ==> p == None
      ensures forall k: nat | NextCall(history, call, n, k) :: p == Configured(history[..k])
    {
      if forall j | n < j :: !CallAt(history, j, call) { NoneAfterLastNil(history, call, p, n); }
      forall k: nat | NextCall(history, call, n, k) ensures p == Configured(history[..k])
      {
        NextAfterLastNil(history, call, p, n, k);
      }
    }
  }

  lemma SeesLastNil(history: seq<Op>, call: Op, n: nat) returns (i: nat)
    requires LastNilAt(history, call, n)
    ensures LastNil(Seen(history, call), i) && Position(history, call, i) == n
  {
    i := WhichCall(history, call, n);
    forall l | i < l < |Seen(history, call)| ensures Seen(history, call)[l].Some? {
      PositionsIncrease(history, call, i, l);
      var k := Position(history, call, l);
    }
  }

  lemma NoneAfterLastNil(history: seq<Op>, call: Op, p: Option<ProxyFn>, n: nat)
    requires Latched(Seen(history, call), p) && LastNilAt(history, call, n)
    requires forall j | n < j :: !CallAt(history, j, call)
    ensures p == None
  {
    var i := SeesLastNil(history, call, n);
    if i + 1 < |Seen(history, call)| {
      PositionsIncrease(history, call, i, i + 1);
      assert false;
    }
  }

  lemma NextAfterLastNil(history: seq<Op>, call: Op, p: Option<ProxyFn>, n: nat, k: nat)
    requires Latched(Seen(history, call), p) && LastNilAt(history, call, n)
    requires NextCall(history, call, n, k)
    ensures p == Configured(history[..k])
  {
    var i := SeesLastNil(history, call, n);
    var l := WhichCall(history, call, k);
    if l < i {
      PositionsIncrease(history, call, l, i);
    } else if l > i + 1 {
      PositionsIncrease(history, call, i, i + 1);
      PositionsIncrease(history, call, i + 1, l);
      assert false;
    }
  }

  lemma {:induction false} OnlyFixedConfigured(history: seq<Op>)
    ensures Configured(history) != Some(Environment)
  {
    if history != [] { OnlyFixedConfigured(history[..|history| - 1]); }
  }

  /** No call sees the environment's proxy configured. */
  lemma {:induction false} NeverSeesEnvironment(history: seq<Op>, call: Op, i: nat)
    requires i < |Seen(history, call)|
    ensures Seen(history, call)[i] != Some(Environment)
  {
    if history != [] {
      var front := history[..|history| - 1];
      OnlyFixedConfigured(front);
      if i < |Seen(front, call)| { NeverSeesEnvironment(front, call, i); }
    }
  }

  lemma {:induction false} StaysConfigured(history: seq<Op>, call: Op)
    requires history != [] && history[0].SetProxyOp? && history[0].uri != "" && ClearProxyOp !in history
    ensures Configured(history).Some? && (call != history[0] ==> NilFree(Seen(history, call)))
  {
    if |history| == 1 {
      assert history[..0] == [];
    } else {
      StaysConfigured(history[..|history| - 1], call);
    }
  }

  /**
   A proxy configured before the first call, as the command line does, and never cleared is not used,
   however many calls and further proxies follow: the environment's is.
   */
  lemma StartupProxyIgnored(history: seq<Op>, call: Op, p: Option<ProxyFn>)
    requires history != [] && history[0].SetProxyOp? && history[0].uri != "" && ClearProxyOp !in history
    requires (call.HttpOp? || call.WebSocketOp?) && Latched(Seen(history, call), p)
    ensures p == Some(Environment)
  {
    StaysConfigured(history, call);
  }

  lemma OneMore(front: seq<Op>, op: Op, call: Op)
    requires !Panics(front) && (op == call || (op.SetProxyOp? && op.uri != "")) && !call.SetProxyOp?
    requires !op.SetSocks5Op? && !op.ClearSocks5Op? && !op.ClearProxyOp?
    ensures !Panics(front + [op])
    ensures Seen(front + [op], call) == if op == call then Seen(front, call) + [Configured(front)]
            else Seen(front, call)
    ensures Configured(front + [op]) == if op == call then Configured(front) else Some(Fixed(op.uri))
  {
    assert (front + [op])[..|front|] == front;
  }

  lemma SecondProxySeen() returns (h: seq<Op>)
    ensures h == [HttpOp, SetProxyOp("a"), HttpOp, SetProxyOp("b"), HttpOp] && Configured(h) == Some(Fixed("b"))
    ensures Seen(h, HttpOp) == [None, Some(Fixed("a")), Some(Fixed("b"))]
  {
    var h1 := [] + [HttpOp];
    var h2 := h1 + [SetProxyOp("a")];
    var h3 := h2 + [HttpOp];
    var h4 := h3 + [SetProxyOp("b")];
    OneMore([], HttpOp, HttpOp);
    OneMore(h1, SetProxyOp("a"), HttpOp);
    OneMore(h2, HttpOp, HttpOp);
    OneMore(h3, SetProxyOp("b"), HttpOp);
    OneMore(h4, HttpOp, HttpOp);
    h := h4 + [HttpOp];
  }

  /** Changing from one proxy to another without a call in between that sees none has no effect. */
  lemma SecondProxyIgnoredWitness(p: Option<ProxyFn>)
    requires Latched(Seen([HttpOp, SetProxyOp("a"), HttpOp, SetProxyOp("b"), HttpOp], HttpOp), p)
    ensures Configured([HttpOp, SetProxyOp("a"), HttpOp, SetProxyOp("b"), HttpOp]) == Some(Fixed("b"))
    ensures p == Some(Fixed("a"))
  {
    var h := SecondProxySeen();
    var seen := Seen(h, HttpOp);
    assert LastNil(seen, 0);
  }
}
