/**
 Event streams: how a client splits and interprets them (sections 9.2.5 and 9.2.6 of the WHATWG
 HTML standard), how the relay's line scanner splits them, and when re-framing every scanned line
 with a single line feed leaves the meaning alone.
 */
module SseStream {
  import opened Prelude

  const LF: Byte := 10
  const CR: Byte := 13
  const COLON: Byte := 58
  const SPACE: Byte := 32
  const BOM: Bytes := [0xEF, 0xBB, 0xBF]

  // ---- The client's line splitter ----

  /** Complete lines so far, the line being read, and whether the previous byte was a CR that ended a line. */
  datatype Splitter = Splitter(lines: seq<Bytes>, cur: Bytes, afterCr: bool)

  const START := Splitter([], [], false)

  /** A line ends at CR LF, at a lone LF and at a lone CR; an LF right after a CR belongs to the same end. */
  function Feed(st: Splitter, c: Byte): Splitter {
    if c == LF && st.afterCr then st.(afterCr := false)
    else if c == LF || c == CR then Splitter(st.lines + [st.cur], [], c == CR)
    else Splitter(st.lines, st.cur + [c], false)
  }

  function Run(st: Splitter, s: Bytes): Splitter {
    if s == [] then st else Feed(Run(st, s[..|s| - 1]), s[|s| - 1])
  }

  /** The complete lines of a stream. */
  function Lines(s: Bytes): seq<Bytes> { Run(START, s).lines }

  /** The unfinished last line, which the client discards at the end of the stream. */
  function Pending(s: Bytes): Bytes { Run(START, s).cur }

  // ---- The client's interpretation of lines ----

  datatype Event = Event(kind: Bytes, data: Bytes, id: Bytes)

  datatype Client = Client(data: Bytes, kind: Bytes, idBuffer: Bytes, lastId: Bytes, retry: Option<Bytes>,
                           events: seq<Event>)

  const FRESH := Client([], [], [], [], None, [])

  const DATA: Bytes := [100, 97, 116, 97]
  const EVENT: Bytes := [101, 118, 101, 110, 116]
  const ID: Bytes := [105, 100]
  const RETRY: Bytes := [114, 101, 116, 114, 121]
  const MESSAGE: Bytes := [109, 101, 115, 115, 97, 103, 101]

  function ColonAt(line: Bytes): nat
    ensures ColonAt(line) <= |line|
  {
    if line == [] || line[0] == COLON then 0 else 1 + ColonAt(line[1..])
  }

  function Dispatch(c: Client): Client {
    var d := c.(lastId := c.idBuffer, data := [], kind := []);
    if c.data == [] then d
    else
      var text := if c.data[|c.data| - 1] == LF then c.data[..|c.data| - 1] else c.data;
      d.(events := c.events + [Event(if c.kind == [] then MESSAGE else c.kind, text, c.idBuffer)])
  }

  function Field(c: Client, name: Bytes, value: Bytes): Client {
    if name == EVENT then c.(kind := value)
    else if name == DATA then c.(data := c.data + value + [LF])
    else if name == ID then (if 0 in value then c else c.(idBuffer := value))
    else if name == RETRY then
      (if value != [] && forall b | b in value :: 48 <= b <= 57 then c.(retry := Some(value)) else c)
    else c
  }

  function ProcessLine(c: Client, line: Bytes): Client {
    if line == [] then Dispatch(c)
    else
      var k := ColonAt(line);
      if k == 0 && line[0] == COLON then c
      else if k < |line| then
        var value := line[k + 1..];
        Field(c, line[..k], if value != [] && value[0] == SPACE then value[1..] else value)
      else Field(c, line, [])
  }

  function Continue(c: Client, lines: seq<Bytes>): Client {
    if lines == [] then c else ProcessLine(Continue(c, lines[..|lines| - 1]), lines[|lines| - 1])
  }

  function Interpret(lines: seq<Bytes>): Client { Continue(FRESH, lines) }

  function StripBom(s: Bytes): Bytes { if BOM <= s then s[3..] else s }

  /** What a client has understood at the end of the stream. */
  function Understood(s: Bytes): Client { Interpret(Lines(StripBom(s))) }

  /** The client gets the same events, with the same types, data and ids, whether the stream is relayed or not. */
  ghost predicate SameEvents(s: Bytes) { Understood(Relayed(s)).events == Understood(s).events }

  // ---- The relay's line scanner ----

  /** Index of the first line feed, or the length. */
  function FirstLf(s: Bytes): (k: nat)
    ensures k <= |s| && LF !in s[..k] && (k < |s| ==> s[k] == LF)
  {
    if s == [] || s[0] == LF then 0 else 1 + FirstLf(s[1..])
  }

  function DropCr(raw: Bytes): Bytes {
    if raw != [] && raw[|raw| - 1] == CR then raw[..|raw| - 1] else raw
  }

  /** What follows the first raw line and its line feed. */
  function AfterLine(s: Bytes): (rest: Bytes)
    ensures s != [] ==> |rest| < |s|
  {
    var k := FirstLf(s);
    if k < |s| then s[k + 1..] else []
  }

  /** What the relay sends on: each scanned line with one line feed. */
  function Relayed(s: Bytes): Bytes
    decreases |s|
  {
    if s == [] then [] else DropCr(s[..FirstLf(s)]) + [LF] + Relayed(AfterLine(s))
  }

  // ---- When re-framing is faithful ----

  predicate EndsCrCr(raw: Bytes) {
    |raw| >= 2 && raw[|raw| - 1] == CR && raw[|raw| - 2] == CR
  }

  predicate CrCrLfAt(s: Bytes, i: nat) {
    i + 2 < |s| && s[i] == CR && s[i + 1] == CR && s[i + 2] == LF
  }

  /** No CR CR LF anywhere, and no CR CR at the end. */
  predicate Clean(s: Bytes) {
    !EndsCrCr(s) && forall i: nat | i < |s| :: !CrCrLfAt(s, i)
  }

  /** How many raw lines end in CR CR. */
  function BadLines(s: Bytes): nat
    decreases |s|
  {
    if s == [] then 0 else (if EndsCrCr(s[..FirstLf(s)]) then 1 else 0) + BadLines(AfterLine(s))
  }

  const BLANK: seq<Bytes> := [[]]

  /** What the client sees of one raw line as it is sent on. */
  function SentLines(raw: Bytes): seq<Bytes> { Lines(DropCr(raw) + [LF]) }

  /** The same and, if `kept`, a blank line behind a raw line that ends in CR CR. */
  function RawLines(raw: Bytes, kept: bool): seq<Bytes> {
    if kept && EndsCrCr(raw) then SentLines(raw) + BLANK else SentLines(raw)
  }

  /** The lines of a stream, raw line by raw line, with or without those blank lines. */
  function LineByLine(s: Bytes, kept: bool): seq<Bytes>
    decreases |s|
  {
    if s == [] then [] else RawLines(s[..FirstLf(s)], kept) + LineByLine(AfterLine(s), kept)
  }

  /** The lines the client would see if it also counted the unfinished one. */
  function AllLines(st: Splitter): seq<Bytes> {
    if st.cur == [] then st.lines else st.lines + [st.cur]
  }

  lemma {:induction false} RunConcat(st: Splitter, a: Bytes, b: Bytes)
    ensures Run(st, a + b) == Run(Run(st, a), b)
    decreases |b|
  {
    if b == [] {
      assert a + b == a;
    } else {
      assert (a + b)[..|a + b| - 1] == a + b[..|b| - 1];
      RunConcat(st, a, b[..|b| - 1]);
    }
  }

  /** After a stretch without LF the splitter is right behind a CR exactly if the stretch ends in one. */
  lemma {:induction false} AfterRaw(st: Splitter, raw: Bytes)
    requires LF !in raw && !st.afterCr
    ensures var t := Run(st, raw);
            && (t.afterCr <==> raw != [] && raw[|raw| - 1] == CR)
            && (t.afterCr ==> t.cur == [])
            && (raw != [] && raw[|raw| - 1] != CR ==> t.cur != [])
  {
    if raw != [] { AfterRaw(st, raw[..|raw| - 1]); }
  }

  lemma FeedLast(st: Splitter, a: Bytes, c: Byte)
    ensures Run(st, a + [c]) == Feed(Run(st, a), c)
  {
    assert (a + [c])[..|a|] == a;
  }

  /** One terminated raw line: same lines either way, except that CR CR LF loses a blank line. */
  lemma TerminatedLine(st: Splitter, raw: Bytes)
    requires LF !in raw && st.cur == [] && !st.afterCr
    ensures var orig, sent := Run(st, raw + [LF]), Run(st, DropCr(raw) + [LF]);
            && orig.cur == [] && !orig.afterCr && sent.cur == [] && !sent.afterCr
            && orig.lines == if EndsCrCr(raw) then sent.lines + [[]] else sent.lines
  {
    FeedLast(st, raw, LF);
    AfterRaw(st, raw);
    if raw != [] && raw[|raw| - 1] == CR {
      var r := raw[..|raw| - 1];
      assert raw == r + [CR];
      FeedLast(st, r, CR);
      FeedLast(st, r, LF);
      AfterRaw(st, r);
    }
  }

  /** The unfinished last line. */
  lemma UnfinishedLine(st: Splitter, raw: Bytes)
    requires LF !in raw && st.cur == [] && !st.afterCr && raw != []
    ensures var orig, sent := Run(st, raw), Run(st, DropCr(raw) + [LF]);
            && sent.cur == [] && !sent.afterCr
            && AllLines(orig) == if EndsCrCr(raw) then sent.lines + [[]] else sent.lines
  {
    AfterRaw(st, raw);
    if raw[|raw| - 1] == CR {
      var r := raw[..|raw| - 1];
      assert raw == r + [CR];
      FeedLast(st, r, CR);
      FeedLast(st, r, LF);
      AfterRaw(st, r);
    } else {
      FeedLast(st, raw, LF);
    }
  }

  /** Running from different earlier lines only differs in those lines. */
  lemma {:induction false} EarlierLines(st: Splitter, early: seq<Bytes>, s: Bytes)
    ensures Run(st.(lines := early + st.lines), s) == Run(st, s).(lines := early + Run(st, s).lines)
  {
    if s != [] {
      EarlierLines(st, early, s[..|s| - 1]);
      var t := Run(st, s[..|s| - 1]);
      assert early + (t.lines + [t.cur]) == early + t.lines + [t.cur];
    }
  }

  lemma FromStart(st: Splitter, s: Bytes)
    requires st.cur == [] && !st.afterCr
    ensures Run(st, s) == Run(START, s).(lines := st.lines + Lines(s))
  {
    EarlierLines(START, st.lines, s);
    assert START.(lines := st.lines + START.lines) == st;
  }

  lemma FirstLine(raw: Bytes, rest: Bytes)
    requires LF !in raw
    ensures var s := raw + [LF] + rest;
            FirstLf(s) == |raw| && s[..FirstLf(s)] == raw && AfterLine(s) == rest
  {
    var s := raw + [LF] + rest;
    var k := FirstLf(s);
    assert s[|raw|] == LF;
    assert s[|raw| + 1..] == rest;
  }

  lemma OnlyLine(raw: Bytes)
    requires LF !in raw
    ensures FirstLf(raw) == |raw| && raw[..FirstLf(raw)] == raw && AfterLine(raw) == []
  {
  }

  /** Every stream is a single unfinished line or a finished line and more. */
  lemma FirstSplit(s: Bytes) returns (raw: Bytes, rest: Bytes)
    requires LF in s
    ensures LF !in raw && s == raw + [LF] + rest && |rest| < |s|
  {
    var k := FirstLf(s);
    raw, rest := s[..k], s[k + 1..];
  }

  ghost predicate SentAre(s: Bytes, lines: seq<Bytes>) { Run(START, Relayed(s)) == Splitter(lines, [], false) }

  ghost predicate OriginalAre(s: Bytes, lines: seq<Bytes>) { AllLines(Run(START, s)) == lines }

  lemma SentSide(raw: Bytes, rest: Bytes, lines: seq<Bytes>)
    requires LF !in raw && SentAre(rest, lines)
    ensures SentAre(raw + [LF] + rest, RawLines(raw, false) + lines)
  {
    FirstLine(raw, rest);
    TerminatedLine(START, raw);
    RunConcat(START, DropCr(raw) + [LF], Relayed(rest));
    FromStart(Run(START, DropCr(raw) + [LF]), Relayed(rest));
  }

  lemma OriginalSide(raw: Bytes, rest: Bytes, lines: seq<Bytes>)
    requires LF !in raw && OriginalAre(rest, lines)
    ensures OriginalAre(raw + [LF] + rest, RawLines(raw, true) + lines)
  {
    TerminatedLine(START, raw);
    RunConcat(START, raw + [LF], rest);
    FromStart(Run(START, raw + [LF]), rest);
  }

  lemma LineByLineTerminated(raw: Bytes, rest: Bytes, kept: bool)
    requires LF !in raw
    ensures LineByLine(raw + [LF] + rest, kept) == RawLines(raw, kept) + LineByLine(rest, kept)
  {
    FirstLine(raw, rest);
  }

  lemma LineByLineOnly(raw: Bytes, kept: bool)
    requires LF !in raw && raw != []
    ensures LineByLine(raw, kept) == RawLines(raw, kept)
  {
    OnlyLine(raw);
    assert LineByLine([], kept) == [];
  }

  lemma UnfinishedSides(s: Bytes)
    requires LF !in s
    ensures SentAre(s, LineByLine(s, false)) && OriginalAre(s, LineByLine(s, true))
  {
    if s != [] {
      UnfinishedLine(START, s);
      RelayedOnly(s);
      LineByLineOnly(s, false);
      LineByLineOnly(s, true);
    }
  }

  /**
   Whatever the stream: the sent lines are the original ones, the unfinished last line completed,
   with exactly the blank lines behind raw lines ending in CR CR removed.
   */
  lemma {:induction false} LinesOfRelayed(s: Bytes)
    ensures Run(START, Relayed(s)) == Splitter(LineByLine(s, false), [], false)
    ensures AllLines(Run(START, s)) == LineByLine(s, true)
    decreases |s|
  {
    if LF in s {
      var raw, rest := FirstSplit(s);
      LinesOfRelayed(rest);
      SentSide(raw, rest, LineByLine(rest, false));
      OriginalSide(raw, rest, LineByLine(rest, true));
      LineByLineTerminated(raw, rest, false);
      LineByLineTerminated(raw, rest, true);
    } else {
      UnfinishedSides(s);
    }
  }

  lemma {:induction false} BlanksCounted(s: Bytes)
    ensures |LineByLine(s, false)| + BadLines(s) == |LineByLine(s, true)|
    ensures BadLines(s) == 0 ==> LineByLine(s, false) == LineByLine(s, true)
    decreases |s|
  {
    if s != [] { BlanksCounted(AfterLine(s)); }
  }

  lemma {:induction false} CleanIffNoBadLines(s: Bytes)
    ensures Clean(s) <==> BadLines(s) == 0
    decreases |s|
  {
    if LF in s {
      var raw, rest := FirstSplit(s);
      FirstLine(raw, rest);
      CleanIffNoBadLines(rest);
      CleanSplits(raw, rest);
    } else if s != [] {
      OnlyLine(s);
    }
  }

  lemma CrCrLfShift(a: Bytes, b: Bytes, i: nat)
    ensures CrCrLfAt(a + b, |a| + i) <==> CrCrLfAt(b, i)
  {
  }

  lemma CleanSplits(raw: Bytes, rest: Bytes)
    requires LF !in raw
    ensures Clean(raw + [LF] + rest) <==> !EndsCrCr(raw) && Clean(rest)
  {
    var a := raw + [LF];
    var s := a + rest;
    if Clean(s) {
      if EndsCrCr(raw) { assert CrCrLfAt(s, |raw| - 2); }
      forall i: nat | i < |rest| ensures !CrCrLfAt(rest, i) { CrCrLfShift(a, rest, i); }
    }
    if !EndsCrCr(raw) && Clean(rest) {
      forall i: nat | i < |s| ensures !CrCrLfAt(s, i) {
        if i >= |a| {
          CrCrLfShift(a, rest, i - |a|);
        } else if CrCrLfAt(s, i) {
          CleanHead(raw, rest, i);
        }
      }
    }
  }

  lemma CleanHead(raw: Bytes, rest: Bytes, i: nat)
    requires LF !in raw && i <= |raw| && CrCrLfAt(raw + [LF] + rest, i)
    ensures EndsCrCr(raw)
  {
    var s := raw + [LF] + rest;
    assert s[|raw|] == LF;
  }

  // ---- Main results ----

  /**
   The exact condition: the relayed stream has the same lines as the original (its unfinished last
   line completed) iff the original contains no CR CR LF and does not end in CR CR.
   */
  lemma SameLinesIffClean(s: Bytes)
    ensures Lines(Relayed(s)) == AllLines(Run(START, s)) <==> Clean(s)
    ensures Pending(Relayed(s)) == []
  {
    LinesOfRelayed(s);
    BlanksCounted(s);
    CleanIffNoBadLines(s);
  }

  lemma NonBlankDispatchesNothing(c: Client, line: Bytes)
    requires line != []
    ensures ProcessLine(c, line).events == c.events
  {
  }

  /**
   Without a byte order mark in play, a clean stream is understood the same; an unfinished last line can add no
   event.
   */
  lemma CleanUnderstood(s: Bytes)
    requires Clean(s)
    ensures Interpret(Lines(Relayed(s))).events == Interpret(Lines(s)).events
    ensures Pending(s) == [] ==> Interpret(Lines(Relayed(s))) == Interpret(Lines(s))
  {
    SameLinesIffClean(s);
    if Pending(s) != [] {
      var all := Lines(s) + [Pending(s)];
      assert all[..|all| - 1] == Lines(s);
      NonBlankDispatchesNothing(Interpret(Lines(s)), Pending(s));
    }
  }

  lemma BomRaw(raw: Bytes)
    requires LF !in raw
    ensures LF !in BOM + raw && DropCr(BOM + raw) == BOM + DropCr(raw)
  {
  }

  lemma RelayedParts(raw: Bytes, rest: Bytes)
    requires LF !in raw
    ensures Relayed(raw + [LF] + rest) == DropCr(raw) + [LF] + Relayed(rest)
  {
    FirstLine(raw, rest);
  }

  lemma RelayedOnly(raw: Bytes)
    requires LF !in raw && raw != []
    ensures Relayed(raw) == DropCr(raw) + [LF]
  {
    OnlyLine(raw);
    assert DropCr(raw) + [LF] + [] == DropCr(raw) + [LF];
  }

  lemma Regroup(a: Bytes, b: Bytes, c: Bytes, d: Bytes)
    ensures a + b + c + d == a + (b + c + d)
  {
  }

  lemma RelayedBomTerminated(raw: Bytes, rest: Bytes)
    requires LF !in raw
    ensures Relayed(BOM + (raw + [LF] + rest)) == BOM + Relayed(raw + [LF] + rest)
  {
    BomRaw(raw);
    RelayedParts(raw, rest);
    RelayedParts(BOM + raw, rest);
    Regroup(BOM, raw, [LF], rest);
    Regroup(BOM, DropCr(raw), [LF], Relayed(rest));
  }

  lemma RelayedBom(t: Bytes)
    ensures Relayed(BOM + t) == BOM + (if t == [] then [LF] else Relayed(t))
  {
    if LF in t {
      var raw, rest := FirstSplit(t);
      RelayedBomTerminated(raw, rest);
    } else {
      BomRaw(t);
      RelayedOnly(BOM + t);
      if t != [] { RelayedOnly(t); }
      assert BOM + DropCr(t) + [LF] == BOM + (DropCr(t) + [LF]);
    }
  }

  lemma CleanAfterBom(s: Bytes)
    requires Clean(s)
    ensures Clean(StripBom(s))
  {
    if BOM <= s {
      var t := s[3..];
      assert s == BOM + t;
      forall i: nat | i < |t| ensures !CrCrLfAt(t, i) { CrCrLfShift(BOM, t, i); }
      assert EndsCrCr(t) ==> EndsCrCr(s);
    }
  }

  lemma PrefixBeforeLf(a: Bytes, d: Bytes, r: Bytes)
    requires LF !in a && a <= d + ([LF] + r)
    ensures a <= d
  {
    var all := d + ([LF] + r);
    assert all[|d|] == LF;
    assert a == all[..|a|];
  }

  lemma RelayedHead(s: Bytes) returns (raw: Bytes, more: Bytes)
    requires s != []
    ensures raw <= s && Relayed(s) == DropCr(raw) + ([LF] + more)
  {
    raw, more := s[..FirstLf(s)], Relayed(AfterLine(s));
    Associative(DropCr(raw), [LF], more);
  }

  lemma RelayedAddsNoBom(s: Bytes)
    requires BOM <= Relayed(s)
    ensures BOM <= s
  {
    var raw, more := RelayedHead(s);
    PrefixBeforeLf(BOM, DropCr(raw), more);
  }

  lemma BlankLineUnderstoodAsNothing()
    ensures Interpret(Lines([LF])) == FRESH && Interpret(Lines([])) == FRESH
  {
    assert Run(START, [LF]) == Feed(START, LF);
    var blank: seq<Bytes> := [[]];
    assert Lines([LF]) == blank && blank[..0] == [];
  }

  /** The relay passes a byte order mark on and makes none up. */
  lemma UnderstoodRelayed(s: Bytes)
    ensures Understood(Relayed(s)) == Interpret(Lines(Relayed(StripBom(s))))
  {
    if BOM <= s {
      var t := s[3..];
      assert s == BOM + t;
      RelayedBom(t);
      var u := if t == [] then [LF] else Relayed(t);
      assert StripBom(BOM + u) == u;
      BlankLineUnderstoodAsNothing();
    } else if BOM <= Relayed(s) {
      RelayedAddsNoBom(s);
    }
  }

  /**
   For every clean upstream stream the relayed stream dispatches exactly the same events, with the
   same types, data and ids; and if the stream ends at a line end the client's whole state agrees.
   */
  lemma RelayKeepsEvents(s: Bytes)
    requires Clean(s)
    ensures SameEvents(s)
    ensures Pending(StripBom(s)) == [] ==> Understood(Relayed(s)) == Understood(s)
  {
    UnderstoodRelayed(s);
    CleanAfterBom(s);
    CleanUnderstood(StripBom(s));
  }

  // ---- Lost blank lines ----

  function KindOf(kind: Bytes): Bytes { if kind == [] then MESSAGE else kind }

  /** Nothing is waiting that a blank line would dispatch or reset. */
  predicate Harmless(c: Client) { c.data == [] && KindOf(c.kind) == MESSAGE }

  /** Clients that dispatch the same events, now and for any further lines. */
  predicate Alike(c: Client, d: Client) {
    c.data == d.data && c.idBuffer == d.idBuffer && c.events == d.events && KindOf(c.kind) == KindOf(d.kind)
  }

  lemma {:induction false} AlikeForever(c: Client, d: Client, lines: seq<Bytes>)
    requires Alike(c, d)
    ensures Alike(Continue(c, lines), Continue(d, lines))
  {
    if lines != [] { AlikeForever(c, d, lines[..|lines| - 1]); }
  }

  lemma {:induction false} ContinueConcat(c: Client, a: seq<Bytes>, b: seq<Bytes>)
    ensures Continue(c, a + b) == Continue(Continue(c, a), b)
  {
    if b == [] {
      assert a + b == a;
    } else {
      assert (a + b)[..|a + b| - 1] == a + b[..|b| - 1];
      ContinueConcat(c, a, b[..|b| - 1]);
    }
  }

  lemma ContinueOne(c: Client, line: Bytes)
    ensures Continue(c, [line]) == ProcessLine(c, line)
  {
    assert [line][..0] == [];
  }

  /** One event with the data "" and whatever type is set. */
  const PROBE: seq<Bytes> := [DATA, []]

  lemma Probe(c: Client)
    requires c.data == []
    ensures Continue(c, PROBE).events == c.events + [Event(KindOf(c.kind), [], c.idBuffer)]
  {
    assert ColonAt(DATA) == 4 by { assert DATA[1..][1..][1..][1..] == []; }
    ContinueConcat(c, [DATA], BLANK);
    assert [DATA] + BLANK == PROBE;
    ContinueOne(c, DATA);
    ContinueOne(ProcessLine(c, DATA), []);
    assert ProcessLine(c, DATA) == c.(data := [LF]);
    assert [LF][..0] == [];
  }

  /** A blank line makes no difference, whatever lines follow, iff no data and no type but the default is pending. */
  lemma BlankHarmlessIff(c: Client)
    ensures (forall more :: Continue(Dispatch(c), more).events == Continue(c, more).events) <==> Harmless(c)
  {
    if Harmless(c) {
      forall more ensures Continue(Dispatch(c), more).events == Continue(c, more).events {
        AlikeForever(Dispatch(c), c, more);
      }
    } else {
      BlankShows(c);
    }
  }

  lemma BlankShows(c: Client)
    requires !Harmless(c)
    ensures Continue(Dispatch(c), if c.data == [] then PROBE else []).events
         != Continue(c, if c.data == [] then PROBE else []).events
  {
    if c.data == [] {
      Probe(c);
      Probe(Dispatch(c));
      assert Continue(c, PROBE).events[|c.events|].kind != MESSAGE;
    } else {
      assert |Continue(Dispatch(c), []).events| == |c.events| + 1;
    }
  }

  /** From client state `c` on, every blank line that relaying loses is harmless where it falls. */
  predicate LossHarmless(c: Client, s: Bytes)
    decreases |s|
  {
    s == [] ||
    var raw := s[..FirstLf(s)];
    var d := Continue(c, SentLines(raw));
    (EndsCrCr(raw) ==> Harmless(d)) && LossHarmless(d, AfterLine(s))
  }

  lemma ContinueThree(c: Client, a: seq<Bytes>, b: seq<Bytes>, d: seq<Bytes>)
    ensures Continue(c, a + b + d) == Continue(Continue(Continue(c, a), b), d)
  {
    ContinueConcat(c, a + b, d);
    ContinueConcat(c, a, b);
  }

  lemma {:induction false} HarmlessAlike(c: Client, d: Client, s: Bytes)
    requires Alike(c, d) && LossHarmless(c, s)
    ensures Alike(Continue(c, LineByLine(s, false)), Continue(d, LineByLine(s, true)))
    decreases |s|
  {
    if s != [] {
      var raw, rest := s[..FirstLf(s)], AfterLine(s);
      var c1, d1 := Continue(c, SentLines(raw)), Continue(d, SentLines(raw));
      AlikeForever(c, d, SentLines(raw));
      ContinueConcat(d, SentLines(raw), BLANK);
      ContinueOne(d1, []);
      HarmlessAlike(c1, Continue(d, RawLines(raw, true)), rest);
      ContinueConcat(c, SentLines(raw), LineByLine(rest, false));
      ContinueConcat(d, RawLines(raw, true), LineByLine(rest, true));
    }
  }

  /** The unfinished last line dispatches nothing, so the original's events are those of all its lines. */
  lemma EventsLineByLine(s: Bytes)
    ensures Interpret(Lines(s)).events == Interpret(LineByLine(s, true)).events
    ensures Interpret(Lines(Relayed(s))) == Interpret(LineByLine(s, false))
  {
    LinesOfRelayed(s);
    if Pending(s) != [] {
      var all := Lines(s) + [Pending(s)];
      assert all[..|all| - 1] == Lines(s);
      NonBlankDispatchesNothing(Interpret(Lines(s)), Pending(s));
    }
  }

  /** However many blank lines are lost: if each is harmless where it falls, the events are the same. */
  lemma HarmlessKeepsEvents(s: Bytes)
    requires LossHarmless(FRESH, StripBom(s))
    ensures SameEvents(s)
  {
    var t := StripBom(s);
    UnderstoodRelayed(s);
    EventsLineByLine(t);
    HarmlessAlike(FRESH, FRESH, t);
  }

  /** The stream is empty or ends at a line feed. */
  predicate Whole(p: Bytes) { p == [] || p[|p| - 1] == LF }

  /** A whole stream is empty or one finished raw line and a whole stream. */
  lemma WholeSplit(p: Bytes) returns (raw: Bytes, rest: Bytes)
    requires Whole(p) && p != []
    ensures LF !in raw && p == raw + [LF] + rest && |rest| < |p| && Whole(rest)
  {
    assert p[|p| - 1] in p;
    raw, rest := FirstSplit(p);
  }

  lemma LossSplit(c: Client, raw: Bytes, rest: Bytes)
    requires LF !in raw
    ensures LossHarmless(c, raw + [LF] + rest)
       <==> (EndsCrCr(raw) ==> Harmless(Continue(c, SentLines(raw)))) && LossHarmless(Continue(c, SentLines(raw)), rest)
  {
    FirstLine(raw, rest);
  }

  lemma {:induction false} LineByLineConcat(p: Bytes, more: Bytes, kept: bool)
    requires Whole(p)
    ensures LineByLine(p + more, kept) == LineByLine(p, kept) + LineByLine(more, kept)
    decreases |p|
  {
    if p == [] {
      assert p + more == more;
    } else {
      var raw, rest := WholeSplit(p);
      Associative(raw + [LF], rest, more);
      LineByLineConcat(rest, more, kept);
      LineByLineTerminated(raw, rest, kept);
      LineByLineTerminated(raw, rest + more, kept);
      Associative(RawLines(raw, kept), LineByLine(rest, kept), LineByLine(more, kept));
    }
  }

  lemma {:induction false} LossConcat(c: Client, p: Bytes, more: Bytes)
    requires Whole(p)
    ensures LossHarmless(c, p + more) <==> LossHarmless(c, p) && LossHarmless(Continue(c, LineByLine(p, false)), more)
    decreases |p|
  {
    if p == [] {
      assert p + more == more;
    } else {
      var raw, rest := WholeSplit(p);
      var d := Continue(c, SentLines(raw));
      Associative(raw + [LF], rest, more);
      LossSplit(c, raw, rest);
      LossSplit(c, raw, rest + more);
      LossConcat(d, rest, more);
      LineByLineTerminated(raw, rest, false);
      ContinueConcat(c, SentLines(raw), LineByLine(rest, false));
    }
  }

  lemma {:induction false} NoLossHarmless(c: Client, s: Bytes)
    requires BadLines(s) == 0
    ensures LossHarmless(c, s)
    decreases |s|
  {
    if s != [] { NoLossHarmless(Continue(c, SentLines(s[..FirstLf(s)])), AfterLine(s)); }
  }

  /** The first harmful loss in a whole stream, with what comes before it. */
  lemma {:induction false} FirstHarm(c: Client, s: Bytes) returns (front: Bytes, raw: Bytes)
    requires Whole(s) && !LossHarmless(c, s)
    ensures Whole(front) && LF !in raw && EndsCrCr(raw) && front + (raw + [LF]) <= s
    ensures LossHarmless(c, front) && !Harmless(Continue(Continue(c, LineByLine(front, false)), SentLines(raw)))
    decreases |s|
  {
    var first, rest := WholeSplit(s);
    var d := Continue(c, SentLines(first));
    LossSplit(c, first, rest);
    if EndsCrCr(first) && !Harmless(d) {
      front, raw := [], first;
      assert front + (raw + [LF]) == first + [LF];
    } else {
      front, raw := FirstHarm(d, rest);
      front := HarmBehind(c, first, front, raw, rest);
    }
  }

  lemma HarmBehind(c: Client, first: Bytes, f: Bytes, raw: Bytes, rest: Bytes) returns (front: Bytes)
    requires LF !in first && Whole(f) && f + (raw + [LF]) <= rest
    requires EndsCrCr(first) ==> Harmless(Continue(c, SentLines(first)))
    requires LossHarmless(Continue(c, SentLines(first)), f)
    ensures Whole(front) && front + (raw + [LF]) <= first + [LF] + rest && LossHarmless(c, front)
    ensures Continue(c, LineByLine(front, false)) == Continue(Continue(c, SentLines(first)), LineByLine(f, false))
  {
    front := first + [LF] + f;
    LossSplit(c, first, f);
    LineByLineTerminated(first, f, false);
    ContinueConcat(c, SentLines(first), LineByLine(f, false));
    Behind(first + [LF], f, raw + [LF], rest);
  }

  lemma Behind(a: Bytes, b: Bytes, c: Bytes, d: Bytes)
    requires b + c <= d
    ensures a + b + c <= a + d
  {
  }

  lemma PlainBlock(text: Bytes)
    requires LF !in text && CR !in text
    ensures SentLines(text) == [text]
  {
    if text != [] { RunPlain(START, text); }
    FeedLast(START, text, LF);
    assert START.cur + text == text;
  }

  lemma PlainLine(text: Bytes, rest: Bytes, kept: bool)
    requires LF !in text && CR !in text
    ensures LineByLine(text + [LF] + rest, kept) == [text] + LineByLine(rest, kept)
  {
    PlainBlock(text);
    LineByLineTerminated(text, rest, kept);
  }

  /** The lines of `PROBE`, as bytes; nothing in them is lost. */
  const PROBE_BYTES: Bytes := DATA + [LF] + [LF]

  lemma ProbeLines(kept: bool)
    ensures LineByLine(PROBE_BYTES, kept) == PROBE
  {
    assert [] + [LF] + [] == [LF];
    PlainLine([], [], kept);
    PlainLine(DATA, [LF], kept);
    assert LineByLine([], kept) == [] && BLANK + [] == BLANK && [DATA] + BLANK == PROBE;
  }

  lemma ProbeClean()
    ensures Clean(PROBE_BYTES) && Clean([])
  {
    assert CR !in PROBE_BYTES;
  }

  /** The first harmful loss shows: at once if data is pending there, and else with the next event. */
  lemma HarmShows(front: Bytes, raw: Bytes) returns (more: Bytes)
    requires Whole(front) && LF !in raw && EndsCrCr(raw) && LossHarmless(FRESH, front)
    requires !Harmless(Continue(Interpret(LineByLine(front, false)), SentLines(raw)))
    ensures Clean(more)
    ensures Interpret(Lines(Relayed(front + raw + [LF] + more))).events
            != Interpret(Lines(front + raw + [LF] + more)).events
  {
    var c0, d0 := Interpret(LineByLine(front, false)), Interpret(LineByLine(front, true));
    var c, d := Continue(c0, SentLines(raw)), Continue(d0, SentLines(raw));
    HarmlessAlike(FRESH, FRESH, front);
    AlikeForever(c0, d0, SentLines(raw));
    more := if c.data == [] then PROBE_BYTES else [];
    var tail := if c.data == [] then PROBE else [];
    ProbeLines(false);
    ProbeLines(true);
    ProbeClean();
    HarmedLines(front, raw, more, tail);
    ContinueThree(FRESH, LineByLine(front, false), SentLines(raw), tail);
    ContinueThree(FRESH, LineByLine(front, true), SentLines(raw), BLANK + tail);
    ContinueConcat(d, BLANK, tail);
    ContinueOne(d, []);
    BlankShows(d);
    AlikeForever(c, d, tail);
  }

  lemma HarmedLines(front: Bytes, raw: Bytes, more: Bytes, tail: seq<Bytes>)
    requires Whole(front) && LF !in raw && EndsCrCr(raw)
    requires forall kept :: LineByLine(more, kept) == tail
    ensures var s := front + raw + [LF] + more;
            && Interpret(Lines(s)).events == Interpret(LineByLine(front, true) + SentLines(raw) + (BLANK + tail)).events
            && Interpret(Lines(Relayed(s))) == Interpret(LineByLine(front, false) + SentLines(raw) + tail)
  {
    var s, bad := front + raw + [LF] + more, raw + [LF] + more;
    EventsLineByLine(s);
    Regroup(front, raw, [LF], more);
    LineByLineConcat(front, bad, false);
    LineByLineConcat(front, bad, true);
    LineByLineTerminated(raw, more, false);
    LineByLineTerminated(raw, more, true);
    Associative(LineByLine(front, false), SentLines(raw), tail);
    Associative(LineByLine(front, true), SentLines(raw), BLANK + tail);
    Associative(SentLines(raw), BLANK, tail);
  }

  lemma StripBomFront(p: Bytes, more: Bytes)
    requires Whole(p) && p != []
    ensures StripBom(p + more) == StripBom(p) + more && Whole(StripBom(p))
  {
    assert (p + more)[|p| - 1] == LF;
    if BOM <= p + more {
      assert |p| > 3;
      assert p == BOM + p[3..];
    }
    if BOM <= p { assert BOM <= p + more; }
  }

  /** Relaying any part of the stream that ends at a line end, and then anything clean, keeps the events. */
  ghost predicate KeepsEventsThroughout(s: Bytes) {
    forall p: Bytes, more: Bytes | p <= s && Whole(p) && Clean(more) :: SameEvents(p + more)
  }

  /**
   The exact condition for events: no cut of the stream and no clean continuation shows a
   difference iff every lost blank line falls where neither data nor an event type is pending.
   */
  lemma SameEventsIffLossHarmless(s: Bytes)
    requires Whole(s)
    ensures KeepsEventsThroughout(s) <==> LossHarmless(FRESH, StripBom(s))
  {
    if LossHarmless(FRESH, StripBom(s)) {
      forall p: Bytes, more: Bytes | p <= s && Whole(p) && Clean(more) ensures SameEvents(p + more) {
        HarmlessCut(s, p, more);
      }
    } else {
      var p, more := HarmfulCut(s);
    }
  }

  lemma HarmlessCut(s: Bytes, p: Bytes, more: Bytes)
    requires LossHarmless(FRESH, StripBom(s)) && p <= s && Whole(p) && Clean(more)
    ensures SameEvents(p + more)
  {
    if p == [] {
      assert p + more == more;
      RelayKeepsEvents(more);
    } else {
      assert s == p + s[|p|..];
      var t := StripBom(p);
      StripBomFront(p, s[|p|..]);
      StripBomFront(p, more);
      LossConcat(FRESH, t, s[|p|..]);
      CleanIffNoBadLines(more);
      NoLossHarmless(Interpret(LineByLine(t, false)), more);
      LossConcat(FRESH, t, more);
      HarmlessKeepsEvents(p + more);
    }
  }

  lemma HarmfulCut(s: Bytes) returns (p: Bytes, more: Bytes)
    requires Whole(s) && !LossHarmless(FRESH, StripBom(s))
    ensures p <= s && Whole(p) && Clean(more) && !SameEvents(p + more)
  {
    StripWhole(s);
    var front, raw := FirstHarm(FRESH, StripBom(s));
    more := HarmShows(front, raw);
    Associative(front, raw, [LF]);
    p := BomBack(s, front + (raw + [LF]));
    StripBomFront(p, more);
    UnderstoodRelayed(p + more);
  }

  lemma StripWhole(s: Bytes)
    requires Whole(s)
    ensures Whole(StripBom(s))
  {
  }

  lemma BomBack(s: Bytes, q: Bytes) returns (p: Bytes)
    requires q <= StripBom(s) && q != [] && Whole(q)
    ensures p <= s && p != [] && Whole(p) && StripBom(p) == q
  {
    if BOM <= s {
      p := BOM + q;
      assert s == BOM + StripBom(s);
    } else {
      p := q;
      assert BOM <= q ==> BOM <= s;
    }
  }

  // ---- The frame that tells the client of a failure ----

  const ERROR: Bytes := [101, 114, 114, 111, 114]

  /** "Connection closed" */
  const CLOSED: Bytes := [67, 111, 110, 110, 101, 99, 116, 105, 111, 110, 32, 99, 108, 111, 115, 101, 100]

  function FieldLine(name: Bytes, value: Bytes): Bytes { name + [COLON, SPACE] + value }

  const FRAME: Bytes := FieldLine(EVENT, ERROR) + [LF] + (FieldLine(DATA, CLOSED) + [LF] + ([] + [LF] + []))

  predicate IsAscii(s: string) { forall i | 0 <= i < |s| :: s[i] as int < 128 }

  function Ascii(s: string): Bytes
    requires IsAscii(s)
  {
    seq(|s|, i requires 0 <= i < |s| => var b: Byte := s[i] as int; b)
  }

  /** The words of the event stream format, and the ones the frame adds. */
  lemma Words()
    ensures DATA == Ascii("data") && EVENT == Ascii("event") && ID == Ascii("id") && RETRY == Ascii("retry")
    ensures MESSAGE == Ascii("message") && [COLON, SPACE] == Ascii(": ") && [CR, LF] == Ascii("\r\n")
    ensures ERROR == Ascii("error") && CLOSED == Ascii("Connection closed")
  {
  }

  lemma AsciiConcat(a: string, b: string)
    requires IsAscii(a) && IsAscii(b)
    ensures IsAscii(a + b) && Ascii(a + b) == Ascii(a) + Ascii(b)
  {
  }

  /** The frame is this text. */
  lemma FrameText()
    ensures FRAME == Ascii("event" + (": " + ("error" + ("\n" + ("data" + (": " + ("Connection closed" + "\n\n")))))))
  {
    Words();
    AsciiConcat("Connection closed", "\n\n");
    AsciiConcat(": ", "Connection closed" + "\n\n");
    AsciiConcat("data", ": " + ("Connection closed" + "\n\n"));
    AsciiConcat("\n", "data" + (": " + ("Connection closed" + "\n\n")));
    AsciiConcat("error", "\n" + ("data" + (": " + ("Connection closed" + "\n\n"))));
    AsciiConcat(": ", "error" + ("\n" + ("data" + (": " + ("Connection closed" + "\n\n")))));
    AsciiConcat("event", ": " + ("error" + ("\n" + ("data" + (": " + ("Connection closed" + "\n\n"))))));
    assert FRAME == EVENT + ([COLON, SPACE] + (ERROR + ([LF] + (DATA + ([COLON, SPACE] + (CLOSED + [LF, LF]))))));
    assert Ascii("\n") == [LF] && Ascii("\n\n") == [LF, LF];
  }

  const FRAME_LINES: seq<Bytes> := [FieldLine(EVENT, ERROR)] + ([FieldLine(DATA, CLOSED)] + (BLANK + []))

  /** What the frame dispatches to a client: the data still pending there goes into it. */
  function ErrorEvent(c: Client): Event { Event(ERROR, c.data + CLOSED, c.idBuffer) }

  lemma {:induction false} ColonBehind(name: Bytes, more: Bytes)
    requires COLON !in name
    ensures ColonAt(name + [COLON] + more) == |name|
  {
    if name == [] {
      assert ([] + [COLON] + more)[0] == COLON;
    } else {
      assert (name + [COLON] + more)[1..] == name[1..] + [COLON] + more;
      ColonBehind(name[1..], more);
    }
  }

  lemma FieldLineSets(c: Client, name: Bytes, value: Bytes)
    requires name != [] && COLON !in name
    ensures ProcessLine(c, FieldLine(name, value)) == Field(c, name, value)
  {
    var line := FieldLine(name, value);
    assert line == name + [COLON] + ([SPACE] + value);
    ColonBehind(name, [SPACE] + value);
    assert line[..|name|] == name && line[|name| + 1..] == [SPACE] + value;
    assert ([SPACE] + value)[1..] == value;
  }

  lemma FrameDispatches(c: Client)
    ensures Continue(c, FRAME_LINES).events == c.events + [ErrorEvent(c)]
  {
    var d, e := Field(c, EVENT, ERROR), Field(Field(c, EVENT, ERROR), DATA, CLOSED);
    ContinueConcat(c, [FieldLine(EVENT, ERROR)], [FieldLine(DATA, CLOSED)] + (BLANK + []));
    ContinueConcat(d, [FieldLine(DATA, CLOSED)], BLANK + []);
    ContinueOne(c, FieldLine(EVENT, ERROR));
    ContinueOne(d, FieldLine(DATA, CLOSED));
    ContinueOne(e, []);
    FieldLineSets(c, EVENT, ERROR);
    FieldLineSets(d, DATA, CLOSED);
    assert BLANK + [] == [[]];
    assert e.data == c.data + CLOSED + [LF] && e.data[..|e.data| - 1] == c.data + CLOSED;
  }

  lemma TwoLinesAndBlank(a: Bytes, b: Bytes)
    requires LF !in a && CR !in a && LF !in b && CR !in b
    ensures LineByLine(a + [LF] + (b + [LF] + ([] + [LF] + [])), true) == [a] + ([b] + (BLANK + []))
  {
    PlainLine(a, b + [LF] + ([] + [LF] + []), true);
    PlainLine(b, [] + [LF] + [], true);
    PlainLine([], [], true);
    assert LineByLine([], true) == [];
  }

  lemma FrameLineByLine()
    ensures LineByLine(FRAME, true) == FRAME_LINES
  {
    TwoLinesAndBlank(FieldLine(EVENT, ERROR), FieldLine(DATA, CLOSED));
  }

  /** Behind a line end the frame adds its one event and leaves the earlier ones alone. */
  lemma FrameMeaning(sent: Bytes)
    requires Whole(sent)
    ensures Understood(sent + FRAME).events == Understood(sent).events + [ErrorEvent(Understood(sent))]
  {
    var s := StripBom(sent);
    FrameLineByLine();
    FrameBehind(sent);
    EventsLineByLine(s + FRAME);
    LineByLineConcat(s, FRAME, true);
    ContinueConcat(FRESH, LineByLine(s, true), FRAME_LINES);
    FrameDispatches(Interpret(LineByLine(s, true)));
    LinesOfRelayed(s);
    WholeEnds(START, s);
  }

  lemma FrameBehind(sent: Bytes)
    requires Whole(sent)
    ensures StripBom(sent + FRAME) == StripBom(sent) + FRAME && Whole(StripBom(sent))
  {
    if sent == [] {
      assert sent + FRAME == FRAME && FRAME[0] == EVENT[0];
    } else {
      StripBomFront(sent, FRAME);
    }
  }

  /** A line feed leaves no unfinished line. */
  lemma WholeEnds(st: Splitter, s: Bytes)
    requires Whole(s) && st.cur == []
    ensures Run(st, s).cur == []
  {
    if s != [] { AfterCrEmpty(st, s[..|s| - 1]); }
  }

  lemma {:induction false} AfterCrEmpty(st: Splitter, s: Bytes)
    requires st.cur == []
    ensures Run(st, s).afterCr ==> Run(st, s).cur == []
  {
    if s != [] { AfterCrEmpty(st, s[..|s| - 1]); }
  }

  /** What a client would have understood if the unfinished last line counted. */
  function Completed(s: Bytes): Client { Interpret(AllLines(Run(START, StripBom(s)))) }

  lemma {:induction false} RelayedWhole(s: Bytes)
    ensures Whole(Relayed(s))
    decreases |s|
  {
    if s != [] {
      RelayedWhole(AfterLine(s));
      var head := DropCr(s[..FirstLf(s)]) + [LF];
      assert Relayed(s) == head + Relayed(AfterLine(s));
    }
  }

  lemma RelayedCompletes(s: Bytes)
    requires Clean(s)
    ensures Understood(Relayed(s)) == Completed(s)
  {
    UnderstoodRelayed(s);
    CleanAfterBom(s);
    SameLinesIffClean(StripBom(s));
  }

  lemma OnlyTheText(c: Client)
    ensures ErrorEvent(c).data == CLOSED <==> c.data == []
  {
    assert |c.data + CLOSED| == |c.data| + |CLOSED|;
    if c.data == [] { assert [] + CLOSED == CLOSED; }
  }

  /**
   A clean stream and then the frame: the client gets the stream's events and one more, which takes in
   what was pending, the unfinished last line included.
   */
  lemma RelayedThenFrame(s: Bytes)
    requires Clean(s)
    ensures Understood(Relayed(s) + FRAME).events == Understood(s).events + [ErrorEvent(Completed(s))]
    ensures ErrorEvent(Completed(s)).data == CLOSED <==> Completed(s).data == []
  {
    RelayedWhole(s);
    FrameMeaning(Relayed(s));
    RelayKeepsEvents(s);
    RelayedCompletes(s);
    OnlyTheText(Completed(s));
  }

  lemma OneFieldUnderstood(name: Bytes, text: Bytes)
    requires name != [] && COLON !in name && LF !in name && CR !in name && LF !in text && CR !in text
            && name[0] != BOM[0]
    ensures Understood(FieldLine(name, text) + [LF]) == Field(FRESH, name, text)
  {
    var line := FieldLine(name, text);
    var s := line + [LF];
    assert s[0] == name[0];
    assert LF !in line && CR !in line;
    PlainBlock(line);
    assert DropCr(line) == line;
    ContinueOne(FRESH, line);
    FieldLineSets(FRESH, name, text);
  }

  lemma PlainRelayed(line: Bytes)
    requires LF !in line && CR !in line
    ensures Relayed(line + [LF]) == line + [LF]
  {
    assert line + [LF] + [] == line + [LF];
    RelayedParts(line, []);
  }

  /** A data line and then the frame: the data goes out under the wrong type, with the frame's own text behind it. */
  lemma SwallowedWitness(text: Bytes)
    requires LF !in text && CR !in text
    ensures var s := FieldLine(DATA, text) + [LF];
            Understood(s).events == []
            && Understood(Relayed(s) + FRAME).events == [Event(ERROR, text + [LF] + CLOSED, [])]
  {
    var s := FieldLine(DATA, text) + [LF];
    assert CR !in FieldLine(DATA, text) && LF !in FieldLine(DATA, text);
    PlainRelayed(FieldLine(DATA, text));
    OneFieldUnderstood(DATA, text);
    FrameMeaning(s);
    assert [] + text == text;
  }

  lemma {:induction false} EventsGrow(c: Client, lines: seq<Bytes>)
    ensures c.events <= Continue(c, lines).events
  {
    if lines != [] {
      EventsGrow(c, lines[..|lines| - 1]);
    }
  }

  /** Up to a line end, a stream has dispatched the first of its events. */
  lemma EventsOfPrefix(p: Bytes, s: Bytes)
    requires p <= s && Whole(p)
    ensures Understood(p).events <= Understood(s).events
  {
    var more := s[|p|..];
    assert s == p + more;
    if p == [] {
      EventsGrow(FRESH, Lines(StripBom(s)));
    } else {
      var t := StripBom(p);
      StripBomFront(p, more);
      EventsLineByLine(t);
      EventsLineByLine(t + more);
      LineByLineConcat(t, more, true);
      ContinueConcat(FRESH, LineByLine(t, true), LineByLine(more, true));
      EventsGrow(Interpret(LineByLine(t, true)), LineByLine(more, true));
    }
  }

  // ---- What one CR CR LF does ----

  lemma {:induction false} RunPlain(st: Splitter, text: Bytes)
    requires text != [] && LF !in text && CR !in text
    ensures Run(st, text) == Splitter(st.lines, st.cur + text, false)
  {
    if |text| > 1 {
      RunPlain(st, text[..|text| - 1]);
      assert st.cur + text[..|text| - 1] + [text[|text| - 1]] == st.cur + text;
    } else {
      assert text[..0] == [] && text == [text[0]];
    }
  }

  lemma PlainThenCr(text: Bytes)
    requires text != [] && LF !in text && CR !in text
    ensures Run(START, text + [CR]) == Splitter([text], [], true)
  {
    RunPlain(START, text);
    FeedLast(START, text, CR);
    assert START.cur + text == text;
  }

  /** A line ended by CR CR LF is followed by a blank line, one ended by CR LF is not. */
  lemma CrCrLfAddsBlank(text: Bytes)
    requires text != [] && LF !in text && CR !in text
    ensures Lines(text + [CR, CR, LF]) == [text, []] && Lines(text + [CR, LF]) == [text]
  {
    var s1 := text + [CR];
    PlainThenCr(text);
    FeedLast(START, s1, CR);
    FeedLast(START, s1 + [CR], LF);
    FeedLast(START, s1, LF);
    assert s1 + [CR] + [LF] == text + [CR, CR, LF] && s1 + [LF] == text + [CR, LF];
  }

  lemma DataUnderstood()
    ensures Interpret([DATA]).events == [] && |Interpret([DATA, []]).events| == 1
  {
    ContinueOne(FRESH, DATA);
    NonBlankDispatchesNothing(FRESH, DATA);
    Probe(FRESH);
  }

  /** CR CR LF really loses an event: the original dispatches one, the relayed stream none. */
  lemma LostEventWitness()
    ensures var s := DATA + [CR, CR, LF];
            |Understood(s).events| == 1 && Understood(Relayed(s)).events == []
  {
    var raw := DATA + [CR, CR];
    assert DATA + [CR, CR, LF] == raw + [LF] + [];
    FirstLine(raw, []);
    assert DropCr(raw) == DATA + [CR];
    RelayedParts(raw, []);
    assert Relayed(raw + [LF] + []) == DATA + [CR, LF];
    CrCrLfAddsBlank(DATA);
    DataUnderstood();
  }
}
