/**
 The SSE relay on the heap: scan a line, append a line feed inside the scanner's buffer, write the line
 to the client, then queue the same slice for capture. The queued slices alias the scanner's buffer.
 */
module SseRelay {
  import opened Prelude
  import opened SseStream
  import opened SseScanner

  /** Every raw line, with its line feed, fits the scanner's limit. */
  predicate Fits(s: Bytes, maxToken: nat)
    decreases |s|
  {
    s == [] || (FirstLf(s) < maxToken && Fits(AfterLine(s), maxToken))
  }

  /**
   Some line is too long for the scanner whatever the reads: a terminated one at the limit, or more than the
   limit unfinished.
   */
  predicate Overlong(s: Bytes, maxToken: nat)
    decreases |s|
  {
    s != [] && ((FirstLf(s) >= maxToken && FirstLf(s) < |s|) || FirstLf(s) > maxToken
        || Overlong(AfterLine(s), maxToken))
  }

  /** The stream up to its first line that does not fit. */
  function BeforeLong(s: Bytes, maxToken: nat): Bytes
    decreases |s|
  {
    if s == [] || FirstLf(s) >= maxToken then [] else s[..LineSize(s)] + BeforeLong(AfterLine(s), maxToken)
  }

  /** What is sent for the first line of a stream. */
  function LineOut(p: Bytes): Bytes { DropCr(p[..FirstLf(p)]) + [LF] }

  /** The lines that are sent for a stream, one write each. */
  function RelayedLines(s: Bytes): seq<Bytes>
    decreases |s|
  {
    if s == [] then [] else [LineOut(s)] + RelayedLines(AfterLine(s))
  }

  lemma {:induction false} LinesMakeRelayed(s: Bytes)
    ensures Flatten(RelayedLines(s)) == Relayed(s) && |RelayedLines(s)| <= |s|
    decreases |s|
  {
    if s != [] {
      LinesMakeRelayed(AfterLine(s));
      FlattenFirst(RelayedLines(s));
      assert RelayedLines(s)[1..] == RelayedLines(AfterLine(s));
    }
  }

  lemma OverlongDoesNotFit(s: Bytes, maxToken: nat)
    requires Overlong(s, maxToken)
    ensures !Fits(s, maxToken)
    decreases |s|
  {
    if !Overlong(AfterLine(s), maxToken) {} else { OverlongDoesNotFit(AfterLine(s), maxToken); }
  }

  lemma ProgressKeepsLimits(p: Bytes, maxToken: nat)
    requires p != [] && WithinLimit(p, maxToken)
    ensures Overlong(p, maxToken) <==> Overlong(AfterLine(p), maxToken)
    ensures Fits(p, maxToken) ==> Fits(AfterLine(p), maxToken)
  {
  }

  /** The array with the line feed written where it landed, if it landed there. */
  function WithLf(a: Bytes, lf: Option<nat>): Bytes {
    if lf.Some? && lf.value < |a| then a[lf.value := LF] else a
  }

  lemma UpdateOutside(a: Bytes, i: nat, lo: nat, hi: nat)
    requires lo <= hi <= |a| && (i < lo || hi <= i)
    ensures i < |a| ==> a[i := LF][lo..hi] == a[lo..hi]
  {
  }

  /** The array after a turn that did e to it and appended at lf, if it did so there. */
  function After(b: Snapshot, e: Effect, lf: Option<nat>): Bytes
    requires b.Allows(e)
  {
    WithLf(ReadArray(b.was, b.start, b.end, b.p, e), lf)
  }

  function ByteAfter(b: Snapshot, e: Effect, lf: Option<nat>, i: nat): Byte
    requires b.Allows(e) && i < |b.was|
  {
    if lf == Some(i) then LF else ReadByte(b.was, b.start, b.end, b.p, e, i)
  }

  /** Whatever was moved, read or appended at index i was there already. */
  predicate SurvivesAt(b: Snapshot, e: Effect, lf: Option<nat>, i: nat)
    requires b.Allows(e) && i < |b.was|
  {
    if lf == Some(i) then b.was[i] == LF
    else if i < e.front then b.was[i] == b.p[i]
    else if b.end <= i < e.mark then b.was[i] == b.p[i - b.start]
    else true
  }

  predicate Survives(b: Snapshot, e: Effect, lf: Option<nat>, lo: nat, hi: nat)
    requires b.Allows(e) && hi <= |b.was|
  {
    forall i | lo <= i < hi :: SurvivesAt(b, e, lf, i)
  }

  /** The line with its line feed, and where it lies if that is in the scanner's array. */
  ghost predicate LineThere(sc: Scanner, b: Snapshot, e: Effect, data: Slice)
    reads sc, data.arr
  {
    && data.Valid() && data.lo < data.hi && data.Contents() == LineOut(b.p)
    && (data.arr == sc.buf ==>
          && data.lo == b.From(e, sc.buf == b.arr)
          && (data.hi <= sc.start || (data.hi == sc.end + 1 && sc.start == sc.end && sc.err.Some?)))
  }

  /** The array the turn started with, append included. `lf` is where the line feed landed in it, if it did. */
  ghost predicate ArrayKnown(b: Snapshot, e: Effect, lf: Option<nat>, data: Slice)
    reads b.arr
  {
    && b.Allows(e) && b.arr[..] == After(b, e, lf)
    && (if data.arr == b.arr then lf.Some? && lf.value + 1 == data.hi <= |b.was| else lf == None)
  }

  /** The append: it lands below the unread bytes, or just past them when there are none. */
  method AppendBehind(sc: Scanner, tok: Slice, ghost b: Snapshot, ghost e: Effect, ghost p: Bytes)
    returns (data: Slice, ghost lf: Option<nat>)
    requires sc.Valid() && sc.Unread() == p && tok.Valid() && tok.arr == sc.buf && tok.lo == b.From(e, sc.buf == b.arr)
    requires tok.hi < sc.start || (tok.hi == sc.start == sc.end && sc.err.Some?)
    requires tok.Contents() + [LF] == LineOut(b.p)
    requires b.Allows(e) && b.arr[..] == ReadArray(b.was, b.start, b.end, b.p, e)
    modifies sc.buf
    ensures sc.Unread() == p && LineThere(sc, b, e, data) && ArrayKnown(b, e, lf, data)
    ensures data.arr == sc.buf || (fresh(data.arr) && sc.start == sc.end == sc.buf.Length && sc.err.Some?)
  {
    ghost var was := sc.buf[..];
    data := AppendNewline(tok);
    UpdateOutside(was, tok.hi, sc.start, sc.end);
    assert sc.buf[sc.start..sc.end] == sc.buf[..][sc.start..sc.end] == was[sc.start..sc.end];
    lf := if data.arr == b.arr then Some(tok.hi) else None;
  }

  /**
   Scan and append. However the line feed lands, it overwrites this line's own CR or LF or the byte just
   past the buffered data, so what the scanner has yet to yield is exactly the rest of the stream. `b` is the
   scanner before the turn.
   */
  method NextLine(sc: Scanner, ghost b: Snapshot)
    returns (ok: bool, data: Slice, ghost e: Effect, ghost lf: Option<nat>)
    requires sc.Valid() && sc.err != Some(TooLong) && b.Of(sc)
    modifies sc, sc.buf
    ensures sc.Valid() && (sc.buf == b.arr
            || (fresh(sc.buf) && sc.buf.Length > |b.was| && GrowsOnlyIf(sc.buf.Length, b.p)))
    ensures Took(b.p, sc.maxToken, ok, sc.err, sc.Unread())
    ensures b.Settles(e, ok, sc.buf == b.arr, sc.start, sc.end, sc.err)
    ensures if ok then LineThere(sc, b, e, data) && ArrayKnown(b, e, lf, data)
            else b.Allows(e) && lf == None && b.arr[..] == After(b, e, None)
    ensures ok ==> data.arr == sc.buf || (fresh(data.arr) && sc.start == sc.end == sc.buf.Length && sc.err.Some?)
  {
    ok, data, e := sc.Scan(b);
    lf := None;
    if ok {
      ghost var p := AfterLine(b.p);
      data, lf := AppendBehind(sc, data, b, e, p);
    }
  }

  // ---- What a turn leaves of earlier lines ----

  /** Exactly when the bytes [lo, hi) of the array come out of a turn as they were. */
  lemma TurnSurvivesIff(b: Snapshot, e: Effect, lf: Option<nat>, lo: nat, hi: nat)
    requires b.Allows(e) && lo <= hi <= |b.was| && (lf.Some? ==> lf.value < |b.was|)
    ensures After(b, e, lf)[lo..hi] == b.was[lo..hi] <==> Survives(b, e, lf, lo, hi)
  {
    var now := After(b, e, lf);
    forall i | 0 <= i < |b.was| ensures now[i] == ByteAfter(b, e, lf, i) { AfterAt(b, e, lf, i); }
    SameWindowIff(now, b.was, lo, hi);
    BytesSurviveIff(b, e, lf, lo, hi);
  }

  lemma AfterAt(b: Snapshot, e: Effect, lf: Option<nat>, i: nat)
    requires b.Allows(e) && i < |b.was|
    ensures |After(b, e, lf)| == |b.was| && After(b, e, lf)[i] == ByteAfter(b, e, lf, i)
  {
  }

  lemma BytesSurviveIff(b: Snapshot, e: Effect, lf: Option<nat>, lo: nat, hi: nat)
    requires b.Allows(e) && lo <= hi <= |b.was| && (lf.Some? ==> lf.value < |b.was|)
    ensures (forall i | lo <= i < hi :: ByteAfter(b, e, lf, i) == b.was[i]) <==> Survives(b, e, lf, lo, hi)
  {
    forall i | lo <= i < hi ensures ByteAfter(b, e, lf, i) == b.was[i] <==> SurvivesAt(b, e, lf, i) { }
  }

  lemma SameWindowIff(a: Bytes, b: Bytes, lo: nat, hi: nat)
    requires lo <= hi <= |a| && hi <= |b|
    ensures a[lo..hi] == b[lo..hi] <==> forall i | lo <= i < hi :: a[i] == b[i]
  {
    if a[lo..hi] == b[lo..hi] {
      forall i | lo <= i < hi ensures a[i] == b[i] { assert a[lo..hi][i - lo] == b[lo..hi][i - lo]; }
    }
  }

  /** The exact fate of any window into the scanner's array over one turn. */
  method WindowThroughTurn(sc: Scanner, ghost s: Slice, ghost b: Snapshot)
    returns (ok: bool, data: Slice, ghost e: Effect, ghost lf: Option<nat>)
    requires sc.Valid() && sc.err != Some(TooLong) && b.Of(sc) && s.Valid() && s.arr == sc.buf
    modifies sc, sc.buf
    ensures s.Valid() && b.Allows(e)
            && (lf.Some? ==> ok && data.arr == s.arr && lf.value + 1 == data.hi <= s.arr.Length)
    ensures s.Contents() == old(s.Contents()) <==> Survives(b, e, lf, s.lo, s.hi)
  {
    ok, data, e, lf := NextLine(sc, b);
    TurnSurvivesIff(b, e, lf, s.lo, s.hi);
    assert s.arr[..][s.lo..s.hi] == s.Contents();
  }

  /** A region of an array that was overwritten. */
  datatype Touch = Touch(arr: array<Byte>, lo: nat, hi: nat)

  predicate Apart(s: Slice, t: Touch) { t.arr != s.arr || t.hi <= s.lo || s.hi <= t.lo || t.hi <= t.lo }

  predicate AllApart(s: Slice, touches: seq<Touch>) { forall k | 0 <= k < |touches| :: Apart(s, touches[k]) }

  /** What a turn overwrote: the region behind a move, the region read into before it, and an append past the data. */
  function Touches(arr: array<Byte>, end: nat, e: Effect, past: Option<Touch>): seq<Touch> {
    [Touch(arr, 0, e.front), Touch(arr, end, e.mark)] + (if past.Some? then [past.value] else [])
  }

  predicate Outside(s: Slice, start: nat, end: nat) { s.hi <= start || end <= s.lo || start == end }

  /** The slice reads the line and has no byte in common with the unread ones. */
  ghost predicate SliceOk(sc: Scanner, s: Slice, line: Bytes)
    reads sc, sc.buf, s.arr
    requires sc.Valid()
  {
    s.Valid() && s.lo < s.hi && s.Contents() == line && (s.arr == sc.buf ==> Outside(s, sc.start, sc.end))
  }

  /**
   What was written and queued, and what has been overwritten since the start. Stamp i is the length of the
   log when slice i was queued; `stayed` says that nothing was ever moved to the front of an array.
   */
  datatype History = History(lines: seq<Bytes>, stamps: seq<nat>, log: seq<Touch>, stayed: bool)

  const NOTHING := History([], [], [], true)

  /**
   A queued slice still reads what was written as long as no later move, read or append has touched its
   region. As long as nothing was ever moved, nothing ever does.
   */
  ghost predicate Intact(sc: Scanner, queue: seq<Slice>, h: History)
    reads sc, sc.buf, set i | 0 <= i < |queue| :: queue[i].arr
    requires sc.Valid()
  {
    && |queue| == |h.lines| == |h.stamps|
    && (forall i | 0 <= i < |queue| :: h.stamps[i] <= |h.log|)
    && (forall i | 0 <= i < |queue| && AllApart(queue[i], h.log[h.stamps[i]..]) :: SliceOk(sc, queue[i], h.lines[i]))
    && (h.stayed ==> forall i | 0 <= i < |queue| ::
          AllApart(queue[i], h.log[h.stamps[i]..]) && (queue[i].arr == sc.buf ==> Below(sc, queue[i])))
  }

  /** Below the unread bytes, or at the end of everything. */
  predicate Below(sc: Scanner, s: Slice)
    reads sc
  {
    s.hi <= sc.start || (sc.start == sc.end && sc.err.Some?)
  }

  lemma NeverMoved(sc: Scanner, queue: seq<Slice>, h: History)
    requires sc.Valid() && Intact(sc, queue, h) && h.stayed
    ensures AllGood(queue, h.lines)
  {
    forall i | 0 <= i < |queue| ensures queue[i].Valid() && queue[i].Contents() == h.lines[i] {
      assert SliceOk(sc, queue[i], h.lines[i]);
    }
  }

  function Queued(h: History, line: Bytes): History {
    History(h.lines + [line], h.stamps + [|h.log|], h.log, h.stayed)
  }

  lemma QueueOne(sc: Scanner, queue: seq<Slice>, h: History, data: Slice, line: Bytes)
    requires sc.Valid() && Intact(sc, queue, h) && SliceOk(sc, data, line) && (data.arr == sc.buf ==> Below(sc, data))
    ensures Intact(sc, queue + [data], Queued(h, line))
  {
    assert h.log[|h.log|..] == [];
  }

  lemma BeforeLongStep(p: Bytes, maxToken: nat)
    requires FirstLf(p) < maxToken && FirstLf(p) < |p|
    ensures RelayedLines(BeforeLong(p, maxToken)) == [LineOut(p)] + RelayedLines(BeforeLong(AfterLine(p), maxToken))
  {
    var raw, more := p[..FirstLf(p)], BeforeLong(AfterLine(p), maxToken);
    assert p[..LineSize(p)] == raw + [LF];
    FirstLine(raw, more);
  }

  /** The append hit this line's own CR or LF, among the bytes now in the buffer, or the byte logged as past them. */
  predicate Placed(arr: array<Byte>, from: nat, e: Effect, lf: Option<nat>, past: Option<Touch>) {
    lf.Some? ==>
      past == Some(Touch(arr, lf.value, lf.value + 1)) ||
      (lf.value < (if e.moves then e.front else e.mark) && (!e.moves ==> from <= lf.value))
  }

  lemma ApartFrom(s: Slice, end: nat, e: Effect, past: Option<Touch>)
    requires AllApart(s, Touches(s.arr, end, e, past))
    ensures Apart(s, Touch(s.arr, 0, e.front)) && Apart(s, Touch(s.arr, end, e.mark))
    ensures past.Some? ==> Apart(s, past.value)
  {
    var t := Touches(s.arr, end, e, past);
    assert t[0] == Touch(s.arr, 0, e.front) && t[1] == Touch(s.arr, end, e.mark);
    assert past.Some? ==> t[2] == past.value;
  }

  /** A slice apart from everything a turn overwrote keeps its bytes. */
  lemma KeptApart(b: Snapshot, e: Effect, lf: Option<nat>, past: Option<Touch>, s: Slice)
    requires b.Allows(e) && s.arr == b.arr && s.lo < s.hi <= |b.was| && (lf.Some? ==> lf.value < |b.was|)
    requires Outside(s, b.start, b.end) && Placed(b.arr, b.start, e, lf, past)
    requires AllApart(s, Touches(b.arr, b.end, e, past))
    ensures After(b, e, lf)[s.lo..s.hi] == b.was[s.lo..s.hi]
  {
    ApartFrom(s, b.end, e, past);
    TurnSurvivesIff(b, e, lf, s.lo, s.hi);
  }

  /** After the turn the slice is still outside what is unread. */
  lemma StillOutside(s: Slice, start: nat, end: nat, e: Effect, past: Option<Touch>, start': nat, end': nat)
    requires s.lo < s.hi && start <= end <= e.mark && Outside(s, start, end) && start' <= end'
    requires AllApart(s, Touches(s.arr, end, e, past))
    requires start' == end' || (end' == (if e.moves then e.front else e.mark) && (!e.moves ==> start <= start'))
    ensures Outside(s, start', end')
  {
    ApartFrom(s, end, e, past);
  }

  lemma SameWindow(s: Slice, was: Bytes)
    requires s.Valid() && |was| == s.arr.Length && s.arr[..][s.lo..s.hi] == was[s.lo..s.hi]
    ensures s.Contents() == was[s.lo..s.hi]
  {
  }

  /** A slice of the array apart from everything the turn overwrote reads what it read. */
  lemma StaysGood(sc: Scanner, b: Snapshot, e: Effect, lf: Option<nat>, past: Option<Touch>, s: Slice)
    requires sc.Valid() && b.Allows(e) && b.arr[..] == After(b, e, lf) && |b.was| == b.arr.Length
    requires s.arr == b.arr && s.lo < s.hi <= |b.was| && (lf.Some? ==> lf.value < |b.was|)
    requires Outside(s, b.start, b.end) && Placed(b.arr, b.start, e, lf, past)
    requires AllApart(s, Touches(b.arr, b.end, e, past))
    requires sc.buf == b.arr ==>
               || sc.start == sc.end
               || (sc.end == (if e.moves then e.front else e.mark) && (!e.moves ==> b.start <= sc.start))
    ensures SliceOk(sc, s, b.was[s.lo..s.hi])
  {
    KeptApart(b, e, lf, past, s);
    SameWindow(s, b.was);
    if b.arr == sc.buf { StillOutside(s, b.start, b.end, e, past, sc.start, sc.end); }
  }

  lemma AllApartConcat(s: Slice, a: seq<Touch>, b: seq<Touch>)
    requires AllApart(s, a + b)
    ensures AllApart(s, a) && AllApart(s, b)
  {
    forall k | 0 <= k < |a| ensures Apart(s, a[k]) { assert (a + b)[k] == a[k]; }
    forall k | 0 <= k < |b| ensures Apart(s, b[k]) { assert (a + b)[|a| + k] == b[k]; }
  }

  lemma OwnPlace(b: Snapshot, buf: array<Byte>, e: Effect, lf: Option<nat>, past: Option<Touch>, data: Slice,
                 start': nat, end': nat)
    requires lf.Some? ==> buf == b.arr && lf.value + 1 == data.hi && data.lo <= lf.value
    requires if data.hi > start' then past == Some(Touch(buf, data.hi - 1, data.hi)) else past == None && start' <= end'
    requires lf.Some? ==> end' == (if e.moves then e.front else e.mark) && (!e.moves ==> b.start == data.lo)
    ensures Placed(b.arr, b.start, e, lf, past)
  {
  }

  /** The line lies in the scanner's array, except that the last one is copied when the array is full to the end. */
  predicate InBuffer(sc: Scanner, data: Slice)
    reads sc
  {
    data.arr == sc.buf || (sc.start == sc.end == sc.buf.Length && sc.err.Some?)
  }

  /** A turn and what it adds to the log of overwritten regions. */
  method LoggedLine(sc: Scanner, ghost b: Snapshot)
    returns (ok: bool, data: Slice, ghost e: Effect, ghost lf: Option<nat>, ghost past: Option<Touch>)
    requires sc.Valid() && sc.err != Some(TooLong) && b.Of(sc)
    modifies sc, sc.buf
    ensures sc.Valid() && (sc.buf == b.arr || fresh(sc.buf)) && Took(b.p, sc.maxToken, ok, sc.err, sc.Unread())
    ensures ok ==> SliceOk(sc, data, LineOut(b.p)) && (data.arr == sc.buf ==> Below(sc, data))
    ensures ok ==> InBuffer(sc, data)
    ensures b.Settles(e, ok, sc.buf == b.arr, sc.start, sc.end, sc.err)
    ensures b.Allows(e) && (lf.Some? ==> lf.value < |b.was|) && b.arr[..] == After(b, e, lf)
    ensures PastOk(ok, data, sc.buf, sc.start, sc.end, past) && Placed(b.arr, b.start, e, lf, past)
  {
    ok, data, e, lf := NextLine(sc, b);
    past := PastData(ok, data, sc.buf, sc.start);
    ghost var at, last := sc.start, sc.end;
    if ok && data.arr == sc.buf {
      OwnPlace(b, sc.buf, e, lf, past, data, at, last);
    }
  }

  /** The append past the data, if there was one, is the last byte of the line and lies where everything ends. */
  predicate PastOk(ok: bool, data: Slice, buf: array<Byte>, start: nat, end: nat, past: Option<Touch>) {
    past.Some? ==>
      ok && data.arr == buf && data.hi == start + 1 == end + 1 && past.value == Touch(buf, start, data.hi)
  }

  ghost function PastData(ok: bool, data: Slice, buf: array<Byte>, start: nat): Option<Touch> {
    if ok && data.arr == buf && data.hi > start then Some(Touch(buf, data.hi - 1, data.hi)) else None
  }

  /** A slice below the unread bytes is apart from everything a turn overwrites that moves nothing to the front. */
  lemma BelowIsApart(s: Slice, arr: array<Byte>, start: nat, end: nat, e: Effect, past: Option<Touch>, start': nat)
    requires e.front == 0 && start <= end <= e.mark
    requires s.arr == arr ==> s.hi <= start || (start == end && e.mark == end && past == None)
    requires past.Some? ==> past.value.arr != s.arr || (past.value.arr == arr && start <= start' == past.value.lo)
    ensures AllApart(s, Touches(arr, end, e, past))
  {
  }

  lemma SuffixApart(s: Slice, log: seq<Touch>, added: seq<Touch>, from: nat)
    requires from <= |log|
    ensures AllApart(s, (log + added)[from..]) <==> AllApart(s, log[from..]) && AllApart(s, added)
  {
    assert (log + added)[from..] == log[from..] + added;
    if AllApart(s, log[from..] + added) { AllApartConcat(s, log[from..], added); }
  }

  lemma AllStayApart(queue: seq<Slice>, h: History, b: Snapshot, e: Effect, past: Option<Touch>, start': nat)
    requires |queue| == |h.stamps| && b.Allows(e) && e.front == 0
    requires b.ended && b.start == b.end ==> e.mark == b.end && past == None
    requires forall i | 0 <= i < |queue| ::
               && h.stamps[i] <= |h.log| && AllApart(queue[i], h.log[h.stamps[i]..])
               && (queue[i].arr == b.arr ==> queue[i].hi <= b.start || (b.start == b.end && b.ended))
               && (past.Some? ==>
                     past.value.arr != queue[i].arr || (past.value.arr == b.arr && b.start <= start' == past.value.lo))
    ensures forall i | 0 <= i < |queue| :: AllApart(queue[i], Logged(h, b, e, past).log[h.stamps[i]..])
  {
    forall i | 0 <= i < |queue| ensures AllApart(queue[i], Logged(h, b, e, past).log[h.stamps[i]..]) {
      BelowIsApart(queue[i], b.arr, b.start, b.end, e, past, start');
      SuffixApart(queue[i], h.log, Touches(b.arr, b.end, e, past), h.stamps[i]);
    }
  }

  function Logged(h: History, b: Snapshot, e: Effect, past: Option<Touch>): History {
    h.(log := h.log + Touches(b.arr, b.end, e, past), stayed := h.stayed && e.front == 0)
  }

  /** After a turn: a slice that read the line and was outside the unread bytes when the turn began. */
  ghost predicate Carried(sc: Scanner, b: Snapshot, s: Slice, line: Bytes)
    reads sc, s.arr
  {
    if s.arr == b.arr then s.lo < s.hi <= |b.was| && b.was[s.lo..s.hi] == line && Outside(s, b.start, b.end)
    else s.Valid() && s.lo < s.hi && s.Contents() == line && s.arr != sc.buf
  }

  /** Where the scanner is after a turn, as far as earlier slices go. */
  predicate Onward(b: Snapshot, e: Effect, start: nat, end: nat, err: Option<Fault>) {
    || (start == end && err.Some?)
    || (end == (if e.moves then e.front else e.mark) && (!e.moves || e.front == 0 ==> b.start <= start))
  }

  lemma SettlesOnward(b: Snapshot, e: Effect, ok: bool, start: nat, end: nat, err: Option<Fault>)
    requires b.Allows(e) && b.Settles(e, ok, true, start, end, err) && start <= end && (ok ==> b.p != [])
            && (!ok ==> err.Some?)
    ensures Onward(b, e, start, end, err)
  {
  }

  lemma StaysIntact(sc: Scanner, queue: seq<Slice>, h: History, b: Snapshot, e: Effect, lf: Option<nat>,
                    past: Option<Touch>)
    requires sc.Valid() && b.Allows(e) && b.arr[..] == After(b, e, lf) && |b.was| == b.arr.Length
    requires |queue| == |h.lines| == |h.stamps| && forall i | 0 <= i < |queue| :: h.stamps[i] <= |h.log|
    requires forall i | 0 <= i < |queue| && AllApart(queue[i], h.log[h.stamps[i]..]) ::
               Carried(sc, b, queue[i], h.lines[i])
    requires (lf.Some? ==> lf.value < |b.was|) && Placed(b.arr, b.start, e, lf, past)
    requires sc.buf == b.arr ==> Onward(b, e, sc.start, sc.end, sc.err)
    requires past.Some? ==> past.value.arr == sc.buf && past.value.lo == sc.start
    requires past.Some? && sc.buf == b.arr && e.front == 0 ==> b.start <= sc.start
    requires b.ended && b.start == b.end ==> e.mark == b.end && past == None
    requires h.stayed ==>
               forall i | 0 <= i < |queue| ::
                 && AllApart(queue[i], h.log[h.stamps[i]..])
                 && (queue[i].arr == b.arr ==>
                       queue[i].hi <= b.start || (b.start == b.end && b.ended && sc.start == sc.end && sc.err.Some?))
    ensures Intact(sc, queue, Logged(h, b, e, past))
  {
    var h', added := Logged(h, b, e, past), Touches(b.arr, b.end, e, past);
    forall i | 0 <= i < |queue| && AllApart(queue[i], h'.log[h.stamps[i]..]) ensures SliceOk(sc, queue[i], h.lines[i]) {
      SuffixApart(queue[i], h.log, added, h.stamps[i]);
      if queue[i].arr == b.arr { StaysGood(sc, b, e, lf, past, queue[i]); }
    }
    if h'.stayed { AllStayApart(queue, h, b, e, past, sc.start); }
  }

  /**
   Every line that does not start the stream begins in the first half of the first array and ends within it.
   `from` is where the stream starts.
   */
  predicate StaysPut(s: Bytes, from: nat)
    decreases |s|
  {
    s == [] ||
    ((from == 0 || (from <= START_SIZE / 2 && from + FirstLf(s) < START_SIZE))
        && StaysPut(AfterLine(s), from + LineSize(s)))
  }

  lemma {:induction false} ShortStaysPut(s: Bytes, from: nat)
    requires from + |s| <= START_SIZE / 2
    ensures StaysPut(s, from)
    decreases |s|
  {
    if s != [] { ShortStaysPut(AfterLine(s), from + LineSize(s)); }
  }

  lemma TurnStaysPut(b: Snapshot, e: Effect, ok: bool, same: bool, start': nat, end': nat, err': Option<Fault>)
    requires b.Allows(e) && b.Settles(e, ok, same, start', end', err') && (b.start > 0 ==> |b.was| >= START_SIZE)
    requires StaysPut(b.p, b.start) && (ok ==> b.p != [])
    ensures e.front == 0 && (ok ==> StaysPut(AfterLine(b.p), start'))
  {
    if b.p != [] { NoReasonToMove(|b.was|, b.start, b.p); }
  }

  lemma NoReasonToMove(length: nat, from: nat, p: Bytes)
    requires p != [] && StaysPut(p, from) && (from > 0 ==> length >= START_SIZE)
    ensures !MovesOnlyIf(length, from, p)
  {
  }

  /** One turn of the scanner. Earlier slices keep their bytes as long as nothing it overwrote meets their region. */
  method Advance(sc: Scanner, ghost queue: seq<Slice>, ghost h: History, ghost b: Snapshot)
    returns (ok: bool, data: Slice, ghost h': History, ghost e: Effect, ghost past: Option<Touch>)
    requires sc.Valid() && sc.err != Some(TooLong) && Intact(sc, queue, h) && b.Of(sc)
    modifies sc, sc.buf
    ensures sc.Valid() && (sc.buf == b.arr || fresh(sc.buf)) && Took(b.p, sc.maxToken, ok, sc.err, sc.Unread())
    ensures ok ==> SliceOk(sc, data, LineOut(b.p)) && (data.arr == sc.buf ==> Below(sc, data))
    ensures ok ==> InBuffer(sc, data)
    ensures Intact(sc, queue, h') && h' == Logged(h, b, e, past)
    ensures b.Allows(e) && PastOk(ok, data, sc.buf, sc.start, sc.end, past)
    ensures b.Settles(e, ok, sc.buf == b.arr, sc.start, sc.end, sc.err)
  {
    ghost var lf;
    ok, data, e, lf, past := LoggedLine(sc, b);
    h' := Logged(h, b, e, past);
    forall i | 0 <= i < |queue| && AllApart(queue[i], h.log[h.stamps[i]..])
      ensures Carried(sc, b, queue[i], h.lines[i])
    {
      assert queue[i].arr == b.arr ==> b.was[queue[i].lo..queue[i].hi] == h.lines[i];
    }
    if sc.buf == b.arr { SettlesOnward(b, e, ok, sc.start, sc.end, sc.err); }
    StaysIntact(sc, queue, h, b, e, lf, past);
  }

  /** The same, with nothing moved to the front for a stream that stays put. */
  method ScanLine(sc: Scanner, ghost queue: seq<Slice>, ghost h: History, ghost b: Snapshot)
    returns (ok: bool, data: Slice, ghost h': History, ghost e: Effect, ghost past: Option<Touch>)
    requires sc.Valid() && sc.err != Some(TooLong) && Intact(sc, queue, h) && b.Of(sc)
    modifies sc, sc.buf
    ensures sc.Valid() && (sc.buf == b.arr || fresh(sc.buf)) && Took(b.p, sc.maxToken, ok, sc.err, sc.Unread())
    ensures ok ==> SliceOk(sc, data, LineOut(b.p)) && (data.arr == sc.buf ==> Below(sc, data)) && InBuffer(sc, data)
    ensures Intact(sc, queue, h') && h' == Logged(h, b, e, past) && b.Allows(e)
    ensures sc.maxToken >= START_SIZE && StaysPut(b.p, b.start) ==>
              h'.stayed == h.stayed && (ok ==> StaysPut(sc.Unread(), sc.start))
  {
    ok, data, h', e, past := Advance(sc, queue, h, b);
    if sc.maxToken >= START_SIZE && StaysPut(b.p, b.start) {
      TurnStaysPut(b, e, ok, sc.buf == b.arr, sc.start, sc.end, sc.err);
    }
  }

  /** The lines that have come out of the stream so far, what is left, and what that will come to. */
  predicate Along(upstream: Bytes, maxToken: nat, lines: seq<Bytes>, p: Bytes) {
    && lines + RelayedLines(p) == RelayedLines(upstream)
    && (p != [] ==> lines + RelayedLines(BeforeLong(p, maxToken)) == RelayedLines(BeforeLong(upstream, maxToken)))
    && (Fits(upstream, maxToken) ==> Fits(p, maxToken))
    && (Overlong(upstream, maxToken) ==> Overlong(p, maxToken))
  }

  lemma AlongOne(upstream: Bytes, maxToken: nat, lines: seq<Bytes>, p: Bytes)
    requires Along(upstream, maxToken, lines, p) && p != [] && WithinLimit(p, maxToken)
    ensures Along(upstream, maxToken, lines + [LineOut(p)], AfterLine(p))
  {
    ProgressKeepsLimits(p, maxToken);
    Associative(lines, [LineOut(p)], RelayedLines(AfterLine(p)));
    if AfterLine(p) != [] {
      BeforeLongStep(p, maxToken);
      Associative(lines, [LineOut(p)], RelayedLines(BeforeLong(AfterLine(p), maxToken)));
    }
  }

  /** The part of the stream whose lines are sent when scanning ends as it does. */
  function Got(upstream: Bytes, maxToken: nat, why: Fault): Bytes {
    if why.TooLong? then BeforeLong(upstream, maxToken) else upstream
  }

  /** What follows the lines: nothing at the end of the stream, and a frame after any other end. */
  function Closing(why: Fault): seq<Bytes> { if why.EndOfStream? then [] else [FRAME] }

  /** Everything a client that takes it all is written, one write after the other. */
  function Writes(upstream: Bytes, maxToken: nat, why: Fault): seq<Bytes> {
    RelayedLines(Got(upstream, maxToken, why)) + Closing(why)
  }

  /** The first of the writes, as many as the client takes. */
  function Taken(writes: seq<Bytes>, accepts: nat): seq<Bytes> {
    if |writes| <= accepts then writes else writes[..accepts]
  }

  /** How scanning can end: a line is only too long if the stream does not fit, and always if it is overlong. */
  predicate CanEnd(upstream: Bytes, maxToken: nat, upstreamFails: bool, why: Fault) {
    if why.TooLong? then !Fits(upstream, maxToken)
    else !Overlong(upstream, maxToken) && why == if upstreamFails then ReadFailure else EndOfStream
  }

  lemma AlongEnds(upstream: Bytes, maxToken: nat, lines: seq<Bytes>, p: Bytes, why: Fault)
    requires 0 < maxToken && Along(upstream, maxToken, lines, p) && Took(p, maxToken, false, Some(why), [])
    ensures lines == RelayedLines(Got(upstream, maxToken, why))
    ensures if why.TooLong? then !Fits(upstream, maxToken) else !Overlong(upstream, maxToken)
  {
    assert lines + [] == lines;
    if why.TooLong? { assert BeforeLong(p, maxToken) == []; }
  }

  /** A write that fails: there is one more line, whichever way scanning would have ended. */
  lemma AlongBreaks(upstream: Bytes, maxToken: nat, upstreamFails: bool, lines: seq<Bytes>, p: Bytes)
    returns (why: Fault)
    requires Along(upstream, maxToken, lines, p) && p != [] && WithinLimit(p, maxToken)
    ensures CanEnd(upstream, maxToken, upstreamFails, why)
    ensures var all := RelayedLines(Got(upstream, maxToken, why)); |lines| < |all| && lines == all[..|lines|]
  {
    if Overlong(upstream, maxToken) {
      why := TooLong;
      OverlongDoesNotFit(upstream, maxToken);
      assert !Overlong([], maxToken);
      BeforeLongStep(p, maxToken);
    } else {
      why := if upstreamFails then ReadFailure else EndOfStream;
    }
  }

  /** What holds between two turns of the loop. */
  predicate Underway(upstream: Bytes, maxToken: nat, lines: seq<Bytes>, accepts: nat, p: Bytes, err: Option<Fault>) {
    err != Some(TooLong) && Along(upstream, maxToken, lines, p) && |lines| <= accepts
  }

  /** How a turn that is the last one leaves the lines. */
  predicate Stopped(upstream: Bytes, maxToken: nat, upstreamFails: bool, lines: seq<Bytes>, accepts: nat,
                    writeFailed: bool, err: Option<Fault>, why: Fault)
  {
    var all := RelayedLines(Got(upstream, maxToken, why));
    && CanEnd(upstream, maxToken, upstreamFails, why)
    && lines == Taken(all, accepts) && (writeFailed <==> |all| > accepts)
    && (!writeFailed ==> err == Some(why))
  }

  lemma StopsAtEnd(upstream: Bytes, maxToken: nat, upstreamFails: bool, lines: seq<Bytes>, accepts: nat,
                   p: Bytes, why: Fault)
    requires 0 < maxToken && Along(upstream, maxToken, lines, p) && Took(p, maxToken, false, Some(why), [])
    requires |lines| <= accepts && (why.TooLong? || why == if upstreamFails then ReadFailure else EndOfStream)
    ensures Stopped(upstream, maxToken, upstreamFails, lines, accepts, false, Some(why), why)
  {
    AlongEnds(upstream, maxToken, lines, p, why);
  }

  lemma StopsAtWrite(upstream: Bytes, maxToken: nat, upstreamFails: bool, lines: seq<Bytes>, accepts: nat,
                     p: Bytes, err: Option<Fault>) returns (why: Fault)
    requires Along(upstream, maxToken, lines, p) && p != [] && WithinLimit(p, maxToken) && |lines| == accepts
    ensures Stopped(upstream, maxToken, upstreamFails, lines, accepts, true, err, why)
  {
    why := AlongBreaks(upstream, maxToken, upstreamFails, lines, p);
  }

  /** Write, flush, queue. The client takes `accepts` writes and fails every later one. */
  method Put(sc: Scanner, ghost upstream: Bytes, lines: seq<Bytes>, accepts: nat, queue: seq<Slice>, ghost h: History,
             ghost p: Bytes, data: Slice)
    returns (more: bool, lines': seq<Bytes>, queue': seq<Slice>, ghost h': History, ghost why: Fault)
    requires sc.Valid() && Took(p, sc.maxToken, true, sc.err, sc.Unread()) && Along(upstream, sc.maxToken, lines, p)
    requires SliceOk(sc, data, LineOut(p)) && (data.arr == sc.buf ==> Below(sc, data))
    requires Intact(sc, queue, h) && lines == h.lines && |lines| <= accepts
    ensures Intact(sc, queue', h') && lines' == h'.lines
    ensures if more then lines' == lines + [LineOut(p)] && queue' == queue + [data] && h' == Queued(h, LineOut(p))
            else lines' == lines && queue' == queue && h' == h
    ensures if more then Underway(upstream, sc.maxToken, lines', accepts, sc.Unread(), sc.err)
            else Stopped(upstream, sc.maxToken, sc.upstreamFails, lines', accepts, true, sc.err, why)
  {
    lines', queue', h', why := lines, queue, h, TooLong;
    more := |lines| < accepts;
    if more {
      var line := data.arr[data.lo..data.hi];
      AlongOne(upstream, sc.maxToken, lines, p);
      QueueOne(sc, queue, h, data, LineOut(p));
      lines', queue', h' := lines + [line], queue + [data], Queued(h, LineOut(p));
    } else {
      why := StopsAtWrite(upstream, sc.maxToken, sc.upstreamFails, lines, accepts, p, sc.err);
    }
  }

  /** Scan, append, write, flush, queue. */
  method Turn(sc: Scanner, ghost upstream: Bytes, lines: seq<Bytes>, accepts: nat, queue: seq<Slice>,
              ghost h: History, ghost b: Snapshot)
    returns (more: bool, writeFailed: bool, data: Slice, lines': seq<Bytes>, queue': seq<Slice>, ghost h': History,
             ghost e: Effect, ghost past: Option<Touch>, ghost why: Fault)
    requires sc.Valid() && Intact(sc, queue, h) && lines == h.lines && b.Of(sc)
    requires Underway(upstream, sc.maxToken, lines, accepts, sc.Unread(), sc.err)
    modifies sc, sc.buf
    ensures sc.Valid() && (sc.buf == b.arr || fresh(sc.buf)) && b.Allows(e)
    ensures Intact(sc, queue', h') && lines' == h'.lines
    ensures if more then lines' == lines + [LineOut(b.p)] && queue' == queue + [data] && InBuffer(sc, data)
                         && h' == Queued(Logged(h, b, e, past), LineOut(b.p)) && |sc.Unread()| < |b.p|
            else lines' == lines && queue' == queue && h' == Logged(h, b, e, past)
    ensures if more then Underway(upstream, sc.maxToken, lines', accepts, sc.Unread(), sc.err)
            else Stopped(upstream, sc.maxToken, sc.upstreamFails, lines', accepts, writeFailed, sc.err, why)
    ensures sc.maxToken >= START_SIZE && StaysPut(b.p, b.start) ==>
              h'.stayed == h.stayed && (more ==> StaysPut(sc.Unread(), sc.start))
  {
    lines', queue', writeFailed := lines, queue, false;
    more, data, h', e, past := ScanLine(sc, queue, h, b);
    if more {
      more, lines', queue', h', why := Put(sc, upstream, lines, accepts, queue, h', b.p, data);
      writeFailed := !more;
    } else {
      why := sc.err.value;
      StopsAtEnd(upstream, sc.maxToken, sc.upstreamFails, lines, accepts, b.p, why);
    }
  }

  ghost predicate AllGood(queue: seq<Slice>, lines: seq<Bytes>)
    reads set i | 0 <= i < |queue| :: queue[i].arr
  {
    |queue| == |lines| && forall i | 0 <= i < |queue| :: queue[i].Valid() && queue[i].Contents() == lines[i]
  }

  /**
   The loop, with capture on; `h` records what was written, queued and overwritten. Without capture the same
   loop runs and the queue is not kept.
   */
  method Loop(sc: Scanner, accepts: nat)
    returns (lines: seq<Bytes>, queue: seq<Slice>, writeFailed: bool, ghost h: History, ghost why: Fault)
    requires sc.Valid() && sc.err.None?
    modifies sc, sc.buf
    ensures sc.Valid() && Intact(sc, queue, h) && lines == h.lines
    ensures Stopped(old(sc.Unread()), sc.maxToken, sc.upstreamFails, lines, accepts, writeFailed, sc.err, why)
    ensures sc.maxToken >= START_SIZE && StaysPut(old(sc.Unread()), old(sc.start)) ==> h.stayed
  {
    lines, queue, writeFailed, h, why := [], [], false, NOTHING, TooLong;
    ghost var upstream, put := sc.Unread(), sc.maxToken >= START_SIZE && StaysPut(sc.Unread(), sc.start);
    var more := true;
    while more
      invariant sc.Valid() && Intact(sc, queue, h) && (sc.buf == old(sc.buf) || fresh(sc.buf)) && lines == h.lines
      invariant if more then Underway(upstream, sc.maxToken, lines, accepts, sc.Unread(), sc.err)
                else Stopped(upstream, sc.maxToken, sc.upstreamFails, lines, accepts, writeFailed, sc.err, why)
      invariant put ==> h.stayed && (more ==> StaysPut(sc.Unread(), sc.start))
      decreases more, |sc.Unread()|
    {
      var data;
      ghost var e, past;
      more, writeFailed, data, lines, queue, h, e, past, why := Turn(sc, upstream, lines, accepts, queue, h, Now(sc));
    }
  }

  /**
   The whole relay: the loop and, when scanning ended for any other reason than the end of the stream, the
   frame. `sent` are the writes the client takes: the first `accepts` of what there is to write.
   */
  method Relay(sc: Scanner, accepts: nat)
    returns (sent: seq<Bytes>, queue: seq<Slice>, writeFailed: bool, ghost h: History, ghost why: Fault)
    requires sc.Valid() && sc.err.None?
    modifies sc, sc.buf
    // what is sent
    ensures CanEnd(old(sc.Unread()), sc.maxToken, sc.upstreamFails, why)
    ensures sent == Taken(Writes(old(sc.Unread()), sc.maxToken, why), accepts)
    ensures writeFailed <==> |Writes(old(sc.Unread()), sc.maxToken, why)| > accepts
    // what is queued
    ensures h.lines == Taken(RelayedLines(Got(old(sc.Unread()), sc.maxToken, why)), accepts)
    ensures sc.Valid() && Intact(sc, queue, h) && (h.stayed ==> AllGood(queue, h.lines))
    ensures sc.maxToken >= START_SIZE && StaysPut(old(sc.Unread()), old(sc.start)) ==> AllGood(queue, h.lines)
  {
    sent, queue, writeFailed, h, why := Loop(sc, accepts);
    if sc.err.Some? && !sc.err.value.EndOfStream? {
      if |sent| < accepts { sent := sent + [FRAME]; } else { writeFailed := true; }
    }
    if h.stayed { NeverMoved(sc, queue, h); }
  }

  lemma {:induction false} BeforeLongIsPrefix(s: Bytes, maxToken: nat)
    ensures BeforeLong(s, maxToken) <= s && (BeforeLong(s, maxToken) == s || Whole(BeforeLong(s, maxToken)))
    decreases |s|
  {
    if s != [] && FirstLf(s) < maxToken {
      var head, all := HeadAndRest(s);
      BeforeLongIsPrefix(all, maxToken);
      LinesOnto(head, BeforeLong(all, maxToken), all);
    }
  }

  lemma HeadAndRest(s: Bytes) returns (head: Bytes, all: Bytes)
    requires s != []
    ensures head == s[..LineSize(s)] && all == AfterLine(s) && s == head + all && |all| < |s|
    ensures head != [] && (head[|head| - 1] == LF || all == [])
  {
    head, all := s[..LineSize(s)], AfterLine(s);
  }

  lemma LinesOnto(head: Bytes, more: Bytes, all: Bytes)
    requires more <= all && (more == all || Whole(more)) && head != [] && (head[|head| - 1] == LF || all == [])
    ensures head + more <= head + all && (more == all || Whole(head + more))
  {
    if more != [] { assert (head + more)[|head + more| - 1] == more[|more| - 1]; }
  }

  lemma CleanGot(upstream: Bytes, maxToken: nat, why: Fault)
    requires Clean(upstream)
    ensures Clean(Got(upstream, maxToken, why))
    ensures Understood(Got(upstream, maxToken, why)).events <= Understood(upstream).events
  {
    var got := Got(upstream, maxToken, why);
    BeforeLongIsPrefix(upstream, maxToken);
    if got != upstream {
      forall i: nat | i < |got| ensures !CrCrLfAt(got, i) { assert CrCrLfAt(got, i) ==> CrCrLfAt(upstream, i); }
      EventsOfPrefix(got, upstream);
    }
  }

  lemma FlattenWrites(upstream: Bytes, maxToken: nat, why: Fault)
    ensures var all := Writes(upstream, maxToken, why);
            && Flatten(all) == Relayed(Got(upstream, maxToken, why)) + (if why.EndOfStream? then [] else FRAME)
            && |all| <= |upstream| + 1
  {
    var got := Got(upstream, maxToken, why);
    BeforeLongIsPrefix(upstream, maxToken);
    LinesMakeRelayed(got);
    var lines := RelayedLines(got);
    if why.EndOfStream? {
      assert lines + [] == lines && Relayed(got) + [] == Relayed(got);
    } else {
      assert (lines + [FRAME])[..|lines|] == lines;
    }
  }

  /**
   What a client that takes every write understands of it: the events of the lines relayed and, when scanning
   ended in a failure, one more of type error. Its data is what was pending there and the text of the frame.
   For a clean stream the events of those lines are the stream's own, up to the line that was too long if
   there was one, and the unfinished last line adds to what is pending.
   */
  lemma SentMeaning(upstream: Bytes, maxToken: nat, why: Fault)
    ensures var got := Got(upstream, maxToken, why);
            var c, all := Understood(Relayed(got)), Understood(Flatten(Writes(upstream, maxToken, why))).events;
            && all == c.events + (if why.EndOfStream? then [] else [ErrorEvent(c)])
            && (ErrorEvent(c).data == CLOSED <==> c.data == [])
    ensures Clean(upstream) ==>
              var got := Got(upstream, maxToken, why);
              Understood(Relayed(got)) == Completed(got) && Understood(Relayed(got)).events == Understood(got).events
              && Understood(got).events <= Understood(upstream).events
  {
    var got := Got(upstream, maxToken, why);
    FlattenWrites(upstream, maxToken, why);
    RelayedWhole(got);
    OnlyTheText(Understood(Relayed(got)));
    if why.EndOfStream? { assert Relayed(got) + [] == Relayed(got); } else { FrameMeaning(Relayed(got)); }
    if Clean(upstream) {
      CleanGot(upstream, maxToken, why);
      RelayedCompletes(got);
      RelayKeepsEvents(got);
    }
  }

  lemma TakenOf(lines: seq<Bytes>, accepts: nat)
    ensures Taken(lines + [], accepts) == Taken(lines, accepts)
    ensures Taken(lines + [FRAME], accepts) == if |lines| >= accepts then lines[..accepts] else lines + [FRAME]
  {
    assert lines + [] == lines;
    if |lines| >= accepts { assert (lines + [FRAME])[..accepts] == lines[..accepts]; }
  }

  /**
   End to end: a clean stream within the line limit reaches a client that takes every write with the same events,
   plus one if upstream failed; a client that takes fewer gets the first of the writes.
   */
  method RelayedMeaning(upstream: Bytes, upstreamFails: bool, maxToken: nat, accepts: nat)
    returns (sent: seq<Bytes>, writeFailed: bool)
    requires 0 < maxToken && Fits(upstream, maxToken) && Clean(upstream)
    ensures |upstream| < accepts ==>
              && !writeFailed
              && Understood(Flatten(sent)).events == Understood(upstream).events
                                                     + (if upstreamFails then [ErrorEvent(Completed(upstream))] else [])
    ensures var lines := RelayedLines(upstream);
            && (writeFailed <==> |lines| + (if upstreamFails then 1 else 0) > accepts)
            && sent == if |lines| >= accepts then lines[..accepts] else if upstreamFails then lines + [FRAME] else lines
    ensures ErrorEvent(Completed(upstream)).data == CLOSED <==> Completed(upstream).data == []
  {
    var sc := new Scanner(maxToken, upstream, upstreamFails);
    var queue;
    ghost var h, why;
    sent, queue, writeFailed, h, why := Relay(sc, accepts);
    FlattenWrites(upstream, maxToken, why);
    TakenOf(RelayedLines(upstream), accepts);
    SentMeaning(upstream, maxToken, why);
  }

  /** The same when some line is too long: the events before it, and the frame's. */
  method TooLongMeaning(upstream: Bytes, upstreamFails: bool, maxToken: nat, accepts: nat)
    returns (sent: seq<Bytes>, writeFailed: bool)
    requires 0 < maxToken && Overlong(upstream, maxToken) && Clean(upstream)
    ensures |upstream| < accepts ==>
              var got := BeforeLong(upstream, maxToken);
              && !writeFailed
              && Understood(Flatten(sent)).events == Understood(got).events + [ErrorEvent(Completed(got))]
              && Understood(got).events <= Understood(upstream).events
              && (ErrorEvent(Completed(got)).data == CLOSED <==> Completed(got).data == [])
    ensures var lines := RelayedLines(BeforeLong(upstream, maxToken));
            && (writeFailed <==> |lines| + 1 > accepts)
            && sent == if |lines| >= accepts then lines[..accepts] else lines + [FRAME]
  {
    var sc := new Scanner(maxToken, upstream, upstreamFails);
    var queue;
    ghost var h, why;
    sent, queue, writeFailed, h, why := Relay(sc, accepts);
    assert why == TooLong;
    FlattenWrites(upstream, maxToken, TooLong);
    TakenOf(RelayedLines(BeforeLong(upstream, maxToken)), accepts);
    SentMeaning(upstream, maxToken, TooLong);
  }

  // ---- Queued lines that change under the reader, at the program's limit ----

  predicate Simple(line: Bytes) { LF !in line && CR !in line }

  lemma SimpleFirst(x: Bytes, rest: Bytes)
    requires Simple(x)
    ensures var p := x + [LF] + rest;
            FirstLf(p) == |x| && LineOut(p) == x + [LF] && LineSize(p) == |x| + 1 && AfterLine(p) == rest
  {
    FirstLine(x, rest);
  }

  lemma SimpleOnly(z: Bytes)
    requires Simple(z)
    ensures FirstLf(z) == |z| && LineOut(z) == z + [LF] && LineSize(z) == |z| && AfterLine(z) == []
  {
    OnlyLine(z);
  }

  /** The first line of a stream, at the front of the first array. */
  method FirstTurn(x: Bytes, rest: Bytes) returns (sc: Scanner, data: Slice)
    requires Simple(x) && |x| <= START_SIZE - 2
    ensures fresh(sc) && fresh(sc.buf) && sc.Valid() && sc.err != Some(TooLong) && sc.buf.Length == START_SIZE
    ensures sc.start == |x| + 1 && sc.Unread() == rest && sc.maxToken == LIMIT
    ensures data == Slice(sc.buf, 0, |x| + 1) && data.Contents() == x + [LF]
  {
    sc := new Scanner(LIMIT, x + [LF] + rest, false);
    SimpleFirst(x, rest);
    ghost var b := Now(sc);
    var ok;
    ghost var e, lf;
    ok, data, e, lf := NextLine(sc, b);
    assert |data.Contents()| == |x| + 1;
  }

  /** The next line, when it begins in the first half of the array and ends within it. */
  method NextInPlace(sc: Scanner, y: Bytes, rest: Bytes) returns (data: Slice)
    requires sc.Valid() && sc.err != Some(TooLong) && sc.buf.Length == START_SIZE && sc.maxToken == LIMIT
    requires Simple(y) && sc.Unread() == y + [LF] + rest && 0 < sc.start <= START_SIZE / 2
            && sc.start + |y| + 1 < START_SIZE
    modifies sc, sc.buf
    ensures sc.Valid() && sc.err != Some(TooLong) && sc.buf == old(sc.buf) && sc.start == old(sc.start) + |y| + 1
    ensures sc.Unread() == rest && data == Slice(sc.buf, old(sc.start), sc.start) && data.Contents() == y + [LF]
  {
    SimpleFirst(y, rest);
    ghost var b := Now(sc);
    var ok;
    ghost var e, lf;
    ok, data, e, lf := NextLine(sc, b);
    assert |data.Contents()| == |y| + 1;
  }

  /** What a turn that moves leaves of a slice at the front. */
  lemma FrontOverlaid(b: Snapshot, e: Effect, lf: Option<nat>, n: nat)
    requires b.Allows(e) && e.front == |b.p| && n <= b.end && (lf.Some? ==> lf.value < |b.p| && b.p[lf.value] == LF)
    ensures After(b, e, lf)[..n] == Overlay(b.was[..n], b.p)
  {
    forall i | 0 <= i < n ensures After(b, e, lf)[i] == Overlay(b.was[..n], b.p)[i] { AfterAt(b, e, lf, i); }
  }

  /** What a turn leaves of a slice below the unread bytes if it does not move. */
  lemma FrontKept(b: Snapshot, e: Effect, lf: Option<nat>, n: nat)
    requires b.Allows(e) && e.front == 0 && n <= b.end && (lf.Some? ==> n <= lf.value)
    ensures After(b, e, lf)[..n] == b.was[..n]
  {
    forall i | 0 <= i < n ensures After(b, e, lf)[i] == b.was[i] { AfterAt(b, e, lf, i); }
  }

  /** The second of two lines goes where there is room for it, or was buffered with the first. */
  predicate SecondStays(x: Bytes, y: Bytes, buffered: bool) {
    buffered || (|x| + 1 <= START_SIZE / 2 && |x| + 1 + |y| < START_SIZE)
  }

  lemma SecondMovesIff(b: Snapshot, e: Effect, ok: bool, start': nat, end': nat, err': Option<Fault>,
                       x: Bytes, y: Bytes)
    requires Simple(y) && b.p == y + [LF] && b.start == |x| + 1 && b.end <= |b.was| == START_SIZE && b.Allows(e)
    requires b.Settles(e, ok, true, start', end', err') && Took(b.p, LIMIT, ok, err', []) && start' <= end' <= |b.was|
    requires b.ended ==> LF in b.was[b.start..b.end]
    requires |y| < LIMIT && b.start <= b.end
    ensures ok && (e.moves <==> !SecondStays(x, y, LF in b.was[b.start..b.end]))
    ensures e.moves ==> e.front == |y| + 1
  {
    SimpleFirst(y, []);
    assert y + [LF] + [] == b.p;
  }

  lemma SecondLeaves(b: Snapshot, e: Effect, lf: Option<nat>, x: Bytes, y: Bytes, stays: bool)
    requires b.Allows(e) && b.p == y + [LF] && b.start == |x| + 1 && b.was[..|x| + 1] == x + [LF]
    requires (e.moves <==> !stays) && (e.moves ==> e.front == |y| + 1)
    requires lf.Some? ==> lf.value == b.From(e, true) + |y|
    ensures After(b, e, lf)[..|x| + 1] == if stays then x + [LF] else Overlay(x + [LF], y + [LF])
  {
    if e.moves { FrontOverlaid(b, e, lf, |x| + 1); } else { FrontKept(b, e, lf, |x| + 1); }
  }

  /** The second line of a stream of two. */
  method SecondTurn(sc: Scanner, x: Bytes, y: Bytes, data: Slice) returns (ghost buffered: bool)
    requires sc.Valid() && sc.err != Some(TooLong) && sc.buf.Length == START_SIZE && sc.maxToken == LIMIT
    requires Simple(y) && |y| <= START_SIZE - 2 && sc.start == |x| + 1 && sc.Unread() == y + [LF]
    requires data == Slice(sc.buf, 0, |x| + 1) && data.Contents() == x + [LF]
    modifies sc, sc.buf
    ensures buffered <==> LF in old(sc.buf[sc.start..sc.end])
    ensures data.Contents() == if SecondStays(x, y, buffered) then x + [LF] else Overlay(x + [LF], y + [LF])
  {
    ghost var b := Now(sc);
    buffered := LF in b.was[b.start..b.end];
    assert b.was[..|x| + 1] == data.Contents();
    SimpleFirst(y, []);
    assert y + [LF] + [] == y + [LF];
    var ok, line;
    ghost var e, lf;
    ok, line, e, lf := NextLine(sc, b);
    SecondMovesIff(b, e, ok, sc.start, sc.end, sc.err, x, y);
    assert |line.Contents()| == |y| + 1;
    SecondLeaves(b, e, lf, x, y, SecondStays(x, y, buffered));
    assert data.Contents() == b.arr[..][..|x| + 1];
  }

  lemma OverlaySameIff(x: Bytes, y: Bytes)
    requires Simple(x) && Simple(y)
    ensures Overlay(x + [LF], y + [LF]) == x + [LF] <==> x == y
  {
    var s, o := x + [LF], Overlay(x + [LF], y + [LF]);
    if |y| < |x| {
      assert o[|y|] == LF && s[|y|] == x[|y|];
    } else if |x| < |y| {
      assert o[|x|] == y[|x|] && s[|x|] == LF;
    } else if x != y {
      assert o == y + [LF] && o[..|x|] == y && s[..|x|] == x;
    }
  }

  /**
   For any two lines that fit the first array, at the program's limit: once the second has been scanned, the
   first one's queued slice reads what was written iff the lines are the same, or the second had been buffered
   along with the first, or it begins in the first half of the array and ends within it.
   */
  method TwoLines(x: Bytes, y: Bytes) returns (written: Bytes, captured: Bytes, ghost buffered: bool)
    requires Simple(x) && Simple(y) && |x| <= START_SIZE - 2 && |y| <= START_SIZE - 2
    ensures written == x + [LF] && (captured == written <==> x == y || SecondStays(x, y, buffered))
    ensures captured == if SecondStays(x, y, buffered) then x + [LF] else Overlay(x + [LF], y + [LF])
    ensures |x| + 1 + |y| >= START_SIZE ==> !SecondStays(x, y, buffered)
  {
    var sc, data := FirstTurn(x, y + [LF]);
    written := data.arr[data.lo..data.hi];
    assert sc.buf[sc.start..sc.end] <= y + [LF];
    buffered := SecondTurn(sc, x, y, data);
    captured := data.arr[data.lo..data.hi];
    OverlaySameIff(x, y);
  }

  /** Whatever the reads, of two long lines the first one queued reads as the second once that is scanned. */
  method MoveSpoils(a: Byte, b: Byte) returns (written: Bytes, captured: Bytes)
    requires a !in {LF, CR} && b !in {LF, CR}
    ensures written == Repeat(a, START_SIZE - 2) + [LF] && captured == Repeat(b, START_SIZE - 2) + [LF]
  {
    ghost var buffered;
    written, captured, buffered := TwoLines(Repeat(a, START_SIZE - 2), Repeat(b, START_SIZE - 2));
  }

  function Repeat(b: Byte, n: nat): Bytes { seq(n, _ => b) }

  lemma ThirdLeaves(b: Snapshot, e: Effect, n: nat, m: nat)
    requires b.Allows(e) && e.front == n < m == b.start <= |b.was|
    ensures After(b, e, Some(n))[n..m] == b.was[n..m][0 := LF]
  {
    forall i | n <= i < m ensures After(b, e, Some(n))[i] == (if i == n then LF else b.was[i]) {
      AfterAt(b, e, Some(n), i);
    }
  }

  /**
   The unfinished third line does not fit behind the second. It is moved to the front, and its line feed lands in
   the second.
   */
  method ThirdTurn(sc: Scanner, n: nat, y: Bytes, z: Bytes, data: Slice) returns (captured: Bytes, ghost e: Effect)
    requires sc.Valid() && sc.err != Some(TooLong) && sc.buf.Length == START_SIZE && sc.maxToken == LIMIT
    requires Simple(z) && |z| == n > 0 && y != [] && sc.start == n + |y| + 1 && sc.Unread() == z
    requires sc.start + |z| > START_SIZE && data == Slice(sc.buf, n, n + |y| + 1) && data.Contents() == y + [LF]
    modifies sc, sc.buf
    ensures captured == (y + [LF])[0 := LF]
    ensures Apart(data, Touch(data.arr, 0, e.front)) && Apart(data, Touch(data.arr, old(sc.end), e.mark))
  {
    SimpleOnly(z);
    ghost var b := Now(sc);
    var ok, line;
    ghost var lf;
    ok, line, e, lf := NextLine(sc, b);
    assert ok && sc.buf == b.arr && e.moves && e.front == n;
    assert |line.Contents()| == n + 1;
    assert lf == Some(n);
    ThirdLeaves(b, e, n, n + |y| + 1);
    captured := data.arr[data.lo..data.hi];
    assert b.was[n..n + |y| + 1] == y + [LF];
    assert captured == b.arr[..][n..n + |y| + 1];
  }

  /**
   Whatever the reads, the append behind the unfinished last line writes into an earlier queued line, although
   neither the move nor any read of that turn touches it: here a line of 1999 bytes, one of 1000, and 2000 more.
   */
  method AppendSpoils(a: Byte, b: Byte, c: Byte) returns (written: Bytes, captured: Bytes)
    requires a !in {LF, CR} && b !in {LF, CR} && c !in {LF, CR}
    ensures written == Repeat(b, 1000) + [LF] && captured == [LF] + Repeat(b, 999) + [LF]
  {
    var x, y, z := Repeat(a, 1999), Repeat(b, 1000), Repeat(c, 2000);
    Associative(y, [LF], z);
    var sc, first := FirstTurn(x, y + [LF] + z);
    var data := NextInPlace(sc, y, z);
    written := data.arr[data.lo..data.hi];
    ghost var e;
    captured, e := ThirdTurn(sc, 2000, y, z, data);
  }
}
