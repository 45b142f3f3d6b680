/**
 The line scanner under the SSE relay, on the heap: Go's bufio.Scanner with ScanLines, whose tokens are
 windows into its own buffer, and the append that writes right behind such a window.
 */
module SseScanner {
  import opened Prelude
  import opened SseStream

  /** Why scanning ended. Upstream may also fail by giving nothing a hundred and one times in a row. */
  datatype Fault = EndOfStream | ReadFailure | TooLong

  /** The size of the first array. */
  const START_SIZE := 4096

  /** The limit of a scanner that nobody configured, as in the relay. */
  const LIMIT := 65536

  /** Appending one byte in place when the array has room, else into a new array. */
  method AppendNewline(t: Slice) returns (data: Slice)
    requires t.Valid()
    modifies t.arr
    ensures data.Valid() && data.Contents() == old(t.Contents()) + [LF]
    ensures t.hi < t.arr.Length ==> data == Slice(t.arr, t.lo, t.hi + 1) && t.arr[..] == old(t.arr[..])[t.hi := LF]
    ensures t.hi == t.arr.Length ==> fresh(data.arr) && t.arr[..] == old(t.arr[..])
  {
    if t.hi < t.arr.Length {
      t.arr[t.hi] := LF;
      data := Slice(t.arr, t.lo, t.hi + 1);
    } else {
      var n := t.hi - t.lo;
      var bigger := new Byte[2 * n + 1];
      forall i | 0 <= i < n { bigger[i] := t.arr[t.lo + i]; }
      bigger[n] := LF;
      data := Slice(bigger, 0, n + 1);
    }
  }

  /** The array after its unread part [start, end) was copied to the front. */
  function ShiftedArray(a: Bytes, start: nat, end: nat): Bytes
    requires start <= end <= |a|
  {
    a[start..end] + a[end - start..]
  }

  /**
   What reading did to an array. Its first `front` bytes now hold the unread bytes moved there and read behind
   them; the bytes up to `mark` from where the unread ones ended were read in before any move.
   */
  datatype Effect = Effect(front: nat, mark: nat, moves: bool)

  predicate EffectFits(was: Bytes, start: nat, end: nat, unread: Bytes, e: Effect) {
    && e.front <= |unread| && e.front <= |was| && (!e.moves ==> e.front == 0)
    && start <= end <= e.mark <= |was| && e.mark - start <= |unread|
  }

  function ReadByte(was: Bytes, start: nat, end: nat, unread: Bytes, e: Effect, i: nat): Byte
    requires EffectFits(was, start, end, unread, e) && i < |was|
  {
    if i < e.front then unread[i] else if end <= i < e.mark then unread[i - start] else was[i]
  }

  /** The whole array after some reading. */
  function ReadArray(was: Bytes, start: nat, end: nat, unread: Bytes, e: Effect): Bytes
    requires EffectFits(was, start, end, unread, e)
  {
    seq(|was|, i requires 0 <= i < |was| => ReadByte(was, start, end, unread, e, i))
  }

  ghost predicate Turned(now: Bytes, was: Bytes, start: nat, end: nat, unread: Bytes, e: Effect) {
    EffectFits(was, start, end, unread, e) && now == ReadArray(was, start, end, unread, e)
  }

  lemma NotTurned(was: Bytes, start: nat, end: nat, unread: Bytes)
    requires start <= end <= |was| && end - start <= |unread|
    ensures Turned(was, was, start, end, unread, Effect(0, end, false))
  {
    assert was == ReadArray(was, start, end, unread, Effect(0, end, false));
  }

  /** The array after the given bytes were read in at the given place. */
  function ReadInto(a: Bytes, at: nat, bytes: Bytes): Bytes
    requires at + |bytes| <= |a|
  {
    a[..at] + bytes + a[at + |bytes|..]
  }

  lemma ReadNothing(a: Bytes, at: nat)
    requires at <= |a|
    ensures ReadInto(a, at, []) == a
  {
  }

  /** One read of n bytes, after a move or without one. */
  function OneRead(start: nat, end: nat, moves: bool, n: nat): Effect
    requires start <= end
  {
    if moves then Effect(end - start + n, end, true) else Effect(0, end + n, false)
  }

  /** One read, after the unread bytes were moved or not, into the array that held them. */
  lemma TurnedByRead(now: Bytes, mid: Bytes, was: Bytes, start: nat, end: nat, unread: Bytes, rest: Bytes,
                     moves: bool, bytes: Bytes)
    requires start <= end <= |was| && bytes <= rest && unread == was[start..end] + rest
    requires mid == if moves then ShiftedArray(was, start, end) else was
    requires var at := if moves then end - start else end; at + |bytes| <= |mid| && now == ReadInto(mid, at, bytes)
    ensures Turned(now, was, start, end, unread, OneRead(start, end, moves, |bytes|))
  {
    var e := OneRead(start, end, moves, |bytes|);
    forall i | 0 <= i < |was| ensures now[i] == ReadByte(was, start, end, unread, e, i) {
    }
    assert now == ReadArray(was, start, end, unread, e);
  }

  /** What two stretches of reading in the same array come to. After a move everything is at its front. */
  function Both(e: Effect, f: Effect): Effect {
    if e.moves then Effect(f.mark, e.mark, true) else f
  }

  lemma TurnedTwice(now: Bytes, mid: Bytes, was: Bytes, start: nat, end: nat, unread: Bytes, e: Effect, f: Effect)
    requires Turned(mid, was, start, end, unread, e)
    requires if e.moves then Turned(now, mid, 0, e.front, unread, f) && !f.moves
            else Turned(now, mid, start, e.mark, unread, f)
    ensures Turned(now, was, start, end, unread, Both(e, f))
  {
    assert now == ReadArray(was, start, end, unread, Both(e, f));
  }

  lemma {:induction false} LfInFront(a: Bytes, b: Bytes)
    requires LF in a
    ensures FirstLf(a + b) == FirstLf(a) < |a| && AfterLine(a + b) == a[FirstLf(a) + 1..] + b
    ensures (a + b)[..FirstLf(a)] == a[..FirstLf(a)]
  {
    var raw, more := FirstSplit(a);
    FirstLine(raw, more);
    FirstLine(raw, more + b);
    assert a + b == raw + [LF] + (more + b);
  }

  /** A line that is complete in the unread part of an array, and what follows it. */
  lemma LineInArray(a: Bytes, lo: nat, hi: nat, rest: Bytes, p: Bytes)
    requires lo <= hi <= |a| && LF in a[lo..hi] && p == a[lo..hi] + rest
    ensures var k := FirstLf(a[lo..hi]);
            && k < hi - lo && a[lo + k] == LF
            && FirstLf(p) == k && p[..k] == a[lo..lo + k] && AfterLine(p) == a[lo + k + 1..hi] + rest
  {
    LfInFront(a[lo..hi], rest);
    var k := FirstLf(a[lo..hi]);
    assert a[lo..hi][..k] == a[lo..lo + k];
    assert a[lo..hi][k + 1..] == a[lo + k + 1..hi];
  }

  lemma LfNotInFront(a: Bytes, b: Bytes)
    requires LF !in a
    ensures FirstLf(a + b) >= |a|
  {
    var k := FirstLf(a + b);
  }

  /** The first line, with its line feed if it has one, is no longer than the limit. */
  predicate WithinLimit(p: Bytes, maxToken: nat) {
    if FirstLf(p) < |p| then FirstLf(p) < maxToken else |p| <= maxToken
  }

  /** The first line's bytes, its line feed included. */
  function LineSize(p: Bytes): nat { FirstLf(p) + (if FirstLf(p) < |p| then 1 else 0) }

  /** What a call did with the stream: took its first line, found it too long, or found nothing. */
  predicate Took(p: Bytes, maxToken: nat, ok: bool, err: Option<Fault>, unread: Bytes) {
    if ok then p != [] && err != Some(TooLong) && WithinLimit(p, maxToken) && unread == AfterLine(p)
    else if err == Some(TooLong) then FirstLf(p) >= maxToken
    else p == [] && unread == [] && err.Some?
  }

  /** A move needs the consumed bytes to fill more than half of the array, or a line that does not fit behind them. */
  predicate MovesOnlyIf(length: nat, from: nat, p: Bytes) {
    from > 0 && (from > length / 2 || FirstLf(p) + from >= length)
  }

  /** An array beyond the first size needs a line that does not fit the first size. */
  predicate GrowsOnlyIf(length: nat, p: Bytes) { length <= START_SIZE || FirstLf(p) >= START_SIZE }

  class Scanner {
    const maxToken: nat
    const upstreamFails: bool
    var buf: array<Byte>
    var start: nat
    var end: nat
    var err: Option<Fault>
    /** What upstream will still deliver. */
    var rest: Bytes

    ghost predicate Valid()
      reads this
    {
      && start <= end <= buf.Length <= maxToken
      && 0 < maxToken
      && (buf.Length == 0 || buf.Length == maxToken || buf.Length >= START_SIZE)
      && (err.Some? && !err.value.TooLong? ==> rest == [] && (err.value.ReadFailure? <==> upstreamFails))
    }

    /** Everything not yet handed out as a token. */
    ghost function Unread(): Bytes
      reads this, buf
      requires Valid()
    {
      buf[start..end] + rest
    }

    constructor (maxToken: nat, upstream: Bytes, upstreamFails: bool)
      requires 0 < maxToken
      ensures Valid() && fresh(buf) && Unread() == upstream && err.None?
      ensures this.maxToken == maxToken && this.upstreamFails == upstreamFails && start == end == buf.Length == 0
    {
      this.maxToken, this.upstreamFails := maxToken, upstreamFails;
      buf := new Byte[0];
      start, end, err, rest := 0, 0, None, upstream;
    }

    /** Moves the unread bytes to the front of the same array. */
    method Shift()
      requires Valid() && err.None?
      modifies this`start, this`end, buf
      ensures Valid() && Unread() == old(Unread())
      ensures start == 0 && end == old(end) - old(start)
      ensures buf[..] == ShiftedArray(old(buf[..]), old(start), old(end))
    {
      var n := end - start;
      ghost var shifted := ShiftedArray(buf[..], start, end);
      forall i | 0 <= i < n { buf[i] := buf[start + i]; }
      assert buf[..] == shifted;
      start, end := 0, n;
      assert buf[..n] == shifted[..n];
    }

    /** Doubles the array, up to the limit. */
    method Grow() returns (ok: bool)
      requires Valid() && err.None? && end == buf.Length && start == 0
      modifies this`buf, this`end, this`err
      ensures Valid() && Unread() == old(Unread())
      ensures ok ==> fresh(buf) && buf.Length > old(buf).Length && end < buf.Length && err.None?
      ensures end == old(end) && buf[..end] == old(buf[..end])
      ensures ok ==> buf.Length <= START_SIZE || end >= START_SIZE
      ensures !ok ==> buf == old(buf) && end == maxToken && err == Some(TooLong)
      ensures old(buf)[..] == old(buf[..])
    {
      if buf.Length >= maxToken {
        err := Some(TooLong);
        return false;
      }
      var size := if 2 * buf.Length == 0 then START_SIZE else 2 * buf.Length;
      if size > maxToken { size := maxToken; }
      var bigger := new Byte[size];
      forall i | 0 <= i < end { bigger[i] := buf[i]; }
      assert bigger[..end] == buf[..end];
      buf := bigger;
      return true;
    }

    /** Takes n more bytes from upstream into the free part of the array. */
    method Receive(n: nat)
      requires Valid() && err.None? && n <= |rest| && n <= buf.Length - end
      modifies this`end, this`rest, buf
      ensures Valid() && end == old(end) + n && rest == old(rest)[n..]
      ensures buf[start..end] == old(buf[start..end]) + old(rest)[..n]
      ensures buf[..] == ReadInto(old(buf[..]), old(end), old(rest)[..n])
    {
      var part := rest[..n];
      forall i | 0 <= i < n { buf[end + i] := part[i]; }
      assert buf[..] == ReadInto(old(buf[..]), end, part);
      end, rest := end + n, rest[n..];
    }

    /** One read: some bytes, or the end of what upstream delivers, or both. */
    method Fill()
      requires Valid() && err.None? && end < buf.Length
      modifies this`end, this`err, this`rest, buf
      ensures Valid() && Unread() == old(Unread()) && end >= old(end) && err != Some(TooLong)
      ensures start == old(start) && end - old(end) <= |old(rest)|
      ensures buf[..] == ReadInto(old(buf[..]), old(end), old(rest)[..end - old(end)])
      ensures |rest| < old(|rest|) || (rest == old(rest) && err.Some?)
    {
      var most := if |rest| <= buf.Length - end then |rest| else buf.Length - end;
      var n: nat :| n <= most && (n > 0 || most == 0);
      var finished: bool := *;
      Receive(n);
      if rest == [] && (finished || n == 0) {
        err := Some(if upstreamFails then ReadFailure else EndOfStream);
      }
    }

    /** The token for the line that fills buf[start..start + k]. */
    method Cut(k: nat, advance: nat, ghost line: Bytes) returns (tok: Slice)
      requires Valid() && k <= advance && start + advance <= end && line == buf[start..start + k]
      modifies this`start
      ensures Valid() && start == old(start) + advance
      ensures tok.Valid() && tok.arr == buf && tok.lo == old(start)
      ensures tok.Contents() == DropCr(line)
      ensures tok.hi == old(start) + k || (tok.hi + 1 == old(start) + k && tok.hi < end && buf[tok.hi] == CR)
    {
      var hi := start + k;
      if k > 0 && buf[hi - 1] == CR { hi := hi - 1; }
      tok := Slice(buf, start, hi);
      start := start + advance;
    }

    /** A full line is buffered. */
    method CutLine(ghost p: Bytes) returns (tok: Slice)
      requires Valid() && LF in buf[start..end] && p == Unread()
      modifies this`start
      ensures Valid()
      ensures p != [] && tok.Valid() && tok.arr == buf && tok.lo == old(start)
              && tok.Contents() == DropCr(p[..FirstLf(p)]) && Unread() == AfterLine(p)
              && start == tok.lo + LineSize(p)
      ensures tok.hi < start && buf[tok.hi] in {CR, LF}
    {
      ghost var whole := buf[..];
      assert buf[start..end] == whole[start..end];
      var k := FirstLf(buf[start..end]);
      LineInArray(whole, start, end, rest, p);
      assert buf[start..start + k] == whole[start..start + k] && buf[start + k] == whole[start + k] == LF;
      tok := Cut(k, k + 1, p[..k]);
      assert buf[start..end] == whole[start..end];
    }

    /** The input is over and an unfinished line is left. */
    method CutRest(ghost p: Bytes) returns (tok: Slice)
      requires Valid() && LF !in buf[start..end] && start < end && err.Some? && err != Some(TooLong) && p == Unread()
      modifies this`start
      ensures Valid()
      ensures p != [] && tok.Valid() && tok.arr == buf && tok.lo == old(start)
              && tok.Contents() == DropCr(p[..FirstLf(p)]) && Unread() == AfterLine(p)
              && start == tok.lo + LineSize(p) && FirstLf(p) == |p|
      ensures (tok.hi < start && buf[tok.hi] in {CR, LF}) || (tok.hi == start == end && Unread() == [])
    {
      ghost var part := buf[start..end];
      assert part + rest == part;
      OnlyLine(part);
      tok := Cut(end - start, end - start, part);
      assert buf[start..end] == [];
    }

    /** The split step: a token if the buffered bytes, or the end of the input, allow one. */
    method TakeToken(ghost p: Bytes) returns (found: bool, tok: Slice)
      requires Valid() && err != Some(TooLong) && p == Unread()
      modifies this`start
      ensures Valid()
      ensures found ==>
                && p != [] && tok.Valid() && tok.arr == buf && tok.lo == old(start)
                && tok.Contents() == DropCr(p[..FirstLf(p)]) && Unread() == AfterLine(p)
                && start == tok.lo + LineSize(p)
      ensures found ==>
                || (tok.hi < start && buf[tok.hi] in {CR, LF})
                || (tok.hi == start == end && err.Some? && Unread() == [])
      ensures !found ==> start == old(start) && LF !in buf[start..end] && (err.Some? ==> start == end)
      ensures found <==> LF in old(buf[start..end]) || (err.Some? && old(start) < end)
    {
      tok := Slice(buf, 0, 0);
      found := true;
      if LF in buf[start..end] {
        tok := CutLine(p);
      } else if err.Some? && start < end {
        tok := CutRest(p);
      } else {
        found := false;
      }
    }

    /** Whether the next read has to move the unread bytes first. */
    predicate MustMove()
      reads this
    {
      start > 0 && (end == buf.Length || start > buf.Length / 2)
    }

    /** Moves the unread bytes when that is due, then grows the array when it is still full. */
    method MakeRoom() returns (ok: bool)
      requires Valid() && err.None?
      modifies this`start, this`end, this`buf, this`err, buf
      ensures Valid() && Unread() == old(Unread())
      ensures buf == old(buf) || (fresh(buf) && buf.Length > old(buf).Length)
      ensures ok ==> err.None? && end < buf.Length
      ensures !ok ==> err == Some(TooLong) && start == 0 && end == maxToken && buf == old(buf)
      ensures rest == old(rest)
      ensures buf[start..end] == old(buf[start..end])
      ensures start == if old(MustMove()) then 0 else old(start)
      ensures end == if old(MustMove()) then old(end) - old(start) else old(end)
      ensures old(buf)[..] == if old(MustMove()) then ShiftedArray(old(buf[..]), old(start), old(end)) else old(buf[..])
      ensures buf != old(buf) ==> start == 0 && (buf.Length <= START_SIZE || old(end) - old(start) >= START_SIZE)
    {
      ghost var part := buf[start..end];
      if start > 0 && (end == buf.Length || start > buf.Length / 2) {
        Shift();
        assert buf[start..end] == part;
      }
      ok := true;
      if end == buf.Length {
        ok := Grow();
        assert buf[start..end] == part;
      }
    }

    /** Makes room if needed and reads once; `bytes` is what came into the array it started with. */
    method ReadOnce(ghost was: Bytes, ghost mid: Bytes, ghost at: nat, ghost p: Bytes)
      returns (ok: bool, ghost bytes: Bytes)
      requires Valid() && err.None? && was == buf[..] && p == Unread()
      requires mid == if MustMove() then ShiftedArray(was, start, end) else was
      requires at == if MustMove() then end - start else end
      modifies this, buf
      ensures Valid() && Unread() == p
      ensures buf == old(buf) || (fresh(buf) && buf.Length > old(buf).Length)
      ensures ok ==> err != Some(TooLong) && (|rest| < old(|rest|) || (rest == old(rest) && err.Some?))
      ensures !ok ==> err == Some(TooLong) && maxToken == old(end) - old(start)
      ensures start == if old(MustMove()) then 0 else old(start)
      ensures buf != old(buf) ==> start == 0 && (buf.Length <= START_SIZE || old(end) - old(start) >= START_SIZE)
      ensures bytes <= old(rest) && at + |bytes| <= |was| && old(buf)[..] == ReadInto(mid, at, bytes)
      ensures buf == old(buf) ==> end == at + |bytes|
    {
      ghost var more, first := rest, buf;
      ok := MakeRoom();
      ghost var part := end;
      bytes := [];
      ReadNothing(mid, at);
      if ok {
        Fill();
        if buf == first { bytes := more[..end - part]; }
      }
    }

    /**
     Makes room if needed and reads once, and says what that did to the array it started with. `was` and `p`
     name that array's bytes and the unread stream.
     */
    method ReadMore(ghost was: Bytes, ghost p: Bytes) returns (ok: bool, ghost e: Effect)
      requires Valid() && err.None? && LF !in buf[start..end] && was == buf[..] && p == Unread()
      modifies this, buf
      ensures Valid() && Unread() == p
      ensures buf == old(buf) || (fresh(buf) && buf.Length > old(buf).Length)
      ensures ok ==> err != Some(TooLong) && (|rest| < old(|rest|) || (rest == old(rest) && err.Some?))
      ensures !ok ==> err == Some(TooLong) && FirstLf(p) >= maxToken
      ensures e.moves == old(MustMove()) && start == if e.moves then 0 else old(start)
      ensures e.moves ==> MovesOnlyIf(old(buf).Length, old(start), p)
      ensures buf != old(buf) ==> start == 0 && GrowsOnlyIf(buf.Length, p)
      ensures Turned(old(buf)[..], was, old(start), old(end), p, e)
      ensures buf == old(buf) ==> end == if e.moves then e.front else e.mark
    {
      ghost var from, to, more, first, moves := start, end, rest, buf, MustMove();
      ghost var mid, at := if moves then ShiftedArray(was, from, to) else was, if moves then to - from else to;
      ghost var bytes;
      assert buf[start..end] == was[from..to];
      LfNotInFront(was[from..to], more);
      ok, bytes := ReadOnce(was, mid, at, p);
      TurnedByRead(first[..], mid, was, from, to, p, more, moves, bytes);
      e := OneRead(from, to, moves, |bytes|);
    }

    /** Between two reads of one call: what they did so far to the array the call started with. */
    ghost predicate Along(first: array<Byte>, was: Bytes, from: nat, to: nat, p: Bytes, e: Effect)
      reads this, buf, first
    {
      && Valid() && Unread() == p
      && Turned(first[..], was, from, to, p, e)
      && (buf == first ==> end == if e.moves then e.front else e.mark)
      && start == (if buf == first && !e.moves then from else 0)
      && (buf == first || (buf.Length > first.Length && GrowsOnlyIf(buf.Length, p) && (!e.moves ==> from == 0)))
      && (e.moves ==> MovesOnlyIf(first.Length, from, p))
    }

    /** One more read of the same call. */
    method ReadAgain(ghost first: array<Byte>, ghost was: Bytes, ghost from: nat, ghost to: nat, ghost p: Bytes,
                     ghost e: Effect)
      returns (ok: bool, ghost e': Effect)
      requires Along(first, was, from, to, p, e) && err.None? && LF !in buf[start..end]
      modifies this, buf
      ensures Along(first, was, from, to, p, e')
      ensures buf == old(buf) || (fresh(buf) && buf.Length > old(buf).Length)
      ensures ok ==> err != Some(TooLong) && (|rest| < old(|rest|) || (rest == old(rest) && err.Some?))
      ensures !ok ==> err == Some(TooLong) && FirstLf(p) >= maxToken
      ensures e'.moves == (e.moves || old(MustMove()))
    {
      ghost var mid, same := first[..], buf == first;
      ghost var f;
      ok, f := ReadMore(buf[..], p);
      e' := e;
      if same {
        TurnedTwice(first[..], mid, was, from, to, p, e, f);
        e' := Both(e, f);
      }
    }

    /** Reads until a line is buffered or there is no more to read. */
    method Await(ghost b: Snapshot) returns (ok: bool, ghost e: Effect)
      requires Valid() && err != Some(TooLong) && b.Of(this)
      modifies this, buf
      ensures Along(b.arr, b.was, b.start, b.end, b.p, e)
      ensures buf == b.arr || fresh(buf)
      ensures ok ==> err != Some(TooLong) && (LF in buf[start..end] || err.Some?)
      ensures !ok ==> err == Some(TooLong) && FirstLf(b.p) >= maxToken
      ensures b.MustMove() ==> e.moves
      ensures b.Idle() ==> e == Effect(0, b.end, false)
    {
      ok, e := true, Effect(0, end, false);
      NotTurned(b.was, b.start, b.end, b.p);
      assert buf[start..end] == b.was[b.start..b.end];
      while LF !in buf[start..end] && err.None?
        invariant err != Some(TooLong)
        invariant Along(b.arr, b.was, b.start, b.end, b.p, e)
        invariant buf == b.arr || fresh(buf)
        invariant b.MustMove() ==> e.moves || (buf == b.arr && end == b.end && err.None? && b.arr[..] == b.was)
        invariant b.Idle() ==> (LF in buf[start..end] || err.Some?) && e == Effect(0, b.end, false)
        decreases |rest|, if err.None? then 1 else 0
      {
        ok, e := ReadAgain(b.arr, b.was, b.start, b.end, b.p, e);
        if !ok { return; }
      }
    }

    /** The same, in terms of the scanner before. */
    method Ready(ghost b: Snapshot) returns (ok: bool, ghost e: Effect)
      requires Valid() && err != Some(TooLong) && b.Of(this)
      modifies this, buf
      ensures Valid() && Unread() == b.p && (buf == b.arr || (fresh(buf) && buf.Length > |b.was|))
      ensures ok ==> err != Some(TooLong) && (LF in buf[start..end] || err.Some?)
      ensures !ok ==> err == Some(TooLong) && FirstLf(b.p) >= maxToken
      ensures b.Explains(e, buf == b.arr) && (buf == b.arr || GrowsOnlyIf(buf.Length, b.p))
      ensures start == b.From(e, buf == b.arr) && (buf == b.arr ==> end == if e.moves then e.front else e.mark)
      ensures b.Allows(e) && b.arr[..] == ReadArray(b.was, b.start, b.end, b.p, e)
    {
      ok, e := Await(b);
    }

    /** The token, or at the end of everything none and an emptied buffer. */
    method Deliver(ghost p: Bytes) returns (ok: bool, tok: Slice)
      requires Valid() && err != Some(TooLong) && (LF in buf[start..end] || err.Some?) && p == Unread()
      modifies this`start, this`end
      ensures Valid()
      ensures Took(p, maxToken, ok, err, Unread())
      ensures ok ==> tok.Valid() && tok.arr == buf && tok.Contents() == DropCr(p[..FirstLf(p)])
      ensures ok ==> tok.lo == old(start) && start == tok.lo + LineSize(p) && end == old(end)
      ensures ok ==>
                || (tok.hi < start && buf[tok.hi] in {CR, LF})
                || (tok.hi == start == end && err.Some? && Unread() == [])
      ensures !ok ==> start == end == 0
    {
      ok, tok := TakeToken(p);
      if !ok {
        start, end := 0, 0;
      }
    }

    /**
     The next line. On the way the unread bytes are moved at most once, within the array of the call's start;
     `e` says exactly which bytes of that array were overwritten, and with what. `b` is the scanner before.
     */
    method Scan(ghost b: Snapshot) returns (ok: bool, tok: Slice, ghost e: Effect)
      requires Valid() && err != Some(TooLong) && b.Of(this)
      modifies this, buf
      ensures Valid() && (buf == b.arr || (fresh(buf) && buf.Length > |b.was|))
      // the line
      ensures Took(b.p, maxToken, ok, err, Unread())
      ensures ok ==> tok.Valid() && tok.arr == buf && tok.Contents() == DropCr(b.p[..FirstLf(b.p)])
      // where it lies, and the byte behind it
      ensures ok ==> tok.lo == b.From(e, buf == b.arr)
      ensures ok ==>
                || (tok.hi < start && buf[tok.hi] in {CR, LF})
                || (tok.hi == start == end && err.Some? && Unread() == [])
      // where the scanner is
      ensures b.Settles(e, ok, buf == b.arr, start, end, err) && (buf == b.arr || GrowsOnlyIf(buf.Length, b.p))
      // what happened to the array it started with
      ensures b.Allows(e) && b.arr[..] == ReadArray(b.was, b.start, b.end, b.p, e)
    {
      ok, e := Ready(b);
      ghost var at, upto, same := start, end, buf == b.arr;
      tok := Slice(buf, 0, 0);
      if ok { ok, tok := Deliver(b.p); }
      b.SettlesFrom(e, ok, same, at, upto, start, end, err);
    }
  }

  /** A scanner before a call: its array and the bytes in it, where the unread ones lie, and the unread stream. */
  datatype Snapshot = Snapshot(arr: array<Byte>, was: Bytes, start: nat, end: nat, p: Bytes, ended: bool) {
    ghost predicate Of(sc: Scanner)
      reads sc, sc.buf
      requires sc.Valid()
    {
      arr == sc.buf && was == sc.buf[..] && start == sc.start && end == sc.end && p == sc.Unread()
          && ended == sc.err.Some?
    }

    predicate Allows(e: Effect) { EffectFits(was, start, end, p, e) }

    /** There is nothing to read, or no need to. */
    predicate Idle() { ended || (start <= end <= |was| && LF in was[start..end]) }

    /** Where the line begins after reading that did e; `same` says that this is still in the same array. */
    function From(e: Effect, same: bool): nat { if same && !e.moves then start else 0 }

    /** No line is buffered and there is no room to read on. */
    predicate MustMove() {
      !ended && start <= end <= |was| && LF !in was[start..end] && start > 0 && (end == |was| || start > |was| / 2)
    }

    /** When reading moves, leaves everything alone, and goes on to a larger array. */
    predicate Explains(e: Effect, same: bool) {
      && (MustMove() ==> e.moves)
      && (e.moves ==> MovesOnlyIf(|was|, start, p))
      && (Idle() ==> e == Effect(0, end, false))
      && (!same && !e.moves ==> start == 0)
    }

    /** Where a call that did e leaves the scanner. */
    predicate Settles(e: Effect, ok: bool, same: bool, start': nat, end': nat, err': Option<Fault>) {
      && Explains(e, same)
      && (same && (ok || err' == Some(TooLong)) ==> end' == if e.moves then e.front else e.mark)
      && start' == (if ok then From(e, same) + LineSize(p) else if err' == Some(TooLong) then From(e, same) else 0)
      && (!ok && err' != Some(TooLong) ==> end' == 0)
    }

    lemma SettlesFrom(e: Effect, ok: bool, same: bool, at: nat, upto: nat, start': nat, end': nat, err': Option<Fault>)
      requires Explains(e, same) && at == From(e, same) && (same ==> upto == if e.moves then e.front else e.mark)
      requires if ok then start' == at + LineSize(p) && end' == upto
               else if err' == Some(TooLong) then start' == at && end' == upto
               else start' == end' == 0
      ensures Settles(e, ok, same, start', end', err')
    {
    }
  }

  ghost function Now(sc: Scanner): (b: Snapshot)
    reads sc, sc.buf
    requires sc.Valid()
    ensures b.Of(sc)
  {
    Snapshot(sc.buf, sc.buf[..], sc.start, sc.end, sc.Unread(), sc.err.Some?)
  }
}
