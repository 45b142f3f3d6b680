/**
 Rewriting a response body: hook, optional gzip through a pool of reusable buffers, and the
 Content-Length header.

 Buffers, their backing arrays and the slices handed out are heap objects, because the slice
 returned by `WithGzip` points into the array of a buffer that is already back in the pool.
 Compression itself is a parameter: a function from data to the chunks the compressor writes.
 */
module GzipResponse {
  import opened Prelude
  import opened Decimal

  type Compressor = Bytes -> seq<Bytes>

  /** Everything the compressor writes for the data. */
  function Gzip(gz: Compressor, data: Bytes): Bytes { Flatten(gz(data)) }

  /** A buffer that only grows by writes and is emptied by Reset, which keeps its array. */
  class ByteBuffer {
    var buf: array<Byte>
    var len: nat

    ghost predicate Valid()
      reads this
    {
      len <= buf.Length
    }

    ghost function Contents(): Bytes
      reads this, buf
      requires Valid()
    {
      buf[..len]
    }

    constructor ()
      ensures Valid() && Contents() == [] && fresh(buf)
    {
      buf := new Byte[0];
      len := 0;
    }

    /** Appends in place while the array has room, otherwise moves to a larger array. */
    method Write(p: Bytes)
      requires Valid()
      modifies this, buf
      ensures Valid() && Contents() == old(Contents()) + p
      ensures buf == old(buf) || fresh(buf)
      ensures old(len) + |p| <= old(buf).Length ==>
                buf == old(buf) && buf[..] == old(buf[..len]) + p + old(buf[..])[old(len) + |p|..]
      ensures old(len) + |p| > old(buf).Length ==> fresh(buf) && old(buf)[..] == old(buf[..])
      ensures buf.Length >= old(buf).Length
    {
      if len + |p| > buf.Length {
        var bigger := new Byte[2 * buf.Length + |p|];
        forall i | 0 <= i < len { bigger[i] := buf[i]; }
        buf := bigger;
      }
      forall i | 0 <= i < |p| { buf[len + i] := p[i]; }
      len := len + |p|;
    }

    method Reset()
      modifies this`len
      ensures len == 0
    {
      len := 0;
    }
  }

  /** The pool. Which free buffer Get hands out, or a new one, is the pool's own choice. */
  class BufferPool {
    var free: seq<ByteBuffer>

    ghost function Buffers(): set<ByteBuffer>
      reads this
    {
      set b | b in free
    }

    ghost function Arrays(): set<array<Byte>>
      reads this, free
    {
      set i | 0 <= i < |free| :: free[i].buf
    }

    /** Free buffers are empty and share neither identity nor array. */
    ghost predicate Valid()
      reads this, free
    {
      && (forall i | 0 <= i < |free| :: free[i].len == 0)
      && (forall i, j | 0 <= i < j < |free| :: free[i] != free[j] && free[i].buf != free[j].buf)
    }

    constructor ()
      ensures Valid() && free == []
    {
      free := [];
    }

    method Get(pick: nat) returns (b: ByteBuffer)
      requires Valid()
      modifies this
      ensures Valid() && b.Valid() && b.len == 0
      ensures b !in free && b.buf !in Arrays()
      ensures pick < |old(free)| ==> b == old(free)[pick] && free == old(free)[..pick] + old(free)[pick + 1..]
      ensures pick >= |old(free)| ==> fresh(b) && fresh(b.buf) && free == old(free)
    {
      if pick < |free| {
        b := free[pick];
        free := free[..pick] + free[pick + 1..];
      } else {
        b := new ByteBuffer();
      }
    }

    method Put(b: ByteBuffer)
      requires Valid() && b.len == 0 && b !in free && b.buf !in Arrays()
      modifies this
      ensures Valid() && free == old(free) + [b]
    {
      free := free + [b];
    }
  }

  lemma FlattenSnoc(chunks: seq<Bytes>, i: nat)
    requires i < |chunks|
    ensures Flatten(chunks[..i + 1]) == Flatten(chunks[..i]) + chunks[i]
  {
    assert chunks[..i + 1][..i] == chunks[..i];
  }

  /** The chunks that are written before the first one the room is too small for. */
  function Fitting(chunks: seq<Bytes>, room: nat): Bytes {
    if chunks == [] || |chunks[0]| > room then [] else chunks[0] + Fitting(chunks[1..], room - |chunks[0]|)
  }

  lemma {:induction false} FittingBounds(chunks: seq<Bytes>, room: nat)
    ensures |Fitting(chunks, room)| <= room
    ensures |Flatten(chunks)| <= room ==> Fitting(chunks, room) == Flatten(chunks)
  {
    if chunks != [] {
      FlattenFirst(chunks);
      if |chunks[0]| <= room { FittingBounds(chunks[1..], room - |chunks[0]|); }
    }
  }

  /** Either the chunks so far fit and the old array holds them, or the old array is done with. */
  ghost predicate Written(now: Bytes, was: Bytes, chunks: seq<Bytes>, i: nat, inPlace: bool)
    requires i <= |chunks|
  {
    var front := Flatten(chunks[..i]);
    if inPlace then
      && |front| <= |was| && now == front + was[|front|..]
      && Fitting(chunks, |was|) == front + Fitting(chunks[i..], |was| - |front|)
    else |front| > |was| && now == Overlay(was, Fitting(chunks, |was|))
  }

  lemma WrittenFirst(was: Bytes, chunks: seq<Bytes>)
    ensures Written(was, was, chunks, 0, true)
  {
    assert chunks[0..] == chunks && Flatten(chunks[..0]) == [];
  }

  /** One more chunk, in place if there is room. */
  lemma WrittenNext(now: Bytes, was: Bytes, chunks: seq<Bytes>, i: nat, inPlace: bool, now': Bytes)
    requires i < |chunks| && Written(now, was, chunks, i, inPlace)
    requires var front := Flatten(chunks[..i]);
             now' == if inPlace && |front| + |chunks[i]| <= |was|
                     then now[..|front|] + chunks[i] + now[|front| + |chunks[i]|..] else now
    ensures Written(now', was, chunks, i + 1, inPlace && |Flatten(chunks[..i])| + |chunks[i]| <= |was|)
  {
    var front := Flatten(chunks[..i]);
    FlattenSnoc(chunks, i);
    if inPlace {
      var left := |was| - |front|;
      assert chunks[i..][1..] == chunks[i + 1..] && chunks[i..][0] == chunks[i];
      if |chunks[i]| <= left {
        assert was[|front|..][|chunks[i]|..] == was[|front| + |chunks[i]|..];
        Associative(front, chunks[i], Fitting(chunks[i + 1..], left - |chunks[i]|));
      } else {
        assert Fitting(chunks, |was|) == front;
      }
    }
  }

  /** One more chunk. `first` is the array the buffer started with, `was` what was in it. */
  method WriteNext(b: ByteBuffer, chunks: seq<Bytes>, i: nat, ghost first: array<Byte>, ghost was: Bytes,
                   ghost inPlace: bool)
    returns (ghost inPlace': bool)
    requires b.Valid() && i < |chunks| && b.Contents() == Flatten(chunks[..i])
    requires |was| == first.Length && (inPlace <==> b.buf == first) && Written(first[..], was, chunks, i, inPlace)
    modifies b, b.buf
    ensures b.Valid() && b.Contents() == Flatten(chunks[..i + 1])
    ensures b.buf == old(b.buf) || fresh(b.buf)
    ensures (inPlace' <==> b.buf == first) && Written(first[..], was, chunks, i + 1, inPlace')
  {
    FlattenSnoc(chunks, i);
    ghost var now, front := first[..], Flatten(chunks[..i]);
    assert b.len == |front|;
    b.Write(chunks[i]);
    WrittenNext(now, was, chunks, i, inPlace, first[..]);
    inPlace' := inPlace && |front| + |chunks[i]| <= |was|;
  }

  /** Writes all chunks into the buffer. Those that fit in its array overwrite what was there. */
  method WriteAll(b: ByteBuffer, chunks: seq<Bytes>)
    requires b.Valid() && b.len == 0
    modifies b, b.buf
    ensures b.Valid() && b.Contents() == Flatten(chunks)
    ensures b.buf == old(b.buf) || fresh(b.buf)
    ensures b.buf == old(b.buf) <==> |Flatten(chunks)| <= old(b.buf).Length
    ensures old(b.buf)[..] == Overlay(old(b.buf[..]), Fitting(chunks, old(b.buf).Length))
  {
    ghost var first, was, inPlace := b.buf, b.buf[..], true;
    WrittenFirst(was, chunks);
    for i := 0 to |chunks|
      invariant b.Valid() && b.Contents() == Flatten(chunks[..i])
      invariant (inPlace <==> b.buf == first) && (b.buf == first || fresh(b.buf))
      invariant Written(first[..], was, chunks, i, inPlace)
    {
      inPlace := WriteNext(b, chunks, i, first, was, inPlace);
    }
    assert chunks[..|chunks|] == chunks && chunks[|chunks|..] == [];
    assert inPlace ==> Fitting(chunks, |was|) == Flatten(chunks) + [] == Flatten(chunks);
  }

  /** Writes the output and empties the buffer again. The slice keeps what was in it. */
  method Compress(b: ByteBuffer, chunks: seq<Bytes>) returns (s: Slice)
    requires b.Valid() && b.len == 0
    modifies b, b.buf
    ensures b.len == 0 && s == Slice(b.buf, 0, |Flatten(chunks)|) && s.Valid() && s.Contents() == Flatten(chunks)
    ensures if |Flatten(chunks)| <= old(b.buf).Length then b.buf == old(b.buf) else fresh(b.buf)
    ensures old(b.buf)[..] == Overlay(old(b.buf[..]), Fitting(chunks, old(b.buf).Length))
  {
    WriteAll(b, chunks);
    s := Slice(b.buf, 0, b.len);
    b.Reset();
  }

  /**
   Compresses the data with a pooled buffer. The buffer is reset and put back before the slice
   reaches the caller, so the result lives in the array of a free buffer.
   */
  method WithGzip(pool: BufferPool, data: Bytes, gz: Compressor, pick: nat) returns (s: Slice, ghost b: ByteBuffer)
    requires pool.Valid()
    modifies pool, pool.Buffers(), pool.Arrays()
    ensures pool.Valid()
    ensures fresh(pool.Buffers() - old(pool.Buffers())) && fresh(pool.Arrays() - old(pool.Arrays()))
    ensures s.Valid() && s.lo == 0 && s.Contents() == Gzip(gz, data)
    ensures b in pool.free && b.buf == s.arr
    ensures pick < |old(pool.free)| ==>
              b == old(pool.free)[pick] && pool.free == old(pool.free)[..pick] + old(pool.free)[pick + 1..] + [b]
    ensures pick >= |old(pool.free)| ==> fresh(b) && fresh(b.buf) && pool.free == old(pool.free) + [b]
    ensures forall c | c in old(pool.free) && c != b ::
              c in pool.free && c.buf == old(c.buf) && c.buf[..] == old(c.buf[..])
    ensures pick < |old(pool.free)| ==>
              && old(b.buf)[..] == Overlay(old(b.buf[..]), Fitting(gz(data), old(b.buf).Length))
              && if |Gzip(gz, data)| <= old(b.buf).Length then b.buf == old(b.buf) else fresh(b.buf)
  {
    var buffer := pool.Get(pick);
    s := Compress(buffer, gz(data));
    pool.Put(buffer);
    b := buffer;
  }

  // ---- What other users of the pool do to a slice that is still being read ----

  /**
   Any number of other calls, none of which takes a buffer backed by the given array, leave the
   array as it is. A pick that would hit such a buffer gets a new one instead: that is what
   "does not take" means.
   */
  method OtherCalls(pool: BufferPool, gz: Compressor, datas: seq<Bytes>, picks: seq<nat>, arr: array<Byte>)
    requires pool.Valid() && |picks| == |datas|
    modifies pool, pool.Buffers(), pool.Arrays()
    ensures pool.Valid() && arr[..] == old(arr[..])
  {
    for i := 0 to |datas|
      invariant pool.Valid() && arr[..] == old(arr[..])
      invariant fresh(pool.Buffers() - old(pool.Buffers())) && fresh(pool.Arrays() - old(pool.Arrays()))
    {
      var pick := if picks[i] < |pool.free| && pool.free[picks[i]].buf == arr then |pool.free| else picks[i];
      ghost var kept := arr[..];
      var s, taken := WithGzip(pool, datas[i], gz, pick);
      assert arr[..] == kept;
    }
  }

  /**
   One more call that does take buffer b: the chunks of its output that fit in the array are laid over the
   earlier slice, whether or not the whole output fits, so the slice survives iff they agree with it.
   */
  method SameBufferCall(pool: BufferPool, gz: Compressor, data: Bytes, s: Slice, ghost b: ByteBuffer, pick: nat)
    requires pool.Valid() && pick < |pool.free| && pool.free[pick] == b && b.buf == s.arr && s.Valid()
    modifies pool, pool.Buffers(), pool.Arrays()
    ensures s.Valid() && s.arr[..] == Overlay(old(s.arr[..]), Fitting(gz(data), s.arr.Length))
    ensures var z := Fitting(gz(data), s.arr.Length);
            s.Contents() == old(s.Contents()) <==> forall i | s.lo <= i < s.hi && i < |z| :: z[i] == old(s.arr[i])
  {
    ghost var z, whole := Fitting(gz(data), s.arr.Length), s.arr[..];
    FittingBounds(gz(data), s.arr.Length);
    var other, taken := WithGzip(pool, data, gz, pick);
    OverlaySame(whole, z, s.lo, s.hi);
    assert s.arr[..][s.lo..s.hi] == s.Contents() && whole[s.lo..s.hi] == old(s.Contents());
  }

  lemma OverlaySame(was: Bytes, z: Bytes, lo: nat, hi: nat)
    requires |z| <= |was| && lo <= hi <= |was|
    ensures Overlay(was, z)[lo..hi] == was[lo..hi] <==> forall i | lo <= i < hi && i < |z| :: z[i] == was[i]
  {
    var now := Overlay(was, z);
    assert forall i | 0 <= i < |was| :: now[i] == if i < |z| then z[i] else was[i];
    if now[lo..hi] == was[lo..hi] {
      forall i | lo <= i < hi && i < |z| ensures z[i] == was[i] {
        assert now[lo..hi][i - lo] == was[lo..hi][i - lo];
      }
    }
  }

  // ---- The response ----

  class Response {
    var header: map<string, string>
    var body: Slice

    constructor (header: map<string, string>, body: Slice)
      ensures this.header == header && this.body == body
    {
      this.header := header;
      this.body := body;
    }
  }

  function Hooked(hook: Option<Bytes -> Bytes>, upstream: Bytes): Bytes {
    if hook.Some? then hook.value(upstream) else upstream
  }

  /** What the client is meant to receive. */
  function Intended(gz: Compressor, wantGzip: bool, hooked: Bytes): Bytes {
    if wantGzip && |hooked| > 0 then Gzip(gz, hooked) else hooked
  }

  /** The headers after the rewrite; an empty body leaves them alone. */
  function Rewritten(header: map<string, string>, wantGzip: bool, gz: Compressor, hooked: Bytes): map<string, string> {
    if hooked == [] then header
    else
      (if wantGzip then header["Content-Encoding" := "gzip"] else header)
      ["Content-Length" := Itoa(|Intended(gz, wantGzip, hooked)|)]
  }

  /** The client is told the length it gets, or none. */
  predicate LengthAgrees(header: map<string, string>, n: nat) {
    "Content-Length" in header ==> ParseDecimal(header["Content-Length"]) == Some(n)
  }

  /**
   The length is right whenever something is sent; a body hooked to nothing keeps the upstream length, right or
   wrong.
   */
  lemma LengthAgreesIff(header: map<string, string>, wantGzip: bool, gz: Compressor, hooked: Bytes)
    ensures LengthAgrees(Rewritten(header, wantGzip, gz, hooked), |Intended(gz, wantGzip, hooked)|) <==>
              hooked != [] || LengthAgrees(header, 0)
  {
    ParseItoa(|Intended(gz, wantGzip, hooked)|);
  }

  /** What becomes of the headers: the length always and the encoding when compressing are set, all others kept. */
  lemma HeadersAre(header: map<string, string>, wantGzip: bool, gz: Compressor, hooked: Bytes, n: nat)
    requires hooked != [] && n == |Intended(gz, wantGzip, hooked)|
    ensures var now := Rewritten(header, wantGzip, gz, hooked);
            && "Content-Length" in now && ParseDecimal(now["Content-Length"]) == Some(n)
            && (wantGzip ==> "Content-Encoding" in now && now["Content-Encoding"] == "gzip")
            && (forall key: string | key != "Content-Length" && !(wantGzip && key == "Content-Encoding") ::
                  (key in now <==> key in header) && (key in header ==> now[key] == header[key]))
  {
    ParseItoa(n);
  }

  method NewBody(data: Bytes) returns (body: Slice)
    ensures body.Valid() && body.lo == 0 && body.Contents() == data && fresh(body.arr)
  {
    var plain := new Byte[|data|](i requires 0 <= i < |data| => data[i]);
    body := Slice(plain, 0, |data|);
  }

  method BodyFor(data: Bytes, wantGzip: bool, gz: Compressor, pool: BufferPool, pick: nat) returns (body: Slice)
    requires pool.Valid()
    modifies pool, pool.Buffers(), pool.Arrays()
    ensures pool.Valid() && body.Valid() && body.lo == 0 && body.Contents() == Intended(gz, wantGzip, data)
    ensures fresh(pool.Buffers() - old(pool.Buffers())) && fresh(pool.Arrays() - old(pool.Arrays()))
    ensures wantGzip && data != [] ==> body.arr in pool.Arrays()
    ensures !wantGzip || data == [] ==> fresh(body.arr)
  {
    if wantGzip && |data| > 0 {
      ghost var buffer;
      body, buffer := WithGzip(pool, data, gz, pick);
    } else {
      body := NewBody(data);
    }
  }

  /**
   The body rewrite. A compressed body lives in the array of a free pooled buffer, an uncompressed
   one in an array of its own; the captured body is what upstream sent, before the hook.
   */
  method ModifyResponse(resp: Response, upstream: Bytes, hook: Option<Bytes -> Bytes>, wantGzip: bool,
                        gz: Compressor, pool: BufferPool, pick: nat)
    returns (captured: Bytes)
    requires pool.Valid() && pool as object != resp && (resp as object) !in pool.Buffers()
    modifies resp, pool, pool.Buffers(), pool.Arrays()
    ensures pool.Valid() && resp.body.Valid() && captured == upstream
    ensures fresh(pool.Buffers() - old(pool.Buffers())) && fresh(pool.Arrays() - old(pool.Arrays()))
    ensures resp.body.Contents() == Intended(gz, wantGzip, Hooked(hook, upstream))
    ensures resp.header == Rewritten(old(resp.header), wantGzip, gz, Hooked(hook, upstream))
    ensures wantGzip && Hooked(hook, upstream) != [] ==> resp.body.arr in pool.Arrays()
    ensures !wantGzip || Hooked(hook, upstream) == [] ==> fresh(resp.body.arr)
  {
    captured := upstream;
    var data := if hook.Some? then hook.value(upstream) else upstream;
    var body := BodyFor(data, wantGzip, gz, pool, pick);
    var header := resp.header;
    if |data| > 0 {
      if wantGzip {
        header := header["Content-Encoding" := "gzip"];
      }
      header := header["Content-Length" := Itoa(body.hi)];
    }
    resp.header, resp.body := header, body;
  }

  /**
   The whole exchange: rewrite, then any other responses, then the body is read out to the client.
   As long as none of the others took the same pooled buffer, the client gets what was intended,
   with its exact length, and decompressing it gives the hooked data back.
   */
  method Respond(resp: Response, upstream: Bytes, hook: Option<Bytes -> Bytes>, wantGzip: bool,
                 gz: Compressor, gunzip: Bytes -> Bytes, pool: BufferPool, pick: nat, datas: seq<Bytes>,
                 picks: seq<nat>)
    returns (sent: Bytes)
    requires pool.Valid() && pool as object != resp && (resp as object) !in pool.Buffers()
    requires |picks| == |datas|
    requires forall d: Bytes :: gunzip(Gzip(gz, d)) == d
    modifies resp, pool, pool.Buffers(), pool.Arrays()
    ensures var hooked := if hook.Some? then hook.value(upstream) else upstream;
            && sent == (if wantGzip && hooked != [] then Flatten(gz(hooked)) else hooked)
            && (wantGzip && hooked != [] ==> gunzip(sent) == hooked)
            && (hooked == [] ==> resp.header == old(resp.header))
            && (hooked != [] ==>
                  && "Content-Length" in resp.header && ParseDecimal(resp.header["Content-Length"]) == Some(|sent|)
                  && (wantGzip ==> "Content-Encoding" in resp.header && resp.header["Content-Encoding"] == "gzip")
                  && (forall key: string | key != "Content-Length" && !(wantGzip && key == "Content-Encoding") ::
                        && (key in resp.header <==> key in old(resp.header))
                        && (key in resp.header ==> resp.header[key] == old(resp.header)[key])))
  {
    ghost var header, hooked := resp.header, Hooked(hook, upstream);
    var captured := ModifyResponse(resp, upstream, hook, wantGzip, gz, pool, pick);
    if hooked != [] { HeadersAre(header, wantGzip, gz, hooked, |Intended(gz, wantGzip, hooked)|); }
    OtherCalls(pool, gz, datas, picks, resp.body.arr);
    sent := resp.body.arr[resp.body.lo..resp.body.hi];
  }

  /**
   Without that condition it goes wrong: two responses of equal compressed size, the second of which takes the
   buffer just put back, leave the first client reading the second's bytes, which are not its own.
   */
  method FirstReadsSecond(gz: Compressor, gunzip: Bytes -> Bytes, data1: Bytes, data2: Bytes) returns (read1: Bytes)
    requires |Gzip(gz, data1)| == |Gzip(gz, data2)| && data1 != data2
    requires forall d: Bytes :: gunzip(Gzip(gz, d)) == d
    ensures read1 == Gzip(gz, data2) && gunzip(read1) == data2 && read1 != Gzip(gz, data1)
  {
    var pool := new BufferPool();
    var s, b := WithGzip(pool, data1, gz, 0);
    assert pool.free == [b];
    FittingBounds(gz(data2), s.arr.Length);
    SameBufferCall(pool, gz, data2, s, b, 0);
    read1 := s.arr[s.lo..s.hi];
    assert gunzip(Gzip(gz, data1)) == data1 && gunzip(Gzip(gz, data2)) == data2;
  }

  /** The smallest case: a compressor that writes its input as one chunk, and two bodies of one byte. */
  method FirstReadsSecondWitness() returns (read1: Bytes)
    ensures read1 == [2]
  {
    var gz: Compressor := d => [d];
    forall d: Bytes ensures Gzip(gz, d) == d { FlattenFirst([d]); }
    read1 := FirstReadsSecond(gz, d => d, [1], [2]);
  }

  /**
   An output too large for the array still spoils the slice with the chunks that do fit: the first client reads
   the second output's first bytes, whatever size the pool's buffer has.
   */
  method LargerOutputSpoils() returns (written: Bytes, read1: Bytes)
    ensures written == [1, 2, 3] && read1 == [9, 9, 3]
  {
    var gz: Compressor := d => if d == [] then [[1, 2, 3]] else [[9, 9], d];
    var pool := new BufferPool();
    FlattenFirst([[1, 2, 3]]);
    var s, b := WithGzip(pool, [], gz, 0);
    written := s.arr[s.lo..s.hi];
    var larger: Bytes := seq(s.arr.Length, _ => 0);
    FirstChunkFits([9, 9], larger, s.arr.Length);
    ghost var was := s.arr[..];
    SameBufferCall(pool, gz, larger, s, b, 0);
    FirstTwoSpoiled(was, s.arr[..]);
    read1 := s.arr[..s.hi];
  }

  lemma FirstTwoSpoiled(was: Bytes, now: Bytes)
    requires |was| >= 3 && was[0..3] == [1, 2, 3] && now == Overlay(was, [9, 9])
    ensures now[..3] == [9, 9, 3]
  {
    assert now == [9, 9] + was[2..] && was[2] == was[0..3][2];
  }

  lemma FirstChunkFits(chunk: Bytes, more: Bytes, room: nat)
    requires 0 < |chunk| <= room <= |more|
    ensures Fitting([chunk, more], room) == chunk
  {
    assert [chunk, more][1..] == [more] && Fitting([more], room - |chunk|) == [];
  }

  /** Which Accept-Encoding items ask for gzip, as the program decides it. */
  predicate IsGzip(item: string, lower: string -> string) {
    lower(TrimBlanks(item)) == "gzip"
  }

  function TrimBlanks(s: string): string {
    if s != [] && s[0] == ' ' then TrimBlanks(s[1..])
    else if s != [] && s[|s| - 1] == ' ' then TrimBlanks(s[..|s| - 1])
    else s
  }

  /** Trimming takes away all blanks at either end and nothing else. */
  lemma {:induction false} TrimBlanksCuts(s: string) returns (a: nat, b: nat)
    ensures a + b <= |s| && TrimBlanks(s) == s[a..|s| - b]
    ensures forall i | 0 <= i < |s| && (i < a || i >= |s| - b) :: s[i] == ' '
    ensures var t := TrimBlanks(s); t != "" ==> t[0] != ' ' && t[|t| - 1] != ' '
  {
    a, b := 0, 0;
    if s != [] && s[0] == ' ' {
      a, b := TrimBlanksCuts(s[1..]);
      assert forall i | 1 <= i < |s| :: s[i] == s[1..][i - 1];
      a := a + 1;
    } else if s != [] && s[|s| - 1] == ' ' {
      a, b := TrimBlanksCuts(s[..|s| - 1]);
      assert forall i | 0 <= i < |s| - 1 :: s[i] == s[..|s| - 1][i];
      b := b + 1;
    }
  }

  function Others(headers: seq<string>, lower: string -> string): seq<string> {
    if headers == [] then []
    else
      var front := Others(headers[..|headers| - 1], lower);
      if IsGzip(headers[|headers| - 1], lower) then front else front + [headers[|headers| - 1]]
  }

  /** Splits the items into those asking for gzip and the rest, keeping the rest in order. */
  method DealWithGzip(headers: seq<string>, lower: string -> string) returns (kept: seq<string>, wantGzip: bool)
    ensures wantGzip <==> exists i :: 0 <= i < |headers| && lower(TrimBlanks(headers[i])) == "gzip"
    ensures kept == Others(headers, lower)
    ensures forall h :: h in kept <==> h in headers && lower(TrimBlanks(h)) != "gzip"
  {
    kept, wantGzip := [], false;
    for i := 0 to |headers|
      invariant wantGzip <==> exists k :: 0 <= k < i && IsGzip(headers[k], lower)
      invariant kept == Others(headers[..i], lower)
      invariant forall h :: h in kept <==> h in headers[..i] && lower(TrimBlanks(h)) != "gzip"
    {
      assert headers[..i + 1][..i] == headers[..i] && headers[..i + 1] == headers[..i] + [headers[i]];
      if lower(TrimBlanks(headers[i])) == "gzip" {
        assert IsGzip(headers[i], lower);
        wantGzip := true;
        continue;
      }
      kept := kept + [headers[i]];
    }
    assert headers[..|headers|] == headers;
  }
}
