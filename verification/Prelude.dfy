/** Small shared vocabulary: optional values and bytes. */
module Prelude {
  datatype Option<+T> = None | Some(value: T)

  /** One octet of a stream or buffer. */
  type Byte = b: int | 0 <= b < 256

  type Bytes = seq<Byte>

  /** A Go slice: a window into an array that others may also hold, with room up to the array's end. */
  datatype Slice = Slice(arr: array<Byte>, lo: nat, hi: nat) {
    ghost predicate Valid()
      reads arr
    {
      lo <= hi <= arr.Length
    }

    ghost function Contents(): Bytes
      reads arr
      requires Valid()
    {
      arr[lo..hi]
    }
  }

  /** Pieces put together, first to last. */
  function Flatten<T>(pieces: seq<seq<T>>): seq<T> {
    if pieces == [] then [] else Flatten(pieces[..|pieces| - 1]) + pieces[|pieces| - 1]
  }

  lemma {:induction false} FlattenFirst<T>(chunks: seq<seq<T>>)
    requires chunks != []
    ensures Flatten(chunks) == chunks[0] + Flatten(chunks[1..])
  {
    var front, last := chunks[..|chunks| - 1], chunks[|chunks| - 1];
    if |chunks| == 1 {
      assert Flatten(front) == [] && chunks[1..] == [];
      assert Flatten(chunks) == [] + last == last;
    } else {
      FlattenFirst(front);
      assert chunks[1..][..|chunks| - 2] == front[1..];
      assert Flatten(chunks[1..]) == Flatten(front[1..]) + last;
    }
  }

  /** Old content with its first bytes overwritten. */
  function Overlay(below: Bytes, above: Bytes): Bytes {
    if |above| <= |below| then above + below[|above|..] else above[..|below|]
  }

  /** Go's uint64 counters wrap at this modulus. */
  const TWO_64 := 0x1_0000_0000_0000_0000

  lemma Associative<T>(a: seq<T>, b: seq<T>, c: seq<T>)
    ensures a + b + c == a + (b + c)
  {
  }
}
