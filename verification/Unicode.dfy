/**
 JavaScript strings as UTF-16 code units, the scalar values TextEncoder makes of them, and UTF-8
 (section 3 of RFC 3629) with a strict decoder.
 */
module Unicode {
  import opened Prelude

  type Unit = u: int | 0 <= u < 0x10000
  type Scalar = v: int | 0 <= v < 0xD800 || 0xE000 <= v < 0x110000

  predicate IsHigh(u: Unit) { 0xD800 <= u < 0xDC00 }

  predicate IsLow(u: Unit) { 0xDC00 <= u < 0xE000 }

  /** No surrogate stands alone. */
  predicate WellFormed(s: seq<Unit>) {
    s == [] ||
    if IsHigh(s[0]) then |s| > 1 && IsLow(s[1]) && WellFormed(s[2..])
    else !IsLow(s[0]) && WellFormed(s[1..])
  }

  /** The conversion TextEncoder applies: pairs are combined, lone surrogates become U+FFFD. */
  function Scalars(s: seq<Unit>): seq<Scalar> {
    if s == [] then []
    else if IsHigh(s[0]) && |s| > 1 && IsLow(s[1]) then
      [0x10000 + (s[0] - 0xD800) * 0x400 + (s[1] - 0xDC00)] + Scalars(s[2..])
    else if IsHigh(s[0]) || IsLow(s[0]) then [0xFFFD] + Scalars(s[1..])
    else [s[0]] + Scalars(s[1..])
  }

  function UnitsOf(v: Scalar): seq<Unit> {
    if v < 0x10000 then [v] else [0xD800 + (v - 0x10000) / 0x400, 0xDC00 + (v - 0x10000) % 0x400]
  }

  function Units(vs: seq<Scalar>): seq<Unit> {
    if vs == [] then [] else UnitsOf(vs[0]) + Units(vs[1..])
  }

  lemma SameFront(a: seq<Unit>, x: seq<Unit>, y: seq<Unit>)
    ensures a + x == a + y <==> x == y
  {
    if a + x == a + y {
      assert x == (a + x)[|a|..] == (a + y)[|a|..] == y;
    }
  }

  lemma UnitsSnoc(v: Scalar, vs: seq<Scalar>)
    ensures Units([v] + vs) == UnitsOf(v) + Units(vs)
  {
    assert ([v] + vs)[1..] == vs;
  }

  /** Converting to scalar values loses nothing exactly for well-formed strings. */
  lemma {:induction false} UnitsOfScalars(s: seq<Unit>)
    ensures Units(Scalars(s)) == s <==> WellFormed(s)
  {
    if s != [] {
      var n := if IsHigh(s[0]) && |s| > 1 && IsLow(s[1]) then 2 else 1;
      var v, tail := Scalars(s)[0], Scalars(s[n..]);
      UnitsOfScalars(s[n..]);
      assert Scalars(s) == [v] + tail;
      UnitsSnoc(v, tail);
      assert s == s[..n] + s[n..];
      if (IsHigh(s[0]) && n == 1) || IsLow(s[0]) {
        assert UnitsOf(v) == [0xFFFD] && (UnitsOf(v) + Units(tail))[0] != s[0];
      } else {
        assert UnitsOf(v) == s[..n];
        SameFront(s[..n], Units(tail), s[n..]);
      }
    }
  }

  // ---- UTF-8 ----

  function Encode(v: Scalar): seq<Byte> {
    if v < 0x80 then [v]
    else if v < 0x800 then [0xC0 + v / 0x40, 0x80 + v % 0x40]
    else if v < 0x10000 then [0xE0 + v / 0x1000, 0x80 + v / 0x40 % 0x40, 0x80 + v % 0x40]
    else [0xF0 + v / 0x40000, 0x80 + v / 0x1000 % 0x40, 0x80 + v / 0x40 % 0x40, 0x80 + v % 0x40]
  }

  function EncodeAll(vs: seq<Scalar>): seq<Byte> {
    if vs == [] then [] else Encode(vs[0]) + EncodeAll(vs[1..])
  }

  predicate IsTail(b: Byte) { 0x80 <= b < 0xC0 }

  /** The value of n tail bytes after the given start, or None when one is missing. */
  function Tails(acc: nat, b: seq<Byte>, n: nat): Option<nat>
    decreases n
  {
    if n == 0 then Some(acc)
    else if b == [] || !IsTail(b[0]) then None
    else Tails(acc * 0x40 + (b[0] - 0x80), b[1..], n - 1)
  }

  /** The first encoded value and its length; overlong forms, surrogates and values above U+10FFFF are errors. */
  function DecodeOne(b: seq<Byte>): Option<(Scalar, nat)>
    requires b != []
  {
    if b[0] < 0x80 then Some((b[0], 1))
    else
      var (n, least, acc) :=
        if 0xC0 <= b[0] < 0xE0 then (1, 0x80, b[0] - 0xC0)
        else if 0xE0 <= b[0] < 0xF0 then (2, 0x800, b[0] - 0xE0)
        else if 0xF0 <= b[0] < 0xF8 then (3, 0x10000, b[0] - 0xF0)
        else (0, 1, 0);
      match Tails(acc, b[1..], n)
      case None => None
      case Some(v) => if v < least || 0xD800 <= v < 0xE000 || v >= 0x110000 then None else Some((v, n + 1))
  }

  function DecodeAll(b: seq<Byte>): Option<seq<Scalar>>
    decreases |b|
  {
    if b == [] then Some([])
    else
      match DecodeOne(b)
      case None => None
      case Some((v, n)) =>
        if n == 0 || n > |b| then None
        else
          match DecodeAll(b[n..])
          case None => None
          case Some(vs) => Some([v] + vs)
  }

  lemma DecodeEncode2(v: Scalar, rest: seq<Byte>)
    requires 0x80 <= v < 0x800
    ensures DecodeOne(Encode(v) + rest) == Some((v, 2))
  {
    var b := Encode(v) + rest;
    assert b[1..][0] == 0x80 + v % 0x40;
    assert Tails(v / 0x40, b[1..], 1) == Tails(v, b[1..][1..], 0);
  }

  lemma DecodeEncode3(v: Scalar, rest: seq<Byte>)
    requires 0x800 <= v < 0x10000
    ensures DecodeOne(Encode(v) + rest) == Some((v, 3))
  {
    var b := Encode(v) + rest;
    var t := b[1..];
    assert t[0] == 0x80 + v / 0x40 % 0x40 && t[1..][0] == 0x80 + v % 0x40;
    assert v / 0x1000 * 0x40 + v / 0x40 % 0x40 == v / 0x40;
    assert Tails(v / 0x1000, t, 2) == Tails(v / 0x40, t[1..], 1) == Tails(v, t[1..][1..], 0);
  }

  lemma DecodeEncode4(v: Scalar, rest: seq<Byte>)
    requires 0x10000 <= v
    ensures DecodeOne(Encode(v) + rest) == Some((v, 4))
  {
    var b := Encode(v) + rest;
    var t := b[1..];
    assert t[0] == 0x80 + v / 0x1000 % 0x40 && t[1..][0] == 0x80 + v / 0x40 % 0x40 && t[1..][1..][0] == 0x80 + v % 0x40;
    assert v / 0x40000 * 0x40 + v / 0x1000 % 0x40 == v / 0x1000;
    assert v / 0x1000 * 0x40 + v / 0x40 % 0x40 == v / 0x40;
    assert Tails(v / 0x40000, t, 3) == Tails(v / 0x1000, t[1..], 2);
    assert Tails(v / 0x1000, t[1..], 2) == Tails(v / 0x40, t[1..][1..], 1);
    assert Tails(v / 0x40, t[1..][1..], 1) == Tails(v, t[1..][1..][1..], 0);
  }

  lemma DecodeEncode(v: Scalar, rest: seq<Byte>)
    ensures DecodeOne(Encode(v) + rest) == Some((v, |Encode(v)|))
  {
    if 0x80 <= v < 0x800 { DecodeEncode2(v, rest); }
    else if 0x800 <= v < 0x10000 { DecodeEncode3(v, rest); }
    else if 0x10000 <= v { DecodeEncode4(v, rest); }
  }

  /** UTF-8 reads back. */
  lemma {:induction false} DecodeEncodeAll(vs: seq<Scalar>)
    ensures DecodeAll(EncodeAll(vs)) == Some(vs)
  {
    if vs != [] {
      var rest := EncodeAll(vs[1..]);
      DecodeEncode(vs[0], rest);
      DecodeEncodeAll(vs[1..]);
      assert (Encode(vs[0]) + rest)[|Encode(vs[0])|..] == rest;
      assert [vs[0]] + vs[1..] == vs;
    }
  }
}
