/**
 JavaScript string and template literals as the fetch converter prints them: single quotes for
 addresses, methods, header names and values, back quotes for bodies. The reader follows the
 strict-mode grammar of section 12.9 of ECMA-262, escapes included.
 */
module JsLiterals {
  import opened Prelude
  import opened Literals
  import opened Reading

  function CharOf(n: nat): char {
    if n < 0xD800 || 0xE000 <= n < 0x110000 then n as char else '?'
  }

  /** Value of exactly n hex digits. */
  function HexDigits(t: string, n: nat, acc: nat): Option<nat>
    decreases n
  {
    if n == 0 then Some(acc)
    else if t == "" || !IsHex(t[0]) then None
    else HexDigits(t[1..], n - 1, 16 * acc + HexVal(t[0]))
  }

  /** What an escape denotes: the characters it stands for and how many it takes after the backslash. */
  datatype Escaped = Invalid | Escaped(value: string, used: nat)

  function ReadEscape(t: string): Escaped {
    if t == "" then Invalid
    else if t[0] == 'n' then Escaped("\n", 1)
    else if t[0] == 't' then Escaped("\t", 1)
    else if t[0] == 'r' then Escaped("\r", 1)
    else if t[0] == 'b' then Escaped([8 as char], 1)
    else if t[0] == 'v' then Escaped([11 as char], 1)
    else if t[0] == 'f' then Escaped([12 as char], 1)
    else if t[0] == '0' && (|t| == 1 || !('0' <= t[1] <= '9')) then Escaped([0 as char], 1)
    else if '0' <= t[0] <= '9' then Invalid
    else if t[0] == 'x' then
      match HexDigits(t[1..], 2, 0)
      case None => Invalid
      case Some(n) => Escaped([CharOf(n)], 3)
    else if t[0] == 'u' && |t| > 1 && t[1] == '{' then
      var n := Span(IsHex, t[2..]);
      if n == 0 || |t| <= n + 2 || t[n + 2] != '}' then Invalid
      else
        match HexDigits(t[2..], n, 0)
        case None => Invalid
        case Some(v) => if v >= 0x110000 then Invalid else Escaped([CharOf(v)], n + 3)
    else if t[0] == 'u' then
      match HexDigits(t[1..], 4, 0)
      case None => Invalid
      case Some(n) => Escaped([CharOf(n)], 5)
    else if t[0] == '\r' && |t| > 1 && t[1] == '\n' then Escaped("", 2)
    else if t[0] == '\n' || t[0] == '\r' || t[0] == 0x2028 as char || t[0] == 0x2029 as char then Escaped("", 1)
    else Escaped([t[0]], 1)
  }

  function PrependAll(s: string, lit: Lit): Lit {
    match lit
    case Bad => Bad
    case Lit(value, rest) => Lit(s + value, rest)
  }

  predicate IsDelimiter(q: char) { q == '\'' || q == '`' }

  /** Reads to the closing delimiter. A template with a substitution is not a plain literal. */
  function ReadJs(t: string, q: char): Lit
    decreases |t|
  {
    if t == "" then Bad
    else if t[0] == q then Lit("", t[1..])
    else if t[0] == '\\' then
      match ReadEscape(t[1..])
      case Invalid => Bad
      case Escaped(value, used) => if used == 0 || used >= |t| then Bad else PrependAll(value, ReadJs(t[1 + used..], q))
    else if q == '\'' && (t[0] == '\n' || t[0] == '\r') then Bad
    else if q == '`' && t[0] == '$' && |t| > 1 && t[1] == '{' then Bad
    else if q == '`' && t[0] == '\r' then
      if |t| > 1 && t[1] == '\n' then Prepend('\n', ReadJs(t[2..], q)) else Prepend('\n', ReadJs(t[1..], q))
    else Prepend(t[0], ReadJs(t[1..], q))
  }

  predicate HasSubstitution(v: string) {
    exists i :: 0 <= i < |v| - 1 && v[i] == '$' && v[i + 1] == '{'
  }

  /** The values that survive between the given delimiters, with or without the delimiter being escaped. */
  predicate JsSafe(v: string, q: char, escaped: bool) {
    && '\\' !in v && '\r' !in v
    && (q == '\'' ==> '\n' !in v)
    && (q == '`' ==> !HasSubstitution(v))
    && (!escaped ==> q !in v)
  }

  function Printed(v: string, q: char, escaped: bool): string {
    if escaped then Escape(v, q) else v
  }

  function JsText(v: string, q: char, escaped: bool, rest: string): string {
    Printed(v, q, escaped) + [q] + rest
  }

  /** How the printed text of v begins. */
  lemma JsTextHead(v: string, q: char, escaped: bool, rest: string)
    requires v != ""
    ensures v[0] != q || !escaped ==> JsText(v, q, escaped, rest) == [v[0]] + JsText(v[1..], q, escaped, rest)
    ensures v[0] == q && escaped ==> JsText(v, q, escaped, rest) == ['\\', q] + JsText(v[1..], q, escaped, rest)
    ensures JsText("", q, escaped, rest) == [q] + rest
  {
    if escaped {
      assert Escape(v, q) + [q] + rest == (if v[0] == q then ['\\', q] else [v[0]]) + (Escape(v[1..], q) + [q] + rest);
    } else {
      assert v + [q] + rest == [v[0]] + (v[1..] + [q] + rest);
    }
    assert Escape("", q) + [q] + rest == [q] + rest;
    assert "" + [q] + rest == [q] + rest;
  }

  // ---- Values without backslashes: character by character ----

  lemma SubstitutionTail(v: string)
    requires v != ""
    ensures HasSubstitution(v) <==> HasSubstitution(v[1..]) || (|v| > 1 && v[0] == '$' && v[1] == '{')
  {
    if HasSubstitution(v) {
      var i :| 0 <= i < |v| - 1 && v[i] == '$' && v[i + 1] == '{';
      if i > 0 { assert v[1..][i - 1] == '$' && v[1..][i - 1 + 1] == '{'; }
    }
    if HasSubstitution(v[1..]) {
      var i :| 0 <= i < |v[1..]| - 1 && v[1..][i] == '$' && v[1..][i + 1] == '{';
      assert v[i + 1] == '$' && v[i + 1 + 1] == '{';
    }
  }

  lemma PrependIff(c: char, lit: Lit, v: string, rest: string)
    requires v != ""
    ensures Prepend(c, lit) == Lit(v, rest) <==> c == v[0] && lit == Lit(v[1..], rest)
  {
    assert v == [v[0]] + v[1..];
  }

  lemma {:induction false} RestShorter(t: string, q: char)
    ensures ReadJs(t, q).Lit? ==> |ReadJs(t, q).rest| < |t|
    decreases |t|
  {
    if t != "" && t[0] != q {
      if t[0] == '\\' {
        var e := ReadEscape(t[1..]);
        if e.Escaped? && e.used != 0 && e.used < |t| { RestShorter(t[1 + e.used..], q); }
      } else {
        RestShorter(t[1..], q);
        if |t| > 1 { RestShorter(t[2..], q); }
      }
    }
  }

  lemma {:induction false} PlainExact(v: string, q: char, escaped: bool, rest: string)
    requires IsDelimiter(q) && '\\' !in v
    ensures ReadJs(JsText(v, q, escaped, rest), q) == Lit(v, rest) <==> JsSafe(v, q, escaped)
  {
    var t := JsText(v, q, escaped, rest);
    if v == "" {
      JsTextHead("x", q, escaped, rest);
    } else {
      JsTextHead(v, q, escaped, rest);
      PlainExact(v[1..], q, escaped, rest);
      SubstitutionTail(v);
      var tail := JsText(v[1..], q, escaped, rest);
      if v[0] == q {
        PlainDelimiter(v, q, escaped, rest);
      } else {
        assert t[0] == v[0] && t[1..] == tail;
        PrependIff(v[0], ReadJs(tail, q), v, rest);
        if q == '`' && v[0] == '$' { PlainDollar(v, escaped, rest); }
        if q == '`' && v[0] == '\r' {
          if |t| > 1 { PrependIff('\n', ReadJs(t[2..], q), v, rest); }
          PrependIff('\n', ReadJs(tail, q), v, rest);
        }
      }
    }
  }

  lemma EscapedDelimiter(v: string, q: char, rest: string)
    requires IsDelimiter(q) && v != "" && v[0] == q
    ensures ReadJs(JsText(v, q, true, rest), q) == Prepend(q, ReadJs(JsText(v[1..], q, true, rest), q))
  {
    var t, tail := JsText(v, q, true, rest), JsText(v[1..], q, true, rest);
    JsTextHead(v, q, true, rest);
    assert t[1..] == [q] + tail && t[2..] == tail;
    assert ReadEscape(t[1..]) == Escaped([q], 1);
    assert PrependAll([q], ReadJs(tail, q)) == Prepend(q, ReadJs(tail, q));
  }

  lemma PlainDelimiter(v: string, q: char, escaped: bool, rest: string)
    requires IsDelimiter(q) && v != "" && v[0] == q
    ensures var t, tail := JsText(v, q, escaped, rest), JsText(v[1..], q, escaped, rest);
            ReadJs(t, q) == Lit(v, rest) <==> escaped && ReadJs(tail, q) == Lit(v[1..], rest)
  {
    var tail := JsText(v[1..], q, escaped, rest);
    JsTextHead(v, q, escaped, rest);
    if escaped {
      EscapedDelimiter(v, q, rest);
      PrependIff(q, ReadJs(tail, q), v, rest);
    }
  }

  /** Whether a dollar sign starts a substitution is decided by the next character of the value alone. */
  lemma PlainDollar(v: string, escaped: bool, rest: string)
    requires v != "" && v[0] == '$'
    ensures var t := JsText(v, '`', escaped, rest);
            |t| > 1 && (t[1] == '{' <==> |v| > 1 && v[1] == '{')
  {
    JsTextHead(v, '`', escaped, rest);
    if |v| == 1 {
      JsTextHead("x", '`', escaped, rest);
      assert v[1..] == "";
    } else {
      JsTextHead(v[1..], '`', escaped, rest);
    }
  }

  // ---- Values with backslashes ----

  predicate IsSpecial(c: char) { c == '\'' || c == '`' || c == '\\' }

  lemma {:induction false} HexDigitsAre(t: string, n: nat, acc: nat)
    requires HexDigits(t, n, acc).Some?
    ensures n <= |t| && forall i | 0 <= i < n :: IsHex(t[i])
    decreases n
  {
    if n > 0 {
      HexDigitsAre(t[1..], n - 1, 16 * acc + HexVal(t[0]));
      assert forall i | 1 <= i < n :: t[i] == t[1..][i - 1];
    }
  }

  /** An escape yields at most one character, and a long one swallows no delimiter and no backslash. */
  lemma EscapeShape(t: string)
    requires ReadEscape(t).Escaped?
    ensures var e := ReadEscape(t);
            && 1 <= e.used <= |t| && |e.value| <= 1
            && (IsSpecial(t[0]) ==> e == Escaped([t[0]], 1))
            && (e.used > 1 ==> forall i | 0 <= i < e.used :: !IsSpecial(t[i]))
  {
    if t[0] == 'x' && HexDigits(t[1..], 2, 0).Some? {
      HexDigitsAre(t[1..], 2, 0);
      assert t[1] == t[1..][0] && t[2] == t[1..][1];
    } else if t[0] == 'u' && |t| > 1 && t[1] == '{' {
      assert forall i | 2 <= i < Span(IsHex, t[2..]) + 2 :: t[i] == t[2..][i - 2];
    } else if t[0] == 'u' && HexDigits(t[1..], 4, 0).Some? {
      HexDigitsAre(t[1..], 4, 0);
      assert forall i | 1 <= i < 5 :: t[i] == t[1..][i - 1];
    }
  }

  lemma EmptyHead(u: string, q: char, escaped: bool, rest: string)
    requires IsDelimiter(q)
    ensures |JsText(u, q, escaped, rest)| > |rest|
    ensures u == "" ==> IsSpecial(JsText(u, q, escaped, rest)[0]) && JsText(u, q, escaped, rest)[1..] == rest
  {
    JsTextHead("x", q, escaped, rest);
  }

  lemma {:induction false} Consumed(u: string, q: char, escaped: bool, rest: string, k: nat)
    requires IsDelimiter(q) && k <= |JsText(u, q, escaped, rest)|
    requires forall i | 0 <= i < k :: !IsSpecial(JsText(u, q, escaped, rest)[i])
    ensures k <= |u| && JsText(u, q, escaped, rest)[k..] == JsText(u[k..], q, escaped, rest)
  {
    var t := JsText(u, q, escaped, rest);
    if k > 0 {
      EmptyHead(u, q, escaped, rest);
      if u != "" {
        JsTextHead(u, q, escaped, rest);
        var tail := JsText(u[1..], q, escaped, rest);
        assert t[0] == u[0] && t[1..] == tail;
        assert forall i | 0 <= i < k - 1 :: tail[i] == t[i + 1];
        Consumed(u[1..], q, escaped, rest, k - 1);
        assert t[k..] == tail[k - 1..] && u[1..][k - 1..] == u[k..];
      }
    }
  }

  predicate EndsWith(s: string, end: string) { |end| <= |s| && s[|s| - |end|..] == end }

  lemma EndsWithMore(front: string, s: string, end: string)
    requires EndsWith(s, end)
    ensures EndsWith(front + s, end)
  {
  }

  /**
   Where a printed value can be read to. A literal that ends at the intended place, or too early, is
   no longer than the value, and shorter if the value has a backslash or the end is too early. One that
   runs past its end does so because the value's last backslash takes the delimiter, and then carries
   the delimiter and more of the text behind.
   */
  ghost predicate Bounded(w: string, q: char, escaped: bool, rest: string) {
    var lit, behind := ReadJs(JsText(w, q, escaped, rest), q), ReadJs(rest, q);
    lit.Lit? ==>
      if |lit.rest| >= |rest| then |lit.value| <= |w| && ('\\' in w || |lit.rest| > |rest| ==> |lit.value| < |w|)
      else w != "" && w[|w| - 1] == '\\' && behind.Lit? && EndsWith(lit.value, [q] + behind.value)
  }

  /** Reading a value whose front yields the given characters, at most as many as it takes, keeps the bound. */
  lemma BoundedFront(w: string, k: nat, front: string, q: char, escaped: bool, rest: string)
    requires 1 <= k <= |w| && |front| <= k && ('\\' in w[..k] ==> |front| < k)
    requires Bounded(w[k..], q, escaped, rest)
    requires ReadJs(JsText(w, q, escaped, rest), q) == PrependAll(front, ReadJs(JsText(w[k..], q, escaped, rest), q))
    ensures Bounded(w, q, escaped, rest)
  {
    var inner, behind := ReadJs(JsText(w[k..], q, escaped, rest), q), ReadJs(rest, q);
    assert w == w[..k] + w[k..];
    if inner.Lit? && |inner.rest| < |rest| { EndsWithMore(front, inner.value, [q] + behind.value); }
  }

  lemma PrependIsPrependAll(c: char, lit: Lit)
    ensures Prepend(c, lit) == PrependAll([c], lit)
  {
  }

  /** Ending at a delimiter of the value itself. */
  lemma BoundedEarly(w: string, q: char, escaped: bool, rest: string, value: string, after: string)
    requires ReadJs(JsText(w, q, escaped, rest), q) == Lit(value, after)
    requires |value| < |w| && |after| >= |rest|
    ensures Bounded(w, q, escaped, rest)
  {
  }

  lemma BackslashBounded(w: string, q: char, escaped: bool, rest: string)
    requires IsDelimiter(q) && w != "" && w[0] == '\\'
    requires forall k | 2 <= k <= |w| :: Bounded(w[k..], q, escaped, rest)
    ensures Bounded(w, q, escaped, rest)
  {
    var t, x := JsText(w, q, escaped, rest), JsText(w[1..], q, escaped, rest);
    JsTextHead(w, q, escaped, rest);
    assert t[0] == '\\' && t[1..] == x;
    var e := ReadEscape(x);
    if e.Escaped? {
      EscapeShape(x);
      assert t[1 + e.used..] == x[e.used..];
      if |w| == 1 {
        LastBackslash(w, q, escaped, rest);
      } else if w[1] == q && escaped {
        JsTextHead(w[1..], q, escaped, rest);
        assert w[1..][1..] == w[2..] && x[1..][0] == q;
        EmptyHead(w[2..], q, escaped, rest);
        BoundedEarly(w, q, escaped, rest, "\\", x[1..][1..]);
      } else {
        BackslashOrdinary(w, q, escaped, rest, e);
      }
    }
  }

  lemma LastBackslash(w: string, q: char, escaped: bool, rest: string)
    requires IsDelimiter(q) && w == "\\"
    ensures Bounded(w, q, escaped, rest)
  {
    var t, behind := JsText(w, q, escaped, rest), ReadJs(rest, q);
    JsTextHead(w, q, escaped, rest);
    EmptyHead(w[1..], q, escaped, rest);
    assert w[1..] == "";
    assert t == ['\\'] + JsText("", q, escaped, rest);
    JsTextHead("x", q, escaped, rest);
    assert t[1..] == [q] + rest && t[2..] == rest;
    assert ReadEscape(t[1..]) == Escaped([q], 1);
    RestShorter(rest, q);
    assert behind.Lit? ==> [q] + behind.value == PrependAll([q], behind).value;
  }

  lemma BackslashOrdinary(w: string, q: char, escaped: bool, rest: string, e: Escaped)
    requires IsDelimiter(q) && |w| > 1 && w[0] == '\\' && !(w[1] == q && escaped)
    requires forall k | 2 <= k <= |w| :: Bounded(w[k..], q, escaped, rest)
    requires e == ReadEscape(JsText(w[1..], q, escaped, rest)) && e.Escaped?
    ensures Bounded(w, q, escaped, rest)
  {
    var t, x := JsText(w, q, escaped, rest), JsText(w[1..], q, escaped, rest);
    JsTextHead(w, q, escaped, rest);
    assert t[0] == '\\' && t[1..] == x;
    EscapeShape(x);
    EscapeLeaves(w[1..], q, escaped, rest, e);
    assert w[1..][e.used..] == w[1 + e.used..] && t[1 + e.used..] == x[e.used..];
    BoundedFront(w, 1 + e.used, e.value, q, escaped, rest);
  }

  /** An escape takes whole characters of the value, so the rest is the printed text of a shorter one. */
  lemma EscapeLeaves(u: string, q: char, escaped: bool, rest: string, e: Escaped)
    requires IsDelimiter(q) && u != "" && !(u[0] == q && escaped)
    requires e == ReadEscape(JsText(u, q, escaped, rest)) && e.Escaped?
    ensures 1 <= e.used <= |u| && e.used <= |JsText(u, q, escaped, rest)|
    ensures JsText(u, q, escaped, rest)[e.used..] == JsText(u[e.used..], q, escaped, rest)
  {
    var x := JsText(u, q, escaped, rest);
    JsTextHead(u, q, escaped, rest);
    EscapeShape(x);
    if e.used > 1 {
      Consumed(u, q, escaped, rest, e.used);
    } else {
      assert x[1..] == JsText(u[1..], q, escaped, rest);
    }
  }

  lemma DelimiterBounded(w: string, q: char, escaped: bool, rest: string)
    requires IsDelimiter(q) && w != "" && w[0] == q
    requires Bounded(w[1..], q, escaped, rest)
    ensures Bounded(w, q, escaped, rest)
  {
    if escaped {
      EscapedDelimiter(w, q, rest);
      PrependIsPrependAll(q, ReadJs(JsText(w[1..], q, true, rest), q));
      BoundedFront(w, 1, [q], q, escaped, rest);
    } else {
      JsTextHead(w, q, escaped, rest);
      EmptyHead(w[1..], q, escaped, rest);
      assert JsText(w, q, escaped, rest)[1..] == JsText(w[1..], q, escaped, rest);
      BoundedEarly(w, q, escaped, rest, "", JsText(w[1..], q, escaped, rest));
    }
  }

  /** A template turns a line break of two characters into one. */
  lemma CrLfBounded(w: string, escaped: bool, rest: string)
    requires |w| > 1 && w[0] == '\r' && w[1] == '\n'
    requires Bounded(w[2..], '`', escaped, rest)
    ensures Bounded(w, '`', escaped, rest)
  {
    var t := JsText(w, '`', escaped, rest);
    JsTextHead(w, '`', escaped, rest);
    JsTextHead(w[1..], '`', escaped, rest);
    assert w[1..][1..] == w[2..];
    assert t[0] == '\r' && t[1] == '\n' && t[2..] == JsText(w[2..], '`', escaped, rest);
    PrependIsPrependAll('\n', ReadJs(t[2..], '`'));
    assert ReadJs(t, '`') == Prepend('\n', ReadJs(t[2..], '`'));
    BoundedFront(w, 2, "\n", '`', escaped, rest);
  }

  lemma PlainBounded(w: string, q: char, escaped: bool, rest: string)
    requires IsDelimiter(q) && w != "" && w[0] != '\\' && w[0] != q
    requires !(q == '`' && w[0] == '\r' && |w| > 1 && w[1] == '\n')
    requires Bounded(w[1..], q, escaped, rest)
    ensures Bounded(w, q, escaped, rest)
  {
    var t, tail := JsText(w, q, escaped, rest), JsText(w[1..], q, escaped, rest);
    JsTextHead(w, q, escaped, rest);
    assert t[0] == w[0] && t[1..] == tail;
    if w[0] == '\r' && q == '`' {
      assert t[1] != '\n' by {
        if |w| == 1 {
          JsTextHead("x", q, escaped, rest);
          assert w[1..] == "";
        } else {
          JsTextHead(w[1..], q, escaped, rest);
        }
      }
    }
    var c := if w[0] == '\r' then '\n' else w[0];
    if ReadJs(t, q).Lit? {
      PrependIsPrependAll(c, ReadJs(tail, q));
      assert ReadJs(t, q) == Prepend(c, ReadJs(tail, q));
      BoundedFront(w, 1, [c], q, escaped, rest);
    }
  }

  lemma {:induction false} AlwaysBounded(w: string, q: char, escaped: bool, rest: string)
    requires IsDelimiter(q)
    ensures Bounded(w, q, escaped, rest)
    decreases |w|
  {
    if w == "" {
      JsTextHead("x", q, escaped, rest);
      EmptyHead("", q, escaped, rest);
    } else if w[0] == '\\' {
      forall k | 2 <= k <= |w| ensures Bounded(w[k..], q, escaped, rest) { AlwaysBounded(w[k..], q, escaped, rest); }
      BackslashBounded(w, q, escaped, rest);
    } else {
      AlwaysBounded(w[1..], q, escaped, rest);
      if w[0] == q {
        DelimiterBounded(w, q, escaped, rest);
      } else if q == '`' && w[0] == '\r' && |w| > 1 && w[1] == '\n' {
        AlwaysBounded(w[2..], q, escaped, rest);
        CrLfBounded(w, escaped, rest);
      } else {
        PlainBounded(w, q, escaped, rest);
      }
    }
  }

  /**
   JavaScript, exactly: the printed literal reads back as v, ending where it should, iff v has no
   backslash and no CR, no line feed between single quotes, no substitution between back quotes,
   and no unescaped delimiter.
   */
  lemma JsExact(v: string, q: char, escaped: bool, rest: string)
    requires IsDelimiter(q)
    ensures ReadJs(JsText(v, q, escaped, rest), q) == Lit(v, rest) <==> JsSafe(v, q, escaped)
  {
    if '\\' in v {
      AlwaysBounded(v, q, escaped, rest);
    } else {
      PlainExact(v, q, escaped, rest);
    }
  }

  lemma EndsWithDrop(t: string, k: nat, end: string)
    requires k <= |t| && EndsWith(t[k..], end)
    ensures EndsWith(t, end)
  {
    assert t == t[..k] + t[k..];
  }

  lemma {:induction false} RestIsSuffix(t: string, q: char)
    ensures ReadJs(t, q).Lit? ==> EndsWith(t, ReadJs(t, q).rest)
    decreases |t|
  {
    var lit := ReadJs(t, q);
    if lit.Lit? && t[0] != q {
      var e := ReadEscape(t[1..]);
      var k := if t[0] == '\\' then 1 + e.used
               else if q == '`' && t[0] == '\r' && |t| > 1 && t[1] == '\n' then 2 else 1;
      RestIsSuffix(t[k..], q);
      assert lit.rest == ReadJs(t[k..], q).rest;
      EndsWithDrop(t, k, lit.rest);
    }
  }

  lemma LastOfEnd(v: string, q: char, more: string)
    requires more != "" && EndsWith(v, [q] + more) && v[|v| - 1] == '\\'
    ensures EndsWith(more, "\\")
  {
    assert v[|v| - 1] == ([q] + more)[|more|] == more[|more| - 1];
    assert more[|more| - 1..] == "\\";
  }

  /**
   The same condition decides whether the value alone is right, wherever the literal ends, provided
   that a literal running past its end cannot come out as v.
   */
  lemma JsValueExact(v: string, q: char, escaped: bool, rest: string)
    requires IsDelimiter(q)
    requires ReadJs(rest, q).Lit? ==> |ReadJs(rest, q).value| > 0 && !EndsWith(ReadJs(rest, q).value, "\\")
    ensures var lit := ReadJs(JsText(v, q, escaped, rest), q); (lit.Lit? && lit.value == v) <==> JsSafe(v, q, escaped)
    ensures JsSafe(v, q, escaped) ==> ReadJs(JsText(v, q, escaped, rest), q) == Lit(v, rest)
  {
    var t, lit := JsText(v, q, escaped, rest), ReadJs(JsText(v, q, escaped, rest), q);
    JsExact(v, q, escaped, rest);
    AlwaysBounded(v, q, escaped, rest);
    if lit.Lit? && lit.value == v {
      RestIsSuffix(t, q);
      assert t == (Printed(v, q, escaped) + [q]) + rest;
      if |lit.rest| < |rest| {
        LastOfEnd(v, q, ReadJs(rest, q).value);
      } else {
        assert lit.rest == rest;
      }
    }
  }
}
