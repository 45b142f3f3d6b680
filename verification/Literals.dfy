/**
 Quoting. The converters put a backslash before each delimiter in a value and print the result
 between delimiters; here are readers for the literals of each target language and, per language,
 exactly the values that read back unchanged.
 */
module Literals {
  import opened Prelude

  /** Header names and values in order. */
  type Pairs = seq<(string, string)>

  /** The converters take a missing or empty string as absent. */
  predicate Present(s: Option<string>) { s.Some? && s.value != "" }

  /** What a loop prints that adds one piece of text per header. */
  function PrintAll(hs: Pairs, line: ((string, string)) -> string): string {
    if hs == [] then "" else line(hs[0]) + PrintAll(hs[1..], line)
  }

  lemma {:induction false} PrintAppend(hs: Pairs, h: (string, string), line: ((string, string)) -> string)
    ensures PrintAll(hs + [h], line) == PrintAll(hs, line) + line(h)
  {
    if hs == [] {
      assert [] + [h] == [h];
    } else {
      assert (hs + [h])[1..] == hs[1..] + [h];
      PrintAppend(hs[1..], h, line);
    }
  }

  /** replaceAll(q, '\q'). */
  function Escape(v: string, q: char): string {
    if v == "" then ""
    else if v[0] == q then ['\\', q] + Escape(v[1..], q)
    else [v[0]] + Escape(v[1..], q)
  }

  lemma {:induction false} EscapeFree(v: string, q: char)
    requires q !in v
    ensures Escape(v, q) == v
  {
    if v != "" {
      EscapeFree(v[1..], q);
      assert v == [v[0]] + v[1..];
    }
  }

  lemma {:induction false} EscapeConcat(a: string, b: string, q: char)
    ensures Escape(a + b, q) == Escape(a, q) + Escape(b, q)
  {
    if a == "" {
      assert a + b == b;
    } else {
      assert (a + b)[0] == a[0] && (a + b)[1..] == a[1..] + b;
      EscapeConcat(a[1..], b, q);
      var head := if a[0] == q then ['\\', q] else [a[0]];
      assert head + Escape(a[1..], q) + Escape(b, q) == head + (Escape(a[1..], q) + Escape(b, q));
    }
  }

  /** A literal read from text that starts just behind its opening delimiter: its value and what follows it. */
  datatype Lit = Bad | Lit(value: string, rest: string)

  function Prepend(c: char, lit: Lit): Lit {
    match lit
    case Bad => Bad
    case Lit(value, rest) => Lit([c] + value, rest)
  }

  // ---- PHP single quotes: only \\ and \' are escapes ----

  function ReadPhp(t: string): Lit
    decreases |t|
  {
    if t == "" then Bad
    else if t[0] == '\'' then Lit("", t[1..])
    else if t[0] == '\\' && |t| > 1 && (t[1] == '\\' || t[1] == '\'') then Prepend(t[1], ReadPhp(t[2..]))
    else Prepend(t[0], ReadPhp(t[1..]))
  }

  /** No two backslashes in a row, no backslash before a quote, none at the end. */
  predicate PhpSafe(v: string) {
    forall i | 0 <= i < |v| && v[i] == '\\' :: i + 1 < |v| && v[i + 1] != '\\' && v[i + 1] != '\''
  }

  /** The value v, escaped, its closing quote, and more text. */
  function PhpText(v: string, rest: string): string { Escape(v, '\'') + "'" + rest }

  lemma PhpSafeTail(v: string)
    requires v != ""
    ensures PhpSafe(v) <==>
              PhpSafe(v[1..]) && (v[0] == '\\' ==> |v| > 1 && v[1] != '\\' && v[1] != '\'')
  {
    var w := v[1..];
    assert forall i | 0 <= i < |w| :: w[i] == v[i + 1];
    if PhpSafe(v) {
      forall i | 0 <= i < |w| && w[i] == '\\' ensures i + 1 < |w| && w[i + 1] != '\\' && w[i + 1] != '\'' {
        assert v[i + 1] == '\\';
      }
    }
    if PhpSafe(w) && (v[0] == '\\' ==> |v| > 1 && v[1] != '\\' && v[1] != '\'') {
      forall i | 0 <= i < |v| && v[i] == '\\' ensures i + 1 < |v| && v[i + 1] != '\\' && v[i + 1] != '\'' {
        if i > 0 { assert w[i - 1] == '\\'; }
      }
    }
  }

  /** How the escaped text of v begins. */
  lemma PhpTextHead(v: string, rest: string)
    requires v != ""
    ensures v[0] != '\'' ==> PhpText(v, rest) == [v[0]] + PhpText(v[1..], rest)
    ensures v[0] == '\'' ==> PhpText(v, rest) == ['\\', '\''] + PhpText(v[1..], rest)
    ensures PhpText("", rest) == "'" + rest
  {
    assert Escape(v, '\'') + "'" + rest ==
           (if v[0] == '\'' then ['\\', '\''] else [v[0]]) + (Escape(v[1..], '\'') + "'" + rest);
  }

  function Backslashes(k: nat): string { seq(k, _ => '\\') }

  /** A run of backslashes is read as fewer than were printed, so the value cannot have grown by any. */
  lemma {:induction false} PhpNoExtraBackslashes(w: string, rest: string, k: nat)
    requires k >= 1
    ensures var lit := ReadPhp(PhpText(w, rest)); lit.Lit? ==> lit.value != Backslashes(k) + w
    decreases |w|
  {
    var t := PhpText(w, rest);
    if w == "" {
      PhpTextHead("x", rest);
    } else {
      PhpTextHead(w, rest);
      assert (Backslashes(k) + w)[0] == '\\';
      if w[0] == '\\' {
        if |w| == 1 {
          PhpTextHead("x", rest);
          assert w[1..] == "" && t[1] == '\'';
        } else {
          PhpTextHead(w[1..], rest);
          assert w[1..][1..] == w[2..];
          if w[1] == '\\' {
            assert t[2..] == PhpText(w[2..], rest);
            PhpNoExtraBackslashes(w[2..], rest, k + 1);
            assert (Backslashes(k) + w)[1..] == Backslashes(k + 1) + w[2..];
            PhpPrependSame('\\', t[2..], Backslashes(k) + w);
          } else if w[1] == '\'' {
            assert t[2..][0] == '\'';
          } else {
            assert t[1..] == PhpText(w[1..], rest) && t[1] == w[1];
            assert (Backslashes(k) + w)[1] == '\\';
          }
        }
      }
    }
  }

  lemma PhpPrependSame(c: char, t: string, v: string)
    requires v != "" && v[0] == c
    ensures var lit := Prepend(c, ReadPhp(t));
            (lit.Lit? && lit.value == v) <==> (ReadPhp(t).Lit? && ReadPhp(t).value == v[1..])
    ensures forall r :: Prepend(c, ReadPhp(t)) == Lit(v, r) <==> ReadPhp(t) == Lit(v[1..], r)
  {
    assert v == [c] + v[1..];
  }

  /**
   PHP, exactly: an escaped value reads back with its own value iff it is safe, and then the literal
   also ends where it should.
   */
  lemma {:induction false} PhpExact(v: string, rest: string)
    ensures var lit := ReadPhp(PhpText(v, rest)); (lit.Lit? && lit.value == v) <==> PhpSafe(v)
    ensures PhpSafe(v) ==> ReadPhp(PhpText(v, rest)) == Lit(v, rest)
    decreases |v|
  {
    var t := PhpText(v, rest);
    if v == "" {
      PhpTextHead("x", rest);
    } else {
      PhpTextHead(v, rest);
      PhpSafeTail(v);
      PhpExact(v[1..], rest);
      if v[0] == '\'' {
        assert t[2..] == PhpText(v[1..], rest);
        PhpPrependSame('\'', t[2..], v);
      } else if v[0] != '\\' {
        assert t[1..] == PhpText(v[1..], rest);
        PhpPrependSame(v[0], t[1..], v);
      } else {
        PhpExactBackslash(v, rest);
      }
    }
  }

  lemma PhpExactBackslash(v: string, rest: string)
    requires v != "" && v[0] == '\\'
    requires var lit := ReadPhp(PhpText(v[1..], rest)); (lit.Lit? && lit.value == v[1..]) <==> PhpSafe(v[1..])
    requires PhpSafe(v[1..]) ==> ReadPhp(PhpText(v[1..], rest)) == Lit(v[1..], rest)
    ensures var lit := ReadPhp(PhpText(v, rest)); (lit.Lit? && lit.value == v) <==> PhpSafe(v)
    ensures PhpSafe(v) ==> ReadPhp(PhpText(v, rest)) == Lit(v, rest)
  {
    var t := PhpText(v, rest);
    PhpTextHead(v, rest);
    PhpSafeTail(v);
    assert t[1..] == PhpText(v[1..], rest);
    if |v| == 1 {
      PhpTextHead("x", rest);
      assert t[1] == '\'';
    } else {
      PhpTextHead(v[1..], rest);
      assert v[1..][1..] == v[2..];
      if v[1] == '\\' {
        assert t[2..] == PhpText(v[2..], rest);
        PhpNoExtraBackslashes(v[2..], rest, 1);
        assert v[1..] == Backslashes(1) + v[2..];
      } else if v[1] == '\'' {
        assert t[2..][0] == '\'';
      } else {
        assert t[1] == v[1];
        PhpPrependSame('\\', t[1..], v);
      }
    }
  }

  ghost predicate Grows(p: string, t: string) { ReadPhp(t).Lit? && p <= ReadPhp(t).value }

  lemma GrowsTail(c: char, p: string, t: string, u: string)
    requires ReadPhp(t) == Prepend(c, ReadPhp(u))
    ensures Grows([c] + p, t) <==> Grows(p, u)
  {
    PrefixTail(c, p, ReadPhp(u));
  }

  /** Text printed without escaping: a quote in it makes the value come out different, whatever follows. */
  lemma {:induction false} PhpRawQuoteBreaks(a: string, more: string, k: nat)
    requires '\'' in a
    ensures !Grows(Backslashes(k) + a, a + more)
    decreases |a|
  {
    var t := a + more;
    assert t[0] == a[0];
    if a[0] == '\\' {
      assert a[1..] != "";
      if a[1] == '\\' {
        PhpQuoteIn(a);
        PhpRawQuoteBreaks(a[2..], more, k + 1);
        PhpRawPair(a, more, k);
      } else if a[1] != '\'' {
        PhpRawQuoteBreaks(a[1..], more, 0);
        PhpRawSingle(a, more, k);
      } else {
        PhpRawEscapedQuote(a, more, k);
      }
    } else if a[0] != '\'' {
      PhpRawQuoteBreaks(a[1..], more, 0);
      PhpRawSingle(a, more, k);
    } else {
      PhpRawAtQuote(a, more, k);
    }
  }

  lemma PhpRawPair(a: string, more: string, k: nat)
    requires |a| > 1 && a[0] == '\\' && a[1] == '\\' && !Grows(Backslashes(k + 1) + a[2..], a[2..] + more)
    ensures !Grows(Backslashes(k) + a, a + more)
  {
    assert (a + more)[2..] == a[2..] + more;
    assert Backslashes(k) + a == ['\\'] + (Backslashes(k + 1) + a[2..]);
    GrowsTail('\\', Backslashes(k + 1) + a[2..], a + more, a[2..] + more);
  }

  /** A first character that stands for itself. */
  lemma PhpRawSingle(a: string, more: string, k: nat)
    requires a != "" && a[0] != '\'' && (a[0] == '\\' ==> |a| > 1 && a[1] != '\\' && a[1] != '\'')
    requires !Grows(Backslashes(0) + a[1..], a[1..] + more)
    ensures !Grows(Backslashes(k) + a, a + more)
  {
    var t := a + more;
    assert t[1..] == a[1..] + more && Backslashes(0) + a[1..] == a[1..];
    assert a[0] == '\\' ==> t[1] == a[1];
    GrowsTail(a[0], a[1..], t, a[1..] + more);
    if k == 0 {
      assert Backslashes(0) + a == [a[0]] + a[1..];
    } else if a[0] == '\\' {
      PhpSecondDiffers(a, more, k);
    } else {
      assert (Backslashes(k) + a)[0] == '\\';
    }
  }

  lemma PhpRawEscapedQuote(a: string, more: string, k: nat)
    requires |a| > 1 && a[0] == '\\' && a[1] == '\''
    ensures !Grows(Backslashes(k) + a, a + more)
  {
    assert (a + more)[1] == '\'' && (Backslashes(k) + a)[0] == '\\';
  }

  lemma PhpRawAtQuote(a: string, more: string, k: nat)
    requires a != "" && a[0] == '\''
    ensures !Grows(Backslashes(k) + a, a + more)
  {
    assert (a + more)[0] == '\'' && |Backslashes(k) + a| > 0;
  }

  lemma PhpQuoteIn(a: string)
    requires '\'' in a && |a| > 1 && a[0] != '\'' && a[1] != '\''
    ensures '\'' in a[2..]
  {
    var i :| 0 <= i < |a| && a[i] == '\'';
    assert a[2..][i - 2] == '\'';
  }

  lemma PrefixTail(c: char, p: string, lit: Lit)
    ensures Prepend(c, lit).Lit? ==> ([c] + p <= Prepend(c, lit).value <==> p <= lit.value)
  {
    if Prepend(c, lit).Lit? {
      assert ([c] + p)[1..] == p && ([c] + lit.value)[1..] == lit.value;
    }
  }

  lemma PhpSecondDiffers(a: string, more: string, k: nat)
    requires |a| > 1 && a[0] == '\\' && a[1] != '\\' && a[1] != '\'' && k >= 1
    ensures !Grows(Backslashes(k) + a, a + more)
  {
    var t := a + more;
    assert t[0] == '\\' && t[1] == a[1] && t[1..][0] == a[1];
    assert ReadPhp(t) == Prepend('\\', ReadPhp(t[1..]));
    assert ReadPhp(t[1..]) == Prepend(a[1], ReadPhp(t[1..][1..]));
    var p := Backslashes(k) + a;
    assert p[1] == '\\';
    assert ReadPhp(t).Lit? ==> |ReadPhp(t).value| > 1 && ReadPhp(t).value[1] == a[1];
  }

  /** PHP, unescaped text: reads back iff it is safe and has no quote. */
  lemma PhpRawExact(v: string, rest: string)
    ensures var lit := ReadPhp(v + "'" + rest); (lit.Lit? && lit.value == v) <==> PhpSafe(v) && '\'' !in v
    ensures PhpSafe(v) && '\'' !in v ==> ReadPhp(v + "'" + rest) == Lit(v, rest)
  {
    if '\'' in v {
      assert v + "'" + rest == v + ("'" + rest);
      PhpRawQuoteBreaks(v, "'" + rest, 0);
      assert Backslashes(0) + v == v;
    } else {
      EscapeFree(v, '\'');
      PhpExact(v, rest);
    }
  }

  // ---- Shell single quotes (section 2.2.2 of POSIX.1-2017): no escapes at all ----

  function ReadUntil(t: string, q: char): Lit {
    if t == "" then Bad
    else if t[0] == q then Lit("", t[1..])
    else Prepend(t[0], ReadUntil(t[1..], q))
  }

  lemma {:induction false} ReadUntilFree(v: string, rest: string, q: char)
    requires q !in v
    ensures ReadUntil(v + [q] + rest, q) == Lit(v, rest)
  {
    if v != "" {
      assert (v + [q] + rest)[1..] == v[1..] + [q] + rest;
      ReadUntilFree(v[1..], rest, q);
      assert v == [v[0]] + v[1..];
    } else {
      assert v + [q] + rest == [q] + rest;
    }
  }

  lemma {:induction false} ReadUntilHasNoDelimiter(t: string, q: char)
    ensures ReadUntil(t, q).Lit? ==> q !in ReadUntil(t, q).value
  {
    if t != "" && t[0] != q { ReadUntilHasNoDelimiter(t[1..], q); }
  }

  /** Shell, exactly: an escaped value reads back iff it has no quote. */
  lemma ShellExact(v: string, rest: string)
    ensures var lit := ReadUntil(Escape(v, '\'') + "'" + rest, '\''); (lit.Lit? && lit.value == v) <==> '\'' !in v
    ensures '\'' !in v ==> ReadUntil(Escape(v, '\'') + "'" + rest, '\'') == Lit(v, rest)
  {
    ReadUntilHasNoDelimiter(Escape(v, '\'') + "'" + rest, '\'');
    if '\'' !in v {
      EscapeFree(v, '\'');
      ReadUntilFree(v, rest, '\'');
    }
  }

  // ---- Go raw strings: up to the next back quote, carriage returns discarded ----

  function DropCrs(s: string): string {
    if s == "" then "" else (if s[0] == '\r' then "" else [s[0]]) + DropCrs(s[1..])
  }

  function ReadGoRaw(t: string): Lit {
    match ReadUntil(t, '`')
    case Bad => Bad
    case Lit(value, rest) => Lit(DropCrs(value), rest)
  }

  lemma {:induction false} DropCrsSame(s: string)
    ensures |DropCrs(s)| <= |s| && '\r' !in DropCrs(s) && ('\r' !in s ==> DropCrs(s) == s)
    ensures forall c | c in DropCrs(s) :: c in s
  {
    if s != "" { DropCrsSame(s[1..]); }
  }

  /** Go, exactly: an escaped value reads back iff it has neither a back quote nor a carriage return. */
  lemma GoRawExact(v: string, rest: string)
    ensures var lit := ReadGoRaw(Escape(v, '`') + "`" + rest); (lit.Lit? && lit.value == v) <==> '`' !in v && '\r' !in v
    ensures '`' !in v && '\r' !in v ==> ReadGoRaw(Escape(v, '`') + "`" + rest) == Lit(v, rest)
  {
    var lit := ReadUntil(Escape(v, '`') + "`" + rest, '`');
    ReadUntilHasNoDelimiter(Escape(v, '`') + "`" + rest, '`');
    if lit.Lit? { DropCrsSame(lit.value); }
    if '`' !in v {
      EscapeFree(v, '`');
      ReadUntilFree(v, rest, '`');
      DropCrsSame(v);
    }
  }
}
