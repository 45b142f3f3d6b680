/**
 PHP array literals of single-quoted strings: a reader for them, at any depth, and what the entries
 printed by the two PHP converters read back as.
 */
module PhpArrays {
  import opened Prelude
  import opened Literals
  import opened Reading

  datatype Php = Text(text: string) | Array(entries: seq<Entry>)

  /** An entry with or without a key. */
  datatype Entry = Entry(key: Option<string>, value: Php)

  lemma {:induction false} PhpRestShorter(t: string)
    ensures ReadPhp(t).Lit? ==> |ReadPhp(t).rest| < |t|
    decreases |t|
  {
    if t != "" && t[0] != '\'' {
      PhpRestShorter(t[1..]);
      if |t| > 1 { PhpRestShorter(t[2..]); }
    }
  }

  function ParseValue(t: string): (p: Parsed<Php>)
    ensures p.Got? ==> |p.rest| < |t|
    decreases |t|, 0
  {
    var s := Skip(t);
    if s == "" then Fail
    else if s[0] == '\'' then
      PhpRestShorter(s[1..]);
      match ReadPhp(s[1..])
      case Bad => Fail
      case Lit(value, rest) => Got(Text(value), rest)
    else if s[0] == '[' then
      match ParseEntries(s[1..])
      case Fail => Fail
      case Got(entries, rest) => Got(Array(entries), rest)
    else Fail
  }

  function ParseEntry(t: string): (p: Parsed<Entry>)
    ensures p.Got? ==> |p.rest| < |t|
    decreases |t|, 1
  {
    match ParseValue(t)
    case Fail => Fail
    case Got(first, afterFirst) =>
      match After(afterFirst, "=>")
      case None => Got(Entry(None, first), afterFirst)
      case Some(afterArrow) =>
        if !first.Text? then Fail
        else
          match ParseValue(afterArrow)
          case Fail => Fail
          case Got(value, rest) => Got(Entry(Some(first.text), value), rest)
  }

  /** Entries up to the closing bracket, which may follow a comma. */
  function ParseEntries(t: string): (p: Parsed<seq<Entry>>)
    ensures p.Got? ==> |p.rest| < |t|
    decreases |t|, 2
  {
    var s := Skip(t);
    if s != "" && s[0] == ']' then Got([], s[1..])
    else
      match ParseEntry(t)
      case Fail => Fail
      case Got(e, afterEntry) =>
        var s2 := Skip(afterEntry);
        if s2 != "" && s2[0] == ']' then Got([e], s2[1..])
        else if s2 == "" || s2[0] != ',' then Fail
        else
          match ParseEntries(s2[1..])
          case Fail => Fail
          case Got(more, rest) => Got([e] + more, rest)
  }

  // ---- Literals ----

  function Shown(v: string, escaped: bool): string { if escaped then Escape(v, '\'') else v }

  /** The values that survive, printed with or without their quotes escaped. */
  predicate Safe(v: string, escaped: bool) { PhpSafe(v) && (!escaped ==> '\'' !in v) }

  lemma LiteralExact(v: string, escaped: bool, rest: string)
    ensures var lit := ReadPhp(Shown(v, escaped) + "'" + rest); (lit.Lit? && lit.value == v) <==> Safe(v, escaped)
    ensures Safe(v, escaped) ==> ReadPhp(Shown(v, escaped) + "'" + rest) == Lit(v, rest)
  {
    if escaped { PhpExact(v, rest); } else { PhpRawExact(v, rest); }
  }

  lemma TextExact(lead: string, v: string, escaped: bool, rest: string)
    requires AllBlank(lead)
    ensures var p := ParseValue(lead + ("'" + (Shown(v, escaped) + "'" + rest)));
            && (Yields(p, Text(v)) <==> Safe(v, escaped))
            && (p.Got? ==> p.value.Text?)
            && (Safe(v, escaped) ==> p == Got(Text(v), rest))
  {
    var t := "'" + (Shown(v, escaped) + "'" + rest);
    SkipOver(lead, t);
    assert t[1..] == Shown(v, escaped) + "'" + rest;
    LiteralExact(v, escaped, rest);
  }

  // ---- Entries ----

  /** One entry whose key is printed as it is and whose value is printed with its quotes escaped. */
  function KeyedText(lead: string, key: string, value: string, rest: string): string {
    lead + ("'" + (key + "'" + (" => " + ("'" + (Escape(value, '\'') + "'" + rest)))))
  }

  lemma ArrowFollows(t: string)
    ensures After(" => " + t, "=>") == Some(" " + t)
  {
    assert " => " + t == " " + "=>" + (" " + t);
    AfterWord(" ", "=>", " " + t);
  }

  lemma ParseValueBlank(t: string)
    ensures ParseValue(" " + t) == ParseValue(t)
  {
    assert (" " + t)[1..] == t;
  }

  lemma KeyedExact(lead: string, key: string, value: string, rest: string)
    requires AllBlank(lead)
    ensures var p := ParseEntry(KeyedText(lead, key, value, rest));
            && (Yields(p, Entry(Some(key), Text(value))) <==> Safe(key, false) && Safe(value, true))
            && (Safe(key, false) && Safe(value, true) ==> p == Got(Entry(Some(key), Text(value)), rest))
  {
    var literal := "'" + (Escape(value, '\'') + "'" + rest);
    TextExact(lead, key, false, " => " + literal);
    if Safe(key, false) {
      ArrowFollows(literal);
      ParseValueBlank(literal);
      TextExact("", value, true, rest);
      assert "" + literal == literal;
    }
  }

  /** Whether a list of entries is read right is decided entry by entry. */
  lemma EntriesStep(t: string, e: Entry, more: seq<Entry>, rest: string)
    requires Skip(t) != "" && Skip(t)[0] != ']'
    requires ParseEntry(t).Got? && ParseEntry(t).value == e ==> ParseEntry(t).rest == "," + rest
    ensures Yields(ParseEntries(t), [e] + more) <==> Yields(ParseEntry(t), e) && Yields(ParseEntries(rest), more)
    ensures Yields(ParseEntry(t), e) && Yields(ParseEntries(rest), more)
            ==> ParseEntries(t).rest == ParseEntries(rest).rest
  {
    var p := ParseEntry(t);
    if p.Got? {
      if p.value == e {
        assert ("," + rest)[1..] == rest;
        assert forall m: seq<Entry> :: [e] + m == [e] + more <==> m == more by {
          forall m: seq<Entry> | [e] + m == [e] + more ensures m == more {
            assert ([e] + m)[1..] == m && ([e] + more)[1..] == more;
          }
        }
      } else if ParseEntries(t).Got? {
        assert ParseEntries(t).value[0] == p.value;
        assert ([e] + more)[0] == e;
      }
    }
  }

  lemma EntriesEnd(lead: string, tail: string)
    requires AllBlank(lead)
    ensures ParseEntries(lead + ("]" + tail)) == Got([], tail)
  {
    SkipOver(lead, "]" + tail);
    assert ("]" + tail)[1..] == tail;
  }
}
