/**
 The fetch converter: a call printed piece by piece under two flags, and a reader for such calls
 (object literals of any depth) that must get back what was put in.
 */
module JsFetch {
  import opened Prelude
  import opened Literals
  import opened JsLiterals
  import opened Reading
  import opened Strings

  // ---- Reading ----

  datatype Value = Text(text: string) | Object(props: seq<(string, Value)>)

  /** A fetch call: its address and, when there is one, its second argument. */
  datatype Fetch = Fetch(address: string, options: Option<Value>)

  predicate IsLetter(c: char) { 'a' <= c <= 'z' || 'A' <= c <= 'Z' || c == '_' || c == '$' }

  /** A string literal behind its opening delimiter. */
  function ParseText(t: string, q: char): (p: Parsed<string>)
    ensures p.Got? ==> |p.rest| < |t|
  {
    RestShorter(t, q);
    match ReadJs(t, q)
    case Bad => Fail
    case Lit(value, rest) => Got(value, rest)
  }

  /** A property name, quoted or not, starting right here. */
  function ParseKey(s: string): (p: Parsed<string>)
    ensures p.Got? ==> |p.rest| < |s|
  {
    if s == "" then Fail
    else if s[0] == '\'' then ParseText(s[1..], '\'')
    else
      var n := Span(IsLetter, s);
      if n == 0 then Fail else Got(s[..n], s[n..])
  }

  function ParseValue(t: string): (p: Parsed<Value>)
    ensures p.Got? ==> |p.rest| < |t|
    decreases |t|, 0
  {
    var s := Skip(t);
    if s == "" then Fail
    else if IsDelimiter(s[0]) then
      match ParseText(s[1..], s[0])
      case Fail => Fail
      case Got(v, rest) => Got(Text(v), rest)
    else if s[0] == '{' then
      match ParseProps(s[1..])
      case Fail => Fail
      case Got(props, rest) => Got(Object(props), rest)
    else Fail
  }

  /** One property: a name, a colon and a value. */
  function ParseProp(t: string): (p: Parsed<(string, Value)>)
    ensures p.Got? ==> |p.rest| < |t|
    decreases |t|, 1
  {
    match ParseKey(Skip(t))
    case Fail => Fail
    case Got(key, afterKey) =>
      match After(afterKey, ":")
      case None => Fail
      case Some(afterColon) =>
        match ParseValue(afterColon)
        case Fail => Fail
        case Got(value, rest) => Got((key, value), rest)
  }

  /** Properties up to the closing brace. A comma may be followed by the brace, but not by another comma. */
  function ParseProps(t: string): (p: Parsed<seq<(string, Value)>>)
    ensures p.Got? ==> |p.rest| < |t|
    decreases |t|, 2
  {
    var s := Skip(t);
    if s != "" && s[0] == '}' then Got([], s[1..])
    else
      match ParseProp(t)
      case Fail => Fail
      case Got(prop, afterProp) =>
        var s2 := Skip(afterProp);
        if s2 != "" && s2[0] == '}' then Got([prop], s2[1..])
        else if s2 == "" || s2[0] != ',' then Fail
        else
          match ParseProps(s2[1..])
          case Fail => Fail
          case Got(more, rest) => Got([prop] + more, rest)
  }

  /** The whole text: one call statement and nothing after it. */
  function ParseFetch(t: string): Option<Fetch> {
    match After(t, "fetch")
    case None => None
    case Some(t1) =>
      match After(t1, "(")
      case None => None
      case Some(t2) =>
        var s := Skip(t2);
        if s == "" || !IsDelimiter(s[0]) then None
        else
          match ParseText(s[1..], s[0])
          case Fail => None
          case Got(address, t3) => ParseArguments(address, t3)
  }

  function ParseArguments(address: string, t: string): Option<Fetch> {
    match After(t, ",")
    case None => if Closes(t) then Some(Fetch(address, None)) else None
    case Some(t1) =>
      match ParseValue(t1)
      case Fail => None
      case Got(options, t2) => if Closes(t2) then Some(Fetch(address, Some(options))) else None
  }

  predicate Closes(t: string) {
    match After(t, ")")
    case None => false
    case Some(t1) => After(t1, ";").Some? && Skip(After(t1, ";").value) == ""
  }

  // ---- What is printed ----

  /** A property as text and as what the text stands for. */
  datatype Item = Item(keyText: string, key: string, valueText: string, value: Value)

  function ItemText(i: Item): string { i.keyText + ": " + i.valueText }

  /** Properties separated by commas, each after the given line break and indentation. */
  function ItemsText(items: seq<Item>, lead: string): string {
    if items == [] then ""
    else if |items| == 1 then lead + ItemText(items[0])
    else lead + ItemText(items[0]) + "," + ItemsText(items[1..], lead)
  }

  function Props(items: seq<Item>): seq<(string, Value)> {
    if items == [] then [] else [(items[0].key, items[0].value)] + Props(items[1..])
  }

  function HeaderItem(h: (string, string)): Item {
    Item("'" + h.0 + "'", h.0, "'" + Escape(h.1, '\'') + "'", Text(h.1))
  }

  function HeaderItems(hs: Pairs): seq<Item> {
    if hs == [] then [] else [HeaderItem(hs[0])] + HeaderItems(hs[1..])
  }

  const INNER := "\n\t\t"

  function HeadersText(hs: Pairs): string {
    "{" + (if hs == [] then INNER else ItemsText(HeaderItems(hs), INNER)) + "\n\t}"
  }

  function HeaderValues(hs: Pairs): seq<(string, Value)> {
    if hs == [] then [] else [(hs[0].0, Text(hs[0].1))] + HeaderValues(hs[1..])
  }

  /** What is to be called, absent parts left out. */
  datatype Call = Call(address: string, verb: Option<string>, headers: Option<Pairs>, body: Option<string>)

  function VerbItem(verb: string): Item { Item("method", "method", "'" + verb + "'", Text(verb)) }

  function HeadersItem(hs: Pairs): Item { Item("headers", "headers", HeadersText(hs), Object(HeaderValues(hs))) }

  function BodyItem(body: string): Item { Item("body", "body", "`" + Escape(body, '`') + "`", Text(body)) }

  function Fields(c: Call): seq<Item> {
    (if c.verb.Some? then [VerbItem(c.verb.value)] else [])
    + (if c.headers.Some? then [HeadersItem(c.headers.value)] else [])
    + (if c.body.Some? then [BodyItem(c.body.value)] else [])
  }

  /** Everything after the address. */
  function Ending(fields: seq<Item>): string {
    if fields == [] then ");" else ", {" + ItemsText(fields, "\n\t") + "});"
  }

  function FetchText(c: Call): string { "fetch('" + c.address + "'" + Ending(Fields(c)) }

  /** The options object a call stands for, in property order. */
  function OptionsOf(c: Call): Option<Value> {
    var props :=
      (if c.verb.Some? then [("method", Text(c.verb.value))] else [])
      + (if c.headers.Some? then [("headers", Object(HeaderValues(c.headers.value)))] else [])
      + (if c.body.Some? then [("body", Text(c.body.value))] else []);
    if props == [] then None else Some(Object(props))
  }

  predicate Survives(c: Call) {
    && JsSafe(c.address, '\'', false)
    && (c.verb.Some? ==> JsSafe(c.verb.value, '\'', false))
    && (c.headers.Some? ==> forall h | h in c.headers.value :: HeaderSafe(h))
    && (c.body.Some? ==> JsSafe(c.body.value, '`', true))
  }

  // ---- Where a literal cannot run past its end ----

  /** No quote and no backslash before the next line break. */
  predicate Quiet(t: string) {
    t == "" || t[0] == '\n' || (t[0] != '\'' && t[0] != '\\' && Quiet(t[1..]))
  }

  lemma {:induction false} QuietNeverCloses(t: string)
    requires Quiet(t)
    ensures ReadJs(t, '\'') == Bad
  {
    if t != "" && t[0] != '\n' { QuietNeverCloses(t[1..]); }
  }

  /** What follows a literal between the given delimiters and keeps it from running on. */
  predicate Contained(tail: string, q: char) { if q == '`' then tail == "});" else Quiet(tail) }

  lemma ContainedNeverCloses(tail: string, q: char)
    requires IsDelimiter(q) && Contained(tail, q)
    ensures ReadJs(tail, q) == Bad
  {
    if q == '`' {
      assert ReadJs("", '`') == Bad && "});"[1..] == ");" && ");"[1..] == ";" && ";"[1..] == "";
    } else {
      QuietNeverCloses(tail);
    }
  }

  // ---- Literals, names and properties, exactly ----

  lemma LiteralExact(v: string, q: char, escaped: bool, tail: string)
    requires IsDelimiter(q) && Contained(tail, q)
    ensures var p := ParseValue([q] + JsText(v, q, escaped, tail));
            (Yields(p, Text(v)) <==> JsSafe(v, q, escaped)) && (JsSafe(v, q, escaped) ==> p == Got(Text(v), tail))
  {
    var s := [q] + JsText(v, q, escaped, tail);
    ContainedNeverCloses(tail, q);
    JsValueExact(v, q, escaped, tail);
    assert s[0] == q && s[1..] == JsText(v, q, escaped, tail);
  }

  /** A name that ran past its end would swallow the colon, up to the quote that opens the value. */
  lemma ColonRead(more: string)
    ensures ReadJs(": '" + more, '\'') == Lit(": ", more)
  {
    var t := ": '" + more;
    assert t[1..] == " '" + more && t[1..][1..] == "'" + more && t[1..][1..][1..] == more;
    assert ReadJs("'" + more, '\'') == Lit("", more);
    assert ReadJs(" '" + more, '\'') == Prepend(' ', Lit("", more)) == Lit(" ", more);
    assert ReadJs(t, '\'') == Prepend(':', Lit(" ", more)) == Lit(": ", more);
  }

  lemma NameExact(name: string, more: string)
    ensures var p := ParseKey("'" + JsText(name, '\'', false, ": '" + more));
            (Yields(p, name) <==> JsSafe(name, '\'', false))
            && (JsSafe(name, '\'', false) ==> p == Got(name, ": '" + more))
  {
    ColonRead(more);
    assert !EndsWith(": ", "\\");
    JsValueExact(name, '\'', false, ": '" + more);
    assert ("'" + JsText(name, '\'', false, ": '" + more))[1..] == JsText(name, '\'', false, ": '" + more);
  }

  /** The item is read as itself exactly when it is good, and then nothing more is. */
  ghost predicate Exact(i: Item, good: bool, lead: string, tail: string) {
    var t := lead + ItemText(i) + tail;
    && Skip(t) != "" && Skip(t)[0] != '}'
    && (Yields(ParseProp(t), (i.key, i.value)) <==> good)
    && (good ==> ParseProp(t) == Got((i.key, i.value), tail))
  }

  lemma ColonThen(t: string)
    ensures After(": " + t, ":") == Some(" " + t) && ParseValue(" " + t) == ParseValue(t)
  {
    assert ": " + t == "" + ":" + (" " + t);
    AfterWord("", ":", " " + t);
    assert (" " + t)[1..] == t;
  }

  lemma HeaderRegroup(lead: string, name: string, shown: string, tail: string)
    ensures lead + ("'" + name + "'" + ": " + ("'" + shown + "'")) + tail
            == lead + ("'" + (name + ['\''] + (": '" + (shown + ['\''] + tail))))
  {
    assert ": '" == ": " + "'";
    assert lead + ("'" + name + "'" + ": " + ("'" + shown + "'")) + tail
        == lead + ("'" + (name + ['\''] + ((": " + "'") + (shown + ['\''] + tail))));
  }

  lemma HeaderExact(h: (string, string), lead: string, tail: string)
    requires AllBlank(lead) && Quiet(tail)
    ensures Exact(HeaderItem(h), JsSafe(h.0, '\'', false) && JsSafe(h.1, '\'', true), lead, tail)
  {
    var more := JsText(h.1, '\'', true, tail);
    var s := "'" + JsText(h.0, '\'', false, ": '" + more);
    HeaderRegroup(lead, h.0, Escape(h.1, '\''), tail);
    SkipOver(lead, s);
    NameExact(h.0, more);
    if JsSafe(h.0, '\'', false) {
      assert ": '" + more == ": " + (['\''] + more);
      ColonThen(['\''] + more);
      LiteralExact(h.1, '\'', true, tail);
    }
  }

  predicate IsWord(w: string) { w != "" && forall i | 0 <= i < |w| :: IsLetter(w[i]) }

  lemma WordRead(lead: string, w: string, t: string)
    requires AllBlank(lead) && IsWord(w)
    ensures Skip(lead + (w + (": " + t))) == w + (": " + t)
    ensures ParseKey(w + (": " + t)) == Got(w, ": " + t)
  {
    var s := w + (": " + t);
    assert IsLetter(w[0]) && s[0] == w[0];
    SkipOver(lead, s);
    SpanStops(IsLetter, w, ": " + t);
    assert s[..|w|] == w && s[|w|..] == ": " + t;
  }

  lemma WordRegroup(lead: string, w: string, valueText: string, tail: string)
    ensures lead + (w + ": " + valueText) + tail == lead + (w + (": " + (valueText + tail)))
  {
  }

  lemma WordExact(i: Item, good: bool, lead: string, tail: string)
    requires AllBlank(lead) && IsWord(i.keyText) && i.key == i.keyText
    requires var p := ParseValue(i.valueText + tail);
             (Yields(p, i.value) <==> good) && (good ==> p == Got(i.value, tail))
    ensures Exact(i, good, lead, tail)
  {
    WordRegroup(lead, i.keyText, i.valueText, tail);
    WordRead(lead, i.keyText, i.valueText + tail);
    ColonThen(i.valueText + tail);
    assert IsLetter((i.keyText + (": " + (i.valueText + tail)))[0]);
  }

  lemma QuotedRegroup(q: char, shown: string, tail: string)
    ensures [q] + shown + [q] + tail == [q] + (shown + [q] + tail)
  {
  }

  lemma VerbExact(verb: string, lead: string, tail: string)
    requires AllBlank(lead) && Quiet(tail)
    ensures Exact(VerbItem(verb), JsSafe(verb, '\'', false), lead, tail)
  {
    QuotedRegroup('\'', verb, tail);
    LiteralExact(verb, '\'', false, tail);
    WordExact(VerbItem(verb), JsSafe(verb, '\'', false), lead, tail);
  }

  lemma BodyExact(body: string, lead: string)
    requires AllBlank(lead)
    ensures Exact(BodyItem(body), JsSafe(body, '`', true), lead, "});")
  {
    QuotedRegroup('`', Escape(body, '`'), "});");
    LiteralExact(body, '`', true, "});");
    WordExact(BodyItem(body), JsSafe(body, '`', true), lead, "});");
  }

  // ---- Lists of properties, exactly ----

  /** A list of properties is read right exactly when its first property and the rest are. */
  lemma PropsStep(t: string, prop: (string, Value), more: seq<(string, Value)>, rest: string)
    requires Skip(t) != "" && Skip(t)[0] != '}'
    requires Yields(ParseProp(t), prop) ==> ParseProp(t).rest == "," + rest
    ensures Yields(ParseProps(t), [prop] + more) <==> Yields(ParseProp(t), prop) && Yields(ParseProps(rest), more)
    ensures Yields(ParseProp(t), prop) && Yields(ParseProps(rest), more) ==> ParseProps(t).rest == ParseProps(rest).rest
  {
    var p := ParseProp(t);
    if p.Got? {
      if p.value == prop {
        assert ("," + rest)[1..] == rest;
        if ParseProps(rest).Got? { SameHead(prop, ParseProps(rest).value, more); }
      } else if ParseProps(t).Got? {
        assert ParseProps(t).value[0] == p.value && ([prop] + more)[0] == prop;
      }
    }
  }

  lemma SameHead(prop: (string, Value), a: seq<(string, Value)>, b: seq<(string, Value)>)
    ensures [prop] + a == [prop] + b <==> a == b
  {
    assert ([prop] + a)[1..] == a && ([prop] + b)[1..] == b;
  }

  lemma LastProp(t: string, prop: (string, Value), close: string, tail: string)
    requires AllBlank(close) && Skip(t) != "" && Skip(t)[0] != '}'
    requires Yields(ParseProp(t), prop) ==> ParseProp(t).rest == close + ("}" + tail)
    ensures Yields(ParseProps(t), [prop]) <==> Yields(ParseProp(t), prop)
    ensures Yields(ParseProp(t), prop) ==> ParseProps(t) == Got([prop], tail)
  {
    SkipOver(close, "}" + tail);
    assert ("}" + tail)[1..] == tail;
    if ParseProp(t).Got? && ParseProp(t).value != prop && ParseProps(t).Got? {
      assert ParseProps(t).value[0] != prop;
    }
  }

  /** What follows item k. */
  function Behind(items: seq<Item>, k: nat, lead: string, end: string): string
    requires k < |items|
  {
    if k == |items| - 1 then end else "," + (ItemsText(items[k + 1..], lead) + end)
  }

  ghost predicate AllExact(items: seq<Item>, goods: seq<bool>, lead: string, end: string) {
    |goods| == |items| && forall k | 0 <= k < |items| :: Exact(items[k], goods[k], lead, Behind(items, k, lead, end))
  }

  predicate AllTrue(goods: seq<bool>) { forall k | 0 <= k < |goods| :: goods[k] }

  lemma AllTrueHead(goods: seq<bool>)
    requires goods != []
    ensures AllTrue(goods) <==> goods[0] && AllTrue(goods[1..])
  {
    assert forall k | 0 <= k < |goods| - 1 :: goods[1..][k] == goods[k + 1];
    if goods[0] && AllTrue(goods[1..]) {
      forall k | 0 <= k < |goods| ensures goods[k] {
        if k > 0 { assert goods[1..][k - 1]; }
      }
    }
  }

  lemma AllExactTail(items: seq<Item>, goods: seq<bool>, lead: string, end: string)
    requires AllExact(items, goods, lead, end) && |items| > 1
    ensures AllExact(items[1..], goods[1..], lead, end)
  {
    forall k | 0 <= k < |items| - 1
      ensures Exact(items[1..][k], goods[1..][k], lead, Behind(items[1..], k, lead, end))
    {
      assert Exact(items[k + 1], goods[k + 1], lead, Behind(items, k + 1, lead, end));
      assert items[1..][k + 1..] == items[k + 2..];
    }
  }

  lemma {:induction false} ItemsExact(items: seq<Item>, goods: seq<bool>, lead: string, close: string, tail: string)
    requires items != [] && AllBlank(lead) && AllBlank(close)
    requires AllExact(items, goods, lead, close + ("}" + tail))
    ensures var p := ParseProps(ItemsText(items, lead) + (close + ("}" + tail)));
            (Yields(p, Props(items)) <==> AllTrue(goods)) && (AllTrue(goods) ==> p == Got(Props(items), tail))
  {
    var i, end := items[0], close + ("}" + tail);
    var prop := (i.key, i.value);
    assert Exact(i, goods[0], lead, Behind(items, 0, lead, end));
    AllTrueHead(goods);
    if |items| == 1 {
      assert Props(items) == [prop] && goods[1..] == [];
      LastProp(lead + ItemText(i) + end, prop, close, tail);
    } else {
      var rest := ItemsText(items[1..], lead) + end;
      ItemsRegroup(lead + ItemText(i), ItemsText(items[1..], lead), end);
      AllExactTail(items, goods, lead, end);
      ItemsExact(items[1..], goods[1..], lead, close, tail);
      PropsStep(lead + ItemText(i) + ("," + rest), prop, Props(items[1..]), rest);
    }
  }

  lemma ItemsRegroup(a: string, b: string, c: string)
    ensures a + "," + b + c == a + ("," + (b + c))
  {
  }

  // ---- The headers object, exactly ----

  predicate HeaderSafe(h: (string, string)) { JsSafe(h.0, '\'', false) && JsSafe(h.1, '\'', true) }

  function HeaderGoods(hs: Pairs): seq<bool> {
    seq(|hs|, k requires 0 <= k < |hs| => HeaderSafe(hs[k]))
  }

  lemma QuietBehind(items: seq<Item>, k: nat, lead: string, end: string)
    requires k < |items| && lead != "" && lead[0] == '\n' && Quiet(end)
    ensures Quiet(Behind(items, k, lead, end))
  {
    if k < |items| - 1 {
      var rest := ItemsText(items[k + 1..], lead) + end;
      assert rest[0] == '\n';
      assert ("," + rest)[1..] == rest;
    }
  }

  lemma HeadersExact(hs: Pairs, tail: string)
    ensures var p := ParseValue(HeadersText(hs) + tail); var safe := forall h | h in hs :: HeaderSafe(h);
            (Yields(p, Object(HeaderValues(hs))) <==> safe) && (safe ==> p == Got(Object(HeaderValues(hs)), tail))
  {
    var inner := if hs == [] then INNER else ItemsText(HeaderItems(hs), INNER);
    var rest := inner + ("\n\t" + ("}" + tail));
    assert "\n\t" + "}" == "\n\t}";
    BracesRegroup("{", inner, "\n\t", tail);
    BracesRead(rest);
    if hs == [] {
      EmptyBracesRead(tail);
    } else {
      HeaderListExact(hs, tail);
    }
  }

  lemma HeaderListExact(hs: Pairs, tail: string)
    requires hs != []
    ensures var p := ParseProps(ItemsText(HeaderItems(hs), INNER) + ("\n\t" + ("}" + tail)));
            var safe := forall h | h in hs :: HeaderSafe(h);
            (Yields(p, HeaderValues(hs)) <==> safe) && (safe ==> p == Got(HeaderValues(hs), tail))
  {
    var items, end := HeaderItems(hs), "\n\t" + ("}" + tail);
    HeaderItemsAt(hs);
    HeaderProps(hs);
    forall k | 0 <= k < |items| ensures Exact(items[k], HeaderGoods(hs)[k], INNER, Behind(items, k, INNER, end)) {
      QuietBehind(items, k, INNER, end);
      HeaderExact(hs[k], INNER, Behind(items, k, INNER, end));
    }
    ItemsExact(items, HeaderGoods(hs), INNER, "\n\t", tail);
    assert AllTrue(HeaderGoods(hs)) <==> forall h | h in hs :: HeaderSafe(h) by {
      if AllTrue(HeaderGoods(hs)) {
        forall h | h in hs ensures HeaderSafe(h) {
          var k :| 0 <= k < |hs| && hs[k] == h;
          assert HeaderGoods(hs)[k];
        }
      }
    }
  }

  lemma {:induction false} HeaderProps(hs: Pairs)
    ensures Props(HeaderItems(hs)) == HeaderValues(hs)
  {
    if hs != [] { HeaderProps(hs[1..]); }
  }

  lemma BracesRead(inner: string)
    ensures ParseValue("{" + inner).Got? <==> ParseProps(inner).Got?
    ensures ParseProps(inner).Got?
            ==> ParseValue("{" + inner) == Got(Object(ParseProps(inner).value), ParseProps(inner).rest)
  {
    assert ("{" + inner)[1..] == inner;
  }

  lemma EmptyBracesRead(tail: string)
    ensures ParseProps(INNER + ("\n\t" + ("}" + tail))) == Got([], tail)
  {
    assert INNER + ("\n\t" + ("}" + tail)) == "\n\t\t\n\t" + ("}" + tail);
    SkipOver("\n\t\t\n\t", "}" + tail);
    assert ("}" + tail)[1..] == tail;
  }

  lemma BracesRegroup(open: string, inner: string, close: string, tail: string)
    ensures open + inner + (close + "}") + tail == open + (inner + (close + ("}" + tail)))
  {
  }

  // ---- The whole call, exactly ----

  lemma PropsConcat(a: seq<Item>, b: seq<Item>)
    ensures Props(a + b) == Props(a) + Props(b)
  {
    if a == [] {
      assert a + b == b;
    } else {
      assert (a + b)[1..] == a[1..] + b;
      PropsConcat(a[1..], b);
    }
  }

  lemma PropsOfFields(c: Call)
    ensures Fields(c) == [] <==> OptionsOf(c) == None
    ensures Fields(c) != [] ==> OptionsOf(c) == Some(Object(Props(Fields(c))))
  {
    var m := if c.verb.Some? then [VerbItem(c.verb.value)] else [];
    var h := if c.headers.Some? then [HeadersItem(c.headers.value)] else [];
    var b := if c.body.Some? then [BodyItem(c.body.value)] else [];
    assert Props(m) == if c.verb.Some? then [("method", Text(c.verb.value))] else [];
    assert Props(h) == if c.headers.Some? then [("headers", Object(HeaderValues(c.headers.value)))] else [];
    assert Props(b) == if c.body.Some? then [("body", Text(c.body.value))] else [];
    PropsConcat(m + h, b);
    PropsConcat(m, h);
  }

  /** Which of the fields survive, in order. */
  function Goods(c: Call): seq<bool> {
    (if c.verb.Some? then [JsSafe(c.verb.value, '\'', false)] else [])
    + (if c.headers.Some? then [forall h | h in c.headers.value :: HeaderSafe(h)] else [])
    + (if c.body.Some? then [JsSafe(c.body.value, '`', true)] else [])
  }

  /** Field k is the method, the headers or, in the last place only, the body. */
  lemma FieldAt(c: Call, k: nat)
    requires k < |Fields(c)|
    ensures |Goods(c)| == |Fields(c)|
    ensures var i, good := Fields(c)[k], Goods(c)[k];
            || (c.verb.Some? && i == VerbItem(c.verb.value) && good == JsSafe(c.verb.value, '\'', false))
            || (c.headers.Some? && i == HeadersItem(c.headers.value)
                && good == forall h | h in c.headers.value :: HeaderSafe(h))
            || (c.body.Some? && i == BodyItem(c.body.value) && good == JsSafe(c.body.value, '`', true)
                && k == |Fields(c)| - 1)
  {
  }

  lemma FieldExact(c: Call, k: nat)
    requires k < |Fields(c)|
    ensures |Goods(c)| == |Fields(c)|
    ensures Exact(Fields(c)[k], Goods(c)[k], "\n\t", Behind(Fields(c), k, "\n\t", "" + ("}" + ");")))
  {
    var i, end := Fields(c)[k], "" + ("}" + ");");
    assert end == "});";
    var behind := Behind(Fields(c), k, "\n\t", end);
    FieldAt(c, k);
    QuietEnd();
    QuietBehind(Fields(c), k, "\n\t", end);
    if c.verb.Some? && i == VerbItem(c.verb.value) {
      VerbExact(c.verb.value, "\n\t", behind);
    } else if c.headers.Some? && i == HeadersItem(c.headers.value) {
      HeadersItemExact(c.headers.value, "\n\t", behind);
    } else {
      BodyExact(c.body.value, "\n\t");
    }
  }

  lemma HeadersItemExact(hs: Pairs, lead: string, tail: string)
    requires AllBlank(lead)
    ensures Exact(HeadersItem(hs), forall h | h in hs :: HeaderSafe(h), lead, tail)
  {
    HeadersExact(hs, tail);
    WordExact(HeadersItem(hs), forall h | h in hs :: HeaderSafe(h), lead, tail);
  }

  lemma QuietEnd()
    ensures Quiet("});") && Quiet(");")
  {
    assert "});"[1..] == ");" && ");"[1..] == ";" && ";"[1..] == "";
    assert Quiet("") && Quiet(";") && Quiet(");");
  }

  lemma ClosesHere()
    ensures Closes(");")
  {
    AfterWord("", ")", ";");
    AfterWord("", ";", "");
    assert "" + ")" + ";" == ");" && "" + ";" + "" == ";";
  }

  lemma OptionsExact(c: Call)
    requires Fields(c) != []
    ensures ParseArguments(c.address, Ending(Fields(c))) == Some(Fetch(c.address, OptionsOf(c))) <==> AllTrue(Goods(c))
  {
    var fields := Fields(c);
    var rest := ItemsText(fields, "\n\t") + ("" + ("}" + ");"));
    EndingRegroup(ItemsText(fields, "\n\t"));
    AfterWord("", ",", " {" + rest);
    SpaceBraceRead(rest);
    forall k | 0 <= k < |fields|
      ensures Exact(fields[k], Goods(c)[k], "\n\t", Behind(fields, k, "\n\t", "" + ("}" + ");")))
    {
      FieldExact(c, k);
    }
    FieldExact(c, 0);
    ItemsExact(fields, Goods(c), "\n\t", "", ");");
    PropsOfFields(c);
    ClosesHere();
  }

  lemma EndingRegroup(items: string)
    ensures ", {" + items + "});" == "" + "," + (" {" + (items + ("" + ("}" + ");"))))
  {
    assert "});" == "" + ("}" + ");") && ", {" == "" + "," + " {";
  }

  lemma SpaceBraceRead(rest: string)
    ensures ParseValue(" {" + rest) == ParseValue("{" + rest)
    ensures ParseValue("{" + rest).Got? <==> ParseProps(rest).Got?
    ensures ParseProps(rest).Got?
            ==> ParseValue("{" + rest) == Got(Object(ParseProps(rest).value), ParseProps(rest).rest)
  {
    assert (" {" + rest)[1..] == "{" + rest;
    assert Skip("{" + rest) == "{" + rest && Skip(" {" + rest) == "{" + rest;
    BracesRead(rest);
  }

  lemma QuietBrace(rest: string)
    requires rest != "" && rest[0] == '\n'
    ensures Quiet(", {" + rest)
  {
    assert (", {" + rest)[1..] == " {" + rest && (" {" + rest)[1..] == "{" + rest && ("{" + rest)[1..] == rest;
    assert Quiet("{" + rest) && Quiet(" {" + rest);
  }

  lemma QuietEnding(fields: seq<Item>)
    ensures Quiet(Ending(fields))
  {
    QuietEnd();
    if fields != [] {
      QuietBrace(ItemsText(fields, "\n\t") + "});");
      Associative(", {", ItemsText(fields, "\n\t"), "});");
    }
  }

  lemma AddressExact(address: string, end: string)
    requires Quiet(end)
    ensures JsSafe(address, '\'', false) ==> ParseFetch("fetch('" + address + "'" + end) == ParseArguments(address, end)
    ensures !JsSafe(address, '\'', false) ==>
              var f := ParseFetch("fetch('" + address + "'" + end); f.Some? ==> f.value.address != address
  {
    var quoted := JsText(address, '\'', false, end);
    AddressRegroup(address, end);
    AfterWord("", "fetch", "('" + quoted);
    assert "('" + quoted == "" + "(" + ("'" + quoted);
    AfterWord("", "(", "'" + quoted);
    assert ("'" + quoted)[1..] == quoted;
    QuietNeverCloses(end);
    JsValueExact(address, '\'', false, end);
  }

  lemma AddressRegroup(address: string, end: string)
    ensures "fetch('" + address + "'" + end == "" + "fetch" + ("('" + JsText(address, '\'', false, end))
  {
    assert "fetch('" == "" + "fetch" + "('";
  }

  lemma SurvivesIff(c: Call)
    ensures Survives(c) <==> JsSafe(c.address, '\'', false) && AllTrue(Goods(c))
  {
    var m := if c.verb.Some? then [JsSafe(c.verb.value, '\'', false)] else [];
    var h := if c.headers.Some? then [forall h | h in c.headers.value :: HeaderSafe(h)] else [];
    var b := if c.body.Some? then [JsSafe(c.body.value, '`', true)] else [];
    assert AllTrue(m + h + b) <==> AllTrue(m) && AllTrue(h) && AllTrue(b) by {
      AllTrueConcat(m + h, b);
      AllTrueConcat(m, h);
    }
    if m != [] { AllTrueHead(m); }
    if h != [] { AllTrueHead(h); }
    if b != [] { AllTrueHead(b); }
  }

  lemma AllTrueConcat(a: seq<bool>, b: seq<bool>)
    ensures AllTrue(a + b) <==> AllTrue(a) && AllTrue(b)
  {
    if AllTrue(a + b) {
      forall k | 0 <= k < |a| ensures a[k] { assert (a + b)[k]; }
      forall k | 0 <= k < |b| ensures b[k] { assert (a + b)[|a| + k]; }
    }
  }

  /**
   Exactly: the printed text is one well-formed call that reads back as the address, then the method,
   the headers in order and the body, whichever of them are present, iff every part survives its
   quoting.
   */
  lemma FetchExact(c: Call)
    ensures ParseFetch(FetchText(c)) == Some(Fetch(c.address, OptionsOf(c))) <==> Survives(c)
  {
    var fields := Fields(c);
    QuietEnding(fields);
    AddressExact(c.address, Ending(fields));
    SurvivesIff(c);
    PropsOfFields(c);
    if fields == [] {
      assert Goods(c) == [];
      OtherWord("", ");", ",");
      assert "" + ");" == ");";
      ClosesHere();
    } else {
      OptionsExact(c);
    }
  }

  /** With nothing but a closing brace behind the address, the text reads back as no call of that address. */
  lemma StrayBraceNeverReads(address: string)
    ensures var f := ParseFetch("fetch('" + address + "'" + "});"); f.Some? ==> f.value.address != address
  {
    QuietEnd();
    AddressExact(address, "});");
    OtherWord("", "});", ",");
    OtherWord("", "});", ")");
    assert "" + "});" == "});";
  }

  // ---- Printing ----

  /** The body argument: absent or otherwise falsy, a string, or anything else that counts as true. */
  datatype BodyArg = NoBody | TextBody(text: string) | OtherBody {
    function Text(): Option<string> { if TextBody? && text != "" then Some(text) else None }
  }

  function CallOf(address: string, verb: Option<string>, headers: Option<Pairs>, body: BodyArg,
                  upper: string -> string): Call {
    Call(address, if Present(verb) then Some(upper(verb.value)) else None, headers, body.Text())
  }

  /** The text so far: the address and the fields, the object still open. */
  ghost function SoFar(address: string, fields: seq<Item>): string {
    "fetch('" + address + "'" + (if fields == [] then "" else ", {" + ItemsText(fields, "\n\t"))
  }

  lemma RegroupTail(a: string, b: string, c: string, d: string)
    ensures a + (b + c + d) == a + b + c + d
  {
  }

  lemma {:induction false} ItemsAppend(items: seq<Item>, i: Item, lead: string)
    ensures ItemsText(items + [i], lead)
            == ItemsText(items, lead) + (if items == [] then "" else ",") + (lead + ItemText(i))
  {
    if items == [] {
      assert items + [i] == [i];
    } else {
      assert (items + [i])[1..] == items[1..] + [i] && (items + [i])[0] == items[0];
      ItemsAppend(items[1..], i, lead);
      if |items| == 1 {
        assert items[1..] + [i] == [i];
      } else {
        RegroupTail(lead + ItemText(items[0]) + ",", ItemsText(items[1..], lead), ",", lead + ItemText(i));
      }
    }
  }

  lemma FieldAdded(address: string, fields: seq<Item>, i: Item)
    ensures SoFar(address, fields + [i])
            == SoFar(address, fields) + (if fields == [] then ", {" else ",") + ("\n\t" + ItemText(i))
  {
    ItemsAppend(fields, i, "\n\t");
  }

  lemma {:induction false} JoinItems(items: seq<Item>, texts: seq<string>, sep: string, lead: string)
    requires sep == "," + lead && |texts| == |items| > 0
    requires forall k | 0 <= k < |items| :: texts[k] == ItemText(items[k])
    ensures lead + Join(texts, sep) == ItemsText(items, lead)
  {
    if |items| > 1 {
      JoinItems(items[1..], texts[1..], sep, lead);
      assert lead + (texts[0] + sep + Join(texts[1..], sep)) == lead + texts[0] + "," + (lead + Join(texts[1..], sep));
    }
  }

  lemma HeaderLine(h: (string, string))
    ensures "'" + h.0 + "': '" + Escape(h.1, '\'') + "'" == ItemText(HeaderItem(h))
  {
    var value := Escape(h.1, '\'');
    assert "': '" == "'" + (": " + "'");
    assert "'" + h.0 + ("'" + (": " + "'")) + value + "'" == "'" + h.0 + "'" + ": " + ("'" + value + "'");
  }

  lemma HeadersLine(hs: Pairs, joined: string)
    requires INNER + joined == if hs == [] then INNER else ItemsText(HeaderItems(hs), INNER)
    ensures "\n\theaders: {" + (INNER + joined) + "\n\t}" == "\n\t" + ItemText(HeadersItem(hs))
  {
    assert "\n\theaders: {" == "\n\t" + ("headers" + ": " + "{");
    HeadersLineRegroup("\n\t", "headers" + ": ", "{", INNER + joined, "\n\t}");
  }

  lemma HeadersLineRegroup(a: string, b: string, c: string, d: string, e: string)
    ensures a + (b + c) + d + e == a + (b + (c + d + e))
  {
  }

  /** Prints the header object: one line per header, collected in a list and joined. */
  method PrintHeaders(header: Pairs) returns (text: string)
    ensures text == "\n\t" + ItemText(HeadersItem(header))
  {
    text := "\n\theaders: {";
    var headers: seq<string> := [];
    for k := 0 to |header|
      invariant |headers| == k
      invariant forall j | 0 <= j < k :: headers[j] == ItemText(HeaderItem(header[j]))
    {
      var value := Escape(header[k].1, '\'');
      HeaderLine(header[k]);
      headers := headers + ["'" + header[k].0 + "': '" + value + "'"];
    }
    HeadersJoined(header, headers);
    HeadersLine(header, Join(headers, ",\n\t\t"));
    text := text + ("\n\t\t" + Join(headers, ",\n\t\t"));
    text := text + "\n\t}";
  }

  lemma HeadersJoined(hs: Pairs, texts: seq<string>)
    requires |texts| == |hs| && forall j | 0 <= j < |hs| :: texts[j] == ItemText(HeaderItem(hs[j]))
    ensures INNER + Join(texts, ",\n\t\t") == if hs == [] then INNER else ItemsText(HeaderItems(hs), INNER)
  {
    HeaderItemsAt(hs);
    if hs != [] {
      assert ",\n\t\t" == "," + INNER;
      JoinItems(HeaderItems(hs), texts, ",\n\t\t", INNER);
    }
  }

  lemma {:induction false} HeaderItemsAt(hs: Pairs)
    ensures |HeaderItems(hs)| == |hs|
    ensures forall k | 0 <= k < |hs| :: HeaderItems(hs)[k] == HeaderItem(hs[k])
  {
    if hs != [] { HeaderItemsAt(hs[1..]); }
  }

  /** A one-line property: indentation, name, colon and a quoted text. */
  lemma ItemLine(key: string, q: string, text: string, start: string)
    requires start == "\n\t" + key + ": " + q
    ensures start + text + q == "\n\t" + (key + ": " + (q + text + q))
  {
  }

  lemma VerbAdded(address: string, fields: seq<Item>, verb: string)
    ensures SoFar(address, fields + [VerbItem(verb)])
            == SoFar(address, fields) + (if fields == [] then ", {" else ",") + ("\n\tmethod: '" + verb + "'")
  {
    FieldAdded(address, fields, VerbItem(verb));
    assert "\n\tmethod: '" == "\n\t" + "method" + ": " + "'";
    ItemLine("method", "'", verb, "\n\tmethod: '");
  }

  lemma BodyAdded(address: string, fields: seq<Item>, body: string)
    ensures SoFar(address, fields + [BodyItem(body)])
            == SoFar(address, fields) + (if fields == [] then ", {" else ",")
                + ("\n\tbody: `" + Escape(body, '`') + "`")
  {
    FieldAdded(address, fields, BodyItem(body));
    assert "\n\tbody: `" == "\n\t" + "body" + ": " + "`";
    ItemLine("body", "`", Escape(body, '`'), "\n\tbody: `");
  }

  lemma Finished(address: string, fields: seq<Item>)
    ensures SoFar(address, fields) + (if fields == [] then "" else "}") + ");"
            == "fetch('" + address + "'" + Ending(fields)
  {
    var head, items := "fetch('" + address + "'", ", {" + ItemsText(fields, "\n\t");
    if fields == [] {
      assert head + "" + "" + ");" == head + ");";
    } else {
      assert "}" + ");" == "});";
      assert head + items + "}" + ");" == head + (items + "});");
    }
  }

  lemma Begun(address: string)
    ensures "fetch(" + ("'" + address + "'") == SoFar(address, [])
  {
    assert "fetch(" + "'" == "fetch('";
  }

  lemma Strayed(address: string)
    ensures SoFar(address, []) + "}" + ");" == "fetch('" + address + "'" + "});"
  {
    assert "}" + ");" == "});";
  }

  /** Each pair as a property that is a text, in the same order. */
  function AsTexts(hs: Pairs): (props: seq<(string, Value)>)
    ensures |props| == |hs| && forall i | 0 <= i < |hs| :: props[i] == (hs[i].0, Text(hs[i].1))
  {
    seq(|hs|, i requires 0 <= i < |hs| => (hs[i].0, Text(hs[i].1)))
  }

  lemma {:induction false} HeaderValuesAre(hs: Pairs)
    ensures HeaderValues(hs) == AsTexts(hs)
  {
    if hs != [] { HeaderValuesAre(hs[1..]); }
  }

  /** The text printed for the arguments reads back as what they ask for exactly when they survive their literals. */
  lemma ReadsBackIff(address: string, verb: Option<string>, header: Option<Pairs>, body: BodyArg,
                     upper: string -> string, template: string)
    requires var stray := body.OtherBody? && !Present(verb) && header.None?;
             template == if stray then "fetch('" + address + "'" + "});"
                         else FetchText(CallOf(address, verb, header, body, upper))
    ensures var props :=
              (if verb.Some? && verb.value != "" then [("method", Text(upper(verb.value)))] else [])
              + (if header.Some? then [("headers", Object(AsTexts(header.value)))] else [])
              + (if body.TextBody? && body.text != "" then [("body", Text(body.text))] else []);
            ParseFetch(template) == Some(Fetch(address, if props == [] then None else Some(Object(props)))) <==>
              && JsSafe(address, '\'', false)
              && (verb.Some? && verb.value != "" ==> JsSafe(upper(verb.value), '\'', false))
              && (header.Some? ==>
                    forall h | h in header.value :: JsSafe(h.0, '\'', false) && JsSafe(h.1, '\'', true))
              && (body.TextBody? && body.text != "" ==> JsSafe(body.text, '`', true))
              && (body.OtherBody? ==> (verb.Some? && verb.value != "") || header.Some?)
  {
    FetchExact(CallOf(address, verb, header, body, upper));
    StrayBraceNeverReads(address);
    if header.Some? { HeaderValuesAre(header.value); }
  }

  /** Everything behind the test of the address, piece by piece under the two flags. */
  method PrintCall(address: string, verb: Option<string>, header: Option<Pairs>, body: BodyArg, upper: string -> string)
    returns (template: string)
    ensures var stray := body.OtherBody? && !Present(verb) && header.None?;
            template == if stray then "fetch('" + address + "'" + "});"
                        else FetchText(CallOf(address, verb, header, body, upper))
  {
    template := "fetch(";
    template := template + ("'" + address + "'");
    ghost var fields: seq<Item> := [];
    Begun(address);

    var methodOk := false;
    if Present(verb) {
      methodOk := true;
      VerbAdded(address, fields, upper(verb.value));
      template := template + ", {";
      template := template + ("\n\tmethod: '" + upper(verb.value) + "'");
      fields := fields + [VerbItem(upper(verb.value))];
    }
    assert methodOk <==> fields != [];

    var headerOk := false;
    if header.Some? {
      headerOk := true;
      FieldAdded(address, fields, HeadersItem(header.value));
      template := template + (if methodOk then "," else ", {");
      var text := PrintHeaders(header.value);
      template := template + text;
      fields := fields + [HeadersItem(header.value)];
    }
    assert methodOk || headerOk <==> fields != [];

    if body.TextBody? && body.text != "" {
      BodyAdded(address, fields, body.text);
      var quoted := Escape(body.text, '`');
      template := template + (if methodOk || headerOk then "," else ", {");
      template := template + ("\n\tbody: `" + quoted + "`");
      fields := fields + [BodyItem(body.text)];
    }

    assert fields == Fields(CallOf(address, verb, header, body, upper));
    Finished(address, fields);
    Strayed(address);
    if methodOk || headerOk || body.OtherBody? || body.Text().Some? {
      template := template + "}";
    }
    template := template + ");";
  }

  /**
   The converter. An absent address prints nothing. A body that is not a string adds nothing to the
   call, except that without method and headers it leaves a closing brace that opens nowhere.
   Apart from that brace the text reads back as a call of the encoded address whose options are the method
   in upper case, the headers and the body, those that are given and in that order, exactly when each of
   them survives its literal.
   */
  method ToJsFetch(url: Option<string>, verb: Option<string>, header: Option<Pairs>, body: BodyArg,
                   encodeUri: string -> string, upper: string -> string)
    returns (template: string)
    ensures url == None || url == Some("") ==> template == ""
    ensures Present(url) ==>
              var stray := body.OtherBody? && !Present(verb) && header.None?;
              template == if stray then "fetch('" + encodeUri(url.value) + "'" + "});"
                          else FetchText(CallOf(encodeUri(url.value), verb, header, body, upper))
    ensures url.Some? && url.value != "" ==>
              var props :=
                (if verb.Some? && verb.value != "" then [("method", Text(upper(verb.value)))] else [])
                + (if header.Some? then [("headers", Object(AsTexts(header.value)))] else [])
                + (if body.TextBody? && body.text != "" then [("body", Text(body.text))] else []);
              ParseFetch(template)
              == Some(Fetch(encodeUri(url.value), if props == [] then None else Some(Object(props)))) <==>
                && JsSafe(encodeUri(url.value), '\'', false)
                && (verb.Some? && verb.value != "" ==> JsSafe(upper(verb.value), '\'', false))
                && (header.Some? ==>
                      forall h | h in header.value :: JsSafe(h.0, '\'', false) && JsSafe(h.1, '\'', true))
                && (body.TextBody? && body.text != "" ==> JsSafe(body.text, '`', true))
                && (body.OtherBody? ==> (verb.Some? && verb.value != "") || header.Some?)
  {
    if !Present(url) { return ""; }
    var address := encodeUri(url.value);
    template := PrintCall(address, verb, header, body, upper);
    ReadsBackIff(address, verb, header, body, upper, template);
  }
}
