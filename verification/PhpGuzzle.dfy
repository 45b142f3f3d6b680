/**
 The Guzzle converter: nested arrays printed under the `config` flag. Reading the printed program
 gives back the method, address, headers and body exactly when every one of them survives PHP's
 single quotes, whichever of headers and body are present.
 */
module PhpGuzzle {
  import opened Prelude
  import opened Literals
  import opened Reading
  import opened PhpArrays

  // ---- What is printed ----

  function HeaderLine(h: (string, string)): string {
    "\n\t\t\t'" + h.0 + "' => '" + Escape(h.1, '\'') + "',"
  }

  function HeaderLines(hs: Pairs): string { PrintAll(hs, HeaderLine) }

  function HeadersText(hs: Pairs): string { "\n\t\t'headers' => [" + HeaderLines(hs) + "\n\t\t]" }

  function BodyText(body: string): string { "\n\t\t'body' => '" + Escape(body, '\'') + "'," }

  /** The third argument, its comma included, or nothing. */
  function OptionsText(headers: Option<Pairs>, body: Option<string>): string {
    match (headers, body)
    case (None, None) => ""
    case (Some(hs), None) => ", [" + HeadersText(hs) + "\n\t]"
    case (None, Some(b)) => ", [" + BodyText(b) + "\n\t]"
    case (Some(hs), Some(b)) => ", [" + HeadersText(hs) + "," + BodyText(b) + "\n\t]"
  }

  const IMPORTS := "<?php\nrequire 'vendor/autoload.php';\n\nuse GuzzleHttp\\Client;\n\n$client = new Client();"

  const TRY := "\ntry {"

  const REQUEST := "\n\t$response = $client->request("

  const EPILOGUE :=
    "\n    \n\techo $response->getBody();\n\techo $response->getStatusCode();\n"
    + "\tvar_dump($response->getHeaders());\n} catch (Exception $e) {\n  // Handle the exception\n"
    + "  echo 'Caught exception: ' . $e->getMessage();\n}"

  function ArgumentsText(verb: string, address: string, headers: Option<Pairs>, body: Option<string>): string {
    "'" + verb + "', '" + address + "'" + OptionsText(headers, body) + ");"
  }

  function GuzzleText(verb: string, address: string, headers: Option<Pairs>, body: Option<string>): string {
    IMPORTS + TRY + REQUEST + ArgumentsText(verb, address, headers, body) + EPILOGUE
  }

  // ---- What it stands for ----

  function HeaderEntries(hs: Pairs): seq<Entry> {
    if hs == [] then [] else [Entry(Some(hs[0].0), Text(hs[0].1))] + HeaderEntries(hs[1..])
  }

  function HeadersEntry(hs: Pairs): Entry { Entry(Some("headers"), Array(HeaderEntries(hs))) }

  function BodyEntry(body: string): Entry { Entry(Some("body"), Text(body)) }

  function Options(headers: Option<Pairs>, body: Option<string>): Option<Php> {
    if headers == None && body == None then None
    else
      Some(Array((if headers.Some? then [HeadersEntry(headers.value)] else [])
                 + (if body.Some? then [BodyEntry(body.value)] else [])))
  }

  datatype Request = Request(verb: string, address: string, options: Option<Php>)

  predicate HeadersSafe(hs: Pairs) { forall h | h in hs :: Safe(h.0, false) && Safe(h.1, true) }

  predicate OptionsSafe(headers: Option<Pairs>, body: Option<string>) {
    (headers.Some? ==> HeadersSafe(headers.value)) && (body.Some? ==> Safe(body.value, true))
  }

  // ---- Reading ----

  /** The rest of the argument list and the statement end, then exactly the given text. */
  function ParseOptions(t: string, epilogue: string): Parsed<Option<Php>> {
    match After(t, ",")
    case None => if Ends(t, epilogue) then Got(None, epilogue) else Fail
    case Some(t1) =>
      match ParseValue(t1)
      case Fail => Fail
      case Got(options, t2) => if Ends(t2, epilogue) then Got(Some(options), epilogue) else Fail
  }

  predicate Ends(t: string, epilogue: string) {
    After(t, ")").Some? && After(After(t, ")").value, ";") == Some(epilogue)
  }

  function ParseArguments(t: string, epilogue: string): Option<Request> {
    match ParseValue(t)
    case Fail => None
    case Got(verb, t1) =>
      match After(t1, ",")
      case None => None
      case Some(t2) =>
        match ParseValue(t2)
        case Fail => None
        case Got(address, t3) =>
          if !verb.Text? || !address.Text? then None
          else
            match ParseOptions(t3, epilogue)
            case Fail => None
            case Got(options, _) => Some(Request(verb.text, address.text, options))
  }

  /** The program up to the arguments of its request, and from behind them. */
  const HEAD :=
    "<?php\nrequire 'vendor/autoload.php';\n\nuse GuzzleHttp\\Client;\n\n$client = new Client();" + "\ntry {"
    + "\n\t$response = $client->request("

  const TAIL :=
    "\n    \n\techo $response->getBody();\n\techo $response->getStatusCode();\n"
    + "\tvar_dump($response->getHeaders());\n} catch (Exception $e) {\n  // Handle the exception\n"
    + "  echo 'Caught exception: ' . $e->getMessage();\n}"

  /** The whole program: the fixed beginning, one request, the fixed end. */
  function ParseProgram(t: string): Option<Request> {
    if HEAD <= t then ParseArguments(t[|HEAD|..], TAIL) else None
  }

  // ---- Exactness ----

  lemma LineRegroup(h: (string, string), rest: string)
    ensures HeaderLine(h) + rest == KeyedText("\n\t\t\t", h.0, h.1, "," + rest)
  {
    assert "\n\t\t\t'" == "\n\t\t\t" + "'" && "' => '" == "'" + (" => " + "'") && "'," == "'" + ",";
    KeyedRegroup("\n\t\t\t", h.0, Escape(h.1, '\''), rest);
  }

  lemma KeyedRegroup(lead: string, key: string, shown: string, rest: string)
    ensures (lead + "'") + key + ("'" + (" => " + "'")) + shown + ("'" + ",") + rest
            == lead + ("'" + (key + "'" + (" => " + ("'" + (shown + "'" + ("," + rest))))))
  {
  }

  lemma {:induction false} HeadersExact(hs: Pairs, tail: string)
    ensures var p := ParseEntries(HeaderLines(hs) + ("\n\t\t]" + tail));
            && (Yields(p, HeaderEntries(hs)) <==> HeadersSafe(hs))
            && (HeadersSafe(hs) ==> p == Got(HeaderEntries(hs), tail))
  {
    if hs == [] {
      assert "" + ("\n\t\t]" + tail) == "\n\t\t" + ("]" + tail);
      EntriesEnd("\n\t\t", tail);
    } else {
      var rest := HeaderLines(hs[1..]) + ("\n\t\t]" + tail);
      var t := HeaderLine(hs[0]) + rest;
      assert HeaderLines(hs) + ("\n\t\t]" + tail) == t;
      LineRegroup(hs[0], rest);
      KeyedExact("\n\t\t\t", hs[0].0, hs[0].1, "," + rest);
      KeyedStart("\n\t\t\t", hs[0].0, hs[0].1, "," + rest);
      EntriesStep(t, Entry(Some(hs[0].0), Text(hs[0].1)), HeaderEntries(hs[1..]), rest);
      HeadersExact(hs[1..], tail);
    }
  }

  lemma KeyedStart(lead: string, key: string, value: string, rest: string)
    requires AllBlank(lead)
    ensures Skip(KeyedText(lead, key, value, rest)) != "" && Skip(KeyedText(lead, key, value, rest))[0] == '\''
  {
    SkipOver(lead, "'" + (key + "'" + (" => " + ("'" + (Escape(value, '\'') + "'" + rest)))));
  }

  lemma HeadersRegroup(lines: string, rest: string)
    ensures "\n\t\t'headers' => [" + lines + "\n\t\t]" + rest
            == "\n\t\t" + ("'" + ("headers" + "'" + (" => " + ("[" + (lines + ("\n\t\t]" + rest))))))
  {
    assert "\n\t\t'headers' => [" == "\n\t\t" + ("'" + ("headers" + "'" + (" => " + "[")));
  }

  lemma BracketRead(inner: string)
    ensures ParseValue(" [" + inner).Got? <==> ParseEntries(inner).Got?
    ensures ParseEntries(inner).Got? ==>
              ParseValue(" [" + inner) == Got(Array(ParseEntries(inner).value), ParseEntries(inner).rest)
  {
    assert (" [" + inner)[1..] == "[" + inner && ("[" + inner)[1..] == inner;
    assert Skip("[" + inner) == "[" + inner && Skip(" [" + inner) == "[" + inner;
  }

  lemma HeadersEntryExact(hs: Pairs, rest: string)
    ensures var t := HeadersText(hs) + rest; var p := ParseEntry(t);
            && Skip(t) != "" && Skip(t)[0] == '\''
            && (Yields(p, HeadersEntry(hs)) <==> HeadersSafe(hs))
            && (HeadersSafe(hs) ==> p == Got(HeadersEntry(hs), rest))
  {
    var inner := HeaderLines(hs) + ("\n\t\t]" + rest);
    HeadersRegroup(HeaderLines(hs), rest);
    TextExact("\n\t\t", "headers", false, " => " + ("[" + inner));
    SkipOver("\n\t\t", "'" + ("headers" + "'" + (" => " + ("[" + inner))));
    ArrowFollows("[" + inner);
    assert " " + ("[" + inner) == " [" + inner;
    BracketRead(inner);
    HeadersExact(hs, rest);
  }

  lemma BodyEntryExact(body: string, rest: string)
    ensures var t := BodyText(body) + rest; var p := ParseEntry(t);
            && Skip(t) != "" && Skip(t)[0] == '\''
            && (Yields(p, BodyEntry(body)) <==> Safe(body, true))
            && (Safe(body, true) ==> p == Got(BodyEntry(body), "," + rest))
  {
    assert "\n\t\t'body' => '" == ("\n\t\t" + "'") + "body" + ("'" + (" => " + "'")) && "'," == "'" + ",";
    KeyedRegroup("\n\t\t", "body", Escape(body, '\''), rest);
    KeyedExact("\n\t\t", "body", body, "," + rest);
    KeyedStart("\n\t\t", "body", body, "," + rest);
  }

  /** An array of one entry without a comma behind it. */
  lemma LastEntry(t: string, e: Entry, tail: string)
    requires Skip(t) != "" && Skip(t)[0] != ']'
    requires ParseEntry(t).Got? && ParseEntry(t).value == e ==> ParseEntry(t).rest == "\n\t" + ("]" + tail)
    ensures Yields(ParseEntries(t), [e]) <==> Yields(ParseEntry(t), e)
    ensures Yields(ParseEntry(t), e) ==> ParseEntries(t) == Got([e], tail)
  {
    SkipOver("\n\t", "]" + tail);
    assert ("]" + tail)[1..] == tail;
    if ParseEntries(t).Got? && ParseEntry(t).Got? && ParseEntry(t).value != e {
      assert ParseEntries(t).value[0] != e;
    }
  }

  /** What is printed between the brackets of the third argument, and what follows it. */
  function EntriesText(headers: Option<Pairs>, body: Option<string>, tail: string): string {
    var end := "\n\t" + ("]" + tail);
    match (headers, body)
    case (None, None) => end
    case (Some(hs), None) => HeadersText(hs) + end
    case (None, Some(b)) => BodyText(b) + end
    case (Some(hs), Some(b)) => HeadersText(hs) + ("," + (BodyText(b) + end))
  }

  lemma HeadersOnly(hs: Pairs, tail: string)
    ensures var p := ParseEntries(HeadersText(hs) + ("\n\t" + ("]" + tail)));
            && (Yields(p, [HeadersEntry(hs)]) <==> HeadersSafe(hs))
            && (HeadersSafe(hs) ==> p == Got([HeadersEntry(hs)], tail))
  {
    HeadersEntryExact(hs, "\n\t" + ("]" + tail));
    LastEntry(HeadersText(hs) + ("\n\t" + ("]" + tail)), HeadersEntry(hs), tail);
  }

  lemma BodyOnly(body: string, tail: string)
    ensures var p := ParseEntries(BodyText(body) + ("\n\t" + ("]" + tail)));
            && (Yields(p, [BodyEntry(body)]) <==> Safe(body, true))
            && (Safe(body, true) ==> p == Got([BodyEntry(body)], tail))
  {
    var end := "\n\t" + ("]" + tail);
    EntriesEnd("\n\t", tail);
    BodyEntryExact(body, end);
    EntriesStep(BodyText(body) + end, BodyEntry(body), [], end);
    assert [BodyEntry(body)] + [] == [BodyEntry(body)];
  }

  lemma HeadersAndBody(hs: Pairs, body: string, tail: string)
    ensures var p := ParseEntries(HeadersText(hs) + ("," + (BodyText(body) + ("\n\t" + ("]" + tail)))));
            && (Yields(p, [HeadersEntry(hs), BodyEntry(body)]) <==> HeadersSafe(hs) && Safe(body, true))
            && (HeadersSafe(hs) && Safe(body, true) ==> p == Got([HeadersEntry(hs), BodyEntry(body)], tail))
  {
    var u := BodyText(body) + ("\n\t" + ("]" + tail));
    BodyOnly(body, tail);
    HeadersEntryExact(hs, "," + u);
    EntriesStep(HeadersText(hs) + ("," + u), HeadersEntry(hs), [BodyEntry(body)], u);
    assert [HeadersEntry(hs)] + [BodyEntry(body)] == [HeadersEntry(hs), BodyEntry(body)];
  }

  lemma OptionEntriesExact(headers: Option<Pairs>, body: Option<string>, tail: string)
    requires headers.Some? || body.Some?
    ensures var p := ParseEntries(EntriesText(headers, body, tail)); var o := Options(headers, body).value.entries;
            && (Yields(p, o) <==> OptionsSafe(headers, body))
            && (OptionsSafe(headers, body) ==> p == Got(o, tail))
  {
    var o := Options(headers, body).value.entries;
    if headers.Some? && body.Some? {
      assert o == [HeadersEntry(headers.value), BodyEntry(body.value)];
      HeadersAndBody(headers.value, body.value, tail);
    } else if headers.Some? {
      assert o == [HeadersEntry(headers.value)];
      HeadersOnly(headers.value, tail);
    } else {
      assert o == [BodyEntry(body.value)];
      BodyOnly(body.value, tail);
    }
  }

  lemma OptionsRegroup(headers: Option<Pairs>, body: Option<string>, tail: string)
    requires headers.Some? || body.Some?
    ensures OptionsText(headers, body) + tail == "" + "," + (" [" + EntriesText(headers, body, tail))
  {
    assert ", [" == "" + "," + " [" && "\n\t]" == "\n\t" + "]";
    if headers.Some? && body.Some? {
      BothRegroup(HeadersText(headers.value), BodyText(body.value), tail);
    } else if headers.Some? {
      OneRegroup(HeadersText(headers.value), tail);
    } else {
      OneRegroup(BodyText(body.value), tail);
    }
  }

  lemma OneRegroup(a: string, tail: string)
    ensures ("" + "," + " [") + a + ("\n\t" + "]") + tail == "" + "," + (" [" + (a + ("\n\t" + ("]" + tail))))
  {
  }

  lemma BothRegroup(a: string, b: string, tail: string)
    ensures ("" + "," + " [") + a + "," + b + ("\n\t" + "]") + tail
            == "" + "," + (" [" + (a + ("," + (b + ("\n\t" + ("]" + tail))))))
  {
  }

  lemma EndsHere(epilogue: string)
    ensures Ends(");" + epilogue, epilogue)
  {
    AfterWord("", ")", ";" + epilogue);
    AfterWord("", ";", epilogue);
    assert "" + ")" + (";" + epilogue) == ");" + epilogue && "" + ";" + epilogue == ";" + epilogue;
  }

  lemma OptionsExact(headers: Option<Pairs>, body: Option<string>, epilogue: string)
    ensures var p := ParseOptions(OptionsText(headers, body) + (");" + epilogue), epilogue);
            Yields(p, Options(headers, body)) <==> OptionsSafe(headers, body)
  {
    var tail := ");" + epilogue;
    EndsHere(epilogue);
    if headers == None && body == None {
      assert "" + tail == tail;
      OtherWord("", tail, ",");
    } else {
      var inner := EntriesText(headers, body, tail);
      OptionsRegroup(headers, body, tail);
      AfterWord("", ",", " [" + inner);
      BracketRead(inner);
      OptionEntriesExact(headers, body, tail);
    }
  }

  lemma ArgumentsExact(verb: string, address: string, headers: Option<Pairs>, body: Option<string>, epilogue: string)
    ensures ParseArguments(ArgumentsText(verb, address, headers, body) + epilogue, epilogue)
              == Some(Request(verb, address, Options(headers, body)))
            <==> Safe(verb, false) && Safe(address, false) && OptionsSafe(headers, body)
  {
    var rest := OptionsText(headers, body) + (");" + epilogue);
    var second := "'" + (address + "'" + rest);
    ArgumentsRegroup(verb, address, OptionsText(headers, body), epilogue);
    TextExact("", verb, false, ", " + second);
    if Safe(verb, false) {
      assert ", " + second == "" + "," + (" " + second);
      AfterWord("", ",", " " + second);
      TextExact(" ", address, false, rest);
      OptionsExact(headers, body, epilogue);
    }
  }

  lemma ArgumentsRegroup(verb: string, address: string, options: string, epilogue: string)
    ensures "'" + verb + "', '" + address + "'" + options + ");" + epilogue
            == "" + ("'" + (verb + "'" + (", " + ("'" + (address + "'" + (options + (");" + epilogue)))))))
  {
    assert "', '" == "'" + (", " + "'");
  }

  /**
   The printed program is one well-formed request whose method, address, headers (in order) and body
   are the given ones, for each presence of headers and body, iff the unescaped parts survive as they
   are and the escaped ones survive escaped.
   */
  lemma GuzzleExact(verb: string, address: string, headers: Option<Pairs>, body: Option<string>)
    ensures ParseProgram(GuzzleText(verb, address, headers, body))
            == Some(Request(verb, address, Options(headers, body)))
            <==> Safe(verb, false) && Safe(address, false) && OptionsSafe(headers, body)
  {
    var prologue, arguments := IMPORTS + TRY + REQUEST, ArgumentsText(verb, address, headers, body);
    assert prologue == HEAD && EPILOGUE == TAIL;
    PrefixCut(prologue, arguments, EPILOGUE);
    ArgumentsExact(verb, address, headers, body, EPILOGUE);
  }

  lemma PrefixCut(a: string, b: string, c: string)
    ensures a <= a + b + c && (a + b + c)[|a|..] == b + c
  {
  }

  // ---- Printing ----

  /** One line per header, added to the text so far. */
  method PrintHeaders(start: string, header: Pairs) returns (template: string)
    ensures template == start + HeadersText(header)
  {
    template := start + "\n\t\t'headers' => [";
    ghost var before := template;
    for k := 0 to |header|
      invariant template == before + HeaderLines(header[..k])
    {
      var h := header[k];
      var value := Escape(h.1, '\'');
      PrintAppend(header[..k], h, HeaderLine);
      assert header[..k + 1] == header[..k] + [h];
      Associative(before, HeaderLines(header[..k]), HeaderLine(h));
      template := template + ("\n\t\t\t'" + h.0 + "' => '" + value + "',");
    }
    assert header[..|header|] == header;
    template := template + "\n\t\t]";
  }

  /** The same before its closing bracket. */
  function OptionsOpen(headers: Option<Pairs>, body: Option<string>): string {
    match (headers, body)
    case (None, None) => ""
    case (Some(hs), None) => ", [" + HeadersText(hs)
    case (None, Some(b)) => ", [" + BodyText(b)
    case (Some(hs), Some(b)) => ", [" + HeadersText(hs) + "," + BodyText(b)
  }

  lemma BodyAdded(start: string, headers: Option<Pairs>, body: string)
    ensures start + OptionsOpen(headers, None) + (if headers.Some? then "," else ", [") + BodyText(body)
            == start + OptionsOpen(headers, Some(body))
  {
    if headers.Some? {
      Associative(start, ", [" + HeadersText(headers.value), ",");
      Associative(start, ", [" + HeadersText(headers.value) + ",", BodyText(body));
    } else {
      assert start + "" == start;
      Associative(start, ", [", BodyText(body));
    }
  }

  lemma OptionsClosed(start: string, headers: Option<Pairs>, body: Option<string>)
    requires headers.Some? || body.Some?
    ensures start + OptionsOpen(headers, body) + "\n\t]" == start + OptionsText(headers, body)
  {
    Associative(start, OptionsOpen(headers, body), "\n\t]");
  }

  /** The third argument under the `config` flag. */
  method PrintOptions(start: string, header: Option<Pairs>, body: Option<string>) returns (template: string)
    ensures template == start + OptionsText(header, if Present(body) then body else None)
  {
    template := start;
    ghost var given := if Present(body) then body else None;
    var config := false;
    if header.Some? {
      template := template + (if config then "," else ", [");
      config := true;
      template := PrintHeaders(template, header.value);
      Associative(start, ", [", HeadersText(header.value));
    }
    assert template == start + OptionsOpen(header, None) && config == header.Some?;

    if Present(body) {
      BodyAdded(start, header, body.value);
      template := template + (if config then "," else ", [");
      template := template + ("\n\t\t'body' => '" + Escape(body.value, '\'') + "',");
      config := true;
    }
    assert template == start + OptionsOpen(header, given) && (config <==> header.Some? || given.Some?);

    if config {
      OptionsClosed(start, header, given);
      template := template + "\n\t]";
    }
  }

  /** Each pair as an entry whose key is the name and whose value is a text, in the same order. */
  function AsEntries(hs: Pairs): (entries: seq<Entry>)
    ensures |entries| == |hs| && forall i | 0 <= i < |hs| :: entries[i] == Entry(Some(hs[i].0), Text(hs[i].1))
  {
    seq(|hs|, i requires 0 <= i < |hs| => Entry(Some(hs[i].0), Text(hs[i].1)))
  }

  lemma {:induction false} HeaderEntriesAre(hs: Pairs)
    ensures HeaderEntries(hs) == AsEntries(hs)
  {
    if hs != [] { HeaderEntriesAre(hs[1..]); }
  }

  lemma ReadsBackIff(verb: string, address: string, headers: Option<Pairs>, body: Option<string>)
    ensures var entries :=
              (if headers.Some? then [Entry(Some("headers"), Array(AsEntries(headers.value)))] else [])
              + (if body.Some? then [Entry(Some("body"), Text(body.value))] else []);
            ParseProgram(GuzzleText(verb, address, headers, body))
            == Some(Request(verb, address, if entries == [] then None else Some(Array(entries)))) <==>
              && Safe(verb, false) && Safe(address, false)
              && (headers.Some? ==> forall h | h in headers.value :: Safe(h.0, false) && Safe(h.1, true))
              && (body.Some? ==> Safe(body.value, true))
  {
    GuzzleExact(verb, address, headers, body);
    if headers.Some? { HeaderEntriesAre(headers.value); }
  }

  /** The program for an address that is present, and no text for one that is not. */
  method PrintProgram(url: Option<string>, verb: Option<string>, header: Option<Pairs>, body: Option<string>,
                      encodeUri: string -> string, upper: string -> string)
    returns (template: string)
    ensures template == if Present(url) then
                          GuzzleText(if Present(verb) then upper(verb.value) else "GET", encodeUri(url.value), header,
                                     if Present(body) then body else None)
                        else ""
  {
    template := IMPORTS;
    if !Present(url) { return ""; }
    var address := encodeUri(url.value);
    template := template + TRY;
    ghost var v := if Present(verb) then upper(verb.value) else "GET";
    if Present(verb) {
      template := template + (REQUEST + "'" + upper(verb.value) + "', '" + address + "'");
    } else {
      template := template + (REQUEST + "'GET', '" + address + "'");
      DefaultVerb(REQUEST, address);
    }
    template := PrintOptions(template, header, body);
    template := template + (");" + EPILOGUE);
    TextRegroup(IMPORTS + TRY, REQUEST, v, address, OptionsText(header, if Present(body) then body else None),
        EPILOGUE);
  }

  lemma DefaultVerb(request: string, address: string)
    ensures request + "'GET', '" + address + "'" == request + "'" + "GET" + "', '" + address + "'"
  {
    assert request + "'GET', '" == request + "'" + "GET" + "', '";
  }

  lemma TextRegroup(a: string, request: string, verb: string, address: string, options: string, epilogue: string)
    ensures a + (request + "'" + verb + "', '" + address + "'") + options + (");" + epilogue)
            == a + request + ("'" + verb + "', '" + address + "'" + options + ");") + epilogue
  {
  }

  /**
   The converter. An absent address prints nothing; an absent method stands for GET. The program reads back as
   one request with the given parts exactly when each of them survives its literal.
   */
  method ToPhpGuzzle(url: Option<string>, verb: Option<string>, header: Option<Pairs>, body: Option<string>,
                     encodeUri: string -> string, upper: string -> string)
    returns (template: string)
    ensures url == None || url == Some("") ==> template == ""
    ensures url.Some? && url.value != "" ==>
              var v := if verb == None || verb == Some("") then "GET" else upper(verb.value);
              var address := encodeUri(url.value);
              var entries :=
                (if header.Some? then [Entry(Some("headers"), Array(AsEntries(header.value)))] else [])
                + (if body.Some? && body.value != "" then [Entry(Some("body"), Text(body.value))] else []);
              ParseProgram(template)
              == Some(Request(v, address, if entries == [] then None else Some(Array(entries)))) <==>
                && Safe(v, false) && Safe(address, false)
                && (header.Some? ==> forall h | h in header.value :: Safe(h.0, false) && Safe(h.1, true))
                && (body.Some? && body.value != "" ==> Safe(body.value, true))
  {
    template := PrintProgram(url, verb, header, body, encodeUri, upper);
    if Present(url) {
      ReadsBackIff(if Present(verb) then upper(verb.value) else "GET", encodeUri(url.value), header,
                   if Present(body) then body else None);
    }
  }
}
