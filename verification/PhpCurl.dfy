/**
 The PHP cURL converter. Its header lines put an unescaped name and an escaped value into one
 literal, so the condition for reading them back is about the two together.
 */
module PhpCurl {
  import opened Prelude
  import opened Literals
  import opened Reading
  import opened PhpArrays

  // ---- What is printed ----

  const START := "<?php\n$ch = curl_init();"

  const MIDDLE :=
    "\n    \n// If you want to retrieve the request headers.\n"
    + "// curl_setopt($ch, CURLOPT_HEADER, true);\n\ncurl_setopt($ch, CURLOPT_RETURNTRANSFER, true);"

  const EPILOGUE := "\n$response = curl_exec($ch);" + AFTERWARDS

  const AFTERWARDS :=
    "\n\n//if ($error = curl_error($ch)) {\n//  die($error);\n//}\n\necho $response;\n\n"
    + "// Get the HTTP status code.\n//$code = curl_getinfo($ch, CURLINFO_HTTP_CODE);\n"
    + "//echo $code;\n\n// Get request headers.\n"
    + "//$headerSize = curl_getinfo($ch, CURLINFO_HEADER_SIZE);\n"
    + "//$header = substr($response, 0, $headerSize);\n//echo $header;\n\ncurl_close($ch);"

  const SET := "\ncurl_setopt($ch, CURLOPT_"

  function HeaderLine(h: (string, string)): string { "\n\t'" + h.0 + ": " + Escape(h.1, '\'') + "'," }

  function HeaderLines(hs: Pairs): string { PrintAll(hs, HeaderLine) }

  function HeadersText(hs: Pairs): string { "[" + HeaderLines(hs) + "\n]" }

  function Setting(name: string, value: string): string { SET + name + ", " + value + ");" }

  function Quoted(v: string, escaped: bool): string { "'" + Shown(v, escaped) + "'" }

  datatype Call = Call(address: string, verb: Option<string>, headers: Option<Pairs>, body: Option<string>)

  function VerbText(c: Call): string {
    if c.verb.Some? then Setting("CUSTOMREQUEST", Quoted(c.verb.value, false)) else ""
  }

  function HeaderText(c: Call): string {
    if c.headers.Some? then Setting("HTTPHEADER", HeadersText(c.headers.value)) else ""
  }

  function BodyText(c: Call): string {
    if c.body.Some? then Setting("POSTFIELDS", Quoted(c.body.value, true)) else ""
  }

  function CurlText(c: Call): string {
    START + Setting("URL", Quoted(c.address, false)) + MIDDLE + VerbText(c) + HeaderText(c) + BodyText(c) + EPILOGUE
  }

  // ---- What it stands for ----

  function HeaderEntries(hs: Pairs): seq<Entry> {
    if hs == [] then [] else [Entry(None, Text(hs[0].0 + ": " + hs[0].1))] + HeaderEntries(hs[1..])
  }

  /** The values of the four settings that carry data. */
  datatype Settings = Settings(address: Option<Php>, verb: Option<Php>, headers: Option<Php>, body: Option<Php>)

  function Meaning(c: Call): Settings {
    Settings(Some(Text(c.address)), if c.verb.Some? then Some(Text(c.verb.value)) else None,
             if c.headers.Some? then Some(Array(HeaderEntries(c.headers.value))) else None,
             if c.body.Some? then Some(Text(c.body.value)) else None)
  }

  predicate HeaderSafe(h: (string, string)) { '\'' !in h.0 && PhpSafe(h.0 + ": " + h.1) }

  predicate HeadersSafe(hs: Pairs) { forall h | h in hs :: HeaderSafe(h) }

  predicate CallSafe(c: Call) {
    && Safe(c.address, false)
    && (c.verb.Some? ==> Safe(c.verb.value, false))
    && (c.headers.Some? ==> HeadersSafe(c.headers.value))
    && (c.body.Some? ==> Safe(c.body.value, true))
  }

  // ---- Reading ----

  function Strip(t: string, word: string): Option<string> {
    if word <= t then Some(t[|word|..]) else None
  }

  /** The value of the named setting when the text starts with one, and what follows the statement. */
  function ParseSetting(t: string, name: string): Parsed<Option<Php>> {
    match Strip(t, "\ncurl_setopt($ch, CURLOPT_" + name + ", ")
    case None => Got(None, t)
    case Some(t1) =>
      match ParseValue(t1)
      case Fail => Fail
      case Got(value, t2) =>
        match Strip(t2, ");")
        case None => Fail
        case Some(t3) => Got(Some(value), t3)
  }

  /** Method, headers and body, each optional, then exactly the given text. */
  function ParseBody(t: string, address: Option<Php>, verb: Option<Php>, headers: Option<Php>, end: string)
    : (r: Option<Settings>)
    ensures r.Some? ==> r.value.address == address && r.value.verb == verb && r.value.headers == headers
  {
    match ParseSetting(t, "POSTFIELDS")
    case Fail => None
    case Got(body, rest) => if rest == end then Some(Settings(address, verb, headers, body)) else None
  }

  function ParseHeaders(t: string, address: Option<Php>, verb: Option<Php>, end: string): (r: Option<Settings>)
    ensures r.Some? ==> r.value.address == address && r.value.verb == verb
  {
    match ParseSetting(t, "HTTPHEADER")
    case Fail => None
    case Got(headers, rest) => ParseBody(rest, address, verb, headers, end)
  }

  function ParseVerb(t: string, address: Option<Php>, end: string): (r: Option<Settings>)
    ensures r.Some? ==> r.value.address == address
  {
    match ParseSetting(t, "CUSTOMREQUEST")
    case Fail => None
    case Got(verb, rest) => ParseHeaders(rest, address, verb, end)
  }

  function ParseAddress(t: string, middle: string, end: string): Option<Settings> {
    match ParseSetting(t, "URL")
    case Fail => None
    case Got(address, rest) =>
      match Strip(rest, middle)
      case None => None
      case Some(t1) => ParseVerb(t1, address, end)
  }

  /** The fixed text between the address and the settings that may be missing, and behind all settings. */
  const BETWEEN :=
    "\n    \n// If you want to retrieve the request headers.\n"
    + "// curl_setopt($ch, CURLOPT_HEADER, true);\n\ncurl_setopt($ch, CURLOPT_RETURNTRANSFER, true);"

  const TAIL := "\n$response = curl_exec($ch);" + BEHIND

  const BEHIND :=
    "\n\n//if ($error = curl_error($ch)) {\n//  die($error);\n//}\n\necho $response;\n\n"
    + "// Get the HTTP status code.\n//$code = curl_getinfo($ch, CURLINFO_HTTP_CODE);\n"
    + "//echo $code;\n\n// Get request headers.\n"
    + "//$headerSize = curl_getinfo($ch, CURLINFO_HEADER_SIZE);\n"
    + "//$header = substr($response, 0, $headerSize);\n//echo $header;\n\ncurl_close($ch);"

  function ParseProgram(t: string): Option<Settings> {
    match Strip(t, "<?php\n$ch = curl_init();")
    case None => None
    case Some(t1) => ParseAddress(t1, BETWEEN, TAIL)
  }

  // ---- Literals and header lines ----

  /** An unescaped name and an escaped value in one literal. */
  lemma HeaderLiteralExact(name: string, value: string, rest: string)
    ensures var lit := ReadPhp(name + (": " + (Escape(value, '\'') + ("'" + rest))));
            && (lit.Lit? && lit.value == name + ": " + value <==> HeaderSafe((name, value)))
            && (HeaderSafe((name, value)) ==> lit == Lit(name + ": " + value, rest))
  {
    var more := ": " + (Escape(value, '\'') + ("'" + rest));
    var full := name + ": " + value;
    if '\'' in name {
      PhpRawQuoteBreaks(name, more, 0);
      assert Backslashes(0) + name == name && name <= full;
    } else {
      EscapeFree(name + ": ", '\'');
      EscapeConcat(name + ": ", value, '\'');
      assert PhpText(full, rest) == name + more;
      PhpExact(full, rest);
    }
  }

  lemma LineEntryExact(h: (string, string), rest: string)
    ensures var t := HeaderLine(h) + rest; var p := ParseEntry(t); var e := Entry(None, Text(h.0 + ": " + h.1));
            && Skip(t) != "" && Skip(t)[0] == '\''
            && (Yields(p, e) <==> HeaderSafe(h))
            && (HeaderSafe(h) ==> p == Got(e, "," + rest))
  {
    var literal := h.0 + (": " + (Escape(h.1, '\'') + ("'" + ("," + rest))));
    assert "\n\t'" == "\n\t" + "'" && "'," == "'" + ",";
    LineRegroup("\n\t", h.0, Escape(h.1, '\''), rest);
    SkipOver("\n\t", "'" + literal);
    assert ("'" + literal)[1..] == literal;
    HeaderLiteralExact(h.0, h.1, "," + rest);
    if HeaderSafe(h) {
      OtherWord("", "," + rest, "=>");
      assert "" + ("," + rest) == "," + rest;
    }
  }

  lemma LineRegroup(lead: string, name: string, shown: string, rest: string)
    ensures (lead + "'") + name + ": " + shown + ("'" + ",") + rest
            == lead + ("'" + (name + (": " + (shown + ("'" + ("," + rest))))))
  {
  }

  lemma {:induction false} LinesExact(hs: Pairs, tail: string)
    ensures var p := ParseEntries(HeaderLines(hs) + ("\n]" + tail));
            && (Yields(p, HeaderEntries(hs)) <==> HeadersSafe(hs))
            && (HeadersSafe(hs) ==> p == Got(HeaderEntries(hs), tail))
  {
    if hs == [] {
      assert "" + ("\n]" + tail) == "\n" + ("]" + tail);
      EntriesEnd("\n", tail);
    } else {
      var rest := HeaderLines(hs[1..]) + ("\n]" + tail);
      assert HeaderLines(hs) + ("\n]" + tail) == HeaderLine(hs[0]) + rest;
      LineEntryExact(hs[0], rest);
      EntriesStep(HeaderLine(hs[0]) + rest, Entry(None, Text(hs[0].0 + ": " + hs[0].1)), HeaderEntries(hs[1..]), rest);
      LinesExact(hs[1..], tail);
    }
  }

  lemma ListExact(hs: Pairs, rest: string)
    ensures var p := ParseValue(HeadersText(hs) + rest);
            && (Yields(p, Array(HeaderEntries(hs))) <==> HeadersSafe(hs))
            && (HeadersSafe(hs) ==> p == Got(Array(HeaderEntries(hs)), rest))
  {
    var inner := HeaderLines(hs) + ("\n]" + rest);
    assert HeadersText(hs) + rest == "[" + inner;
    assert ("[" + inner)[1..] == inner && Skip("[" + inner) == "[" + inner;
    LinesExact(hs, rest);
  }

  // ---- Settings ----

  /** A printed setting is read as its value exactly when the value is. */
  lemma SettingExact(name: string, text: string, value: Php, good: bool, rest: string)
    requires var p := ParseValue(text + (");" + rest));
             (Yields(p, value) <==> good) && (good ==> p == Got(value, ");" + rest))
    ensures var p := ParseSetting(Setting(name, text) + rest, name);
            && (Yields(p, Some(value)) <==> good)
            && (good ==> p == Got(Some(value), rest))
  {
    var t := text + (");" + rest);
    assert Setting(name, text) + rest == SET + name + ", " + t by { SettingRegroup(SET, name, text, rest); }
    StripWord(SET + name + ", ", t);
    StripWord(");", rest);
  }

  lemma SettingRegroup(statement: string, name: string, text: string, rest: string)
    ensures statement + name + ", " + text + ");" + rest == statement + name + ", " + (text + (");" + rest))
  {
  }

  lemma StripWord(word: string, t: string)
    ensures Strip(word + t, word) == Some(t)
  {
  }

  lemma QuotedExact(v: string, escaped: bool, rest: string)
    ensures var p := ParseValue(Quoted(v, escaped) + rest);
            (Yields(p, Text(v)) <==> Safe(v, escaped)) && (Safe(v, escaped) ==> p == Got(Text(v), rest))
  {
    assert Quoted(v, escaped) + rest == "" + ("'" + (Shown(v, escaped) + "'" + rest));
    TextExact("", v, escaped, rest);
  }

  /** Text that does not start with a setting whose name begins with c. */
  predicate NotSetting(t: string, c: char) {
    (|t| > 1 && t[1] != 'c') || (|t| > |SET| && t[|SET|] != c)
  }

  lemma AbsentSetting(t: string, name: string)
    requires name != "" && NotSetting(t, name[0])
    ensures ParseSetting(t, name) == Got(None, t)
  {
    var word := SET + name + ", ";
    assert word[1] == 'c' && word[|SET|] == name[0];
  }

  lemma SettingStarts(name: string, value: string, rest: string)
    requires name != ""
    ensures var t := Setting(name, value) + rest; |t| > |SET| && t[|SET|] == name[0]
  {
  }

  // ---- The whole program ----

  lemma BodyExact(c: Call, address: Option<Php>, verb: Option<Php>, headers: Option<Php>, end: string)
    requires |end| > 1 && end[1] != 'c'
    ensures ParseBody(BodyText(c) + end, address, verb, headers, end)
            == Some(Settings(address, verb, headers, Meaning(c).body))
            <==> (c.body.Some? ==> Safe(c.body.value, true))
    ensures NotSetting(BodyText(c) + end, 'H') && NotSetting(BodyText(c) + end, 'C')
  {
    if c.body.Some? {
      var v := c.body.value;
      QuotedExact(v, true, ");" + end);
      SettingExact("POSTFIELDS", Quoted(v, true), Text(v), Safe(v, true), end);
      SettingStarts("POSTFIELDS", Quoted(v, true), end);
    } else {
      assert "" + end == end;
      AbsentSetting(end, "POSTFIELDS");
    }
  }

  lemma HeadersExact(c: Call, address: Option<Php>, verb: Option<Php>, end: string)
    requires |end| > 1 && end[1] != 'c'
    ensures var t := HeaderText(c) + (BodyText(c) + end);
            && (ParseHeaders(t, address, verb, end)
                == Some(Settings(address, verb, Meaning(c).headers, Meaning(c).body))
                <==> (c.headers.Some? ==> HeadersSafe(c.headers.value)) && (c.body.Some? ==> Safe(c.body.value, true)))
            && NotSetting(t, 'C')
  {
    var b := BodyText(c) + end;
    BodyExact(c, address, verb, Meaning(c).headers, end);
    if c.headers.Some? {
      var hs := c.headers.value;
      ListExact(hs, ");" + b);
      SettingExact("HTTPHEADER", HeadersText(hs), Array(HeaderEntries(hs)), HeadersSafe(hs), b);
      SettingStarts("HTTPHEADER", HeadersText(hs), b);
    } else {
      assert "" + b == b;
      AbsentSetting(b, "HTTPHEADER");
    }
  }

  lemma VerbExact(c: Call, address: Option<Php>, end: string)
    requires |end| > 1 && end[1] != 'c'
    ensures ParseVerb(VerbText(c) + (HeaderText(c) + (BodyText(c) + end)), address, end)
            == Some(Meaning(c).(address := address))
            <==> (c.verb.Some? ==> Safe(c.verb.value, false)) && (c.headers.Some? ==> HeadersSafe(c.headers.value))
                 && (c.body.Some? ==> Safe(c.body.value, true))
  {
    var h := HeaderText(c) + (BodyText(c) + end);
    HeadersExact(c, address, Meaning(c).verb, end);
    if c.verb.Some? {
      var v := c.verb.value;
      QuotedExact(v, false, ");" + h);
      SettingExact("CUSTOMREQUEST", Quoted(v, false), Text(v), Safe(v, false), h);
    } else {
      assert "" + h == h;
      AbsentSetting(h, "CUSTOMREQUEST");
    }
  }

  lemma AddressExact(c: Call, middle: string, end: string)
    requires |end| > 1 && end[1] != 'c'
    ensures ParseAddress(Setting("URL", Quoted(c.address, false))
            + (middle + (VerbText(c) + (HeaderText(c) + (BodyText(c) + end)))),
                         middle, end) == Some(Meaning(c))
            <==> CallSafe(c)
  {
    var v := VerbText(c) + (HeaderText(c) + (BodyText(c) + end));
    QuotedExact(c.address, false, ");" + (middle + v));
    SettingExact("URL", Quoted(c.address, false), Text(c.address), Safe(c.address, false), middle + v);
    StripWord(middle, v);
    VerbExact(c, Some(Text(c.address)), end);
  }

  /**
   The printed program sets exactly the given address, method, header lines (in order) and body,
   whichever are present, iff each literal survives. A header line is one literal: its name must be
   free of quotes, and name, colon and value together free of harmful backslashes.
   */
  lemma CurlExact(c: Call)
    ensures ParseProgram(CurlText(c)) == Some(Meaning(c)) <==> CallSafe(c)
  {
    var url := Setting("URL", Quoted(c.address, false));
    ProgramRegroup(START, url, MIDDLE, VerbText(c), HeaderText(c), BodyText(c), EPILOGUE);
    StripWord(START, url + (MIDDLE + (VerbText(c) + (HeaderText(c) + (BodyText(c) + EPILOGUE)))));
    assert EPILOGUE == TAIL && MIDDLE == BETWEEN;
    assert EPILOGUE[1] == '$';
    AddressExact(c, MIDDLE, EPILOGUE);
  }

  lemma ProgramRegroup(a: string, b: string, c: string, d: string, e: string, f: string, g: string)
    ensures a + b + c + d + e + f + g == a + (b + (c + (d + (e + (f + g)))))
  {
  }

  // ---- Printing ----

  /** One quoted setting, added to the text so far. */
  method PrintSetting(start: string, name: string, v: string, escaped: bool) returns (template: string)
    ensures template == start + Setting(name, Quoted(v, escaped))
  {
    var value := if escaped then Escape(v, '\'') else v;
    template := start + (SET + name + ", '" + value + "');");
    QuotedRegroup(SET + name, value);
  }

  lemma QuotedRegroup(a: string, v: string)
    ensures a + ", '" + v + "');" == a + ", " + ("'" + v + "'") + ");"
  {
    assert ", '" == ", " + "'" && "');" == "'" + ");";
    assert a + (", " + "'") + v + ("'" + ");") == a + ", " + ("'" + v + "'") + ");";
  }

  method PrintHeaders(start: string, header: Pairs) returns (template: string)
    ensures template == start + Setting("HTTPHEADER", HeadersText(header))
  {
    template := start + (SET + "HTTPHEADER, [");
    ghost var before := template;
    for k := 0 to |header|
      invariant template == before + HeaderLines(header[..k])
    {
      var h := header[k];
      var value := Escape(h.1, '\'');
      PrintAppend(header[..k], h, HeaderLine);
      assert header[..k + 1] == header[..k] + [h];
      Associative(before, HeaderLines(header[..k]), HeaderLine(h));
      template := template + ("\n\t'" + h.0 + ": " + value + "',");
    }
    assert header[..|header|] == header;
    template := template + "\n]);";
    ListRegroup(start, SET, HeaderLines(header));
  }

  lemma ListRegroup(start: string, statement: string, lines: string)
    ensures start + (statement + "HTTPHEADER, [") + lines + "\n]);"
            == start + (statement + "HTTPHEADER" + ", " + ("[" + lines + "\n]") + ");")
  {
    assert "HTTPHEADER, [" == "HTTPHEADER" + (", " + "[") && "\n]);" == "\n]" + ");";
    ListRegroupParts(start, statement, "HTTPHEADER", lines);
  }

  lemma ListRegroupParts(start: string, statement: string, name: string, lines: string)
    ensures start + (statement + (name + (", " + "["))) + lines + ("\n]" + ");")
            == start + (statement + name + ", " + ("[" + lines + "\n]") + ");")
  {
  }

  /** The settings that depend on what is present, added to the text so far. */
  method PrintOptional(start: string, c: Call) returns (template: string)
    ensures template == start + VerbText(c) + HeaderText(c) + BodyText(c)
  {
    template := start;
    if c.verb.Some? {
      template := PrintSetting(template, "CUSTOMREQUEST", c.verb.value, false);
    }
    assert template == start + VerbText(c);
    if c.headers.Some? {
      template := PrintHeaders(template, c.headers.value);
    }
    assert template == start + VerbText(c) + HeaderText(c);
    if c.body.Some? {
      template := PrintSetting(template, "POSTFIELDS", c.body.value, true);
    }
  }

  /** Each pair as a header line, name and value in one text, in the same order. */
  function AsLines(hs: Pairs): (entries: seq<Entry>)
    ensures |entries| == |hs| && forall i | 0 <= i < |hs| :: entries[i] == Entry(None, Text(hs[i].0 + ": " + hs[i].1))
  {
    seq(|hs|, i requires 0 <= i < |hs| => Entry(None, Text(hs[i].0 + ": " + hs[i].1)))
  }

  lemma {:induction false} HeaderEntriesAre(hs: Pairs)
    ensures HeaderEntries(hs) == AsLines(hs)
  {
    if hs != [] { HeaderEntriesAre(hs[1..]); }
  }

  lemma ReadsBackIff(c: Call)
    ensures ParseProgram(CurlText(c))
            == Some(Settings(Some(Text(c.address)), if c.verb.Some? then Some(Text(c.verb.value)) else None,
                             if c.headers.Some? then Some(Array(AsLines(c.headers.value))) else None,
                             if c.body.Some? then Some(Text(c.body.value)) else None)) <==>
              && Safe(c.address, false) && (c.verb.Some? ==> Safe(c.verb.value, false))
              && (c.headers.Some? ==> forall h | h in c.headers.value :: '\'' !in h.0 && PhpSafe(h.0 + ": " + h.1))
              && (c.body.Some? ==> Safe(c.body.value, true))
  {
    CurlExact(c);
    if c.headers.Some? { HeaderEntriesAre(c.headers.value); }
  }

  /** The program for an address that is present, and no text for one that is not. */
  method PrintProgram(url: Option<string>, verb: Option<string>, header: Option<Pairs>, body: Option<string>,
                      encodeUri: string -> string, upper: string -> string)
    returns (template: string)
    ensures !Present(url) ==> template == ""
    ensures Present(url) ==>
              template == CurlText(Call(encodeUri(url.value),
                                        if Present(verb) then Some(upper(verb.value)) else None, header,
                                        if Present(body) then body else None))
  {
    template := START;
    if !Present(url) { return ""; }
    var c := Call(encodeUri(url.value), if Present(verb) then Some(upper(verb.value)) else None, header,
                  if Present(body) then body else None);
    template := PrintSetting(template, "URL", c.address, false);
    template := template + MIDDLE;
    template := PrintOptional(template, c);
    template := template + EPILOGUE;
  }

  /**
   The converter. An absent address prints nothing. The program reads back as the settings of the given parts
   exactly when each of them survives its literal.
   */
  method ToPhpCurl(url: Option<string>, verb: Option<string>, header: Option<Pairs>, body: Option<string>,
                   encodeUri: string -> string, upper: string -> string)
    returns (template: string)
    ensures url == None || url == Some("") ==> template == ""
    ensures url.Some? && url.value != "" ==>
              var given, sent := verb.Some? && verb.value != "", body.Some? && body.value != "";
              ParseProgram(template)
              == Some(Settings(Some(Text(encodeUri(url.value))), if given then Some(Text(upper(verb.value))) else None,
                               if header.Some? then Some(Array(AsLines(header.value))) else None,
                               if sent then Some(Text(body.value)) else None)) <==>
                && Safe(encodeUri(url.value), false) && (given ==> Safe(upper(verb.value), false))
                && (header.Some? ==> forall h | h in header.value :: '\'' !in h.0 && PhpSafe(h.0 + ": " + h.1))
                && (sent ==> Safe(body.value, true))
  {
    template := PrintProgram(url, verb, header, body, encodeUri, upper);
    if Present(url) {
      ReadsBackIff(Call(encodeUri(url.value), if Present(verb) then Some(upper(verb.value)) else None, header,
                        if Present(body) then body else None));
    }
  }
}
