/**
 The curl converter, against a reader that splits a command line into words as section 2.2 of the
 POSIX.1-2017 Shell Command Language does.
 */
module CurlCommand {
  import opened Prelude
  import opened Literals

  // ---- Words of one simple command ----

  /** Operators, quoting and command substitution: outside quotes these never stand for themselves. */
  predicate Breaking(c: char) { c in "|&;<>()`\"\n" }

  /**
   Characters that outside quotes begin an expansion. What it gives depends on the files and variables there
   are. A lax reader takes it that the expansion leaves the word alone, a strict one that it does not.
   */
  predicate Expanding(c: char) { c in "$*?[" }

  /** Characters that mean something anywhere outside quotes, besides blanks, single quotes and backslashes. */
  predicate Special(c: char, lax: bool) { Breaking(c) || (Expanding(c) && !lax) }

  /** Characters that only do so at the start of a word: a comment and a home directory, which is an expansion. */
  predicate StartsSpecial(c: char, lax: bool) { c == '#' || (c == '~' && !lax) }

  predicate PlainChar(c: char, lax: bool) { !Special(c, lax) && c != ' ' && c != '\t' && c != '\'' && c != '\\' }

  /** A word that stands for itself without quotes. */
  predicate PlainText(w: string, lax: bool) {
    w != "" && !StartsSpecial(w[0], lax) && forall i | 0 <= i < |w| :: PlainChar(w[i], lax)
  }

  function Flush(word: Option<string>): seq<string> {
    match word
    case None => []
    case Some(w) => [w]
  }

  function Grow(word: Option<string>, more: string): Option<string> {
    match word
    case None => Some(more)
    case Some(w) => Some(w + more)
  }

  function PutFirst(word: Option<string>, words: Option<seq<string>>): Option<seq<string>> {
    match words
    case None => None
    case Some(ws) => Some(Flush(word) + ws)
  }

  lemma {:induction false} UntilShorter(t: string, q: char)
    ensures ReadUntil(t, q).Lit? ==> |ReadUntil(t, q).rest| < |t|
  {
    if t != "" && t[0] != q { UntilShorter(t[1..], q); }
  }

  /** The words of the text, given the word begun so far; None when it is not one plain command. */
  function Words(t: string, word: Option<string>, lax: bool): Option<seq<string>>
    decreases |t|
  {
    if t == "" then Some(Flush(word))
    else if t[0] == ' ' || t[0] == '\t' then PutFirst(word, Words(t[1..], None, lax))
    else if t[0] == '\\' then
      if |t| == 1 then None
      else if t[1] == '\n' then Words(t[2..], word, lax)
      else Words(t[2..], Grow(word, [t[1]]), lax)
    else if t[0] == '\'' then
      UntilShorter(t[1..], '\'');
      match ReadUntil(t[1..], '\'')
      case Bad => None
      case Lit(value, rest) => Words(rest, Grow(word, value), lax)
    else if Special(t[0], lax) || (word.None? && StartsSpecial(t[0], lax)) then None
    else Words(t[1..], Grow(word, [t[0]]), lax)
  }

  // ---- Reading forward ----

  lemma {:induction false} PlainWord(w: string, rest: string, word: Option<string>, lax: bool)
    requires w != "" && (word.None? ==> !StartsSpecial(w[0], lax)) && forall i | 0 <= i < |w| :: PlainChar(w[i], lax)
    ensures Words(w + rest, word, lax) == Words(rest, Grow(word, w), lax)
    decreases |w|
  {
    assert (w + rest)[0] == w[0] && (w + rest)[1..] == w[1..] + rest;
    if |w| == 1 {
      assert w == [w[0]] && w[1..] + rest == rest;
    } else {
      PlainWord(w[1..], rest, Grow(word, [w[0]]), lax);
      assert [w[0]] + w[1..] == w;
      if word.Some? { assert word.value + [w[0]] + w[1..] == word.value + w; }
    }
  }

  lemma BlankEnds(w: string, rest: string, lax: bool)
    ensures Words(" " + rest, Some(w), lax) == PutFirst(Some(w), Words(rest, None, lax))
    ensures Words(" \\\n" + rest, Some(w), lax) == PutFirst(Some(w), Words(rest, None, lax))
  {
    assert (" " + rest)[1..] == rest;
    assert (" \\\n" + rest)[1..] == "\\\n" + rest && ("\\\n" + rest)[2..] == rest;
  }

  lemma {:induction false} WordGrows(t: string, w: string, lax: bool)
    ensures Words(t, Some(w), lax).Some? ==> |Words(t, Some(w), lax).value| > 0 && w <= Words(t, Some(w), lax).value[0]
    decreases |t|
  {
    if t != "" && t[0] != ' ' && t[0] != '\t' {
      if t[0] == '\\' {
        if |t| > 1 { WordGrows(t[2..], if t[1] == '\n' then w else w + [t[1]], lax); }
      } else if t[0] == '\'' {
        UntilShorter(t[1..], '\'');
        var lit := ReadUntil(t[1..], '\'');
        if lit.Lit? { WordGrows(lit.rest, w + lit.value, lax); }
      } else {
        WordGrows(t[1..], w + [t[0]], lax);
      }
    }
  }

  // ---- A quoted word, exactly ----

  /** The first of the words read is v. */
  predicate StartsWith(words: Option<seq<string>>, v: string) {
    words.Some? && |words.value| > 0 && words.value[0] == v
  }

  lemma QuotedSafe(v: string, rest: string, lax: bool)
    requires '\'' !in v
    ensures Words("'" + (v + "'" + (" \\\n" + rest)), None, lax) == PutFirst(Some(v), Words(rest, None, lax))
  {
    var t := "'" + (v + "'" + (" \\\n" + rest));
    ReadUntilFree(v, " \\\n" + rest, '\'');
    assert t[1..] == v + ['\''] + (" \\\n" + rest);
    BlankEnds(v, rest, lax);
  }

  /** The position of the first quote. */
  function FirstQuote(v: string): (i: nat)
    requires '\'' in v
    ensures i < |v| && v[i] == '\'' && '\'' !in v[..i]
  {
    if v[0] == '\'' then 0 else 1 + FirstQuote(v[1..])
  }

  /** Escaping a quote does not help: the backslash lands in the word. */
  lemma QuotedEscapedBreaks(v: string, rest: string, lax: bool)
    requires '\'' in v
    ensures !StartsWith(Words("'" + (Escape(v, '\'') + "'" + rest), None, lax), v)
  {
    var i := FirstQuote(v);
    var x, y := v[..i], v[i + 1..];
    var t := "'" + (Escape(v, '\'') + "'" + rest);
    var after := Escape(y, '\'') + "'" + rest;
    assert v == x + (['\''] + y);
    EscapeConcat(x, ['\''] + y, '\'');
    EscapeFree(x, '\'');
    EscapedQuote(y);
    BreakRegroup(x, Escape(y, '\''), rest);
    ReadUntilFree(x + "\\", after, '\'');
    assert t[1..] == (x + "\\") + ['\''] + after;
    assert Words(t, None, lax) == Words(after, Some(x + "\\"), lax);
    WordGrows(after, x + "\\", lax);
    assert v[i] == '\'' && (x + "\\")[i] == '\\';
  }

  lemma EscapedQuote(y: string)
    ensures Escape(['\''] + y, '\'') == ['\\', '\''] + Escape(y, '\'')
  {
    assert (['\''] + y)[1..] == y;
  }

  lemma BreakRegroup(x: string, y: string, rest: string)
    ensures x + (['\\', '\''] + y) + "'" + rest == (x + "\\") + ['\''] + (y + "'" + rest)
  {
  }

  /** Quotes, then some character that is not a backslash. */
  predicate LeadsClean(t: string) {
    t != "" && (if t[0] == '\'' then LeadsClean(t[1..]) else t[0] != '\\')
  }

  lemma {:induction false} NoQuoteNext(t: string, w: string, lax: bool)
    requires LeadsClean(t)
    ensures var ws := Words(t, Some(w), lax); ws.Some? ==> |ws.value| > 0 && !(w + "'" <= ws.value[0])
    decreases |t|
  {
    if t[0] == '\'' {
      if t[1] == '\'' {
        assert t[1..][1..] == t[2..];
        assert w + "" == w;
        NoQuoteNext(t[2..], w, lax);
      } else {
        var lit := ReadUntil(t[1..], '\'');
        if lit.Lit? {
          WordGrows(lit.rest, w + lit.value, lax);
          assert (w + lit.value)[|w|] == t[1] && (w + "'")[|w|] == '\'';
        }
      }
    } else if t[0] != ' ' && t[0] != '\t' {
      WordGrows(t[1..], w + [t[0]], lax);
      assert (w + [t[0]])[|w|] == t[0] && (w + "'")[|w|] == '\'';
    }
  }

  lemma {:induction false} CleanLead(y: string, rest: string)
    requires '\\' !in y && rest != "" && rest[0] != '\\'
    requires rest[0] == '\'' ==> LeadsClean(rest[1..])
    ensures LeadsClean(y + rest)
  {
    if y == "" {
      assert y + rest == rest;
    } else {
      assert (y + rest)[1..] == y[1..] + rest;
      CleanLead(y[1..], rest);
    }
  }

  /** A quoted word that ends after x, with y behind its quote. */
  lemma QuoteCloses(x: string, y: string, rest: string, lax: bool)
    requires '\'' !in x
    ensures Words("'" + (x + "'" + y + rest), None, lax) == Words(y + rest, Some(x), lax)
  {
    var t := "'" + (x + "'" + y + rest);
    assert t[1..] == x + ['\''] + (y + rest);
    ReadUntilFree(x, y + rest, '\'');
  }

  /** Not both a quote and a backslash: percent-encoded addresses have no backslash, nor have header names. */
  predicate NotBoth(u: string) { !('\'' in u && '\\' in u) }

  /** Unescaped text with a quote but no backslash. */
  lemma QuotedRawBreaks(u: string, rest: string, full: string, lax: bool)
    requires '\'' in u && '\\' !in u && u <= full
    requires rest != "" && rest[0] != '\\' && (rest[0] == '\'' ==> LeadsClean(rest[1..]))
    ensures !StartsWith(Words("'" + (u + rest), None, lax), full)
  {
    var i := FirstQuote(u);
    var x, y := u[..i], u[i + 1..];
    assert u == x + "'" + y;
    QuoteCloses(x, y, rest, lax);
    CleanLead(y, rest);
    NoQuoteNext(y + rest, x, lax);
    assert x + "'" <= full by { assert x + "'" == full[..i + 1]; }
  }

  // ---- What is printed ----

  datatype Call = Call(address: string, verb: Option<string>, headers: Pairs, body: Option<string>)

  function HeaderLine(h: (string, string)): string { "\n-H '" + h.0 + ": " + Escape(h.1, '\'') + "' \\" }

  function HeaderLines(hs: Pairs): string { PrintAll(hs, HeaderLine) }

  function BodyLine(body: Option<string>): string {
    if body.Some? then "\n--data '" + Escape(body.value, '\'') + "' \\" else ""
  }

  function VerbText(verb: Option<string>): string { if verb.Some? then " -X " + verb.value else "" }

  function CurlText(c: Call): string {
    "curl" + VerbText(c.verb) + (" '" + c.address + "' \\") + HeaderLines(c.headers)
    + BodyLine(c.body) + "\n--compressed"
  }

  // ---- What it stands for ----

  function HeaderWords(hs: Pairs): seq<string> {
    if hs == [] then [] else ["-H", hs[0].0 + ": " + hs[0].1] + HeaderWords(hs[1..])
  }

  function BodyWords(body: Option<string>): seq<string> {
    if body.Some? then ["--data", body.value] else []
  }

  function VerbWords(verb: Option<string>): seq<string> { if verb.Some? then ["-X", verb.value] else [] }

  function Arguments(c: Call): seq<string> {
    ["curl"] + VerbWords(c.verb) + [c.address] + HeaderWords(c.headers) + BodyWords(c.body)
    + ["--compressed"]
  }

  predicate QuoteFree(hs: Pairs) { forall h | h in hs :: '\'' !in h.0 && '\'' !in h.1 }

  /** The first word is v and the others are as given exactly when they are so read on their own. */
  lemma WordThen(t: string, v: string, good: bool, rest: string, more: seq<string>, all: seq<string>, lax: bool)
    requires good ==> Words(t, None, lax) == PutFirst(Some(v), Words(rest, None, lax))
    requires !good ==> !StartsWith(Words(t, None, lax), v)
    requires all == [v] + more
    ensures Words(t, None, lax) == Some(all) <==> good && Words(rest, None, lax) == Some(more)
  {
    if good && Words(rest, None, lax).Some? {
      var ws := Words(rest, None, lax).value;
      assert ([v] + ws)[1..] == ws && ([v] + more)[1..] == more;
    }
  }

  lemma OptionWord(option: string, rest: string, lax: bool)
    requires PlainText(option, lax)
    ensures Words(option + (" " + rest), None, lax) == PutFirst(Some(option), Words(rest, None, lax))
  {
    PlainWord(option, " " + rest, None, lax);
    BlankEnds(option, rest, lax);
  }

  // ---- The rest of the command, line by line ----

  /** The remaining lines, each with the line continuation before it taken off. */
  function Lines(hs: Pairs, body: Option<string>): string {
    if hs != [] then "-H '" + (hs[0].0 + (": " + (Escape(hs[0].1, '\'') + ("'" + (" \\\n" + Lines(hs[1..], body))))))
    else if body.Some? then "--data '" + (Escape(body.value, '\'') + "'" + (" \\\n" + "--compressed"))
    else "--compressed"
  }

  lemma {:induction false} LinesPrinted(hs: Pairs, body: Option<string>)
    ensures " \\" + HeaderLines(hs) + BodyLine(body) + "\n--compressed" == " \\\n" + Lines(hs, body)
  {
    if hs != [] {
      LinesPrinted(hs[1..], body);
      assert "\n-H '" == "\n" + "-H '" && "' \\" == "'" + " \\" && " \\\n" == " \\" + "\n";
      LineRegroup("-H '", hs[0].0, Escape(hs[0].1, '\''), HeaderLines(hs[1..]), BodyLine(body), Lines(hs[1..], body));
    } else if body.Some? {
      assert "\n--data '" == "\n" + "--data '" && "' \\" == "'" + " \\" && " \\\n" == " \\" + "\n";
      assert "\n--compressed" == "\n" + "--compressed";
      DataRegroup("--data '", Escape(body.value, '\''));
    } else {
      assert " \\" + "" + "" + "\n--compressed" == " \\\n" + "--compressed";
    }
  }

  lemma LineRegroup(option: string, name: string, shown: string, lines: string, body: string, rest: string)
    requires " \\" + lines + body + "\n--compressed" == " \\" + "\n" + rest
    ensures " \\" + (("\n" + option) + name + ": " + shown + ("'" + " \\") + lines) + body + "\n--compressed"
            == " \\" + "\n" + (option + (name + (": " + (shown + ("'" + (" \\" + "\n" + rest))))))
  {
    assert " \\" + (("\n" + option) + name + ": " + shown + ("'" + " \\") + lines) + body + "\n--compressed"
        == " \\" + "\n" + (option + (name + (": " + (shown + ("'" + (" \\" + lines + body + "\n--compressed"))))));
  }

  lemma DataRegroup(option: string, shown: string)
    ensures " \\" + "" + (("\n" + option) + shown + ("'" + " \\")) + ("\n" + "--compressed")
            == " \\" + "\n" + (option + (shown + "'" + (" \\" + "\n" + "--compressed")))
  {
  }

  lemma CompressedWord(lax: bool)
    ensures Words("--compressed", None, lax) == Some(["--compressed"])
  {
    PlainWord("--compressed", "", None, lax);
    assert "--compressed" + "" == "--compressed";
  }

  lemma EscapedExact(v: string, rest: string, more: seq<string>, all: seq<string>, lax: bool)
    requires all == [v] + more
    ensures Words("'" + (Escape(v, '\'') + "'" + (" \\\n" + rest)), None, lax) == Some(all)
            <==> '\'' !in v && Words(rest, None, lax) == Some(more)
  {
    var t := "'" + (Escape(v, '\'') + "'" + (" \\\n" + rest));
    if '\'' in v {
      QuotedEscapedBreaks(v, " \\\n" + rest, lax);
    } else {
      EscapeFree(v, '\'');
      QuotedSafe(v, rest, lax);
    }
    WordThen(t, v, '\'' !in v, rest, more, all, lax);
  }

  /** A header line: unescaped name, escaped value, one word. */
  lemma HeaderExact(h: (string, string), rest: string, more: seq<string>, all: seq<string>, lax: bool)
    requires all == [h.0 + ": " + h.1] + more && NotBoth(h.0)
    ensures Words("'" + (h.0 + (": " + (Escape(h.1, '\'') + ("'" + (" \\\n" + rest))))), None, lax) == Some(all)
            <==> '\'' !in h.0 && '\'' !in h.1 && Words(rest, None, lax) == Some(more)
  {
    var full := h.0 + ": " + h.1;
    var tail := ": " + (Escape(h.1, '\'') + ("'" + (" \\\n" + rest)));
    if '\'' in h.0 {
      QuotedRawBreaks(h.0, tail, full, lax);
    } else {
      EscapeFree(h.0 + ": ", '\'');
      EscapeConcat(h.0 + ": ", h.1, '\'');
      HeaderRegroup(h.0, Escape(h.1, '\''), " \\\n" + rest);
      EscapedExact(full, rest, more, all, lax);
      assert '\'' in full <==> '\'' in h.1;
    }
  }

  lemma HeaderRegroup(name: string, shown: string, rest: string)
    ensures (name + ": " + shown) + "'" + rest == name + (": " + (shown + ("'" + rest)))
  {
  }

  /** A plain word and a blank in front change nothing but the first word. */
  lemma PlainThen(option: string, t: string, more: seq<string>, lax: bool)
    requires PlainText(option, lax)
    ensures Words(option + (" " + t), None, lax) == Some([option] + more) <==> Words(t, None, lax) == Some(more)
  {
    OptionWord(option, t, lax);
    WordThen(option + (" " + t), option, true, t, more, [option] + more, lax);
  }

  lemma OptionThen(option: string, quotedTail: string, v: string, good: bool, rest: string, more: seq<string>,
                   lax: bool)
    requires PlainText(option, lax)
    requires Words("'" + quotedTail, None, lax) == Some([v] + more) <==> good && Words(rest, None, lax) == Some(more)
    ensures Words(option + " '" + quotedTail, None, lax) == Some([option, v] + more)
            <==> good && Words(rest, None, lax) == Some(more)
  {
    OptionRegroup(option, quotedTail);
    PlainThen(option, "'" + quotedTail, [v] + more, lax);
    assert [option] + ([v] + more) == [option, v] + more;
  }

  lemma HeaderLineExact(h: (string, string), rest: string, more: seq<string>, lax: bool)
    requires NotBoth(h.0)
    ensures Words("-H '" + (h.0 + (": " + (Escape(h.1, '\'') + ("'" + (" \\\n" + rest))))), None, lax)
              == Some(["-H", h.0 + ": " + h.1] + more)
            <==> '\'' !in h.0 && '\'' !in h.1 && Words(rest, None, lax) == Some(more)
  {
    var full := h.0 + ": " + h.1;
    HeaderExact(h, rest, more, [full] + more, lax);
    OptionThen("-H", h.0 + (": " + (Escape(h.1, '\'') + ("'" + (" \\\n" + rest)))), full,
               '\'' !in h.0 && '\'' !in h.1, rest, more, lax);
    assert "-H" + " '" == "-H '";
  }

  lemma BodyLineExact(body: string, lax: bool)
    ensures Words("--data '" + (Escape(body, '\'') + "'" + (" \\\n" + "--compressed")), None, lax)
              == Some(["--data", body] + ["--compressed"])
            <==> '\'' !in body
  {
    var rest := "--compressed";
    CompressedWord(lax);
    EscapedExact(body, rest, ["--compressed"], [body] + ["--compressed"], lax);
    OptionThen("--data", Escape(body, '\'') + "'" + (" \\\n" + rest), body, '\'' !in body, rest, ["--compressed"], lax);
    assert "--data" + " '" == "--data '";
  }

  lemma {:induction false} LinesExact(hs: Pairs, body: Option<string>, lax: bool)
    requires forall h | h in hs :: NotBoth(h.0)
    ensures Words(Lines(hs, body), None, lax) == Some(HeaderWords(hs) + BodyWords(body) + ["--compressed"])
            <==> QuoteFree(hs) && (body.Some? ==> '\'' !in body.value)
  {
    if hs != [] {
      var more := HeaderWords(hs[1..]) + BodyWords(body) + ["--compressed"];
      HeaderLineExact(hs[0], Lines(hs[1..], body), more, lax);
      LinesExact(hs[1..], body, lax);
      assert HeaderWords(hs) + BodyWords(body) + ["--compressed"] == ["-H", hs[0].0 + ": " + hs[0].1] + more;
    } else if body.Some? {
      BodyLineExact(body.value, lax);
      assert [] + ["--data", body.value] + ["--compressed"] == ["--data", body.value] + ["--compressed"];
    } else {
      CompressedWord(lax);
      assert [] + [] + ["--compressed"] == ["--compressed"];
    }
  }

  lemma OptionRegroup(option: string, rest: string)
    ensures option + " '" + rest == option + (" " + ("'" + rest))
  {
    assert " '" == " " + "'";
  }

  // ---- The whole command ----

  /**
   HTTP methods are tokens (section 5.6.2 of RFC 9110): not empty, and free of blanks and backslashes among others.
   */
  predicate MethodLike(v: string) { v != "" && ' ' !in v && '\t' !in v && '\\' !in v }

  /** The index of the first character that does not stand for itself. */
  function FirstSpecial(v: string, lax: bool): (i: nat)
    requires exists k :: 0 <= k < |v| && !PlainChar(v[k], lax)
    ensures i < |v| && !PlainChar(v[i], lax) && forall k | 0 <= k < i :: PlainChar(v[k], lax)
  {
    if !PlainChar(v[0], lax) then 0
    else
      assert exists k :: 0 <= k < |v[1..]| && !PlainChar(v[1..][k], lax) by {
        var k :| 0 <= k < |v| && !PlainChar(v[k], lax);
        assert v[1..][k - 1] == v[k];
      }
      1 + FirstSpecial(v[1..], lax)
  }

  lemma EmptyWord(t: string, lax: bool)
    requires t != "" && t[0] == '\''
    ensures Words(t, None, lax) == Words(t, Some(""), lax)
  {
    UntilShorter(t[1..], '\'');
    var lit := ReadUntil(t[1..], '\'');
    if lit.Lit? { assert "" + lit.value == lit.value; }
  }

  /** A method that does not stand for itself never arrives as the word it is, whatever follows. */
  lemma MethodBreaks(v: string, more: string, lax: bool)
    requires MethodLike(v) && !PlainText(v, lax)
    ensures !StartsWith(Words(v + (" " + more), None, lax), v)
  {
    var t := v + (" " + more);
    assert t[0] == v[0];
    if forall k | 0 <= k < |v| :: PlainChar(v[k], lax) {
      assert StartsSpecial(v[0], lax);
    } else if !StartsSpecial(v[0], lax) {
      var i := FirstSpecial(v, lax);
      var p, u := v[..i], v[i..];
      assert t == p + (u + (" " + more)) && (u + (" " + more))[0] == v[i];
      if i > 0 { PlainWord(p, u + (" " + more), None, lax); }
      assert p + "'" == v[..i] + "'";
      if v[i] == '\'' {
        assert '\\' !in u;
        CleanLead(u, " " + more);
        NoQuoteNext(u + (" " + more), p, lax);
        if i == 0 { EmptyWord(t, lax); }
        assert p + "'" <= v by { assert v[..i + 1] == p + "'"; }
      }
    }
  }

  lemma AddressExact(address: string, rest: string, more: seq<string>, lax: bool)
    requires NotBoth(address)
    ensures Words("'" + (address + ("'" + (" \\\n" + rest))), None, lax) == Some([address] + more)
            <==> '\'' !in address && Words(rest, None, lax) == Some(more)
  {
    var tail := "'" + (" \\\n" + rest);
    if '\'' in address {
      assert tail[1..] == " \\\n" + rest && LeadsClean(tail[1..]);
      QuotedRawBreaks(address, tail, address, lax);
    } else {
      QuotedSafe(address, rest, lax);
      assert address + ("'" + (" \\\n" + rest)) == address + "'" + (" \\\n" + rest);
    }
    WordThen("'" + (address + tail), address, '\'' !in address, rest, more, [address] + more, lax);
  }

  /** The method option as it stands in front of the address. */
  function Front(verb: Option<string>): string { if verb.Some? then "-X " + verb.value + " " else "" }

  lemma VerbThen(verb: Option<string>, t: string, more: seq<string>, lax: bool)
    requires verb.Some? ==> MethodLike(verb.value)
    ensures Words(Front(verb) + t, None, lax)
              == Some(VerbWords(verb) + more)
            <==> (verb.Some? ==> PlainText(verb.value, lax)) && Words(t, None, lax) == Some(more)
  {
    if verb.Some? {
      var v := verb.value;
      VerbRegroup(v, t);
      if PlainText(v, lax) { OptionWord(v, t, lax); } else { MethodBreaks(v, t, lax); }
      WordThen(v + (" " + t), v, PlainText(v, lax), t, more, [v] + more, lax);
      PlainThen("-X", v + (" " + t), [v] + more, lax);
      assert ["-X"] + ([v] + more) == ["-X", v] + more;
    } else {
      assert "" + t == t && [] + more == more;
    }
  }

  lemma VerbRegroup(v: string, t: string)
    ensures "-X " + v + " " + t == "-X" + (" " + (v + (" " + t)))
  {
    assert "-X " == "-X" + " ";
  }

  lemma TextRegroup(c: Call)
    ensures CurlText(c)
            == "curl" + (" " + (Front(c.verb)
                                + ("'" + (c.address + ("'" + (" \\\n" + Lines(c.headers, c.body)))))))
  {
    LinesPrinted(c.headers, c.body);
    assert "' \\" == "'" + " \\" && " '" == " " + "'" && " -X " == " " + "-X ";
    if c.verb.Some? {
      TextParts("-X " + c.verb.value, c.address, HeaderLines(c.headers), BodyLine(c.body));
      assert " -X " + c.verb.value == " " + ("-X " + c.verb.value);
    } else {
      PlainParts(c.address, HeaderLines(c.headers), BodyLine(c.body));
    }
  }

  lemma TextParts(verb: string, address: string, lines: string, body: string)
    ensures "curl" + (" " + verb) + ((" " + "'") + address + ("'" + " \\")) + lines + body + "\n--compressed"
            == "curl" + (" " + (verb + " " + ("'" + (address + ("'" + (" \\" + lines + body + "\n--compressed"))))))
  {
  }

  lemma PlainParts(address: string, lines: string, body: string)
    ensures "curl" + "" + ((" " + "'") + address + ("'" + " \\")) + lines + body + "\n--compressed"
            == "curl" + (" " + ("" + ("'" + (address + ("'" + (" \\" + lines + body + "\n--compressed"))))))
  {
  }

  /**
   For a method without blanks and backslashes, and an address and header names that do not have both quotes and
   backslashes, the shell passes curl exactly the intended arguments iff the method, printed without quotes,
   stands for itself and nothing printed between quotes contains a quote: escaping the quotes of values and
   bodies with backslashes never helps. The two readers differ only in methods with expanding characters: what a
   shell does is one or the other, as its files and variables have it.
   */
  lemma CurlExact(c: Call, lax: bool)
    requires (c.verb.Some? ==> MethodLike(c.verb.value)) && NotBoth(c.address)
            && forall h | h in c.headers :: NotBoth(h.0)
    ensures Words(CurlText(c), None, lax) == Some(Arguments(c))
            <==> && (c.verb.Some? ==> PlainText(c.verb.value, lax))
                 && '\'' !in c.address && QuoteFree(c.headers) && (c.body.Some? ==> '\'' !in c.body.value)
  {
    var lines := Lines(c.headers, c.body);
    var last := HeaderWords(c.headers) + BodyWords(c.body) + ["--compressed"];
    TextRegroup(c);
    LinesExact(c.headers, c.body, lax);
    AddressExact(c.address, lines, last, lax);
    CurlThen(c, "'" + (c.address + ("'" + (" \\\n" + lines))), last, lax);
  }

  /** A method that is a valid token and still breaks the command. */
  lemma PipeMethodBreaks(address: string, lax: bool)
    requires NotBoth(address)
    ensures var c := Call(address, Some("A|B"), [], None); Words(CurlText(c), None, lax) != Some(Arguments(c))
  {
    assert "A|B"[1] == '|' && !PlainChar('|', lax);
    CurlExact(Call(address, Some("A|B"), [], None), lax);
  }

  lemma CurlThen(c: Call, quoted: string, last: seq<string>, lax: bool)
    requires (c.verb.Some? ==> MethodLike(c.verb.value))
            && last == HeaderWords(c.headers) + BodyWords(c.body) + ["--compressed"]
    ensures Words("curl" + (" " + (Front(c.verb) + quoted)), None, lax) == Some(Arguments(c))
            <==> (c.verb.Some? ==> PlainText(c.verb.value, lax)) && Words(quoted, None, lax) == Some([c.address] + last)
  {
    var option := VerbWords(c.verb);
    var front := Front(c.verb);
    var all := option + ([c.address] + last);
    VerbThen(c.verb, quoted, [c.address] + last, lax);
    PlainThen("curl", front + quoted, all, lax);
    ArgumentsRegroup(["curl"], option, [c.address], HeaderWords(c.headers), BodyWords(c.body), ["--compressed"]);
  }

  lemma ArgumentsRegroup(a: seq<string>, b: seq<string>, c: seq<string>, d: seq<string>, e: seq<string>, f: seq<string>)
    ensures a + b + c + d + e + f == a + (b + (c + (d + e + f)))
  {
  }

  // ---- Printing ----

  /** One line per header, added to the text so far. */
  method PrintHeaders(start: string, header: Pairs) returns (template: string)
    ensures template == start + HeaderLines(header)
  {
    template := start;
    for k := 0 to |header|
      invariant template == start + HeaderLines(header[..k])
    {
      var value := Escape(header[k].1, '\'');
      PrintAppend(header[..k], header[k], HeaderLine);
      assert header[..k + 1] == header[..k] + [header[k]];
      Associative(start, HeaderLines(header[..k]), HeaderLine(header[k]));
      template := template + ("\n-H '" + header[k].0 + ": " + value + "' \\");
    }
    assert header[..|header|] == header;
  }

  /** The command for an address that is present, and no text for one that is not. */
  method PrintCommand(url: Option<string>, verb: Option<string>, header: Option<Pairs>, body: Option<string>,
                      encodeUri: string -> string, upper: string -> string)
    returns (template: string)
    ensures !Present(url) ==> template == ""
    ensures Present(url) ==>
              template == CurlText(Call(encodeUri(url.value), if Present(verb) then Some(upper(verb.value)) else None,
                                        if header.Some? then header.value else [],
                                        if Present(body) then body else None))
  {
    template := "curl";
    var upperVerb := if Present(verb) then Some(upper(verb.value)) else None;
    if upperVerb.Some? {
      template := template + (" -X " + upperVerb.value);
    }
    if !Present(url) { return ""; }
    assert template == "curl" + VerbText(upperVerb);
    template := PrintRest(template, encodeUri(url.value), header, body);
  }

  /** Address, headers, body and the last line. */
  method PrintRest(start: string, address: string, header: Option<Pairs>, body: Option<string>)
    returns (template: string)
    ensures template == start + (" '" + address + "' \\") + HeaderLines(if header.Some? then header.value else [])
                        + BodyLine(if Present(body) then body else None) + "\n--compressed"
  {
    template := start + (" '" + address + "' \\");
    if header.Some? {
      template := PrintHeaders(template, header.value);
    }
    if Present(body) {
      template := template + ("\n--data '" + Escape(body.value, '\'') + "' \\");
    }
    template := template + "\n--compressed";
  }

  /** Two words for each header, in order: the option, and name and value in one. */
  lemma {:induction false} HeaderWordsAt(hs: Pairs, i: nat)
    requires i < |hs|
    ensures |HeaderWords(hs)| == 2 * |hs|
    ensures HeaderWords(hs)[2 * i] == "-H" && HeaderWords(hs)[2 * i + 1] == hs[i].0 + ": " + hs[i].1
  {
    if i > 0 {
      HeaderWordsAt(hs[1..], i - 1);
      HeaderWordsTail(hs, 2 * i);
      HeaderWordsTail(hs, 2 * i + 1);
    } else if |hs| > 1 {
      HeaderWordsAt(hs[1..], 0);
    } else {
      assert hs[1..] == [];
    }
  }

  lemma HeaderWordsTail(hs: Pairs, k: nat)
    requires hs != [] && 2 <= k < |HeaderWords(hs)|
    ensures HeaderWords(hs)[k] == HeaderWords(hs[1..])[k - 2]
  {
  }

  lemma ReadsBackIff(c: Call, lax: bool)
    requires (c.verb.Some? ==> MethodLike(c.verb.value)) && NotBoth(c.address)
             && forall h | h in c.headers :: NotBoth(h.0)
    ensures Words(CurlText(c), None, lax)
            == Some(["curl"] + (if c.verb.Some? then ["-X", c.verb.value] else []) + [c.address]
                    + HeaderWords(c.headers) + (if c.body.Some? then ["--data", c.body.value] else [])
                    + ["--compressed"])
            <==> && (c.verb.Some? ==> PlainText(c.verb.value, lax)) && '\'' !in c.address
                 && (forall h | h in c.headers :: '\'' !in h.0 && '\'' !in h.1)
                 && (c.body.Some? ==> '\'' !in c.body.value)
  {
    CurlExact(c, lax);
  }

  /**
   The converter. An absent address prints nothing. For a method without blanks and backslashes, and an address
   and header names that do not have both quotes and backslashes, the shell reads the given parts as curl's
   arguments exactly when the method stands for itself and nothing else has a quote.
   */
  method ToCurl(url: Option<string>, verb: Option<string>, header: Option<Pairs>, body: Option<string>,
                encodeUri: string -> string, upper: string -> string)
    returns (template: string)
    ensures url == None || url == Some("") ==> template == ""
    ensures url.Some? && url.value != "" ==>
              var given, sent := verb.Some? && verb.value != "", body.Some? && body.value != "";
              var hs: Pairs := if header.Some? then header.value else [];
              (given ==> MethodLike(upper(verb.value))) && NotBoth(encodeUri(url.value))
              && (forall h | h in hs :: NotBoth(h.0)) ==>
                forall lax ::
                  Words(template, None, lax)
                  == Some(["curl"] + (if given then ["-X", upper(verb.value)] else []) + [encodeUri(url.value)]
                          + HeaderWords(hs) + (if sent then ["--data", body.value] else []) + ["--compressed"])
                  <==> && (given ==> PlainText(upper(verb.value), lax)) && '\'' !in encodeUri(url.value)
                       && (forall h | h in hs :: '\'' !in h.0 && '\'' !in h.1) && (sent ==> '\'' !in body.value)
  {
    template := PrintCommand(url, verb, header, body, encodeUri, upper);
    if Present(url) {
      var c := Call(encodeUri(url.value), if Present(verb) then Some(upper(verb.value)) else None,
                    if header.Some? then header.value else [], if Present(body) then body else None);
      if (c.verb.Some? ==> MethodLike(c.verb.value)) && NotBoth(c.address)
         && (forall h | h in c.headers :: NotBoth(h.0))
      {
        ReadsBackIff(c, false);
        ReadsBackIff(c, true);
      }
    }
  }
}
