/**
 Filter and replace rules: what the page prints from a text area, what the server parses, and
 what the page shows again from `/info`.
 */
module RuleText {
  import opened Prelude
  import opened Strings

  /** The parameter the page sends for the Include or Exclude text: one rule per line. */
  function RuleParam(text: string): string {
    var joined := Join(Clean(IsJsSpace, Split(text, '\n')), ";");
    if joined == "" then "-" else joined
  }

  /** The text area rebuilt from the list in `/info`. */
  function ShownText(rules: seq<string>): string { Join(rules, "\n") }

  /** The rule list a parameter denotes. */
  function Parsed(param: string): seq<string> { Clean(IsGoSpace, Split(param, ';')) }

  /** What the switch in ServeHTTP does with a replace rule whose pattern matched. */
  datatype Outcome = Fetch(target: string) | ReadFile(path: string) | EmptyReply | IndexPanic

  /** The fields of each replace rule. */
  function Fields(rules: seq<string>): seq<seq<string>> {
    if rules == [] then [] else [Split(rules[0], ',')] + Fields(rules[1..])
  }

  function ReplaceOutcome(fields: seq<string>): Outcome {
    if |fields| < 2 then IndexPanic
    else if fields[1] == "http://" || fields[1] == "https://" then
      if |fields| < 3 then IndexPanic else Fetch(fields[2])
    else if fields[1] == "file://" then
      if |fields| < 3 then IndexPanic else ReadFile("/" + fields[2])
    else EmptyReply
  }

  /** The query of `/action`; an absent parameter is empty. */
  datatype Query = Query(record: string, replay: string, excludes: string, includes: string,
                         proxy: string, replacement: string)

  datatype Param = Record | Replay | Exclude | Included | Proxy | Replace

  function Given(q: Query, p: Param): string {
    match p
    case Record => q.record
    case Replay => q.replay
    case Exclude => q.excludes
    case Included => q.includes
    case Proxy => q.proxy
    case Replace => q.replacement
  }

  function Rank(p: Param): nat {
    match p
    case Record => 0
    case Replay => 1
    case Exclude => 2
    case Included => 3
    case Proxy => 4
    case Replace => 5
  }

  /** `p` is given and none of lower rank is. */
  ghost predicate Wins(q: Query, p: Param) {
    Given(q, p) != "" && forall o: Param | Rank(o) < Rank(p) :: Given(q, o) == ""
  }

  function Winner(q: Query): Option<Param> {
    if q.record != "" then Some(Record)
    else if q.replay != "" then Some(Replay)
    else if q.excludes != "" then Some(Exclude)
    else if q.includes != "" then Some(Included)
    else if q.proxy != "" then Some(Proxy)
    else if q.replacement != "" then Some(Replace)
    else None
  }

  lemma WinnerIff(q: Query, p: Param)
    ensures Winner(q) == Some(p) <==> Wins(q, p)
  {
    if Wins(q, p) {
      match p {
        case Record =>
        case Replay => assert Given(q, Record) == "";
        case Exclude => assert Given(q, Record) == Given(q, Replay) == "";
        case Included => assert Given(q, Record) == Given(q, Replay) == Given(q, Exclude) == "";
        case Proxy => assert Given(q, Record) == Given(q, Replay) == Given(q, Exclude) == Given(q, Included) == "";
        case Replace =>
          assert Given(q, Record) == Given(q, Replay) == Given(q, Exclude) == "";
          assert Given(q, Included) == Given(q, Proxy) == "";
      }
    }
  }

  /** What a request asks of the rest of the proxy. */
  datatype Errand = NoErrand | Resend(message: string) | ClearProxy | SetProxy(address: string)

  class Rules {
    var record: bool
    var included: seq<string>
    var excluded: seq<string>
    var replace: seq<seq<string>>

    constructor ()
      ensures record && included == [] && excluded == [] && replace == []
    {
      record, included, excluded, replace := true, [], [], [];
    }

    method SetInclude(includes: string)
      modifies this`included
      ensures included == Parsed(includes)
    {
      included := CleanLoop(includes);
    }

    method SetExclude(excludes: string)
      modifies this`excluded
      ensures excluded == Parsed(excludes)
    {
      excluded := CleanLoop(excludes);
    }

    method SetReplace(replacement: string)
      modifies this`replace
      ensures replace == Fields(Parsed(replacement))
    {
      var rules := CleanLoop(replacement);
      var fields := [];
      for i := 0 to |rules|
        invariant fields + Fields(rules[i..]) == Fields(rules)
      {
        fields := fields + [Split(rules[i], ',')];
      }
      replace := fields;
    }

    /** `/action`: the first parameter given is the only one obeyed; "-" clears. */
    method Action(q: Query) returns (errand: Errand)
      modifies this
      ensures record == if Winner(q) == Some(Record) then q.record == "true" else old(record)
      ensures excluded == if Winner(q) == Some(Exclude) then Applied(q.excludes) else old(excluded)
      ensures included == if Winner(q) == Some(Included) then Applied(q.includes) else old(included)
      ensures replace == if Winner(q) != Some(Replace) then old(replace)
                         else if q.replacement == "-" then [] else Fields(Parsed(q.replacement))
      ensures errand == if Winner(q) == Some(Replay) then Resend(q.replay)
                        else if Winner(q) != Some(Proxy) then NoErrand
                        else if q.proxy == "-" then ClearProxy else SetProxy(q.proxy)
    {
      errand := NoErrand;
      if q.record != "" {
        record := q.record == "true";
        return;
      }
      if q.replay != "" { return Resend(q.replay); }
      if q.excludes != "" {
        if q.excludes == "-" { excluded := []; return; }
        SetExclude(q.excludes);
        return;
      }
      if q.includes != "" {
        if q.includes == "-" { included := []; return; }
        SetInclude(q.includes);
        return;
      }
      if q.proxy != "" {
        if q.proxy == "-" { return ClearProxy; }
        return SetProxy(q.proxy);
      }
      if q.replacement != "" {
        if q.replacement == "-" { replace := []; return; }
        SetReplace(q.replacement);
      }
    }
  }

  /** The loop shared by the three setters: split at semicolons, trim, skip the empty. */
  method CleanLoop(text: string) returns (rules: seq<string>)
    ensures rules == Parsed(text)
  {
    var parts := Split(text, ';');
    rules := [];
    for i := 0 to |parts|
      invariant rules + Clean(IsGoSpace, parts[i..]) == Parsed(text)
    {
      CleanStep(IsGoSpace, parts, i, rules, Parsed(text));
      var v := Trim(IsGoSpace, parts[i]);
      if v == "" { continue; }
      rules := rules + [v];
    }
  }

  /** The list in force after the server acts on a non-empty parameter. */
  function Applied(param: string): seq<string> {
    if param == "-" then [] else Parsed(param)
  }

  /** Shown in the page, sent unchanged, parsed by the server. */
  function RoundTrip(rules: seq<string>): seq<string> {
    Applied(RuleParam(ShownText(rules)))
  }

  predicate GoodRule(r: string) {
    r != "" && Trimmed(IsJsSpace, r) && Trimmed(IsGoSpace, r) && ';' !in r && '\n' !in r
  }

  // ---- Include and exclude rules ----

  lemma {:induction false} JoinNonEmpty(parts: seq<string>, sep: char)
    requires parts != [] && forall p | p in parts :: p != ""
    ensures Join(parts, [sep]) != ""
  {
    assert parts[0] in parts;
  }

  lemma GoodListSurvives(rules: seq<string>)
    requires (forall r | r in rules :: GoodRule(r)) && rules != ["-"]
    ensures RoundTrip(rules) == rules
  {
    if rules == [] {
      assert Split("", '\n') == [""];
    } else {
      SplitJoin(rules, '\n');
      CleanFixed(IsJsSpace, rules);
      JoinNonEmpty(rules, ';');
      assert rules[0] in rules;
      SplitJoin(rules, ';');
      CleanFixed(IsGoSpace, rules);
    }
  }

  /** The characters that either trimming takes away: JavaScript's white space and line ends, and Go's. */
  const WHITE: seq<int> :=
    [9, 10, 11, 12, 13, 0x20, 0x85, 0xA0, 0x1680, 0x2000, 0x2001, 0x2002, 0x2003, 0x2004, 0x2005, 0x2006, 0x2007,
     0x2008, 0x2009, 0x200A, 0x2028, 0x2029, 0x202F, 0x205F, 0x3000, 0xFEFF]

  /** Only NEL is white to Go alone, and only the byte order mark to JavaScript alone. */
  lemma WhiteIff(c: char)
    ensures IsJsSpace(c) <==> c as int in WHITE && c as int != 0x85
    ensures IsGoSpace(c) <==> c as int in WHITE && c as int != 0xFEFF
  {
    var n := c as int;
    if IsJsSpace(c) || IsGoSpace(c) {
      var i := if n <= 13 then n - 9 else if n == 0x20 then 5 else if n == 0x85 then 6 else if n == 0xA0 then 7
               else if n == 0x1680 then 8 else if n <= 0x200A then n - 0x2000 + 9
               else if n <= 0x2029 then n - 0x2028 + 20
               else if n == 0x202F then 22 else if n == 0x205F then 23 else if n == 0x3000 then 24 else 25;
      assert WHITE[i] == n;
    }
  }

  /** Whatever text is sent, every resulting rule is non-empty, trimmed and free of separators and newlines. */
  lemma ResultShape(text: string, r: string)
    requires r in Applied(RuleParam(text))
    ensures r != "" && Trimmed(IsGoSpace, r) && ';' !in r && '\n' !in r
  {
    var lines := Clean(IsJsSpace, Split(text, '\n'));
    var param := Join(lines, ";");
    CleanMembers(IsGoSpace, Split(param, ';'), r);
    var piece :| piece in Split(param, ';') && forall c | c in r :: c in piece;
    SplitPieces(param, ';', piece);
    if '\n' in r {
      JoinChars(lines, ';', '\n');
      var line :| line in lines && '\n' in line;
      CleanMembers(IsJsSpace, Split(text, '\n'), line);
      var raw :| raw in Split(text, '\n') && forall c | c in line :: c in raw;
      SplitPieces(text, '\n', raw);
    }
  }

  lemma SurvivorIsJsTrimmed(rules: seq<string>, i: nat)
    requires RoundTrip(rules) == rules && i < |rules|
    requires forall r | r in rules :: r != "" && ';' !in r && '\n' !in r
    ensures Trimmed(IsJsSpace, rules[i])
  {
    SplitJoin(rules, '\n');
    var lines := Clean(IsJsSpace, rules);
    CleanLength(IsJsSpace, rules);
    if lines != [] {
      forall p | p in lines ensures ';' !in p {
        CleanMembers(IsJsSpace, rules, p);
        var q :| q in rules && forall c | c in p :: c in q;
      }
      SplitJoin(lines, ';');
    }
    CleanLength(IsGoSpace, lines);
    TrimFacts(IsJsSpace, rules[i]);
    TrimFacts(IsGoSpace, lines[i]);
  }

  lemma GoodRuleIff(r: string)
    ensures GoodRule(r) <==>
              && r != "" && ';' !in r && '\n' !in r
              && r[0] as int !in WHITE && r[|r| - 1] as int !in WHITE
  {
    if r != "" {
      WhiteIff(r[0]);
      WhiteIff(r[|r| - 1]);
    }
  }

  lemma SurvivorsAreGood(rules: seq<string>, r: string)
    requires RoundTrip(rules) == rules && r in rules
    ensures GoodRule(r)
  {
    forall q | q in rules ensures q != "" && Trimmed(IsGoSpace, q) && ';' !in q && '\n' !in q {
      ResultShape(ShownText(rules), q);
    }
    var i :| 0 <= i < |rules| && rules[i] == r;
    SurvivorIsJsTrimmed(rules, i);
  }

  /**
   The exact law: a list comes back identical iff every rule is non-empty, begins and ends with no white
   space, and has no semicolon and no newline, and the list is not the single rule "-", which means "clear".
   */
  lemma RoundTripIff(rules: seq<string>)
    ensures RoundTrip(rules) == rules <==>
              && rules != ["-"]
              && forall r | r in rules ::
                   && r != "" && ';' !in r && '\n' !in r
                   && r[0] as int !in WHITE && r[|r| - 1] as int !in WHITE
  {
    forall r | r in rules
      ensures GoodRule(r) <==>
                && r != "" && ';' !in r && '\n' !in r
                && r[0] as int !in WHITE && r[|r| - 1] as int !in WHITE
    {
      GoodRuleIff(r);
    }
    if (forall r | r in rules :: GoodRule(r)) && rules != ["-"] { GoodListSurvives(rules); }
    if RoundTrip(rules) == rules {
      forall r | r in rules ensures GoodRule(r) { SurvivorsAreGood(rules, r); }
      if rules == ["-"] { DashClears(); }
    }
  }

  lemma DashClears()
    ensures RoundTrip(["-"]) == []
  {
    assert ShownText(["-"]) == "-";
    SplitFree("-", '\n');
    assert Split("-", '\n') == ["-"];
    TrimFixed(IsJsSpace, "-");
    assert Clean(IsJsSpace, ["-"]) == ["-"];
  }

  // ---- Replace rules ----

  datatype Scheme = HttpScheme | HttpsScheme | FileScheme

  /** One row of the page's replace dialog. */
  datatype Ruler = Ruler(from: string, scheme: Scheme, to: string)

  function Prefix(scheme: Scheme): string {
    match scheme
    case HttpScheme => "http://"
    case HttpsScheme => "https://"
    case FileScheme => "file://"
  }

  function Printed(r: Ruler): string { r.from + [','] + Prefix(r.scheme) + r.to }

  function PrintedAll(rulers: seq<Ruler>): seq<string> {
    seq(|rulers|, i requires 0 <= i < |rulers| => Printed(rulers[i]))
  }

  function ReplaceParam(rulers: seq<Ruler>): string {
    var show := Trim(IsJsSpace, Join(PrintedAll(rulers), ";"));
    if show == "" then "-" else show
  }

  /** The dialog's confirm action: nothing is sent while some row has an empty side. */
  method DoReplace(rulers: seq<Ruler>) returns (param: Option<string>)
    ensures param == if exists r :: r in rulers && (r.from == "" || r.to == "") then None
            else Some(ReplaceParam(rulers))
  {
    var arr: seq<string>, err := [], false;
    for i := 0 to |rulers|
      invariant err <==> exists r :: r in rulers[..i] && (r.from == "" || r.to == "")
      invariant !err ==> arr == PrintedAll(rulers[..i])
    {
      assert rulers[..i + 1] == rulers[..i] + [rulers[i]];
      var v := rulers[i];
      if v.from == "" || v.to == "" { err := true; }
      if err { continue; }
      arr := arr + [Printed(v)];
    }
    assert rulers[..|rulers|] == rulers;
    if err { return None; }
    var show := Trim(IsJsSpace, Join(arr, ";"));
    return Some(if show == "" then "-" else show);
  }

  /** What is left of a row's two sides after the page has trimmed the whole text. */
  function SentFrom(rulers: seq<Ruler>, i: nat): string
    requires i < |rulers|
  {
    if i == 0 then TrimLeft(IsJsSpace, rulers[i].from) else rulers[i].from
  }

  function SentTo(rulers: seq<Ruler>, i: nat): string
    requires i < |rulers|
  {
    if i == |rulers| - 1 then TrimRight(IsJsSpace, rulers[i].to) else rulers[i].to
  }

  function SentRule(rulers: seq<Ruler>, i: nat): string
    requires i < |rulers|
  {
    SentFrom(rulers, i) + [','] + Prefix(rulers[i].scheme) + SentTo(rulers, i)
  }

  function SentRules(rulers: seq<Ruler>): seq<string> {
    seq(|rulers|, i requires 0 <= i < |rulers| => SentRule(rulers, i))
  }

  /** The replacement as the server will see it. */
  function KeptTo(rulers: seq<Ruler>, i: nat): string
    requires i < |rulers|
  {
    TrimRight(IsGoSpace, SentTo(rulers, i))
  }

  /** A row the dialog sends and the server takes as one rule. */
  predicate Accepted(r: Ruler) { r.from != "" && r.to != "" && ';' !in r.from && ';' !in r.to }

  lemma TrimLeftRule(space: char -> bool, from: string, middle: string)
    requires !space(',')
    ensures TrimLeft(space, from + [','] + middle) == TrimLeft(space, from) + [','] + middle
  {
    TrimLeftUpTo(space, from, ',');
    assert (from + [','])[|from|] == ',';
    TrimLeftOnto(space, from + [','], middle);
  }

  lemma TrimRightRule(space: char -> bool, from: string, prefix: string, to: string)
    requires prefix != "" && !space(prefix[|prefix| - 1])
    ensures TrimRight(space, from + [','] + prefix + to) == from + [','] + prefix + TrimRight(space, to)
  {
    TrimRightOnto(space, from + [','] + prefix, to);
  }

  lemma PrefixEnds(scheme: Scheme)
    ensures Prefix(scheme) != "" && Prefix(scheme)[|Prefix(scheme)| - 1] == '/'
  {
  }

  lemma RuleRegroup(from: string, prefix: string, to: string)
    ensures from + [','] + prefix + to == from + [','] + (prefix + to)
  {
  }

  /** The printed rows with the start of the first trimmed. */
  lemma SentStart(rulers: seq<Ruler>)
    requires rulers != []
    ensures TrimLeft(IsJsSpace, Join(PrintedAll(rulers), ";")) ==
            Join(PrintedAll(rulers)[0 := Printed(rulers[0].(from := SentFrom(rulers, 0)))], ";")
  {
    var ps, r := PrintedAll(rulers), rulers[0];
    RuleRegroup(r.from, Prefix(r.scheme), r.to);
    RuleRegroup(SentFrom(rulers, 0), Prefix(r.scheme), r.to);
    assert ps[0][|r.from|] == ',';
    assert ',' in ps[0] && !IsJsSpace(',');
    TrimLeftJoin(IsJsSpace, ps, ';');
    TrimLeftRule(IsJsSpace, r.from, Prefix(r.scheme) + r.to);
  }

  lemma SentEnd(rulers: seq<Ruler>, qs: seq<string>)
    requires rulers != [] && qs == PrintedAll(rulers)[0 := Printed(rulers[0].(from := SentFrom(rulers, 0)))]
    ensures qs[|rulers| - 1 := TrimRight(IsJsSpace, qs[|rulers| - 1])] == SentRules(rulers)
  {
    var last := |rulers| - 1;
    PrefixEnds(rulers[last].scheme);
    TrimRightRule(IsJsSpace, SentFrom(rulers, last), Prefix(rulers[last].scheme), rulers[last].to);
  }

  lemma SentIsTrimmed(rulers: seq<Ruler>)
    requires rulers != []
    ensures Trim(IsJsSpace, Join(PrintedAll(rulers), ";")) == Join(SentRules(rulers), ";")
  {
    var qs := PrintedAll(rulers)[0 := Printed(rulers[0].(from := SentFrom(rulers, 0)))];
    SentStart(rulers);
    TrimRightJoin(IsJsSpace, qs, ';');
    SentEnd(rulers, qs);
  }

  lemma RuleTrim(space: char -> bool, from: string, prefix: string, to: string)
    requires !space(',') && prefix != "" && !space(prefix[|prefix| - 1])
    ensures Trim(space, from + [','] + prefix + to) == TrimLeft(space, from) + [','] + (prefix + TrimRight(space, to))
  {
    var l := TrimLeft(space, from);
    RuleRegroup(from, prefix, to);
    TrimLeftRule(space, from, prefix + to);
    RuleRegroup(l, prefix, to);
    TrimRightRule(space, l, prefix, to);
    RuleRegroup(l, prefix, TrimRight(space, to));
  }

  lemma ServerTrim(from: string, scheme: Scheme, to: string)
    ensures Trim(IsGoSpace, from + [','] + Prefix(scheme) + to) ==
            TrimLeft(IsGoSpace, from) + [','] + (Prefix(scheme) + TrimRight(IsGoSpace, to))
  {
    PrefixEnds(scheme);
    RuleTrim(IsGoSpace, from, Prefix(scheme), to);
  }

  /** What is left of row i when the server splits it: both sides trimmed from outside, the scheme between. */
  function KeptText(rulers: seq<Ruler>, i: nat): string
    requires i < |rulers|
  {
    TrimLeft(IsGoSpace, SentFrom(rulers, i)) + [','] + (Prefix(rulers[i].scheme) + KeptTo(rulers, i))
  }

  lemma SentIsOneRule(rulers: seq<Ruler>, i: nat)
    requires i < |rulers| && Accepted(rulers[i])
    ensures ';' !in SentRule(rulers, i) && Trim(IsGoSpace, SentRule(rulers, i)) == KeptText(rulers, i) != ""
    ensures |SentRule(rulers, i)| > 1 && ',' in SentRule(rulers, i)
  {
    TrimLeftFacts(IsJsSpace, rulers[i].from);
    TrimRightFacts(IsJsSpace, rulers[i].to);
    ServerTrim(SentFrom(rulers, i), rulers[i].scheme, SentTo(rulers, i));
    NoSemicolon(rulers[i].scheme);
    RuleChars(SentFrom(rulers, i), Prefix(rulers[i].scheme), SentTo(rulers, i));
    RuleChars(TrimLeft(IsGoSpace, SentFrom(rulers, i)), Prefix(rulers[i].scheme), KeptTo(rulers, i));
    RuleRegroup(TrimLeft(IsGoSpace, SentFrom(rulers, i)), Prefix(rulers[i].scheme), KeptTo(rulers, i));
  }

  lemma NoSemicolon(scheme: Scheme)
    ensures ';' !in Prefix(scheme) && Prefix(scheme) != ""
  {
  }

  lemma RuleChars(from: string, prefix: string, to: string)
    requires prefix != ""
    ensures var r := from + [','] + prefix + to;
            |r| > 1 && ',' in r && (';' !in from && ';' !in prefix && ';' !in to ==> ';' !in r)
  {
    assert (from + [','] + prefix + to)[|from|] == ',';
  }

  lemma {:induction false} FieldsAt(rules: seq<string>, i: nat)
    requires i < |rules|
    ensures |Fields(rules)| == |rules| && Fields(rules)[i] == Split(rules[i], ',')
  {
    if |rules| > 1 { FieldsAt(rules[1..], if i > 0 then i - 1 else 0); }
  }

  lemma {:induction false} CleanKeepsAll(space: char -> bool, parts: seq<string>)
    requires forall p | p in parts :: Trim(space, p) != ""
    ensures |Clean(space, parts)| == |parts|
  {
    if parts != [] {
      assert parts[0] in parts;
      assert forall p | p in parts[1..] :: p in parts;
      CleanKeepsAll(space, parts[1..]);
    }
  }

  /** What the server stores for a list of rows without semicolons: for each, its kept text split at the commas. */
  lemma ReplaceStored(rulers: seq<Ruler>, i: nat)
    requires i < |rulers| && forall r | r in rulers :: Accepted(r)
    ensures ReplaceParam(rulers) != "-"
    ensures var fields := Fields(Parsed(ReplaceParam(rulers)));
            |fields| == |rulers| && fields[i] == Split(KeptText(rulers, i), ',')
  {
    var sent := SentRules(rulers);
    SentIsTrimmed(rulers);
    forall k | 0 <= k < |rulers|
      ensures ';' !in sent[k] && ',' in sent[k] && Trim(IsGoSpace, sent[k]) != "" && |sent[k]| > 1
    {
      SentIsOneRule(rulers, k);
    }
    SplitJoin(sent, ';');
    CleanKeepsAll(IsGoSpace, sent);
    CleanLength(IsGoSpace, sent);
    SentIsOneRule(rulers, i);
    FieldsAt(Parsed(ReplaceParam(rulers)), i);
  }

  // ---- When a rule of the dialog reaches a case of the switch ----

  predicate IsScheme(w: string) { w == "http://" || w == "https://" || w == "file://" }

  /** A case is taken and finds its third field. */
  predicate TakesCase(fields: seq<string>) { |fields| > 2 && IsScheme(fields[1]) }

  lemma {:induction false} SplitConcat(g: string, rest: string)
    ensures Split(g + [','] + rest, ',') == Split(g, ',') + Split(rest, ',')
  {
    var s := g + [','] + rest;
    if g == "" {
      assert s[1..] == rest;
    } else {
      assert s[1..] == g[1..] + [','] + rest;
      SplitConcat(g[1..], rest);
    }
  }

  lemma FirstComma(s: string) returns (a: string, g: string)
    requires ',' in s
    ensures ',' !in a && s == a + [','] + g
  {
    var k := FirstCommaAt(s);
    a, g := s[..k], s[k + 1..];
  }

  function FirstCommaAt(s: string): (k: nat)
    requires ',' in s
    ensures k < |s| && s[k] == ',' && ',' !in s[..k]
  {
    if s[0] == ',' then 0 else 1 + FirstCommaAt(s[1..])
  }

  /** Trimming the front of a pattern leaves everything from its first comma on alone. */
  lemma TrimmedPattern(rulers: seq<Ruler>, i: nat, a: string, g: string)
    requires i < |rulers| && rulers[i].from == a + [','] + g && ',' !in a
    ensures exists a' :: ',' !in a' && TrimLeft(IsGoSpace, SentFrom(rulers, i)) == a' + [','] + g
  {
    TrimLeftFacts(IsJsSpace, a);
    TrimLeftRule(IsJsSpace, a, g);
    var sent := if i == 0 then TrimLeft(IsJsSpace, a) else a;
    assert SentFrom(rulers, i) == sent + [','] + g;
    TrimLeftFacts(IsGoSpace, sent);
    TrimLeftRule(IsGoSpace, sent, g);
    assert ',' !in TrimLeft(IsGoSpace, sent);
  }

  /** The text between the first comma and the next, or nothing. */
  function BetweenCommas(s: string): string {
    var parts := Split(s, ',');
    if |parts| > 1 then parts[1] else ""
  }

  lemma SplitPattern(a': string, a: string, g: string, rest: string)
    requires ',' !in a' && ',' !in a
    ensures var from := Split(a + [','] + g, ',');
            |from| > 1 && Split(a' + [','] + g + [','] + rest, ',')[1..] == from[1..] + Split(rest, ',')
  {
    SplitConcat(a' + [','] + g, rest);
    SplitFirst(a', g, ',');
    SplitFirst(a, g, ',');
    BehindFirst(a', Split(g, ','), Split(rest, ','));
    BehindFirst(a, Split(g, ','), []);
  }

  lemma BehindFirst(a: string, b: seq<string>, c: seq<string>)
    ensures ([a] + b)[1..] == b && ([a] + b + c)[1..] == b + c
  {
  }

  /** With a comma in the pattern, the second field is what stands between it and the next comma. */
  lemma CommaInPattern(rulers: seq<Ruler>, i: nat)
    requires i < |rulers| && ',' in rulers[i].from
    ensures var fields, from := Split(KeptText(rulers, i), ','), Split(rulers[i].from, ',');
            |from| > 1 && fields[1..] == from[1..] + Split(Prefix(rulers[i].scheme) + KeptTo(rulers, i), ',')
  {
    var a, g := FirstComma(rulers[i].from);
    TrimmedPattern(rulers, i, a, g);
    var a' :| ',' !in a' && TrimLeft(IsGoSpace, SentFrom(rulers, i)) == a' + [','] + g;
    SplitPattern(a', a, g, Prefix(rulers[i].scheme) + KeptTo(rulers, i));
  }

  /** Without one, it is the scheme and the replacement up to its first comma. */
  lemma NoCommaInPattern(rulers: seq<Ruler>, i: nat)
    requires i < |rulers| && ',' !in rulers[i].from
    ensures var f := TrimLeft(IsGoSpace, SentFrom(rulers, i));
            Split(KeptText(rulers, i), ',') == [f] + Split(Prefix(rulers[i].scheme) + KeptTo(rulers, i), ',')
  {
    TrimLeftFacts(IsJsSpace, rulers[i].from);
    TrimLeftFacts(IsGoSpace, SentFrom(rulers, i));
    SplitFirst(TrimLeft(IsGoSpace, SentFrom(rulers, i)), Prefix(rulers[i].scheme) + KeptTo(rulers, i), ',');
  }

  lemma PrefixHasNoComma(scheme: Scheme)
    ensures ',' !in Prefix(scheme) && IsScheme(Prefix(scheme))
  {
  }

  /** A scheme and a replacement without a comma are one field, a scheme word only if there is no replacement. */
  lemma ReplacementAlone(scheme: Scheme, kept: string)
    requires ',' !in kept
    ensures Split(Prefix(scheme) + kept, ',') == [Prefix(scheme) + kept]
            && (IsScheme(Prefix(scheme) + kept) <==> kept == "")
  {
    PrefixHasNoComma(scheme);
    SplitFree(Prefix(scheme) + kept, ',');
    OnlyThePrefix(scheme, kept);
  }

  /** A text with a comma behind one without: the first piece ends at the first comma. */
  lemma PieceWithComma(p: string, kept: string) returns (k0: string, k1: string)
    requires ',' !in p && ',' in kept
    ensures kept == k0 + [','] + k1 && Split(p + kept, ',') == [p + k0] + Split(k1, ',')
    ensures kept[0] == ',' <==> k0 == ""
    ensures k0 == "" ==> kept[1..] == k1
  {
    k0, k1 := FirstComma(kept);
    Associative(p, k0, [','] + k1);
    assert kept == k0 + ([','] + k1) && p + kept == (p + k0) + [','] + k1;
    SplitFirst(p + k0, k1, ',');
  }

  /** With a comma they are several, the first a scheme word only if the comma comes at once. */
  lemma ReplacementWithComma(scheme: Scheme, kept: string)
    requires ',' in kept
    ensures var fs := Split(Prefix(scheme) + kept, ',');
            && |fs| > 1 && (IsScheme(fs[0]) <==> kept[0] == ',')
            && (kept[0] == ',' ==> fs == [Prefix(scheme)] + Split(kept[1..], ','))
  {
    PrefixHasNoComma(scheme);
    var k0, k1 := PieceWithComma(Prefix(scheme), kept);
    OnlyThePrefix(scheme, k0);
    if k0 == "" { assert Prefix(scheme) + k0 == Prefix(scheme); }
  }

  lemma OnlyThePrefix(scheme: Scheme, more: string)
    ensures IsScheme(Prefix(scheme) + more) <==> more == ""
  {
    if more != "" {
      PrefixAlone(scheme, HttpScheme, more);
      PrefixAlone(scheme, HttpsScheme, more);
      PrefixAlone(scheme, FileScheme, more);
      assert Prefix(HttpScheme) == "http://" && Prefix(HttpsScheme) == "https://" && Prefix(FileScheme) == "file://";
    } else {
      assert Prefix(scheme) + more == Prefix(scheme);
    }
  }

  lemma PrefixAlone(a: Scheme, b: Scheme, more: string)
    requires more != ""
    ensures Prefix(a) + more != Prefix(b)
  {
    if b.HttpsScheme? && !a.HttpsScheme? {
      assert (Prefix(a) + more)[4] == Prefix(a)[4] && (Prefix(a) + more)[0] == Prefix(a)[0];
    }
  }

  /**
   Exactly when a row works, once its pattern matches: either the pattern has no comma and the replacement, as
   the server keeps it, starts with one, or the text between the pattern's first comma and the next comma is one
   of the scheme words.
   */
  lemma ReplaceTakesCaseIff(rulers: seq<Ruler>, i: nat)
    requires i < |rulers| && forall r | r in rulers :: Accepted(r)
    ensures var fields := Fields(Parsed(ReplaceParam(rulers)));
            |fields| == |rulers| &&
            (TakesCase(fields[i]) <==>
               (',' !in rulers[i].from && KeptTo(rulers, i) != "" && KeptTo(rulers, i)[0] == ',')
               || IsScheme(BetweenCommas(rulers[i].from)))
  {
    ReplaceStored(rulers, i);
    if ',' in rulers[i].from {
      CommaInPattern(rulers, i);
      var fields, from := Split(KeptText(rulers, i), ','), Split(rulers[i].from, ',');
      assert |fields| > 2 && fields[1] == fields[1..][0] == from[1];
    } else {
      NoCommaInPattern(rulers, i);
      SplitFree(rulers[i].from, ',');
      KeptFields(rulers, i);
    }
  }

  lemma KeptFields(rulers: seq<Ruler>, i: nat)
    requires i < |rulers|
    ensures var kept := KeptTo(rulers, i); var fs := Split(Prefix(rulers[i].scheme) + kept, ',');
            (|fs| > 1 && IsScheme(fs[0])) <==> (kept != "" && kept[0] == ',')
  {
    if ',' in KeptTo(rulers, i) {
      ReplacementWithComma(rulers[i].scheme, KeptTo(rulers, i));
    } else {
      ReplacementAlone(rulers[i].scheme, KeptTo(rulers, i));
    }
  }

  /** A comma typed at the front of the replacement: the target is what follows, up to the next comma. */
  lemma CommaReachesCase(rulers: seq<Ruler>, i: nat)
    requires i < |rulers| && forall r | r in rulers :: Accepted(r)
    requires ',' !in rulers[i].from && KeptTo(rulers, i) != "" && KeptTo(rulers, i)[0] == ','
    ensures var fields, target := Fields(Parsed(ReplaceParam(rulers))), Split(KeptTo(rulers, i)[1..], ',')[0];
            |fields| == |rulers| &&
            ReplaceOutcome(fields[i]) == match rulers[i].scheme
                                         case HttpScheme => Fetch(target)
                                         case HttpsScheme => Fetch(target)
                                         case FileScheme => ReadFile("/" + target)
  {
    ReplaceStored(rulers, i);
    NoCommaInPattern(rulers, i);
    ReplacementWithComma(rulers[i].scheme, KeptTo(rulers, i));
    PrefixHasNoComma(rulers[i].scheme);
    MoreFields(TrimLeft(IsGoSpace, SentFrom(rulers, i)), Prefix(rulers[i].scheme), Split(KeptTo(rulers, i)[1..], ','));
  }

  lemma SchemeHasNoComma(w: string)
    requires IsScheme(w)
    ensures ',' !in w
  {
  }

  /** A pattern that ends in a comma and a scheme word: the target is the scheme chosen and the replacement. */
  lemma PatternReachesCase(rulers: seq<Ruler>, i: nat, a: string, w: string)
    requires i < |rulers| && forall r | r in rulers :: Accepted(r)
    requires rulers[i].from == a + [','] + w && ',' !in a && IsScheme(w) && ',' !in KeptTo(rulers, i)
    ensures var fields := Fields(Parsed(ReplaceParam(rulers)));
            var target := (match rulers[i].scheme
                           case HttpScheme => "http://"
                           case HttpsScheme => "https://"
                           case FileScheme => "file://") + KeptTo(rulers, i);
            |fields| == |rulers| &&
            ReplaceOutcome(fields[i]) == if w == "file://" then ReadFile("/" + target) else Fetch(target)
  {
    var target := Prefix(rulers[i].scheme) + KeptTo(rulers, i);
    ReplaceStored(rulers, i);
    SchemeHasNoComma(w);
    SplitFirst(a, w, ',');
    SplitFree(w, ',');
    assert rulers[i].from[|a|] == ',';
    CommaInPattern(rulers, i);
    ReplacementAlone(rulers[i].scheme, KeptTo(rulers, i));
    var fields := Split(KeptText(rulers, i), ',');
    assert Split(rulers[i].from, ',')[1..] == [w];
    assert fields[1..] == [w] + [target];
    assert fields[1] == fields[1..][0] && fields[2] == fields[1..][1];
  }

  /**
   So rows without commas never work: each is stored as two fields, and when its pattern matches the switch
   takes no case, except for a replacement of white space only, which does take a case and then indexes a
   third field that is not there.
   */
  lemma ReplaceNeverTakesCase(rulers: seq<Ruler>, i: nat)
    requires i < |rulers| && (forall r | r in rulers :: Accepted(r)) && ',' !in rulers[i].from && ',' !in rulers[i].to
    ensures var fields := Fields(Parsed(ReplaceParam(rulers)));
            |fields| == |rulers| && |fields[i]| == 2 &&
            ReplaceOutcome(fields[i]) == if KeptTo(rulers, i) != "" then EmptyReply else IndexPanic
  {
    ReplaceStored(rulers, i);
    NoCommaInPattern(rulers, i);
    KeptHasNoComma(rulers, i);
    ReplacementAlone(rulers[i].scheme, KeptTo(rulers, i));
    TwoFields(TrimLeft(IsGoSpace, SentFrom(rulers, i)), Prefix(rulers[i].scheme) + KeptTo(rulers, i));
    PrefixHasNoComma(rulers[i].scheme);
  }

  lemma KeptHasNoComma(rulers: seq<Ruler>, i: nat)
    requires i < |rulers| && ',' !in rulers[i].to
    ensures ',' !in KeptTo(rulers, i)
  {
    TrimRightFacts(IsJsSpace, rulers[i].to);
    TrimRightFacts(IsGoSpace, SentTo(rulers, i));
  }

  lemma TwoFields(f: string, w: string)
    ensures ReplaceOutcome([f] + [w]) == (if IsScheme(w) then IndexPanic else EmptyReply) && |[f] + [w]| == 2
  {
  }

  lemma MoreFields(f: string, w: string, more: seq<string>)
    requires IsScheme(w) && more != []
    ensures ReplaceOutcome([f] + ([w] + more)) == if w == "file://" then ReadFile("/" + more[0]) else Fetch(more[0])
  {
  }

  /** A rule sent without any comma, by a request of one's own, is one field: its match indexes a missing one. */
  lemma NoCommaPanics(text: string)
    requires text != "" && Trimmed(IsGoSpace, text) && ';' !in text && ',' !in text
    ensures Fields(Parsed(text)) == [[text]] && ReplaceOutcome([text]) == IndexPanic
  {
    SplitFree(text, ';');
    SplitFree(text, ',');
    TrimFixed(IsGoSpace, text);
    CleanFixed(IsGoSpace, [text]);
    assert Fields([text]) == [Split(text, ',')] + Fields([text][1..]);
  }

  /** A row the dialog accepts, a pattern and a replacement of one blank, makes the server index a missing field. */
  lemma WhiteSpacePanicWitness()
    ensures var fields := Fields(Parsed(ReplaceParam([Ruler("a", HttpsScheme, " ")])));
            |fields| == 1 && ReplaceOutcome(fields[0]) == IndexPanic
  {
    var rulers := [Ruler("a", HttpsScheme, " ")];
    assert TrimRight(IsJsSpace, " ") == "";
    assert Accepted(rulers[0]) && KeptTo(rulers, 0) == "";
    ReplaceNeverTakesCase(rulers, 0);
  }
}
