/** The body argument of the Go converter: a raw string, or nil when there is no body. */
module GoClient {
  import opened Prelude
  import opened Literals

  datatype Argument = Wrong | Nil(rest: string) | Buffer(text: string, rest: string)

  function BodyText(body: Option<string>): string {
    if body.Some? then ", bytes.NewBuffer(`" + Escape(body.value, '`') + "`))" else ", nil)"
  }

  /** Reads the argument and the closing of the call. */
  function ReadArgument(t: string): Argument {
    if ", nil)" <= t then Nil(t[6..])
    else if ", bytes.NewBuffer(`" <= t then
      match ReadGoRaw(t[19..])
      case Bad => Wrong
      case Lit(value, rest) => if "))" <= rest then Buffer(value, rest[2..]) else Wrong
    else Wrong
  }

  /** A body comes back as it was iff it has neither a back quote nor a carriage return; no body comes back as nil. */
  lemma ArgumentExact(body: Option<string>, rest: string)
    ensures body.None? ==> ReadArgument(BodyText(body) + rest) == Nil(rest)
    ensures body.Some? ==>
              var a := ReadArgument(BodyText(body) + rest);
              && (a.Buffer? && a.text == body.value <==> '`' !in body.value && '\r' !in body.value)
              && ('`' !in body.value && '\r' !in body.value ==> a == Buffer(body.value, rest))
  {
    if body.Some? {
      var v, t := body.value, BodyText(body) + rest;
      assert "`))" == "`" + "))";
      assert |", bytes.NewBuffer(`"| == 19;
      Regroup(", bytes.NewBuffer(`", Escape(v, '`'), "))", rest);
      assert t[2] == 'b' && ", nil)"[2] == 'n';
      assert t[19..] == Escape(v, '`') + "`" + ("))" + rest);
      GoRawExact(v, "))" + rest);
      assert ("))" + rest)[2..] == rest;
    } else {
      assert (", nil)" + rest)[6..] == rest;
    }
  }

  lemma Regroup(a: string, b: string, c: string, d: string)
    ensures a + b + ("`" + c) + d == a + (b + "`" + (c + d))
  {
  }

  /** Prints the argument behind a call left open. What is printed reads back as the body, or as nil without one. */
  method PrintBody(start: string, body: Option<string>) returns (template: string)
    ensures template == start + BodyText(if Present(body) then body else None)
    ensures var a := ReadArgument(template[|start|..]);
            if !Present(body) then a == Nil("")
            else if '`' in body.value || '\r' in body.value then !(a.Buffer? && a.text == body.value)
            else a == Buffer(body.value, "")
  {
    ghost var given := if Present(body) then body else None;
    ArgumentExact(given, "");
    assert BodyText(given) + "" == BodyText(given);
    template := start;
    if Present(body) {
      var quoted := Escape(body.value, '`');
      template := template + (", bytes.NewBuffer(`" + quoted + "`))");
    } else {
      template := template + ", nil)";
    }
    assert template[|start|..] == BodyText(given);
  }
}
