/** What the readers of printed code fragments share: skipping white space and matching fixed words. */
module Reading {
  import opened Prelude

  datatype Parsed<+T> = Fail | Got(value: T, rest: string)

  predicate Blank(c: char) { c == ' ' || c == '\t' || c == '\n' || c == '\r' }

  predicate AllBlank(s: string) { forall i | 0 <= i < |s| :: Blank(s[i]) }

  function Skip(t: string): (r: string)
    ensures |r| <= |t|
    ensures r != "" ==> !Blank(r[0])
  {
    if t != "" && Blank(t[0]) then Skip(t[1..]) else t
  }

  /** What follows the given word, leading white space apart. */
  function After(t: string, word: string): (o: Option<string>)
    ensures o.Some? ==> |o.value| + |word| <= |t|
  {
    var s := Skip(t);
    if |word| <= |s| && s[..|word|] == word then Some(s[|word|..]) else None
  }

  lemma {:induction false} SkipOver(lead: string, t: string)
    requires AllBlank(lead) && t != "" && !Blank(t[0])
    ensures Skip(lead + t) == t
  {
    if lead == "" {
      assert lead + t == t;
    } else {
      assert (lead + t)[1..] == lead[1..] + t;
      SkipOver(lead[1..], t);
    }
  }

  lemma AfterWord(lead: string, word: string, t: string)
    requires AllBlank(lead) && word != "" && !Blank(word[0])
    ensures After(lead + word + t, word) == Some(t)
  {
    assert lead + word + t == lead + (word + t);
    SkipOver(lead, word + t);
    assert (word + t)[..|word|] == word && (word + t)[|word|..] == t;
  }

  /** Another word does not match text whose first character differs. */
  lemma OtherWord(lead: string, t: string, word: string)
    requires AllBlank(lead) && t != "" && !Blank(t[0]) && word != "" && word[0] != t[0]
    ensures After(lead + t, word) == None
  {
    SkipOver(lead, t);
    if |word| <= |t| { assert t[..|word|][0] == t[0]; }
  }

  /** Exactly v was read, wherever the reading stopped. */
  predicate Yields<T(==)>(p: Parsed<T>, v: T) { p.Got? && p.value == v }

  /** Length of the leading run of characters with the given property. */
  function Span(p: char -> bool, t: string): (n: nat)
    ensures n <= |t| && forall i | 0 <= i < n :: p(t[i])
  {
    if t == "" || !p(t[0]) then 0 else 1 + Span(p, t[1..])
  }

  lemma {:induction false} SpanStops(p: char -> bool, a: string, rest: string)
    requires (forall i | 0 <= i < |a| :: p(a[i])) && (rest == "" || !p(rest[0]))
    ensures Span(p, a + rest) == |a|
  {
    if a == "" {
      assert a + rest == rest;
    } else {
      assert (a + rest)[1..] == a[1..] + rest;
      SpanStops(p, a[1..], rest);
    }
  }

  predicate IsHex(c: char) { '0' <= c <= '9' || 'a' <= c <= 'f' || 'A' <= c <= 'F' }

  function HexVal(c: char): nat
    requires IsHex(c)
    ensures HexVal(c) < 16
  {
    if c <= '9' then (c - '0') as nat else if c <= 'F' then (c - 'A') as nat + 10 else (c - 'a') as nat + 10
  }
}
