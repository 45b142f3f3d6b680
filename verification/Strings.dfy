/** Splitting, joining and trimming of text, as JavaScript and Go do it. */
module Strings {

  function Split(s: string, sep: char): (parts: seq<string>)
    ensures |parts| >= 1
  {
    if s == [] then [[]]
    else
      var rest := Split(s[1..], sep);
      if s[0] == sep then [[]] + rest else [[s[0]] + rest[0]] + rest[1..]
  }

  function Join(parts: seq<string>, sep: string): string {
    if parts == [] then []
    else if |parts| == 1 then parts[0]
    else parts[0] + sep + Join(parts[1..], sep)
  }

  function TrimLeft(space: char -> bool, s: string): string {
    if s != [] && space(s[0]) then TrimLeft(space, s[1..]) else s
  }

  function TrimRight(space: char -> bool, s: string): string {
    if s != [] && space(s[|s| - 1]) then TrimRight(space, s[..|s| - 1]) else s
  }

  function Trim(space: char -> bool, s: string): string {
    TrimRight(space, TrimLeft(space, s))
  }

  predicate Trimmed(space: char -> bool, s: string) {
    s != [] ==> !space(s[0]) && !space(s[|s| - 1])
  }

  /** Trims every part and drops the empty ones. */
  function Clean(space: char -> bool, parts: seq<string>): seq<string> {
    if parts == [] then []
    else
      var t := Trim(space, parts[0]);
      (if t == "" then [] else [t]) + Clean(space, parts[1..])
  }

  /** String.prototype.trim: white space and line terminators. */
  predicate IsJsSpace(c: char) {
    var n := c as int;
    9 <= n <= 13 || n == 0x20 || n == 0xA0 || n == 0x1680 || 0x2000 <= n <= 0x200A || n == 0x2028 || n == 0x2029 ||
    n == 0x202F || n == 0x205F || n == 0x3000 || n == 0xFEFF
  }

  /** strings.TrimSpace: the Unicode White_Space characters. */
  predicate IsGoSpace(c: char) {
    var n := c as int;
    9 <= n <= 13 || n == 0x20 || n == 0x85 || n == 0xA0 || n == 0x1680 || 0x2000 <= n <= 0x200A || n == 0x2028 ||
    n == 0x2029 ||
    n == 0x202F || n == 0x205F || n == 0x3000
  }

  // ---- Split and Join are inverse ----

  lemma {:induction false} SplitFree(p: string, sep: char)
    requires sep !in p
    ensures Split(p, sep) == [p]
  {
    if p != [] {
      SplitFree(p[1..], sep);
      assert p == [p[0]] + p[1..];
    }
  }

  lemma {:induction false} SplitFirst(p: string, rest: string, sep: char)
    requires sep !in p
    ensures Split(p + [sep] + rest, sep) == [p] + Split(rest, sep)
  {
    var s := p + [sep] + rest;
    if p == [] {
      assert s[1..] == rest;
    } else {
      assert s[1..] == p[1..] + [sep] + rest;
      SplitFirst(p[1..], rest, sep);
      assert p == [p[0]] + p[1..];
    }
  }

  lemma {:induction false} SplitJoin(parts: seq<string>, sep: char)
    requires parts != [] && forall p | p in parts :: sep !in p
    ensures Split(Join(parts, [sep]), sep) == parts
  {
    if |parts| == 1 {
      SplitFree(parts[0], sep);
    } else {
      SplitJoin(parts[1..], sep);
      SplitFirst(parts[0], Join(parts[1..], [sep]), sep);
    }
  }

  /** Pieces never contain the separator and only contain characters of the text. */
  lemma {:induction false} SplitPieces(s: string, sep: char, p: string)
    requires p in Split(s, sep)
    ensures sep !in p && forall c | c in p :: c in s
  {
    if s != [] {
      var rest := Split(s[1..], sep);
      if s[0] == sep {
        if p in rest { SplitPieces(s[1..], sep, p); }
      } else if p == [s[0]] + rest[0] {
        SplitPieces(s[1..], sep, rest[0]);
      } else {
        assert p in rest[1..];
        SplitPieces(s[1..], sep, p);
      }
    }
  }

  lemma {:induction false} JoinChars(parts: seq<string>, sep: char, c: char)
    requires c in Join(parts, [sep]) && c != sep
    ensures exists p :: p in parts && c in p
  {
    if |parts| == 1 {
      assert parts[0] in parts;
    } else {
      if c in parts[0] {
        assert parts[0] in parts;
      } else {
        JoinChars(parts[1..], sep, c);
        var p :| p in parts[1..] && c in p;
        assert p in parts;
      }
    }
  }

  // ---- Trimming ----

  lemma {:induction false} TrimLeftFacts(space: char -> bool, s: string)
    ensures var t := TrimLeft(space, s);
            |t| <= |s| && (|t| == |s| ==> t == s) && (t != [] ==> !space(t[0])) && forall c | c in t :: c in s
  {
    if s != [] && space(s[0]) { TrimLeftFacts(space, s[1..]); }
  }

  lemma {:induction false} TrimRightFacts(space: char -> bool, s: string)
    ensures var t := TrimRight(space, s);
            |t| <= |s| && (|t| == |s| ==> t == s) && t <= s && (t != [] ==> !space(t[|t| - 1]))
  {
    if s != [] && space(s[|s| - 1]) { TrimRightFacts(space, s[..|s| - 1]); }
  }

  lemma TrimFacts(space: char -> bool, s: string)
    ensures var t := Trim(space, s);
            |t| <= |s| && (|t| == |s| ==> t == s) && Trimmed(space, t) && forall c | c in t :: c in s
  {
    var l := TrimLeft(space, s);
    TrimLeftFacts(space, s);
    TrimRightFacts(space, l);
  }

  lemma TrimFixed(space: char -> bool, s: string)
    requires Trimmed(space, s)
    ensures Trim(space, s) == s
  {
  }

  lemma {:induction false} TrimLeftOnto(space: char -> bool, a: string, b: string)
    requires exists c :: c in a && !space(c)
    ensures TrimLeft(space, a + b) == TrimLeft(space, a) + b
  {
    if space(a[0]) {
      assert (a + b)[1..] == a[1..] + b;
      TrimLeftOnto(space, a[1..], b);
    }
  }

  lemma {:induction false} TrimRightOnto(space: char -> bool, a: string, b: string)
    requires a != [] && !space(a[|a| - 1])
    ensures TrimRight(space, a + b) == a + TrimRight(space, b)
  {
    if b == [] {
      assert a + b == a;
    } else if space(b[|b| - 1]) {
      assert (a + b)[..|a + b| - 1] == a + b[..|b| - 1];
      TrimRightOnto(space, a, b[..|b| - 1]);
    }
  }

  lemma {:induction false} TrimLeftUpTo(space: char -> bool, s: string, c: char)
    requires !space(c)
    ensures TrimLeft(space, s + [c]) == TrimLeft(space, s) + [c]
  {
    if s != [] {
      assert (s + [c])[1..] == s[1..] + [c];
      TrimLeftUpTo(space, s[1..], c);
    }
  }

  /** Trimming a joined text only affects the first part's start and the last part's end. */
  lemma TrimLeftJoin(space: char -> bool, parts: seq<string>, sep: char)
    requires parts != [] && exists c :: c in parts[0] && !space(c)
    ensures TrimLeft(space, Join(parts, [sep])) == Join(parts[0 := TrimLeft(space, parts[0])], [sep])
  {
    var t := parts[0 := TrimLeft(space, parts[0])];
    if |parts| > 1 {
      assert parts[0] + [sep] + Join(parts[1..], [sep]) == parts[0] + ([sep] + Join(parts[1..], [sep]));
      TrimLeftOnto(space, parts[0], [sep] + Join(parts[1..], [sep]));
      assert t[1..] == parts[1..];
    }
  }

  lemma {:induction false} TrimRightJoin(space: char -> bool, parts: seq<string>, sep: char)
    requires parts != [] && !space(sep)
    ensures TrimRight(space, Join(parts, [sep]))
            == Join(parts[|parts| - 1 := TrimRight(space, parts[|parts| - 1])], [sep])
  {
    if |parts| > 1 {
      var last := |parts| - 1;
      TrimRightJoin(space, parts[1..], sep);
      TrimRightOnto(space, parts[0] + [sep], Join(parts[1..], [sep]));
      assert parts[last := TrimRight(space, parts[last])][1..] == parts[1..][last - 1 := TrimRight(space, parts[last])];
    }
  }

  // ---- Cleaning a list ----

  /** One turn of a loop that collects the cleaned parts from left to right. */
  lemma CleanStep(space: char -> bool, parts: seq<string>, i: nat, done: seq<string>, total: seq<string>)
    requires i < |parts| && done + Clean(space, parts[i..]) == total
    ensures var t := Trim(space, parts[i]);
            (if t == "" then done else done + [t]) + Clean(space, parts[i + 1..]) == total
  {
    assert parts[i..][1..] == parts[i + 1..];
  }

  lemma {:induction false} CleanFixed(space: char -> bool, parts: seq<string>)
    requires forall p | p in parts :: p != "" && Trimmed(space, p)
    ensures Clean(space, parts) == parts
  {
    if parts != [] {
      assert forall p | p in parts[1..] :: p in parts;
      assert parts[0] in parts;
      TrimFixed(space, parts[0]);
      CleanFixed(space, parts[1..]);
    }
  }

  /** Cleaning that drops nothing has trimmed each part in its place. */
  lemma {:induction false} CleanLength(space: char -> bool, parts: seq<string>)
    ensures |Clean(space, parts)| <= |parts|
    ensures |Clean(space, parts)| == |parts| ==>
              forall i | 0 <= i < |parts| :: Clean(space, parts)[i] == Trim(space, parts[i])
  {
    if parts != [] {
      CleanLength(space, parts[1..]);
      var rest := Clean(space, parts[1..]);
      if |Clean(space, parts)| == |parts| {
        forall i | 0 <= i < |parts| ensures Clean(space, parts)[i] == Trim(space, parts[i]) {
          if i > 0 { assert rest[i - 1] == Trim(space, parts[1..][i - 1]); }
        }
      }
    }
  }

  lemma {:induction false} CleanMembers(space: char -> bool, parts: seq<string>, r: string)
    requires r in Clean(space, parts)
    ensures r != "" && Trimmed(space, r)
    ensures exists p :: p in parts && forall c | c in r :: c in p
  {
    var t := Trim(space, parts[0]);
    TrimFacts(space, parts[0]);
    if r == t && t != "" {
      assert parts[0] in parts;
    } else {
      CleanMembers(space, parts[1..], r);
      var p :| p in parts[1..] && forall c | c in r :: c in p;
      assert p in parts;
    }
  }
}
