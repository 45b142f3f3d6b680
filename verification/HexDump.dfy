/**
 The hex view of a body: UTF-8 bytes in lines of sixteen, each with an address, the bytes in hex
 and the printable characters; and a reader that gets everything back from the printed text.
 */
module HexDump {
  import opened Prelude
  import opened Reading
  import opened Strings
  import opened Unicode

  // ---- Printing ----

  function HexDigit(d: nat): char
    requires d < 16
  {
    if d < 10 then '0' + d as char else 'a' + (d - 10) as char
  }

  /** toString(16). */
  function Hex(n: nat): string {
    if n < 16 then [HexDigit(n)] else Hex(n / 16) + [HexDigit(n % 16)]
  }

  function Fill(c: char, n: nat): string { seq(n, _ => c) }

  function PadStart(s: string, n: nat, c: char): string {
    if |s| >= n then s else Fill(c, n - |s|) + s
  }

  function PadEnd(s: string, n: nat, c: char): string {
    if |s| >= n then s else s + Fill(c, n - |s|)
  }

  function HexBytes(block: seq<Byte>): seq<string> {
    seq(|block|, i requires 0 <= i < |block| => PadStart(Hex(block[i]), 2, '0'))
  }

  function HexLine(block: seq<Byte>): string {
    PadEnd(Join(HexBytes(block), " "), 48, ' ')
  }

  function Shown(b: Byte): char {
    if 0x20 <= b <= 0x7E then b as char else '.'
  }

  function CharLine(block: seq<Byte>): string {
    seq(|block|, i requires 0 <= i < |block| => Shown(block[i]))
  }

  function Line(addr: nat, block: seq<Byte>): string {
    PadStart(Hex(addr), 8, '0') + "  " + HexLine(block) + "  " + CharLine(block) + "\n"
  }

  /** The sixteen bytes at i, or what is left. */
  function Block(bytes: seq<Byte>, i: nat): seq<Byte>
    requires i <= |bytes|
  {
    if i + 16 <= |bytes| then bytes[i..i + 16] else bytes[i..]
  }

  function Dump(bytes: seq<Byte>, i: nat): string
    decreases |bytes| - i
  {
    if i >= |bytes| then "" else Line(i, Block(bytes, i)) + Dump(bytes, i + 16)
  }

  method FormatHexDump(input: seq<Unit>) returns (result: string)
    ensures result == Dump(EncodeAll(Scalars(input)), 0)
  {
    if input == [] { return ""; }
    var byteArray := EncodeAll(Scalars(input));
    result := "";
    var i := 0;
    while i < |byteArray|
      invariant result + Dump(byteArray, i) == Dump(byteArray, 0)
    {
      var block := Block(byteArray, i);
      var hexLine := Join(HexBytes(block), " ");
      hexLine := PadEnd(hexLine, 48, ' ');
      var charLine := CharLine(block);
      var lineNumber := PadStart(Hex(i), 8, '0');
      var line := lineNumber + "  " + hexLine + "  " + charLine + "\n";
      Associative(result, line, Dump(byteArray, i + 16));
      result := result + line;
      i := i + 16;
    }
    assert result + "" == result;
  }

  // ---- Reading ----

  datatype Row = Row(addr: nat, bytes: seq<Byte>, chars: string)

  /** The digits toString(16) uses. */
  predicate IsLowHex(c: char) { '0' <= c <= '9' || 'a' <= c <= 'f' }

  function HexNumber(s: string): nat
    requires forall i | 0 <= i < |s| :: IsLowHex(s[i])
  {
    if s == "" then 0
    else
      assert IsLowHex(s[|s| - 1]);
      16 * HexNumber(s[..|s| - 1]) + HexVal(s[|s| - 1])
  }

  /** The bytes of a hex column: pairs of digits each followed by a blank, up to the first blank pair. */
  function ReadBytes(area: string): seq<Byte> {
    if |area| < 3 || !IsLowHex(area[0]) || !IsLowHex(area[1]) then []
    else [16 * HexVal(area[0]) + HexVal(area[1])] + ReadBytes(area[3..])
  }

  /**
   One line: an address of at least eight digits, two blanks, 48 columns of hex, two blanks, one character per byte.
   */
  function ReadLine(text: string): Option<(Row, string)> {
    var n := Span(IsLowHex, text);
    if n < 8 || |text| < n + 52 || text[n..n + 2] != "  " || text[n + 50..n + 52] != "  " then None
    else
      var bytes := ReadBytes(text[n + 2..n + 50]);
      var k := n + 52 + |bytes|;
      if bytes == [] || |text| <= k || text[k] != '\n' then None
      else Some((Row(HexNumber(text[..n]), bytes, text[n + 52..k]), text[k + 1..]))
  }

  function ReadDump(text: string): Option<seq<Row>>
    decreases |text|
  {
    if text == "" then Some([])
    else
      match ReadLine(text)
      case None => None
      case Some((row, rest)) =>
        if |rest| >= |text| then None
        else
          match ReadDump(rest)
          case None => None
          case Some(rows) => Some([row] + rows)
  }

  /** The rows a dump should have. */
  function Rows(bytes: seq<Byte>, i: nat): seq<Row>
    decreases |bytes| - i
  {
    if i >= |bytes| then [] else [Row(i, Block(bytes, i), CharLine(Block(bytes, i)))] + Rows(bytes, i + 16)
  }

  function AllBytes(rows: seq<Row>): seq<Byte> {
    if rows == [] then [] else rows[0].bytes + AllBytes(rows[1..])
  }

  /** Back from the printed text to the string. */
  function ReadText(text: string): Option<seq<Unit>> {
    match ReadDump(text)
    case None => None
    case Some(rows) =>
      match DecodeAll(AllBytes(rows))
      case None => None
      case Some(vs) => Some(Units(vs))
  }

  // ---- The parts of a line ----

  lemma HexDigitReads(d: nat)
    requires d < 16
    ensures IsLowHex(HexDigit(d)) && HexVal(HexDigit(d)) == d
  {
  }

  lemma {:induction false} HexReads(n: nat)
    ensures (forall i | 0 <= i < |Hex(n)| :: IsLowHex(Hex(n)[i])) && HexNumber(Hex(n)) == n && |Hex(n)| >= 1
  {
    HexDigitReads(n % 16);
    if n < 16 {
      assert Hex(n)[..0] == "";
    } else {
      HexReads(n / 16);
      assert Hex(n)[..|Hex(n)| - 1] == Hex(n / 16);
    }
  }

  lemma {:induction false} HexLength(n: nat, k: nat)
    requires k >= 1 && n < Power16(k)
    ensures |Hex(n)| <= k
  {
    if n >= 16 { HexLength(n / 16, k - 1); }
  }

  function Power16(k: nat): nat {
    if k == 0 then 1 else 16 * Power16(k - 1)
  }

  lemma {:induction false} LeadingZeros(k: nat, s: string)
    requires forall i | 0 <= i < |s| :: IsLowHex(s[i])
    ensures (forall i | 0 <= i < |Fill('0', k) + s| :: IsLowHex((Fill('0', k) + s)[i]))
            && HexNumber(Fill('0', k) + s) == HexNumber(s)
    decreases |s|, k
  {
    var t := Fill('0', k) + s;
    if s != "" {
      assert t[..|t| - 1] == Fill('0', k) + s[..|s| - 1];
      LeadingZeros(k, s[..|s| - 1]);
    } else if k > 0 {
      assert t[..|t| - 1] == Fill('0', k - 1) + s;
      LeadingZeros(k - 1, s);
    }
  }

  lemma AddressReads(n: nat)
    ensures var a := PadStart(Hex(n), 8, '0');
            |a| >= 8 && (forall i | 0 <= i < |a| :: IsLowHex(a[i])) && HexNumber(a) == n
            && (n < Power16(8) ==> |a| == 8)
  {
    HexReads(n);
    if |Hex(n)| < 8 { LeadingZeros(8 - |Hex(n)|, Hex(n)); }
    if n < Power16(8) { HexLength(n, 8); }
  }

  function Pair(b: Byte): string { [HexDigit(b / 16), HexDigit(b % 16)] }

  lemma PairPrinted(b: Byte)
    ensures PadStart(Hex(b), 2, '0') == Pair(b)
  {
    if b < 16 {
      assert Fill('0', 1) + Hex(b) == Pair(b);
    } else {
      assert Hex(b / 16) == [HexDigit(b / 16)];
    }
  }

  /** The hex column as pairs each followed by a blank. */
  function Triples(block: seq<Byte>): string {
    if block == [] then "" else Pair(block[0]) + " " + Triples(block[1..])
  }

  lemma {:induction false} JoinedTriples(block: seq<Byte>)
    requires block != []
    ensures Join(HexBytes(block), " ") + " " == Triples(block)
    ensures |Triples(block)| == 3 * |block|
  {
    var parts := HexBytes(block);
    PairPrinted(block[0]);
    if |block| == 1 {
      assert Triples(block[1..]) == "";
      assert parts == [Pair(block[0])];
    } else {
      JoinedTriples(block[1..]);
      assert parts[1..] == HexBytes(block[1..]);
    }
  }

  lemma HexLinePrinted(block: seq<Byte>)
    requires 1 <= |block| <= 16
    ensures HexLine(block) == Triples(block) + Fill(' ', 48 - 3 * |block|) && |HexLine(block)| == 48
  {
    JoinedTriples(block);
    var j, n := Join(HexBytes(block), " "), 48 - 3 * |block|;
    assert Fill(' ', n + 1) == " " + Fill(' ', n);
    Associative(j, " ", Fill(' ', n));
  }

  lemma {:induction false} BytesRead(block: seq<Byte>, n: nat)
    ensures ReadBytes(Triples(block) + Fill(' ', n)) == block
  {
    var area := Triples(block) + Fill(' ', n);
    if block == [] {
      assert area == Fill(' ', n);
    } else {
      HexDigitReads(block[0] / 16);
      HexDigitReads(block[0] % 16);
      BytesRead(block[1..], n);
      assert area[3..] == Triples(block[1..]) + Fill(' ', n);
      assert block == [block[0]] + block[1..];
    }
  }

  lemma Slices(a: string, h: string, c: string, rest: string)
    requires |h| == 48
    ensures var text, n := a + "  " + h + "  " + c + "\n" + rest, |a|;
            && |text| == n + 52 + |c| + 1 + |rest|
            && text[..n] == a && text[n..n + 2] == "  " && text[n + 2..n + 50] == h && text[n + 50..n + 52] == "  "
            && text[n + 52..n + 52 + |c|] == c && text[n + 52 + |c|] == '\n' && text[n + 52 + |c| + 1..] == rest
            && text == a + ("  " + h + "  " + c + "\n" + rest)
  {
  }

  lemma AddressSpan(a: string, h: string, c: string, rest: string)
    requires |h| == 48 && forall i | 0 <= i < |a| :: IsLowHex(a[i])
    ensures Span(IsLowHex, a + "  " + h + "  " + c + "\n" + rest) == |a|
  {
    Slices(a, h, c, rest);
    SpanStops(IsLowHex, a, "  " + h + "  " + c + "\n" + rest);
  }

  lemma ReadLineAt(text: string, n: nat, h: string, c: string, bytes: seq<Byte>, rest: string)
    requires Span(IsLowHex, text) == n >= 8 && |text| > n + 52 + |bytes| && ReadBytes(h) == bytes && bytes != []
    requires text[n..n + 2] == "  " && text[n + 2..n + 50] == h && text[n + 50..n + 52] == "  "
    requires text[n + 52..n + 52 + |bytes|] == c && text[n + 52 + |bytes|] == '\n'
    requires text[n + 52 + |bytes| + 1..] == rest
    ensures ReadLine(text) == Some((Row(HexNumber(text[..n]), bytes, c), rest))
  {
    var k := n + 52 + |bytes|;
    assert ReadBytes(text[n + 2..n + 50]) == bytes;
    assert text[k] == '\n' && text[k + 1..] == rest && text[n + 52..k] == c;
  }

  lemma PiecesRead(a: string, h: string, c: string, rest: string, bytes: seq<Byte>)
    requires |h| == 48 && |a| >= 8 && (forall i | 0 <= i < |a| :: IsLowHex(a[i]))
    requires ReadBytes(h) == bytes && |c| == |bytes| && bytes != []
    ensures ReadLine(a + "  " + h + "  " + c + "\n" + rest) == Some((Row(HexNumber(a), bytes, c), rest))
  {
    Slices(a, h, c, rest);
    AddressSpan(a, h, c, rest);
    ReadLineAt(a + "  " + h + "  " + c + "\n" + rest, |a|, h, c, bytes, rest);
  }

  /** One printed line reads back as its address, bytes and characters, and leaves the rest of the text. */
  lemma LineReads(addr: nat, block: seq<Byte>, rest: string)
    requires 1 <= |block| <= 16
    ensures ReadLine(Line(addr, block) + rest) == Some((Row(addr, block, CharLine(block)), rest))
  {
    AddressReads(addr);
    HexLinePrinted(block);
    BytesRead(block, 48 - 3 * |block|);
    PiecesRead(PadStart(Hex(addr), 8, '0'), HexLine(block), CharLine(block), rest, block);
  }

  lemma {:induction false} DumpReads(bytes: seq<Byte>, i: nat)
    ensures ReadDump(Dump(bytes, i)) == Some(Rows(bytes, i))
    decreases |bytes| - i
  {
    if i < |bytes| {
      LineReads(i, Block(bytes, i), Dump(bytes, i + 16));
      DumpReads(bytes, i + 16);
    }
  }

  lemma {:induction false} RowsHoldBytes(bytes: seq<Byte>, i: nat)
    requires i <= |bytes|
    ensures AllBytes(Rows(bytes, i)) == bytes[i..]
    decreases |bytes| - i
  {
    if i < |bytes| {
      if i + 16 <= |bytes| {
        RowsHoldBytes(bytes, i + 16);
        assert bytes[i..] == bytes[i..i + 16] + bytes[i + 16..];
      } else {
        assert Rows(bytes, i + 16) == [];
      }
      assert Rows(bytes, i)[1..] == Rows(bytes, i + 16);
    }
  }

  lemma {:induction false} RowAt(bytes: seq<Byte>, i: nat, k: nat)
    requires k < |Rows(bytes, i)|
    ensures i + 16 * k < |bytes|
    ensures Rows(bytes, i)[k] == Row(i + 16 * k, Block(bytes, i + 16 * k), CharLine(Block(bytes, i + 16 * k)))
    decreases |bytes| - i
  {
    if k > 0 { RowAt(bytes, i + 16, k - 1); }
  }

  // ---- Main results ----

  /** Reading the dump of any bytes gives rows addressed 0, 16, 32, ... that together hold exactly those bytes. */
  lemma DumpRoundTrip(bytes: seq<Byte>)
    ensures ReadDump(Dump(bytes, 0)).Some?
    ensures var rows := ReadDump(Dump(bytes, 0)).value;
            AllBytes(rows) == bytes && forall k | 0 <= k < |rows| :: rows[k].addr == 16 * k
  {
    DumpReads(bytes, 0);
    RowsHoldBytes(bytes, 0);
    forall k | 0 <= k < |Rows(bytes, 0)| ensures Rows(bytes, 0)[k].addr == 16 * k { RowAt(bytes, 0, k); }
  }

  /** Row k holds the sixteen bytes from 16k on, or what is left. */
  lemma RowHolds(bytes: seq<Byte>, k: nat)
    requires ReadDump(Dump(bytes, 0)).Some? && k < |ReadDump(Dump(bytes, 0)).value|
    ensures var row := ReadDump(Dump(bytes, 0)).value[k];
            && 16 * k < |bytes|
            && row.bytes == if 16 * k + 16 <= |bytes| then bytes[16 * k..16 * k + 16] else bytes[16 * k..]
  {
    DumpReads(bytes, 0);
    RowAt(bytes, 0, k);
  }

  /** A row shows each byte as its printable ASCII character or else as a dot. */
  lemma RowShows(bytes: seq<Byte>, k: nat, j: nat)
    requires ReadDump(Dump(bytes, 0)).Some? && k < |ReadDump(Dump(bytes, 0)).value|
    requires j < |ReadDump(Dump(bytes, 0)).value[k].bytes|
    ensures var row := ReadDump(Dump(bytes, 0)).value[k];
            && |row.chars| == |row.bytes|
            && (' ' <= row.bytes[j] as char <= '~' ==> row.chars[j] == row.bytes[j] as char)
            && (row.bytes[j] < ' ' as int || row.bytes[j] > '~' as int ==> row.chars[j] == '.')
  {
    DumpReads(bytes, 0);
    RowAt(bytes, 0, k);
  }

  /** The dump of a string reads back to the string exactly when no surrogate stands alone. */
  lemma TextRoundTrip(input: seq<Unit>)
    ensures ReadText(Dump(EncodeAll(Scalars(input)), 0)) == Some(input) <==> WellFormed(input)
  {
    DumpRoundTrip(EncodeAll(Scalars(input)));
    DecodeEncodeAll(Scalars(input));
    UnitsOfScalars(input);
  }

  /** Different well-formed strings have different dumps. */
  lemma DumpInjective(a: seq<Unit>, b: seq<Unit>)
    requires WellFormed(a) && WellFormed(b)
    requires Dump(EncodeAll(Scalars(a)), 0) == Dump(EncodeAll(Scalars(b)), 0)
    ensures a == b
  {
    TextRoundTrip(a);
    TextRoundTrip(b);
  }

  lemma Power16Of8()
    ensures Power16(8) == 0x1_0000_0000
  {
    assert Power16(2) == 256 && Power16(4) == 65536 && Power16(6) == 0x100_0000;
  }

  lemma LineLength(addr: nat, block: seq<Byte>)
    requires 1 <= |block| <= 16 && addr < 0x1_0000_0000
    ensures |Line(addr, block)| == 61 + |block|
  {
    Power16Of8();
    AddressReads(addr);
    HexLinePrinted(block);
  }

  /** How many lines n bytes start. */
  function LineCount(n: nat): nat { (n + 15) / 16 }

  lemma OneMoreLine(n: nat)
    ensures LineCount(n + 16) == LineCount(n) + 1
    ensures 1 <= n <= 16 ==> LineCount(n) == 1
  {
  }

  /** n bytes, up to 2^32 of them, print as n characters plus 61 for each started line. */
  lemma {:induction false} DumpLength(bytes: seq<Byte>, i: nat)
    requires i <= |bytes| <= 0x1_0000_0000
    ensures |Dump(bytes, i)| == (|bytes| - i) + 61 * LineCount(|bytes| - i)
    decreases |bytes| - i
  {
    if i < |bytes| {
      LineLength(i, Block(bytes, i));
      if i + 16 <= |bytes| {
        DumpLength(bytes, i + 16);
        OneMoreLine(|bytes| - i - 16);
      } else {
        assert Dump(bytes, i + 16) == "";
        OneMoreLine(|bytes| - i);
      }
    }
  }
}
