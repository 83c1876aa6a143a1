/** The hex dump of a binary buffer: its rows, and reading them back. */
module HexDump {
  import opened Sequences
  import opened Text

  type Byte = b: int | 0 <= b < 256

  const ROW_LENGTH := 12

  function Min(x: int, y: int): int { if x < y then x else y }

  function HexDigit(d: nat): (c: char)
    requires d < 16
    ensures IsHex(c) && HexValue(c) == d
  {
    ("0123456789abcdef")[d]
  }

  predicate IsHex(c: char) { '0' <= c <= '9' || 'a' <= c <= 'f' }

  function HexValue(c: char): (d: nat)
    requires IsHex(c)
    ensures d < 16
  {
    if c <= '9' then (c as int) - ('0' as int) else (c as int) - ('a' as int) + 10
  }

  /** "%02x " */
  function HexByte(b: Byte): (s: string)
    ensures |s| == 3
  {
    [HexDigit(b / 16), HexDigit(b % 16), ' ']
  }

  /** A byte below 32 or above 127 shows as a dot. */
  function CharByte(b: Byte): (c: char)
    ensures 32 <= c as int <= 127
  {
    if b < 32 || b > 127 then '.' else b as char
  }

  function Hex(bs: seq<Byte>): (s: string)
    ensures |s| == 3 * |bs|
  {
    if bs == [] then "" else Hex(bs[..|bs| - 1]) + HexByte(bs[|bs| - 1])
  }

  function Chars(bs: seq<Byte>): (s: string)
    ensures |s| == |bs| && forall k :: 0 <= k < |s| ==> s[k] == CharByte(bs[k])
  {
    if bs == [] then "" else Chars(bs[..|bs| - 1]) + [CharByte(bs[|bs| - 1])]
  }

  /** Byte k stands as two hex digits, the high one first, and a space. */
  lemma {:induction false} HexLayout(bs: seq<Byte>, k: nat)
    requires k < |bs|
    ensures var s := Hex(bs);
            && |s| == 3 * |bs| && s[3 * k + 2] == ' ' && IsHex(s[3 * k]) && IsHex(s[3 * k + 1])
            && 16 * HexValue(s[3 * k]) + HexValue(s[3 * k + 1]) == bs[k]
  {
    if k < |bs| - 1 { HexLayout(bs[..|bs| - 1], k); }
  }

  predicate Printable(c: char) { 32 <= c as int <= 126 }

  /** The text column is printable exactly when the bytes hold no 127: the source tests for values
      above 127, one too far. */
  lemma CharsPrintableIff(bs: seq<Byte>)
    ensures (forall k :: 0 <= k < |bs| ==> Printable(Chars(bs)[k])) <==> 127 !in bs
  {
    if 127 in bs {
      var k :| 0 <= k < |bs| && bs[k] == 127;
      assert !Printable(Chars(bs)[k]);
    }
  }

  lemma Byte127IsNotPrintable()
    ensures Chars([127]) == [127 as char] && !Printable(Chars([127])[0])
  {
    assert Chars([127])[0] == CharByte(127);
  }

  /** Character by character: a dot for a byte out of range, otherwise the byte itself. */
  lemma CharsIff(bs: seq<Byte>, k: nat)
    requires k < |bs|
    ensures Chars(bs)[k] as int == if 32 <= bs[k] <= 127 then bs[k] else 46
  {
  }

  /** "%2d| %-24s| %-16s" */
  function RowText(pos: nat, hex: string, chars: string): string {
    PadLeft(' ', 2, Decimal(pos)) + "| " + PadRight(24, hex) + "| " + PadRight(16, chars)
  }

  /** One row of the dump: where it starts and the bytes it shows. */
  datatype Cut = Cut(pos: nat, bytes: seq<Byte>) {
    function Row(): string { RowText(pos, Hex(bytes), Chars(bytes)) }
  }

  function CutAt(buf: seq<Byte>, pos: nat): Cut
    requires pos <= |buf|
  {
    Cut(pos, buf[pos..Min(pos + ROW_LENGTH, |buf|)])
  }

  function CutsFrom(buf: seq<Byte>, pos: nat): seq<Cut>
    decreases |buf| - pos
  {
    if pos >= |buf| then [] else [CutAt(buf, pos)] + CutsFrom(buf, pos + ROW_LENGTH)
  }

  function Rows(cuts: seq<Cut>): (rows: seq<string>)
    ensures |rows| == |cuts| && forall k :: 0 <= k < |rows| ==> rows[k] == cuts[k].Row()
  {
    seq(|cuts|, k requires 0 <= k < |cuts| => cuts[k].Row())
  }

  function Header(file: string, line: nat): string {
    "[" + file + "][" + Decimal(line) + "][print binary struct]"
  }

  /** The messages a dump sends to the log: the header and one message a row. */
  function Messages(file: string, line: nat, buf: seq<Byte>): seq<string> {
    [Header(file, line)] + Rows(CutsFrom(buf, 0))
  }

  /** One row further, behind what has been sent before. */
  lemma NextCut(buf: seq<Byte>, pos: nat, cuts: seq<Cut>, sent: seq<string>)
    requires pos < |buf|
    ensures cuts + CutsFrom(buf, pos) == cuts + [CutAt(buf, pos)] + CutsFrom(buf, pos + ROW_LENGTH)
    ensures sent + Rows(cuts + [CutAt(buf, pos)]) == sent + Rows(cuts) + [CutAt(buf, pos).Row()]
  {
    Regroup(cuts, [CutAt(buf, pos)], CutsFrom(buf, pos + ROW_LENGTH));
    assert Rows(cuts + [CutAt(buf, pos)]) == Rows(cuts) + [CutAt(buf, pos).Row()];
    Regroup(sent, Rows(cuts), [CutAt(buf, pos).Row()]);
  }

  /** The inner loop: one row, built byte by byte. */
  method FormatRow(buf: seq<Byte>, curPos: nat) returns (row: string)
    requires curPos <= |buf|
    ensures row == CutAt(buf, curPos).Row()
  {
    var hexStr, chrStr, i := "", "", 0;
    ghost var shown: seq<Byte> := [];
    while curPos + i < |buf| && i < ROW_LENGTH
      invariant 0 <= i <= ROW_LENGTH && curPos + i <= |buf|
      invariant shown == buf[curPos..curPos + i]
      invariant hexStr == Hex(shown) && chrStr == Chars(shown)
      decreases |buf| - i
    {
      var b := buf[curPos + i];
      assert (shown + [b])[..|shown|] == shown;
      shown := shown + [b];
      hexStr := hexStr + HexByte(b);
      if b < 32 || b > 127 {
        chrStr := chrStr + ['.'];
      } else {
        chrStr := chrStr + [b as char];
      }
      i := i + 1;
    }
    assert shown == CutAt(buf, curPos).bytes;
    row := RowText(curPos, hexStr, chrStr);
  }

  // ----- the layout of the rows -----

  /** There is one row per 12 bytes begun, and row k shows the bytes from offset 12 k on. */
  lemma {:induction false} RowLayout(buf: seq<Byte>, pos: nat, k: nat)
    requires pos <= |buf|
    ensures |CutsFrom(buf, pos)| == (|buf| - pos + 11) / 12
    ensures k < |CutsFrom(buf, pos)| ==>
      pos + 12 * k < |buf| && CutsFrom(buf, pos)[k] == CutAt(buf, pos + 12 * k)
    decreases |buf| - pos
  {
    if pos + 12 <= |buf| {
      RowLayout(buf, pos + 12, if k == 0 then 0 else k - 1);
    }
  }

  // ----- reading the dump back -----

  /** Reads "xx " groups until something else comes. */
  function ReadHex(s: string): seq<Byte> {
    if |s| >= 3 && IsHex(s[0]) && IsHex(s[1]) then [16 * HexValue(s[0]) + HexValue(s[1])] + ReadHex(s[3..]) else []
  }

  /** The bytes of a row: the hex groups after its first bar. */
  function ReadRow(row: string): seq<Byte> {
    var k := IndexOf(row, '|');
    if k + 2 <= |row| then ReadHex(row[k + 2..]) else []
  }

  function ReadRows(rows: seq<string>): seq<Byte> {
    if rows == [] then [] else ReadRows(rows[..|rows| - 1]) + ReadRow(rows[|rows| - 1])
  }

  lemma ReadHexGroup(b: Byte, rest: string)
    ensures ReadHex(HexByte(b) + rest) == [b] + ReadHex(rest)
  {
  }

  /** The groups are read front to back although they were appended at the back. */
  lemma {:induction false} ReadHexOf(bs: seq<Byte>, rest: string)
    ensures ReadHex(Hex(bs) + rest) == bs + ReadHex(rest)
    decreases |bs|
  {
    if bs == [] {
      assert Hex(bs) + rest == rest;
    } else {
      var before, b := bs[..|bs| - 1], bs[|bs| - 1];
      ReadHexOf(before, HexByte(b) + rest);
      ReadHexGroup(b, rest);
      Regroup(Hex(before), HexByte(b), rest);
      Regroup(before, [b], ReadHex(rest));
      assert before + [b] == bs;
    }
  }

  lemma ReadRowText(number: string, hex: string, after: string)
    requires '|' !in number
    ensures ReadRow(number + "| " + hex + after) == ReadHex(hex + after)
  {
    var row := number + "| " + hex + after;
    assert row == number + ['|'] + (" " + hex + after);
    IndexOfFirst(number, '|', " " + hex + after);
    assert row[|number| + 2..] == hex + after;
  }

  lemma PadRightIs(width: nat, s: string) returns (pad: string)
    ensures PadRight(width, s) == s + pad && (pad != "" ==> pad[0] == ' ')
  {
    pad := if |s| < width then Fill(' ', width - |s|) else "";
    assert s + "" == s;
  }

  /** A row is a number, the hex groups after the first bar, and something that is not hex. */
  lemma RowShape(cut: Cut) returns (number: string, after: string)
    ensures '|' !in number && after != "" && !IsHex(after[0])
    ensures cut.Row() == number + "| " + Hex(cut.bytes) + after
  {
    number := PadLeft(' ', 2, Decimal(cut.pos));
    var hex, chars := Hex(cut.bytes), PadRight(16, Chars(cut.bytes));
    var pad := PadRightIs(24, hex);
    after := pad + ("| " + chars);
    Regroup(hex, pad, "| " + chars);
    Regroup(hex + pad, "| ", chars);
    Regroup(number + "| ", hex, after);
    Regroup(number + "| ", hex + pad, "| ");
    Regroup(number + "| ", (hex + pad) + "| ", chars);
  }

  lemma InTwoColumns(num: string)
    requires num != ""
    ensures PadLeft(' ', 2, num) == if |num| < 2 then " " + num else num
  {
    if |num| < 2 { assert Fill(' ', 2 - |num|) == " "; }
  }

  /** A row has three columns set off by bars: the offset, right-aligned in two characters or as many as it
      takes, and the two texts, left-aligned in at least 24 and 16. */
  lemma RowColumns(cut: Cut) returns (p: string, q: string, r: string)
    ensures cut.Row() == p + "| " + q + "| " + r
    ensures p == if cut.pos < 10 then " " + Decimal(cut.pos) else Decimal(cut.pos)
    ensures Hex(cut.bytes) <= q && |q| == (if |Hex(cut.bytes)| < 24 then 24 else |Hex(cut.bytes)|)
    ensures forall k :: |Hex(cut.bytes)| <= k < |q| ==> q[k] == ' '
    ensures Chars(cut.bytes) <= r && |r| == (if |cut.bytes| < 16 then 16 else |cut.bytes|)
    ensures forall k :: |cut.bytes| <= k < |r| ==> r[k] == ' '
  {
    p, q, r := PadLeft(' ', 2, Decimal(cut.pos)), PadRight(24, Hex(cut.bytes)), PadRight(16, Chars(cut.bytes));
    InTwoColumns(Decimal(cut.pos));
  }

  /** The reader of the first column. */
  function ReadOffset(row: string): nat {
    if row != "" && row[0] == ' ' then ReadNumber(row[1..]) else ReadNumber(row)
  }

  function ReadNumber(s: string): nat { Value(s[..LeadDigits(s)]) }

  lemma NumberReads(n: nat, rest: string)
    requires rest != "" && !IsDigit(rest[0])
    ensures ReadNumber(Decimal(n) + rest) == n && ReadOffset(PadLeft(' ', 2, Decimal(n)) + rest) == n
  {
    var num := Decimal(n);
    ValueDecimal(n);
    LeadDigitsOf(num, rest);
    InTwoColumns(num);
    if |num| < 2 {
      assert (" " + num + rest)[1..] == num + rest;
    } else {
      assert (num + rest)[0] == num[0];
    }
  }

  /** The number in front of the first bar is the offset of the row's first byte. */
  lemma OffsetReads(cut: Cut)
    ensures ReadOffset(cut.Row()) == cut.pos
  {
    var p, q, r := PadLeft(' ', 2, Decimal(cut.pos)), PadRight(24, Hex(cut.bytes)), PadRight(16, Chars(cut.bytes));
    RowRegrouped(p, q, r);
    NumberReads(cut.pos, "| " + q + "| " + r);
  }

  lemma RowRegrouped(p: string, q: string, r: string)
    ensures p + "| " + q + "| " + r == p + ("| " + q + "| " + r)
  {
  }

  /** The header line: file and line number in brackets, and a fixed text. */
  lemma HeaderLayout(file: string, line: nat)
    requires ']' !in file
    ensures var h, k := Header(file, line), IndexOf(Header(file, line), ']');
            && k == |file| + 1 && h[..k] == "[" + file && h[k + 1] == '['
            && Value(h[k + 2..][..LeadDigits(h[k + 2..])]) == line
            && h[k + 2 + |Decimal(line)|..] == "][print binary struct]"
  {
    var num, rest := Decimal(line), "][print binary struct]";
    var h := Header(file, line);
    IndexOfFirst("[" + file, ']', "[" + num + rest);
    assert h == "[" + file + [']'] + ("[" + num + rest);
    assert h[|file| + 3..] == num + rest;
    ValueDecimal(line);
    LeadDigitsOf(num, rest);
  }

  lemma RowInside(before: string, number: string, hex: string, after: string, behind: string)
    ensures before + (number + "| " + hex + after) + behind == before + number + "| " + hex + (after + behind)
  {
  }

  /** Text around a row does not disturb its reader, if there is no bar in front of it. */
  lemma ReadRowOf(before: string, cut: Cut, behind: string)
    requires '|' !in before
    ensures ReadRow(before + cut.Row() + behind) == cut.bytes
  {
    var number, after := RowShape(cut);
    var hex := Hex(cut.bytes);
    RowInside(before, number, hex, after, behind);
    ReadRowText(before + number, hex, after + behind);
    ReadHexOf(cut.bytes, after + behind);
    assert ReadHex(after + behind) == [];
  }

  function Bytes(cuts: seq<Cut>): seq<Byte> {
    if cuts == [] then [] else Bytes(cuts[..|cuts| - 1]) + cuts[|cuts| - 1].bytes
  }

  lemma {:induction false} ReadRowsOf(rows: seq<string>, cuts: seq<Cut>)
    requires |rows| == |cuts| && forall k :: 0 <= k < |rows| ==> ReadRow(rows[k]) == cuts[k].bytes
    ensures ReadRows(rows) == Bytes(cuts)
  {
    if cuts != [] { ReadRowsOf(rows[..|rows| - 1], cuts[..|cuts| - 1]); }
  }

  lemma {:induction false} BytesCons(cut: Cut, cuts: seq<Cut>)
    ensures Bytes([cut] + cuts) == cut.bytes + Bytes(cuts)
  {
    var all := [cut] + cuts;
    if cuts == [] {
      assert all[..0] == [];
    } else {
      BytesCons(cut, cuts[..|cuts| - 1]);
      assert all[..|all| - 1] == [cut] + cuts[..|cuts| - 1];
    }
  }

  lemma {:induction false} CutsHoldBytes(buf: seq<Byte>, pos: nat)
    requires pos <= |buf|
    ensures Bytes(CutsFrom(buf, pos)) == buf[pos..]
    decreases |buf| - pos
  {
    if pos < |buf| {
      BytesCons(CutAt(buf, pos), CutsFrom(buf, pos + ROW_LENGTH));
      if pos + ROW_LENGTH <= |buf| {
        CutsHoldBytes(buf, pos + ROW_LENGTH);
      }
    }
  }

  /** Decoding the hex columns of all rows gives back exactly the bytes dumped. */
  lemma DumpReadsBack(buf: seq<Byte>)
    ensures ReadRows(Rows(CutsFrom(buf, 0))) == buf
  {
    var cuts := CutsFrom(buf, 0);
    forall k | 0 <= k < |cuts| ensures ReadRow(Rows(cuts)[k]) == cuts[k].bytes {
      ReadRowOf("", cuts[k], "");
      EmptyIsNeutral(cuts[k].Row());
    }
    ReadRowsOf(Rows(cuts), cuts);
    CutsHoldBytes(buf, 0);
  }
}
