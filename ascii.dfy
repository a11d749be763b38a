/** The character shown for a byte value: the label and colour class of the visualizer's
    output box, the cells of its 128-entry ASCII table, and the educational summary of a
    value.  The reference for the code points is the US-ASCII code chart (ANSI X3.4-1986,
    reproduced in section 2 of RFC 20); the visualizer uses a few mnemonics of its own. */
module Ascii {
  import Bits

  /** The colour class a character is drawn with.  `Extended` is the table's class for
      values outside US-ASCII. */
  datatype Category = Digit | Letter | Special | Control | Extended

  datatype Label = Label(text: string, category: Category)

  // ---------------------------------------------------------------------------
  // Decimal numerals (template literals such as `[${v}]`)

  function DecimalDigit(d: nat): char
    requires d < 10
  {
    (48 + d) as char
  }

  /** The decimal numeral of `n`, most significant digit first, without leading zeros. */
  function DecimalString(n: nat): string
    decreases n
  {
    if n < 10 then [DecimalDigit(n)] else DecimalString(n / 10) + [DecimalDigit(n % 10)]
  }

  /** The value of a string of decimal digits. */
  function ReadDecimal(s: string): int
    decreases |s|
  {
    if s == [] then 0 else 10 * ReadDecimal(s[..|s| - 1]) + (s[|s| - 1] as int - 48)
  }

  /** Reading a numeral back gives the number; a numeral of a number from 100 to 999 has
      three characters. */
  lemma {:induction false} DecimalRoundTrip(n: nat)
    ensures ReadDecimal(DecimalString(n)) == n
    ensures 100 <= n < 1000 ==> |DecimalString(n)| == 3
    ensures 10 <= n < 100 ==> |DecimalString(n)| == 2
    ensures n < 10 ==> |DecimalString(n)| == 1
    decreases n
  {
    if n >= 10 {
      DecimalRoundTrip(n / 10);
      var s := DecimalString(n);
      assert s[..|s| - 1] == DecimalString(n / 10);
    }
  }

  // ---------------------------------------------------------------------------
  // The output box (updateOutputs)

  predicate IsDigitCode(v: int)
  {
    48 <= v <= 57
  }

  predicate IsLetterCode(v: int)
  {
    (65 <= v <= 90) || (97 <= v <= 122)
  }

  predicate IsPrintable(v: int)
  {
    32 <= v <= 126
  }

  /** The label and class of the output box for the current value.  The branch for 32
      sits among the non-printable cases, which 32 never reaches, so it is kept as in the
      visualizer and shown to be dead by `SpaceLabelNeverShown`. */
  function OutputLabel(v: Bits.Byte): Label
  {
    if IsPrintable(v) then
      Label([v as char], if IsDigitCode(v) then Digit else if IsLetterCode(v) then Letter else Special)
    else if v == 0 then Label("NULL", Control)
    else if v == 9 then Label("TAB", Control)
    else if v == 10 then Label("LF", Control)
    else if v == 13 then Label("CR", Control)
    else if v == 32 then Label("SPACE", Special)
    else if v == 127 then Label("DEL", Control)
    else if v < 32 then Label("CTRL+" + [(v + 64) as char], Control)
    else Label("[" + DecimalString(v) + "]", Control)
  }

  /** How section 2 of RFC 20 divides the code points: control characters (0 to 31 and
      127), the space (32), the graphic characters (33 to 126); codes from 128 on are not
      US-ASCII. */
  datatype CodeKind = ControlCode | SpaceCode | GraphicCode | NotAscii

  function Rfc20Kind(v: nat): CodeKind
  {
    if v < 32 || v == 127 then ControlCode
    else if v == 32 then SpaceCode
    else if v < 127 then GraphicCode
    else NotAscii
  }

  /** The output box colours every US-ASCII control character and every non-ASCII value as
      control, and every graphic character or the space as digit, letter or special; digit
      and letter go exactly to the decimal digits and the Latin letters. */
  lemma OutputCategoryFollowsCodeChart(v: Bits.Byte)
    ensures OutputLabel(v).category == Control <==> Rfc20Kind(v) in {ControlCode, NotAscii}
    ensures OutputLabel(v).category == Digit <==> IsDigitCode(v)
    ensures OutputLabel(v).category == Letter <==> IsLetterCode(v)
    ensures OutputLabel(v).category == Special <==>
              Rfc20Kind(v) in {SpaceCode, GraphicCode} && !IsDigitCode(v) && !IsLetterCode(v)
    ensures OutputLabel(v).category != Extended
  {
  }

  /** A printable value is shown as its own character, a non-printable one as a name of
      two to six characters. */
  lemma OutputTextShape(v: Bits.Byte)
    ensures IsPrintable(v) <==> |OutputLabel(v).text| == 1
    ensures IsPrintable(v) ==> OutputLabel(v).text[0] as int == v
    ensures !IsPrintable(v) ==> 2 <= |OutputLabel(v).text| <= 6
  {
    if 128 <= v {
      DecimalRoundTrip(v);
    }
  }

  /** The "SPACE" label is never shown: 32 is printable, so it is drawn as the blank
      character itself, with the special class. */
  lemma SpaceLabelNeverShown(v: Bits.Byte)
    ensures OutputLabel(v).text != "SPACE"
    ensures OutputLabel(32) == Label(" ", Special)
  {
    if 128 <= v {
      DecimalRoundTrip(v);
      assert OutputLabel(v).text[0] == '[';
    }
    assert 32 as char == ' ';
  }

  /** Reads the value back from an output-box label: the inverse of `OutputLabel`. */
  function LabelValue(t: string): int
  {
    if |t| == 1 then t[0] as int
    else if t == "NULL" then 0
    else if t == "TAB" then 9
    else if t == "LF" then 10
    else if t == "CR" then 13
    else if t == "DEL" then 127
    else if |t| == 6 && t[..5] == "CTRL+" then t[5] as int - 64
    else if |t| >= 2 && t[0] == '[' then ReadDecimal(t[1..|t| - 1])
    else -1
  }

  /** The label of every byte reads back as that byte. */
  lemma LabelRoundTrip(v: Bits.Byte)
    ensures LabelValue(OutputLabel(v).text) == v
  {
    var t := OutputLabel(v).text;
    if 128 <= v {
      DecimalRoundTrip(v);
      assert t[1..|t| - 1] == DecimalString(v);
    } else if !IsPrintable(v) && v !in {0, 9, 10, 13, 127} {
      assert t[..5] == "CTRL+";
    }
  }

  /** Distinct byte values get distinct labels in the output box, so the text alone tells
      the learner which value is set. */
  lemma OutputLabelsAreDistinct(a: Bits.Byte, b: Bits.Byte)
    requires a != b
    ensures OutputLabel(a).text != OutputLabel(b).text
  {
    LabelRoundTrip(a);
    LabelRoundTrip(b);
  }

  // ---------------------------------------------------------------------------
  // The ASCII table (createAsciiTable)

  /** The visualizer's names for the control characters 0 to 31. */
  const TableControlNames: seq<string> :=
    ["NULL", "SOH", "STX", "ETX", "EOT", "ENQ", "ACK", "BELL",
     "BS", "TAB", "LF", "VT", "FF", "CR", "SO", "SI",
     "DLE", "DC1", "DC2", "DC3", "DC4", "NAK", "SYN", "ETB",
     "CAN", "EM", "SUB", "ESC", "FS", "GS", "RS", "US"]

  /** The mnemonics of the control characters 0 to 31 in the code chart of RFC 20. */
  const Rfc20ControlNames: seq<string> :=
    ["NUL", "SOH", "STX", "ETX", "EOT", "ENQ", "ACK", "BEL",
     "BS", "HT", "LF", "VT", "FF", "CR", "SO", "SI",
     "DLE", "DC1", "DC2", "DC3", "DC4", "NAK", "SYN", "ETB",
     "CAN", "EM", "SUB", "ESC", "FS", "GS", "RS", "US"]

  /** The character cell of the table for one value. */
  function TableChar(v: nat): Label
  {
    if v < 32 then Label(TableControlNames[v], Control)
    else if v == 32 then Label("Space", Special)
    else if IsDigitCode(v) then Label([v as char], Digit)
    else if IsLetterCode(v) then Label([v as char], Letter)
    else if v == 127 then Label("DEL", Control)
    else if v <= 127 then Label([v as char], Special)
    else Label("—", Extended)
  }

  /** The reference name RFC 20 gives a US-ASCII code: the mnemonic of a control
      character or of the space, the character itself for a graphic character. */
  function Rfc20Name(v: nat): string
    requires v < 128
  {
    if v < 32 then Rfc20ControlNames[v]
    else if v == 32 then "SP"
    else if v == 127 then "DEL"
    else [v as char]
  }

  /** The table agrees with the code chart of RFC 20 except for four codes, where the
      visualizer spells a name out: NULL for NUL, BELL for BEL, TAB for HT and Space for SP. */
  lemma TableNamesFollowRfc20(v: nat)
    requires v < 128
    ensures TableChar(v).text == Rfc20Name(v) <==> v !in {0, 7, 9, 32}
    ensures TableChar(v).category == Control <==> Rfc20Kind(v) == ControlCode
  {
  }

  /** For every US-ASCII value the table and the output box use the same colour class; they
      show the same text for the graphic characters and for NULL, TAB, LF, CR and DEL. */
  lemma TableAgreesWithOutput(v: Bits.Byte)
    requires v < 128
    ensures TableChar(v).category == OutputLabel(v).category
    ensures TableChar(v).text == OutputLabel(v).text <==> (33 <= v <= 126 || v in {0, 9, 10, 13, 127})
  {
    if v < 32 && v !in {0, 9, 10, 13} {
      assert |OutputLabel(v).text| == 6;
      assert |TableChar(v).text| <= 4;
    }
  }

  /** One group of the table: the value, its padded binary string and its character cell. */
  datatype TableEntry = TableEntry(dec: nat, bin: string, glyph: Label)

  function Entry(v: nat): TableEntry
  {
    TableEntry(v, Bits.BinaryString(v), TableChar(v))
  }

  /** Builds the table body: 32 rows of four groups, row r holding the values r, r + 32,
      r + 64 and r + 96. */
  method CreateAsciiTable() returns (rows: seq<seq<TableEntry>>)
    ensures |rows| == 32
    ensures forall r :: 0 <= r < 32 ==> |rows[r]| == 4
    ensures forall r, c :: 0 <= r < 32 && 0 <= c < 4 ==> rows[r][c] == Entry(r + c * 32)
    ensures forall v :: 0 <= v < 128 ==> rows[v % 32][v / 32] == Entry(v)
  {
    rows := [];
    for row := 0 to 32
      invariant |rows| == row
      invariant forall r :: 0 <= r < row ==> |rows[r]| == 4
      invariant forall r, c :: 0 <= r < row && 0 <= c < 4 ==> rows[r][c] == Entry(r + c * 32)
    {
      var tr: seq<TableEntry> := [];
      for col := 0 to 4
        invariant |tr| == col
        invariant forall c :: 0 <= c < col ==> tr[c] == Entry(row + c * 32)
      {
        var value := row + col * 32;
        tr := tr + [TableEntry(value, Bits.BinaryString(value), TableChar(value))];
      }
      rows := rows + [tr];
    }
    forall v | 0 <= v < 128
      ensures rows[v % 32][v / 32] == Entry(v)
    {
      assert v == v % 32 + (v / 32) * 32;
    }
  }

  /** Every cell of the table shows a US-ASCII value, so its "extended" class is never used,
      and each cell's binary string reads back as its value. */
  lemma TableIsPlainAscii(r: nat, c: nat)
    requires r < 32 && c < 4
    ensures Entry(r + c * 32).dec < 128
    ensures Entry(r + c * 32).glyph.category != Extended
    ensures Bits.ReadBase2(Entry(r + c * 32).bin) == r + c * 32
    ensures |Entry(r + c * 32).bin| == 8
  {
    Bits.BinaryStringOfByte(r + c * 32);
  }

  // ---------------------------------------------------------------------------
  // The educational summary (getBitRepresentation)

  /** One bit of the summary: its position, whether it is one, and its decimal worth. */
  datatype BitInfo = BitInfo(position: nat, value: nat, decimal: nat)

  datatype BitRepresentation = BitRepresentation(decimal: nat, binary: string, ascii: string, bits: seq<BitInfo>)

  /** The summary lists the bits from position 7 down to position 0. */
  function GetBitRepresentation(v: Bits.Byte): BitRepresentation
  {
    BitRepresentation(
      v,
      Bits.BinaryString(v),
      if IsPrintable(v) then [v as char] else "[Steuerzeichen]",
      seq(8, i requires 0 <= i < 8 =>
        BitInfo(7 - i, if Bits.BitSet(v, 7 - i) then 1 else 0, Bits.Pow2(7 - i))))
  }

  /** The worth of the listed bits from index `i` on. */
  function Worth(bits: seq<BitInfo>): nat
    decreases |bits|
  {
    if bits == [] then 0 else (if bits[0].value == 1 then bits[0].decimal else 0) + Worth(bits[1..])
  }

  /** Bits listed from the highest position down, each one or zero as switch `7 - j` is
      checked, are worth what the switches add up to. */
  lemma {:induction false} WorthMatchesSwitches(bits: seq<BitInfo>, sw: seq<bool>, i: nat)
    requires |bits| == 8 && |sw| == 8 && i <= 8
    requires forall j :: 0 <= j < 8 ==>
               bits[j].value == (if sw[7 - j] then 1 else 0) && bits[j].decimal == Bits.Pow2(7 - j)
    ensures Worth(bits[8 - i..]) == Bits.SwitchValue(sw[..i])
    decreases i
  {
    if i > 0 {
      WorthMatchesSwitches(bits, sw, i - 1);
      Bits.SwitchValueExtend(sw, i - 1);
      assert bits[8 - i..][1..] == bits[8 - (i - 1)..];
    } else {
      assert bits[8..] == [];
      assert sw[..0] == [];
    }
  }

  /** The summary describes the value: its binary string reads back as the value, each
      listed bit is the bit test of its position, the bits' worth adds up to the value, and
      the character is shown only for a printable value, the same one as the output box. */
  lemma BitRepresentationDescribesValue(v: Bits.Byte)
    ensures Bits.ReadBase2(GetBitRepresentation(v).binary) == v
    ensures |GetBitRepresentation(v).bits| == 8
    ensures forall i :: 0 <= i < 8 ==>
              GetBitRepresentation(v).bits[i].position == 7 - i &&
              (GetBitRepresentation(v).bits[i].value == 1 <==> Bits.BitSet(v, 7 - i))
    ensures Worth(GetBitRepresentation(v).bits) == v
    ensures IsPrintable(v) ==> GetBitRepresentation(v).ascii == OutputLabel(v).text
    ensures !IsPrintable(v) ==> GetBitRepresentation(v).ascii == "[Steuerzeichen]"
  {
    Bits.BinaryStringOfByte(v);
    Bits.HelpDigits(v);
    var bits := GetBitRepresentation(v).bits;
    var sw := Bits.BitsOf(v, 8);
    WorthMatchesSwitches(bits, sw, 8);
    assert bits[0..] == bits;
  }
}
