/**
 * The monitor's byte formatter (`format_bytes`). It turns the bytes sent or
 * received on the serial line into one line of log text in the chosen
 * display format: the decoded text ("ASCII"), upper-case hex pairs ("HEX"),
 * decimal values ("DEC"), or hex followed by the decoded text with CR and LF
 * spelled out ("HEX + ASCII", and any mode name not recognised).
 *
 * Decoding (`bytes.decode(errors="replace")`) is a library codec; the
 * formatter takes it as a parameter; `Ascii` stands in for it in the worked
 * examples.
 */
module ByteFormat {
  import opened Common
  import opened PyText

  /** The choices of the display-format combo box. */
  const DisplayFormats: seq<string> := ["ASCII", "HEX", "HEX + ASCII", "DEC"]

  // ---------------------------------------------------------------------
  // `" ".join(...)` and its inverse `split(" ")`.
  // ---------------------------------------------------------------------

  /** `" ".join(fields)`. */
  function Join(fields: seq<string>): string {
    if |fields| == 0 then ""
    else if |fields| == 1 then fields[0]
    else fields[0] + " " + Join(fields[1..])
  }

  /** `s.split(" ")`: the pieces between single spaces, `[""]` for the empty string. */
  function Split(s: string): (r: seq<string>)
    ensures |r| >= 1
    ensures forall i :: 0 <= i < |r| ==> ' ' !in r[i]
  {
    if s == [] then [""]
    else
      var rest := Split(s[1..]);
      if s[0] == ' ' then [""] + rest
      else [[s[0]] + rest[0]] + rest[1..]
  }

  /** Each field rendered by `f`, in order. */
  function Fields(data: seq<byte>, f: byte -> string): (r: seq<string>)
    ensures |r| == |data|
    ensures forall i :: 0 <= i < |data| ==> r[i] == f(data[i])
  {
    seq(|data|, i requires 0 <= i < |data| => f(data[i]))
  }

  predicate NoSpaces(fields: seq<string>) {
    forall i :: 0 <= i < |fields| ==> ' ' !in fields[i]
  }

  lemma {:induction false} SplitWord(f: string)
    requires ' ' !in f
    ensures Split(f) == [f]
  {
    if f != [] {
      SplitWord(f[1..]);
      assert f == [f[0]] + f[1..];
    }
  }

  lemma {:induction false} SplitFirst(f: string, rest: string)
    requires ' ' !in f
    ensures Split(f + " " + rest) == [f] + Split(rest)
  {
    if f == [] {
      assert f + " " + rest == [' '] + rest;
    } else {
      SplitFirst(f[1..], rest);
      assert (f + " " + rest)[1..] == f[1..] + " " + rest;
      assert f == [f[0]] + f[1..];
    }
  }

  /** Splitting a join gives the fields back, when none of them holds a space. */
  lemma {:induction false} SplitJoin(fields: seq<string>)
    requires |fields| >= 1 && NoSpaces(fields)
    ensures Split(Join(fields)) == fields
  {
    if |fields| == 1 {
      SplitWord(fields[0]);
    } else {
      SplitJoin(fields[1..]);
      SplitFirst(fields[0], Join(fields[1..]));
      assert fields == [fields[0]] + fields[1..];
    }
  }

  // ---------------------------------------------------------------------
  // HEX: `data.hex(" ").upper()`.
  // ---------------------------------------------------------------------

  /** `bytes([b]).hex()`: two lower-case digits. */
  function LowerPair(b: byte): string {
    [HexDigitChar(b / 16, false), HexDigitChar(b % 16, false)]
  }

  /** The same two digits in upper case. */
  function UpperPair(b: byte): string {
    [HexDigitChar(b / 16, true), HexDigitChar(b % 16, true)]
  }

  function Hex(data: seq<byte>): (r: string)
    ensures forall k :: 0 <= k < |r| ==> !IsLowerAscii(r[k])
  {
    Upper(Join(Fields(data, LowerPair)))
  }

  lemma {:induction false} UpperJoin(fields: seq<string>)
    ensures Upper(Join(fields)) == Join(seq(|fields|, i requires 0 <= i < |fields| => Upper(fields[i])))
  {
    var up := seq(|fields|, i requires 0 <= i < |fields| => Upper(fields[i]));
    if |fields| >= 2 {
      UpperJoin(fields[1..]);
      assert up[1..] == seq(|fields| - 1, i requires 0 <= i < |fields| - 1 => Upper(fields[1..][i]));
      UpperConcat(fields[0] + " ", Join(fields[1..]));
      UpperConcat(fields[0], " ");
    }
  }

  lemma UpperLowerPair(b: byte)
    ensures Upper(LowerPair(b)) == UpperPair(b)
  {
  }

  /** The HEX text is the upper-case pairs joined by single spaces. */
  lemma HexIsUpperPairs(data: seq<byte>)
    ensures Hex(data) == Join(Fields(data, UpperPair))
  {
    var lower := Fields(data, LowerPair);
    UpperJoin(lower);
    forall i | 0 <= i < |data| ensures Upper(lower[i]) == UpperPair(data[i]) {
      UpperLowerPair(data[i]);
    }
    assert seq(|lower|, i requires 0 <= i < |lower| => Upper(lower[i])) == Fields(data, UpperPair);
  }

  predicate AllPairs(fields: seq<string>) {
    forall i :: 0 <= i < |fields| ==> |fields[i]| == 2
  }

  lemma {:induction false} JoinPairsLength(fields: seq<string>)
    requires |fields| >= 1 && AllPairs(fields)
    ensures |Join(fields)| == 3 * |fields| - 1
  {
    if |fields| >= 2 {
      JoinPairsLength(fields[1..]);
    }
  }

  lemma {:induction false} JoinPairsAt(fields: seq<string>, i: nat)
    requires AllPairs(fields) && i < |fields|
    ensures |Join(fields)| == 3 * |fields| - 1
    ensures Join(fields)[3 * i .. 3 * i + 2] == fields[i]
    ensures i + 1 < |fields| ==> Join(fields)[3 * i + 2] == ' '
  {
    JoinPairsLength(fields);
    if |fields| >= 2 {
      var tail := Join(fields[1..]);
      assert Join(fields) == fields[0] + " " + tail;
      if i > 0 {
        JoinPairsAt(fields[1..], i - 1);
        assert Join(fields)[3 * i .. 3 * i + 2] == tail[3 * (i - 1) .. 3 * (i - 1) + 2];
      }
    }
  }

  /** HEX output is 3n - 1 characters long for n bytes, and empty for no bytes. */
  lemma HexLength(data: seq<byte>)
    ensures |Hex(data)| == if data == [] then 0 else 3 * |data| - 1
  {
    HexIsUpperPairs(data);
    if data != [] {
      JoinPairsLength(Fields(data, UpperPair));
    }
  }

  /** Byte `i` is at characters 3i and 3i+1 as two upper-case digits, with a single space after it unless it is last. */
  lemma HexLayout(data: seq<byte>, i: nat)
    requires i < |data|
    ensures |Hex(data)| == 3 * |data| - 1
    ensures Hex(data)[3 * i .. 3 * i + 2] == UpperPair(data[i])
    ensures i + 1 < |data| ==> Hex(data)[3 * i + 2] == ' '
  {
    HexIsUpperPairs(data);
    JoinPairsAt(Fields(data, UpperPair), i);
  }

  predicate IsHexPair(f: string) {
    |f| == 2 && IsHexDigit(f[0]) && IsHexDigit(f[1])
  }

  /** The byte a pair of hex digits stands for. */
  function PairByte(f: string): (b: byte)
    requires IsHexPair(f)
    ensures b == HexValue(f)
  {
    assert f[..1][..0] == [];
    assert HexValue(f[..1]) == HexDigitValue(f[0]);
    16 * HexDigitValue(f[0]) + HexDigitValue(f[1])
  }

  /** Reads HEX output back: every space-separated field must be two hex digits. */
  function ParseHex(s: string): (r: Option<seq<byte>>)
    ensures r.Some? && s != [] ==> |r.value| == |Split(s)|
  {
    if s == [] then Some([])
    else
      var fields := Split(s);
      if forall i :: 0 <= i < |fields| ==> IsHexPair(fields[i]) then
        Some(seq(|fields|, i requires 0 <= i < |fields| => PairByte(fields[i])))
      else None
  }

  lemma PairValue(b: byte)
    ensures IsHexPair(UpperPair(b)) && PairByte(UpperPair(b)) == b
  {
  }

  /** Parsing the HEX output gives back the bytes. */
  lemma HexRoundTrip(data: seq<byte>)
    ensures ParseHex(Hex(data)) == Some(data)
  {
    HexIsUpperPairs(data);
    if data != [] {
      var fields := Fields(data, UpperPair);
      forall i | 0 <= i < |fields| ensures IsHexPair(fields[i]) && PairByte(fields[i]) == data[i] {
        PairValue(data[i]);
      }
      SplitJoin(fields);
      HexLength(data);
      assert seq(|fields|, i requires 0 <= i < |fields| => PairByte(fields[i])) == data;
    }
  }

  // ---------------------------------------------------------------------
  // DEC: `" ".join(str(b) for b in data)`.
  // ---------------------------------------------------------------------

  function DecimalDigit(d: nat): (c: char)
    requires d < 10
    ensures '0' <= c <= '9' && c as int - '0' as int == d
  {
    ('0' as int + d) as char
  }

  predicate AllDigits(s: string) {
    forall i :: 0 <= i < |s| ==> '0' <= s[i] <= '9'
  }

  /** `str(n)`: decimal digits, without leading zeros. */
  function Decimal(n: nat): (r: string)
    ensures r != [] && AllDigits(r)
    ensures |r| > 1 ==> r[0] != '0'
  {
    if n < 10 then [DecimalDigit(n)] else Decimal(n / 10) + [DecimalDigit(n % 10)]
  }

  /** `int(s)` for a string of decimal digits. */
  function DigitsValue(s: string): nat
    requires AllDigits(s)
  {
    if s == [] then 0 else 10 * DigitsValue(s[..|s| - 1]) + (s[|s| - 1] as int - '0' as int)
  }

  lemma {:induction false} DecimalValue(n: nat)
    ensures DigitsValue(Decimal(n)) == n
  {
    if n >= 10 {
      DecimalValue(n / 10);
      var r := Decimal(n);
      assert r[..|r| - 1] == Decimal(n / 10);
    }
  }

  /** A byte takes one digit below 10, two below 100 and three otherwise. */
  lemma ByteDecimalWidth(b: byte)
    ensures |Decimal(b)| == if b < 10 then 1 else if b < 100 then 2 else 3
  {
    if b >= 10 {
      assert |Decimal(b)| == |Decimal(b / 10)| + 1;
      if b >= 100 {
        assert |Decimal(b / 10)| == |Decimal(b / 100)| + 1;
      }
    }
  }

  function DecimalByte(b: byte): string {
    Decimal(b)
  }

  function Dec(data: seq<byte>): (r: string)
    ensures forall k :: 0 <= k < |r| ==> r[k] == ' ' || '0' <= r[k] <= '9'
  {
    var fields := Fields(data, DecimalByte);
    JoinKeeps(fields, c => c == ' ' || '0' <= c <= '9');
    Join(fields)
  }

  predicate IsDecimalField(f: string) {
    f != [] && AllDigits(f) && DigitsValue(f) < 256
  }

  /** Reads DEC output back: every space-separated field must be a decimal number below 256. */
  function ParseDec(s: string): (r: Option<seq<byte>>)
    ensures r.Some? && s != [] ==> |r.value| == |Split(s)|
  {
    if s == [] then Some([])
    else
      var fields := Split(s);
      if forall i :: 0 <= i < |fields| ==> IsDecimalField(fields[i]) then
        Some(seq(|fields|, i requires 0 <= i < |fields| => DigitsValue(fields[i]) as byte))
      else None
  }

  lemma {:induction false} JoinEmptyOnlyOfNothing(fields: seq<string>)
    requires |fields| >= 1 && fields[0] != []
    ensures Join(fields) != []
  {
  }

  /** Parsing the DEC output gives back the bytes. */
  lemma DecRoundTrip(data: seq<byte>)
    ensures ParseDec(Dec(data)) == Some(data)
  {
    if data != [] {
      var fields := Fields(data, DecimalByte);
      forall i | 0 <= i < |fields| ensures IsDecimalField(fields[i]) && DigitsValue(fields[i]) == data[i] && ' ' !in fields[i] {
        DecimalValue(data[i]);
      }
      SplitJoin(fields);
      JoinEmptyOnlyOfNothing(fields);
      assert seq(|fields|, i requires 0 <= i < |fields| => DigitsValue(fields[i]) as byte) == data;
    }
  }

  // ---------------------------------------------------------------------
  // HEX + ASCII.
  // ---------------------------------------------------------------------

  /** `.replace("\r", "\\r").replace("\n", "\\n")`. */
  function Escape(text: string): (r: string)
    ensures '\r' !in r && '\n' !in r
    ensures ('\r' !in text && '\n' !in text) ==> r == text
  {
    ReplaceChar(ReplaceChar(text, '\r', "\\r"), '\n', "\\n")
  }

  /** What one character of the decoded text becomes in the HEX + ASCII format. */
  function EscapeChar(c: char): string {
    if c == '\r' then "\\r" else if c == '\n' then "\\n" else [c]
  }

  /** Escaping works character by character: each part of a text is escaped on its own. */
  lemma EscapeConcat(a: string, b: string)
    ensures Escape(a + b) == Escape(a) + Escape(b)
  {
    ReplaceCharConcat(a, b, '\r', "\\r");
    ReplaceCharConcat(ReplaceChar(a, '\r', "\\r"), ReplaceChar(b, '\r', "\\r"), '\n', "\\n");
  }

  /** CR becomes the two characters `\r`, LF becomes `\n`, and every other character stays. */
  lemma EscapeSingle(c: char)
    ensures Escape([c]) == EscapeChar(c)
  {
    var once := ReplaceChar([c], '\r', "\\r");
    assert [c][1..] == [];
    if c == '\r' {
      assert once == "\\r" && once[1..] == "r" && once[2..] == [];
    } else {
      assert once == [c] && once[1..] == [];
    }
  }

  /**
   * A stand-in for `decode` in the worked examples: the character with the
   * same code for a 7-bit byte, which is what `decode` gives there, and the
   * replacement character for any other byte.
   */
  function Ascii(data: seq<byte>): (r: string)
    ensures |r| == |data|
  {
    seq(|data|, i requires 0 <= i < |data| => if data[i] < 128 then data[i] as char else '\U{FFFD}')
  }

  // ---------------------------------------------------------------------
  // `format_bytes`.
  // ---------------------------------------------------------------------

  /**
   * `format_bytes(data)` with display format `mode`; `decode` stands for
   * `bytes.decode(errors="replace")`.
   */
  function Format(mode: string, data: seq<byte>, decode: seq<byte> -> string): (r: string)
    ensures mode == "ASCII" ==> r == decode(data)
    ensures mode == "HEX" ==> r == Hex(data) && ParseHex(r) == Some(data)
    ensures mode == "HEX" ==> |r| == if data == [] then 0 else 3 * |data| - 1
    ensures mode == "DEC" ==> r == Dec(data) && ParseDec(r) == Some(data)
    ensures mode != "ASCII" && mode != "HEX" && mode != "DEC" ==>
      r == Hex(data) + "  (" + Escape(decode(data)) + ")" && '\r' !in r && '\n' !in r
  {
    if mode == "ASCII" then decode(data)
    else if mode == "HEX" then
      HexRoundTrip(data);
      HexLength(data);
      Hex(data)
    else if mode == "DEC" then
      DecRoundTrip(data);
      Dec(data)
    else
      HexIsUpperPairs(data);
      HexHasNoBreaks(data);
      Hex(data) + "  (" + Escape(decode(data)) + ")"
  }

  /** A join of fields whose characters all satisfy `p` satisfies `p` throughout, when the space does. */
  lemma {:induction false} JoinKeeps(fields: seq<string>, p: char -> bool)
    requires p(' ')
    requires forall i, k :: 0 <= i < |fields| && 0 <= k < |fields[i]| ==> p(fields[i][k])
    ensures forall k :: 0 <= k < |Join(fields)| ==> p(Join(fields)[k])
  {
    if |fields| >= 2 {
      JoinKeeps(fields[1..], p);
      var j := Join(fields);
      assert j == fields[0] + " " + Join(fields[1..]);
    }
  }

  lemma HexHasNoBreaks(data: seq<byte>)
    ensures '\r' !in Hex(data) && '\n' !in Hex(data)
  {
    HexIsUpperPairs(data);
    var p := (c: char) => c != '\r' && c != '\n';
    JoinKeeps(Fields(data, UpperPair), p);
  }

  lemma CrLfHex()
    ensures Hex([0x0D, 0x0A]) == "0D 0A"
  {
    var data: seq<byte> := [0x0D, 0x0A];
    HexIsUpperPairs(data);
    assert UpperPair(0x0D) == "0D" && UpperPair(0x0A) == "0A";
    assert Fields(data, UpperPair) == ["0D", "0A"];
  }

  lemma CrLfDec()
    ensures Dec([0x0D, 0x0A]) == "13 10"
  {
    var data: seq<byte> := [0x0D, 0x0A];
    assert Decimal(13) == "13" && Decimal(10) == "10";
    var fields := Fields(data, DecimalByte);
    assert fields == ["13", "10"] && fields[1..] == ["10"];
    assert Join(fields) == "13" + " " + "10";
  }

  lemma CrLfEscape()
    ensures Escape(Ascii([0x0D, 0x0A])) == "\\r\\n"
  {
    var text := Ascii([0x0D, 0x0A]);
    assert text == ['\r'] + ['\n'];
    EscapeConcat(['\r'], ['\n']);
    EscapeSingle('\r');
    EscapeSingle('\n');
  }

  /** CR followed by LF in the HEX, DEC and HEX + ASCII formats. */
  lemma CrLfFormats()
    ensures Format("HEX", [0x0D, 0x0A], Ascii) == "0D 0A"
    ensures Format("DEC", [0x0D, 0x0A], Ascii) == "13 10"
    ensures Format("HEX + ASCII", [0x0D, 0x0A], Ascii) == "0D 0A  (\\r\\n)"
  {
    assert Format("HEX", [0x0D, 0x0A], Ascii) == "0D 0A" by {
      CrLfHex();
    }
    assert Format("DEC", [0x0D, 0x0A], Ascii) == "13 10" by {
      CrLfDec();
    }
    CrLfMixed();
  }

  lemma CrLfMixed()
    ensures Format("HEX + ASCII", [0x0D, 0x0A], Ascii) == "0D 0A  (\\r\\n)"
  {
    var data: seq<byte> := [0x0D, 0x0A];
    CrLfHex();
    CrLfEscape();
    CrLfMixedText(Hex(data), Escape(Ascii(data)));
  }

  lemma CrLfMixedText(h: string, e: string)
    requires h == "0D 0A" && e == "\\r\\n"
    ensures h + "  (" + e + ")" == "0D 0A  (\\r\\n)"
  {
  }

  /**
   * "HEX + ASCII", the third choice of the display-format box, has no branch
   * of its own: it is what any mode other than ASCII, HEX and DEC gives.
   */
  lemma MixedIsFallback(mode: string, data: seq<byte>, decode: seq<byte> -> string)
    requires mode != "ASCII" && mode != "HEX" && mode != "DEC"
    ensures Format(mode, data, decode) == Format(DisplayFormats[2], data, decode)
  {
  }
}
