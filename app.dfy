/**
 * The application object `SerialApp` without its widgets: the parsed command
 * table and its search results, the terminator chosen in the "End Char" box,
 * the connection to the serial port as an open/closed flag, the writes made
 * to the port and the lines of the output log.
 */
module SenderApp {
  import opened Common
  import opened PyText
  import opened CommandTable
  import opened ByteFormat
  import opened CommandFilter

  // ---------------------------------------------------------------------
  // Terminators.
  // ---------------------------------------------------------------------

  /** `END_CHAR_OPTIONS`: each choice of the terminator box and its hex code, in insertion order. */
  const EndCharOptions: seq<(string, string)> := [
    ("None", ""),
    ("CR (Carriage Return)", "0D"),
    ("LF (Line Feed)", "0A"),
    ("CR + LF", "0D0A"),
    ("LF + CR", "0A0D"),
    ("NULL", "00")
  ]

  /** `options[key]`; None where Python raises `KeyError`. */
  function Lookup(options: seq<(string, string)>, key: string): (r: Option<string>)
    ensures r.None? ==> forall i :: 0 <= i < |options| ==> options[i].0 != key
  {
    if options == [] then None
    else if options[0].0 == key then Some(options[0].1)
    else Lookup(options[1..], key)
  }

  /** A key is found exactly when some pair carries it, and what is found is paired with it. */
  lemma {:induction false} LookupFinds(options: seq<(string, string)>, key: string)
    ensures Lookup(options, key).Some? <==> exists i :: 0 <= i < |options| && options[i].0 == key
    ensures Lookup(options, key).Some? ==> exists i :: 0 <= i < |options| && options[i] == (key, Lookup(options, key).value)
  {
    if options != [] && options[0].0 != key {
      LookupFinds(options[1..], key);
      if exists i :: 0 <= i < |options| && options[i].0 == key {
        var i :| 0 <= i < |options| && options[i].0 == key;
        assert options[1..][i - 1] == options[i];
      }
      if Lookup(options, key).Some? {
        var i :| 0 <= i < |options[1..]| && options[1..][i] == (key, Lookup(options, key).value);
        assert options[i + 1] == options[1..][i];
      }
    }
  }

  /** An even number of hex digits: what `bytes.fromhex` reads as whole bytes. */
  predicate IsHexCode(s: string) {
    |s| % 2 == 0 && forall i :: 0 <= i < |s| ==> IsHexDigit(s[i])
  }

  /** `bytes.fromhex(s)` for a code without spaces. */
  function FromHex(s: string): (r: seq<byte>)
    requires IsHexCode(s)
    ensures |r| == |s| / 2
    decreases |s|
  {
    if s == [] then [] else [PairByte(s[..2])] + FromHex(s[2..])
  }

  /** The code of some bytes in upper-case hex, without spaces. */
  function HexCode(data: seq<byte>): (s: string)
    ensures |s| == 2 * |data|
  {
    if data == [] then "" else UpperPair(data[0]) + HexCode(data[1..])
  }

  /** Byte `i` of `bytes.fromhex(s)` is the pair of digits at 2i. */
  lemma {:induction false} FromHexAt(s: string, i: nat)
    requires IsHexCode(s) && i < |s| / 2
    ensures IsHexPair(s[2 * i .. 2 * i + 2]) && FromHex(s)[i] == PairByte(s[2 * i .. 2 * i + 2])
    decreases |s|
  {
    var f := s[2 * i .. 2 * i + 2];
    if i > 0 {
      assert IsHexCode(s[2..]) by {
        assert forall k :: 0 <= k < |s[2..]| ==> s[2..][k] == s[k + 2];
      }
      FromHexAt(s[2..], i - 1);
      assert s[2..][2 * (i - 1) .. 2 * (i - 1) + 2] == f;
      assert FromHex(s)[i] == FromHex(s[2..])[i - 1];
    } else {
      assert f == s[..2] && f[0] == s[0] && f[1] == s[1];
    }
  }

  /** Reading back an upper-case code gives the bytes. */
  lemma {:induction false} FromHexOfHexCode(data: seq<byte>)
    ensures IsHexCode(HexCode(data)) && FromHex(HexCode(data)) == data
  {
    if data != [] {
      FromHexOfHexCode(data[1..]);
      var s := HexCode(data);
      PairValue(data[0]);
      assert s[..2] == UpperPair(data[0]) && s[2..] == HexCode(data[1..]);
      assert data == [data[0]] + data[1..];
    }
  }

  predicate NoLowerCase(s: string) {
    forall i :: 0 <= i < |s| ==> !IsLowerAscii(s[i])
  }

  lemma UpperPairOfPair(p: string)
    requires IsHexPair(p) && NoLowerCase(p)
    ensures UpperPair(PairByte(p)) == p
  {
    var b := PairByte(p);
    assert b / 16 == HexDigitValue(p[0]) && b % 16 == HexDigitValue(p[1]);
  }

  /** An upper-case code is the code of the bytes it stands for. */
  lemma {:induction false} HexCodeOfFromHex(s: string)
    requires IsHexCode(s) && NoLowerCase(s)
    ensures HexCode(FromHex(s)) == s
    decreases |s|
  {
    if s != [] {
      HexCodeOfFromHex(s[2..]);
      UpperPairOfPair(s[..2]);
      assert s == s[..2] + s[2..];
    }
  }

  /** Every code in the table is an upper-case hex code. */
  lemma OptionCodes()
    ensures forall i :: 0 <= i < |EndCharOptions| ==> IsHexCode(EndCharOptions[i].1) && NoLowerCase(EndCharOptions[i].1)
  {
  }

  /** Every code chosen from the table names its terminator bytes exactly. */
  lemma OptionTerminatorsRoundTrip(option: string)
    requires Lookup(EndCharOptions, option).Some?
    ensures IsHexCode(Lookup(EndCharOptions, option).value)
    ensures HexCode(FromHex(Lookup(EndCharOptions, option).value)) == Lookup(EndCharOptions, option).value
  {
    OptionCodes();
    LookupFinds(EndCharOptions, option);
    HexCodeOfFromHex(Lookup(EndCharOptions, option).value);
  }

  lemma OneByteCodes()
    ensures FromHex("0D") == [0x0D] && FromHex("0A") == [0x0A] && FromHex("00") == [0x00]
  {
    assert "0D"[..2] == "0D" && "0A"[..2] == "0A" && "00"[..2] == "00";
  }

  lemma TwoByteCodes()
    ensures FromHex("0D0A") == [0x0D, 0x0A] && FromHex("0A0D") == [0x0A, 0x0D]
  {
    var crlf := "0D0A";
    var lfcr := "0A0D";
    assert crlf[..2] == "0D" && crlf[2..] == "0A" && "0D"[..2] == "0D";
    assert lfcr[..2] == "0A" && lfcr[2..] == "0D" && "0A"[..2] == "0A";
  }

  /** The code stored under each choice of the terminator box. */
  lemma OptionLookups()
    ensures Lookup(EndCharOptions, "None") == Some("")
    ensures Lookup(EndCharOptions, "CR (Carriage Return)") == Some("0D")
    ensures Lookup(EndCharOptions, "LF (Line Feed)") == Some("0A")
    ensures Lookup(EndCharOptions, "CR + LF") == Some("0D0A")
    ensures Lookup(EndCharOptions, "LF + CR") == Some("0A0D")
    ensures Lookup(EndCharOptions, "NULL") == Some("00")
  {
  }

  /** The text of the label beside the terminator box. */
  function EndCharLabel(code: string): (r: string)
    ensures "Hex: 0x" <= r
    ensures code != "" ==> |r| == 7 + |code| && forall i :: 0 <= i < |code| ==> r[7 + i] == code[i]
  {
    "Hex: 0x" + (if code != "" then code else "None")
  }

  /** The code and label the application starts with, before any choice is made. */
  lemma DefaultCode()
    ensures IsHexCode("0D") && EndCharLabel("0D") == "Hex: 0x0D"
  {
  }

  /** The label tells the terminator apart: two codes with the same label are the same code. */
  lemma LabelNamesCode(a: string, b: string)
    requires IsHexCode(a) && IsHexCode(b) && EndCharLabel(a) == EndCharLabel(b)
    ensures a == b
  {
    assert !IsHexCode("None") by {
      assert !IsHexDigit("None"[0]);
    }
    assert EndCharLabel(a)[7..] == (if a != "" then a else "None");
    assert EndCharLabel(b)[7..] == (if b != "" then b else "None");
  }

  // ---------------------------------------------------------------------
  // One `send_command`.
  // ---------------------------------------------------------------------

  /** What one `send_command` does: the bytes it writes to the port, if any, and the line it logs. */
  datatype SendResult = SendResult(written: Option<seq<byte>>, line: string)

  /** `bytes([value])` raises this for a value outside a byte. */
  const RangeError: string := "bytes must be in range(0, 256)"

  /** `bytes.fromhex(code) if code else b""`. */
  function Terminator(code: string): (r: seq<byte>)
    requires IsHexCode(code)
    ensures r == FromHex(code)
  {
    if code != "" then FromHex(code) else []
  }

  /**
   * `send_command(value)` with the port `open` or not, terminator code
   * `code` and display format `mode`; `writeError` is the exception the
   * port's `write` raises, if it raises one.
   */
  function Send(open: bool, value: int, code: string, writeError: Option<string>, mode: string,
                decode: seq<byte> -> string): (r: SendResult)
    requires IsHexCode(code)
    ensures !open ==> r == SendResult(None, "Serial port not open.")
    ensures r.written.Some? <==> open && 0 <= value < 256 && writeError.None?
    ensures r.written.Some? ==>
      |r.written.value| == 1 + |code| / 2 && r.written.value[0] == value && r.written.value[1..] == FromHex(code)
      && r.line == "Sent: " + Format(mode, r.written.value, decode)
    ensures open && !(0 <= value < 256) ==> r.line == "Send error: " + RangeError
    ensures open && 0 <= value < 256 && writeError.Some? ==> r.line == "Send error: " + writeError.value
  {
    if open then
      var end := Terminator(code);
      if 0 <= value < 256 then
        var payload := [value as byte] + end;
        if writeError.Some? then SendResult(None, "Send error: " + writeError.value)
        else SendResult(Some(payload), "Sent: " + Format(mode, payload, decode))
      else SendResult(None, "Send error: " + RangeError)
    else SendResult(None, "Serial port not open.")
  }

  /** In HEX mode the logged line reads back as exactly the bytes written. */
  lemma SentLineReadsBack(value: int, code: string, decode: seq<byte> -> string)
    requires IsHexCode(code) && 0 <= value < 256
    ensures Send(true, value, code, None, "HEX", decode).line[6..] == Hex([value as byte] + FromHex(code))
    ensures ParseHex(Send(true, value, code, None, "HEX", decode).line[6..]) == Some([value as byte] + FromHex(code))
  {
  }

  /** The bytes after the command byte spell the terminator code again. */
  lemma SentTerminatorSpellsCode(value: int, code: string, mode: string, decode: seq<byte> -> string)
    requires IsHexCode(code) && NoLowerCase(code) && 0 <= value < 256
    ensures HexCode(Send(true, value, code, None, mode, decode).written.value[1..]) == code
  {
    HexCodeOfFromHex(code);
  }

  /** Command 0x01 with the CR + LF terminator writes 01 0D 0A. */
  lemma SendWithCrLf(mode: string, decode: seq<byte> -> string)
    ensures Send(true, 0x01, "0D0A", None, mode, decode).written.Some?
    ensures Send(true, 0x01, "0D0A", None, mode, decode).written.value == [0x01, 0x0D, 0x0A]
  {
    TwoByteCodes();
    var w := Send(true, 0x01, "0D0A", None, mode, decode).written.value;
    assert w[0] == 0x01 && w[1..] == [0x0D, 0x0A];
    assert w == [w[0]] + w[1..];
  }

  /** One more round of the loop in `filter_commands`. */
  lemma FilterTableFrom(t: Table, i: nat, q: string)
    requires i < |t|
    ensures FilterTable(t[i..], q) ==
      (if HasEntries(Shrink(t[i], q)) then [Shrink(t[i], q)] else []) + FilterTable(t[i + 1..], q)
  {
    assert t[i..][1..] == t[i + 1..];
  }

  /** The loop over `groups_data.items()` in `filter_commands`, for a non-empty lower-cased query. */
  method FilterGroups(groups: Table, query: string) returns (result: Table)
    ensures result == FilterTable(groups, query)
  {
    result := [];
    var i := 0;
    assert groups[0..] == groups;
    while i < |groups|
      invariant 0 <= i <= |groups|
      invariant result + FilterTable(groups[i..], query) == FilterTable(groups, query)
    {
      var g := groups[i];
      var cmds := Keep(g.commands, query);
      var acks := Keep(g.acks, query);
      FilterTableFrom(groups, i, query);
      ghost var before := result;
      ghost var piece := if cmds != [] || acks != [] then [Group(g.name, cmds, acks)] else [];
      if cmds != [] || acks != [] {
        result := result + [Group(g.name, cmds, acks)];
      }
      assert result == before + piece;
      Associative(before, piece, FilterTable(groups[i + 1..], query));
      i := i + 1;
    }
    assert groups[i..] == [];
  }

  // ---------------------------------------------------------------------
  // The application object.
  // ---------------------------------------------------------------------

  class SerialApp {
    /** `groups_data`: the table parsed from the definitions file. */
    var groupsData: Table
    /** `filtered_data`: what the command list shows. */
    var filteredData: Table
    /** `search_text`. */
    var searchText: string
    /** `serial_conn` is set and open. */
    var connected: bool
    /** Everything written to the port, one payload per `write`. */
    var writes: seq<seq<byte>>
    /** The lines of the output pane, oldest first. */
    var log: seq<string>
    /** `end_char_option`: the choice shown in the terminator box. */
    var endCharOption: string
    /** `end_char`: the hex code of the terminator. */
    var endChar: string
    /** The text of `end_char_label`. */
    var endCharLabel: string
    /** `display_format`. */
    var displayFormat: string
    /** `bytes.decode(errors="replace")`. */
    const decode: seq<byte> -> string

    predicate Valid()
      reads this
    {
      UniqueNames(groupsData) && filteredData == Filtered(groupsData, searchText)
      && IsHexCode(endChar) && endCharLabel == EndCharLabel(endChar)
    }

    /** `__init__` on the lines of the definitions file. */
    constructor (lines: seq<string>, decode: seq<byte> -> string)
      ensures Valid()
      ensures groupsData == Parse(lines) && filteredData == groupsData && searchText == ""
      ensures !connected && writes == [] && log == []
      ensures endCharOption == "CR (Carriage Return)" && endChar == "0D" && endCharLabel == "Hex: 0x0D"
      ensures displayFormat == "HEX + ASCII" && this.decode == decode
    {
      var table := ParseGroups(lines);
      ParseHasUniqueNames(lines);
      DefaultCode();
      EmptyQueryShowsAll(table);
      groupsData := table;
      filteredData := table;
      searchText := "";
      connected := false;
      writes := [];
      log := [];
      endCharOption := "CR (Carriage Return)";
      endChar := "0D";
      endCharLabel := "Hex: 0x0D";
      displayFormat := "HEX + ASCII";
      this.decode := decode;
    }

    /** The search text becomes `search` and `filter_commands` runs. */
    method FilterCommands(search: string)
      requires Valid()
      modifies this
      ensures Valid()
      ensures searchText == search && filteredData == Filtered(groupsData, search)
      ensures groupsData == old(groupsData) && connected == old(connected)
      ensures writes == old(writes) && log == old(log)
      ensures endCharOption == old(endCharOption) && endChar == old(endChar)
      ensures endCharLabel == old(endCharLabel) && displayFormat == old(displayFormat)
    {
      searchText := search;
      var query := Lower(search);
      if query == [] {
        filteredData := groupsData;
      } else {
        filteredData := FilterGroups(groupsData, query);
      }
    }

    /** The user picks `option` in the terminator box, which runs `update_end_char`. */
    method SelectEndChar(option: string)
      requires Valid()
      modifies this
      ensures Valid()
      ensures endCharOption == option
      ensures Lookup(EndCharOptions, option).Some? ==>
        endChar == Lookup(EndCharOptions, option).value && endCharLabel == EndCharLabel(endChar)
      ensures Lookup(EndCharOptions, option).None? ==> endChar == old(endChar) && endCharLabel == old(endCharLabel)
      ensures groupsData == old(groupsData) && filteredData == old(filteredData) && searchText == old(searchText)
      ensures connected == old(connected) && writes == old(writes) && log == old(log)
      ensures displayFormat == old(displayFormat)
    {
      endCharOption := option;
      var code := Lookup(EndCharOptions, option);
      if code.Some? {
        OptionTerminatorsRoundTrip(option);
        endChar := code.value;
        endCharLabel := EndCharLabel(endChar);
      }
    }

    /** `connect`; `openError` is the exception opening the port raises, if it raises one. */
    method Connect(openError: Option<string>)
      requires Valid()
      modifies this
      ensures Valid()
      ensures openError.None? ==> connected && log == old(log) + ["Connected to serial port."]
      ensures openError.Some? ==> connected == old(connected) && log == old(log) + ["Connection error: " + openError.value]
      ensures writes == old(writes) && groupsData == old(groupsData) && filteredData == old(filteredData)
      ensures searchText == old(searchText) && endCharOption == old(endCharOption) && endChar == old(endChar)
      ensures endCharLabel == old(endCharLabel) && displayFormat == old(displayFormat)
    {
      if openError.None? {
        connected := true;
        log := log + ["Connected to serial port."];
      } else {
        log := log + ["Connection error: " + openError.value];
      }
    }

    /** `disconnect`: closes an open port; does nothing at all otherwise. */
    method Disconnect()
      requires Valid()
      modifies this
      ensures Valid()
      ensures !connected
      ensures log == old(log) + (if old(connected) then ["Disconnected."] else [])
      ensures writes == old(writes) && groupsData == old(groupsData) && filteredData == old(filteredData)
      ensures searchText == old(searchText) && endCharOption == old(endCharOption) && endChar == old(endChar)
      ensures endCharLabel == old(endCharLabel) && displayFormat == old(displayFormat)
    {
      if connected {
        connected := false;
        log := log + ["Disconnected."];
      }
    }

    /**
     * `send_command(value)`; `writeError` is the exception the port's `write`
     * raises, if it raises one. Exactly what `Send` describes is written and logged.
     */
    method SendCommand(value: int, writeError: Option<string>)
      requires Valid()
      modifies this
      ensures Valid()
      ensures writes == old(writes) + (
        var r := Send(old(connected), value, endChar, writeError, displayFormat, decode);
        if r.written.Some? then [r.written.value] else [])
      ensures log == old(log) + [Send(old(connected), value, endChar, writeError, displayFormat, decode).line]
      ensures connected == old(connected) && groupsData == old(groupsData) && filteredData == old(filteredData)
      ensures searchText == old(searchText) && endCharOption == old(endCharOption) && endChar == old(endChar)
      ensures endCharLabel == old(endCharLabel) && displayFormat == old(displayFormat)
    {
      if connected {
        var end := if endChar != "" then FromHex(endChar) else [];
        if 0 <= value < 256 {
          var payload := [value as byte] + end;
          if writeError.Some? {
            log := log + ["Send error: " + writeError.value];
          } else {
            writes := writes + [payload];
            log := log + ["Sent: " + Format(displayFormat, payload, decode)];
          }
        } else {
          log := log + ["Send error: " + RangeError];
        }
      } else {
        log := log + ["Serial port not open."];
      }
    }
  }
}
