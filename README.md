# Serial command sender — a verified model of its core

The serial command sender is a desktop tool with three main jobs:

- It reads a C-header-style definitions file (`*_commands.h`).
- It groups the `#define NAME 0xHEX` constants under the `// ... commands` comments that come before them, then lists them.
- It sends a chosen command byte over a serial port, followed by a terminator picked from a fixed table, and logs what it sent in one of four display formats.

This project models the logic behind those jobs and proves what it promises. It leaves out the widgets and the port itself.

The model has these modules, one per file:

- `Common` (`common.dfy`): option type, bytes, hex digits, and small sequence facts.
- `PyText` (`text.dfy`): the Python `str` operations the parser depends on. These are `strip`, `isspace`, `lower`, `upper`, `title`, `in` and `replace`.
- `CommandTable` (`parser.dfy`): the definitions-file parser `parse_groups`.
  - One loop iteration is the function `Step`, and the whole parse is `Parse`.
  - The method `ParseGroups` is the loop itself, with the same state variables as the source, proved equal to `Parse`.
  - The lemmas state the parsing rules: blank-line reset, the "command" and "ack" gates, group-name derivation, dropped orphan declarations, first-seen order, unique names, and no invented entries.
- `CommandFilter` (`filter.dfy`): the search box `filter_commands`, as a function on tables, with its properties.
- `ByteFormat` (`formatter.dfy`): `format_bytes` with the display mode as a parameter.
  - HEX and DEC are exact string functions with round trips back to the bytes.
  - HEX + ASCII takes the decoder as a parameter.
- `SenderApp` (`app.dfy`): `END_CHAR_OPTIONS`, the terminator codes and `bytes.fromhex`, and one `send_command` as a function `Send`.
  - It also holds the class `SerialApp`, whose fields are the state the source keeps on the application object: the table, the search results, the terminator, the connection flag, the writes made to the port and the log.
  - Its methods are `__init__`, `filter_commands`, `update_end_char`, `connect`, `disconnect` and `send_command`.
- `HeaderExample` (`header_example.dfy`): the example definitions file, line by line, and the table the parser builds from it.
- `MotorExample` (`motor_example.dfy`): a file whose ack comment does not contain "command", parsed with one and with two blank lines before it.

A comment selects a group only when its lower-cased text contains "command" (`src/Serial_gui.py:53`). A comment such as `// Motor Ack` therefore changes nothing, and what happens to the declarations after it depends on the blank lines before it:

- After one blank line, a following `#define MOTOR_ACK 0x10` is appended to the Motor *commands*.
- After two blank lines, the current group is reset, and MOTOR_ACK is dropped.
- `MotorExample.MotorOneBlank` and `MotorExample.MotorTwoBlanks` state both outcomes.

Declared values are kept as `int(hex, 16)`, which is unbounded (`src/Serial_gui.py:61`). The model keeps them as `nat`. Sending a value above 255 fails with the range error of `bytes()`.

## Model

| member | source | states |
|---|---|---|
| PyText.Strip | src/Serial_gui.py:38 | the stripped text neither starts nor ends with whitespace |
| PyText.StripKeepsSlice | src/Serial_gui.py:38 | `strip` returns a contiguous slice of the line, and everything cut off on either side is whitespace |
| PyText.StripEmptyIffBlank | src/Serial_gui.py:38-39 | a line strips to nothing exactly when it is all whitespace (the blank-line test) |
| PyText.StripSurrounded | src/Serial_gui.py:52 | whitespace around a text with non-space ends is removed, and the text itself is kept |
| PyText.Lower | src/Serial_gui.py:53 | `lower` keeps the length and maps each character on its own, leaving no upper-case letter; `LowerConcat`, `LowerIdentity` and `LowerIdempotent` characterise it |
| PyText.LowerConcat | src/Serial_gui.py:53 | `lower` of a concatenation is the concatenation of the parts' `lower` |
| PyText.LowerIdentity | src/Serial_gui.py:53 | text without upper-case letters is its own `lower` |
| PyText.LowerIdempotent | src/Serial_gui.py:53 | `lower` leaves no upper-case letter, so applying it twice is applying it once |
| PyText.Title | src/Serial_gui.py:54 | `title` keeps the length, changes only the case of letters, and leaves every other character as it is; `TitleLowerWord` gives its value on a lower-case word |
| PyText.TitleLowerWord | src/Serial_gui.py:54 | `title` of a lower-case word upper-cases only its first letter, and `lower` undoes it |
| PyText.RemoveAll | src/Serial_gui.py:54 | `replace(p, "")` never lengthens the text; `RemoveAllAbsent` and `RemoveAllFirstAbsent` say what it keeps |
| PyText.RemoveAllAbsent | src/Serial_gui.py:54 | `replace(p, "")` changes nothing when `p` does not occur |
| PyText.RemoveAllFirstAbsent | src/Serial_gui.py:54 | a prefix without the pattern's first character passes through `replace(p, "")` unchanged |
| PyText.ReplaceChar | src/Serial_gui.py:254 | after `replace(c, rep)` no `c` is left when `rep` has none; every character comes from the text or from `rep`; the text is unchanged when `c` does not occur; and a single character becomes `rep` if it is `c` and stays otherwise |
| PyText.ReplaceCharConcat | src/Serial_gui.py:254 | `replace` of a concatenation is the concatenation of the parts' `replace` |
| CommandTable.Group.Add | src/Serial_gui.py:61 | appending to one list of a group extends that list by the entry and leaves the name and the other list alone |
| CommandTable.AppendEntry | src/Serial_gui.py:61 | only the group with the given name changes, by one entry in one list; names and order stay |
| CommandTable.MatchComment | src/Serial_gui.py:48 | the comment pattern matches only lines starting with `//`, always captures a non-empty text without a newline, and matches whenever a non-newline follows `//` |
| CommandTable.CommentLineMatches | src/Serial_gui.py:48 | `//`, spaces, then a text: the capture is the text up to the end of the line, without the spaces before it |
| CommandTable.MatchDefine | src/Serial_gui.py:49 | the declaration pattern accepts only lines starting with `#define`; `DefineLineMatches` and `MatchDefineShape` give exactly the lines it accepts and the entry it yields |
| CommandTable.DefineLineMatches | src/Serial_gui.py:49-61 | `#define NAME 0xDIGITS...` yields the pair of NAME and the value of the longest run of hex digits; trailing text is ignored |
| CommandTable.MatchDefineShape | src/Serial_gui.py:49-61 | the converse of `DefineLineMatches`: any line the declaration pattern accepts is `#define`, whitespace, a word, whitespace, `0x`, a longest run of hex digits and a tail, and the entry is the word with the digits' value |
| CommandTable.DefineWithoutValue | src/Serial_gui.py:49 | a `#define NAME` without a hex value matches nothing (the include guard) |
| CommandTable.IndentedLineMatchesNothing | src/Serial_gui.py:48-49 | a line starting with whitespace matches neither pattern, because both are anchored at the start of the raw line |
| CommandTable.BlankCommentLine | src/Serial_gui.py:48-53 | a line of `//` followed only by whitespace is a comment whose stripped text is empty, so it selects no group and changes nothing |
| CommandTable.GroupName | src/Serial_gui.py:54 | the derived group name has no whitespace at either end; its value on comment texts is given by `CommandsCommentText` and `AckCommentText` |
| CommandTable.CommandsCommentText | src/Serial_gui.py:53-54 | "Word commands" opens a group named Word and does not mention "ack" |
| CommandTable.AckCommentText | src/Serial_gui.py:53-58 | "Word ack commands" opens the group Word, and its text mentions "ack", so its section is acks |
| CommandTable.NoCommandText | src/Serial_gui.py:53 | a comment without the letter d cannot contain "command", so it opens no group |
| CommandTable.CommandsCommentLine | src/Serial_gui.py:48-58 | the whole line `// Word commands` opens group Word in the commands section |
| CommandTable.AckCommentLine | src/Serial_gui.py:48-58 | the whole line `// Word ack commands` opens group Word in the acks section |
| CommandTable.Step | src/Serial_gui.py:38-61 | one line: a blank line adds one to the counter and any other line sets it to zero; `StepBlank`, `StepNonBlank`, `GroupCommentStep`, `OtherCommentStep`, `DefineStep` and `StepNeither` give every case |
| CommandTable.Parse | src/Serial_gui.py:30-63 | a file has at most as many groups as lines; `ParseGroups`, `GroupsAreAnnounced`, `EntriesAreDeclared`, `ParseHasUniqueNames` and `ParseExtendsPrefix` characterise the table |
| CommandTable.StepsGroupCount | src/Serial_gui.py:55-56 | reading some lines adds at most one group per line |
| CommandTable.ParseGroups | src/Serial_gui.py:30-63 | the loop over the lines, with `groups`, `current_group`, `current_type` and `blank_lines`, returns exactly the table `Parse` describes |
| CommandTable.ExamineLine | src/Serial_gui.py:48-61 | the two pattern matches of one non-blank line and the group selection or append they cause leave exactly the state `Examine` describes |
| CommandTable.StepsAppend | src/Serial_gui.py:37 | reading `a + b` is reading `a`, then `b` from the state `a` left |
| CommandTable.StepBlank | src/Serial_gui.py:39-41 | a blank line only increments the blank-line counter |
| CommandTable.StepNonBlank | src/Serial_gui.py:42-46 | a non-blank line first applies the reset rule, then is examined |
| CommandTable.BlankLinesOnlyCount | src/Serial_gui.py:39-41 | a run of blank lines changes nothing but the counter, which grows by the run's length |
| CommandTable.NonBlankLineClearsCount | src/Serial_gui.py:46 | after a non-blank line the counter is zero |
| CommandTable.SingleBlankLineIgnored | src/Serial_gui.py:38-46 | one blank line between two non-blank lines changes nothing in the parse |
| CommandTable.BlankRunResets | src/Serial_gui.py:43-46 | two or more blank lines clear the current group and section before the next non-blank line is processed |
| CommandTable.GroupCommentStep | src/Serial_gui.py:51-58 | a group comment makes its name current, creates the group at the end of the table only if it is new, and picks acks exactly when the text mentions "ack" |
| CommandTable.OtherCommentStep | src/Serial_gui.py:51-53 | a comment without "command" leaves the table alone and keeps the current group, unless two blank lines came before it |
| CommandTable.DefineStep | src/Serial_gui.py:59-61 | a declaration is appended to the current group's current section when that group's name is non-empty; otherwise the table is unchanged |
| CommandTable.StepNeither | src/Serial_gui.py:48-59 | a non-blank line matching neither pattern only applies the reset rule |
| CommandTable.StepTable | src/Serial_gui.py:51-61 | a line changes the table only by adding its group or by appending its declaration to the current group |
| CommandTable.ParseHasUniqueNames | src/Serial_gui.py:55-56 | no group name appears twice in the table (a recurring name reuses its group) |
| CommandTable.StepNames | src/Serial_gui.py:55-56 | after a line, the names are the old names plus that line's group name, if it opens one |
| CommandTable.GroupsAreAnnounced | src/Serial_gui.py:51-57 | a name is in the table exactly when some line of the file is a group comment deriving that name |
| CommandTable.NoHeaderNoGroups | src/Serial_gui.py:53-61 | a file without group comments parses to the empty table; every declaration in it is dropped |
| CommandTable.OrphansAfterResetDropped | src/Serial_gui.py:43-61 | after two blank lines, lines without a group comment add nothing to the table |
| CommandTable.StepEntries | src/Serial_gui.py:59-61 | an entry after a line was there before, or is that line's declaration |
| CommandTable.EntriesAreDeclared | src/Serial_gui.py:59-61 | every entry of the table is declared by some line of the file |
| CommandTable.StepExtends | src/Serial_gui.py:55-61 | a line only appends: existing groups keep their place and name, and their lists only grow at the end |
| CommandTable.ParseExtendsPrefix | src/Serial_gui.py:55-61 | the table of a file extends the table of each of its prefixes, so groups are in first-seen order and lists in file order |
| CommandFilter.Keep | src/Serial_gui.py:154-155 | the kept entries are entries of the list that match the query |
| CommandFilter.KeepMembership | src/Serial_gui.py:154-155 | an entry is kept exactly when it was in the list and its lower-cased name contains the query |
| CommandFilter.KeepCounts | src/Serial_gui.py:154-155 | each matching entry is kept as many times as it occurs, and a non-matching one never |
| CommandFilter.KeepSubsequence | src/Serial_gui.py:154-155 | the kept entries keep their order |
| CommandFilter.KeepTwice | src/Serial_gui.py:154-155 | filtering a list twice with the same query is filtering it once |
| CommandFilter.FilterTable | src/Serial_gui.py:152-157 | the loop over the groups shows at most as many groups as the table has; `FilterMembership`, `FilterKeepsOrder` and `FilterIsSubTable` characterise it |
| CommandFilter.Filtered | src/Serial_gui.py:147-157 | the search results never hold more groups than the table; `EmptyQueryShowsAll` and `NonEmptyQueryFilters` give its two cases |
| CommandFilter.EmptyQueryShowsAll | src/Serial_gui.py:148-150 | an empty search shows the whole table unchanged |
| CommandFilter.NonEmptyQueryFilters | src/Serial_gui.py:148-152 | a non-empty search text filters with its lower-cased form |
| CommandFilter.FilterDropsEmptyGroups | src/Serial_gui.py:156-157 | every group shown has at least one command or ack |
| CommandFilter.FilterMembership | src/Serial_gui.py:153-157 | a group is shown exactly when it is some table group cut down to its matching entries, and something is left of it |
| CommandFilter.ShownIffSomeEntryMatches | src/Serial_gui.py:154-156 | a group is shown exactly when one of its commands or acks matches |
| CommandFilter.FilterKeepsOrder | src/Serial_gui.py:153-157 | the shown groups keep the table's order |
| CommandFilter.FilterIsSubTable | src/Serial_gui.py:147-157 | every shown group is a group of the table with the same name and with entries left out, in order |
| CommandFilter.FilterKeepsUniqueNames | src/Serial_gui.py:152-157 | the shown groups have distinct names when the table's do |
| CommandFilter.FilterTwice | src/Serial_gui.py:153-157 | filtering the filtered table again with the same query changes nothing |
| ByteFormat.SplitJoin | src/Serial_gui.py:249-251 | fields without spaces, joined with single spaces, split back into the same fields |
| ByteFormat.Hex | src/Serial_gui.py:249 | the HEX text holds no lower-case letter; `HexIsUpperPairs`, `HexLength`, `HexLayout` and `HexRoundTrip` characterise it |
| ByteFormat.HexIsUpperPairs | src/Serial_gui.py:249 | `data.hex(" ").upper()` is the upper-case two-digit codes of the bytes, joined with single spaces |
| ByteFormat.HexLength | src/Serial_gui.py:249 | the HEX text has length 3n-1 for n bytes, and 0 for none |
| ByteFormat.HexLayout | src/Serial_gui.py:249 | byte i is the two characters at 3i, followed by a space unless it is the last |
| ByteFormat.PairValue | src/Serial_gui.py:249 | the two upper-case digits of a byte read back as that byte |
| ByteFormat.HexRoundTrip | src/Serial_gui.py:249 | parsing the HEX text back gives the bytes |
| ByteFormat.Decimal | src/Serial_gui.py:251 | `str(b)` is digits without a leading zero |
| ByteFormat.DecimalValue | src/Serial_gui.py:251 | `str(b)` reads back as `b` |
| ByteFormat.ByteDecimalWidth | src/Serial_gui.py:251 | a byte's decimal text has one, two or three digits according to its size |
| ByteFormat.Dec | src/Serial_gui.py:251 | the DEC text holds only digits and spaces; `DecRoundTrip` reads the bytes back from it |
| ByteFormat.DecRoundTrip | src/Serial_gui.py:251 | parsing the DEC text back gives the bytes |
| ByteFormat.Escape | src/Serial_gui.py:254 | after escaping no CR or LF is left, and a text without them is unchanged |
| ByteFormat.EscapeConcat | src/Serial_gui.py:254 | escaping a concatenation escapes each part on its own |
| ByteFormat.EscapeSingle | src/Serial_gui.py:254 | a CR becomes the two characters `\r`, an LF becomes `\n`, and any other character stays as it is |
| ByteFormat.HexHasNoBreaks | src/Serial_gui.py:253 | the HEX text holds no CR or LF |
| ByteFormat.Format | src/Serial_gui.py:244-255 | ASCII gives the decoded text. HEX gives the upper-case pairs (`Hex`), which read back as the bytes and have length 3n-1. DEC gives the decimal fields (`Dec`), which read back as the bytes. Any other mode gives the HEX text, two spaces, and the escaped decoded text in parentheses, with no CR or LF |
| ByteFormat.MixedIsFallback | src/Serial_gui.py:252-255 | "HEX + ASCII" has no branch of its own: every mode other than ASCII, HEX and DEC formats the same way |
| ByteFormat.CrLfFormats | src/Serial_gui.py:248-255 | CR LF shows as `0D 0A`, `13 10` and `0D 0A  (\r\n)` |
| ByteFormat.CrLfMixed | src/Serial_gui.py:252-255 | CR LF in HEX + ASCII shows as `0D 0A  (\r\n)`, with literal backslashes |
| SenderApp.Lookup | src/Serial_gui.py:202 | `END_CHAR_OPTIONS[val]` fails only when no pair has the key; `LookupFinds` gives both directions and the value found |
| SenderApp.LookupFinds | src/Serial_gui.py:202 | `END_CHAR_OPTIONS[val]` finds a value exactly when the key is in the table, and the value found is the one paired with it |
| SenderApp.OptionLookups | src/Serial_gui.py:13-20 | the code stored under each of the six choices |
| SenderApp.OptionCodes | src/Serial_gui.py:13-20 | every code in the table is an even-length, upper-case hex code |
| SenderApp.OptionTerminatorsRoundTrip | src/Serial_gui.py:200-202 | the code chosen spells its terminator bytes exactly |
| SenderApp.FromHex | src/Serial_gui.py:227 | `bytes.fromhex` gives one byte per two digits |
| SenderApp.FromHexAt | src/Serial_gui.py:227 | byte i of `bytes.fromhex(s)` is the value of the digit pair at 2i |
| SenderApp.FromHexOfHexCode | src/Serial_gui.py:227 | reading the upper-case code of some bytes gives those bytes |
| SenderApp.HexCodeOfFromHex | src/Serial_gui.py:227 | an upper-case code is the code of the bytes it stands for |
| SenderApp.OneByteCodes | src/Serial_gui.py:227 | "0D", "0A" and "00" are the single bytes CR, LF and NUL |
| SenderApp.TwoByteCodes | src/Serial_gui.py:227 | "0D0A" and "0A0D" are CR LF and LF CR |
| SenderApp.EndCharLabel | src/Serial_gui.py:203 | the label starts with "Hex: 0x" and continues with the code when there is one; `LabelNamesCode` shows it tells codes apart |
| SenderApp.DefaultCode | src/Serial_gui.py:77 | the starting code "0D" is a valid code, and its label reads "Hex: 0x0D" |
| SenderApp.LabelNamesCode | src/Serial_gui.py:203 | two codes with the same label are the same code; "None" cannot be mistaken for a code |
| SenderApp.Terminator | src/Serial_gui.py:227 | the terminator is the bytes of the code; an empty code gives no bytes |
| SenderApp.Send | src/Serial_gui.py:224-233 | not open: nothing written, "Serial port not open." logged. Open: exactly `[value] + terminator` is written and "Sent: " plus its formatted text logged, unless the value is not a byte or the write raises, in which case nothing is written and the error is logged |
| SenderApp.SentLineReadsBack | src/Serial_gui.py:229 | in HEX mode the logged line reads back as exactly the bytes written |
| SenderApp.SentTerminatorSpellsCode | src/Serial_gui.py:227-228 | the bytes after the command byte spell the chosen terminator code again |
| SenderApp.SendWithCrLf | src/Serial_gui.py:227-228 | command 0x01 with the CR + LF terminator writes 01 0D 0A |
| SenderApp.FilterGroups | src/Serial_gui.py:152-157 | the loop over the groups builds exactly the filtered table |
| SenderApp.SerialApp.constructor | src/Serial_gui.py:66-81 | the table is the parse of the file, the search results are the whole table, and the app starts disconnected with terminator "0D" and HEX + ASCII display |
| SenderApp.SerialApp.FilterCommands | src/Serial_gui.py:147-157 | the search results become the table filtered by the search text, and nothing else changes |
| SenderApp.SerialApp.SelectEndChar | src/Serial_gui.py:200-203 | a known choice sets the code from the table and the label from the code; an unknown one leaves both as they were |
| SenderApp.SerialApp.Connect | src/Serial_gui.py:211-217 | a successful open connects and logs "Connected to serial port."; a failed one logs the error and changes nothing else |
| SenderApp.SerialApp.Disconnect | src/Serial_gui.py:219-222 | afterwards the port is closed; "Disconnected." is logged only if it was open, and a closed port is left silently as it is |
| SenderApp.SerialApp.SendCommand | src/Serial_gui.py:224-233 | the writes and the log grow by exactly what `Send` describes for the current connection, terminator and display format, and nothing else changes |
| HeaderExample.ExampleHeaderTable | src/My_device_commands.h:1-24 | the example file parses to Mixer, then Display, each with its two commands and two acks in file order |
| HeaderExample.ExampleSpelling | src/My_device_commands.h:9-22 | the two groups spelled out: Mixer 0x01, 0x02 / 0x81, 0x82, and Display 0x10, 0x11 / 0x90, 0x91 |
| HeaderExample.PreambleSteps | src/My_device_commands.h:1-8 | the comment banner and the include guard change nothing but the blank-line counter, which ends at one |
| MotorExample.AckJoinsCommands | src/Serial_gui.py:51-61 | with one blank line, a declaration after an "Ack" comment without "command" joins the current group's commands |
| MotorExample.AckDropped | src/Serial_gui.py:43-61 | with two blank lines, the same declaration is dropped |
| MotorExample.MotorOneBlank | src/Serial_gui.py:51-61 | the Motor file with one blank line: Motor has commands MOTOR_START, MOTOR_STOP and MOTOR_ACK, and no acks |
| MotorExample.MotorSpelling | src/Serial_gui.py:54-61 | the Motor example's group name is "Motor", and its values are 1, 2 and 16 |
| MotorExample.MotorTwoBlanks | src/Serial_gui.py:43-61 | the Motor file with two blank lines: Motor has commands MOTOR_START and MOTOR_STOP, and MOTOR_ACK is nowhere |

## Left out

- `find_commands_file` (`src/Serial_gui.py:23-28`) is not modelled. It depends on filesystem glob order, a message box and `sys.exit`. The constructor takes the file's lines as a parameter instead.
- Opening and reading the file is not modelled. The parser takes the lines as Python's text-mode iteration yields them: newline translation is done, and every line but the last ends in `\n`.
- The widgets are not modelled: `setup_ui`, `render_command_groups`, `create_group_section`, `toggle`, `clear_log`, the auto-scroll switch and the label widgets. The output pane is the field `log`, one string per `log` call, without the newline it adds.
- `get_ports` and `refresh_ports` are not modelled. They enumerate the operating system's serial ports.
- `read_serial` and its reader thread are not modelled. These are concurrency and a blocking foreign read.
- SenderApp.SerialApp.Connect: the pyserial open is a parameter `openError`, the exception it raises if it raises one. The port name, the baud rate and its `int` conversion are folded into that parameter. Starting the reader thread is not modelled.
- SenderApp.SerialApp.Disconnect: an exception raised by `close` is not modelled.
- ByteFormat.Format: `bytes.decode(errors="replace")` is the parameter `decode`, because UTF-8 decoding with replacement is a library codec. The properties of every mode are stated for any decoder. The worked examples use `ByteFormat.Ascii`, which agrees with `decode` on 7-bit bytes.
- SenderApp.SerialApp.SendCommand: a write that raises is modelled as one that wrote nothing. A partial write before the exception is not modelled. The exception text is the parameter `writeError`.
- PyText.Lower: `lower`, `upper` and `title` map ASCII letters only and leave every other character unchanged. Python also maps non-ASCII letters.
- PyText.Title: `title` also takes non-ASCII letters as uncased, so an ASCII letter right after one is upper-cased. Python's `"Öl".title()` is "Öl", while the model gives "ÖL"; a comment `// Ölpumpe commands` names the group "Ölpumpe" in Python and "ÖLpumpe" in the model.
- CommandTable.MatchDefine: `\w` is taken as ASCII letters, digits and underscore. Python's `\w` also accepts non-ASCII letters and digits.
- `re.match` on the two patterns is written as a direct scan of the line. The model has no regular-expression engine.
- The `groups` dictionary is a sequence of groups in insertion order with distinct names (`CommandTable.ParseHasUniqueNames`). `filtered_data` is a sequence of the same kind.
- The display format has no setter, because the source only changes it through a widget. The constructor sets its initial value, and `SendCommand` reads it.
- SenderApp.SerialApp.SelectEndChar: a choice that is not in `END_CHAR_OPTIONS` raises `KeyError` in Python before anything is set. The model leaves the code and the label unchanged.
