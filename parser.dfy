/**
 * The definitions-file parser (`parse_groups`). One pass over the lines of a
 * C-header-style file groups the `#define NAME 0xHEX` constants under the
 * `// ... command ...` comments that precede them. The result is an ordered
 * table: group name -> (commands, acks).
 */
module CommandTable {
  import opened Common
  import opened PyText

  /** Which of a group's two lists a declaration goes to (`current_type`). */
  datatype Section = Commands | Acks

  /** One `(NAME, value)` pair. The value is `int(hex, 16)`, so it is unbounded. */
  datatype Entry = Entry(name: string, value: nat)

  /** One value of the `groups` dictionary, together with its key. */
  datatype Group = Group(name: string, commands: seq<Entry>, acks: seq<Entry>)
  {
    function Entries(s: Section): seq<Entry> {
      if s == Commands then commands else acks
    }

    /** `groups[name][s].append(e)`. */
    function Add(s: Section, e: Entry): (g: Group)
      ensures g.name == name
      ensures g.Entries(s) == Entries(s) + [e]
      ensures s == Commands ==> g.acks == acks
      ensures s == Acks ==> g.commands == commands
    {
      if s == Commands then this.(commands := commands + [e]) else this.(acks := acks + [e])
    }
  }

  /** The `groups` dictionary, in insertion order (Python dictionaries keep it). */
  type Table = seq<Group>

  /** The keys of the table, in order. */
  function Names(t: Table): (ns: seq<string>)
    ensures |ns| == |t|
    ensures forall i :: 0 <= i < |t| ==> ns[i] == t[i].name
  {
    seq(|t|, i requires 0 <= i < |t| => t[i].name)
  }

  /** Dictionary keys are unique. */
  predicate UniqueNames(t: Table) {
    forall i, j :: 0 <= i < j < |t| ==> t[i].name != t[j].name
  }

  /** `groups[name][s].append(e)` on the whole table: only the group with that key changes. */
  function AppendEntry(t: Table, name: string, s: Section, e: Entry): (u: Table)
    ensures Names(u) == Names(t)
    ensures forall i :: 0 <= i < |t| && t[i].name == name ==> u[i] == t[i].Add(s, e)
    ensures forall i :: 0 <= i < |t| && t[i].name != name ==> u[i] == t[i]
  {
    seq(|t|, i requires 0 <= i < |t| => if t[i].name == name then t[i].Add(s, e) else t[i])
  }

  // ---------------------------------------------------------------------
  // The two regular expressions, matched at the start of the raw line.
  // ---------------------------------------------------------------------

  /** `\w` on the ASCII range. */
  predicate IsWordChar(c: char) {
    ('a' <= c <= 'z') || ('A' <= c <= 'Z') || ('0' <= c <= '9') || c == '_'
  }

  /** `.` without the DOTALL flag: anything but a newline. */
  predicate NotNewline(c: char) {
    c != '\n'
  }

  /** `re.match(r"//\s*(.+)", line)`, giving group 1 when the line matches. */
  function MatchComment(line: string): (r: Option<string>)
    ensures r.Some? ==> StartsWith(line, "//") && r.value != [] && '\n' !in r.value
    ensures StartsWith(line, "//") && |line| > 2 && line[2] != '\n' ==> r.Some?
  {
    if StartsWith(line, "//") then
      var rest := line[2..];
      CommentBody(rest, SpaceRun(rest))
    else None
  }

  /**
   * Group 1 of the comment pattern once `\s*` holds the first `k` characters of
   * `rest` (all whitespace): `.+` must start on a character other than a
   * newline, and otherwise the engine gives `\s*` one character back.
   */
  function CommentBody(rest: string, k: nat): (r: Option<string>)
    requires k <= |rest|
    ensures r.Some? ==> r.value != [] && '\n' !in r.value
    ensures 0 < |rest| && rest[0] != '\n' ==> r.Some?
    decreases k
  {
    if k < |rest| && NotNewline(rest[k]) then
      var tail := rest[k..];
      var n := Span(tail, NotNewline);
      assert forall i :: 0 <= i < n ==> tail[..n][i] == tail[i];
      Some(tail[..n])
    else if k == 0 then None
    else CommentBody(rest, k - 1)
  }

  /** `re.match(r"#define\s+(\w+)\s+0x([0-9A-Fa-f]+)", line)`, giving `(group 1, int(group 2, 16))`. */
  function MatchDefine(line: string): (r: Option<Entry>)
    ensures r.Some? ==> StartsWith(line, "#define")
  {
    if StartsWith(line, "#define") then DefineAfterKeyword(line[7..]) else None
  }

  // The pieces of the declaration pattern. Each `+` is greedy, and since
  // whitespace, word characters and `0` exclude one another, no piece ever
  // gives characters back.

  /** `\s+(\w+)\s+0x([0-9A-Fa-f]+)`. */
  function DefineAfterKeyword(a: string): Option<Entry> {
    var n := SpaceRun(a);
    if n == 0 then None else DefineName(a[n..])
  }

  /** `(\w+)\s+0x([0-9A-Fa-f]+)`. */
  function DefineName(b: string): Option<Entry> {
    var n := Span(b, IsWordChar);
    if n == 0 then None else DefineValue(b[..n], b[n..])
  }

  /** `\s+0x([0-9A-Fa-f]+)`, once the name is known. */
  function DefineValue(name: string, c: string): Option<Entry> {
    var n := SpaceRun(c);
    if n == 0 then None else HexLiteral(name, c[n..])
  }

  /** `0x([0-9A-Fa-f]+)`: the longest run of hex digits; whatever follows it is ignored. */
  function HexLiteral(name: string, d: string): Option<Entry> {
    if !StartsWith(d, "0x") then None
    else
      var n := Span(d[2..], IsHexDigit);
      if n == 0 then None else Some(Entry(name, HexValue(d[2..][..n])))
  }

  /** The group name derived from a header comment's text (line 54 of the source). */
  function GroupName(text: string): (r: string)
    ensures r == [] || (!IsSpace(r[0]) && !IsSpace(r[|r| - 1]))
  {
    Title(Strip(RemoveAll(RemoveAll(RemoveAll(Lower(text), "ack"), "commands"), "command")))
  }

  /** The stripped text of a comment line (`comment_match.group(1).strip()`). */
  function CommentText(line: string): string
    requires MatchComment(line).Some?
  {
    Strip(MatchComment(line).value)
  }

  /** A line that selects or creates a group: a comment whose lower-cased text contains "command". */
  predicate OpensGroup(line: string) {
    MatchComment(line).Some? && Contains(Lower(CommentText(line)), "command")
  }

  /** The name a group-opening comment selects. */
  function CommentName(line: string): string
    requires OpensGroup(line)
  {
    GroupName(CommentText(line))
  }

  /** The list a group-opening comment selects: the acks exactly when its text contains "ack". */
  function CommentSection(line: string): Section
    requires OpensGroup(line)
  {
    if Contains(Lower(CommentText(line)), "ack") then Acks else Commands
  }

  // The comments of a well-formed header, "// Mixer commands" and
  // "// Mixer ack commands", worked through the group-name expression.

  lemma LowerTitled(w: string, tail: string)
    requires LowerWord(w)
    ensures Lower(Title(w) + tail) == w + Lower(tail)
  {
    TitleLowerWord(w);
    LowerConcat(Title(w), tail);
  }

  lemma NamesCommand(a: string)
    ensures Contains(a + " commands", "command")
  {
    assert a + " commands" == (a + " ") + "command" + "s";
    ContainsMiddle(a + " ", "command", "s");
  }

  lemma RemoveCommandsSuffix(a: string)
    requires 'c' !in a
    ensures RemoveAll(a + "commands", "commands") == a
  {
    assert a + "commands" == a + ("commands" + []);
    RemoveAllFirstAbsent(a, "commands" + [], "commands");
    RemoveAllHead("commands", []);
    assert a + [] == a;
  }

  lemma StripWordSpaces(w: string, sp: string)
    requires LowerWord(w) && AllSpace(sp)
    ensures Strip(w + sp) == w
  {
    assert w + sp == [] + w + sp;
    StripSurrounded([], w, sp);
  }

  lemma CommandsRemovals(w: string)
    requires 'c' !in w && 'k' !in w
    ensures RemoveAll(RemoveAll(RemoveAll(w + " commands", "ack"), "commands"), "command") == w + " "
  {
    var lt := w + " commands";
    assert RemoveAll(lt, "ack") == lt by {
      MissingCharNotContained(lt, "ack", 'k');
      RemoveAllAbsent(lt, "ack");
    }
    assert RemoveAll(lt, "commands") == w + " " by {
      assert lt == (w + " ") + "commands";
      RemoveCommandsSuffix(w + " ");
    }
    assert RemoveAll(w + " ", "command") == w + " " by {
      MissingCharNotContained(w + " ", "command", 'c');
      RemoveAllAbsent(w + " ", "command");
    }
  }

  lemma CommandsNameStages(w: string, suffix: string)
    requires LowerWord(w) && 'c' !in w && 'k' !in w && Lower(suffix) == " commands"
    ensures GroupName(Title(w) + suffix) == Title(w)
  {
    assert Lower(Title(w) + suffix) == w + " commands" by {
      LowerTitled(w, suffix);
    }
    CommandsRemovals(w);
    assert Strip(w + " ") == w by {
      StripWordSpaces(w, " ");
    }
  }

  /**
   * "Mixer commands" (in any letter case after the name): the comment names
   * the group Mixer and selects its commands.
   */
  lemma CommandsCommentText(w: string, suffix: string)
    requires LowerWord(w) && 'c' !in w && 'k' !in w && Lower(suffix) == " commands"
    ensures var text := Title(w) + suffix;
            && Contains(Lower(text), "command")
            && !Contains(Lower(text), "ack")
            && GroupName(text) == Title(w)
  {
    LowerTitled(w, suffix);
    NamesCommand(w);
    MissingCharNotContained(w + " commands", "ack", 'k');
    CommandsNameStages(w, suffix);
  }

  lemma RemoveLeadingAck()
    ensures RemoveAll("ack" + " commands", "ack") == " commands"
  {
    RemoveAllHead("ack", " commands");
    MissingCharNotContained(" commands", "ack", 'k');
    RemoveAllAbsent(" commands", "ack");
  }

  lemma RemoveAckWord(w: string)
    requires 'k' !in w
    ensures RemoveAll(w + " ack commands", "ack") == w + "  commands"
  {
    var a := w + " ";
    var b := "ack" + " commands";
    assert RemoveAll(a + b, "ack") == a + RemoveAll(b, "ack") by {
      assert forall i :: 0 <= i < 2 ==> b[i] != 'k';
      RemoveAllKeepsPrefix(a, b, "ack", 'k');
    }
    assert RemoveAll(b, "ack") == " commands" by {
      RemoveLeadingAck();
    }
    assert w + " ack commands" == a + b;
    assert a + " commands" == w + "  commands";
  }

  lemma AckNameStages(w: string, suffix: string)
    requires LowerWord(w) && 'c' !in w && 'k' !in w && Lower(suffix) == " ack commands"
    ensures GroupName(Title(w) + suffix) == Title(w)
  {
    assert Lower(Title(w) + suffix) == w + " ack commands" by {
      LowerTitled(w, suffix);
    }
    assert RemoveAll(w + " ack commands", "ack") == w + "  commands" by {
      RemoveAckWord(w);
    }
    assert RemoveAll(w + "  commands", "commands") == w + "  " by {
      assert w + "  commands" == (w + "  ") + "commands";
      RemoveCommandsSuffix(w + "  ");
    }
    assert RemoveAll(w + "  ", "command") == w + "  " by {
      MissingCharNotContained(w + "  ", "command", 'c');
      RemoveAllAbsent(w + "  ", "command");
    }
    assert Strip(w + "  ") == w by {
      StripWordSpaces(w, "  ");
    }
  }

  /**
   * "Mixer ack commands" (in any letter case after the name): the comment
   * names the group Mixer and selects its acks.
   */
  lemma AckCommentText(w: string, suffix: string)
    requires LowerWord(w) && 'c' !in w && 'k' !in w && Lower(suffix) == " ack commands"
    ensures var text := Title(w) + suffix;
            && Contains(Lower(text), "command")
            && Contains(Lower(text), "ack")
            && GroupName(text) == Title(w)
  {
    LowerTitled(w, suffix);
    assert w + " ack commands" == (w + " ack") + " commands";
    NamesCommand(w + " ack");
    assert w + " ack commands" == (w + " ") + "ack" + " commands";
    ContainsMiddle(w + " ", "ack", " commands");
    AckNameStages(w, suffix);
  }

  /** A comment whose text never mentions "command" selects nothing (the Motor Ack case). */
  lemma NoCommandText(text: string)
    requires 'd' !in Lower(text)
    ensures !Contains(Lower(text), "command")
  {
    MissingCharNotContained(Lower(text), "command", 'd');
  }

  // ---------------------------------------------------------------------
  // The parser as a function of the lines read so far.
  // ---------------------------------------------------------------------

  /** The loop's variables: `groups`, `current_group`, `current_type`, `blank_lines`. */
  datatype ParserState = ParserState(groups: Table, currentGroup: Option<string>, currentType: Option<Section>, blankLines: nat)

  const Start := ParserState([], None, None, 0)

  /** `not line.strip()`. */
  predicate IsBlank(line: string) {
    Strip(line) == []
  }

  /** What happens to the state when a non-blank line arrives, before the line is examined. */
  function Resume(st: ParserState): ParserState {
    if st.blankLines >= 2 then st.(currentGroup := None, currentType := None, blankLines := 0)
    else st.(blankLines := 0)
  }

  /** One iteration of the loop body. */
  function Step(st: ParserState, line: string): (r: ParserState)
    ensures r.blankLines == if IsBlank(line) then st.blankLines + 1 else 0
  {
    if IsBlank(line) then st.(blankLines := st.blankLines + 1)
    else
      ExamineCounts(Resume(st), line);
      Examine(Resume(st), line)
  }

  lemma ExamineCounts(st: ParserState, line: string)
    ensures Examine(st, line).blankLines == st.blankLines
    ensures |st.groups| <= |Examine(st, line).groups| <= |st.groups| + 1
  {
    match MatchComment(line)
    case Some(body) =>
    case None =>
  }

  /** A non-blank line, tried against the comment pattern first and the declaration pattern second. */
  function Examine(st: ParserState, line: string): ParserState {
    match MatchComment(line)
    case Some(body) => Comment(st, Strip(body))
    case None => Declare(st, MatchDefine(line))
  }

  /** A comment whose stripped text is `text`. */
  function Comment(st: ParserState, text: string): ParserState {
    if Contains(Lower(text), "command") then
      Select(st, GroupName(text), if Contains(Lower(text), "ack") then Acks else Commands)
    else st
  }

  /** The group `name` becomes current, created empty at the end of the table if it is new. */
  function Select(st: ParserState, name: string, section: Section): ParserState {
    st.(groups := if name in Names(st.groups) then st.groups else st.groups + [Group(name, [], [])],
        currentGroup := Some(name),
        currentType := Some(section))
  }

  /** The outcome of the declaration pattern: kept only while a group with a non-empty name is current. */
  function Declare(st: ParserState, m: Option<Entry>): ParserState {
    match m
    case Some(e) =>
      if st.currentGroup.Some? && st.currentGroup.value != "" && st.currentType.Some? then
        st.(groups := AppendEntry(st.groups, st.currentGroup.value, st.currentType.value, e))
      else st
    case None => st
  }

  lemma ExamineComment(st: ParserState, line: string, text: string)
    requires MatchComment(line).Some? && text == Strip(MatchComment(line).value)
    ensures Examine(st, line) == Comment(st, text)
  {
  }

  lemma ExamineDeclaration(st: ParserState, line: string)
    requires MatchComment(line).None?
    ensures Examine(st, line) == Declare(st, MatchDefine(line))
  {
  }

  /** The state after the loop has consumed `lines`, starting from `st`. */
  function Steps(st: ParserState, lines: seq<string>): ParserState
    decreases |lines|
  {
    if lines == [] then st else Steps(Step(st, lines[0]), lines[1..])
  }

  /** `parse_groups` on a file whose lines, as Python yields them, are `lines`. */
  function Parse(lines: seq<string>): (r: Table)
    ensures |r| <= |lines|
  {
    StepsGroupCount(Start, lines);
    Steps(Start, lines).groups
  }

  /** Each line adds at most one group. */
  lemma {:induction false} StepsGroupCount(st: ParserState, lines: seq<string>)
    ensures |Steps(st, lines).groups| <= |st.groups| + |lines|
    decreases |lines|
  {
    if lines != [] {
      StepsGroupCount(Step(st, lines[0]), lines[1..]);
      if !IsBlank(lines[0]) {
        ExamineCounts(Resume(st), lines[0]);
      }
    }
  }

  lemma {:induction false} StepsAppend(st: ParserState, a: seq<string>, b: seq<string>)
    ensures Steps(st, a + b) == Steps(Steps(st, a), b)
    decreases |a|
  {
    if a != [] {
      assert (a + b)[1..] == a[1..] + b;
      StepsAppend(Step(st, a[0]), a[1..], b);
    } else {
      assert a + b == b;
    }
  }

  lemma StepsSnoc(st: ParserState, a: seq<string>, line: string)
    ensures Steps(st, a + [line]) == Step(Steps(st, a), line)
  {
    StepsAppend(st, a, [line]);
  }

  lemma StepsSnocTwo(st: ParserState, a: seq<string>, x: string, y: string)
    ensures Steps(st, a + [x, y]) == Step(Step(Steps(st, a), x), y)
  {
    SnocTwice(a, x, y);
    StepsSnoc(st, a + [x], y);
    StepsSnoc(st, a, x);
  }

  /** The imperative parser, proved to compute `Parse`. */
  method ParseGroups(lines: seq<string>) returns (groups: Table)
    ensures groups == Parse(lines)
  {
    groups := [];
    var currentGroup: Option<string> := None;
    var currentType: Option<Section> := None;
    var blankLines: nat := 0;
    for n := 0 to |lines|
      invariant ParserState(groups, currentGroup, currentType, blankLines) == Steps(Start, lines[..n])
    {
      var line := lines[n];
      ghost var before := ParserState(groups, currentGroup, currentType, blankLines);
      TakeOneMore(lines, n);
      StepsSnoc(Start, lines[..n], line);
      var stripped := Strip(line);
      if stripped == [] {
        blankLines := blankLines + 1;
        StepBlank(before, line);
        continue;
      } else {
        if blankLines >= 2 {
          currentGroup := None;
          currentType := None;
        }
        blankLines := 0;
      }
      assert ParserState(groups, currentGroup, currentType, blankLines) == Resume(before);
      StepNonBlank(before, line);
      groups, currentGroup, currentType := ExamineLine(groups, currentGroup, currentType, blankLines, line);
    }
    TakeAll(lines);
  }

  /** The rest of the loop body on a non-blank line: the two patterns and what they change. */
  method ExamineLine(groups0: Table, currentGroup0: Option<string>, currentType0: Option<Section>, blankLines: nat, line: string)
    returns (groups: Table, currentGroup: Option<string>, currentType: Option<Section>)
    ensures ParserState(groups, currentGroup, currentType, blankLines)
         == Examine(ParserState(groups0, currentGroup0, currentType0, blankLines), line)
  {
    ghost var st := ParserState(groups0, currentGroup0, currentType0, blankLines);
    groups, currentGroup, currentType := groups0, currentGroup0, currentType0;
    var commentMatch := MatchComment(line);
    var defineMatch := MatchDefine(line);
    if commentMatch.Some? {
      var text := Strip(commentMatch.value);
      if Contains(Lower(text), "command") {
        var baseName := GroupName(text);
        if baseName !in Names(groups) {
          groups := groups + [Group(baseName, [], [])];
        }
        currentGroup := Some(baseName);
        currentType := Some(if Contains(Lower(text), "ack") then Acks else Commands);
      }
      ExamineComment(st, line, text);
    } else {
      if defineMatch.Some? && currentGroup.Some? && currentGroup.value != "" && currentType.Some? {
        groups := AppendEntry(groups, currentGroup.value, currentType.value, defineMatch.value);
      }
      ExamineDeclaration(st, line);
    }
  }

  // ---------------------------------------------------------------------
  // What the two patterns accept.
  // ---------------------------------------------------------------------

  /** Group 1 of the comment pattern is the text after the `//` and its whitespace, up to the newline. */
  lemma CommentLineMatches(spaces: string, body: string, eol: string)
    requires AllSpace(spaces)
    requires body != [] && !IsSpace(body[0]) && '\n' !in body
    requires eol == [] || eol[0] == '\n'
    ensures MatchComment("//" + (spaces + (body + eol))) == Some(body)
  {
    var tail := body + eol;
    var rest := spaces + tail;
    var line := "//" + rest;
    assert line[..2] == "//";
    assert line[2..] == rest;
    SpanConcat(spaces, tail, IsSpace);
    assert rest[|spaces|..] == tail;
    SpanConcat(body, eol, NotNewline);
    assert tail[..|body|] == body;
  }

  lemma MatchDefineKeyword(a: string)
    ensures MatchDefine("#define" + a) == DefineAfterKeyword(a)
  {
    assert ("#define" + a)[..7] == "#define";
    assert ("#define" + a)[7..] == a;
  }

  lemma DefineAfterKeywordSpaces(sp: string, b: string)
    requires sp != [] && AllSpace(sp) && (b == [] || !IsSpace(b[0]))
    ensures DefineAfterKeyword(sp + b) == DefineName(b)
  {
    SpanConcat(sp, b, IsSpace);
    assert (sp + b)[|sp|..] == b;
  }

  lemma DefineNameWord(name: string, c: string)
    requires name != [] && forall i :: 0 <= i < |name| ==> IsWordChar(name[i])
    requires c == [] || !IsWordChar(c[0])
    ensures DefineName(name + c) == DefineValue(name, c)
  {
    SpanConcat(name, c, IsWordChar);
    assert (name + c)[..|name|] == name;
    assert (name + c)[|name|..] == c;
  }

  lemma DefineValueSpaces(name: string, sp: string, d: string)
    requires sp != [] && AllSpace(sp) && (d == [] || !IsSpace(d[0]))
    ensures DefineValue(name, sp + d) == HexLiteral(name, d)
  {
    SpanConcat(sp, d, IsSpace);
    assert (sp + d)[|sp|..] == d;
  }

  lemma HexLiteralDigits(name: string, digits: string, tail: string)
    requires digits != [] && forall i :: 0 <= i < |digits| ==> IsHexDigit(digits[i])
    requires tail == [] || !IsHexDigit(tail[0])
    ensures HexLiteral(name, "0x" + (digits + tail)) == Some(Entry(name, HexValue(digits)))
  {
    var d := "0x" + (digits + tail);
    assert d[..2] == "0x";
    assert d[2..] == digits + tail;
    SpanConcat(digits, tail, IsHexDigit);
    assert (digits + tail)[..|digits|] == digits;
  }

  /** The value part `\s+0x([0-9A-Fa-f]+)` of a declaration. */
  lemma DefineValueMatches(name: string, sp2: string, digits: string, tail: string)
    requires sp2 != [] && AllSpace(sp2)
    requires digits != [] && forall i :: 0 <= i < |digits| ==> IsHexDigit(digits[i])
    requires tail == [] || !IsHexDigit(tail[0])
    ensures DefineValue(name, sp2 + ("0x" + (digits + tail))) == Some(Entry(name, HexValue(digits)))
  {
    var d := "0x" + (digits + tail);
    assert d[0] == '0';
    DefineValueSpaces(name, sp2, d);
    HexLiteralDigits(name, digits, tail);
  }

  /** The name and value parts `(\w+)\s+0x([0-9A-Fa-f]+)` of a declaration. */
  lemma DefineNameMatches(name: string, sp2: string, digits: string, tail: string)
    requires sp2 != [] && AllSpace(sp2)
    requires name != [] && forall i :: 0 <= i < |name| ==> IsWordChar(name[i])
    requires digits != [] && forall i :: 0 <= i < |digits| ==> IsHexDigit(digits[i])
    requires tail == [] || !IsHexDigit(tail[0])
    ensures DefineName(name + (sp2 + ("0x" + (digits + tail)))) == Some(Entry(name, HexValue(digits)))
  {
    var c := sp2 + ("0x" + (digits + tail));
    assert c[0] == sp2[0] && IsSpace(sp2[0]);
    DefineNameWord(name, c);
    DefineValueMatches(name, sp2, digits, tail);
  }

  /** What follows the keyword in a declaration `#define NAME 0xDIGITS`. */
  lemma DefineRestMatches(sp1: string, name: string, sp2: string, digits: string, tail: string)
    requires sp1 != [] && AllSpace(sp1) && sp2 != [] && AllSpace(sp2)
    requires name != [] && forall i :: 0 <= i < |name| ==> IsWordChar(name[i])
    requires digits != [] && forall i :: 0 <= i < |digits| ==> IsHexDigit(digits[i])
    requires tail == [] || !IsHexDigit(tail[0])
    ensures DefineAfterKeyword(sp1 + (name + (sp2 + ("0x" + (digits + tail))))) == Some(Entry(name, HexValue(digits)))
  {
    var b := name + (sp2 + ("0x" + (digits + tail)));
    assert b[0] == name[0] && IsWordChar(name[0]);
    DefineAfterKeywordSpaces(sp1, b);
    DefineNameMatches(name, sp2, digits, tail);
  }

  /** A declaration `#define NAME 0xDIGITS` yields NAME and the value of the longest run of hex digits after `0x`. */
  lemma DefineLineMatches(sp1: string, name: string, sp2: string, digits: string, tail: string)
    requires sp1 != [] && AllSpace(sp1) && sp2 != [] && AllSpace(sp2)
    requires name != [] && forall i :: 0 <= i < |name| ==> IsWordChar(name[i])
    requires digits != [] && forall i :: 0 <= i < |digits| ==> IsHexDigit(digits[i])
    requires tail == [] || !IsHexDigit(tail[0])
    ensures MatchDefine("#define" + (sp1 + (name + (sp2 + ("0x" + (digits + tail)))))) == Some(Entry(name, HexValue(digits)))
  {
    DefineRestMatches(sp1, name, sp2, digits, tail);
    MatchDefineKeyword(sp1 + (name + (sp2 + ("0x" + (digits + tail)))));
  }

  /** A `#define` with a name and nothing after it (an include guard) declares nothing. */
  lemma DefineWithoutValue(sp1: string, name: string, trailing: string)
    requires sp1 != [] && AllSpace(sp1)
    requires name != [] && forall i :: 0 <= i < |name| ==> IsWordChar(name[i])
    requires AllSpace(trailing)
    ensures MatchDefine("#define" + (sp1 + (name + trailing))) == None
  {
    MatchDefineKeyword(sp1 + (name + trailing));
    DefineAfterKeywordSpaces(sp1, name + trailing);
    DefineNameWord(name, trailing);
    SpanConcat(trailing, [], IsSpace);
    assert trailing + [] == trailing;
  }

  /** A non-empty run of whitespace (`\s+`). */
  predicate IsGap(sp: string) {
    sp != [] && AllSpace(sp)
  }

  /** A non-empty run of word characters (`\w+`). */
  predicate IsWord(name: string) {
    name != [] && forall i :: 0 <= i < |name| ==> IsWordChar(name[i])
  }

  /** The longest non-empty run of hex digits at the start of `digits + tail`. */
  predicate IsHexRun(digits: string, tail: string) {
    && digits != [] && (forall i :: 0 <= i < |digits| ==> IsHexDigit(digits[i]))
    && (tail == [] || !IsHexDigit(tail[0]))
  }

  lemma HexLiteralShape(name: string, d: string) returns (digits: string, tail: string)
    requires HexLiteral(name, d).Some?
    ensures d == "0x" + (digits + tail) && IsHexRun(digits, tail)
    ensures HexLiteral(name, d) == Some(Entry(name, HexValue(digits)))
  {
    var e := d[2..];
    assert d == "0x" + e;
    var n := Span(e, IsHexDigit);
    digits := e[..n];
    tail := e[n..];
    assert e == digits + tail;
  }

  lemma DefineValueShape(name: string, c: string) returns (sp2: string, digits: string, tail: string)
    requires DefineValue(name, c).Some?
    ensures c == sp2 + ("0x" + (digits + tail)) && IsGap(sp2) && IsHexRun(digits, tail)
    ensures DefineValue(name, c) == Some(Entry(name, HexValue(digits)))
  {
    var n := SpaceRun(c);
    sp2 := c[..n];
    var d := c[n..];
    assert c == sp2 + d;
    digits, tail := HexLiteralShape(name, d);
  }

  lemma DefineNameShape(b: string) returns (name: string, sp2: string, digits: string, tail: string)
    requires DefineName(b).Some?
    ensures b == name + (sp2 + ("0x" + (digits + tail)))
    ensures IsWord(name) && IsGap(sp2) && IsHexRun(digits, tail)
    ensures DefineName(b) == Some(Entry(name, HexValue(digits)))
  {
    var n := Span(b, IsWordChar);
    name := b[..n];
    var c := b[n..];
    assert b == name + c;
    sp2, digits, tail := DefineValueShape(name, c);
  }

  lemma DefineAfterKeywordShape(a: string) returns (sp1: string, name: string, sp2: string, digits: string, tail: string)
    requires DefineAfterKeyword(a).Some?
    ensures a == sp1 + (name + (sp2 + ("0x" + (digits + tail))))
    ensures IsGap(sp1) && IsWord(name) && IsGap(sp2) && IsHexRun(digits, tail)
    ensures DefineAfterKeyword(a) == Some(Entry(name, HexValue(digits)))
  {
    var n := SpaceRun(a);
    sp1 := a[..n];
    var b := a[n..];
    assert DefineAfterKeyword(a) == DefineName(b);
    name, sp2, digits, tail := DefineNameShape(b);
    assert IsGap(sp1) by {
      assert forall i :: 0 <= i < n ==> sp1[i] == a[i];
    }
    SplitAt(a, n);
  }

  /**
   * The converse of `DefineLineMatches`: a line the declaration pattern
   * accepts is `#define`, whitespace, a word, whitespace, `0x`, hex digits and
   * a tail not starting with a hex digit, and the entry is the word with the
   * value of the digits.
   */
  lemma MatchDefineShape(line: string) returns (sp1: string, name: string, sp2: string, digits: string, tail: string)
    requires MatchDefine(line).Some?
    ensures line == "#define" + (sp1 + (name + (sp2 + ("0x" + (digits + tail)))))
    ensures IsGap(sp1) && IsWord(name) && IsGap(sp2) && IsHexRun(digits, tail)
    ensures MatchDefine(line) == Some(Entry(name, HexValue(digits)))
  {
    var a := line[7..];
    assert line == "#define" + a;
    sp1, name, sp2, digits, tail := DefineAfterKeywordShape(a);
  }

  /** Both patterns are anchored at the start of the raw line, so indentation defeats them. */
  /** Group 1 of the comment pattern on whitespace is whitespace. */
  lemma {:induction false} SpaceCommentBody(rest: string, k: nat)
    requires k <= |rest| && AllSpace(rest)
    ensures CommentBody(rest, k).Some? ==> AllSpace(CommentBody(rest, k).value)
    decreases k
  {
    if k < |rest| && NotNewline(rest[k]) {
      var tail := rest[k..];
      var n := Span(tail, NotNewline);
      assert forall i :: 0 <= i < n ==> tail[..n][i] == rest[k + i];
    } else if k > 0 {
      SpaceCommentBody(rest, k - 1);
    }
  }

  /** A line of `//` and whitespace only matches the comment pattern at most with a blank text, so it changes nothing. */
  lemma BlankCommentLine(st: ParserState, spaces: string)
    requires AllSpace(spaces)
    ensures Examine(st, "//" + spaces) == st
  {
    var line := "//" + spaces;
    assert line[..2] == "//";
    assert line[2..] == spaces;
    match MatchComment(line)
    case Some(body) =>
      SpaceCommentBody(spaces, SpaceRun(spaces));
      StripEmptyIffBlank(body);
      assert !Contains(Lower(Strip(body)), "command");
    case None =>
      NotStartsWithAt(line, "#define", 0);
  }

  lemma IndentedLineMatchesNothing(line: string)
    requires line != [] && IsSpace(line[0])
    ensures MatchComment(line) == None && MatchDefine(line) == None
  {
    NotStartsWithAt(line, "//", 0);
    NotStartsWithAt(line, "#define", 0);
  }

  /** The text of a comment line, once matched, comes back from `strip` unchanged. */
  lemma CommentLineText(text: string)
    requires text != [] && !IsSpace(text[0]) && !IsSpace(text[|text| - 1]) && '\n' !in text
    ensures MatchComment("//" + (" " + (text + "\n"))) == Some(text)
    ensures Strip(text) == text
  {
    CommentLineMatches(" ", text, "\n");
    assert text == [] + text + [];
    StripSurrounded([], text, []);
  }

  /** Lower-casing keeps spaces, newlines and letters apart. */
  lemma LowerShape(s: string, ls: string)
    requires Lower(s) == ls
    ensures |s| == |ls|
    ensures forall i :: 0 <= i < |s| ==> (IsSpace(s[i]) <==> IsSpace(ls[i])) && (s[i] == '\n' <==> ls[i] == '\n')
  {
  }

  lemma TitledTextShape(w: string, suffix: string, lsuffix: string)
    requires LowerWord(w) && Lower(suffix) == lsuffix
    requires lsuffix != [] && !IsSpace(lsuffix[|lsuffix| - 1]) && '\n' !in lsuffix
    ensures var text := Title(w) + suffix;
            text != [] && !IsSpace(text[0]) && !IsSpace(text[|text| - 1]) && '\n' !in text
  {
    TitleLowerWord(w);
    LowerShape(suffix, lsuffix);
    var text := Title(w) + suffix;
    assert text[0] == UpperChar(w[0]);
    assert text[|text| - 1] == suffix[|suffix| - 1];
    forall i | 0 <= i < |text| ensures text[i] != '\n' {
      if i >= |w| {
        assert text[i] == suffix[i - |w|];
        assert lsuffix[i - |w|] in lsuffix;
      }
    }
  }

  /** The line `// Mixer commands` selects the commands of group Mixer. */
  lemma CommandsCommentLine(w: string, suffix: string)
    requires LowerWord(w) && 'c' !in w && 'k' !in w && Lower(suffix) == " commands"
    ensures var line := "//" + (" " + ((Title(w) + suffix) + "\n"));
            OpensGroup(line) && CommentName(line) == Title(w) && CommentSection(line) == Commands
  {
    TitledTextShape(w, suffix, " commands");
    CommentLineText(Title(w) + suffix);
    CommandsCommentText(w, suffix);
  }

  /** The line `// Mixer ack commands` selects the acks of group Mixer. */
  lemma AckCommentLine(w: string, suffix: string)
    requires LowerWord(w) && 'c' !in w && 'k' !in w && Lower(suffix) == " ack commands"
    ensures var line := "//" + (" " + ((Title(w) + suffix) + "\n"));
            OpensGroup(line) && CommentName(line) == Title(w) && CommentSection(line) == Acks
  {
    TitledTextShape(w, suffix, " ack commands");
    CommentLineText(Title(w) + suffix);
    AckCommentText(w, suffix);
  }

  /** A comment line without "command" in its text is a comment that opens no group. */
  lemma OtherCommentLine(text: string)
    requires text != [] && !IsSpace(text[0]) && !IsSpace(text[|text| - 1]) && '\n' !in text
    requires 'd' !in Lower(text)
    ensures var line := "//" + (" " + (text + "\n"));
            MatchComment(line).Some? && !OpensGroup(line)
  {
    CommentLineText(text);
    NoCommandText(text);
  }

  // ---------------------------------------------------------------------
  // One line at a time.
  // ---------------------------------------------------------------------

  lemma NotBlankAt(line: string, k: nat)
    requires k < |line| && !IsSpace(line[k])
    ensures !IsBlank(line)
  {
    StripEmptyIffBlank(line);
  }

  lemma PatternLineNotBlank(line: string)
    requires StartsWith(line, "//") || StartsWith(line, "#define")
    ensures !IsBlank(line)
  {
    if StartsWith(line, "//") {
      assert line[..2][0] == line[0];
    } else {
      assert line[..7][0] == line[0];
    }
    NotBlankAt(line, 0);
  }

  lemma StepOpensGroup(st: ParserState, line: string)
    requires OpensGroup(line)
    ensures Step(st, line) == Select(Resume(st), CommentName(line), CommentSection(line))
  {
    PatternLineNotBlank(line);
  }

  lemma StepOtherComment(st: ParserState, line: string)
    requires MatchComment(line).Some? && !OpensGroup(line)
    ensures Step(st, line) == Resume(st)
  {
    PatternLineNotBlank(line);
  }

  lemma StepDefine(st: ParserState, line: string, e: Entry)
    requires MatchDefine(line) == Some(e)
    ensures Step(st, line) == Declare(Resume(st), Some(e))
  {
    PatternLineNotBlank(line);
    assert line[..7][0] == line[0];
    NotStartsWithAt(line, "//", 0);
  }

  lemma NamesSnoc(t: Table, g: Group)
    ensures Names(t + [g]) == Names(t) + [g.name]
  {
  }

  lemma SelectFacts(st: ParserState, name: string, s: Section)
    ensures var st' := Select(st, name, s);
            && st'.currentGroup == Some(name) && st'.currentType == Some(s)
            && st'.blankLines == st.blankLines
            && name in Names(st'.groups)
            && (name in Names(st.groups) ==> st'.groups == st.groups)
            && (name !in Names(st.groups) ==> st'.groups == st.groups + [Group(name, [], [])])
  {
    NamesSnoc(st.groups, Group(name, [], []));
  }

  /**
   * A comment containing "command" selects its group and makes it current,
   * creating it empty at the end of the table if the name is new; the acks
   * list is selected exactly when the comment's text contains "ack".
   */
  lemma GroupCommentStep(st: ParserState, line: string)
    requires OpensGroup(line)
    ensures var st' := Step(st, line);
            var name := CommentName(line);
            && st'.currentGroup == Some(name)
            && (st'.currentType == Some(Acks) <==> Contains(Lower(CommentText(line)), "ack"))
            && st'.currentType.Some?
            && name in Names(st'.groups)
            && (name in Names(st.groups) ==> st'.groups == st.groups)
            && (name !in Names(st.groups) ==> st'.groups == st.groups + [Group(name, [], [])])
            && st'.blankLines == 0
  {
    StepOpensGroup(st, line);
    SelectFacts(Resume(st), CommentName(line), CommentSection(line));
  }

  /** A comment without "command" leaves the group, the section and the table as they were (after the blank-line reset). */
  lemma OtherCommentStep(st: ParserState, line: string)
    requires MatchComment(line).Some? && !OpensGroup(line)
    ensures Step(st, line).groups == st.groups
    ensures st.blankLines < 2 ==> Step(st, line).currentGroup == st.currentGroup && Step(st, line).currentType == st.currentType
    ensures st.blankLines >= 2 ==> Step(st, line).currentGroup.None? && Step(st, line).currentType.None?
  {
    StepOtherComment(st, line);
  }

  /** The loop's invariant: keys are unique, group and section are set together, and the current group is a key. */
  ghost predicate Inv(st: ParserState) {
    && UniqueNames(st.groups)
    && (st.currentGroup.Some? <==> st.currentType.Some?)
    && (st.currentGroup.Some? ==> st.currentGroup.value in Names(st.groups))
  }

  /**
   * A declaration goes at the end of the current section of the current group;
   * it is dropped when no group is current or the current group's name is empty.
   */
  lemma DefineStep(st: ParserState, line: string, e: Entry)
    requires Inv(st)
    requires MatchDefine(line) == Some(e)
    ensures var r := Resume(st);
            var st' := Step(st, line);
            && st'.currentGroup == r.currentGroup && st'.currentType == r.currentType
            && (r.currentGroup.Some? && r.currentGroup.value != "" ==>
                  st'.groups == AppendEntry(st.groups, r.currentGroup.value, r.currentType.value, e))
            && (r.currentGroup.None? || r.currentGroup.value == "" ==> st'.groups == st.groups)
  {
    StepDefine(st, line, e);
  }

  lemma SelectKeepsInv(st: ParserState, name: string, s: Section)
    requires Inv(st)
    ensures Inv(Select(st, name, s))
  {
    SelectFacts(st, name, s);
    if name !in Names(st.groups) {
      var t := st.groups + [Group(name, [], [])];
      forall i, j | 0 <= i < j < |t| ensures t[i].name != t[j].name {
        if j == |st.groups| {
          assert Names(st.groups)[i] == t[i].name;
        }
      }
    }
  }

  lemma DeclareKeepsInv(st: ParserState, m: Option<Entry>)
    requires Inv(st)
    ensures Inv(Declare(st, m))
  {
    if m.Some? && st.currentGroup.Some? && st.currentGroup.value != "" && st.currentType.Some? {
      var u := AppendEntry(st.groups, st.currentGroup.value, st.currentType.value, m.value);
      assert forall i :: 0 <= i < |u| ==> u[i].name == Names(u)[i] == Names(st.groups)[i];
    }
  }

  lemma StepKeepsInv(st: ParserState, line: string)
    requires Inv(st)
    ensures Inv(Step(st, line))
  {
    if !IsBlank(line) {
      var r := Resume(st);
      match MatchComment(line) {
        case Some(body) =>
          var text := Strip(body);
          if Contains(Lower(text), "command") {
            SelectKeepsInv(r, GroupName(text), if Contains(Lower(text), "ack") then Acks else Commands);
          }
        case None =>
          DeclareKeepsInv(r, MatchDefine(line));
      }
    }
  }

  lemma {:induction false} StepsKeepInv(st: ParserState, lines: seq<string>)
    requires Inv(st)
    ensures Inv(Steps(st, lines))
    decreases |lines|
  {
    if lines != [] {
      StepKeepsInv(st, lines[0]);
      StepsKeepInv(Step(st, lines[0]), lines[1..]);
    }
  }

  /** A recurring group name reuses its entry: the parsed table never holds two groups of the same name. */
  lemma ParseHasUniqueNames(lines: seq<string>)
    ensures UniqueNames(Parse(lines))
  {
    StepsKeepInv(Start, lines);
  }

  // ---------------------------------------------------------------------
  // Blank lines.
  // ---------------------------------------------------------------------

  lemma {:induction false} BlankLinesOnlyCount(st: ParserState, blanks: seq<string>)
    requires forall i :: 0 <= i < |blanks| ==> IsBlank(blanks[i])
    ensures Steps(st, blanks) == st.(blankLines := st.blankLines + |blanks|)
    decreases |blanks|
  {
    if blanks != [] {
      BlankLinesOnlyCount(Step(st, blanks[0]), blanks[1..]);
    }
  }

  lemma NonBlankLineClearsCount(st: ParserState, line: string)
    requires !IsBlank(line)
    ensures Step(st, line).blankLines == 0
  {
  }

  lemma CountAfterNonBlank(pre: seq<string>)
    requires pre == [] || !IsBlank(pre[|pre| - 1])
    ensures Steps(Start, pre).blankLines == 0
  {
    if pre != [] {
      InitLast(pre);
      StepsSnoc(Start, pre[..|pre| - 1], pre[|pre| - 1]);
      NonBlankLineClearsCount(Steps(Start, pre[..|pre| - 1]), pre[|pre| - 1]);
    }
  }

  lemma StepBlank(st: ParserState, line: string)
    requires IsBlank(line)
    ensures Step(st, line) == st.(blankLines := st.blankLines + 1)
  {
  }

  lemma StepNonBlank(st: ParserState, line: string)
    requires !IsBlank(line)
    ensures Step(st, line) == Examine(Resume(st), line)
  {
  }

  /** A single blank line between two non-blank lines changes nothing. */
  lemma SingleBlankLineIgnored(pre: seq<string>, blank: string, line: string)
    requires pre == [] || !IsBlank(pre[|pre| - 1])
    requires IsBlank(blank) && !IsBlank(line)
    ensures Steps(Start, pre + [blank, line]) == Steps(Start, pre + [line])
  {
    var st := Steps(Start, pre);
    CountAfterNonBlank(pre);
    StepsSnocTwo(Start, pre, blank, line);
    StepsSnoc(Start, pre, line);
    OneBlankResumes(st, blank, line);
  }

  /** After no blank line, one blank line changes nothing the next non-blank line sees. */
  lemma OneBlankResumes(st: ParserState, blank: string, line: string)
    requires st.blankLines == 0 && !IsBlank(line)
    ensures Step(st.(blankLines := 1), line) == Step(st, line)
  {
    StepNonBlank(st.(blankLines := 1), line);
    StepNonBlank(st, line);
    assert Resume(st.(blankLines := 1)) == Resume(st);
  }

  /** After two or more blank lines, the next non-blank line is processed with no current group and no current section. */
  lemma BlankRunResets(pre: seq<string>, blanks: seq<string>, line: string)
    requires |blanks| >= 2 && forall i :: 0 <= i < |blanks| ==> IsBlank(blanks[i])
    requires !IsBlank(line)
    ensures var st := Steps(Start, pre);
            Steps(Start, pre + blanks + [line]) == Step(st.(currentGroup := None, currentType := None, blankLines := 0), line)
  {
    StepsAppend(Start, pre, blanks);
    StepsSnoc(Start, pre + blanks, line);
    BlankLinesOnlyCount(Steps(Start, pre), blanks);
  }

  // ---------------------------------------------------------------------
  // Where groups and entries come from.
  // ---------------------------------------------------------------------

  lemma StepNeither(st: ParserState, line: string)
    requires !IsBlank(line) && MatchComment(line).None? && MatchDefine(line).None?
    ensures Step(st, line) == Resume(st)
  {
    StepNonBlank(st, line);
  }

  /**
   * The three ways one line can change the table: a group comment may add an
   * empty group at the end, a declaration may extend the current group, and
   * nothing else touches it.
   */
  lemma StepTable(st: ParserState, line: string)
    ensures var t := Step(st, line).groups;
            var r := Resume(st);
            && (OpensGroup(line) ==> t == st.groups || t == st.groups + [Group(CommentName(line), [], [])])
            && (!OpensGroup(line) && t != st.groups ==>
                  MatchDefine(line).Some? && r.currentGroup.Some? && r.currentType.Some?
                  && t == AppendEntry(st.groups, r.currentGroup.value, r.currentType.value, MatchDefine(line).value))
  {
    if IsBlank(line) {
      StepBlank(st, line);
    } else if OpensGroup(line) {
      StepOpensGroup(st, line);
      SelectFacts(Resume(st), CommentName(line), CommentSection(line));
    } else if MatchComment(line).Some? {
      StepOtherComment(st, line);
    } else if MatchDefine(line).Some? {
      StepDefine(st, line, MatchDefine(line).value);
    } else {
      StepNeither(st, line);
    }
  }

  lemma StepNames(st: ParserState, line: string, name: string)
    ensures name in Names(Step(st, line).groups) <==>
            name in Names(st.groups) || (OpensGroup(line) && name == CommentName(line))
  {
    var t := Step(st, line).groups;
    StepTable(st, line);
    if OpensGroup(line) {
      NamesSnoc(st.groups, Group(CommentName(line), [], []));
      GroupNamed(st, line);
    } else if t != st.groups {
      var r := Resume(st);
      assert Names(t) == Names(AppendEntry(st.groups, r.currentGroup.value, r.currentType.value, MatchDefine(line).value));
    }
  }

  lemma GroupNamed(st: ParserState, line: string)
    requires OpensGroup(line)
    ensures CommentName(line) in Names(Step(st, line).groups)
  {
    GroupCommentStep(st, line);
  }

  /** Some line of `lines` is a comment that selects the group `name`. */
  ghost predicate Announced(lines: seq<string>, name: string) {
    exists i :: 0 <= i < |lines| && OpensGroup(lines[i]) && CommentName(lines[i]) == name
  }

  lemma AnnouncedSnoc(init: seq<string>, last: string, name: string)
    ensures Announced(init + [last], name) <==> Announced(init, name) || (OpensGroup(last) && CommentName(last) == name)
  {
    ExistsSnoc(init, last, l => OpensGroup(l) && CommentName(l) == name);
  }

  /** A group exists exactly when a comment containing "command" named it. */
  lemma {:induction false} GroupsAreAnnounced(lines: seq<string>, name: string)
    ensures name in Names(Parse(lines)) <==> Announced(lines, name)
    decreases |lines|
  {
    if lines != [] {
      var init := lines[..|lines| - 1];
      var last := lines[|lines| - 1];
      InitLast(lines);
      StepsSnoc(Start, init, last);
      GroupsAreAnnounced(init, name);
      StepNames(Steps(Start, init), last, name);
      AnnouncedSnoc(init, last, name);
    }
  }

  lemma {:induction false} QuietLinesKeepTable(st: ParserState, lines: seq<string>)
    requires forall i :: 0 <= i < |lines| ==> !OpensGroup(lines[i])
    requires st.currentGroup.None? || st.blankLines >= 2
    ensures Steps(st, lines).groups == st.groups
    ensures var st' := Steps(st, lines); st'.currentGroup.None? || st'.blankLines >= 2
    decreases |lines|
  {
    if lines != [] {
      var line := lines[0];
      assert !OpensGroup(line);
      if IsBlank(line) {
        StepBlank(st, line);
      } else if MatchComment(line).Some? {
        StepOtherComment(st, line);
      } else if MatchDefine(line).Some? {
        StepDefine(st, line, MatchDefine(line).value);
      } else {
        StepNeither(st, line);
      }
      QuietLinesKeepTable(Step(st, line), lines[1..]);
    }
  }

  /** A file in which no comment contains "command" yields an empty table: every declaration in it is dropped. */
  lemma NoHeaderNoGroups(lines: seq<string>)
    requires forall i :: 0 <= i < |lines| ==> !OpensGroup(lines[i])
    ensures Parse(lines) == []
  {
    QuietLinesKeepTable(Start, lines);
  }

  /**
   * After a run of two or more blank lines, declarations are dropped until a
   * comment containing "command" selects a group again.
   */
  lemma OrphansAfterResetDropped(pre: seq<string>, blanks: seq<string>, rest: seq<string>)
    requires |blanks| >= 2 && forall i :: 0 <= i < |blanks| ==> IsBlank(blanks[i])
    requires forall i :: 0 <= i < |rest| ==> !OpensGroup(rest[i])
    ensures Parse(pre + blanks + rest) == Parse(pre)
  {
    StepsAppend(Start, pre, blanks);
    StepsAppend(Start, pre + blanks, rest);
    BlankLinesOnlyCount(Steps(Start, pre), blanks);
    QuietLinesKeepTable(Steps(Start, pre + blanks), rest);
  }

  ghost predicate HasEntry(t: Table, e: Entry) {
    exists i :: 0 <= i < |t| && (e in t[i].commands || e in t[i].acks)
  }

  lemma AppendEntryEntries(t: Table, name: string, s: Section, e: Entry, x: Entry)
    requires HasEntry(AppendEntry(t, name, s, e), x)
    ensures HasEntry(t, x) || x == e
  {
    var u := AppendEntry(t, name, s, e);
    var i :| 0 <= i < |u| && (x in u[i].commands || x in u[i].acks);
    assert |u| == |Names(u)| == |Names(t)| == |t|;
    if x != e {
      assert x in t[i].commands || x in t[i].acks;
    }
  }

  lemma StepEntries(st: ParserState, line: string, e: Entry)
    requires HasEntry(Step(st, line).groups, e)
    ensures HasEntry(st.groups, e) || MatchDefine(line) == Some(e)
  {
    var t := Step(st, line).groups;
    StepTable(st, line);
    if t == st.groups {
    } else if OpensGroup(line) {
      var i :| 0 <= i < |t| && (e in t[i].commands || e in t[i].acks);
      assert i < |st.groups| && t[i] == st.groups[i];
    } else {
      var r := Resume(st);
      AppendEntryEntries(st.groups, r.currentGroup.value, r.currentType.value, MatchDefine(line).value, e);
    }
  }

  /** Some line of `lines` declares `e`. */
  ghost predicate Declared(lines: seq<string>, e: Entry) {
    exists i :: 0 <= i < |lines| && MatchDefine(lines[i]) == Some(e)
  }

  /** The parser invents nothing: every entry of the table is declared by some line of the file. */
  lemma {:induction false} EntriesAreDeclared(lines: seq<string>, e: Entry)
    requires HasEntry(Parse(lines), e)
    ensures Declared(lines, e)
    decreases |lines|
  {
    if lines != [] {
      var init := lines[..|lines| - 1];
      var last := lines[|lines| - 1];
      InitLast(lines);
      StepsSnoc(Start, init, last);
      StepEntries(Steps(Start, init), last, e);
      if HasEntry(Parse(init), e) {
        EntriesAreDeclared(init, e);
        var i :| 0 <= i < |init| && MatchDefine(init[i]) == Some(e);
        assert lines[i] == init[i];
      }
    }
  }

  // ---------------------------------------------------------------------
  // Order: the table only grows at its end, and each list only at its end.
  // ---------------------------------------------------------------------

  /** `u` keeps the groups of `t` in place, with the same names, each list extended at its end. */
  ghost predicate Extends(t: Table, u: Table) {
    && |t| <= |u|
    && forall i :: 0 <= i < |t| ==>
         u[i].name == t[i].name && t[i].commands <= u[i].commands && t[i].acks <= u[i].acks
  }

  lemma PrefixTransitive(a: seq<Entry>, b: seq<Entry>, c: seq<Entry>)
    requires a <= b && b <= c
    ensures a <= c
  {
    assert a == b[..|a|];
    assert b == c[..|b|];
    assert c[..|b|][..|a|] == c[..|a|];
  }

  lemma ExtendsTransitive(t: Table, u: Table, v: Table)
    requires Extends(t, u) && Extends(u, v)
    ensures Extends(t, v)
  {
    forall i | 0 <= i < |t|
      ensures t[i].commands <= v[i].commands && t[i].acks <= v[i].acks
    {
      PrefixTransitive(t[i].commands, u[i].commands, v[i].commands);
      PrefixTransitive(t[i].acks, u[i].acks, v[i].acks);
    }
  }

  lemma AppendEntryExtends(t: Table, name: string, s: Section, e: Entry)
    ensures Extends(t, AppendEntry(t, name, s, e))
  {
    var u := AppendEntry(t, name, s, e);
    forall i | 0 <= i < |t|
      ensures u[i].name == t[i].name && t[i].commands <= u[i].commands && t[i].acks <= u[i].acks
    {
      assert Names(u)[i] == Names(t)[i];
    }
  }

  lemma ExtendsItself(t: Table)
    ensures Extends(t, t)
  {
  }

  lemma ExtendsByGroup(t: Table, g: Group)
    ensures Extends(t, t + [g])
  {
    assert forall i :: 0 <= i < |t| ==> (t + [g])[i] == t[i];
  }

  lemma StepExtends(st: ParserState, line: string)
    ensures Extends(st.groups, Step(st, line).groups)
  {
    var t := Step(st, line).groups;
    StepTable(st, line);
    if t == st.groups {
      ExtendsItself(t);
    } else if OpensGroup(line) {
      ExtendsByGroup(st.groups, Group(CommentName(line), [], []));
    } else {
      var r := Resume(st);
      AppendEntryExtends(st.groups, r.currentGroup.value, r.currentType.value, MatchDefine(line).value);
    }
  }

  lemma {:induction false} StepsExtends(st: ParserState, lines: seq<string>)
    ensures Extends(st.groups, Steps(st, lines).groups)
    decreases |lines|
  {
    if lines != [] {
      StepExtends(st, lines[0]);
      StepsExtends(Step(st, lines[0]), lines[1..]);
      ExtendsTransitive(st.groups, Step(st, lines[0]).groups, Steps(st, lines).groups);
    }
  }

  /** Groups appear in first-seen order and each list keeps file order: reading more lines only extends what was parsed. */
  lemma ParseExtendsPrefix(lines: seq<string>, k: nat)
    requires k <= |lines|
    ensures Extends(Parse(lines[..k]), Parse(lines))
  {
    assert lines == lines[..k] + lines[k..];
    StepsAppend(Start, lines[..k], lines[k..]);
    StepsExtends(Steps(Start, lines[..k]), lines[k..]);
  }
}
