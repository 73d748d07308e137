/**
 * The example definitions file that ships with the command sender
 * (`My_device_commands.h`), parsed line by line as Python reads it: every
 * line but the last ends in a newline.
 *
 * The group comments are written `Title("mixer") + " commands"` and the
 * values as `HexValue("01")`; `ExampleSpelling` shows that these are the
 * comment "Mixer commands" and the value 1.
 */
module HeaderExample {
  import opened Common
  import opened PyText
  import opened CommandTable

  /** `// <text>` and its newline. */
  function CommentLine(text: string): string {
    "//" + (" " + (text + "\n"))
  }

  /** `#define <name><gap>0x<digits>` and its newline. */
  function DefineLine(name: string, gap: string, digits: string): string {
    "#define" + (" " + (name + (gap + ("0x" + (digits + "\n")))))
  }

  /** An include guard, `#define <name>`, and its newline. */
  function GuardLine(name: string): string {
    "#define" + (" " + (name + "\n"))
  }

  /** Lines 1-4: the opening block comment. */
  function Banner(): seq<string> {
    [ "/*\n",
      " * " + "Example correctly formatted C header file for command set.\n",
      " * " + "My_device_commands.h\n",
      " */\n" ]
  }

  /** Lines 5-8: the include guard between blank lines. */
  function Guard(): seq<string> {
    [ "\n",
      "#ifndef MY_DEVICE_COMMANDS_H_\n",
      GuardLine("MY_DEVICE_COMMANDS_H_"),
      "\n" ]
  }

  /** Lines 1-8. */
  function Preamble(): seq<string> {
    Banner() + Guard()
  }

  /** A declaration line's name, the spaces after it and its hex digits. */
  datatype Decl = Decl(name: string, gap: string, digits: string)

  predicate WellFormed(d: Decl) {
    && d.name != [] && (forall i :: 0 <= i < |d.name| ==> IsWordChar(d.name[i]))
    && d.gap != [] && AllSpace(d.gap)
    && d.digits != [] && (forall i :: 0 <= i < |d.digits| ==> IsHexDigit(d.digits[i]))
  }

  function DeclLine(d: Decl): string {
    DefineLine(d.name, d.gap, d.digits)
  }

  /** A declaration the pattern accepts in full. */
  type GoodDecl = d: Decl | WellFormed(d) witness Decl("A", " ", "0")

  function DeclEntry(d: GoodDecl): Entry {
    Entry(d.name, HexValue(d.digits))
  }

  /** One group as the example lays it out: two commands under `// W commands`, two acks under `// W ack commands`. */
  function GroupBlock(w: string, c1: GoodDecl, c2: GoodDecl, a1: GoodDecl, a2: GoodDecl): seq<string> {
    [ CommentLine(Title(w) + " commands"), DeclLine(c1), DeclLine(c2),
      CommentLine(Title(w) + " ack commands"), DeclLine(a1), DeclLine(a2) ]
  }

  /** Lines 9-14: the Mixer commands and acks. */
  function MixerBlock(): seq<string> {
    GroupBlock("mixer", MixerStart, MixerStop, MixerStarted, MixerStopped)
  }

  /** Lines 17-22: the Display commands and acks. */
  function DisplayBlock(): seq<string> {
    GroupBlock("display", DisplayInit, DisplayClear, DisplayReady, DisplayDone)
  }

  /** Lines 23-24: a blank line and the closing `#endif`, which has no newline. */
  function Trailer(): seq<string> {
    [ "\n", "#endif     // MY_DEVICE_COMMANDS_H_" ]
  }

  function ExampleHeader(): seq<string> {
    Preamble() + MixerBlock() + ["\n", "\n"] + DisplayBlock() + Trailer()
  }

  const MixerStart: GoodDecl := Decl("MIXER_START", " ", "01")
  const MixerStop: GoodDecl := Decl("MIXER_STOP", "  ", "02")
  const MixerStarted: GoodDecl := Decl("MIXER_STARTED", " ", "81")
  const MixerStopped: GoodDecl := Decl("MIXER_STOPPED", " ", "82")
  const DisplayInit: GoodDecl := Decl("DISPLAY_INIT", "  ", "10")
  const DisplayClear: GoodDecl := Decl("DISPLAY_CLEAR", " ", "11")
  const DisplayReady: GoodDecl := Decl("DISPLAY_READY", " ", "90")
  const DisplayDone: GoodDecl := Decl("DISPLAY_DONE", "  ", "91")

  lemma ExampleWords()
    ensures LowerWord("mixer") && 'c' !in "mixer" && 'k' !in "mixer"
    ensures LowerWord("display") && 'c' !in "display" && 'k' !in "display"
  {
  }

  lemma DistinctTitles()
    ensures Title("mixer") != Title("display")
  {
    TitleLowerWord("mixer");
    TitleLowerWord("display");
  }

  // ---------------------------------------------------------------------
  // One lemma per kind of line.
  // ---------------------------------------------------------------------

  lemma NewlineStep(st: ParserState)
    ensures Step(st, "\n") == st.(blankLines := st.blankLines + 1)
  {
    NewlineBlank("\n");
    StepBlank(st, "\n");
  }

  lemma NewlineBlank(line: string)
    requires line == "\n"
    ensures IsBlank(line)
  {
    StripEmptyIffBlank(line);
  }

  lemma PlainLineStep(st: ParserState, line: string, k: nat)
    requires k < |line| && !IsSpace(line[k])
    requires MatchComment(line).None? && MatchDefine(line).None?
    ensures Step(st, line) == Resume(st)
  {
    NotBlankAt(line, k);
    StepNeither(st, line);
  }

  lemma GuardLineStep(st: ParserState, name: string)
    requires name != [] && forall i :: 0 <= i < |name| ==> IsWordChar(name[i])
    ensures Step(st, GuardLine(name)) == Resume(st)
  {
    var line := GuardLine(name);
    DefineWithoutValue(" ", name, "\n");
    NotStartsWithAt(line, "//", 0);
    PlainLineStep(st, line, 0);
  }

  lemma SuffixesLower()
    ensures Lower(" commands") == " commands"
    ensures Lower(" ack commands") == " ack commands"
  {
    LowerIdentity(" commands");
    LowerIdentity(" ack commands");
  }

  lemma CommandsLineStep(st: ParserState, w: string, suffix: string)
    requires LowerWord(w) && 'c' !in w && 'k' !in w && Lower(suffix) == " commands"
    ensures Step(st, CommentLine(Title(w) + suffix)) == Select(Resume(st), Title(w), Commands)
  {
    CommandsCommentLine(w, suffix);
    StepOpensGroup(st, CommentLine(Title(w) + suffix));
  }

  lemma AckLineStep(st: ParserState, w: string, suffix: string)
    requires LowerWord(w) && 'c' !in w && 'k' !in w && Lower(suffix) == " ack commands"
    ensures Step(st, CommentLine(Title(w) + suffix)) == Select(Resume(st), Title(w), Acks)
  {
    AckCommentLine(w, suffix);
    StepOpensGroup(st, CommentLine(Title(w) + suffix));
  }

  lemma DefineLineStep(st: ParserState, name: string, gap: string, digits: string)
    requires name != [] && forall i :: 0 <= i < |name| ==> IsWordChar(name[i])
    requires gap != [] && AllSpace(gap)
    requires digits != [] && forall i :: 0 <= i < |digits| ==> IsHexDigit(digits[i])
    ensures Step(st, DefineLine(name, gap, digits)) == Declare(Resume(st), Some(Entry(name, HexValue(digits))))
  {
    DefineLineMatches(" ", name, gap, digits, "\n");
    StepDefine(st, DefineLine(name, gap, digits), Entry(name, HexValue(digits)));
  }

  lemma OpeningLineStep(st: ParserState)
    ensures Step(st, "/*\n") == Resume(st)
  {
    var line := "/*\n";
    NotStartsWithAt(line, "//", 1);
    NotStartsWithAt(line, "#define", 0);
    PlainLineStep(st, line, 0);
  }

  lemma CommentBodyLineStep(st: ParserState, text: string)
    ensures Step(st, " * " + text) == Resume(st)
  {
    var line := " * " + text;
    assert line[0] == ' ' && line[1] == '*';
    IndentedLineMatchesNothing(line);
    PlainLineStep(st, line, 1);
  }

  lemma ClosingLineStep(st: ParserState)
    ensures Step(st, " */\n") == Resume(st)
  {
    var line := " */\n";
    IndentedLineMatchesNothing(line);
    PlainLineStep(st, line, 1);
  }

  lemma IfndefLineStep(st: ParserState)
    ensures Step(st, "#ifndef MY_DEVICE_COMMANDS_H_\n") == Resume(st)
  {
    var line := "#ifndef MY_DEVICE_COMMANDS_H_\n";
    assert line[0] == '#' && line[1] == 'i';
    NotStartsWithAt(line, "//", 0);
    NotStartsWithAt(line, "#define", 1);
    PlainLineStep(st, line, 0);
  }

  lemma IncludeGuardStep(st: ParserState)
    ensures Step(st, GuardLine("MY_DEVICE_COMMANDS_H_")) == Resume(st)
  {
    var name := "MY_DEVICE_COMMANDS_H_";
    assert forall i :: 0 <= i < |name| ==> IsWordChar(name[i]);
    GuardLineStep(st, name);
  }

  lemma EndifLineStep(st: ParserState)
    ensures Step(st, "#endif     // MY_DEVICE_COMMANDS_H_") == Resume(st)
  {
    var line := "#endif     // MY_DEVICE_COMMANDS_H_";
    assert line[0] == '#' && line[1] == 'e';
    NotStartsWithAt(line, "//", 0);
    NotStartsWithAt(line, "#define", 1);
    PlainLineStep(st, line, 0);
  }

  // ---------------------------------------------------------------------
  // The file, block by block.
  // ---------------------------------------------------------------------

  lemma StepsCons(st: ParserState, lines: seq<string>)
    requires lines != []
    ensures Steps(st, lines) == Steps(Step(st, lines[0]), lines[1..])
  {
  }

  /** Four lines whose steps are known one by one. */
  lemma FourSteps(st: ParserState, l0: string, l1: string, l2: string, l3: string,
                  s1: ParserState, s2: ParserState, s3: ParserState, s4: ParserState)
    requires Step(st, l0) == s1 && Step(s1, l1) == s2 && Step(s2, l2) == s3 && Step(s3, l3) == s4
    ensures Steps(st, [l0, l1, l2, l3]) == s4
  {
    StepsCons(st, [l0, l1, l2, l3]);
    assert [l0, l1, l2, l3][1..] == [l1, l2, l3];
    ThreeSteps(s1, l1, l2, l3, s2, s3, s4);
  }

  /** The block comment only clears the blank-line count. */
  lemma BannerSteps(st: ParserState)
    requires st.blankLines < 2
    ensures Steps(st, Banner()) == st.(blankLines := 0)
  {
    var st0 := st.(blankLines := 0);
    OpeningLineStep(st);
    CommentBodyLineStep(st0, "Example correctly formatted C header file for command set.\n");
    CommentBodyLineStep(st0, "My_device_commands.h\n");
    ClosingLineStep(st0);
    FourSteps(st, "/*\n", " * " + "Example correctly formatted C header file for command set.\n",
              " * " + "My_device_commands.h\n", " */\n", st0, st0, st0, st0);
  }

  /** The include guard is not a declaration: only the blank lines around it count. */
  lemma GuardSteps(st: ParserState)
    requires st.blankLines == 0
    ensures Steps(st, Guard()) == st.(blankLines := 1)
  {
    var st1 := st.(blankLines := 1);
    NewlineStep(st);
    IfndefLineStep(st1);
    IncludeGuardStep(st);
    NewlineStep(st);
    FourSteps(st, "\n", "#ifndef MY_DEVICE_COMMANDS_H_\n", GuardLine("MY_DEVICE_COMMANDS_H_"), "\n",
              st1, st, st, st1);
  }

  /** The opening comment and the include guard change nothing but the blank-line count. */
  lemma PreambleSteps(st: ParserState)
    requires st.blankLines < 2
    ensures Steps(st, Preamble()) == st.(blankLines := 1)
  {
    StepsAppend(st, Banner(), Guard());
    BannerSteps(st);
    GuardSteps(st.(blankLines := 0));
  }

  lemma AppendToLast(t: Table, g: Group, s: Section, e: Entry)
    requires forall i :: 0 <= i < |t| ==> t[i].name != g.name
    ensures AppendEntry(t + [g], g.name, s, e) == t + [g.Add(s, e)]
  {
    var u := AppendEntry(t + [g], g.name, s, e);
    assert |u| == |Names(u)| == |Names(t + [g])| == |t| + 1;
    forall i | 0 <= i < |t| ensures u[i] == t[i] {
      assert (t + [g])[i] == t[i];
    }
    assert (t + [g])[|t|] == g;
  }

  lemma GroupWord(w: string)
    requires LowerWord(w)
    ensures |Title(w)| == |w| && Title(w) != ""
  {
    TitleLowerWord(w);
  }

  /** Two lines whose steps are known one by one. */
  lemma TwoSteps(st: ParserState, l0: string, l1: string, s1: ParserState, s2: ParserState)
    requires Step(st, l0) == s1 && Step(s1, l1) == s2
    ensures Steps(st, [l0, l1]) == s2
  {
    StepsCons(st, [l0, l1]);
    assert [l0, l1][1..] == [l1];
    StepsCons(s1, [l1]);
  }

  /** Three lines whose steps are known one by one. */
  lemma ThreeSteps(st: ParserState, l0: string, l1: string, l2: string, s1: ParserState, s2: ParserState, s3: ParserState)
    requires Step(st, l0) == s1 && Step(s1, l1) == s2 && Step(s2, l2) == s3
    ensures Steps(st, [l0, l1, l2]) == s3
  {
    StepsCons(st, [l0, l1, l2]);
    assert [l0, l1, l2][1..] == [l1, l2];
    StepsCons(s1, [l1, l2]);
    assert [l1, l2][1..] == [l2];
    StepsCons(s2, [l2]);
  }

  /** A group comment naming a new group: the blank-line reset, if any, is overridden. */
  lemma NewGroupStep(st: ParserState, w: string, suffix: string)
    requires LowerWord(w) && 'c' !in w && 'k' !in w && Lower(suffix) == " commands"
    requires forall i :: 0 <= i < |st.groups| ==> st.groups[i].name != Title(w)
    ensures Step(st, CommentLine(Title(w) + suffix))
            == ParserState(st.groups + [Group(Title(w), [], [])], Some(Title(w)), Some(Commands), 0)
  {
    CommandsLineStep(st, w, suffix);
    assert Title(w) !in Names(st.groups);
  }

  /** The ack comment of the group just read switches to its acks list. */
  lemma AckSwitchStep(t: Table, g: Group, w: string)
    requires LowerWord(w) && 'c' !in w && 'k' !in w && g.name == Title(w)
    ensures var st := ParserState(t + [g], Some(g.name), Some(Commands), 0);
            Step(st, CommentLine(Title(w) + " ack commands")) == st.(currentType := Some(Acks))
  {
    var st := ParserState(t + [g], Some(g.name), Some(Commands), 0);
    SuffixesLower();
    AckLineStep(st, w, " ack commands");
    NamesSnoc(t, g);
  }

  /** A declaration goes to the current list of the last group. */
  lemma DeclareLastStep(t: Table, g: Group, s: Section, name: string, gap: string, digits: string)
    requires g.name != "" && forall i :: 0 <= i < |t| ==> t[i].name != g.name
    requires name != [] && forall i :: 0 <= i < |name| ==> IsWordChar(name[i])
    requires gap != [] && AllSpace(gap)
    requires digits != [] && forall i :: 0 <= i < |digits| ==> IsHexDigit(digits[i])
    ensures var st := ParserState(t + [g], Some(g.name), Some(s), 0);
            Step(st, DefineLine(name, gap, digits)) == st.(groups := t + [g.Add(s, Entry(name, HexValue(digits)))])
  {
    var st := ParserState(t + [g], Some(g.name), Some(s), 0);
    DefineLineStep(st, name, gap, digits);
    DeclareLast(t, g, s, Entry(name, HexValue(digits)));
  }

  lemma DeclareLast(t: Table, g: Group, s: Section, e: Entry)
    requires g.name != "" && forall i :: 0 <= i < |t| ==> t[i].name != g.name
    ensures var st := ParserState(t + [g], Some(g.name), Some(s), 0);
            Declare(Resume(st), Some(e)) == st.(groups := t + [g.Add(s, e)])
  {
    AppendToLast(t, g, s, e);
  }

  /** The group a block builds, one `append` at a time. */
  function Built(m: string, e1: Entry, e2: Entry, e3: Entry, e4: Entry): Group {
    Group(m, [], []).Add(Commands, e1).Add(Commands, e2).Add(Acks, e3).Add(Acks, e4)
  }

  lemma BuiltGroup(m: string, e1: Entry, e2: Entry, e3: Entry, e4: Entry)
    ensures Built(m, e1, e2, e3, e4) == Group(m, [e1, e2], [e3, e4])
  {
  }

  /** The first half of a group block: a new group and its two commands. */
  lemma CommandsHalfSteps(st: ParserState, w: string, c1: GoodDecl, c2: GoodDecl)
    requires LowerWord(w) && 'c' !in w && 'k' !in w
    requires forall i :: 0 <= i < |st.groups| ==> st.groups[i].name != Title(w)
    ensures Steps(st, [CommentLine(Title(w) + " commands"), DeclLine(c1), DeclLine(c2)])
            == ParserState(st.groups + [Group(Title(w), [], []).Add(Commands, DeclEntry(c1)).Add(Commands, DeclEntry(c2))],
                           Some(Title(w)), Some(Commands), 0)
  {
    var t := st.groups;
    var m := Title(w);
    GroupWord(w);
    var g0 := Group(m, [], []);
    var g1 := g0.Add(Commands, DeclEntry(c1));
    var g2 := g1.Add(Commands, DeclEntry(c2));
    SuffixesLower();
    NewGroupStep(st, w, " commands");
    var s1 := ParserState(t + [g0], Some(m), Some(Commands), 0);
    DeclareLastStep(t, g0, Commands, c1.name, c1.gap, c1.digits);
    var s2 := s1.(groups := t + [g1]);
    DeclareLastStep(t, g1, Commands, c2.name, c2.gap, c2.digits);
    var s3 := s1.(groups := t + [g2]);
    ThreeSteps(st, CommentLine(m + " commands"), DeclLine(c1), DeclLine(c2), s1, s2, s3);
  }

  /** The second half of a group block: the ack comment and two acks. */
  lemma AcksHalfSteps(t: Table, g: Group, w: string, a1: GoodDecl, a2: GoodDecl)
    requires LowerWord(w) && 'c' !in w && 'k' !in w && g.name == Title(w)
    requires forall i :: 0 <= i < |t| ==> t[i].name != g.name
    ensures Steps(ParserState(t + [g], Some(g.name), Some(Commands), 0),
                  [CommentLine(Title(w) + " ack commands"), DeclLine(a1), DeclLine(a2)])
            == ParserState(t + [g.Add(Acks, DeclEntry(a1)).Add(Acks, DeclEntry(a2))], Some(g.name), Some(Acks), 0)
  {
    GroupWord(w);
    var st := ParserState(t + [g], Some(g.name), Some(Commands), 0);
    var g1 := g.Add(Acks, DeclEntry(a1));
    var g2 := g1.Add(Acks, DeclEntry(a2));
    AckSwitchStep(t, g, w);
    var s1 := st.(currentType := Some(Acks));
    DeclareLastStep(t, g, Acks, a1.name, a1.gap, a1.digits);
    var s2 := s1.(groups := t + [g1]);
    DeclareLastStep(t, g1, Acks, a2.name, a2.gap, a2.digits);
    var s3 := s1.(groups := t + [g2]);
    ThreeSteps(st, CommentLine(Title(w) + " ack commands"), DeclLine(a1), DeclLine(a2), s1, s2, s3);
  }

  /**
   * A group block whose name is new to the table: the group is added at the end with both lists filled in
   * file order, and its acks list is left current.
   */
  lemma GroupBlockSteps(st: ParserState, w: string, c1: GoodDecl, c2: GoodDecl, a1: GoodDecl, a2: GoodDecl)
    requires LowerWord(w) && 'c' !in w && 'k' !in w
    requires forall i :: 0 <= i < |st.groups| ==> st.groups[i].name != Title(w)
    ensures Steps(st, GroupBlock(w, c1, c2, a1, a2))
            == ParserState(st.groups + [Built(Title(w), DeclEntry(c1), DeclEntry(c2), DeclEntry(a1), DeclEntry(a2))],
                           Some(Title(w)), Some(Acks), 0)
  {
    var b := GroupBlock(w, c1, c2, a1, a2);
    var first := [CommentLine(Title(w) + " commands"), DeclLine(c1), DeclLine(c2)];
    var second := [CommentLine(Title(w) + " ack commands"), DeclLine(a1), DeclLine(a2)];
    assert b == first + second;
    StepsAppend(st, first, second);
    CommandsHalfSteps(st, w, c1, c2);
    var g := Group(Title(w), [], []).Add(Commands, DeclEntry(c1)).Add(Commands, DeclEntry(c2));
    AcksHalfSteps(st.groups, g, w, a1, a2);
  }

  // ---------------------------------------------------------------------
  // The whole file.
  // ---------------------------------------------------------------------

  function MixerBuilt(): Group {
    Built(Title("mixer"), DeclEntry(MixerStart), DeclEntry(MixerStop), DeclEntry(MixerStarted), DeclEntry(MixerStopped))
  }

  function DisplayBuilt(): Group {
    Built(Title("display"), DeclEntry(DisplayInit), DeclEntry(DisplayClear), DeclEntry(DisplayReady), DeclEntry(DisplayDone))
  }

  lemma UpToMixer()
    ensures Steps(Start, Preamble() + MixerBlock()) == ParserState([MixerBuilt()], Some(Title("mixer")), Some(Acks), 0)
  {
    ExampleWords();
    StepsAppend(Start, Preamble(), MixerBlock());
    PreambleSteps(Start);
    GroupBlockSteps(Start.(blankLines := 1), "mixer", MixerStart, MixerStop, MixerStarted, MixerStopped);
  }

  lemma TwoBlankLines(st: ParserState)
    ensures Steps(st, ["\n", "\n"]) == st.(blankLines := st.blankLines + 2)
  {
    NewlineStep(st);
    NewlineStep(st.(blankLines := st.blankLines + 1));
    StepsCons(st, ["\n", "\n"]);
    assert ["\n", "\n"][1..] == ["\n"];
    StepsCons(st.(blankLines := st.blankLines + 1), ["\n"]);
  }

  lemma TrailerSteps(st: ParserState)
    requires st.blankLines == 0
    ensures Steps(st, Trailer()) == st
  {
    NewlineStep(st);
    var st1 := st.(blankLines := 1);
    EndifLineStep(st1);
    TwoSteps(st, "\n", "#endif     // MY_DEVICE_COMMANDS_H_", st1, st);
  }

  /** A second group block: the group is appended after the first. */
  lemma SecondBlockSteps(st: ParserState, g: Group, w: string, c1: GoodDecl, c2: GoodDecl, a1: GoodDecl, a2: GoodDecl)
    requires LowerWord(w) && 'c' !in w && 'k' !in w && g.name != Title(w)
    requires st.groups == [g]
    ensures var st' := Steps(st, GroupBlock(w, c1, c2, a1, a2));
            && st'.groups == [g, Built(Title(w), DeclEntry(c1), DeclEntry(c2), DeclEntry(a1), DeclEntry(a2))]
            && st'.blankLines == 0
  {
    GroupBlockSteps(st, w, c1, c2, a1, a2);
    SingletonsConcat(g, Built(Title(w), DeclEntry(c1), DeclEntry(c2), DeclEntry(a1), DeclEntry(a2)));
  }

  lemma DisplayAfterMixer(st: ParserState)
    requires Title("mixer") != Title("display")
    requires st.groups == [MixerBuilt()]
    ensures var st' := Steps(st, DisplayBlock());
            st'.groups == [MixerBuilt(), DisplayBuilt()] && st'.blankLines == 0
  {
    ExampleWords();
    assert MixerBuilt().name == Title("mixer");
    SecondBlockSteps(st, MixerBuilt(), "display", DisplayInit, DisplayClear, DisplayReady, DisplayDone);
  }

  lemma TrailerKeepsTable(st: ParserState)
    requires st.blankLines == 0
    ensures Steps(st, Trailer()).groups == st.groups
  {
    TrailerSteps(st);
  }

  /**
   * The example file yields two groups, Mixer then Display, each with its two
   * commands and two acks in file order. The include guard declares nothing,
   * and the two blank lines before "// Display commands" do not matter
   * because that comment selects a group again.
   */
  lemma ExampleHeaderTable()
    ensures Parse(ExampleHeader()) == [MixerBuilt(), DisplayBuilt()]
  {
    var pm := Preamble() + MixerBlock();
    var s1 := ParserState([MixerBuilt()], Some(Title("mixer")), Some(Acks), 0);
    UpToMixer();
    StepsAppend(Start, pm, ["\n", "\n"]);
    TwoBlankLines(s1);
    var s2 := s1.(blankLines := 2);
    StepsAppend(Start, pm + ["\n", "\n"], DisplayBlock());
    DistinctTitles();
    DisplayAfterMixer(s2);
    var s3 := Steps(s2, DisplayBlock());
    StepsAppend(Start, pm + ["\n", "\n"] + DisplayBlock(), Trailer());
    TrailerKeepsTable(s3);
  }

  lemma MixerTitle()
    ensures Title("mixer") == "Mixer"
  {
    TitleLowerWord("mixer");
  }

  lemma DisplayTitle()
    ensures Title("display") == "Display"
  {
    TitleLowerWord("display");
  }

  lemma TwoDigits(d: string)
    requires |d| == 2 && IsHexDigit(d[0]) && IsHexDigit(d[1])
    ensures HexValue(d) == 16 * HexDigitValue(d[0]) + HexDigitValue(d[1])
  {
    var h := d[..1];
    assert h == [d[0]] && h[..0] == [] && h[0] == d[0];
    assert HexValue(h[..0]) == 0;
    assert HexValue(h) == HexDigitValue(d[0]);
  }

  lemma MixerValues()
    ensures DeclEntry(MixerStart) == Entry("MIXER_START", 0x01)
    ensures DeclEntry(MixerStop) == Entry("MIXER_STOP", 0x02)
    ensures DeclEntry(MixerStarted) == Entry("MIXER_STARTED", 0x81)
    ensures DeclEntry(MixerStopped) == Entry("MIXER_STOPPED", 0x82)
  {
    TwoDigits("01");
    TwoDigits("02");
    TwoDigits("81");
    TwoDigits("82");
  }

  lemma DisplayValues()
    ensures DeclEntry(DisplayInit) == Entry("DISPLAY_INIT", 0x10)
    ensures DeclEntry(DisplayClear) == Entry("DISPLAY_CLEAR", 0x11)
    ensures DeclEntry(DisplayReady) == Entry("DISPLAY_READY", 0x90)
    ensures DeclEntry(DisplayDone) == Entry("DISPLAY_DONE", 0x91)
  {
    TwoDigits("10");
    TwoDigits("11");
    TwoDigits("90");
    TwoDigits("91");
  }

  /** The two groups spelled out: the names title-cased, the values read as hexadecimal. */
  lemma ExampleSpelling()
    ensures MixerBuilt() == Group("Mixer", [Entry("MIXER_START", 0x01), Entry("MIXER_STOP", 0x02)],
                                           [Entry("MIXER_STARTED", 0x81), Entry("MIXER_STOPPED", 0x82)])
    ensures DisplayBuilt() == Group("Display", [Entry("DISPLAY_INIT", 0x10), Entry("DISPLAY_CLEAR", 0x11)],
                                               [Entry("DISPLAY_READY", 0x90), Entry("DISPLAY_DONE", 0x91)])
  {
    MixerTitle();
    DisplayTitle();
    MixerValues();
    DisplayValues();
    BuiltGroup(Title("mixer"), DeclEntry(MixerStart), DeclEntry(MixerStop), DeclEntry(MixerStarted), DeclEntry(MixerStopped));
    BuiltGroup(Title("display"), DeclEntry(DisplayInit), DeclEntry(DisplayClear), DeclEntry(DisplayReady), DeclEntry(DisplayDone));
  }
}
