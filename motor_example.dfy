/**
 * A group whose acks are introduced by a comment without the word
 * "command":
 *
 *     // Motor Commands
 *     #define MOTOR_START 0x01
 *     #define MOTOR_STOP 0x02
 *
 *     // Motor Ack
 *     #define MOTOR_ACK 0x10
 *
 * Only comments containing "command" select a group or a list, so
 * "// Motor Ack" changes nothing: after one blank line MOTOR_ACK joins the
 * Motor commands, and after two it is dropped. In neither case does Motor
 * get an acks list entry.
 */
module MotorExample {
  import opened Common
  import opened PyText
  import opened CommandTable
  import opened HeaderExample

  const MotorStart: GoodDecl := Decl("MOTOR_START", " ", "01")
  const MotorStop: GoodDecl := Decl("MOTOR_STOP", " ", "02")
  const MotorAck: GoodDecl := Decl("MOTOR_ACK", " ", "10")

  /** The head of the file: the group comment and its two commands. */
  function MotorHead(w: string, c1: GoodDecl, c2: GoodDecl): seq<string> {
    [CommentLine(Title(w) + " Commands"), DeclLine(c1), DeclLine(c2)]
  }

  /** The tail: the "Ack" comment and one declaration. */
  function MotorTail(w: string, a: GoodDecl): seq<string> {
    [CommentLine(Title(w) + " Ack"), DeclLine(a)]
  }

  /** The file with `blanks` blank lines between its head and its tail. */
  function MotorFile(w: string, c1: GoodDecl, c2: GoodDecl, a: GoodDecl, blanks: seq<string>): seq<string> {
    MotorHead(w, c1, c2) + blanks + MotorTail(w, a)
  }

  lemma CapitalSuffixes()
    ensures Lower(" Commands") == " commands"
    ensures Lower(" Ack") == " ack"
  {
  }

  lemma HeadSteps(w: string, c1: GoodDecl, c2: GoodDecl)
    requires LowerWord(w) && 'c' !in w && 'k' !in w
    ensures Steps(Start, MotorHead(w, c1, c2))
            == ParserState([Group(Title(w), [], []).Add(Commands, DeclEntry(c1)).Add(Commands, DeclEntry(c2))],
                           Some(Title(w)), Some(Commands), 0)
  {
    GroupWord(w);
    var g0 := Group(Title(w), [], []);
    var g1 := g0.Add(Commands, DeclEntry(c1));
    var g2 := g1.Add(Commands, DeclEntry(c2));
    CapitalSuffixes();
    NewGroupStep(Start, w, " Commands");
    var s1 := ParserState([] + [g0], Some(Title(w)), Some(Commands), 0);
    DeclareLastStep([], g0, Commands, c1.name, c1.gap, c1.digits);
    var s2 := s1.(groups := [] + [g1]);
    DeclareLastStep([], g1, Commands, c2.name, c2.gap, c2.digits);
    var s3 := s1.(groups := [] + [g2]);
    ThreeSteps(Start, CommentLine(Title(w) + " Commands"), DeclLine(c1), DeclLine(c2), s1, s2, s3);
    EmptyPrefix([g2]);
  }

  /** "// Motor Ack" is a comment that selects nothing. */
  lemma AckCommentStep(st: ParserState, w: string)
    requires LowerWord(w) && 'd' !in w
    ensures Step(st, CommentLine(Title(w) + " Ack")) == Resume(st)
  {
    CapitalSuffixes();
    TitledTextShape(w, " Ack", " ack");
    LowerTitled(w, " Ack");
    assert 'd' !in w + " ack";
    OtherCommentLine(Title(w) + " Ack");
    StepOtherComment(st, CommentLine(Title(w) + " Ack"));
  }

  /** After one blank line the current group and list survive the "Ack" comment. */
  lemma OneBlankTail(g: Group, w: string, a: GoodDecl)
    requires LowerWord(w) && 'd' !in w && g.name == Title(w) && g.name != ""
    ensures Steps(ParserState([g], Some(g.name), Some(Commands), 1), MotorTail(w, a))
            == ParserState([g.Add(Commands, DeclEntry(a))], Some(g.name), Some(Commands), 0)
  {
    var st := ParserState([g], Some(g.name), Some(Commands), 1);
    AckCommentStep(st, w);
    var s1 := st.(blankLines := 0);
    EmptyPrefix([g]);
    DeclareLastStep([], g, Commands, a.name, a.gap, a.digits);
    EmptyPrefix([g.Add(Commands, DeclEntry(a))]);
    TwoSteps(st, CommentLine(Title(w) + " Ack"), DeclLine(a), s1, s1.(groups := [g.Add(Commands, DeclEntry(a))]));
  }

  /** After two blank lines nothing is current, so the declaration is dropped. */
  lemma TwoBlanksTail(g: Group, w: string, a: GoodDecl)
    requires LowerWord(w) && 'd' !in w
    ensures Steps(ParserState([g], Some(g.name), Some(Commands), 2), MotorTail(w, a)).groups == [g]
  {
    var st := ParserState([g], Some(g.name), Some(Commands), 2);
    AckCommentStep(st, w);
    var s1 := ParserState([g], None, None, 0);
    DefineLineStep(s1, a.name, a.gap, a.digits);
    TwoSteps(st, CommentLine(Title(w) + " Ack"), DeclLine(a), s1, s1);
  }

  lemma OneBlankLine(st: ParserState)
    ensures Steps(st, ["\n"]) == st.(blankLines := st.blankLines + 1)
  {
    NewlineStep(st);
    StepsCons(st, ["\n"]);
  }

  lemma AddThree(m: string, e1: Entry, e2: Entry, e3: Entry)
    ensures Group(m, [], []).Add(Commands, e1).Add(Commands, e2).Add(Commands, e3) == Group(m, [e1, e2, e3], [])
    ensures Group(m, [], []).Add(Commands, e1).Add(Commands, e2) == Group(m, [e1, e2], [])
  {
  }

  /** With one blank line before "// Motor Ack", the ack lands in the commands list. */
  lemma AckJoinsCommands(w: string, c1: GoodDecl, c2: GoodDecl, a: GoodDecl)
    requires LowerWord(w) && 'c' !in w && 'k' !in w && 'd' !in w
    ensures Parse(MotorFile(w, c1, c2, a, ["\n"]))
            == [Group(Title(w), [DeclEntry(c1), DeclEntry(c2), DeclEntry(a)], [])]
  {
    GroupWord(w);
    var g := Group(Title(w), [], []).Add(Commands, DeclEntry(c1)).Add(Commands, DeclEntry(c2));
    var head := MotorHead(w, c1, c2);
    var s1 := ParserState([g], Some(Title(w)), Some(Commands), 0);
    HeadSteps(w, c1, c2);
    assert Steps(Start, head) == s1;
    StepsAppend(Start, head, ["\n"]);
    OneBlankLine(s1);
    assert Steps(Start, head + ["\n"]) == s1.(blankLines := 1);
    StepsAppend(Start, head + ["\n"], MotorTail(w, a));
    OneBlankTail(g, w, a);
    assert MotorFile(w, c1, c2, a, ["\n"]) == head + ["\n"] + MotorTail(w, a);
    AddThree(Title(w), DeclEntry(c1), DeclEntry(c2), DeclEntry(a));
  }

  /** With two blank lines before "// Motor Ack", the ack is dropped. */
  lemma AckDropped(w: string, c1: GoodDecl, c2: GoodDecl, a: GoodDecl)
    requires LowerWord(w) && 'c' !in w && 'k' !in w && 'd' !in w
    ensures Parse(MotorFile(w, c1, c2, a, ["\n", "\n"]))
            == [Group(Title(w), [DeclEntry(c1), DeclEntry(c2)], [])]
  {
    var g := Group(Title(w), [], []).Add(Commands, DeclEntry(c1)).Add(Commands, DeclEntry(c2));
    var head := MotorHead(w, c1, c2);
    var s1 := ParserState([g], Some(Title(w)), Some(Commands), 0);
    HeadSteps(w, c1, c2);
    assert Steps(Start, head) == s1;
    StepsAppend(Start, head, ["\n", "\n"]);
    TwoBlankLines(s1);
    assert Steps(Start, head + ["\n", "\n"]) == s1.(blankLines := 2);
    StepsAppend(Start, head + ["\n", "\n"], MotorTail(w, a));
    TwoBlanksTail(g, w, a);
    assert MotorFile(w, c1, c2, a, ["\n", "\n"]) == head + ["\n", "\n"] + MotorTail(w, a);
    AddThree(Title(w), DeclEntry(c1), DeclEntry(c2), DeclEntry(a));
  }

  lemma MotorTitle()
    ensures LowerWord("motor") && 'c' !in "motor" && 'k' !in "motor" && 'd' !in "motor"
    ensures Title("motor") == "Motor"
  {
    TitleLowerWord("motor");
  }

  /**
   * The Motor file with one blank line: a single group Motor whose commands
   * are MOTOR_START, MOTOR_STOP and MOTOR_ACK, and whose acks are empty.
   */
  lemma MotorOneBlank()
    ensures Parse(MotorFile("motor", MotorStart, MotorStop, MotorAck, ["\n"]))
            == [Group(Title("motor"), [DeclEntry(MotorStart), DeclEntry(MotorStop), DeclEntry(MotorAck)], [])]
  {
    MotorTitle();
    AckJoinsCommands("motor", MotorStart, MotorStop, MotorAck);
  }

  /** The Motor file with two blank lines: MOTOR_ACK is not in the table at all. */
  lemma MotorTwoBlanks()
    ensures Parse(MotorFile("motor", MotorStart, MotorStop, MotorAck, ["\n", "\n"]))
            == [Group(Title("motor"), [DeclEntry(MotorStart), DeclEntry(MotorStop)], [])]
  {
    MotorTitle();
    AckDropped("motor", MotorStart, MotorStop, MotorAck);
  }

  lemma MotorSpelling()
    ensures Title("motor") == "Motor"
    ensures DeclEntry(MotorStart) == Entry("MOTOR_START", 1)
    ensures DeclEntry(MotorStop) == Entry("MOTOR_STOP", 2)
    ensures DeclEntry(MotorAck) == Entry("MOTOR_ACK", 16)
  {
    MotorTitle();
    TwoDigits("01");
    TwoDigits("02");
    TwoDigits("10");
  }
}
