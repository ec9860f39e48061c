/**
 A DBC file in full, and the configuration that the parser makes of it: Motorola and Intel bytes, signs, a
 multiplexor with a signal that it selects, decimals, a comment, and value descriptions.
 */
module DbcExample {
  import opened CanTypes
  import opened PhysicalRange
  import opened DbcText
  import opened DbcParser
  import opened DbcPrinter
  import opened DbcFiles
  import opened DbcNumbers

  const SPEED := SignalText("Speed", MuxText.Plain, 7, 16, true, false, DecimalText("", "0", "25"),
    DecimalText("-", "40", ""), DecimalText("", "1", ""), DecimalText("", "90", ""), "km/h", ["Dash", "Log"])
  const MODE := SignalText("Mode", MuxText.Multiplexor, 16, 4, false, false, DecimalText("", "1", ""),
    DecimalText("", "0", ""), DecimalText("", "0", ""), DecimalText("", "9", ""), "", ["Log"])
  const GEAR := SignalText("Gear", MuxText.Selected(3), 24, 8, false, true, DecimalText("", "2", ""),
    DecimalText("", "0", ""), DecimalText("-", "8", ""), DecimalText("", "7", ""), "", ["Log"])
  const ENGINE := MessageText(256, "Engine", 8, "ECU", [SPEED, MODE, GEAR])
  const NOTE := CommentText(Subject.OfSignal(256, "Speed"), "on the road")
  const POSITIONS := ValuesText(256, "Gear",
    [MeaningText(DecimalText("", "0", ""), "park"), MeaningText(DecimalText("-", "1", ""), "back")])
  const FILE := DbcFiles.FileText("1.0", ["CM_"], ["ECU", "Dash", "Log"], [], [ENGINE], [], [], [], [], [NOTE], [], [],
                                  [],
    [], [POSITIONS], [], [])

  // ----- The text

  lemma Numerals()
    ensures Decimal(7) == "7" && Decimal(4) == "4" && Decimal(8) == "8" && Decimal(3) == "3"
    ensures Decimal(16) == "16" && Decimal(24) == "24" && Decimal(256) == "256"
  {
    DecimalByDigits(0, 7);
    DecimalByDigits(0, 4);
    DecimalByDigits(0, 8);
    DecimalByDigits(0, 3);
    DecimalByDigits(0, 1);
    DecimalByDigits(0, 2);
    DecimalByDigits(1, 6);
    DecimalByDigits(2, 4);
    DecimalByDigits(2, 5);
    DecimalByDigits(25, 6);
  }

  lemma SpeedPosition(rest: string)
    ensures PositionTo(SPEED, rest) == " : 7|16@0+" + rest
  {
    hide Decimal;
    Numerals();
  }

  lemma SpeedScale(rest: string)
    ensures ScaleTo(SPEED, rest) == " (0.25,-40) [1|90]" + rest
  {
    assert DecimalString(SPEED.factor) == "0.25" && DecimalString(SPEED.offset) == "-40";
    assert DecimalString(SPEED.minimum) == "1" && DecimalString(SPEED.maximum) == "90";
    hide DecimalString;
  }

  lemma SpeedEnd(rest: string)
    ensures UnitTo(SPEED.unit, ReceiversTo(SPEED.receivers, rest)) == " \"km/h\" Dash,Log " + rest
  {
    assert SPEED.receivers[1..] == ["Log"];
    assert ReceiversTo(SPEED.receivers, rest) == "Dash,Log " + rest;
  }

  lemma SpeedText(rest: string)
    ensures SignalTo(SPEED, rest) == "SG_ Speed : 7|16@0+" + (" (0.25,-40) [1|90]" + (" \"km/h\" Dash,Log " + rest))
  {
    hide PositionTo, ScaleTo, UnitTo, ReceiversTo;
    var tail := " (0.25,-40) [1|90]" + (" \"km/h\" Dash,Log " + rest);
    SpeedEnd(rest);
    SpeedScale(" \"km/h\" Dash,Log " + rest);
    SpeedPosition(tail);
  }

  lemma ModePosition(rest: string)
    ensures PositionTo(MODE, rest) == " : 16|4@1+" + rest
  {
    hide Decimal;
    Numerals();
  }

  lemma ModeScale(rest: string)
    ensures ScaleTo(MODE, rest) == " (1,0) [0|9]" + rest
  {
    assert DecimalString(MODE.factor) == "1" && DecimalString(MODE.offset) == "0" && DecimalString(MODE.maximum) == "9";
    hide DecimalString;
  }

  lemma ModeText(rest: string)
    ensures SignalTo(MODE, rest) == "SG_ Mode M : 16|4@1+" + (" (1,0) [0|9]" + (" \"\" Log " + rest))
  {
    hide PositionTo, ScaleTo;
    assert UnitTo("", ReceiversTo(["Log"], rest)) == " \"\" Log " + rest;
    hide UnitTo, ReceiversTo;
    ModeScale(" \"\" Log " + rest);
    ModePosition(" (1,0) [0|9]" + (" \"\" Log " + rest));
  }

  lemma GearPosition(rest: string)
    ensures PositionTo(GEAR, rest) == " : 24|8@1-" + rest
  {
    hide Decimal;
    Numerals();
  }

  lemma GearScale(rest: string)
    ensures ScaleTo(GEAR, rest) == " (2,0) [-8|7]" + rest
  {
    assert DecimalString(GEAR.factor) == "2" && DecimalString(GEAR.offset) == "0";
    assert DecimalString(GEAR.minimum) == "-8" && DecimalString(GEAR.maximum) == "7";
    hide DecimalString;
  }

  lemma GearText(rest: string)
    ensures SignalTo(GEAR, rest) == "SG_ Gear m3 : 24|8@1-" + (" (2,0) [-8|7]" + (" \"\" Log " + rest))
  {
    hide PositionTo, ScaleTo, Decimal;
    Numerals();
    assert UnitTo("", ReceiversTo(["Log"], rest)) == " \"\" Log " + rest;
    hide UnitTo, ReceiversTo;
    GearScale(" \"\" Log " + rest);
    GearPosition(" (2,0) [-8|7]" + (" \"\" Log " + rest));
  }

  lemma HeadText(rest: string)
    ensures "BO_" + HeadTo(ENGINE, rest) == "BO_ 256 Engine: 8 ECU " + rest
  {
    hide Decimal;
    Numerals();
  }

  /** The text of the signals, in front of any other text. */
  function SignalsText(rest: string): string {
    "SG_ Speed : 7|16@0+" + (" (0.25,-40) [1|90]" + (" \"km/h\" Dash,Log "
    + ("SG_ Mode M : 16|4@1+" + (" (1,0) [0|9]" + (" \"\" Log "
    + ("SG_ Gear m3 : 24|8@1-" + (" (2,0) [-8|7]" + (" \"\" Log " + rest))))))))
  }

  lemma ThreeSignals(a: SignalText, b: SignalText, c: SignalText, rest: string)
    requires a.receivers != [] && b.receivers != [] && c.receivers != [] && forall s | s in [a, b, c] :: Printable(s)
    ensures a in [a, b, c] && b in [a, b, c] && c in [a, b, c]
    ensures SignalsTo([a, b, c], rest) == SignalTo(a, SignalTo(b, SignalTo(c, rest)))
  {
    hide SignalTo, Printable;
    assert [a, b, c][1..] == [b, c] && [b, c][1..] == [c] && [c][1..] == [];
    assert forall s | s in [b, c] :: s in [a, b, c];
    assert SignalsTo([c], rest) == SignalTo(c, rest);
    assert SignalsTo([b, c], rest) == SignalTo(b, SignalsTo([c], rest));
  }

  lemma EngineText(rest: string)
    requires PrintableMessage(ENGINE)
    ensures MessageTo(ENGINE, rest) == "BO_ 256 Engine: 8 ECU " + SignalsText(rest)
  {
    hide SignalTo, Printable, HeadTo, Decimal, SPEED, MODE, GEAR;
    SignalsArePrintable();
    assert ENGINE.signals == [SPEED, MODE, GEAR];
    ThreeSignals(SPEED, MODE, GEAR, rest);
    GearText(rest);
    ModeText(SignalTo(GEAR, rest));
    SpeedText(SignalTo(MODE, SignalTo(GEAR, rest)));
    HeadText(SignalsText(rest));
    MessageIsHead(ENGINE, rest);
  }

  lemma MessageIsHead(m: MessageText, rest: string)
    requires PrintableMessage(m)
    ensures MessageTo(m, rest) == "BO_" + HeadTo(m, SignalsTo(m.signals, rest))
  {
    hide SignalsTo, Decimal;
  }

  lemma NoteText(rest: string)
    ensures CommentTo(NOTE, rest) == "CM_ SG_ 256 Speed " + ("\"on the road\";" + rest)
  {
    hide Decimal;
    Numerals();
  }

  lemma MeaningsText(rest: string)
    ensures MeaningsTo(POSITIONS.values, rest) == "0 \"park\" " + ("-1 \"back\" " + (";" + rest))
  {
    var v := POSITIONS.values;
    assert v[1..] == [v[1]] && v[1..][1..] == [];
    assert DecimalString(v[0].value) == "0" && DecimalString(v[1].value) == "-1";
    hide DecimalString;
    var end := MeaningsTo(v[1..], rest);
    assert MeaningsTo(v[1..][1..], rest) == ";" + rest;
    assert end == "-1 \"back\" " + (";" + rest);
    hide MeaningsTo;
    assert "0" + (" " + ("\"" + ("park" + ("\"" + (" " + end))))) == "0 \"park\" " + end;
  }

  lemma PositionsText(rest: string)
    ensures ValuesTo(POSITIONS, rest) == "VAL_ 256 Gear " + ("0 \"park\" " + ("-1 \"back\" " + (";" + rest)))
  {
    hide Decimal, MeaningsTo;
    Numerals();
    MeaningsText(rest);
  }

  /** What stands behind the messages. */
  function BackText(): string {
    "CM_ SG_ 256 Speed " + ("\"on the road\";" + ("VAL_ 256 Gear " + ("0 \"park\" " + ("-1 \"back\" " + (";" + "")))))
  }

  lemma BackIsText()
    ensures BackTo(FILE) == BackText()
  {
    hide CommentTo, ValuesTo, SPEED, MODE, GEAR, ENGINE, NOTE, POSITIONS;
    assert TailTo(FILE) == "";
    assert [POSITIONS][1..] == [] && [NOTE][1..] == [];
    assert AllValuesTo([POSITIONS], "") == ValuesTo(POSITIONS, "");
    PositionsText("");
    assert LateTo(FILE) == ValuesTo(POSITIONS, "");
    assert AttributesTo(FILE) == LateTo(FILE);
    NoteText(ValuesTo(POSITIONS, ""));
    assert CommentsAndMore(FILE) == CommentTo(NOTE, ValuesTo(POSITIONS, ""));
    assert BackTo(FILE) == CommentsAndMore(FILE);
  }

  lemma NamesText(body: string)
    ensures WordsTo(FILE.nodes, body) == "ECU Dash Log " + body
    ensures WordsTo(FILE.symbols, body) == "CM_ " + body
  {
    var w := FILE.nodes;
    assert w[1..] == ["Dash", "Log"] && w[1..][1..] == ["Log"] && w[1..][1..][1..] == [];
    assert WordsTo(w[1..][1..], body) == "Log " + body;
    assert WordsTo(w[1..], body) == "Dash " + ("Log " + body);
  }

  // ----- What it says

  lemma SignalsArePrintable()
    ensures Printable(SPEED) && Printable(MODE) && Printable(GEAR)
    ensures SPEED.receivers != [] && MODE.receivers != [] && GEAR.receivers != []
  {
  }

  lemma EngineIsPrintable()
    ensures PrintableMessage(ENGINE)
  {
    SignalsArePrintable();
  }

  lemma Values()
    ensures Printable(SPEED) && Printable(MODE) && Printable(GEAR)
    ensures Value(SPEED.factor) == 0.25 && Value(SPEED.offset) == -40.0 && Value(SPEED.minimum) == 1.0
    ensures Value(SPEED.maximum) == 90.0
    ensures Value(MODE.factor) == 1.0 && Value(MODE.offset) == Value(MODE.minimum) == 0.0 && Value(MODE.maximum) == 9.0
    ensures Value(GEAR.factor) == 2.0 && Value(GEAR.offset) == 0.0 && Value(GEAR.minimum) == -8.0
    ensures Value(GEAR.maximum) == 7.0
  {
    SignalsArePrintable();
    NumberWorth("0", 0);
    NumberWorth("1", 1);
    NumberWorth("2", 2);
    NumberWorth("7", 7);
    NumberWorth("8", 8);
    NumberWorth("9", 9);
    NumbersWorth();
    assert Pow10(2) == 100.0;
    hide DigitsValue, Pow10, Printable;
  }

  lemma NumberWorth(s: string, n: nat)
    requires |s| == 1 && IsDigit(s[0]) && Digit(s[0]) == n
    ensures IsDigits(s) && DigitsValue(s) == n
  {
    WholeDigit("", s[0]);
    assert "" + [s[0]] == s;
  }

  lemma NumbersWorth()
    ensures IsDigits("25") && DigitsValue("25") == 25 && IsDigits("40") && DigitsValue("40") == 40
    ensures IsDigits("90") && DigitsValue("90") == 90
  {
    NumberWorth("2", 2);
    NumberWorth("4", 4);
    NumberWorth("9", 9);
    WholeDigit("2", '5');
    WholeDigit("4", '0');
    WholeDigit("9", '0');
  }

  lemma FileIsPrintable()
    ensures PrintableParts(FILE)
  {
    hide PrintableMessage, SYMBOLS;
    EngineIsPrintable();
    NodesArePlain();
    hide IsWord;
    assert IsDecimalText(POSITIONS.values[0].value) && IsDecimalText(POSITIONS.values[1].value);
    assert IsWord("Speed") && IsWord("Gear") by { NodesArePlain(); }
    assert PrintableValues(POSITIONS);
  }

  lemma NodesArePlain()
    ensures forall w | w in ["ECU", "Dash", "Log"] :: IsWord(w) && w !in SYMBOLS
    ensures IsWord("CM_") && IsWord("Speed") && IsWord("Gear")
  {
  }

  /** The whole text. */
  function ExampleText(): string {
    "VERSION \"1.0\" NS_ : CM_ " + ("BS_: BU_: ECU Dash Log " + ("BO_ 256 Engine: 8 ECU " + SignalsText(BackText())))
  }

  lemma FileIsText()
    requires PrintableParts(FILE)
    ensures FileString(FILE) == ExampleText() && EndsNodes(BodyTo(FILE))
  {
    hide SPEED, MODE, GEAR, NOTE, POSITIONS, PrintableMessage, PrintableComment, PrintableValues, AreBodies, BackTo,
         MessageTo, WordsTo, SYMBOLS, IsWord, SignalsText, BackText;
    EngineIsPrintable();
    BackIsText();
    EngineText(BackText());
    OneMessageText(ENGINE, BackTo(FILE));
    var body := BodyTo(FILE);
    assert body == MessageTo(ENGINE, BackTo(FILE));
    assert body == "BO_ 256 Engine: 8 ECU " + SignalsText(BackText());
    assert body[0] == 'B';
    NamesText(body);
    var nodes := "BU_:" + (" " + ("ECU Dash Log " + body));
    NamesText("BS_" + (":" + (" " + nodes)));
    TextInPieces(body);
  }

  lemma OneMessageText(m: MessageText, rest: string)
    requires PrintableMessage(m)
    ensures MessagesTo([m], rest) == MessageTo(m, rest)
  {
    hide MessageTo, PrintableMessage;
    assert [m][1..] == [];
  }

  lemma TextInPieces(body: string)
    ensures "VERSION" + (" " + ("\"" + ("1.0" + ("\"" + (" " + ("NS_" + (" " + (":" + (" "
            + ("CM_ " + ("BS_" + (":" + (" " + ("BU_:" + (" " + ("ECU Dash Log " + body))))))))))))))))
            == "VERSION \"1.0\" NS_ : CM_ " + ("BS_: BU_: ECU Dash Log " + body)
  {
    NodesPiece(body);
    VersionPiece("BS_: BU_: ECU Dash Log " + body);
  }

  lemma NodesPiece(body: string)
    ensures "BS_" + (":" + (" " + ("BU_:" + (" " + ("ECU Dash Log " + body))))) == "BS_: BU_: ECU Dash Log " + body
  {
    assert "BU_:" + (" " + ("ECU Dash Log " + body)) == "BU_: ECU Dash Log " + body;
  }

  lemma VersionPiece(rest: string)
    ensures "VERSION" + (" " + ("\"" + ("1.0" + ("\"" + (" " + ("NS_" + (" " + (":" + (" " + ("CM_ " + rest))))))))))
            == "VERSION \"1.0\" NS_ : CM_ " + rest
  {
    var symbols := "NS_ : CM_ " + rest;
    assert "NS_" + (" " + (":" + (" " + ("CM_ " + rest)))) == symbols;
    assert "VERSION" + (" " + ("\"" + ("1.0" + ("\"" + (" " + symbols))))) == "VERSION \"1.0\" " + symbols;
    assert "VERSION \"1.0\" " + symbols == "VERSION \"1.0\" NS_ : CM_ " + rest;
  }

  /** The configuration of the text above. */
  function Expected(): DbcConfig {
    DbcConfig(
      ["ECU", "Dash", "Log"],
      [Message(256, "Engine", 8, "ECU",
         [Signal("Speed", false, -1, 7, 16, true, false, 0.25, -40.0, 1.0, 90.0, "km/h", ["Dash", "Log"]),
          Signal("Mode", true, -1, 16, 4, false, false, 1.0, 0.0, 0.0, 9.0, "", ["Log"]),
          Signal("Gear", false, 3, 24, 8, false, true, 2.0, 0.0, -8.0, 7.0, "", ["Log"])])],
      [SignalValueDescription(256, "Gear", [ValueDescription(0.0, "park"), ValueDescription(-1.0, "back")])],
      ["Signal: 256 Speed on the road"],
      "1.0")
  }

  lemma MessageSays()
    requires PrintableMessage(ENGINE)
    ensures DescribedMessage(ENGINE) == Expected().messages[0]
  {
    SignalsArePrintable();
    Values();
    hide Value, Printable;
    var all := ENGINE.signals;
    assert all[1..] == [MODE, GEAR] && all[1..][1..] == [GEAR] && all[1..][1..][1..] == [];
    assert DescribedSignals(all[1..][1..]) == [DbcPrinter.Described(GEAR)];
    assert DescribedSignals(all[1..]) == [DbcPrinter.Described(MODE)] + [DbcPrinter.Described(GEAR)];
  }

  lemma PositionsSay()
    requires PrintableValues(POSITIONS)
    ensures DescribedValues(POSITIONS) == Expected().valueDescriptions[0]
  {
    hide IsWord;
    NumberWorth("0", 0);
    NumberWorth("1", 1);
    var v := POSITIONS.values;
    assert v[1..] == [v[1]] && v[1..][1..] == [];
    assert Value(v[0].value) == 0.0 && Value(v[1].value) == -1.0;
    hide Value, DigitsValue;
    assert DescribedMeanings(v[1..]) == [ValueDescription(-1.0, "back")];
  }

  lemma NoteSays()
    ensures SubjectName(NOTE.subject) + NOTE.text == "Signal: 256 Speed on the road"
  {
    hide Decimal;
    Numerals();
    assert SubjectName(NOTE.subject) == "Signal: 256 Speed ";
  }

  lemma RestSays()
    requires PrintableParts(FILE)
    ensures DescribedAll(FILE.values) == Expected().valueDescriptions
    ensures DescribedComments(FILE.comments) + DescribedComments(FILE.lateComments) == Expected().comments
  {
    hide PrintableMessage, AreBodies, SPEED, MODE, GEAR, ENGINE, DescribedValues, SubjectName, PrintableValues;
    assert PrintableValues(POSITIONS) by { assert POSITIONS in FILE.values; }
    PositionsSay();
    NoteSays();
    assert [POSITIONS][1..] == [] && [NOTE][1..] == [];
    assert DescribedComments([NOTE][1..]) == [];
    assert DescribedComments(FILE.comments) == [SubjectName(NOTE.subject) + NOTE.text];
    assert DescribedAll(FILE.values) == [DescribedValues(POSITIONS)];
  }

  /** The file above, read by the parser. */
  lemma ExampleReads()
    ensures ConfigOf(ExampleText()) == Some(Expected())
  {
    hide ConfigOf, FileString, ExampleText, PrintableMessage, DescribedMessage, PrintableParts, BodyTo, DescribedAll,
         DescribedComments;
    FileIsPrintable();
    FileIsText();
    FileReads(FILE);
    EngineIsPrintable();
    MessageSays();
    OneMessage();
    RestSays();
  }

  lemma OneMessage()
    requires PrintableMessage(ENGINE)
    ensures DescribedMessages(FILE.messages) == [DescribedMessage(ENGINE)]
  {
    hide PrintableMessage, DescribedMessage;
    assert [ENGINE][1..] == [];
  }
}
