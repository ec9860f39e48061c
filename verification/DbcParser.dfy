/** The DBC parser: a recursive-descent parser that consumes its text (dbc_parser.cpp). */
module DbcParser {
  import opened CanTypes
  import opened PhysicalRange
  import T = DbcText

  datatype DbcConfig = DbcConfig(
    nodes: seq<string>, messages: seq<Message>, valueDescriptions: seq<T.SignalValueDescription>, comments: seq<string>,
    version: string)

  // ----- What parseDbc makes of a whole text

  /** The optional sections between the nodes and the first message. */
  function AfterNodes(st: T.St): Option<T.St> {
    T.Sections(st, "VAL_TABLE_")
  }

  /** The sections between the messages and the first comments. */
  function AfterMessages(st: T.St): Option<T.St> {
    var s1 := T.Sections(st, "BO_TX_BU_");
    if s1.None? then None
    else
      var s2 := T.Sections(s1.value, "EV_");
      if s2.None? then None
      else
        var s3 := T.Section(s2.value, "ENVVAR_DATA_").0;
        if !s3.valid then None else T.Sections(s3, "SGTYPE_")
  }

  /** The attribute sections. */
  function Attributes(st: T.St): Option<T.St> {
    var s1 := T.Sections(st, "BA_DEF_");
    if s1.None? then None
    else
      var s2 := T.Sections(s1.value, "BA_DEF_DEF_");
      if s2.None? then None else T.Sections(s2.value, "BA_")
  }

  /** The sections after the value descriptions. */
  function Tail(st: T.St): Option<T.St> {
    var s1 := T.Sections(st, "SGTYPE_");
    if s1.None? then None
    else
      var s2 := T.Section(s1.value, "SIG_GROUP_").0;
      if !s2.valid then None
      else
        var s3 := T.Section(s2, "SIG_VALTYPE_").0;
        if !s3.valid then None else Some(T.Trimmed(s3))
  }

  datatype Front = Front(st: T.St, version: string, nodes: seq<string>, messages: seq<Message>)

  /** Everything up to and including the messages. */
  function FrontOf(text: string): Option<Front> {
    var (s1, version) := T.Version(T.St(text, true, true));
    var s2 := T.NewSymbols(s1);
    if !s2.valid then None
    else
      var s3 := T.BitTiming(s2);
      if !s3.valid then None
      else
        var (s4, nodes) := T.Nodes(s3);
        if !s4.valid then None
        else
          var s5 := AfterNodes(s4);
          if s5.None? then None
          else
            var r := T.Messages(s5.value);
            if r.None? then None else Some(Front(r.value.0, version, nodes, r.value.1))
  }

  datatype Back = Back(st: T.St, comments: seq<string>, values: seq<T.SignalValueDescription>)

  /** Everything after the messages. */
  function BackOf(st: T.St): Option<Back> {
    var s1 := AfterMessages(st);
    if s1.None? then None
    else
      var c1 := T.Comments(s1.value);
      if c1.None? then None
      else
        var s2 := Attributes(c1.value.0);
        if s2.None? then None
        else
          var c2 := T.Comments(s2.value);
          if c2.None? then None
          else
            var v := T.AllSignalValues(c2.value.0);
            if v.None? then None
            else
              var s3 := Tail(v.value.0);
              if s3.None? then None else Some(Back(s3.value, c1.value.1 + c2.value.1, v.value.1))
  }

  function ConfigOf(text: string): Option<DbcConfig> {
    var front := FrontOf(text);
    if front.None? then None
    else
      var back := BackOf(front.value.st);
      if back.None? || back.value.st.file != "" then None
      else Some(DbcConfig(front.value.nodes, front.value.messages, back.value.values, back.value.comments,
                          front.value.version))
  }

  // ----- The parser

  class DbcParser {
    var file: string
    var parsingValid: bool
    var parsedObject: bool

    ghost function State(): T.St
      reads this
    {
      T.St(file, parsingValid, parsedObject)
    }

    constructor ()
      ensures State() == T.St("", false, false)
    {
      file, parsingValid, parsedObject := "", false, false;
    }

    method ProvideNewFile(newFile: string)
      modifies this
      ensures file == newFile && parsingValid == old(parsingValid) && parsedObject == old(parsedObject)
    {
      file := newFile;
    }

    // ----- Tokens

    method EraseSpaces()
      modifies this
      ensures State() == T.Trimmed(old(State()))
    {
      while file != "" && T.IsSpace(file[0])
        invariant T.EraseSpaces(file) == T.EraseSpaces(old(file))
        invariant parsingValid == old(parsingValid) && parsedObject == old(parsedObject)
        decreases |file|
      {
        file := file[1..];
      }
    }

    method Fail()
      modifies this
      ensures State() == old(State()).Failed()
    {
      parsingValid, parsedObject := false, false;
    }

    method ParseIdentifier() returns (r: string)
      modifies this
      ensures (State(), r) == T.Identifier(old(State()))
    {
      hide T.EraseSpaces, T.IndexOf, T.IsWord;
      EraseSpaces();
      var pos := T.IndexOf(file, " :;,");
      if pos == |file| {
        Fail();
        return "";
      }
      var identifier := file[..pos];
      if !T.IsWord(identifier) {
        Fail();
        return "";
      }
      file := file[pos..];
      parsingValid, parsedObject := true, true;
      r := identifier;
    }

    method ParseString() returns (r: string)
      modifies this
      ensures (State(), r) == T.Quoted(old(State()))
    {
      hide T.EraseSpaces, T.IndexOf;
      EraseSpaces();
      if file == "" || file[0] != '"' {
        Fail();
        return "";
      }
      file := file[1..];
      var pos := T.IndexOf(file, "\"");
      if pos == |file| {
        Fail();
        return "";
      }
      r := file[..pos];
      file := file[pos + 1..];
      parsingValid, parsedObject := true, true;
    }

    method ParseDouble() returns (r: real)
      modifies this
      ensures (State(), r) == T.Double(old(State()))
    {
      hide T.EraseSpaces, T.IndexOf, T.IsDecimal, T.DecimalValue;
      EraseSpaces();
      var pos := T.IndexOf(file, " :;,|]@)");
      if pos == |file| {
        Fail();
        return 0.0;
      }
      var possibleDouble := file[..pos];
      if !T.IsDecimal(possibleDouble) {
        Fail();
        return 0.0;
      }
      file := file[pos..];
      parsingValid, parsedObject := true, true;
      r := T.DecimalValue(possibleDouble);
    }

    method ParseUInt() returns (r: nat)
      modifies this
      ensures (State(), r) == T.UInt(old(State()))
    {
      hide T.EraseSpaces, T.IndexOf, T.IsDigits, T.DigitsValue;
      EraseSpaces();
      var pos := T.IndexOf(file, " :;,|]+-@)");
      if pos == |file| {
        Fail();
        return 0;
      }
      var possibleInt := file[..pos];
      if !T.IsDigits(possibleInt) {
        Fail();
        return 0;
      }
      file := file[pos..];
      parsingValid, parsedObject := true, true;
      r := DigitsOf(possibleInt);
      if r > T.INT_MAX {
        parsingValid := false;
        r := 0;
      }
    }

    /** The value of a digit string. */
    method DigitsOf(s: string) returns (r: nat)
      requires T.IsDigits(s)
      ensures r == T.DigitsValue(s)
    {
      r := 0;
      for i := 0 to |s|
        invariant r == T.DigitsValue(s[..i])
      {
        assert s[..i + 1][..i] == s[..i];
        r := 10 * r + (s[i] as int - '0' as int);
      }
      assert s[..|s|] == s;
    }

    method TruncateToNextSemicolon() returns (ok: bool)
      modifies this
      ensures ok == (T.IndexOf(old(file), ";") < |old(file)|)
      ensures State() == if ok then T.St(old(file)[T.IndexOf(old(file), ";") + 1..], old(parsingValid), true)
                         else T.St(old(file), false, false)
    {
      var pos := T.IndexOf(file, ";");
      if pos == |file| {
        Fail();
        return false;
      }
      file := file[pos + 1..];
      parsedObject := true;
      ok := true;
    }

    /** eraseSpaces and a test for the keyword, which is consumed if it is there. */
    method Accept(keyword: string) returns (ok: bool)
      modifies this
      ensures ok == T.Ahead(old(State()), keyword)
      ensures State() == if ok then T.After(old(State()), keyword) else T.Trimmed(old(State()))
    {
      hide T.EraseSpaces;
      EraseSpaces();
      ok := keyword <= file;
      if ok {
        file := file[|keyword|..];
      }
    }

    /** A mandatory character. */
    method Expect(c: string) returns (ok: bool)
      requires c != ""
      modifies this
      ensures ok == T.Expect(old(State()), c).Go? && State() == T.Expect(old(State()), c).st
    {
      ok := Accept(c);
      if !ok {
        Fail();
      }
    }

    // ----- Sections that are skipped

    method ParseSection(keyword: string) returns (ok: bool)
      requires keyword != ""
      modifies this
      ensures (State(), ok) == T.Section(old(State()), keyword)
    {
      hide T.EraseSpaces, T.IndexOf;
      EraseSpaces();
      if !(keyword <= file) {
        parsedObject := false;
        return false;
      }
      parsedObject := true;
      ok := TruncateToNextSemicolon();
    }

    /** `while (parse...()) { if invalid return }`; false when the parser is to return. */
    method ParseSections(keyword: string) returns (ok: bool)
      requires keyword != ""
      modifies this
      ensures ok == T.Sections(old(State()), keyword).Some?
      ensures ok ==> State() == T.Sections(old(State()), keyword).value
    {
      hide T.Section;
      var again := ParseSection(keyword);
      while again
        invariant again ==> T.Sections(old(State()), keyword)
                            == if !State().valid then None else T.Sections(State(), keyword)
        invariant !again ==> T.Sections(old(State()), keyword) == Some(State())
        decreases again, |file|
      {
        if !parsingValid {
          parsedObject := false;
          return false;
        }
        again := ParseSection(keyword);
      }
      ok := true;
    }

    // ----- Signals and messages

    /** An optional M for a multiplexor, or m and a number for a multiplexed signal. */
    method ParseMultiplexing() returns (mux: T.Mux)
      modifies this
      ensures (State(), mux) == T.MuxPart(old(State()))
    {
      hide T.EraseSpaces, T.UInt;
      mux := T.Mux(false, -1);
      EraseSpaces();
      if !(":" <= file) {
        if "M" <= file {
          mux := T.Mux(true, -1);
          file := file[1..];
        } else if "m" <= file {
          file := file[1..];
          var value := ParseUInt();
          mux := T.Mux(false, value);
        }
      }
    }

    /** The position of a signal: start bit, size, byte order and sign. */
    method ParsePosition() returns (ok: bool, position: T.Position)
      modifies this
      ensures ok == T.PositionPart(old(State())).Go?
      ensures State() == T.PositionPart(old(State())).st
      ensures ok ==> position == T.PositionPart(old(State())).value
    {
      hide T.EraseSpaces, T.UInt, T.Expect, T.Ahead, T.After, T.Trimmed;
      position := T.Position(0, 0, 0, false);
      ok := Expect(":");
      if !ok { return; }
      var startBit := ParseUInt();
      ok := Expect("|");
      if !ok { return; }
      var size := ParseUInt();
      ok := Expect("@");
      if !ok { return; }
      var byteOrder := ParseUInt();
      ghost var atSign := State();
      ok := Accept("+");
      if ok {
        position := T.Position(startBit, size, byteOrder, false);
        return;
      }
      TrimTwice(atSign, "-");
      ok := Accept("-");
      if ok {
        position := T.Position(startBit, size, byteOrder, true);
        return;
      }
      Fail();
    }

    /** The scale of a signal: factor, offset and range. */
    method ParseScale() returns (ok: bool, scale: T.Scale)
      modifies this
      ensures ok == T.ScalePart(old(State())).Go?
      ensures State() == T.ScalePart(old(State())).st
      ensures ok ==> scale == T.ScalePart(old(State())).value
    {
      hide T.EraseSpaces, T.Double, T.Expect, T.Ahead, T.After, T.Trimmed;
      scale := T.Scale(0.0, 0.0, 0.0, 0.0);
      ok := Expect("(");
      if !ok { return; }
      var factor := ParseDouble();
      ok := Expect(",");
      if !ok { return; }
      var offset := ParseDouble();
      ok := Expect(")");
      if !ok { return; }
      ok := Expect("[");
      if !ok { return; }
      var minimum := ParseDouble();
      ok := Expect("|");
      if !ok { return; }
      var maximum := ParseDouble();
      ok := Expect("]");
      if !ok { return; }
      scale := T.Scale(factor, offset, minimum, maximum);
    }

    /** Receivers until one is not followed by a comma. */
    method ParseReceivers() returns (receivers: seq<string>)
      modifies this
      ensures (State(), receivers) == T.Receivers(old(State()))
    {
      hide T.Receivers, T.Identifier, T.Ahead, T.After, T.Trimmed, T.IsSuffix;
      receivers := [];
      assert [] + T.Receivers(State()).1 == T.Receivers(State()).1;
      while true
        invariant T.Receivers(old(State())) == (T.Receivers(State()).0, receivers + T.Receivers(State()).1)
        decreases |file|
      {
        NextReceiver(State());
        var receiver := ParseIdentifier();
        if !parsingValid {
          assert receivers + [] == receivers;
          break;
        }
        var more := Accept(",");
        if !more {
          receivers := receivers + [receiver];
          break;
        }
        assert receivers + ([receiver] + T.Receivers(State()).1) == receivers + [receiver] + T.Receivers(State()).1;
        receivers := receivers + [receiver];
      }
    }

    method ParseSignal() returns (signal: Signal)
      modifies this
      ensures (State(), signal) == T.SignalOf(old(State()))
    {
      hide T.Identifier, T.Ahead, T.After, T.Trimmed, T.MuxPart, T.PositionPart, T.ScalePart, T.Quoted, T.Receivers,
           WithPhysicalRange;
      var present := Accept("SG_");
      if !present {
        parsedObject := false;
        return T.NO_SIGNAL;
      }
      var name := ParseIdentifier();
      var mux := ParseMultiplexing();
      var ok, position := ParsePosition();
      if !ok { return T.NO_SIGNAL; }
      var scaled, scale := ParseScale();
      if !scaled { return T.NO_SIGNAL; }
      var unit := ParseString();
      var receivers := ParseReceivers();
      if !parsingValid || position.byteOrder > 1 {
        Fail();
        return T.NO_SIGNAL;
      }
      parsedObject := true;
      signal := Signal(name, mux.multiplexer, mux.switchValue, position.startBit, position.size,
                       position.byteOrder == 0,
                       position.signed, scale.factor, scale.offset, scale.minimum, scale.maximum, unit, receivers);
      signal := CalculatePhysicalRange(signal);
    }

    /** Replaces a range declared as 0|0 by the range of the raw type. */
    method CalculatePhysicalRange(signal: Signal) returns (r: Signal)
      ensures r == WithPhysicalRange(signal)
      ensures r == signal.(minimum := r.minimum, maximum := r.maximum)
      ensures signal.minimum == signal.maximum == 0.0 && signal.size >= 1 && signal.factor > 0.0 ==>
                forall raw :: InRange(r, raw) <==> InRawType(signal, raw)
    {
      if signal.size >= 1 && signal.factor > 0.0 {
        forall raw: int {
          FilledRangeIsExact(signal, raw);
        }
      }
      r := signal;
      if signal.minimum == 0.0 && signal.maximum == 0.0 {
        var rawMax, rawMin := RawMaximum(signal), RawMinimum(signal);
        r := r.(minimum := rawMin as real * signal.factor + signal.offset,
                maximum := rawMax as real * signal.factor + signal.offset);
      }
    }

    method ParseMessage() returns (message: Message)
      modifies this
      ensures (State(), message) == T.MessageOf(old(State()))
    {
      hide T.Identifier, T.EraseSpaces, T.SignalsOf, T.UInt, T.Expect;
      message := T.NO_MESSAGE;
      EraseSpaces();
      if !("BO_" <= file) || "BO_TX_BU_" <= file {
        parsedObject := false;
        return;
      }
      file := file[3..];
      ghost var start := State();
      var ok, head := ParseMessageHead();
      if !ok { return; }
      var signals := ParseSignals();
      if !parsingValid {
        parsedObject := false;
        return;
      }
      parsedObject := true;
      message := head.(signals := signals);
    }

    /** A message up to its signals: identifier, name, size and transmitter. */
    method ParseMessageHead() returns (ok: bool, head: Message)
      modifies this
      ensures ok == T.MessageHead(old(State())).Go?
      ensures State() == T.MessageHead(old(State())).st
      ensures ok ==> head == T.MessageHead(old(State())).value
    {
      hide T.Identifier, T.EraseSpaces, T.UInt, T.Expect;
      ok, head := false, T.NO_MESSAGE;
      var messageId := ParseUInt();
      if !parsingValid {
        parsedObject := false;
        return;
      }
      var messageName := ParseIdentifier();
      if !parsingValid {
        parsedObject := false;
        return;
      }
      var colon := Expect(":");
      if !colon { return; }
      var messageSize := ParseUInt();
      if !parsingValid {
        parsedObject := false;
        return;
      }
      var transmitter := ParseIdentifier();
      if !parsingValid {
        parsedObject := false;
        return;
      }
      ok, head := true, Message(messageId, messageName, messageSize, transmitter, []);
    }

    /** The loop over the signals of a message. */
    method ParseSignals() returns (signals: seq<Signal>)
      modifies this
      ensures (State(), signals) == T.SignalsOf(old(State()))
    {
      hide T.SignalOf, T.IsSuffix;
      signals := [];
      assert [] + T.SignalsOf(State()).1 == T.SignalsOf(State()).1;
      while true
        invariant T.SignalsOf(old(State())) == (T.SignalsOf(State()).0, signals + T.SignalsOf(State()).1)
        decreases |file|
      {
        var signal := ParseSignal();
        if !parsedObject {
          assert signals + [] == signals;
          break;
        }
        assert signals + ([signal] + T.SignalsOf(State()).1) == signals + [signal] + T.SignalsOf(State()).1;
        signals := signals + [signal];
      }
    }

    /** The loop over the messages; false when the parser is to return. */
    method ParseMessages() returns (ok: bool, messages: seq<Message>)
      modifies this
      ensures ok == T.Messages(old(State())).Some?
      ensures ok ==> (State(), messages) == T.Messages(old(State())).value
    {
      hide T.MessageOf, T.IsSuffix;
      messages := [];
      if T.Messages(State()).Some? { assert [] + T.Messages(State()).value.1 == T.Messages(State()).value.1; }
      while true
        invariant T.Messages(old(State())).Some? == T.Messages(State()).Some?
        invariant T.Messages(State()).Some? ==>
                    T.Messages(old(State())).value
                        == (T.Messages(State()).value.0, messages + T.Messages(State()).value.1)
        decreases |file|
      {
        var message := ParseMessage();
        if !parsedObject {
          if !parsingValid {
            return false, messages;
          }
          assert messages + [] == messages;
          return true, messages;
        }
        if T.Messages(State()).Some? {
          assert messages + ([message] + T.Messages(State()).value.1)
                 == messages + [message] + T.Messages(State()).value.1;
        }
        messages := messages + [message];
      }
    }

    // ----- The other sections

    method ParseVersion() returns (version: string)
      modifies this
      ensures (State(), version) == T.Version(old(State()))
    {
      hide T.EraseSpaces, T.Quoted;
      var present := Accept("VERSION");
      if !present {
        parsedObject := false;
        return "";
      }
      parsedObject := true;
      ghost var st := State();
      version := ParseString();
      QuotedIgnoresParsed(T.After(old(State()), "VERSION"), st);
    }

    method ParseNewSymbols()
      modifies this
      ensures State() == T.NewSymbols(old(State()))
    {
      hide T.EraseSpaces, T.Identifier, T.Ahead, T.After, T.Trimmed, T.SymbolLoop;
      var present := Accept("NS_");
      if !present {
        parsedObject := false;
        return;
      }
      var colon := Accept(":");
      if !colon {
        Fail();
        return;
      }
      ParseSymbols();
    }

    /** Words until one is followed by a colon, which is pushed back. */
    method ParseSymbols()
      modifies this
      ensures State() == T.SymbolLoop(old(State()))
    {
      hide T.Identifier, T.EraseSpaces, T.IsSuffix, T.IsWord;
      while true
        invariant T.SymbolLoop(old(State())) == T.SymbolLoop(State())
        decreases |file|
      {
        var symbol := ParseIdentifier();
        if !parsingValid {
          parsedObject := false;
          return;
        }
        if ":" <= file {
          file := symbol + file;
          break;
        }
      }
    }

    method ParseBitTiming()
      modifies this
      ensures State() == T.BitTiming(old(State()))
    {
      hide T.EraseSpaces, T.UInt, T.Ahead, T.After, T.IsSuffix;
      var present := Accept("BS_:");
      if !present {
        Fail();
        return;
      }
      EraseSpaces();
      if "BU_" <= file {
        parsingValid, parsedObject := true, true;
        return;
      }
      var _ := ParseUInt();
      if !parsingValid {
        parsingValid, parsedObject := true, false;
        return;
      }
      var colon := Accept(":");
      if !colon {
        Fail();
        return;
      }
      ghost var afterColon := State();
      EraseSpaces();
      UIntIgnoresSpaces(afterColon);
      var _ := ParseUInt();
      var comma := Accept(",");
      if !comma {
        Fail();
        return;
      }
      parsedObject := true;
      var _ := ParseUInt();
    }

    method ParseNodes() returns (nodes: seq<string>)
      modifies this
      ensures (State(), nodes) == T.Nodes(old(State()))
    {
      hide T.EraseSpaces, T.NodeLoop, T.Ahead, T.After, T.Trimmed;
      var present := Accept("BU_:");
      if !present {
        Fail();
        return [];
      }
      nodes := ParseNodeNames();
    }

    /** Names until a section keyword, which is pushed back. */
    method ParseNodeNames() returns (nodes: seq<string>)
      modifies this
      ensures (State(), nodes) == T.NodeLoop(old(State()))
    {
      hide T.Identifier, T.SYMBOLS, T.NodeLoop, T.IsSuffix, T.IsWord, T.EraseSpaces;
      nodes := [];
      assert [] + T.NodeLoop(State()).1 == T.NodeLoop(State()).1;
      while true
        invariant T.NodeLoop(old(State())).0 == T.NodeLoop(State()).0
        invariant T.NodeLoop(State()).0.valid ==> T.NodeLoop(old(State())).1 == nodes + T.NodeLoop(State()).1
        invariant !T.NodeLoop(State()).0.valid ==> T.NodeLoop(old(State())).1 == []
        decreases |file|
      {
        ghost var st := State();
        NextNode(st);
        var node := ParseIdentifier();
        if !parsingValid {
          parsedObject := false;
          return [];
        }
        if node in T.SYMBOLS {
          file := node + file;
          assert nodes + [] == nodes;
          break;
        }
        assert nodes + ([node] + T.NodeLoop(State()).1) == nodes + [node] + T.NodeLoop(State()).1;
        nodes := nodes + [node];
      }
    }

    /** The part of a comment that names what is commented. */
    method ParseCommentSubject() returns (subject: string)
      modifies this
      ensures (State(), subject) == T.CommentSubject(old(State()))
    {
      hide T.EraseSpaces, T.UInt, T.Identifier, T.Decimal, T.IsSuffix;
      EraseSpaces();
      subject := "";
      if "BU_" <= file {
        file := file[3..];
        var name := ParseIdentifier();
        subject := "Node: " + name + " ";
      } else if "BO_" <= file {
        file := file[3..];
        var id := ParseUInt();
        subject := "Message: " + T.Decimal(id) + " ";
      } else if "SG_" <= file {
        file := file[3..];
        var id := ParseUInt();
        var name := ParseIdentifier();
        subject := "Signal: " + T.Decimal(id) + " " + name + " ";
      } else if "EV_" <= file {
        file := file[3..];
        var name := ParseIdentifier();
        subject := "Environment variable: " + name + " ";
      }
    }

    method ParseComment() returns (comment: string)
      modifies this
      ensures (State(), comment) == T.Comment(old(State()))
    {
      hide T.EraseSpaces, T.CommentSubject, T.Quoted, T.Ahead, T.After, T.Trimmed;
      var present := Accept("CM_");
      if !present {
        parsedObject := false;
        return "";
      }
      var subject := ParseCommentSubject();
      var text := ParseString();
      if !parsingValid {
        parsedObject := false;
        return "";
      }
      var semicolon := Accept(";");
      if !semicolon {
        Fail();
        return "";
      }
      parsedObject := true;
      comment := subject + text;
    }

    /** The loops over comments; false when the parser is to return. */
    method ParseComments() returns (ok: bool, comments: seq<string>)
      modifies this
      ensures ok == T.Comments(old(State())).Some?
      ensures ok ==> (State(), comments) == T.Comments(old(State())).value
    {
      hide T.Comment, T.IsSuffix;
      comments := [];
      if T.Comments(State()).Some? { assert [] + T.Comments(State()).value.1 == T.Comments(State()).value.1; }
      while true
        invariant T.Comments(old(State())).Some? == T.Comments(State()).Some?
        invariant T.Comments(State()).Some? ==>
                    T.Comments(old(State())).value
                        == (T.Comments(State()).value.0, comments + T.Comments(State()).value.1)
        decreases |file|
      {
        var comment := ParseComment();
        if !parsedObject {
          if !parsingValid {
            return false, comments;
          }
          assert comments + [] == comments;
          return true, comments;
        }
        if T.Comments(State()).Some? {
          assert comments + ([comment] + T.Comments(State()).value.1)
                 == comments + [comment] + T.Comments(State()).value.1;
        }
        comments := comments + [comment];
      }
    }

    /** Pairs of number and meaning up to a semicolon. */
    method ParseValueDescriptions() returns (values: seq<T.ValueDescription>)
      modifies this
      ensures State() == T.ValueLoop(old(State())).0
      ensures parsingValid ==> values == T.ValueLoop(old(State())).1
    {
      hide T.Double, T.Quoted, T.EraseSpaces, T.ValueLoop, T.IsSuffix, T.Ahead, T.After;
      values := [];
      assert [] + T.ValueLoop(State()).1 == T.ValueLoop(State()).1;
      while true
        invariant T.ValueLoop(old(State())).0 == T.ValueLoop(State()).0
        invariant T.ValueLoop(State()).0.valid ==> T.ValueLoop(old(State())).1 == values + T.ValueLoop(State()).1
        decreases |file|
      {
        NextValue(State());
        var done := Accept(";");
        if done {
          assert values + [] == values;
          break;
        }
        var value := ParseDouble();
        var meaning := ParseString();
        if !parsingValid {
          parsedObject := false;
          break;
        }
        assert values + ([T.ValueDescription(value, meaning)] + T.ValueLoop(State()).1)
            == values + [T.ValueDescription(value, meaning)] + T.ValueLoop(State()).1;
        values := values + [T.ValueDescription(value, meaning)];
      }
    }

    method ParseSignalValue() returns (description: T.SignalValueDescription)
      modifies this
      ensures (State(), description) == T.SignalValues(old(State()))
    {
      hide T.EraseSpaces, T.UInt, T.Identifier, T.ValueLoop, T.Ahead, T.After, T.Trimmed;
      var present := Accept("VAL_");
      if !present {
        parsedObject := false;
        return T.NO_VALUES;
      }
      var messageId := ParseUInt();
      var signalName := ParseIdentifier();
      var values := ParseValueDescriptions();
      if !parsingValid {
        parsedObject := false;
        return T.NO_VALUES;
      }
      parsedObject := true;
      description := T.SignalValueDescription(messageId, signalName, values);
    }

    /** The loop over value descriptions; false when the parser is to return. */
    method ParseSignalValues() returns (ok: bool, values: seq<T.SignalValueDescription>)
      modifies this
      ensures ok == T.AllSignalValues(old(State())).Some?
      ensures ok ==> (State(), values) == T.AllSignalValues(old(State())).value
    {
      hide T.SignalValues, T.IsSuffix;
      values := [];
      if T.AllSignalValues(State()).Some? {
        assert [] + T.AllSignalValues(State()).value.1 == T.AllSignalValues(State()).value.1;
      }
      while true
        invariant T.AllSignalValues(old(State())).Some? == T.AllSignalValues(State()).Some?
        invariant T.AllSignalValues(State()).Some? ==>
                    T.AllSignalValues(old(State())).value
                    == (T.AllSignalValues(State()).value.0, values + T.AllSignalValues(State()).value.1)
        decreases |file|
      {
        var value := ParseSignalValue();
        if !parsedObject {
          if !parsingValid {
            return false, values;
          }
          assert values + [] == values;
          return true, values;
        }
        if T.AllSignalValues(State()).Some? {
          assert values + ([value] + T.AllSignalValues(State()).value.1)
                 == values + [value] + T.AllSignalValues(State()).value.1;
        }
        values := values + [value];
      }
    }

    // ----- The file

    /** Everything up to and including the messages. */
    method ParseFront() returns (ok: bool, version: string, nodes: seq<string>, messages: seq<Message>)
      requires parsingValid && parsedObject
      modifies this
      ensures ok == FrontOf(old(file)).Some?
      ensures ok ==> FrontOf(old(file)).value == Front(State(), version, nodes, messages)
    {
      hide T.Version, T.NewSymbols, T.BitTiming, T.Nodes, T.Sections, T.Messages, T.IsSuffix;
      ok, nodes, messages := false, [], [];
      version := ParseVersion();
      ParseNewSymbols();
      if !parsingValid { return; }
      ParseBitTiming();
      if !parsingValid { return; }
      nodes := ParseNodes();
      if !parsingValid { return; }
      var tables := ParseSections("VAL_TABLE_");
      if !tables { return; }
      ok, messages := ParseMessages();
    }

    /** Everything after the messages. */
    method ParseBack() returns (ok: bool, comments: seq<string>, values: seq<T.SignalValueDescription>)
      modifies this
      ensures ok == BackOf(old(State())).Some?
      ensures ok ==> BackOf(old(State())).value == Back(State(), comments, values)
    {
      hide AfterMessages, Attributes, Tail, T.Comments, T.AllSignalValues;
      ok, comments, values := false, [], [];
      var go := ParseAfterMessages();
      if !go { return; }
      go, comments := ParseComments();
      if !go { return; }
      go := ParseAttributes();
      if !go { return; }
      var moreComments;
      go, moreComments := ParseComments();
      if !go { return; }
      comments := comments + moreComments;
      go, values := ParseSignalValues();
      if !go { return; }
      ok := ParseTail();
    }

    method ParseAfterMessages() returns (ok: bool)
      modifies this
      ensures ok == AfterMessages(old(State())).Some?
      ensures ok ==> State() == AfterMessages(old(State())).value
    {
      hide T.Sections, T.Section, T.IsSuffix;
      ok := ParseSections("BO_TX_BU_");
      if !ok { return; }
      ok := ParseSections("EV_");
      if !ok { return; }
      var _ := ParseSection("ENVVAR_DATA_");
      if !parsingValid { return false; }
      ok := ParseSections("SGTYPE_");
    }

    method ParseAttributes() returns (ok: bool)
      modifies this
      ensures ok == Attributes(old(State())).Some?
      ensures ok ==> State() == Attributes(old(State())).value
    {
      hide T.Sections;
      ok := ParseSections("BA_DEF_");
      if !ok { return; }
      ok := ParseSections("BA_DEF_DEF_");
      if !ok { return; }
      ok := ParseSections("BA_");
    }

    method ParseTail() returns (ok: bool)
      modifies this
      ensures ok == Tail(old(State())).Some?
      ensures ok ==> State() == Tail(old(State())).value
    {
      hide T.Sections, T.Section, T.EraseSpaces;
      ok := ParseSections("SGTYPE_");
      if !ok { return; }
      var _ := ParseSection("SIG_GROUP_");
      if !parsingValid { return false; }
      var _ := ParseSection("SIG_VALTYPE_");
      if !parsingValid { return false; }
      EraseSpaces();
    }

    /** Terminates on every text; a configuration means that the whole text was consumed. */
    method ParseDbc() returns (config: Option<DbcConfig>)
      modifies this
      ensures config == ConfigOf(old(file))
      ensures config.Some? ==> file == ""
    {
      hide FrontOf, BackOf;
      parsingValid, parsedObject := true, true;
      var ok, version, nodes, messages := ParseFront();
      if !ok { return None; }
      var complete, comments, values := ParseBack();
      if !complete || file != "" { return None; }
      config := Some(DbcConfig(nodes, messages, values, comments, version));
    }
  }

  lemma QuotedIgnoresParsed(a: T.St, b: T.St)
    requires a.file == b.file
    ensures T.Quoted(a) == T.Quoted(b)
  {
  }

  lemma UIntIgnoresSpaces(st: T.St)
    ensures T.UInt(T.Trimmed(st)) == T.UInt(st)
  {
    hide T.IndexOf, T.IsDigits, T.DigitsValue;
  }

  lemma NextNode(st: T.St)
    ensures var (t, node) := T.Identifier(st);
            T.NodeLoop(st) == if !t.valid then (t.Failed(), [])
                              else if node in T.SYMBOLS then (T.St(node + t.file, true, true), [])
                              else if !T.NodeLoop(t).0.valid then (T.NodeLoop(t).0, [])
                              else (T.NodeLoop(t).0, [node] + T.NodeLoop(t).1)
  {
    hide T.Identifier, T.SYMBOLS;
  }

  lemma NextValue(st: T.St)
    ensures T.Ahead(st, ";") ==> T.ValueLoop(st) == (T.After(st, ";"), [])
    ensures !T.Ahead(st, ";") ==>
              var (s1, value) := T.Double(T.Trimmed(st));
              var (s2, meaning) := T.Quoted(s1);
              T.ValueLoop(st) == if !s2.valid then (s2.Failed(), [])
                                 else (T.ValueLoop(s2).0, [T.ValueDescription(value, meaning)] + T.ValueLoop(s2).1)
    ensures !T.Ahead(st, ";") ==>
              var s2 := T.Quoted(T.Double(T.Trimmed(st)).0).0;
              s2.valid ==> |s2.file| < |st.file|
  {
    hide T.Double, T.Quoted, T.Ahead, T.After;
  }

  lemma NextReceiver(st: T.St)
    ensures var (t, receiver) := T.Identifier(st);
            T.Receivers(st) == if !t.valid then (t, [])
                               else if T.Ahead(t, ",") then
                                 (T.Receivers(T.After(t, ",")).0, [receiver] + T.Receivers(T.After(t, ",")).1)
                               else (T.Trimmed(t), [receiver])
    ensures T.Identifier(st).0.valid && T.Ahead(T.Identifier(st).0, ",") ==>
              |T.After(T.Identifier(st).0, ",").file| < |st.file|
  {
    hide T.Identifier, T.After, T.Ahead, T.Trimmed;
  }

  lemma TrimTwice(st: T.St, c: string)
    ensures T.Ahead(T.Trimmed(st), c) == T.Ahead(st, c)
    ensures T.Ahead(st, c) ==> T.After(T.Trimmed(st), c) == T.After(st, c)
    ensures T.Trimmed(T.Trimmed(st)) == T.Trimmed(st)
  {
  }
}
