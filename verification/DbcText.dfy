/**
 What each production of the DBC parser makes of the text in front of it
 (src/can_handler/dbc_handler/dbc_parser.cpp).

 The parser's state is the remaining text and two flags.  `valid` is the code's parsingValid and
 `parsed` its parsedObject.  A token that is read successfully sets both, even after an earlier
 failure.
 */
module DbcText {
  import opened CanTypes
  import opened PhysicalRange

  datatype St = St(file: string, valid: bool, parsed: bool) {
    /** The state after a production gave up on the text. */
    function Failed(): St {
      St(file, false, false)
    }

    function Absent(): St {
      St(file, valid, false)
    }
  }

  /** `a` is what is left of `b` after removing a prefix. */
  predicate IsSuffix(a: string, b: string) {
    |a| <= |b| && b[|b| - |a|..] == a
  }

  lemma SuffixTransitive(a: string, b: string, c: string)
    requires IsSuffix(a, b) && IsSuffix(b, c)
    ensures IsSuffix(a, c)
  {
    assert c[|c| - |b|..][|b| - |a|..] == c[|c| - |a|..];
  }

  lemma DropSuffix(s: string, n: nat)
    requires n <= |s|
    ensures IsSuffix(s[n..], s)
  {
  }

  // ----- Characters and tokens

  predicate IsSpace(c: char) {
    c == ' ' || '\t' <= c <= '\r'
  }

  predicate IsDigit(c: char) {
    '0' <= c <= '9'
  }

  predicate IsWordChar(c: char) {
    'a' <= c <= 'z' || 'A' <= c <= 'Z' || IsDigit(c) || c == '_'
  }

  /** \w+ */
  predicate IsWord(s: string) {
    s != "" && forall i | 0 <= i < |s| :: IsWordChar(s[i])
  }

  /** \d+ */
  predicate IsDigits(s: string) {
    s != "" && forall i | 0 <= i < |s| :: IsDigit(s[i])
  }

  function Unsigned(s: string): string {
    if s != "" && (s[0] == '+' || s[0] == '-') then s[1..] else s
  }

  /** (\+|-)?\d+(\.\d+)? */
  predicate IsDecimal(s: string) {
    var u := Unsigned(s);
    var dot := IndexOf(u, ".");
    if dot == |u| then IsDigits(u) else IsDigits(u[..dot]) && IsDigits(u[dot + 1..])
  }

  /** The position of the first character that is in `stops`, or the length. */
  function IndexOf(s: string, stops: string): (n: nat)
    ensures n <= |s|
    ensures forall i | 0 <= i < n :: s[i] !in stops
    ensures n < |s| ==> s[n] in stops
  {
    if s == "" || s[0] in stops then 0 else 1 + IndexOf(s[1..], stops)
  }

  function EraseSpaces(s: string): (r: string)
    ensures IsSuffix(r, s)
    ensures r == "" || !IsSpace(r[0])
  {
    hide IsSuffix;
    if s != "" && IsSpace(s[0]) then
      DropSuffix(s, 1);
      SuffixTransitive(EraseSpaces(s[1..]), s[1..], s);
      EraseSpaces(s[1..])
    else DropSuffix(s, 0); assert s[0..] == s; s
  }

  function DigitsValue(s: string): nat
    requires forall i | 0 <= i < |s| :: IsDigit(s[i])
  {
    if s == "" then 0
    else
      var last := s[|s| - 1];
      assert IsDigit(last);
      10 * DigitsValue(s[..|s| - 1]) + (last as int - '0' as int)
  }

  function Pow10(n: nat): (r: real)
    ensures r > 0.0
  {
    if n == 0 then 1.0 else 10.0 * Pow10(n - 1)
  }

  /** The number that strtod reads, as an exact real. */
  function DecimalValue(s: string): real
    requires IsDecimal(s)
  {
    var u := Unsigned(s);
    var dot := IndexOf(u, ".");
    var whole := DigitsValue(u[..dot]) as real;
    var v := if dot == |u| then whole else whole + DigitsValue(u[dot + 1..]) as real / Pow10(|u| - dot - 1);
    if s[0] == '-' then -v else v
  }

  const INT_MAX: nat := 0x7FFF_FFFF

  /** parseCIdentifier */
  function Identifier(st: St): (r: (St, string))
    ensures IsSuffix(r.0.file, st.file)
    ensures r.0.valid ==> r.0.parsed && IsWord(r.1) && r.1 + r.0.file == EraseSpaces(st.file) && |r.0.file| < |st.file|
    ensures !r.0.valid ==> r.0 == St(EraseSpaces(st.file), false, false)
  {
    var f := EraseSpaces(st.file);
    var pos := IndexOf(f, " :;,");
    if pos == |f| || !IsWord(f[..pos]) then (St(f, false, false), "")
    else SuffixTransitive(f[pos..], f, st.file); (St(f[pos..], true, true), f[..pos])
  }

  /** parseUInt: a number beyond int clears `valid` but is consumed. */
  function UInt(st: St): (r: (St, nat))
    ensures IsSuffix(r.0.file, st.file)
    ensures r.0.valid ==> |r.0.file| < |st.file|
  {
    var f := EraseSpaces(st.file);
    var pos := IndexOf(f, " :;,|]+-@)");
    if pos == |f| || !IsDigits(f[..pos]) then (St(f, false, false), 0)
    else
      SuffixTransitive(f[pos..], f, st.file);
      var v := DigitsValue(f[..pos]);
      if v <= INT_MAX then (St(f[pos..], true, true), v) else (St(f[pos..], false, true), 0)
  }

  lemma DecimalIsNotEmpty(s: string)
    requires IsDecimal(s)
    ensures s != ""
  {
    hide IndexOf;
  }

  lemma ShorterSuffix(f: string, pos: nat, file: string)
    requires IsSuffix(f, file) && pos <= |f|
    ensures IsSuffix(f[pos..], file) && (pos > 0 ==> |f[pos..]| < |file|)
  {
    SuffixTransitive(f[pos..], f, file);
  }

  /** parseDouble */
  function Double(st: St): (r: (St, real))
    ensures IsSuffix(r.0.file, st.file)
    ensures r.0.valid ==> |r.0.file| < |st.file|
  {
    hide IsSuffix, IsDecimal, DecimalValue;
    var f := EraseSpaces(st.file);
    var pos := IndexOf(f, " :;,|]@)");
    if pos == |f| || !IsDecimal(f[..pos]) then (St(f, false, false), 0.0)
    else
      DecimalIsNotEmpty(f[..pos]);
      ShorterSuffix(f, pos, st.file);
      (St(f[pos..], true, true), DecimalValue(f[..pos]))
  }

  /** parseString: an opening quote is consumed even if the closing one is missing. */
  function Quoted(st: St): (r: (St, string))
    ensures IsSuffix(r.0.file, st.file)
    ensures r.0.valid ==> |r.0.file| < |st.file|
  {
    hide IsSuffix;
    var f := EraseSpaces(st.file);
    if f == "" || f[0] != '"' then (St(f, false, false), "")
    else
      var g := f[1..];
      DropSuffix(f, 1);
      SuffixTransitive(g, f, st.file);
      var pos := IndexOf(g, "\"");
      if pos == |g| then (St(g, false, false), "")
      else DropSuffix(g, pos + 1); SuffixTransitive(g[pos + 1..], g, st.file); (St(g[pos + 1..], true, true), g[..pos])
  }

  /** Starts the remaining text, leading spaces aside, with the keyword? */
  predicate Ahead(st: St, keyword: string) {
    keyword <= EraseSpaces(st.file)
  }

  /** The state with leading spaces and the keyword removed. */
  function After(st: St, keyword: string): (r: St)
    requires Ahead(st, keyword)
    ensures IsSuffix(r.file, st.file)
    ensures |r.file| + |keyword| <= |st.file|
    ensures r.valid == st.valid
  {
    var f := EraseSpaces(st.file);
    SuffixTransitive(f[|keyword|..], f, st.file);
    St(f[|keyword|..], st.valid, st.parsed)
  }

  function Trimmed(st: St): (r: St)
    ensures IsSuffix(r.file, st.file) && r.valid == st.valid
  {
    St(EraseSpaces(st.file), st.valid, st.parsed)
  }

  // ----- Sections that are skipped up to the next semicolon

  function Section(st: St, keyword: string): (r: (St, bool))
    requires keyword != ""
    ensures IsSuffix(r.0.file, st.file)
    ensures r.1 ==> |r.0.file| < |st.file| && r.0.valid == st.valid
  {
    var f := EraseSpaces(st.file);
    if !(keyword <= f) then (St(f, st.valid, false), false)
    else
      var pos := IndexOf(f, ";");
      if pos == |f| then (St(f, false, false), false)
      else SuffixTransitive(f[pos + 1..], f, st.file); (St(f[pos + 1..], st.valid, true), true)
  }

  /** `while (parse...()) { if invalid return }`: None when the parser returns. */
  function Sections(st: St, keyword: string): (r: Option<St>)
    requires keyword != ""
    ensures r.Some? ==> IsSuffix(r.value.file, st.file)
    decreases |st.file|
  {
    var (t, ok) := Section(st, keyword);
    if !ok then Some(t)
    else if !t.valid then None
    else
      var rest := Sections(t, keyword);
      if rest.Some? then SuffixTransitive(rest.value.file, t.file, st.file); rest else None
  }

  // ----- Signals

  const NO_SIGNAL := Signal("", false, 0, 0, 0, false, false, 0.0, 0.0, 0.0, 0.0, "", [])

  datatype Mux = Mux(multiplexer: bool, switchValue: int)

  /** An optional M for a multiplexor, or m and a number for a multiplexed signal. */
  function MuxPart(st: St): (r: (St, Mux))
    ensures IsSuffix(r.0.file, st.file)
  {
    if Ahead(st, ":") then (Trimmed(st), Mux(false, -1))
    else if Ahead(st, "M") then (After(st, "M"), Mux(true, -1))
    else if Ahead(st, "m") then
      var (t, value) := UInt(After(st, "m"));
      SuffixTransitive(t.file, After(st, "m").file, st.file);
      (t, Mux(false, value))
    else (Trimmed(st), Mux(false, -1))
  }

  /** Receivers until one is not followed by a comma. */
  function Receivers(st: St): (r: (St, seq<string>))
    ensures IsSuffix(r.0.file, st.file)
    decreases |st.file|
  {
    var (t, receiver) := Identifier(st);
    if !t.valid then (t, [])
    else if Ahead(t, ",") then
      var u := After(t, ",");
      var (v, more) := Receivers(u);
      SuffixTransitive(u.file, t.file, st.file);
      SuffixTransitive(v.file, u.file, st.file);
      (v, [receiver] + more)
    else SuffixTransitive(Trimmed(t).file, t.file, st.file); (Trimmed(t), [receiver])
  }

  /** A step of parseSignal: carries on, or gives up in a state. */
  datatype Step<+T> = Go(st: St, value: T) | Stop(st: St) {
    predicate IsFailure() {
      Stop?
    }

    function PropagateFailure<U>(): Step<U>
      requires Stop?
    {
      Stop(st)
    }

    function Extract(): (St, T)
      requires Go?
    {
      (st, value)
    }
  }

  /** Consumes a mandatory character. */
  function Expect(st: St, c: string): (r: Step<()>)
    requires c != ""
    ensures IsSuffix(r.st.file, st.file)
    ensures r.Stop? ==> !r.st.valid && !r.st.parsed
  {
    if Ahead(st, c) then Go(After(st, c), ()) else Stop(Trimmed(st).Failed())
  }

  /** ":" start "|" size "@" order sign. */
  datatype Position = Position(startBit: nat, size: nat, byteOrder: nat, signed: bool)

  function PositionPart(st: St): (r: Step<Position>)
    ensures r.Stop? ==> !r.st.valid && !r.st.parsed
  {
    var (s1, _) :- Expect(st, ":");
    var (s2, startBit) := UInt(s1);
    var (s3, _) :- Expect(s2, "|");
    var (s4, size) := UInt(s3);
    var (s5, _) :- Expect(s4, "@");
    var (s6, byteOrder) := UInt(s5);
    if Ahead(s6, "+") then Go(After(s6, "+"), Position(startBit, size, byteOrder, false))
    else if Ahead(s6, "-") then Go(After(s6, "-"), Position(startBit, size, byteOrder, true))
    else Stop(Trimmed(s6).Failed())
  }

  datatype Scale = Scale(factor: real, offset: real, minimum: real, maximum: real)

  /** "(" factor "," offset ")" "[" minimum "|" maximum "]". */
  function ScalePart(st: St): (r: Step<Scale>)
    ensures r.Stop? ==> !r.st.valid && !r.st.parsed
  {
    var (s1, _) :- Expect(st, "(");
    var (s2, factor) := Double(s1);
    var (s3, _) :- Expect(s2, ",");
    var (s4, offset) := Double(s3);
    var (s5, _) :- Expect(s4, ")");
    var (s6, _) :- Expect(s5, "[");
    var (s7, minimum) := Double(s6);
    var (s8, _) :- Expect(s7, "|");
    var (s9, maximum) := Double(s8);
    var (s10, _) :- Expect(s9, "]");
    Go(s10, Scale(factor, offset, minimum, maximum))
  }

  /** parseSignal behind its keyword. */
  function SignalBody(st: St): (r: Step<Signal>)
    ensures r.Go? ==> r.st.valid && r.st.parsed
  {
    var (s1, name) := Identifier(st);
    var (s2, mux) := MuxPart(s1);
    var (s3, position) :- PositionPart(s2);
    var (s4, scale) :- ScalePart(s3);
    var (s5, unit) := Quoted(s4);
    var (s6, receivers) := Receivers(s5);
    if !s6.valid || position.byteOrder > 1 then Stop(s6.Failed())
    else
      Go(St(s6.file, true, true),
         WithPhysicalRange(
           Signal(name, mux.multiplexer, mux.switchValue, position.startBit, position.size, position.byteOrder == 0,
                  position.signed, scale.factor, scale.offset, scale.minimum, scale.maximum, unit, receivers)))
  }

  lemma PositionSuffix(st: St)
    ensures IsSuffix(PositionPart(st).st.file, st.file)
  {
    hide UInt, Ahead, After, IsSuffix;
    SuffixReflexive(st.file);
    var e1 := Expect(st, ":");
    if e1.Go? {
      var (s2, _) := UInt(e1.st);
      SuffixTransitive(s2.file, e1.st.file, st.file);
      var e2 := Expect(s2, "|");
      SuffixTransitive(e2.st.file, s2.file, st.file);
      if e2.Go? {
        var (s4, _) := UInt(e2.st);
        SuffixTransitive(s4.file, e2.st.file, st.file);
        var e3 := Expect(s4, "@");
        SuffixTransitive(e3.st.file, s4.file, st.file);
        if e3.Go? {
          var (s6, _) := UInt(e3.st);
          SuffixTransitive(s6.file, e3.st.file, st.file);
          SuffixTransitive(Trimmed(s6).file, s6.file, st.file);
          if Ahead(s6, "+") { SuffixTransitive(After(s6, "+").file, s6.file, st.file); }
          if Ahead(s6, "-") { SuffixTransitive(After(s6, "-").file, s6.file, st.file); }
        }
      }
    }
  }

  lemma SuffixIsShorter(a: string, b: string)
    requires IsSuffix(a, b)
    ensures |a| <= |b|
  {
  }

  lemma SuffixReflexive(a: string)
    ensures IsSuffix(a, a)
  {
  }

  /** A number and the character after it. */
  lemma DoubleThen(st: St, whole: string, c: string)
    requires IsSuffix(st.file, whole) && c != ""
    ensures IsSuffix(Expect(Double(st).0, c).st.file, whole)
  {
    hide Double, Expect, IsSuffix;
    SuffixTransitive(Double(st).0.file, st.file, whole);
    SuffixTransitive(Expect(Double(st).0, c).st.file, Double(st).0.file, whole);
  }

  lemma ScaleSuffix(st: St)
    ensures IsSuffix(ScalePart(st).st.file, st.file)
  {
    hide Double, Expect, IsSuffix;
    var e1 := Expect(st, "(");
    if e1.Go? {
      DoubleThen(e1.st, st.file, ",");
      var e2 := Expect(Double(e1.st).0, ",");
      if e2.Go? {
        DoubleThen(e2.st, st.file, ")");
        var e3 := Expect(Double(e2.st).0, ")");
        if e3.Go? {
          var e4 := Expect(e3.st, "[");
          SuffixTransitive(e4.st.file, e3.st.file, st.file);
          if e4.Go? {
            DoubleThen(e4.st, st.file, "|");
            var e5 := Expect(Double(e4.st).0, "|");
            if e5.Go? { DoubleThen(e5.st, st.file, "]"); }
          }
        }
      }
    }
  }

  lemma SignalBodySuffix(st: St)
    ensures IsSuffix(SignalBody(st).st.file, st.file)
  {
    hide Identifier, MuxPart, PositionPart, ScalePart, Quoted, Receivers, IsSuffix, WithPhysicalRange;
    var s1, s2 := Identifier(st).0, MuxPart(Identifier(st).0).0;
    SuffixTransitive(s2.file, s1.file, st.file);
    var p := PositionPart(s2);
    PositionSuffix(s2);
    SuffixTransitive(p.st.file, s2.file, st.file);
    if p.Go? {
      var q := ScalePart(p.st);
      ScaleSuffix(p.st);
      SuffixTransitive(q.st.file, p.st.file, st.file);
      if q.Go? {
        var s5 := Quoted(q.st).0;
        SuffixTransitive(s5.file, q.st.file, st.file);
        SuffixTransitive(Receivers(s5).0.file, s5.file, st.file);
      }
    }
  }

  /** parseSignal */
  function SignalOf(st: St): (r: (St, Signal))
    ensures IsSuffix(r.0.file, st.file)
    ensures r.0.parsed ==> r.0.valid && |r.0.file| < |st.file|
  {
    hide IsSuffix, Ahead, After, SignalBody;
    if !Ahead(st, "SG_") then (Trimmed(st).Absent(), NO_SIGNAL)
    else
      var start := After(st, "SG_");
      var body := SignalBody(start);
      SignalBodySuffix(start);
      SuffixIsShorter(body.st.file, start.file);
      SuffixTransitive(body.st.file, start.file, st.file);
      if body.Go? then (body.st, body.value) else (body.st.Failed(), NO_SIGNAL)
  }

  // ----- Messages

  /** The signals of a message: None when one of them is malformed. */
  function SignalsOf(st: St): (r: (St, seq<Signal>))
    ensures IsSuffix(r.0.file, st.file)
    decreases |st.file|
  {
    var (t, signal) := SignalOf(st);
    if !t.parsed then (t, [])
    else
      var (u, more) := SignalsOf(t);
      SuffixTransitive(u.file, t.file, st.file);
      (u, [signal] + more)
  }

  const NO_MESSAGE := Message(0, "", 0, "", [])

  /** parseMessage behind its keyword, up to the signals. */
  function MessageHead(st: St): (r: Step<Message>)
    ensures r.Stop? ==> !r.st.valid && !r.st.parsed
  {
    var (s1, id) := UInt(st);
    if !s1.valid then Stop(s1.Failed())
    else
      var (s2, name) := Identifier(s1);
      if !s2.valid then Stop(s2.Failed())
      else
        var (s3, _) :- Expect(s2, ":");
        var (s4, size) := UInt(s3);
        if !s4.valid then Stop(s4.Failed())
        else
          var (s5, transmitter) := Identifier(s4);
          if !s5.valid then Stop(s5.Failed()) else Go(s5, Message(id, name, size, transmitter, []))
  }

  lemma MessageHeadSuffix(st: St)
    ensures IsSuffix(MessageHead(st).st.file, st.file)
  {
    hide UInt, Identifier, Expect, IsSuffix;
    var s1 := UInt(st).0;
    var s2 := Identifier(s1).0;
    SuffixTransitive(s2.file, s1.file, st.file);
    var e := Expect(s2, ":");
    SuffixTransitive(e.st.file, s2.file, st.file);
    var s4 := UInt(e.st).0;
    SuffixTransitive(s4.file, e.st.file, st.file);
    SuffixTransitive(Identifier(s4).0.file, s4.file, st.file);
  }

  /** parseMessage */
  function MessageOf(st: St): (r: (St, Message))
    ensures IsSuffix(r.0.file, st.file)
    ensures r.0.parsed ==> r.0.valid && |r.0.file| < |st.file|
  {
    if !Ahead(st, "BO_") || Ahead(st, "BO_TX_BU_") then (Trimmed(st).Absent(), NO_MESSAGE)
    else
      var start := After(st, "BO_");
      var head := MessageHead(start);
      MessageHeadSuffix(start);
      SuffixTransitive(head.st.file, start.file, st.file);
      if head.Stop? then (head.st, NO_MESSAGE)
      else
        var (t, signals) := SignalsOf(head.st);
        SuffixTransitive(t.file, head.st.file, st.file);
        if !t.valid then (t.Failed(), NO_MESSAGE) else (St(t.file, true, true), head.value.(signals := signals))
  }

  function Messages(st: St): (r: Option<(St, seq<Message>)>)
    ensures r.Some? ==> IsSuffix(r.value.0.file, st.file) && r.value.0.valid
    decreases |st.file|
  {
    var (t, message) := MessageOf(st);
    if !t.parsed then if !t.valid then None else Some((t, []))
    else
      var rest := Messages(t);
      if rest.None? then None
      else
        SuffixTransitive(rest.value.0.file, t.file, st.file);
        Some((rest.value.0, [message] + rest.value.1))
  }

  // ----- The other sections

  /** parseVersion */
  function Version(st: St): (r: (St, string))
    ensures IsSuffix(r.0.file, st.file)
  {
    if !Ahead(st, "VERSION") then (Trimmed(st).Absent(), "")
    else
      var t := After(st, "VERSION");
      SuffixTransitive(Quoted(t).0.file, t.file, st.file);
      Quoted(t)
  }

  /** The loop of parseNewSymbols: the identifier before a colon is pushed back. */
  function SymbolLoop(st: St): (r: St)
    ensures IsSuffix(r.file, st.file)
    decreases |st.file|
  {
    var (t, symbol) := Identifier(st);
    if !t.valid then t.Failed()
    else if ":" <= t.file then St(symbol + t.file, true, true)
    else SuffixTransitive(SymbolLoop(t).file, t.file, st.file); SymbolLoop(t)
  }

  /** parseNewSymbols */
  function NewSymbols(st: St): (r: St)
    ensures IsSuffix(r.file, st.file)
  {
    if !Ahead(st, "NS_") then Trimmed(st).Absent()
    else
      var t := After(st, "NS_");
      if !Ahead(t, ":") then SuffixTransitive(Trimmed(t).file, t.file, st.file); Trimmed(t).Failed()
      else
        var u := After(t, ":");
        SuffixTransitive(u.file, t.file, st.file);
        SuffixTransitive(SymbolLoop(u).file, u.file, st.file);
        SymbolLoop(u)
  }

  /** parseBitTiming */
  function BitTiming(st: St): (r: St)
    ensures IsSuffix(r.file, st.file)
  {
    if !Ahead(st, "BS_:") then Trimmed(st).Failed()
    else
      var t := Trimmed(After(st, "BS_:"));
      SuffixTransitive(t.file, After(st, "BS_:").file, st.file);
      if "BU_" <= t.file then St(t.file, true, true)
      else
        var (u, _) := UInt(t);
        SuffixTransitive(u.file, t.file, st.file);
        if !u.valid then St(u.file, true, false)
        else if !Ahead(u, ":") then SuffixTransitive(Trimmed(u).file, u.file, st.file); Trimmed(u).Failed()
        else
          var v := After(u, ":");
          var (w, _) := UInt(v);
          SuffixTransitive(v.file, u.file, st.file);
          SuffixTransitive(w.file, v.file, st.file);
          if !Ahead(w, ",") then SuffixTransitive(Trimmed(w).file, w.file, st.file); Trimmed(w).Failed()
          else
            var x := After(w, ",").(parsed := true);
            SuffixTransitive(x.file, w.file, st.file);
            SuffixTransitive(UInt(x).0.file, x.file, st.file);
            UInt(x).0
  }

  /** The section keywords that end the list of nodes. */
  const SYMBOLS: set<string> := {
    "CM_", "BA_DEF_", "BA_", "VAL_", "CAT_DEF_", "CAT_", "FILTER", "BA_DEF_DEF_", "EV_DATA_", "ENVVAR_DATA_", "SGTYPE_",
    "SGTYPE_VAL_", "BA_DEF_SGTYPE_", "BA_SGTYPE_", "SIG_TYPE_REF_", "VAL_TABLE_", "SIG_GROUP_", "SIG_VALTYPE_",
    "SIGTYPE_VALTYPE_", "BO_TX_BU_", "BA_DEF_REL_", "BA_REL_", "BA_DEF_DEF_REL_", "BU_SG_REL_", "BU_EV_REL_",
    "BU_BO_REL_", "BO_"}

  /** The loop of parseNodes: a section keyword is pushed back. */
  function NodeLoop(st: St): (r: (St, seq<string>))
    ensures IsSuffix(r.0.file, st.file)
    ensures !r.0.valid ==> r.1 == []
    decreases |st.file|
  {
    var (t, node) := Identifier(st);
    if !t.valid then (t.Failed(), [])
    else if node in SYMBOLS then (St(node + t.file, true, true), [])
    else
      var (u, more) := NodeLoop(t);
      SuffixTransitive(u.file, t.file, st.file);
      if !u.valid then (u, []) else (u, [node] + more)
  }

  /** parseNodes */
  function Nodes(st: St): (r: (St, seq<string>))
    ensures IsSuffix(r.0.file, st.file)
  {
    if !Ahead(st, "BU_:") then (Trimmed(st).Failed(), [])
    else
      var t := After(st, "BU_:");
      SuffixTransitive(NodeLoop(t).0.file, t.file, st.file);
      NodeLoop(t)
  }

  /** std::to_string */
  function Decimal(n: nat): (r: string)
    ensures IsDigits(r)
  {
    if n < 10 then [('0' as int + n) as char] else Decimal(n / 10) + [('0' as int + n % 10) as char]
  }

  /** The part of a comment that names what is commented; numbers and names may fail to parse. */
  function CommentSubject(st: St): (r: (St, string))
    ensures IsSuffix(r.0.file, st.file)
  {
    if Ahead(st, "BU_") then
      var (t, name) := Identifier(After(st, "BU_"));
      SuffixTransitive(t.file, After(st, "BU_").file, st.file);
      (t, "Node: " + name + " ")
    else if Ahead(st, "BO_") then
      var (t, id) := UInt(After(st, "BO_"));
      SuffixTransitive(t.file, After(st, "BO_").file, st.file);
      (t, "Message: " + Decimal(id) + " ")
    else if Ahead(st, "SG_") then
      var (t, id) := UInt(After(st, "SG_"));
      var (u, name) := Identifier(t);
      SuffixTransitive(t.file, After(st, "SG_").file, st.file);
      SuffixTransitive(u.file, t.file, st.file);
      (u, "Signal: " + Decimal(id) + " " + name + " ")
    else if Ahead(st, "EV_") then
      var (t, name) := Identifier(After(st, "EV_"));
      SuffixTransitive(t.file, After(st, "EV_").file, st.file);
      (t, "Environment variable: " + name + " ")
    else (Trimmed(st), "")
  }

  /** parseComment */
  function Comment(st: St): (r: (St, string))
    ensures IsSuffix(r.0.file, st.file)
    ensures r.0.parsed ==> r.0.valid && |r.0.file| < |st.file|
  {
    if !Ahead(st, "CM_") then (Trimmed(st).Absent(), "")
    else
      var s0 := After(st, "CM_");
      var (s1, subject) := CommentSubject(s0);
      var (s2, text) := Quoted(s1);
      SuffixTransitive(s1.file, s0.file, st.file);
      SuffixTransitive(s2.file, s1.file, st.file);
      if !s2.valid then (s2.Failed(), "")
      else if !Ahead(s2, ";") then SuffixTransitive(Trimmed(s2).file, s2.file, st.file); (Trimmed(s2).Failed(), "")
      else SuffixTransitive(After(s2, ";").file, s2.file, st.file); (After(s2, ";").(parsed := true), subject + text)
  }

  function Comments(st: St): (r: Option<(St, seq<string>)>)
    ensures r.Some? ==> IsSuffix(r.value.0.file, st.file)
    decreases |st.file|
  {
    var (t, comment) := Comment(st);
    if !t.parsed then if !t.valid then None else Some((t, []))
    else
      var rest := Comments(t);
      if rest.None? then None
      else
        SuffixTransitive(rest.value.0.file, t.file, st.file);
        Some((rest.value.0, [comment] + rest.value.1))
  }

  datatype ValueDescription = ValueDescription(value: real, meaning: string)
  datatype SignalValueDescription = SignalValueDescription(
    messageId: nat, signalName: string, values: seq<ValueDescription>)

  const NO_VALUES := SignalValueDescription(0, "", [])

  /** The loop of parseSignalValue; a number that is missing in front of a text counts as 0. */
  function ValueLoop(st: St): (r: (St, seq<ValueDescription>))
    ensures IsSuffix(r.0.file, st.file)
    decreases |st.file|
  {
    if Ahead(st, ";") then (After(st, ";"), [])
    else
      var (s1, value) := Double(Trimmed(st));
      var (s2, meaning) := Quoted(s1);
      SuffixTransitive(s1.file, Trimmed(st).file, st.file);
      SuffixTransitive(s2.file, s1.file, st.file);
      if !s2.valid then (s2.Failed(), [])
      else
        var (t, more) := ValueLoop(s2);
        SuffixTransitive(t.file, s2.file, st.file);
        (t, [ValueDescription(value, meaning)] + more)
  }

  /** parseSignalValue */
  function SignalValues(st: St): (r: (St, SignalValueDescription))
    ensures IsSuffix(r.0.file, st.file)
    ensures r.0.parsed ==> r.0.valid && |r.0.file| < |st.file|
  {
    if !Ahead(st, "VAL_") then (Trimmed(st).Absent(), NO_VALUES)
    else
      var s0 := After(st, "VAL_");
      var (s1, id) := UInt(s0);
      var (s2, name) := Identifier(s1);
      var (s3, values) := ValueLoop(s2);
      SuffixTransitive(s1.file, s0.file, st.file);
      SuffixTransitive(s2.file, s1.file, st.file);
      SuffixTransitive(s3.file, s2.file, st.file);
      if !s3.valid then (s3.Failed(), NO_VALUES) else (s3.(parsed := true), SignalValueDescription(id, name, values))
  }

  function AllSignalValues(st: St): (r: Option<(St, seq<SignalValueDescription>)>)
    ensures r.Some? ==> IsSuffix(r.value.0.file, st.file)
    decreases |st.file|
  {
    var (t, values) := SignalValues(st);
    if !t.parsed then if !t.valid then None else Some((t, []))
    else
      var rest := AllSignalValues(t);
      if rest.None? then None
      else
        SuffixTransitive(rest.value.0.file, t.file, st.file);
        Some((rest.value.0, [values] + rest.value.1))
  }
}
