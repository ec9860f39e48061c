/** Canonical DBC text, and the proof that the parser reads it back. */
module DbcPrinter {
  import opened CanTypes
  import opened PhysicalRange
  import opened DbcText
  import opened DbcParser

  // ----- The printer.  Each function prints in front of the text `rest`.

  datatype DecimalText = DecimalText(sign: string, whole: string, fraction: string)

  predicate IsDecimalText(d: DecimalText) {
    (d.sign == "" || d.sign == "+" || d.sign == "-") && IsDigits(d.whole) && (d.fraction == "" || IsDigits(d.fraction))
  }

  function DecimalString(d: DecimalText): string {
    d.sign + d.whole + if d.fraction == "" then "" else "." + d.fraction
  }

  /** The number that the text denotes. */
  function Value(d: DecimalText): real
    requires IsDecimalText(d)
  {
    var v := DigitsValue(d.whole) as real
             + if d.fraction == "" then 0.0 else DigitsValue(d.fraction) as real / Pow10(|d.fraction|);
    if d.sign == "-" then -v else v
  }

  datatype MuxText = Plain | Multiplexor | Selected(value: nat)

  datatype SignalText = SignalText(
    name: string, mux: MuxText, startBit: nat, size: nat, bigEndian: bool, signed: bool, factor: DecimalText,
    offset: DecimalText, minimum: DecimalText, maximum: DecimalText, unit: string, receivers: seq<string>)

  datatype MessageText = MessageText(id: nat, name: string, size: nat, transmitter: string, signals: seq<SignalText>)

  function MuxTo(mux: MuxText, rest: string): string {
    match mux
    case Plain => rest
    case Multiplexor => " " + ("M" + rest)
    case Selected(v) => " " + ("m" + (Decimal(v) + rest))
  }

  function PositionTo(s: SignalText, rest: string): string {
    " " + (":" + (" " + (Decimal(s.startBit) + ("|" + (Decimal(s.size) + ("@" + ((if s.bigEndian then "0" else "1")
    + ((if s.signed then "-" else "+") + rest))))))))
  }

  function ScaleTo(s: SignalText, rest: string): string {
    " " + ("(" + (DecimalString(s.factor) + ("," + (DecimalString(s.offset) + (")" + (" " + ("["
    + (DecimalString(s.minimum) + ("|" + (DecimalString(s.maximum) + ("]" + rest)))))))))))
  }

  function UnitTo(unit: string, rest: string): string {
    " " + ("\"" + (unit + ("\"" + (" " + rest))))
  }

  function ReceiversTo(receivers: seq<string>, rest: string): string
    requires receivers != []
  {
    receivers[0] + if |receivers| == 1 then " " + rest else "," + ReceiversTo(receivers[1..], rest)
  }

  function SignalTo(s: SignalText, rest: string): string
    requires s.receivers != []
  {
    "SG_" + (" " + (s.name + MuxTo(s.mux, PositionTo(s, ScaleTo(s, UnitTo(s.unit, ReceiversTo(s.receivers, rest)))))))
  }

  function SignalsTo(signals: seq<SignalText>, rest: string): string
    requires forall s | s in signals :: Printable(s)
  {
    if signals == [] then rest
    else
      assert Printable(signals[0]);
      SignalTo(signals[0], SignalsTo(signals[1..], rest))
  }

  function MessageTo(m: MessageText, rest: string): string
    requires PrintableMessage(m)
  {
    "BO_" + (" " + (Decimal(m.id) + (" " + (m.name + (":" + (" " + (Decimal(m.size) + (" " + (m.transmitter + (" "
    + SignalsTo(m.signals, rest)))))))))))
  }

  // ----- What can be printed

  predicate PrintableMux(mux: MuxText) {
    mux.Selected? ==> mux.value <= INT_MAX
  }

  predicate Printable(s: SignalText) {
    && IsWord(s.name) && PrintableMux(s.mux) && s.startBit <= INT_MAX && s.size <= INT_MAX
    && IsDecimalText(s.factor) && IsDecimalText(s.offset) && IsDecimalText(s.minimum) && IsDecimalText(s.maximum)
    && '"' !in s.unit
    && s.receivers != [] && forall r | r in s.receivers :: IsWord(r)
  }

  predicate PrintableMessage(m: MessageText) {
    && m.id <= INT_MAX && m.size <= INT_MAX && IsWord(m.name) && IsWord(m.transmitter)
    && forall s | s in m.signals :: Printable(s)
  }

  /** The signal that a text describes, before the range is normalised. */
  function Described(s: SignalText): Signal
    requires Printable(s)
  {
    Signal(s.name, s.mux.Multiplexor?, if s.mux.Selected? then s.mux.value else -1, s.startBit, s.size, s.bigEndian,
           s.signed, Value(s.factor), Value(s.offset), Value(s.minimum), Value(s.maximum), s.unit, s.receivers)
  }

  function DescribedSignals(signals: seq<SignalText>): (r: seq<Signal>)
    requires forall s | s in signals :: Printable(s)
    ensures |r| == |signals|
  {
    if signals == [] then [] else [WithPhysicalRange(Described(signals[0]))] + DescribedSignals(signals[1..])
  }

  function DescribedMessage(m: MessageText): Message
    requires PrintableMessage(m)
  {
    Message(m.id, m.name, m.size, m.transmitter, DescribedSignals(m.signals))
  }

  // ----- Tokens

  lemma {:induction false} IndexOfAt(a: string, rest: string, stops: string)
    requires forall i | 0 <= i < |a| :: a[i] !in stops
    requires rest != "" && rest[0] in stops
    ensures IndexOf(a + rest, stops) == |a|
    ensures (a + rest)[..|a|] == a && (a + rest)[|a|..] == rest
  {
    if a == "" {
      assert a + rest == rest;
    } else {
      assert (a + rest)[1..] == a[1..] + rest;
      IndexOfAt(a[1..], rest, stops);
    }
  }

  /** The text behind leading spaces starts with `token`, and `rest` follows it. */
  predicate Next(st: St, token: string, rest: string) {
    EraseSpaces(st.file) == token + rest
  }

  lemma NoSpace(token: string, rest: string)
    requires token != "" && !IsSpace(token[0])
    ensures EraseSpaces(token + rest) == token + rest
    ensures EraseSpaces(" " + (token + rest)) == token + rest
  {
    assert (" " + (token + rest))[1..] == token + rest;
    assert (token + rest)[0] == token[0];
  }

  lemma OneSpace(rest: string)
    ensures EraseSpaces(" " + rest) == EraseSpaces(rest)
  {
    assert (" " + rest)[1..] == rest;
  }

  lemma IdentifierReads(st: St, word: string, rest: string)
    requires Next(st, word, rest) && IsWord(word) && rest != "" && rest[0] in " :;,"
    ensures Identifier(st) == (St(rest, true, true), word)
  {
    hide EraseSpaces, IndexOf;
    forall i | 0 <= i < |word|
      ensures word[i] !in " :;,"
    {
      assert IsWordChar(word[i]);
    }
    IndexOfAt(word, rest, " :;,");
  }

  lemma {:induction false} DecimalReads(n: nat)
    ensures DigitsValue(Decimal(n)) == n
  {
    if n >= 10 {
      DecimalReads(n / 10);
      var d := Decimal(n);
      assert d[..|d| - 1] == Decimal(n / 10);
    }
  }

  lemma UIntReads(st: St, n: nat, rest: string)
    requires Next(st, Decimal(n), rest) && n <= INT_MAX && rest != "" && rest[0] in " :;,|]+-@)"
    ensures UInt(st) == (St(rest, true, true), n)
  {
    hide EraseSpaces, IndexOf, Decimal, DigitsValue;
    var digits := Decimal(n);
    forall i | 0 <= i < |digits|
      ensures digits[i] !in " :;,|]+-@)"
    {
      assert IsDigit(digits[i]);
    }
    IndexOfAt(digits, rest, " :;,|]+-@)");
    DecimalReads(n);
  }

  lemma DecimalStringParts(d: DecimalText)
    requires IsDecimalText(d)
    ensures Unsigned(DecimalString(d)) == d.whole + if d.fraction == "" then "" else "." + d.fraction
    ensures DecimalString(d) != ""
    ensures DecimalString(d)[0] == '-' <==> d.sign == "-"
  {
    assert IsDigit(d.whole[0]);
    var tail := if d.fraction == "" then "" else "." + d.fraction;
    assert DecimalString(d) == d.sign + (d.whole + tail);
  }

  lemma NoDot(digits: string)
    requires IsDigits(digits)
    ensures IndexOf(digits, ".") == |digits|
    ensures forall i | 0 <= i < |digits| :: digits[i] !in "."
  {
    forall i | 0 <= i < |digits|
      ensures digits[i] !in "."
    {
      assert IsDigit(digits[i]);
    }
  }

  lemma DecimalStringReads(d: DecimalText)
    requires IsDecimalText(d)
    ensures IsDecimal(DecimalString(d)) && DecimalValue(DecimalString(d)) == Value(d)
  {
    hide IndexOf, DigitsValue, Pow10;
    DecimalStringParts(d);
    NoDot(d.whole);
    var u := Unsigned(DecimalString(d));
    if d.fraction == "" {
      assert u == d.whole && u[..|u|] == u;
    } else {
      IndexOfAt(d.whole, "." + d.fraction, ".");
      assert u[|d.whole| + 1..] == d.fraction;
    }
  }

  lemma DecimalStringChars(d: DecimalText)
    requires IsDecimalText(d)
    ensures forall i | 0 <= i < |DecimalString(d)| :: DecimalString(d)[i] !in " :;,|]@)"
    ensures !IsSpace(DecimalString(d)[0])
  {
    DecimalStringParts(d);
    var s, n := DecimalString(d), |d.sign|;
    forall i | 0 <= i < |s|
      ensures s[i] !in " :;,|]@)" && !IsSpace(s[i])
    {
      if i >= n && i < n + |d.whole| {
        assert s[i] == d.whole[i - n] && IsDigit(d.whole[i - n]);
      } else if i > n + |d.whole| {
        assert s[i] == d.fraction[i - n - |d.whole| - 1] && IsDigit(d.fraction[i - n - |d.whole| - 1]);
      }
    }
  }

  lemma DoubleReads(st: St, d: DecimalText, rest: string)
    requires IsDecimalText(d) && Next(st, DecimalString(d), rest) && rest != "" && rest[0] in " :;,|]@)"
    ensures Double(st) == (St(rest, true, true), Value(d))
  {
    hide EraseSpaces, IndexOf, DecimalString, IsDecimal, DecimalValue, Value, IsDecimalText;
    DecimalStringChars(d);
    IndexOfAt(DecimalString(d), rest, " :;,|]@)");
    DecimalStringReads(d);
  }

  lemma QuotedReads(st: St, text: string, rest: string)
    requires Next(st, "\"", text + ("\"" + rest)) && '"' !in text
    ensures Quoted(st) == (St(rest, true, true), text)
  {
    hide EraseSpaces, IndexOf;
    var f := EraseSpaces(st.file);
    assert f[0] == '"' && f[1..] == text + ("\"" + rest);
    IndexOfAt(text, "\"" + rest, "\"");
    assert (text + ("\"" + rest))[|text| + 1..] == rest;
  }

  lemma ExpectReads(st: St, c: string, rest: string)
    requires Next(st, c, rest) && c != ""
    ensures Ahead(st, c) && After(st, c) == St(rest, st.valid, st.parsed)
    ensures Expect(st, c) == Go(St(rest, st.valid, st.parsed), ())
  {
    hide EraseSpaces;
    assert (c + rest)[|c|..] == rest;
  }

  // ----- Signals

  lemma DecimalFirst(n: nat)
    ensures !IsSpace(Decimal(n)[0])
  {
    assert IsDigit(Decimal(n)[0]);
  }

  lemma DecimalDigit()
    ensures Decimal(0) == "0" && Decimal(1) == "1"
  {
  }

  lemma PlainReads(st: St, rest: string)
    requires EraseSpaces(st.file) == ":" + rest
    ensures MuxPart(st) == (Trimmed(st), Mux(false, -1)) && Next(MuxPart(st).0, ":", rest)
  {
    hide EraseSpaces, UInt, After;
    TrimmedAgain(st);
  }

  lemma MultiplexorReads(st: St, rest: string)
    requires EraseSpaces(st.file) == "M" + rest
    ensures MuxPart(st) == (St(rest, st.valid, st.parsed), Mux(true, -1))
  {
    hide EraseSpaces, UInt, Ahead, After;
    NotAhead(st, "M", ":", rest);
    ExpectReads(st, "M", rest);
  }

  lemma SelectedReads(st: St, v: nat, rest: string)
    requires v <= INT_MAX && rest != "" && rest[0] in " :;,|]+-@)"
    requires EraseSpaces(st.file) == "m" + (Decimal(v) + rest)
    ensures MuxPart(st) == (St(rest, true, true), Mux(false, v))
  {
    hide EraseSpaces, UInt, Ahead, After, Decimal;
    var tail := Decimal(v) + rest;
    NotAhead(st, "m", ":", tail);
    NotAhead(st, "m", "M", tail);
    ExpectReads(st, "m", tail);
    DecimalFirst(v);
    NoSpace(Decimal(v), rest);
    UIntReads(After(st, "m"), v, rest);
  }

  lemma MuxReads(st: St, mux: MuxText, rest: string)
    requires PrintableMux(mux) && st.file == MuxTo(mux, " " + (":" + rest))
    ensures var r := MuxPart(st);
            r.1 == Mux(mux.Multiplexor?, if mux.Selected? then mux.value else -1) && Next(r.0, ":", rest)
    ensures MuxPart(st).0.valid == (mux.Selected? || st.valid)
  {
    hide EraseSpaces, Decimal, MuxPart;
    var colon := " " + (":" + rest);
    NoSpace(":", rest);
    match mux
    case Plain =>
      PlainReads(st, rest);
    case Multiplexor =>
      NoSpace("M", colon);
      MultiplexorReads(st, colon);
    case Selected(v) =>
      NoSpace("m", Decimal(v) + colon);
      SelectedReads(st, v, colon);
  }

  lemma TrimmedAgain(st: St)
    ensures EraseSpaces(EraseSpaces(st.file)) == EraseSpaces(st.file)
  {
  }

  /** A number and the character after it. */
  lemma UIntThenReads(st: St, n: nat, c: string, rest: string)
    requires Next(st, Decimal(n), c + rest) && n <= INT_MAX && |c| == 1 && c[0] in "|@"
    ensures UInt(st) == (St(c + rest, true, true), n)
    ensures Expect(UInt(st).0, c) == Go(St(rest, true, true), ())
  {
    hide EraseSpaces, UInt, Expect, Decimal;
    UIntReads(st, n, c + rest);
    NoSpace(c, rest);
    ExpectReads(UInt(st).0, c, rest);
  }

  lemma DecimalNext(n: nat, rest: string)
    ensures EraseSpaces(Decimal(n) + rest) == Decimal(n) + rest
    ensures EraseSpaces(" " + (Decimal(n) + rest)) == Decimal(n) + rest
  {
    hide EraseSpaces, Decimal;
    DecimalFirst(n);
    NoSpace(Decimal(n), rest);
  }

  lemma OrderReads(st: St, bigEndian: bool, sign: string, rest: string)
    requires EraseSpaces(st.file) == (if bigEndian then "0" else "1") + (sign + rest) && |sign| == 1 && sign[0] in "+-"
    ensures UInt(st) == (St(sign + rest, true, true), if bigEndian then 0 else 1)
  {
    hide EraseSpaces, UInt, Decimal;
    DecimalDigit();
    UIntReads(st, if bigEndian then 0 else 1, sign + rest);
  }

  lemma SignReads(st: St, signed: bool, rest: string)
    requires st.file == (if signed then "-" else "+") + rest
    ensures if signed then !Ahead(st, "+") && Ahead(st, "-") && After(st, "-") == St(rest, st.valid, st.parsed)
            else Ahead(st, "+") && After(st, "+") == St(rest, st.valid, st.parsed)
  {
    hide EraseSpaces, Ahead, After;
    var sign := if signed then "-" else "+";
    NoSpace(sign, rest);
    ExpectReads(st, sign, rest);
    if signed { NotAhead(st, "-", "+", rest); }
  }

  /** ":" start "|" size "@" order sign. */
  lemma PositionReads(st: St, s: SignalText, rest: string)
    requires s.startBit <= INT_MAX && s.size <= INT_MAX
    requires Next(st, ":", " " + (Decimal(s.startBit)
                                  + ("|" + (Decimal(s.size) + ("@" + ((if s.bigEndian then "0" else "1")
               + ((if s.signed then "-" else "+") + rest)))))))
    ensures PositionPart(st) == Go(St(rest, true, true),
                                   Position(s.startBit, s.size, if s.bigEndian then 0 else 1, s.signed))
  {
    hide EraseSpaces, Decimal, UInt, Expect, Ahead, After, Trimmed;
    var sign := if s.signed then "-" else "+";
    var t4 := (if s.bigEndian then "0" else "1") + (sign + rest);
    var t3 := Decimal(s.size) + ("@" + t4);
    var t2 := Decimal(s.startBit) + ("|" + t3);
    ExpectReads(st, ":", " " + t2);
    var s1 := Expect(st, ":").st;
    DecimalNext(s.startBit, "|" + t3);
    UIntThenReads(s1, s.startBit, "|", t3);
    var s3 := Expect(UInt(s1).0, "|").st;
    DecimalNext(s.size, "@" + t4);
    UIntThenReads(s3, s.size, "@", t4);
    var s5 := Expect(UInt(s3).0, "@").st;
    OrderNext(s.bigEndian, sign + rest);
    OrderReads(s5, s.bigEndian, sign, rest);
    SignReads(UInt(s5).0, s.signed, rest);
  }

  lemma OrderNext(bigEndian: bool, rest: string)
    ensures EraseSpaces((if bigEndian then "0" else "1") + rest) == (if bigEndian then "0" else "1") + rest
  {
    hide EraseSpaces;
    NoSpace(if bigEndian then "0" else "1", rest);
  }

  lemma NotAhead(st: St, c: string, other: string, rest: string)
    requires Next(st, c, rest) && |c| == |other| == 1 && c != other
    ensures !Ahead(st, other)
  {
    hide EraseSpaces;
    assert (c + rest)[0] == c[0];
  }

  lemma DoubleThenReads(st: St, d: DecimalText, c: string, rest: string)
    requires IsDecimalText(d) && Next(st, DecimalString(d), c + rest) && |c| == 1 && c[0] in ",|])"
    ensures Double(st) == (St(c + rest, true, true), Value(d))
    ensures Expect(Double(st).0, c) == Go(St(rest, true, true), ())
  {
    hide EraseSpaces, Double, Expect, DecimalString, Value, IsDecimalText;
    DoubleReads(st, d, c + rest);
    NoSpace(c, rest);
    ExpectReads(Double(st).0, c, rest);
  }

  lemma ScaleReads(st: St, s: SignalText, rest: string)
    requires Printable(s) && st.file == ScaleTo(s, rest)
    ensures ScalePart(st) == Go(St(rest, true, true),
                                Scale(Value(s.factor), Value(s.offset), Value(s.minimum), Value(s.maximum)))
  {
    hide EraseSpaces, Double, Expect, DecimalString, Value, IsDecimalText, IsWord;
    var t4 := DecimalString(s.maximum) + ("]" + rest);
    var t3 := DecimalString(s.minimum) + ("|" + t4);
    var t2 := DecimalString(s.offset) + (")" + (" " + ("[" + t3)));
    var t1 := DecimalString(s.factor) + ("," + t2);
    NoSpace("(", t1);
    ExpectReads(st, "(", t1);
    var e1 := Expect(st, "(").st;
    DecimalTextNext(s.factor, "," + t2);
    DoubleThenReads(e1, s.factor, ",", t2);
    var e2 := Expect(Double(e1).0, ",").st;
    DecimalTextNext(s.offset, ")" + (" " + ("[" + t3)));
    DoubleThenReads(e2, s.offset, ")", " " + ("[" + t3));
    var e3 := Expect(Double(e2).0, ")").st;
    NoSpace("[", t3);
    ExpectReads(e3, "[", t3);
    var e4 := Expect(e3, "[").st;
    DecimalTextNext(s.minimum, "|" + t4);
    DoubleThenReads(e4, s.minimum, "|", t4);
    var e5 := Expect(Double(e4).0, "|").st;
    DecimalTextNext(s.maximum, "]" + rest);
    DoubleThenReads(e5, s.maximum, "]", rest);
  }

  lemma DecimalTextNext(d: DecimalText, rest: string)
    requires IsDecimalText(d)
    ensures EraseSpaces(DecimalString(d) + rest) == DecimalString(d) + rest
  {
    hide EraseSpaces, IsDecimalText;
    DecimalStringParts(d);
    DecimalStringChars(d);
    NoSpace(DecimalString(d), rest);
  }

  lemma WordFirst(w: string)
    requires IsWord(w)
    ensures w != "" && !IsSpace(w[0])
  {
    assert IsWordChar(w[0]);
  }

  lemma LastReceiverReads(st: St, r: string, rest: string)
    requires IsWord(r) && EraseSpaces(st.file) == r + (" " + rest) && !("," <= EraseSpaces(rest))
    ensures Receivers(st) == (St(EraseSpaces(rest), true, true), [r])
  {
    hide EraseSpaces, Identifier, IsWord, IsSuffix;
    IdentifierReads(st, r, " " + rest);
    OneSpace(rest);
  }

  lemma NextReceiverReads(st: St, r: string, more: string)
    requires IsWord(r) && EraseSpaces(st.file) == r + ("," + more)
    ensures var v := Receivers(St(more, true, true)); Receivers(st) == (v.0, [r] + v.1)
  {
    hide EraseSpaces, Identifier, IsWord, IsSuffix, After, Ahead;
    IdentifierReads(st, r, "," + more);
    NoSpace(",", more);
    ExpectReads(Identifier(st).0, ",", more);
  }

  lemma {:induction false} ReceiversRead(st: St, receivers: seq<string>, rest: string)
    requires receivers != [] && forall r | r in receivers :: IsWord(r)
    requires EraseSpaces(st.file) == ReceiversTo(receivers, rest) && !("," <= EraseSpaces(rest))
    ensures Receivers(st) == (St(EraseSpaces(rest), true, true), receivers)
    decreases |receivers|
  {
    hide EraseSpaces, Receivers, IsWord, IsSuffix;
    if |receivers| == 1 {
      LastReceiverReads(st, receivers[0], rest);
      assert [receivers[0]] == receivers;
    } else {
      var more := ReceiversTo(receivers[1..], rest);
      NextReceiverReads(st, receivers[0], more);
      assert IsWord(receivers[1]);
      ReceiversErased(receivers[1..], rest);
      ReceiversRead(St(more, true, true), receivers[1..], rest);
      assert [receivers[0]] + receivers[1..] == receivers;
    }
  }

  lemma ReceiversErased(receivers: seq<string>, rest: string)
    requires receivers != [] && IsWord(receivers[0])
    ensures EraseSpaces(ReceiversTo(receivers, rest)) == ReceiversTo(receivers, rest)
    ensures EraseSpaces(" " + ReceiversTo(receivers, rest)) == ReceiversTo(receivers, rest)
  {
    hide EraseSpaces, IsWord;
    WordFirst(receivers[0]);
    NoSpace(receivers[0], if |receivers| == 1 then " " + rest else "," + ReceiversTo(receivers[1..], rest));
  }

  /** One printed signal is read back, and what follows it is left behind leading spaces. */
  lemma SignalReads(st: St, s: SignalText, rest: string)
    requires Printable(s) && EraseSpaces(st.file) == SignalTo(s, rest) && !("," <= EraseSpaces(rest))
    ensures SignalOf(st) == (St(EraseSpaces(rest), true, true), WithPhysicalRange(Described(s)))
  {
    hide EraseSpaces, Identifier, IsWord, IsSuffix, MuxPart, PositionPart, ScalePart, Quoted, Receivers, IsDecimalText,
         Value, DecimalString, Decimal, ReceiversTo, WithPhysicalRange, MuxTo, ScaleTo, PrintableMux;
    var t4 := ReceiversTo(s.receivers, rest);
    var t3 := ScaleTo(s, UnitTo(s.unit, t4));
    var t2 := PositionTo(s, t3);
    var t1 := MuxTo(s.mux, t2);
    ExpectReads(st, "SG_", " " + (s.name + t1));
    var start := After(st, "SG_");
    WordFirst(s.name);
    NoSpace(s.name, t1);
    MuxStarts(s.mux, t2);
    IdentifierReads(start, s.name, t1);
    var s1 := Identifier(start).0;
    var afterColon := " " + (Decimal(s.startBit) + ("|" + (Decimal(s.size) + ("@" + ((if s.bigEndian then "0" else "1")
                           + ((if s.signed then "-" else "+") + t3))))));
    assert t2 == " " + (":" + afterColon);
    MuxReads(s1, s.mux, afterColon);
    var s2 := MuxPart(s1).0;
    PositionReads(s2, s, t3);
    var s3 := PositionPart(s2).st;
    ScaleReads(s3, s, UnitTo(s.unit, t4));
    var s4 := ScalePart(s3).st;
    NoSpace("\"", s.unit + ("\"" + (" " + t4)));
    QuotedReads(s4, s.unit, " " + t4);
    var s5 := Quoted(s4).0;
    assert IsWord(s.receivers[0]);
    ReceiversErased(s.receivers, rest);
    ReceiversRead(s5, s.receivers, rest);
  }

  lemma MuxStarts(mux: MuxText, rest: string)
    requires rest != "" && rest[0] == ' '
    ensures MuxTo(mux, rest) != "" && MuxTo(mux, rest)[0] == ' '
  {
  }

  // ----- Messages

  lemma {:induction false} SignalsRead(st: St, signals: seq<SignalText>, rest: string)
    requires forall s | s in signals :: Printable(s)
    requires EraseSpaces(st.file) == EraseSpaces(SignalsTo(signals, rest)) && st.valid
    requires !("," <= EraseSpaces(rest)) && !("SG_" <= EraseSpaces(rest))
    ensures SignalsOf(st) == (St(EraseSpaces(rest), true, false), DescribedSignals(signals))
    decreases |signals|
  {
    hide EraseSpaces, SignalOf, SignalTo, Printable, WithPhysicalRange, Described, IsSuffix;
    if signals == [] {
      NoSignal(st);
    } else {
      var s, more := signals[0], SignalsTo(signals[1..], rest);
      SignalStarts(s, more);
      MoreSignals(signals[1..], rest);
      SignalReads(st, s, more);
      TrimmedAgain(St(more, true, true));
      SignalsRead(SignalOf(st).0, signals[1..], rest);
    }
  }

  lemma NoSignal(st: St)
    requires !("SG_" <= EraseSpaces(st.file))
    ensures SignalOf(st) == (St(EraseSpaces(st.file), st.valid, false), NO_SIGNAL)
  {
    hide EraseSpaces;
  }

  lemma SignalStarts(s: SignalText, rest: string)
    requires Printable(s)
    ensures EraseSpaces(SignalTo(s, rest)) == SignalTo(s, rest)
    ensures "SG_" <= SignalTo(s, rest)
  {
    hide EraseSpaces, MuxTo, PositionTo, ScaleTo, UnitTo, ReceiversTo;
    var position := PositionTo(s, ScaleTo(s, UnitTo(s.unit, ReceiversTo(s.receivers, rest))));
    NoSpace("SG_", " " + (s.name + MuxTo(s.mux, position)));
  }

  /** What follows a signal does not look like another receiver. */
  lemma MoreSignals(signals: seq<SignalText>, rest: string)
    requires forall s | s in signals :: Printable(s)
    requires !("," <= EraseSpaces(rest))
    ensures !("," <= EraseSpaces(SignalsTo(signals, rest)))
  {
    hide EraseSpaces, SignalTo;
    if signals != [] {
      assert Printable(signals[0]);
      SignalStarts(signals[0], SignalsTo(signals[1..], rest));
    }
  }

  /** A text that cannot be taken for the continuation of a message. */
  predicate EndsMessage(rest: string) {
    !("," <= EraseSpaces(rest)) && !("SG_" <= EraseSpaces(rest))
  }

  /** What stands behind BO_, up to the signals. */
  function HeadTo(m: MessageText, tail: string): string {
    " " + (Decimal(m.id) + (" " + (m.name + (":" + (" "
    + (Decimal(m.size) + (" " + (m.transmitter + (" " + tail)))))))))
  }

  lemma HeadReads(st: St, m: MessageText, tail: string)
    requires PrintableMessage(m)
    requires st.file == HeadTo(m, tail)
    ensures MessageHead(st) == Go(St(" " + tail, true, true), Message(m.id, m.name, m.size, m.transmitter, []))
  {
    hide EraseSpaces, Decimal, UInt, Identifier, Expect, IsWord, Printable;
    var t4 := m.transmitter + (" " + tail);
    var t3 := Decimal(m.size) + (" " + t4);
    var t2 := m.name + (":" + (" " + t3));
    DecimalFirst(m.id);
    NoSpace(Decimal(m.id), " " + t2);
    UIntReads(st, m.id, " " + t2);
    var s1 := UInt(st).0;
    WordFirst(m.name);
    NoSpace(m.name, ":" + (" " + t3));
    IdentifierReads(s1, m.name, ":" + (" " + t3));
    var s2 := Identifier(s1).0;
    NoSpace(":", " " + t3);
    ExpectReads(s2, ":", " " + t3);
    var s3 := Expect(s2, ":").st;
    DecimalFirst(m.size);
    NoSpace(Decimal(m.size), " " + t4);
    UIntReads(s3, m.size, " " + t4);
    var s4 := UInt(s3).0;
    WordFirst(m.transmitter);
    NoSpace(m.transmitter, " " + tail);
    IdentifierReads(s4, m.transmitter, " " + tail);
  }

  /**
   The print/parse round trip for a message: it is read back with its ranges normalised, and the
   text behind it is left unconsumed up to leading spaces.
   */
  lemma MessageReads(st: St, m: MessageText, rest: string)
    requires PrintableMessage(m) && EndsMessage(rest)
    requires EraseSpaces(st.file) == MessageTo(m, rest)
    ensures MessageOf(st) == (St(EraseSpaces(rest), true, true), DescribedMessage(m))
  {
    hide EraseSpaces, Decimal, MessageHead, SignalsOf, SignalsTo, DescribedSignals, IsWord, Printable, IsSuffix;
    var tail := SignalsTo(m.signals, rest);
    var head := HeadTo(m, tail);
    ExpectReads(st, "BO_", head);
    assert ("BO_" + head)[3] == ' ';
    assert !Ahead(st, "BO_TX_BU_") by { NotTransmitters(EraseSpaces(st.file)); }
    HeadReads(After(st, "BO_"), m, tail);
    OneSpace(tail);
    SignalsRead(MessageHead(After(st, "BO_")).st, m.signals, rest);
  }

  lemma NotTransmitters(s: string)
    requires |s| > 3 && s[3] == ' '
    ensures !("BO_TX_BU_" <= s)
  {
    assert "BO_TX_BU_"[3] == 'T';
  }

  // ----- Comments

  /** What a comment is about. */
  datatype Subject =
    | General | OfNode(name: string) | OfMessage(id: nat) | OfSignal(id: nat, name: string) | OfVariable(name: string)

  datatype CommentText = CommentText(subject: Subject, text: string)

  predicate PrintableComment(c: CommentText) {
    && '"' !in c.text
    && match c.subject
       case General => true
       case OfNode(name) => IsWord(name)
       case OfMessage(id) => id <= INT_MAX
       case OfSignal(id, name) => id <= INT_MAX && IsWord(name)
       case OfVariable(name) => IsWord(name)
  }

  function SubjectTo(subject: Subject, rest: string): string {
    match subject
    case General => rest
    case OfNode(name) => "BU_" + (" " + (name + (" " + rest)))
    case OfMessage(id) => "BO_" + (" " + (Decimal(id) + (" " + rest)))
    case OfSignal(id, name) => "SG_" + (" " + (Decimal(id) + (" " + (name + (" " + rest)))))
    case OfVariable(name) => "EV_" + (" " + (name + (" " + rest)))
  }

  function CommentTo(c: CommentText, rest: string): string {
    "CM_" + (" " + SubjectTo(c.subject, "\"" + (c.text + ("\"" + (";" + rest)))))
  }

  /** How the configuration names the subject of a comment. */
  function SubjectName(subject: Subject): string {
    match subject
    case General => ""
    case OfNode(name) => "Node: " + name + " "
    case OfMessage(id) => "Message: " + Decimal(id) + " "
    case OfSignal(id, name) => "Signal: " + Decimal(id) + " " + name + " "
    case OfVariable(name) => "Environment variable: " + name + " "
  }

  function CommentsTo(comments: seq<CommentText>, rest: string): string {
    if comments == [] then rest else CommentTo(comments[0], CommentsTo(comments[1..], rest))
  }

  function DescribedComments(comments: seq<CommentText>): seq<string> {
    if comments == [] then []
    else
      [SubjectName(comments[0].subject) + comments[0].text] + DescribedComments(comments[1..])
  }

  /** A keyword, a word and what follows it. */
  lemma WordAfter(st: St, keyword: string, word: string, rest: string)
    requires |keyword| == 3 && keyword[2] == '_' && !IsSpace(keyword[0]) && IsWord(word)
    requires EraseSpaces(st.file) == keyword + (" " + (word + (" " + rest)))
    ensures Ahead(st, keyword) && Identifier(After(st, keyword)) == (St(" " + rest, true, true), word)
  {
    hide EraseSpaces, Identifier, Ahead, After, IsWord;
    ExpectReads(st, keyword, " " + (word + (" " + rest)));
    WordFirst(word);
    NoSpace(word, " " + rest);
    IdentifierReads(After(st, keyword), word, " " + rest);
  }

  /** A keyword, a number and what follows it. */
  lemma NumberAfter(st: St, keyword: string, n: nat, rest: string)
    requires |keyword| == 3 && !IsSpace(keyword[0]) && n <= INT_MAX
    requires EraseSpaces(st.file) == keyword + (" " + (Decimal(n) + (" " + rest)))
    ensures Ahead(st, keyword) && UInt(After(st, keyword)) == (St(" " + rest, true, true), n)
  {
    hide EraseSpaces, UInt, Ahead, After, Decimal;
    ExpectReads(st, keyword, " " + (Decimal(n) + (" " + rest)));
    DecimalNext(n, " " + rest);
    UIntReads(After(st, keyword), n, " " + rest);
  }

  /** Of two keywords of the same length only the one that stands there is ahead. */
  lemma OtherKeyword(st: St, keyword: string, other: string, rest: string)
    requires EraseSpaces(st.file) == keyword + rest && |keyword| == |other| && keyword != other
    ensures !Ahead(st, other)
  {
    hide EraseSpaces;
    assert (keyword + rest)[..|keyword|] == keyword;
  }

  lemma SubjectReads(st: St, subject: Subject, text: string)
    requires PrintableComment(CommentText(subject, "")) && st.file == " " + SubjectTo(subject, "\"" + text)
    ensures var r := CommentSubject(st); r.1 == SubjectName(subject) && EraseSpaces(r.0.file) == "\"" + text
  {
    hide EraseSpaces, Identifier, UInt, Ahead, After, Decimal, IsWord, IsSuffix;
    var rest := "\"" + text;
    NoSpace("\"", text);
    match subject
    case General =>
      NothingAhead(st, text);
      TrimmedAgain(st);
    case OfNode(name) =>
      NoSpace("BU_", " " + (name + (" " + rest)));
      WordAfter(st, "BU_", name, rest);
    case OfMessage(id) =>
      var tail := " " + (Decimal(id) + (" " + rest));
      NoSpace("BO_", tail);
      OtherKeyword(st, "BO_", "BU_", tail);
      NumberAfter(st, "BO_", id, rest);
    case OfSignal(id, name) =>
      var tail := " " + (Decimal(id) + (" " + (name + (" " + rest))));
      NoSpace("SG_", tail);
      OtherKeyword(st, "SG_", "BU_", tail);
      OtherKeyword(st, "SG_", "BO_", tail);
      NumberAfter(st, "SG_", id, name + (" " + rest));
      WordFirst(name);
      NoSpace(name, " " + rest);
      IdentifierReads(UInt(After(st, "SG_")).0, name, " " + rest);
    case OfVariable(name) =>
      var tail := " " + (name + (" " + rest));
      NoSpace("EV_", tail);
      OtherKeyword(st, "EV_", "BU_", tail);
      OtherKeyword(st, "EV_", "BO_", tail);
      OtherKeyword(st, "EV_", "SG_", tail);
      WordAfter(st, "EV_", name, rest);
  }

  lemma NothingAhead(st: St, text: string)
    requires EraseSpaces(st.file) == "\"" + text
    ensures !Ahead(st, "BU_") && !Ahead(st, "BO_") && !Ahead(st, "SG_") && !Ahead(st, "EV_")
  {
    hide EraseSpaces;
    assert ("\"" + text)[0] == '"';
  }

  /** A printed comment is read with the name of its subject in front. */
  lemma CommentReads(st: St, c: CommentText, rest: string)
    requires PrintableComment(c) && EraseSpaces(st.file) == CommentTo(c, rest)
    ensures Comment(st) == (St(rest, true, true), SubjectName(c.subject) + c.text)
  {
    hide EraseSpaces, CommentSubject, Quoted, Ahead, After, IsWord, SubjectTo, SubjectName, IsSuffix;
    var tail := c.text + ("\"" + (";" + rest));
    ExpectReads(st, "CM_", " " + SubjectTo(c.subject, "\"" + tail));
    var s0 := After(st, "CM_");
    SubjectReads(s0, c.subject, tail);
    var s1 := CommentSubject(s0).0;
    QuotedReads(s1, c.text, ";" + rest);
    NoSpace(";", rest);
    ExpectReads(Quoted(s1).0, ";", rest);
  }

  lemma CommentStarts(c: CommentText, rest: string)
    ensures EraseSpaces(CommentTo(c, rest)) == CommentTo(c, rest) && "CM_ " <= CommentTo(c, rest)
  {
    hide EraseSpaces, SubjectTo;
    NoSpace("CM_", " " + SubjectTo(c.subject, "\"" + (c.text + ("\"" + (";" + rest)))));
    assert CommentTo(c, rest)[..4] == "CM_ ";
  }

  lemma {:induction false} CommentsRead(st: St, comments: seq<CommentText>, rest: string)
    requires forall c | c in comments :: PrintableComment(c)
    requires st.file == CommentsTo(comments, rest) && st.valid && EraseSpaces(rest) == rest && !("CM_" <= rest)
    ensures Comments(st) == Some((St(rest, true, false), DescribedComments(comments)))
    decreases |comments|
  {
    hide EraseSpaces, Comment, CommentTo, PrintableComment, SubjectName, IsSuffix;
    if comments == [] {
      NoComment(st);
    } else {
      var more := CommentsTo(comments[1..], rest);
      CommentStarts(comments[0], more);
      CommentReads(st, comments[0], more);
      CommentsRead(Comment(st).0, comments[1..], rest);
    }
  }

  lemma NoComment(st: St)
    requires !("CM_" <= EraseSpaces(st.file))
    ensures Comment(st) == (St(EraseSpaces(st.file), st.valid, false), "")
  {
    hide EraseSpaces;
  }

  // ----- Value descriptions

  datatype MeaningText = MeaningText(value: DecimalText, meaning: string)
  datatype ValuesText = ValuesText(messageId: nat, signalName: string, values: seq<MeaningText>)

  predicate PrintableMeaning(m: MeaningText) {
    IsDecimalText(m.value) && '"' !in m.meaning
  }

  predicate PrintableValues(v: ValuesText) {
    v.messageId <= INT_MAX && IsWord(v.signalName) && forall m | m in v.values :: PrintableMeaning(m)
  }

  function MeaningsTo(values: seq<MeaningText>, rest: string): string {
    if values == [] then ";" + rest
    else
      DecimalString(values[0].value)
      + (" " + ("\"" + (values[0].meaning + ("\"" + (" " + MeaningsTo(values[1..], rest))))))
  }

  function ValuesTo(v: ValuesText, rest: string): string {
    "VAL_" + (" " + (Decimal(v.messageId) + (" " + (v.signalName + (" " + MeaningsTo(v.values, rest))))))
  }

  function DescribedMeanings(values: seq<MeaningText>): seq<ValueDescription>
    requires forall m | m in values :: PrintableMeaning(m)
  {
    if values == [] then []
    else
      assert PrintableMeaning(values[0]);
      [ValueDescription(Value(values[0].value), values[0].meaning)] + DescribedMeanings(values[1..])
  }

  function DescribedValues(v: ValuesText): SignalValueDescription
    requires PrintableValues(v)
  {
    SignalValueDescription(v.messageId, v.signalName, DescribedMeanings(v.values))
  }

  lemma MeaningReads(st: St, m: MeaningText, more: string)
    requires PrintableMeaning(m) && EraseSpaces(more) == more
    requires EraseSpaces(st.file) == DecimalString(m.value) + (" " + ("\"" + (m.meaning + ("\"" + (" " + more)))))
    ensures var r := ValueLoop(St(" " + more, true, true));
            ValueLoop(st) == (r.0, [ValueDescription(Value(m.value), m.meaning)] + r.1)
  {
    hide EraseSpaces, Double, Quoted, DecimalString, Value, IsDecimalText, IsSuffix, Ahead, After;
    var quoted := m.meaning + ("\"" + (" " + more));
    NoSemicolon(st, m.value, " " + ("\"" + quoted));
    TrimmedAgain(st);
    DoubleReads(Trimmed(st), m.value, " " + ("\"" + quoted));
    NoSpace("\"", quoted);
    QuotedReads(Double(Trimmed(st)).0, m.meaning, " " + more);
  }

  lemma NoSemicolon(st: St, d: DecimalText, rest: string)
    requires IsDecimalText(d) && EraseSpaces(st.file) == DecimalString(d) + rest
    ensures !Ahead(st, ";")
  {
    hide EraseSpaces, IsDecimalText, DecimalString;
    DecimalStringParts(d);
    DecimalStringChars(d);
    assert (DecimalString(d) + rest)[0] == DecimalString(d)[0];
    assert DecimalString(d)[0] !in " :;,|]@)";
    assert ';' in " :;,|]@)";
  }

  lemma MeaningsStart(values: seq<MeaningText>, rest: string)
    requires forall m | m in values :: PrintableMeaning(m)
    ensures EraseSpaces(MeaningsTo(values, rest)) == MeaningsTo(values, rest)
  {
    hide EraseSpaces, DecimalString, IsDecimalText;
    if values == [] {
      NoSpace(";", rest);
    } else {
      assert PrintableMeaning(values[0]);
      DecimalTextNext(values[0].value,
                      " " + ("\"" + (values[0].meaning + ("\"" + (" " + MeaningsTo(values[1..], rest))))));
    }
  }

  lemma {:induction false} MeaningsRead(st: St, values: seq<MeaningText>, rest: string)
    requires forall m | m in values :: PrintableMeaning(m)
    requires EraseSpaces(st.file) == MeaningsTo(values, rest) && st.valid
    ensures ValueLoop(st).0.file == rest && ValueLoop(st).0.valid && ValueLoop(st).1 == DescribedMeanings(values)
    decreases |values|
  {
    hide EraseSpaces, ValueLoop, PrintableMeaning, DecimalString, Value, IsDecimalText;
    if values == [] {
      LoopEnds(st, rest);
    } else {
      var more := MeaningsTo(values[1..], rest);
      MeaningsStart(values[1..], rest);
      MeaningReads(st, values[0], more);
      OneSpace(more);
      MeaningsRead(St(" " + more, true, true), values[1..], rest);
    }
  }

  lemma LoopEnds(st: St, rest: string)
    requires EraseSpaces(st.file) == ";" + rest && st.valid
    ensures ValueLoop(st).0.file == rest && ValueLoop(st).0.valid && ValueLoop(st).1 == []
  {
    hide EraseSpaces, Ahead, After;
    ExpectReads(st, ";", rest);
  }

  /** Printed value descriptions of a signal are read back. */
  lemma ValuesRead(st: St, v: ValuesText, rest: string)
    requires PrintableValues(v) && EraseSpaces(st.file) == ValuesTo(v, rest)
    ensures SignalValues(st) == (St(rest, true, true), DescribedValues(v))
  {
    hide EraseSpaces, UInt, Identifier, ValueLoop, Ahead, After, IsWord, Decimal, MeaningsTo, DescribedMeanings,
         IsSuffix, PrintableMeaning;
    var t3 := MeaningsTo(v.values, rest);
    var t2 := v.signalName + (" " + t3);
    var t1 := Decimal(v.messageId) + (" " + t2);
    ExpectReads(st, "VAL_", " " + t1);
    var s0 := After(st, "VAL_");
    DecimalNext(v.messageId, " " + t2);
    UIntReads(s0, v.messageId, " " + t2);
    var s1 := UInt(s0).0;
    WordFirst(v.signalName);
    NoSpace(v.signalName, " " + t3);
    IdentifierReads(s1, v.signalName, " " + t3);
    var s2 := Identifier(s1).0;
    OneSpace(t3);
    MeaningsStart(v.values, rest);
    MeaningsRead(s2, v.values, rest);
  }

  function AllValuesTo(values: seq<ValuesText>, rest: string): string {
    if values == [] then rest else ValuesTo(values[0], AllValuesTo(values[1..], rest))
  }

  function DescribedAll(values: seq<ValuesText>): seq<SignalValueDescription>
    requires forall v | v in values :: PrintableValues(v)
  {
    if values == [] then [] else [DescribedValues(values[0])] + DescribedAll(values[1..])
  }

  lemma ValuesStart(v: ValuesText, rest: string)
    ensures EraseSpaces(ValuesTo(v, rest)) == ValuesTo(v, rest) && "VAL_ " <= ValuesTo(v, rest)
  {
    hide EraseSpaces, Decimal, MeaningsTo;
    NoSpace("VAL_", " " + (Decimal(v.messageId) + (" " + (v.signalName + (" " + MeaningsTo(v.values, rest))))));
    assert ValuesTo(v, rest)[..5] == "VAL_ ";
  }

  lemma {:induction false} AllValuesRead(st: St, values: seq<ValuesText>, rest: string)
    requires forall v | v in values :: PrintableValues(v)
    requires st.file == AllValuesTo(values, rest) && st.valid && EraseSpaces(rest) == rest && !("VAL_" <= rest)
    ensures AllSignalValues(st) == Some((St(rest, true, false), DescribedAll(values)))
    decreases |values|
  {
    hide EraseSpaces, SignalValues, ValuesTo, PrintableValues, DescribedValues, IsSuffix;
    if values == [] {
      NoValues(st);
    } else {
      var more := AllValuesTo(values[1..], rest);
      ValuesStart(values[0], more);
      ValuesRead(st, values[0], more);
      AllValuesRead(SignalValues(st).0, values[1..], rest);
    }
  }

  lemma NoValues(st: St)
    requires EraseSpaces(st.file) == st.file && !("VAL_" <= st.file)
    ensures SignalValues(st) == (St(st.file, st.valid, false), NO_VALUES)
  {
    hide EraseSpaces;
  }
}
