/** A raw CSV file is read back as it was written. */
module CsvRoundTrip {
  import opened Bits
  import opened CanTypes
  import opened CsvText
  import opened CsvFiles

  // ----- Numbers

  predicate AllDigits(s: string, base: nat) {
    forall i | 0 <= i < |s| :: DigitValue(s[i], base).Some?
  }

  lemma DigitReads(d: nat, base: nat)
    requires d < base <= 16
    ensures DigitValue(DigitChar(d), base) == Some(d)
  {
  }

  lemma AppendDigit(s: string, d: nat, base: nat)
    requires AllDigits(s, base) && d < base <= 16
    ensures AllDigits(s + [DigitChar(d)], base) && ValueOf(s + [DigitChar(d)], base) == base * ValueOf(s, base) + d
  {
    hide DigitChar, DigitValue;
    DigitReads(d, base);
    assert (s + [DigitChar(d)])[..|s|] == s;
  }

  lemma {:induction false} NumeralReads(n: nat, base: nat)
    requires 2 <= base <= 16
    ensures AllDigits(Numeral(n, base), base) && ValueOf(Numeral(n, base), base) == n
    decreases n
  {
    hide DigitChar, DigitValue, AllDigits, ValueOf;
    if n < base {
      NoDigits(base);
      AppendDigit("", n, base);
      assert "" + [DigitChar(n)] == [DigitChar(n)];
    } else {
      NumeralReads(n / base, base);
      AppendDigit(Numeral(n / base, base), n % base, base);
    }
  }

  lemma NoDigits(base: nat)
    ensures AllDigits("", base) && ValueOf("", base) == 0
  {
  }

  lemma {:induction false} LeadingZero(s: string, base: nat)
    requires 2 <= base <= 16 && AllDigits(s, base)
    ensures AllDigits("0" + s, base) && ValueOf("0" + s, base) == ValueOf(s, base)
    decreases |s|
  {
    hide DigitValue;
    DigitReads(0, base);
    assert DigitChar(0) == '0';
    if s == "" {
      assert "0" + s == "0";
    } else {
      var init := s[..|s| - 1];
      LeadingZero(init, base);
      assert ("0" + s)[..|"0" + s| - 1] == "0" + init;
    }
  }

  lemma {:induction false} PaddedReads(s: string, width: nat, base: nat)
    requires 2 <= base <= 16 && AllDigits(s, base)
    ensures AllDigits(Padded(s, width), base) && ValueOf(Padded(s, width), base) == ValueOf(s, base)
    ensures |Padded(s, width)| == if |s| < width then width else |s|
    decreases width - |s|
  {
    hide DigitValue, ValueOf;
    if |s| < width {
      LeadingZero(s, base);
      PaddedReads("0" + s, width, base);
    }
  }

  lemma {:induction false} AllLeading(s: string, base: nat)
    requires AllDigits(s, base)
    ensures Leading(s, base) == |s|
  {
    if s != "" { AllLeading(s[1..], base); }
  }

  lemma NumberReads(s: string, base: nat, max: nat)
    requires AllDigits(s, base) && ValueOf(s, base) <= max
    ensures FromChars(s, base, max) == ValueOf(s, base)
  {
    AllLeading(s, base);
    assert s[..|s|] == s;
  }

  lemma {:induction false} NumeralLength(n: nat, base: nat, k: nat, bound: nat)
    requires 2 <= base <= 16 && k > 0 && bound == Power(base, k) && n < bound
    ensures |Numeral(n, base)| <= k
    decreases k
  {
    if n >= base {
      assert k > 1;
      var smaller := Power(base, k - 1);
      assert n / base < smaller by { DivideBelow(n, base, smaller); }
      NumeralLength(n / base, base, k - 1, smaller);
    }
  }

  function Power(base: nat, k: nat): nat {
    if k == 0 then 1 else base * Power(base, k - 1)
  }

  lemma DivideBelow(n: nat, d: nat, q: nat)
    requires d > 0 && n < d * q
    ensures n / d < q
  {
  }

  // ----- Times

  lemma {:induction false} NoneOf(s: string, c: char)
    requires forall i | 0 <= i < |s| :: s[i] != c
    ensures Find(s, c) == |s|
  {
  }

  lemma {:induction false} FindAfter(a: string, c: char, rest: string)
    requires forall i | 0 <= i < |a| :: a[i] != c
    ensures Find(a + ([c] + rest), c) == |a|
    ensures (a + ([c] + rest))[..|a|] == a && (a + ([c] + rest))[|a| + 1..] == rest
  {
    var s := a + ([c] + rest);
    assert s[|a|] == c;
    if a == "" {
    } else {
      assert s[1..] == a[1..] + ([c] + rest);
      FindAfter(a[1..], c, rest);
    }
  }

  lemma DigitsArePlain(s: string, base: nat)
    requires base <= 16 && AllDigits(s, base)
    ensures forall i | 0 <= i < |s| :: s[i] !in ",.\n -xX"
  {
    forall i | 0 <= i < |s|
      ensures s[i] !in ",.\n -xX"
    {
      assert DigitValue(s[i], base).Some?;
    }
  }

  /** Signed numbers of seconds: a minus sign in front of digits. */
  lemma SignedReads(a: nat, negative: bool)
    requires a <= INT64_MAX
    ensures FromCharsSigned((if negative then "-" else "") + Numeral(a, 10)) == if negative then 0 - a else a
  {
    hide Numeral, FromChars;
    var digits := Numeral(a, 10);
    NumeralReads(a, 10);
    DigitsArePlain(digits, 10);
    NumberReads(digits, 10, INT64_MAX);
    NumberReads(digits, 10, INT64_MAX + 1);
    if negative {
      assert ("-" + digits)[1..] == digits;
    } else {
      assert "" + digits == digits;
    }
  }

  /** The nine decimals. */
  lemma FractionReads(f: nat)
    requires f < GIGA
    ensures var s := Padded(Numeral(f, 10), 9);
            |s| == 9 && AllDigits(s, 10) && FromCharsSigned(s) == f && ToNine(FromCharsSigned(s), |s|) == f
  {
    hide Numeral, FromChars, Padded, ValueOf;
    NumeralReads(f, 10);
    assert Power(10, 9) == GIGA by { PowerOfTen(); }
    NumeralLength(f, 10, 9, GIGA);
    PaddedReads(Numeral(f, 10), 9, 10);
    var s := Padded(Numeral(f, 10), 9);
    DigitsArePlain(s, 10);
    NumberReads(s, 10, INT64_MAX);
    assert s[0] != '-';
  }

  lemma PowerOfTen()
    ensures Power(10, 9) == GIGA
  {
    assert Power(10, 3) == 1000;
    assert Power(10, 6) == 1_000_000;
  }

  lemma WholeAndFraction(s: string, w: string, f: string)
    requires s == w + (['.'] + f) && forall i | 0 <= i < |w| :: w[i] != '.'
    ensures TimestampOf(s) == FromCharsSigned(w) * GIGA + ToNine(FromCharsSigned(f), |f|)
  {
    hide FromCharsSigned, ToNine;
    FindAfter(w, '.', f);
  }

  /** The decimals of a negative number are added instead of subtracted. */
  lemma TimeReads(negative: bool, n: nat)
    requires n <= GIGA * INT64_MAX
    ensures TimestampOf(FixedText(negative, n)) == if negative then 2 * (n % GIGA) - n else n
  {
    hide Numeral, Padded, FromCharsSigned, ToNine, TimestampOf;
    var sign := if negative then "-" else "";
    var w, f := sign + Numeral(n / GIGA, 10), Padded(Numeral(n % GIGA, 10), 9);
    assert n == (n / GIGA) * GIGA + n % GIGA;
    assert n / GIGA <= INT64_MAX;
    SignedReads(n / GIGA, negative);
    FractionReads(n % GIGA);
    NumeralReads(n / GIGA, 10);
    DigitsArePlain(Numeral(n / GIGA, 10), 10);
    assert FixedText(negative, n) == w + (['.'] + f);
    WholeAndFraction(FixedText(negative, n), w, f);
  }

  function Abs(x: real): real {
    if x < 0.0 then -x else x
  }

  /** 2^52 nanoseconds, about 52 days. */
  const EXACT_NS: int := 0x10_0000_0000_0000

  /** Below 2^52 the conversion to double is exact and the division is off by at most one part in 2^53. */
  ghost predicate DividesAsDouble(seconds: Seconds) {
    forall t: int :: -EXACT_NS < t < EXACT_NS ==> CloseTo(seconds(t), t)
  }

  predicate CloseTo(x: real, t: int) {
    Abs(x * (GIGA as real) - t as real) * (2.0 * EXACT_NS as real) <= Abs(t as real)
  }

  /** The rounding of the division does not show in nine decimals. */
  lemma PrintedIsExact(x: real, t: int)
    requires -EXACT_NS < t < EXACT_NS && CloseTo(x, t)
    ensures PrintedSeconds(x) == FixedText(t < 0, if t < 0 then -t else t)
  {
    hide FixedText, CloseTo;
    ErrorIsSmall(x, t);
    SignIsKept(x, t);
  }

  lemma ErrorIsSmall(x: real, t: int)
    requires -EXACT_NS < t < EXACT_NS && CloseTo(x, t)
    ensures Abs(x * (GIGA as real) - t as real) < 0.5
    ensures t == 0 ==> x * (GIGA as real) == 0.0
  {
    var e := Abs(x * (GIGA as real) - t as real);
    assert e * (2.0 * EXACT_NS as real) <= Abs(t as real) < 1.0 * EXACT_NS as real;
  }

  lemma SignIsKept(x: real, t: int)
    requires Abs(x * (GIGA as real) - t as real) < 0.5
    requires t == 0 ==> x * (GIGA as real) == 0.0
    ensures x < 0.0 <==> t < 0
  {}

  /** The printed time has the sign of the time, and its seconds fit an int64_t. */
  predicate IsTimeOf(x: real, t: int) {
    (x < 0.0 <==> t < 0) && Billionths(x) <= GIGA * INT64_MAX
  }

  /** The billionths whose text is read as the time: the reader adds the decimals of a negative number. */
  function Written(t: int): nat {
    if t >= 0 then t else 2 * (t % GIGA) - t
  }

  lemma WrittenReads(t: int, n: nat)
    requires t < 0
    ensures 2 * (n % GIGA) - n == t <==> n == Written(t)
  {
    if n == Written(t) {
      var f := t % GIGA;
      assert n == (-(t / GIGA)) * GIGA + f;
      RemainderOf(-(t / GIGA), f);
    } else if 2 * (n % GIGA) - n == t {
      assert t == -(n / GIGA) * GIGA + n % GIGA;
      RemainderOf(-(n / GIGA), n % GIGA);
    }
  }

  lemma RemainderOf(q: int, f: nat)
    requires f < GIGA
    ensures (q * GIGA + f) % GIGA == f
  {
  }

  /** A printed time is read back exactly if the division to seconds leaves the right billionths. */
  lemma TimeIsReadBack(x: real, t: int)
    requires IsTimeOf(x, t)
    ensures TimestampOf(PrintedSeconds(x)) == t <==> Billionths(x) == Written(t)
  {
    hide TimestampOf, FixedText, Billionths;
    TimeReads(x < 0.0, Billionths(x));
    if t < 0 { WrittenReads(t, Billionths(x)); }
  }

  /** Below 2^52 ns it is if it is not negative or a whole number of seconds, and only then. */
  lemma ShortTimeIsReadBack(seconds: Seconds, t: int)
    requires DividesAsDouble(seconds) && -EXACT_NS < t < EXACT_NS
    ensures IsTimeOf(seconds(t), t)
    ensures Billionths(seconds(t)) == Written(t) <==> t >= 0 || t % GIGA == 0
  {
    hide CloseTo;
    assert CloseTo(seconds(t), t);
    ErrorIsSmall(seconds(t), t);
    SignIsKept(seconds(t), t);
  }

  /**
   The doubles between 2^30 and 2^31 seconds are multiples of 2^-22, and none is within half a nanosecond of
   this time of November 2023.
   */
  lemma LongTimeIsRounded(x: real, k: int)
    requires x * 4194304.0 == k as real && x >= 0.0
    ensures var t := 1_700_000_000_000_000_001;
            Billionths(x) != Written(t) && (IsTimeOf(x, t) ==> TimestampOf(PrintedSeconds(x)) != t)
  {
    hide TimestampOf, PrintedSeconds;
    assert x * (GIGA as real) * 8192.0 == k as real * 1953125.0;
    if IsTimeOf(x, 1_700_000_000_000_000_001) { TimeIsReadBack(x, 1_700_000_000_000_000_001); }
  }

  // ----- Identifiers and data

  lemma HexIdReads(id: nat)
    requires id <= 0xFFFF
    ensures ParseHexId("0x" + Padded(Numeral(id, 16), 3)) == id % 0x800
    ensures forall i | 0 <= i < |Padded(Numeral(id, 16), 3)| :: Padded(Numeral(id, 16), 3)[i] !in ",.\n -xX"
  {
    hide Numeral, Padded, FromChars, ValueOf;
    NumeralReads(id, 16);
    PaddedReads(Numeral(id, 16), 3, 16);
    var digits := Padded(Numeral(id, 16), 3);
    NumberReads(digits, 16, 0xFFFF_FFFF);
    DigitsArePlain(digits, 16);
    assert ("0x" + digits)[2..] == digits;
  }

  lemma HexByteReads(b: Byte)
    ensures |HexByte(b)| == 2 && AllDigits(HexByte(b), 16) && FromChars(HexByte(b), 16, 255) == b
  {
    hide Numeral, Padded, FromChars, ValueOf;
    NumeralReads(b, 16);
    assert Power(16, 2) == 256;
    NumeralLength(b, 16, 2, 256);
    PaddedReads(Numeral(b, 16), 2, 16);
    NumberReads(HexByte(b), 16, 255);
  }

  lemma {:induction false} DataTextFirst(bytes: seq<Byte>)
    requires |bytes| > 1
    ensures DataText(bytes) == HexByte(bytes[0]) + (" " + DataText(bytes[1..]))
    decreases |bytes|
  {
    hide HexByte;
    var init := bytes[..|bytes| - 1];
    if |bytes| == 2 {
      assert init == [bytes[0]] && bytes[1..] == [bytes[1]];
    } else {
      DataTextFirst(init);
      assert init[1..] == bytes[1..][..|bytes| - 2];
    }
  }

  /** Bytes that follow a space or stand in front are read back one by one. */
  lemma {:induction false} DataReads(bytes: seq<Byte>, n: nat)
    requires |bytes| <= n
    ensures BytesOf(DataText(bytes), n) == bytes
    ensures bytes != [] ==> BytesOf(" " + DataText(bytes), n) == bytes
    decreases |bytes|
  {
    hide HexByte, FromChars, DataText, BytesOf;
    if bytes == [] {
      NoData(n);
    } else {
      var rest := if |bytes| == 1 then "" else " " + DataText(bytes[1..]);
      if |bytes| == 1 { OneByte(bytes[0]); assert bytes == [bytes[0]]; } else { DataTextFirst(bytes); }
      assert DataText(bytes) == HexByte(bytes[0]) + rest;
      if |bytes| == 1 { NoData(n - 1); } else { DataReads(bytes[1..], n - 1); }
      FirstByte(bytes[0], rest, n);
      assert [bytes[0]] + bytes[1..] == bytes;
    }
  }

  lemma NoData(n: nat)
    ensures DataText([]) == "" && BytesOf("", n) == []
  {
  }

  lemma OneByte(b: Byte)
    ensures DataText([b]) == HexByte(b)
  {
  }

  lemma FirstByte(b: Byte, rest: string, n: nat)
    requires n > 0
    ensures BytesOf(HexByte(b) + rest, n) == [b] + BytesOf(rest, n - 1)
    ensures BytesOf(" " + (HexByte(b) + rest), n) == [b] + BytesOf(rest, n - 1)
  {
    hide HexByte, FromChars, BytesOf;
    HexByteReads(b);
    var s := HexByte(b) + rest;
    assert s[..2] == HexByte(b) && s[2..] == rest;
    assert s[0] != ' ' by { DigitsArePlain(HexByte(b), 16); assert s[0] == HexByte(b)[0]; }
    assert (" " + s)[1..] == s;
    assert SkipSpaces(s) == s;
    assert SkipSpaces(" " + s) == s;
    BytesStep(s, n);
    BytesStep(" " + s, n);
  }

  // ----- Rows

  predicate Plain(field: string) {
    forall i | 0 <= i < |field| :: field[i] != ',' && field[i] != '\n'
  }

  /** Splitting undoes joining, except that a trailing empty field is lost. */
  lemma {:induction false} SplitOfJoin(fields: seq<string>)
    requires fields != [] && forall f | f in fields :: Plain(f)
    ensures SplitLine(Join(fields)) == if fields[|fields| - 1] == "" then fields[..|fields| - 1] else fields
    decreases |fields|
  {
    hide Find, Plain, SplitLine, Join;
    var f := fields[0];
    assert Plain(f);
    if |fields| == 1 {
      JoinOne(f);
      assert fields == [f] && fields[..0] == [];
      LastField(f);
    } else {
      assert fields == [f] + fields[1..];
      JoinFirst(f, fields[1..]);
      SplitOfJoin(fields[1..]);
      FirstField(f, Join(fields[1..]));
      var k := |fields| - 1;
      assert [f] + fields[1..][..k - 1] == fields[..k];
    }
  }

  lemma LastField(f: string)
    requires Plain(f)
    ensures SplitLine(f) == if f == "" then [] else [f]
  {
    NoneOf(f, ',');
    assert f[..|f|] == f;
  }

  lemma FirstField(f: string, rest: string)
    requires Plain(f)
    ensures SplitLine(f + ("," + rest)) == [f] + SplitLine(rest)
  {
    hide Find;
    FindAfter(f, ',', rest);
    assert [','] + rest == "," + rest;
  }

  lemma {:induction false} DataIsPlain(bytes: seq<Byte>)
    ensures Plain(DataText(bytes)) && (DataText(bytes) == "" <==> bytes == [])
    decreases |bytes|
  {
    hide HexByte;
    if bytes != [] {
      var b := bytes[|bytes| - 1];
      HexByteReads(b);
      DigitsArePlain(HexByte(b), 16);
      DataIsPlain(bytes[..|bytes| - 1]);
    }
  }

  lemma TimeIsPlain(negative: bool, n: nat)
    ensures Plain(FixedText(negative, n)) && FixedText(negative, n) != ""
  {
    hide Numeral, Padded;
    var w, f := Numeral(n / GIGA, 10), Padded(Numeral(n % GIGA, 10), 9);
    NumeralReads(n / GIGA, 10);
    DigitsArePlain(w, 10);
    FractionReads(n % GIGA);
    DigitsArePlain(f, 10);
    var s := (if negative then "-" else "") + (w + ("." + f));
    forall i | 0 <= i < |s|
      ensures s[i] != ',' && s[i] != '\n'
    {
      var k := if negative then 1 else 0;
      if k <= i < k + |w| {
        assert s[i] == w[i - k];
      } else if i > k + |w| {
        assert s[i] == f[i - k - |w| - 1];
      }
    }
  }

  lemma SecondsArePlain(x: real)
    ensures Plain(PrintedSeconds(x)) && PrintedSeconds(x) != ""
  {
    hide Plain, FixedText, Billionths;
    TimeIsPlain(x < 0.0, Billionths(x));
  }

  lemma NumeralIsPlain(n: nat)
    ensures Plain(Numeral(n, 10)) && Numeral(n, 10) != ""
  {
    NumeralReads(n, 10);
    DigitsArePlain(Numeral(n, 10), 10);
  }

  lemma IdIsPlain(id: nat)
    requires id <= 0xFFFF
    ensures Plain("0x" + Padded(Numeral(id, 16), 3))
  {
    hide Numeral, Padded;
    HexIdReads(id);
    var digits := Padded(Numeral(id, 16), 3);
    forall i | 0 <= i < |"0x" + digits|
      ensures ("0x" + digits)[i] != ',' && ("0x" + digits)[i] != '\n'
    {
      if i >= 2 { assert ("0x" + digits)[i] == digits[i - 2]; }
    }
  }

  lemma FieldsArePlain(seconds: Seconds, m: RawCanMessage)
    requires m.messageId <= 0xFFFF
    ensures forall f | f in RowFields(seconds, m) :: Plain(f)
  {
    hide Plain, PrintedSeconds, Numeral, Padded, DataText;
    SecondsArePlain(seconds(m.receiveTime));
    IdIsPlain(m.messageId);
    NumeralIsPlain(m.dlc);
    DataIsPlain(m.data[..Min(m.dlc, 8)]);
    assert Plain("1") && Plain("Rx") by { WordsArePlain(); }
  }

  lemma WordsArePlain()
    ensures Plain("1") && Plain("Rx")
  {
  }

  const RAW_COLUMNS := Columns(2, 4, 6)

  /** What is left of a frame: the bytes that its length covers, and the low eleven bits of the identifier. */
  function Kept(seconds: Seconds, m: RawCanMessage): RawCanMessage {
    RawCanMessage(TimestampOf(PrintedSeconds(seconds(m.receiveTime))), Filled(m.data[..Min(m.dlc, 8)]),
                  m.messageId % 0x800, m.dlc)
  }

  /** A printed row is read as the frame, except that a frame without data is not read at all. */
  lemma RowReads(seconds: Seconds, m: RawCanMessage)
    requires m.messageId <= 0xFFFF
    ensures RowOf(Row(seconds, m), RAW_COLUMNS) == if m.dlc == 0 then None else Some(Kept(seconds, m))
  {
    hide Plain, PrintedSeconds, Numeral, Padded, DataText, SplitLine, TimestampOf, ParseHexId, FromChars, BytesOf,
         Filled, Join;
    var bytes := m.data[..Min(m.dlc, 8)];
    FieldsArePlain(seconds, m);
    SplitOfJoin(RowFields(seconds, m));
    DataIsPlain(bytes);
    HexIdReads(m.messageId);
    DataReads(bytes, 8);
    DlcReads(m.dlc);
  }

  lemma DlcReads(dlc: Byte)
    ensures FromChars(Numeral(dlc, 10), 10, 255) == dlc
  {
    NumeralReads(dlc, 10);
    NumberReads(Numeral(dlc, 10), 10, 255);
  }

  /** Bytes that the length does not cover are zero. */
  predicate Padding(m: RawCanMessage) {
    forall i | m.dlc <= i < 8 :: m.data[i] == 0
  }

  /** Exactly these frames are read back unchanged. */
  lemma RowRoundTrip(seconds: Seconds, m: RawCanMessage)
    requires m.messageId <= 0xFFFF && IsTimeOf(seconds(m.receiveTime), m.receiveTime)
    ensures RowOf(Row(seconds, m), RAW_COLUMNS) == Some(m)
            <==> && m.dlc >= 1 && m.messageId <= 0x7FF && Padding(m)
                 && Billionths(seconds(m.receiveTime)) == Written(m.receiveTime)
  {
    hide RowOf, Row, TimestampOf, PrintedSeconds, Billionths, Written, IsTimeOf;
    RowReads(seconds, m);
    TimeIsReadBack(seconds(m.receiveTime), m.receiveTime);
    var kept := Filled(m.data[..Min(m.dlc, 8)]);
    assert kept == m.data <==> Padding(m) by {
      if Padding(m) {
        forall i | 0 <= i < 8
          ensures kept[i] == m.data[i]
        {
        }
      } else {
        var i :| m.dlc <= i < 8 && m.data[i] != 0;
        assert kept[i] == 0;
      }
    }
  }

  /** Within 52 days of zero only the sign of the time matters. */
  lemma ShortRowRoundTrip(seconds: Seconds, m: RawCanMessage)
    requires m.messageId <= 0xFFFF && DividesAsDouble(seconds) && -EXACT_NS < m.receiveTime < EXACT_NS
    ensures RowOf(Row(seconds, m), RAW_COLUMNS) == Some(m)
            <==> m.dlc >= 1 && m.messageId <= 0x7FF && Padding(m) && (m.receiveTime >= 0 || m.receiveTime % GIGA == 0)
  {
    hide RowOf, Row, Billionths, Written, IsTimeOf, DividesAsDouble;
    ShortTimeIsReadBack(seconds, m.receiveTime);
    RowRoundTrip(seconds, m);
  }

  // ----- Files

  /** Lines, each with its end of line. */
  function LinesText(lines: seq<string>): string {
    if lines == [] then "" else LinesText(lines[..|lines| - 1]) + (lines[|lines| - 1] + "\n")
  }

  /** A row and its end of line at the end of a text add one record. */
  lemma {:induction false} LinesAppend(text: string, line: string)
    requires NoNewline(line) && line != "" && (text == "" || text[|text| - 1] == '\n')
    ensures DataLines(text + (line + "\n")) == DataLines(text) + [line]
    decreases |text|
  {
    hide Find, DataLines;
    var whole := text + (line + "\n");
    if text == "" {
      FindAfter(line, '\n', "");
      assert whole == line + (['\n'] + "");
      NextLine(whole);
      NoLines();
    } else {
      FindFirst(text, line + "\n", '\n');
      var k := Find(text, '\n');
      var rest := text[k + 1..];
      assert rest == "" || rest[|rest| - 1] == '\n';
      LinesAppend(rest, line);
      NextLine(text);
      FirstLineWithin(text, line + "\n");
    }
  }

  /** Text behind the first line does not change the first line. */
  lemma FirstLineWithin(text: string, more: string)
    requires text != "" && text[|text| - 1] == '\n' && Find(text, '\n') < |text|
    ensures var k := Find(text, '\n');
            DataLines(text + more) == (if k == 0 then [] else [text[..k]]) + DataLines(text[k + 1..] + more)
  {
    hide Find, DataLines;
    var k := Find(text, '\n');
    FindFirst(text, more, '\n');
    NextLine(text + more);
    assert (text + more)[k + 1..] == text[k + 1..] + more && (text + more)[..k] == text[..k];
  }

  lemma NextLine(s: string)
    requires s != ""
    ensures var k := Find(s, '\n');
            DataLines(s) == (if k == 0 then [] else [s[..k]]) + DataLines(if k < |s| then s[k + 1..] else "")
  {
    hide Find;
  }

  predicate NoNewline(s: string) {
    forall i | 0 <= i < |s| :: s[i] != '\n'
  }

  lemma {:induction false} FindFirst(text: string, more: string, c: char)
    requires text != "" && text[|text| - 1] == c
    ensures Find(text + more, c) == Find(text, c) < |text|
    decreases |text|
  {
    if text[0] != c {
      assert (text + more)[1..] == text[1..] + more;
      FindFirst(text[1..], more, c);
    }
  }

  lemma {:induction false} JoinIsOneLine(fields: seq<string>)
    requires forall f | f in fields :: Plain(f)
    ensures NoNewline(Join(fields))
    decreases |fields|
  {
    if fields != [] {
      assert Plain(fields[0]);
      JoinIsOneLine(fields[1..]);
    }
  }

  lemma RowIsOneLine(seconds: Seconds, m: RawCanMessage)
    requires m.messageId <= 0xFFFF
    ensures NoNewline(Row(seconds, m)) && Row(seconds, m) != ""
  {
    hide PrintedSeconds, Numeral, Padded, DataText, Join, Plain;
    FieldsArePlain(seconds, m);
    JoinIsOneLine(RowFields(seconds, m));
    SecondsArePlain(seconds(m.receiveTime));
    var f := RowFields(seconds, m);
    JoinSeven(f[0], f[1], f[2], f[3], f[4], f[5], f[6]);
  }

  function Rows(seconds: Seconds, messages: seq<RawCanMessage>): (r: seq<string>)
    ensures |r| == |messages| && forall i | 0 <= i < |r| :: r[i] == Row(seconds, messages[i])
  {
    seq(|messages|, i requires 0 <= i < |messages| => Row(seconds, messages[i]))
  }

  /** The records of a written file are its lines. */
  lemma {:induction false} RecordsAreLines(lines: seq<string>)
    requires forall line | line in lines :: NoNewline(line) && line != ""
    ensures DataLines(LinesText(lines)) == lines
    ensures var text := LinesText(lines); text == "" || text[|text| - 1] == '\n'
    decreases |lines|
  {
    hide DataLines, NoNewline;
    if lines == [] {
      assert DataLines("") == [] by { NoLines(); }
    } else {
      var init, last := lines[..|lines| - 1], lines[|lines| - 1];
      RecordsAreLines(init);
      assert last in lines;
      LinesAppend(LinesText(init), last);
      assert init + [last] == lines;
    }
  }

  lemma NoLines()
    ensures DataLines("") == []
  {
  }

  /** The headers of a raw export. */
  const RAW_HEADERS: seq<string> := ["Time (s)", "Channel", "ID", "Direction", "DLC", "Data Length", "Data"]

  lemma HeadersArePlain()
    ensures forall f | f in RAW_HEADERS :: Plain(f)
    ensures "ID" in RAW_HEADERS
  {
    assert RAW_HEADERS[2] == "ID";
  }

  lemma HeaderColumns(before: Columns)
    ensures ColumnsOf(RAW_HEADERS, before) == RAW_COLUMNS
  {
    var h := RAW_HEADERS;
    assert h[..6][..5] == h[..5] && h[..5][..4] == h[..4] && h[..4][..3] == h[..3] && h[..3][..2] == h[..2]
           && h[..2][..1] == h[..1]
        && h[..1][..0] == [];
    assert ColumnsOf(h[..1], before) == before;
    assert ColumnsOf(h[..2], before) == before;
    assert ColumnsOf(h[..3], before) == before.(id := 2);
    assert ColumnsOf(h[..4], before) == before.(id := 2);
    assert ColumnsOf(h[..5], before) == before.(id := 2, dlc := 4);
    assert ColumnsOf(h[..6], before) == before.(id := 2, dlc := 4);
  }

  /** A file with its header row. */
  function FileText(headers: seq<string>, lines: seq<string>): string {
    Join(headers) + ("\n" + LinesText(lines))
  }

  /** The headers that are found again: a last one without a name is lost. */
  function Seen(headers: seq<string>): (r: seq<string>)
    ensures |r| <= |headers| && r == headers[..|r|]
  {
    if headers != [] && headers[|headers| - 1] == "" then headers[..|headers| - 1] else headers
  }

  /** Opening a written file: its headers and its records. */
  lemma FileOpens(headers: seq<string>, lines: seq<string>)
    requires forall h | h in headers :: Plain(h)
    ensures GetLine(FileText(headers, lines)) == Some((Join(headers), LinesText(lines)))
    ensures SplitLine(Join(headers)) == Seen(headers)
  {
    hide LinesText, SplitLine, GetLine, Find, Plain;
    JoinIsOneLine(headers);
    if headers == [] { LastField(""); } else { SplitOfJoin(headers); }
    HeaderLine(Join(headers), LinesText(lines));
  }

  lemma HeaderLine(line: string, rest: string)
    requires NoNewline(line)
    ensures GetLine(line + ("\n" + rest)) == Some((line, rest))
  {
    hide Find;
    FindAfter(line, '\n', rest);
    assert ['\n'] + rest == "\n" + rest;
  }

  method Export(messages: seq<RawCanMessage>, seconds: Seconds, print3: Print) returns (file: string)
    ensures file == FileText(RAW_HEADERS, Rows(seconds, messages))
  {
    hide Join, Row;
    var writer := new CsvWriter(false, RAW_HEADERS, seconds, print3);
    assert Rows(seconds, messages[..0]) == [];
    for i := 0 to |messages|
      invariant fresh(writer) && writer.seconds == seconds
      invariant writer.file == Join(RAW_HEADERS) + ("\n" + LinesText(Rows(seconds, messages[..i])))
    {
      var rows := Rows(seconds, messages[..i + 1]);
      assert rows[..i] == Rows(seconds, messages[..i]);
      writer.WriteRaw(messages[i]);
    }
    assert messages[..|messages|] == messages;
    file := writer.file;
  }

  /** The file of an export, opened anew: record k is frame k, and behind the last one is the end. */
  method ReadBack(messages: seq<RawCanMessage>, seconds: Seconds, print3: Print, k: nat)
    returns (sought: bool, message: Option<RawCanMessage>, atEnd: bool)
    requires forall m | m in messages :: m.messageId <= 0xFFFF
    ensures sought == (k <= |messages|)
    ensures message == if k < |messages| && messages[k].dlc > 0 then Some(Kept(seconds, messages[k])) else None
    ensures atEnd == (k + 1 >= |messages|)
  {
    hide RowOf, Row, FileText, DataLines, SplitLine, ColumnsOf, IdColumn, Kept, GetLine, LinesText, Join;
    var file := Export(messages, seconds, print3);
    HeadersArePlain();
    FileOpens(RAW_HEADERS, Rows(seconds, messages));
    forall line | line in Rows(seconds, messages)
      ensures NoNewline(line) && line != ""
    {
      var i :| 0 <= i < |messages| && Rows(seconds, messages)[i] == line;
      RowIsOneLine(seconds, messages[i]);
    }
    RecordsAreLines(Rows(seconds, messages));
    var reader := new CsvReader();
    HeaderColumns(reader.columns);
    var ok := reader.Open(Some(file));
    sought := reader.Seek(k);
    if k < |messages| { RowReads(seconds, messages[k]); }
    message := reader.ReadRaw();
    atEnd := reader.eof;
  }

  // ----- DBC files

  /** Printed values are cells of their own and are read as what three decimals leave of them. */
  ghost predicate PrintsNumbers(print3: Print, stod: Stod, rounded: real -> real) {
    forall v :: NumberCell(print3(v)) && stod(print3(v)) == Some(rounded(v))
  }

  lemma NumberReadBack(print3: Print, stod: Stod, rounded: real -> real, v: real)
    requires PrintsNumbers(print3, stod, rounded)
    ensures NumberCell(print3(v)) && stod(print3(v)) == Some(rounded(v))
  {}

  predicate NumberCell(s: string) {
    Plain(s) && s != "" && s != "-"
  }

  /**
   What a column keeps of a message: nothing of the identifier, or the first value of its signal as it is
   printed.  A further column called MsgID holds the identifier again, which is read as a value.
   */
  function KeptCell(header: string, isId: bool, m: DbcCanMessage, stod: Stod, rounded: real -> real): seq<SignalValue> {
    if isId then []
    else if header == "MsgID" then
      var v := stod(IdText(m.messageId));
      if v.Some? then [SignalValue(header, v.value)] else []
    else
      var v := FirstValueOf(m.signalValues, header);
      if v.Some? then [SignalValue(header, rounded(v.value))] else []
  }

  /** The signals of a message that have a column, in the order of the columns. */
  function Listed(headers: seq<string>, n: nat, idColumn: Option<nat>, m: DbcCanMessage, stod: Stod,
                  rounded: real -> real): seq<SignalValue>
    requires n <= |headers|
  {
    if n <= 1 then []
    else
      Listed(headers, n - 1, idColumn, m, stod, rounded)
      + KeptCell(headers[n - 1], idColumn == Some(n - 1), m, stod, rounded)
  }

  lemma CellIsPlain(header: string, m: DbcCanMessage, print3: Print, stod: Stod, rounded: real -> real)
    requires PrintsNumbers(print3, stod, rounded) && m.messageId <= 0xFFFF
    ensures Plain(Cell(header, m, print3)) && Cell(header, m, print3) != ""
  {
    hide Numeral, Padded, FirstValueOf;
    IdIsPlain(m.messageId);
    var v := FirstValueOf(m.signalValues, header);
    if v.Some? { NumberReadBack(print3, stod, rounded, v.value); }
  }

  lemma CellReads(header: string, isId: bool, m: DbcCanMessage, print3: Print, stod: Stod, rounded: real -> real)
    requires PrintsNumbers(print3, stod, rounded)
    ensures CellOf(header, Cell(header, m, print3), isId, stod) == KeptCell(header, isId, m, stod, rounded)
  {
    hide FirstValueOf, Numeral, Padded;
    var v := FirstValueOf(m.signalValues, header);
    if v.Some? { NumberReadBack(print3, stod, rounded, v.value); }
  }

  lemma {:induction false} CellsRead(headers: seq<string>, fields: seq<string>, n: nat, idColumn: Option<nat>,
                                     m: DbcCanMessage, print3: Print, stod: Stod, rounded: real -> real)
    requires PrintsNumbers(print3, stod, rounded) && n <= |headers| <= |fields|
    requires forall i | 1 <= i < n :: fields[i] == Cell(headers[i], m, print3)
    ensures CellsOf(headers, fields, n, idColumn, stod) == Listed(headers, n, idColumn, m, stod, rounded)
  {
    hide CellOf, Cell, KeptCell, PrintsNumbers;
    if n > 1 {
      CellsRead(headers, fields, n - 1, idColumn, m, print3, stod, rounded);
      CellReads(headers[n - 1], idColumn == Some(n - 1), m, print3, stod, rounded);
    }
  }

  /** What is left of a message in a DBC file with these headers. */
  function KeptDbc(headers: seq<string>, m: DbcCanMessage, seconds: Seconds, stod: Stod,
                   rounded: real -> real): DbcCanMessage {
    DbcCanMessage(TimestampOf(PrintedSeconds(seconds(m.receiveTime))),
                  Listed(headers, |headers|, IdColumn(headers), m, stod, rounded),
                  if IdColumn(headers).Some? then m.messageId % 0x800 else 0)
  }

  function DbcRow(headers: seq<string>, m: DbcCanMessage, seconds: Seconds, print3: Print): string {
    Join(DbcRowFields(headers, m, seconds, print3))
  }

  lemma DbcFieldsArePlain(headers: seq<string>, m: DbcCanMessage, seconds: Seconds, print3: Print, stod: Stod,
                          rounded: real -> real)
    requires PrintsNumbers(print3, stod, rounded) && m.messageId <= 0xFFFF
    ensures forall f | f in DbcRowFields(headers, m, seconds, print3) :: Plain(f) && f != ""
  {
    hide Plain, PrintedSeconds, Cell, PrintsNumbers;
    var fields := DbcRowFields(headers, m, seconds, print3);
    SecondsArePlain(seconds(m.receiveTime));
    forall f | f in fields
      ensures Plain(f) && f != ""
    {
      var i :| 0 <= i < |fields| && fields[i] == f;
      if i > 0 { CellIsPlain(headers[i], m, print3, stod, rounded); }
    }
  }

  /** A printed DBC row is read as its time, identifier and listed signals. */
  lemma DbcRowReads(names: seq<string>, m: DbcCanMessage, seconds: Seconds, print3: Print, stod: Stod,
                    rounded: real -> real)
    requires PrintsNumbers(print3, stod, rounded) && m.messageId <= 0xFFFF
    ensures var headers := FileHeaders(true, names); var seen := Seen(headers);
            DbcRowOf(DbcRow(headers, m, seconds, print3), seen, IdColumn(seen), stod)
            == Some(KeptDbc(seen, m, seconds, stod, rounded))
  {
    hide Plain, PrintedSeconds, SplitLine, TimestampOf, ParseHexId, Join, CellsOf, Listed, PrintsNumbers, IdText,
         IdColumn, Cell;
    var headers := FileHeaders(true, names);
    var seen, fields := Seen(headers), DbcRowFields(headers, m, seconds, print3);
    DbcFieldsArePlain(headers, m, seconds, print3, stod, rounded);
    SplitOfJoin(fields);
    assert fields[|fields| - 1] in fields;
    assert SplitLine(DbcRow(headers, m, seconds, print3)) == fields;
    assert Min(|seen|, |fields|) == |seen|;
    IdCellReads(names, fields, m, seconds, print3);
    CellsRead(seen, fields, |seen|, IdColumn(seen), m, print3, stod, rounded);
  }

  lemma IdCellReads(names: seq<string>, fields: seq<string>, m: DbcCanMessage, seconds: Seconds, print3: Print)
    requires m.messageId <= 0xFFFF && fields == DbcRowFields(FileHeaders(true, names), m, seconds, print3)
    ensures var id := IdColumn(Seen(FileHeaders(true, names)));
            id.Some? ==> id.value < |fields| && ParseHexId(fields[id.value]) == m.messageId % 0x800
  {
    hide PrintedSeconds, ParseHexId, Numeral, Padded, IdColumn, FirstValueOf;
    var headers := FileHeaders(true, names);
    var seen := Seen(headers);
    HexIdReads(m.messageId);
    IdColumnIsLast(seen);
    var id := IdColumn(seen);
    if id.Some? {
      assert headers[1] == "MsgID" && |seen| >= 2 && seen[1] == "MsgID" && id.value >= 1;
      assert headers[id.value] == "MsgID";
      assert fields[id.value] == Cell("MsgID", m, print3) == IdText(m.messageId);
    }
  }

  /** The identifier is looked for in the last column called MsgID. */
  lemma {:induction false} IdColumnIsLast(headers: seq<string>)
    ensures match IdColumn(headers)
            case None => "MsgID" !in headers
            case Some(i) => i < |headers| && headers[i] == "MsgID" && forall k | i < k < |headers| ::
                headers[k] != "MsgID"
    decreases |headers|
  {
    if headers != [] {
      IdColumnIsLast(headers[..|headers| - 1]);
    }
  }

  lemma DbcRowIsOneLine(headers: seq<string>, m: DbcCanMessage, seconds: Seconds, print3: Print, stod: Stod,
                        rounded: real -> real)
    requires PrintsNumbers(print3, stod, rounded) && m.messageId <= 0xFFFF
    ensures NoNewline(DbcRow(headers, m, seconds, print3)) && DbcRow(headers, m, seconds, print3) != ""
  {
    hide Plain, PrintedSeconds, PrintsNumbers, Cell;
    var fields := DbcRowFields(headers, m, seconds, print3);
    DbcFieldsArePlain(headers, m, seconds, print3, stod, rounded);
    JoinIsOneLine(fields);
    SecondsArePlain(seconds(m.receiveTime));
    if |fields| > 1 {
      JoinFirst(fields[0], fields[1..]);
      assert [fields[0]] + fields[1..] == fields;
    }
  }

  function DbcRows(headers: seq<string>, messages: seq<DbcCanMessage>, seconds: Seconds,
                   print3: Print): (r: seq<string>)
    ensures |r| == |messages| && forall i | 0 <= i < |r| :: r[i] == DbcRow(headers, messages[i], seconds, print3)
  {
    seq(|messages|, i requires 0 <= i < |messages| => DbcRow(headers, messages[i], seconds, print3))
  }

  lemma NoDbcRows(headers: seq<string>, seconds: Seconds, print3: Print)
    ensures LinesText(DbcRows(headers, [], seconds, print3)) == ""
  {
  }

  lemma NextDbcRow(headers: seq<string>, messages: seq<DbcCanMessage>, i: nat, seconds: Seconds, print3: Print)
    requires i < |messages|
    ensures LinesText(DbcRows(headers, messages[..i + 1], seconds, print3))
            == LinesText(DbcRows(headers, messages[..i], seconds, print3))
                + (Join(DbcRowFields(headers, messages[i], seconds, print3)) + "\n")
  {
    hide Join, DbcRowFields;
    assert DbcRows(headers, messages[..i + 1], seconds, print3)[..i]
           == DbcRows(headers, messages[..i], seconds, print3);
  }

  method ExportDbc(names: seq<string>, messages: seq<DbcCanMessage>, seconds: Seconds, print3: Print)
    returns (file: string)
    ensures var headers := FileHeaders(true, names);
            file == FileText(headers, DbcRows(headers, messages, seconds, print3))
  {
    hide Join, DbcRow, FileHeaders, LinesText, DbcRows;
    var writer := new CsvWriter(true, names, seconds, print3);
    ghost var headers := FileHeaders(true, names);
    NoDbcRows(headers, seconds, print3);
    for i := 0 to |messages|
      invariant fresh(writer) && writer.headers == headers && writer.seconds == seconds && writer.print3 == print3
      invariant writer.file == Join(headers) + ("\n" + LinesText(DbcRows(headers, messages[..i], seconds, print3)))
    {
      NextDbcRow(headers, messages, i, seconds, print3);
      ghost var before := writer.file;
      writer.WriteDbc(messages[i]);
      assert writer.file == before + (Join(DbcRowFields(headers, messages[i], seconds, print3)) + "\n");
    }
    assert messages[..|messages|] == messages;
    file := writer.file;
  }

  /**
   A DBC file, opened anew.  It is taken for a raw file exactly if one of its columns is called ID; otherwise
   record k is message k.
   */
  method ReadBackDbc(names: seq<string>, messages: seq<DbcCanMessage>, seconds: Seconds, print3: Print, stod: Stod,
                     ghost rounded: real -> real, k: nat)
    returns (sought: bool, message: Option<DbcCanMessage>, isRaw: bool)
    requires PrintsNumbers(print3, stod, rounded)
    requires (forall h | h in names :: Plain(h)) && forall m | m in messages :: m.messageId <= 0xFFFF
    ensures sought == (k <= |messages|) && isRaw == ("ID" in names)
    ensures message == if k < |messages| && "ID" !in names
                       then Some(KeptDbc(Seen(FileHeaders(true, names)), messages[k], seconds, stod, rounded)) else None
  {
    hide DbcRowOf, DbcRow, FileText, DataLines, SplitLine, ColumnsOf, IdColumn, KeptDbc, GetLine, LinesText, Join,
         PrintsNumbers;
    ghost var headers := FileHeaders(true, names);
    var file := ExportDbc(names, messages, seconds, print3);
    ghost var rows := DbcRows(headers, messages, seconds, print3);
    HeadersOf(names);
    FileOpens(headers, rows);
    forall line | line in rows
      ensures NoNewline(line) && line != ""
    {
      var i :| 0 <= i < |messages| && rows[i] == line;
      DbcRowIsOneLine(headers, messages[i], seconds, print3, stod, rounded);
    }
    RecordsAreLines(rows);
    var reader := new CsvReader();
    var ok := reader.Open(Some(file));
    sought := reader.Seek(k);
    if k < |messages| { DbcRowReads(names, messages[k], seconds, print3, stod, rounded); }
    isRaw := reader.isRaw;
    message := reader.ReadDbc(stod);
  }

  lemma HeadersOf(names: seq<string>)
    requires forall h | h in names :: Plain(h)
    ensures var headers := FileHeaders(true, names);
            (forall h | h in headers :: Plain(h)) && ("ID" in Seen(headers) <==> "ID" in names)
  {
    hide Plain;
    assert Plain("MsgID") by { IdHeaderIsPlain(); }
    var headers := FileHeaders(true, names);
    if names != [] { assert headers == [names[0], "MsgID"] + names[1..] && names == [names[0]] + names[1..]; }
    assert "ID" in Seen(headers) <==> "ID" in headers by {
      assert headers != Seen(headers) ==> headers == Seen(headers) + [""];
    }
  }

  lemma IdHeaderIsPlain()
    ensures Plain("MsgID")
  {
  }
}
