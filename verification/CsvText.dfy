/**
 The text of CSV rows: numbers and fields, what a row says (src/can_stream/reader/csv_reader.cpp:23-63, 185-255), and
 what the writer prints (src/can_stream/writer/csv_writer.cpp:42-86).
 */
module CsvText {
  import opened Bits
  import opened CanTypes

  // ----- Numbers

  function DigitChar(d: nat): char
    requires d < 16
  {
    if d < 10 then ('0' as int + d) as char else ('A' as int + d - 10) as char
  }

  function DigitValue(c: char, base: nat): (r: Option<nat>)
    ensures r.Some? ==> r.value < base
  {
    var v := if '0' <= c <= '9' then c as int - '0' as int
             else if 'a' <= c <= 'z' then c as int - 'a' as int + 10
             else if 'A' <= c <= 'Z' then c as int - 'A' as int + 10
             else base;
    if v < base then Some(v) else None
  }

  /** How many digits the text starts with. */
  function Leading(s: string, base: nat): (n: nat)
    ensures n <= |s| && forall i | 0 <= i < n :: DigitValue(s[i], base).Some?
  {
    if s == "" || DigitValue(s[0], base).None? then 0 else 1 + Leading(s[1..], base)
  }

  function ValueOf(s: string, base: nat): nat
    requires forall i | 0 <= i < |s| :: DigitValue(s[i], base).Some?
  {
    if s == "" then 0 else base * ValueOf(s[..|s| - 1], base) + DigitValue(s[|s| - 1], base).value
  }

  /** std::from_chars into a variable that holds 0: without digits or out of range it stays 0. */
  function FromChars(s: string, base: nat, max: nat): (r: nat)
    ensures r <= max
  {
    var v := ValueOf(s[..Leading(s, base)], base);
    if v <= max then v else 0
  }

  const INT64_MAX: nat := 0x7FFF_FFFF_FFFF_FFFF

  /** The signed form accepts a minus sign. */
  function FromCharsSigned(s: string): int {
    if s != "" && s[0] == '-' then 0 - FromChars(s[1..], 10, INT64_MAX + 1) else FromChars(s, 10, INT64_MAX)
  }

  function Numeral(n: nat, base: nat): (s: string)
    requires 2 <= base <= 16
    ensures s != ""
    decreases n
  {
    if n < base then [DigitChar(n)] else Numeral(n / base, base) + [DigitChar(n % base)]
  }

  /** std::setw with std::setfill('0') */
  function Padded(s: string, width: nat): string
    decreases width - |s|
  {
    if |s| < width then Padded("0" + s, width) else s
  }

  function Find(s: string, c: char): (n: nat)
    ensures n <= |s| && (forall i | 0 <= i < n :: s[i] != c) && (n < |s| ==> s[n] == c)
  {
    if s == "" || s[0] == c then 0 else 1 + Find(s[1..], c)
  }

  // ----- Fields

  /** splitLine: a trailing empty field is not reported. */
  function SplitLine(s: string): seq<string>
    decreases |s|
  {
    if s == "" then []
    else
      var k := Find(s, ',');
      [s[..k]] + if k < |s| then SplitLine(s[k + 1..]) else []
  }

  /** parseHexId: the low eleven bits. */
  function ParseHexId(s: string): nat {
    var digits := if |s| >= 2 && s[0] == '0' && (s[1] == 'x' || s[1] == 'X') then s[2..] else s;
    FromChars(digits, 16, 0xFFFF_FFFF) % 0x800
  }

  /** Division towards zero, as in C++. */
  function Truncated(x: int, d: int): int
    requires d > 0
  {
    if x >= 0 then x / d else -(-x / d)
  }

  /** A fraction of `length` digits in billionths. */
  function ToNine(fraction: int, length: nat): int
    decreases if length < 9 then 9 - length else length - 9
  {
    if length < 9 then ToNine(fraction * 10, length + 1)
    else if length > 9 then ToNine(Truncated(fraction, 10), length - 1)
    else fraction
  }

  const GIGA: int := 1_000_000_000

  /** parseTimestampNs */
  function TimestampOf(s: string): int {
    var dot := Find(s, '.');
    var whole := FromCharsSigned(s[..dot]);
    var fraction := if dot == |s| then 0 else ToNine(FromCharsSigned(s[dot + 1..]), |s| - dot - 1);
    whole * GIGA + fraction
  }

  function SkipSpaces(s: string): (r: string)
    ensures |r| <= |s|
  {
    if s != "" && s[0] == ' ' then SkipSpaces(s[1..]) else s
  }

  /** At most n bytes of two hexadecimal digits each. */
  function BytesOf(s: string, n: nat): (r: seq<Byte>)
    ensures |r| <= n
    decreases n
  {
    if n == 0 || s == "" then []
    else
      var t := SkipSpaces(s);
      if |t| < 2 then [] else [FromChars(t[..2], 16, 255)] + BytesOf(t[2..], n - 1)
  }

  /** Fewer than eight bytes are followed by zeros. */
  function Filled(bytes: seq<Byte>): (r: Payload)
    requires |bytes| <= 8
    ensures forall i | 0 <= i < 8 :: r[i] == if i < |bytes| then bytes[i] else 0
  {
    seq(8, i requires 0 <= i < 8 => if i < |bytes| then bytes[i] else 0)
  }

  /** Where the columns of a raw file are. */
  datatype Columns = Columns(id: nat, dlc: nat, data: nat)

  /**
   What a raw row says.  A row without a data field is not a frame.  An identifier column behind the
   data column that the row lacks is undefined behaviour in the code; it stands for an empty field here.
   */
  function RowOf(line: string, c: Columns): Option<RawCanMessage> {
    var fields := SplitLine(line);
    if |fields| <= c.data then None
    else
      Some(RawCanMessage(
             TimestampOf(fields[0]),
             Filled(BytesOf(fields[c.data], 8)),
             ParseHexId(if c.id < |fields| then fields[c.id] else ""),
             if c.dlc < |fields| then FromChars(fields[c.dlc], 10, 255) else 0))
  }

  /** What one cell of a DBC row says: nothing in the identifier column, without a value and without a number. */
  function CellOf(header: string, field: string, isId: bool, stod: Stod): seq<SignalValue> {
    var v := if isId || field == "" || field == "-" then None else stod(field);
    if v.Some? then [SignalValue(header, v.value)] else []
  }

  /** What a DBC row says about its signals. */
  function CellsOf(headers: seq<string>, fields: seq<string>, n: nat, idColumn: Option<nat>,
                   stod: Stod): seq<SignalValue>
    requires n <= |headers| && n <= |fields|
  {
    if n <= 1 then []
    else
      var i := n - 1;
      CellsOf(headers, fields, i, idColumn, stod) + CellOf(headers[i], fields[i], idColumn == Some(i), stod)
  }

  /** std::stod: None where it throws. */
  type Stod = string -> Option<real>

  /** What a DBC row says. */
  function DbcRowOf(line: string, headers: seq<string>, idColumn: Option<nat>, stod: Stod): Option<DbcCanMessage> {
    var fields := SplitLine(line);
    if fields == [] then None
    else
      Some(DbcCanMessage(
             TimestampOf(fields[0]),
             CellsOf(headers, fields, Min(|headers|, |fields|), idColumn, stod),
             if idColumn.Some? && idColumn.value < |fields| then ParseHexId(fields[idColumn.value]) else 0))
  }

  // ----- Lines

  /** std::getline: the line and what is left behind it. */
  function GetLine(s: string): Option<(string, string)> {
    if s == "" then None
    else
      var k := Find(s, '\n');
      Some((s[..k], if k < |s| then s[k + 1..] else ""))
  }

  /** The lines that are not empty. */
  function DataLines(s: string): (r: seq<string>)
    ensures forall line | line in r :: line != ""
    decreases |s|
  {
    if s == "" then []
    else
      var (line, rest) := GetLine(s).value;
      (if line == "" then [] else [line]) + DataLines(rest)
  }

  // ----- What the writer prints

  /** A number of billionths with nine decimals. */
  function FixedText(negative: bool, n: nat): string {
    (if negative then "-" else "") + (Numeral(n / GIGA, 10) + ("." + Padded(Numeral(n % GIGA, 10), 9)))
  }

  /** The time in nanoseconds as a double in seconds: static_cast<double>(count) / 1e9. */
  type Seconds = int -> real

  /** The nearest number of billionths. */
  function Billionths(x: real): nat {
    ((if x < 0.0 then -x else x) * (GIGA as real) + 0.5).Floor
  }

  /** std::fixed with std::setprecision(9). */
  function PrintedSeconds(x: real): string {
    FixedText(x < 0.0, Billionths(x))
  }

  function HexByte(b: Byte): string {
    Padded(Numeral(b, 16), 2)
  }

  function DataText(bytes: seq<Byte>): string {
    if bytes == [] then ""
    else if |bytes| == 1 then HexByte(bytes[0])
    else DataText(bytes[..|bytes| - 1]) + (" " + HexByte(bytes[|bytes| - 1]))
  }

  function Min(a: nat, b: nat): nat {
    if a < b then a else b
  }

  /** The fields joined by commas. */
  function Join(fields: seq<string>): string {
    if fields == [] then ""
    else if |fields| == 1 then fields[0]
    else fields[0] + ("," + Join(fields[1..]))
  }

  function RowFields(seconds: Seconds, m: RawCanMessage): seq<string> {
    [PrintedSeconds(seconds(m.receiveTime)), "1", IdText(m.messageId), "Rx", Numeral(m.dlc, 10), Numeral(m.dlc, 10),
     DataText(m.data[..Min(m.dlc, 8)])]
  }

  /** The line of a raw frame. */
  function Row(seconds: Seconds, m: RawCanMessage): string {
    Join(RowFields(seconds, m))
  }

  function IdText(id: nat): string {
    "0x" + Padded(Numeral(id, 16), 3)
  }

  /** A number with three decimals, as the stream prints it. */
  type Print = real -> string

  function Cell(header: string, m: DbcCanMessage, print3: Print): string {
    if header == "MsgID" then IdText(m.messageId)
    else
      var v := FirstValueOf(m.signalValues, header);
      if v.Some? then print3(v.value) else "-"
  }

  /** The time and one cell per further header. */
  function DbcRowFields(headers: seq<string>, m: DbcCanMessage, seconds: Seconds, print3: Print): (r: seq<string>)
    ensures |r| == if headers == [] then 1 else |headers|
    ensures r[0] == PrintedSeconds(seconds(m.receiveTime)) && forall i | 1 <= i < |r| ::
            r[i] == Cell(headers[i], m, print3)
  {
    [PrintedSeconds(seconds(m.receiveTime))]
    + if headers == [] then []
      else seq(|headers| - 1, i requires 0 <= i < |headers| - 1 => Cell(headers[i + 1], m, print3))
  }

  /** The column for the identifier is put behind the time in a DBC export. */
  function FileHeaders(isDbc: bool, headers: seq<string>): seq<string> {
    if isDbc && headers != [] then [headers[0], "MsgID"] + headers[1..] else headers
  }
}
