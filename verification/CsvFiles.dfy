/**
 The CSV reader with its lookahead line (src/can_stream/reader/csv_reader.cpp:64-255) and the writer
 (src/can_stream/writer/csv_writer.cpp:23-86).
 */
module CsvFiles {
  import opened Bits
  import opened CanTypes
  import opened CsvText

  class CsvReader {
    /** The file, and what has not been read of it. */
    var content: string
    var rest: string
    var dataStart: string
    var nextLine: string
    var isRaw: bool
    var open: bool
    var eof: bool
    var cursor: nat
    var recordCount: nat
    var columnHeaders: seq<string>
    var columns: Columns
    var msgIdColumn: Option<nat>

    /** The records of the file. */
    ghost function Records(): seq<string>
      reads this
    {
      DataLines(dataStart)
    }

    /** The lookahead line is the one at the cursor; the file is at its end exactly behind the last record. */
    ghost predicate Valid()
      reads this
    {
      open ==>
        && recordCount == |Records()| && cursor <= recordCount
        && (eof <==> cursor == recordCount)
        && (!eof ==> nextLine == Records()[cursor] && DataLines(rest) == Records()[cursor + 1..])
        && (eof ==> DataLines(rest) == [])
    }

    constructor ()
      ensures Valid() && !open && columns == Columns(2, 4, 6)
    {
      content, rest, dataStart, nextLine, columnHeaders := "", "", "", "", [];
      isRaw, open, eof, cursor, recordCount := true, false, true, 0, 0;
      columns, msgIdColumn := Columns(2, 4, 6), None;
    }

    /** std::getline on the file. */
    method ReadLine() returns (line: Option<string>)
      modifies `rest
      ensures var r := GetLine(old(rest)); if r.None? then line == None && rest == old(rest)
              else line == Some(r.value.0) && rest == r.value.1
    {
      if rest == "" { return None; }
      var k := Find(rest, '\n');
      line := Some(rest[..k]);
      rest := if k < |rest| then rest[k + 1..] else "";
    }

    /** Reads on to the next line that is not empty. */
    method AdvanceLookahead()
      modifies `rest, `nextLine, `eof
      ensures var lines := DataLines(old(rest));
              if lines == [] then eof && DataLines(rest) == []
              else !eof && nextLine == lines[0] && DataLines(rest) == lines[1..]
    {
      var line := ReadLine();
      eof := line.None?;
      nextLine := if line.Some? then line.value else "";
      while !eof && nextLine == ""
        invariant eof ==> DataLines(old(rest)) == [] && rest == ""
        invariant !eof ==> DataLines(old(rest)) == (if nextLine == "" then [] else [nextLine]) + DataLines(rest)
        decreases |rest|, !eof
      {
        line := ReadLine();
        eof := line.None?;
        nextLine := if line.Some? then line.value else "";
      }
    }

    method CloseFile()
      modifies this
      ensures !open && eof && columns == old(columns) && msgIdColumn == None
    {
      msgIdColumn := None;
      open, eof, cursor, recordCount, nextLine, columnHeaders := false, true, 0, 0, "", [];
    }

    /** The last column of each name counts; a name that is missing leaves the column of the previous file. */
    method ResolveColumns()
      requires msgIdColumn == None
      modifies `isRaw, `columns, `msgIdColumn
      ensures isRaw == ("ID" in columnHeaders) && msgIdColumn == IdColumn(columnHeaders)
      ensures columns == ColumnsOf(columnHeaders, old(columns))
    {
      isRaw := false;
      for i := 0 to |columnHeaders|
        invariant isRaw == ("ID" in columnHeaders[..i])
        invariant columns == ColumnsOf(columnHeaders[..i], old(columns)) && msgIdColumn == IdColumn(columnHeaders[..i])
      {
        assert columnHeaders[..i + 1][..i] == columnHeaders[..i]
               && columnHeaders[..i + 1] == columnHeaders[..i] + [columnHeaders[i]];
        var h := columnHeaders[i];
        if h == "ID" {
          isRaw := true;
          columns := columns.(id := i);
        } else if h == "DLC" {
          columns := columns.(dlc := i);
        } else if h == "Data" {
          columns := columns.(data := i);
        } else if h == "MsgID" {
          msgIdColumn := Some(i);
        }
      }
      assert columnHeaders[..|columnHeaders|] == columnHeaders;
    }

    /** Counts the records in one pass over the file. */
    method CountRecords()
      modifies `rest, `recordCount
      ensures recordCount == |DataLines(old(rest))|
    {
      recordCount := 0;
      while rest != ""
        invariant |DataLines(old(rest))| == recordCount + |DataLines(rest)|
        decreases |rest|
      {
        var line := ReadLine();
        if line.value != "" { recordCount := recordCount + 1; }
      }
    }

    /** `file` is None if the file cannot be opened. */
    method Open(file: Option<string>) returns (ok: bool)
      modifies this
      ensures Valid() && ok == open == (file.Some? && GetLine(file.value).Some?)
      ensures ok ==>
                var (header, body) := GetLine(file.value).value;
                && dataStart == body && cursor == 0 && columnHeaders == SplitLine(header)
                && isRaw == ("ID" in columnHeaders) && columns == ColumnsOf(columnHeaders, old(columns))
                && msgIdColumn == IdColumn(columnHeaders)
    {
      hide DataLines, GetLine, SplitLine, ColumnsOf, IdColumn;
      CloseFile();
      if file.None? { return false; }
      content, rest := file.value, file.value;
      var header := ReadLine();
      if header.None? {
        CloseFile();
        return false;
      }
      columnHeaders := SplitLine(header.value);
      ResolveColumns();
      dataStart := rest;
      CountRecords();
      rest := dataStart;
      cursor, open := 0, true;
      AdvanceLookahead();
      ok := true;
    }

    /** Moves to a record; beyond the last one it stops at the end. */
    method Seek(recordIndex: nat) returns (ok: bool)
      requires Valid()
      modifies `rest, `nextLine, `eof, `cursor
      ensures Valid() && ok == (open && recordIndex <= recordCount)
      ensures open ==> cursor == Min(recordIndex, recordCount)
    {
      hide DataLines;
      if !open { return false; }
      if recordIndex < cursor {
        rest := dataStart;
        cursor := 0;
        AdvanceLookahead();
      }
      while cursor < recordIndex && !eof
        invariant Valid() && open && cursor <= recordIndex
        invariant dataStart == old(dataStart)
        decreases recordIndex - cursor
      {
        AdvanceLookahead();
        cursor := cursor + 1;
      }
      ok := cursor == recordIndex;
    }

    /** The data loop of read(). */
    method ParseData(field: string) returns (data: Payload)
      ensures data == Filled(BytesOf(field, 8))
    {
      hide BytesOf, FromChars, SkipSpaces, Filled;
      var bytes: seq<Byte> := [];
      var left := field;
      while |bytes| < 8 && left != ""
        invariant |bytes| <= 8
        invariant BytesOf(field, 8) == bytes + BytesOf(left, 8 - |bytes|)
        decreases 8 - |bytes|
      {
        BytesStep(left, 8 - |bytes|);
        var t := SkipSpaces(left);
        if |t| < 2 { break; }
        var byte := FromChars(t[..2], 16, 255);
        ghost var more := BytesOf(t[2..], 8 - |bytes| - 1);
        assert bytes + ([byte] + more) == bytes + [byte] + more;
        bytes, left := bytes + [byte], t[2..];
      }
      BytesStep(left, 8 - |bytes|);
      assert bytes + [] == bytes;
      data := Filled(bytes);
    }

    /** The loops of parseTimestampNs. */
    method ParseTimestamp(s: string) returns (t: int)
      ensures t == TimestampOf(s)
    {
      var dot := Find(s, '.');
      t := FromCharsSigned(s[..dot]) * GIGA;
      if dot < |s| {
        var fraction := FromCharsSigned(s[dot + 1..]);
        var length := |s| - dot - 1;
        var i := length;
        while i < 9
          invariant ToNine(FromCharsSigned(s[dot + 1..]), length) == ToNine(fraction, i)
        {
          fraction, i := fraction * 10, i + 1;
        }
        while i > 9
          invariant i >= 9 && ToNine(FromCharsSigned(s[dot + 1..]), length) == ToNine(fraction, i)
        {
          fraction, i := Truncated(fraction, 10), i - 1;
        }
        t := t + fraction;
      }
    }

    /** Reads the record at the cursor; the cursor moves on even if the record is no frame. */
    method ReadRaw() returns (message: Option<RawCanMessage>)
      requires Valid()
      modifies `rest, `nextLine, `eof, `cursor
      ensures Valid()
      ensures if open && old(cursor) < recordCount && isRaw
              then cursor == old(cursor) + 1 && message == RowOf(Records()[old(cursor)], columns)
              else cursor == old(cursor) && message == None
    {
      hide RowOf, DataLines;
      if !open || eof || !isRaw { return None; }
      var line := nextLine;
      AdvanceLookahead();
      cursor := cursor + 1;
      message := ParseRow(line);
    }

    /** Reads the record at the cursor of a DBC file; the cursor moves on in any case. */
    method ReadDbc(stod: Stod) returns (message: Option<DbcCanMessage>)
      requires Valid()
      modifies `rest, `nextLine, `eof, `cursor
      ensures Valid()
      ensures if open && old(cursor) < recordCount && !isRaw
              then cursor == old(cursor) + 1
                  && message == DbcRowOf(Records()[old(cursor)], columnHeaders, msgIdColumn, stod)
              else cursor == old(cursor) && message == None
    {
      hide DataLines, DbcRowOf;
      if !open || eof || isRaw { return None; }
      var line := nextLine;
      AdvanceLookahead();
      cursor := cursor + 1;
      message := ParseDbcRow(line, stod);
    }

    method ParseDbcRow(line: string, stod: Stod) returns (message: Option<DbcCanMessage>)
      ensures message == DbcRowOf(line, columnHeaders, msgIdColumn, stod)
    {
      hide TimestampOf, SplitLine, ParseHexId, CellsOf;
      var fields := SplitLine(line);
      if fields == [] { return None; }
      var receiveTime := ParseTimestamp(fields[0]);
      var messageId := 0;
      if msgIdColumn.Some? && msgIdColumn.value < |fields| { messageId := ParseHexId(fields[msgIdColumn.value]); }
      var values: seq<SignalValue> := [];
      NoCells(columnHeaders, fields, msgIdColumn, stod);
      var i := 1;
      while i < |columnHeaders| && i < |fields|
        invariant 1 <= i && (i <= Min(|columnHeaders|, |fields|) || values == [])
        invariant i <= Min(|columnHeaders|, |fields|) ==> values == CellsOf(columnHeaders, fields, i, msgIdColumn, stod)
        invariant i == 1 || i <= Min(|columnHeaders|, |fields|)
      {
        NextCell(columnHeaders, fields, i, msgIdColumn, stod);
        var text := fields[i];
        if msgIdColumn != Some(i) && text != "" && text != "-" {
          var value := stod(text);
          if value.Some? { values := values + [SignalValue(columnHeaders[i], value.value)]; }
        }
        i := i + 1;
      }
      message := Some(DbcCanMessage(receiveTime, values, messageId));
    }

    method ParseRow(line: string) returns (message: Option<RawCanMessage>)
      ensures message == RowOf(line, columns)
    {
      var fields := SplitLine(line);
      if |fields| <= columns.data { return None; }
      var receiveTime := ParseTimestamp(fields[0]);
      var messageId := ParseHexId(if columns.id < |fields| then fields[columns.id] else "");
      var dlc: Byte := 0;
      if columns.dlc < |fields| { dlc := FromChars(fields[columns.dlc], 10, 255); }
      var data := ParseData(fields[columns.data]);
      message := Some(RawCanMessage(receiveTime, data, messageId, dlc));
    }
  }

  lemma NoCells(headers: seq<string>, fields: seq<string>, idColumn: Option<nat>, stod: Stod)
    ensures forall n: nat | n <= 1 && n <= |headers| && n <= |fields| ::
            CellsOf(headers, fields, n, idColumn, stod) == []
  {
  }

  lemma NextCell(headers: seq<string>, fields: seq<string>, i: nat, idColumn: Option<nat>, stod: Stod)
    requires 1 <= i < |headers| && i < |fields|
    ensures CellsOf(headers, fields, i + 1, idColumn, stod)
            == CellsOf(headers, fields, i, idColumn, stod) + CellOf(headers[i], fields[i], idColumn == Some(i), stod)
  {
    hide CellOf;
  }

  lemma BytesStep(s: string, n: nat)
    ensures var t := SkipSpaces(s);
            BytesOf(s, n) == if n == 0 || s == "" || |t| < 2 then []
                else [FromChars(t[..2], 16, 255)] + BytesOf(t[2..], n - 1)
  {
    hide FromChars;
  }

  /** Which columns the headers name, starting from the columns before. */
  function ColumnsOf(headers: seq<string>, before: Columns): Columns {
    if headers == [] then before
    else
      var i, h := |headers| - 1, headers[|headers| - 1];
      var c := ColumnsOf(headers[..i], before);
      if h == "ID" then c.(id := i) else if h == "DLC" then c.(dlc := i) else if h == "Data" then c.(data := i) else c
  }

  /** The last column called MsgID. */
  function IdColumn(headers: seq<string>): Option<nat> {
    if headers == [] then None
    else
      var i := |headers| - 1;
      if headers[i] == "MsgID" then Some(i) else IdColumn(headers[..i])
  }

  class CsvWriter {
    var file: string
    const headers: seq<string>
    const seconds: Seconds
    const print3: Print

    /** A file with its header row; a DBC file gets a column for the identifier. */
    constructor (isDbc: bool, headers: seq<string>, seconds: Seconds, print3: Print)
      ensures this.headers == FileHeaders(isDbc, headers) && this.seconds == seconds && this.print3 == print3
      ensures file == Join(this.headers) + "\n"
    {
      file := "";
      this.headers := if isDbc && headers != [] then headers[..1] + ["MsgID"] + headers[1..] else headers;
      this.seconds, this.print3 := seconds, print3;
      new;
      WriteHeaders();
    }

    method WriteHeaders()
      requires file == ""
      modifies this
      ensures file == Join(headers) + "\n"
    {
      for i := 0 to |headers|
        invariant file == Join(headers[..i])
      {
        JoinAppend(headers[..i], headers[i]);
        assert headers[..i + 1] == headers[..i] + [headers[i]];
        if i > 0 { file := file + ","; }
        file := file + headers[i];
      }
      assert headers[..|headers|] == headers;
      file := file + "\n";
    }

    method WriteData(bytes: seq<Byte>)
      modifies this
      ensures file == old(file) + DataText(bytes)
    {
      for i := 0 to |bytes|
        invariant file == old(file) + DataText(bytes[..i])
      {
        assert bytes[..i + 1][..i] == bytes[..i];
        assert file + (" " + HexByte(bytes[i])) == old(file) + (DataText(bytes[..i]) + (" " + HexByte(bytes[i])));
        if i > 0 { file := file + " "; }
        file := file + HexByte(bytes[i]);
      }
      assert bytes[..|bytes|] == bytes;
    }

    method WriteRaw(message: RawCanMessage)
      modifies this
      ensures file == old(file) + (Row(seconds, message) + "\n")
    {
      hide DataText, Numeral, Padded, PrintedSeconds;
      ghost var before := file;
      file := file + PrintedSeconds(seconds(message.receiveTime));
      file := file + ",1";
      file := file + (",0x" + Padded(Numeral(message.messageId, 16), 3));
      file := file + ",Rx";
      file := file + ("," + Numeral(message.dlc, 10));
      file := file + ("," + Numeral(message.dlc, 10));
      file := file + ",";
      WriteData(message.data[..Min(message.dlc, 8)]);
      file := file + "\n";
      RowPieces(before, seconds, message);
    }

    method WriteDbc(message: DbcCanMessage)
      modifies this
      ensures file == old(file) + (Join(DbcRowFields(headers, message, seconds, print3)) + "\n")
    {
      hide Join, Cell, PrintedSeconds;
      ghost var fields := DbcRowFields(headers, message, seconds, print3);
      file := file + PrintedSeconds(seconds(message.receiveTime));
      assert fields[..1] == [fields[0]];
      JoinOne(fields[0]);
      var i := 1;
      while i < |headers|
        invariant 1 <= i <= |fields| && (i <= |headers| || headers == [])
        invariant file == old(file) + Join(fields[..i])
      {
        JoinNext(fields, i);
        file := file + ",";
        WriteCell(headers[i], message);
        i := i + 1;
      }
      assert fields[..|fields|] == fields;
      file := file + "\n";
    }

    method WriteCell(header: string, message: DbcCanMessage)
      modifies this
      ensures file == old(file) + Cell(header, message, print3)
    {
      if header == "MsgID" {
        file := file + ("0x" + Padded(Numeral(message.messageId, 16), 3));
        return;
      }
      var value := FirstValue(message.signalValues, header);
      file := file + if value.Some? then print3(value.value) else "-";
    }
  }

  /** A row in the pieces in which it is written. */
  lemma RowPieces(before: string, seconds: Seconds, m: RawCanMessage)
    ensures before + PrintedSeconds(seconds(m.receiveTime)) + ",1" + (",0x" + Padded(Numeral(m.messageId, 16), 3))
            + ",Rx"
            + ("," + Numeral(m.dlc, 10)) + ("," + Numeral(m.dlc, 10)) + "," + DataText(m.data[..Min(m.dlc, 8)]) + "\n"
            == before + (Row(seconds, m) + "\n")
  {
    hide DataText, Numeral, Padded, PrintedSeconds, Join;
    var f := RowFields(seconds, m);
    JoinSeven(f[0], f[1], f[2], f[3], f[4], f[5], f[6]);
  }

  lemma JoinSeven(a: string, b: string, c: string, d: string, e: string, f: string, g: string)
    ensures Join([a, b, c, d, e, f, g])
            == a + ("," + (b + ("," + (c + ("," + (d + ("," + (e + ("," + (f + ("," + g)))))))))))
  {
    hide Join;
    JoinOne(g);
    JoinFirst(f, [g]);
    assert [f] + [g] == [f, g];
    JoinFirst(e, [f, g]);
    assert [e] + [f, g] == [e, f, g];
    JoinFirst(d, [e, f, g]);
    assert [d] + [e, f, g] == [d, e, f, g];
    JoinFirst(c, [d, e, f, g]);
    assert [c] + [d, e, f, g] == [c, d, e, f, g];
    JoinFirst(b, [c, d, e, f, g]);
    assert [b] + [c, d, e, f, g] == [b, c, d, e, f, g];
    JoinFirst(a, [b, c, d, e, f, g]);
    assert [a] + [b, c, d, e, f, g] == [a, b, c, d, e, f, g];
  }

  lemma JoinOne(a: string)
    ensures Join([a]) == a
  {
  }

  lemma JoinNext(fields: seq<string>, i: nat)
    requires 1 <= i < |fields|
    ensures Join(fields[..i + 1]) == Join(fields[..i]) + "," + fields[i]
  {
    JoinAppend(fields[..i], fields[i]);
    assert fields[..i + 1] == fields[..i] + [fields[i]];
  }

  lemma JoinFirst(a: string, more: seq<string>)
    requires more != []
    ensures Join([a] + more) == a + ("," + Join(more))
  {
    assert ([a] + more)[1..] == more;
  }

  lemma {:induction false} JoinAppend(fields: seq<string>, last: string)
    ensures Join(fields + [last]) == (if fields == [] then "" else Join(fields) + ",") + last
    decreases |fields|
  {
    if fields == [] {
      assert fields + [last] == [last];
    } else {
      JoinAppend(fields[1..], last);
      assert (fields + [last])[1..] == fields[1..] + [last];
    }
  }
}
