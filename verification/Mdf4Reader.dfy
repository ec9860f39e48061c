/**
 Reading an MDF4 file (src/can_stream/reader/mdf4_reader.cpp): `Mdf4Reader.Open` is the code that walks the
 links, for every file on which the walks end.
 */
module Mdf4Reader {
  import opened Bits
  import opened CanTypes
  import opened Mdf4Format
  import opened Mdf4Walks
  import opened Mdf4Links

  // ----- Records

  datatype ReadValue = ReadValue(name: Bytes, value: nat)
  datatype ReadMessage = ReadMessage(relTime: nat, msgId: nat, values: seq<ReadValue>)
  datatype ReadFrame = ReadFrame(relTime: nat, msgId: nat, dlc: Byte, data: Payload)

  /** The payload is large enough for the time and all signals of its group. */
  predicate Roomy(g: DbcGroupInfo) {
    8 + 8 * |g.signalNames| <= g.payloadBytes
  }

  function ValuesAt(names: seq<Bytes>, n: nat, buf: Bytes): (r: seq<ReadValue>)
    requires n <= |names| && 8 + 8 * n <= |buf|
    ensures |r| == n
  {
    if n == 0 then []
    else ValuesAt(names, n - 1, buf) + [ReadValue(names[n - 1], FromLE(buf[8 + (n - 1) * 8..8 + n * 8]))]
  }

  function MessageOf(g: DbcGroupInfo, buf: Bytes): ReadMessage
    requires Roomy(g) && |buf| == g.payloadBytes
  {
    ReadMessage(FromLE(buf[..8]), g.msgId, ValuesAt(g.signalNames, |g.signalNames|, buf))
  }

  function FrameOf(buf: Bytes): ReadFrame
    requires |buf| == 24
  {
    ReadFrame(FromLE(buf[..8]), FromLE(buf[9..13]) % 0x800, buf[14], buf[16..24])
  }

  // ----- The reader

  datatype OpenResult = Opened | Refused | Threw

  class Mdf4Reader {
    var file: Contents
    var session: Session
    var cursor: nat
    var isOpen: bool

    constructor ()
      ensures !isOpen
    {
      file, cursor, isOpen := [], 0, false;
      session := Session(false, 0, [], [], [], [], 0, 0);
    }

    ghost predicate Valid()
      reads this
    {
      isOpen && session.isDbc ==>
        && session.recordCount == |session.offsets| == |session.groupIdx|
        && forall i | 0 <= i < |session.groupIdx| :: session.groupIdx[i] < |session.groups|
    }

    method CloseFile()
      modifies this
      ensures !isOpen && cursor == 0 && session == Session(false, 0, [], [], [], [], 0, 0)
    {
      isOpen, cursor, session := false, 0, Session(false, 0, [], [], [], [], 0, 0);
    }

    /** Parses the header of any file, except those on which the walks never end. */
    method Open(contents: Contents) returns (result: OpenResult)
      requires !WalksForEver(contents)
      modifies this
      ensures Valid() && isOpen == result.Opened?
      ensures match Parsed(contents)
              case Done(s) => result == Opened && file == contents && session == s && cursor == 0
              case Throws => result == Threw
              case _ => result == Refused
    {
      hide ReadLink, ReadInt, ParseRaw, ParseDbc, Ascii, Plus, WalksForEver, LIMIT;
      LoopsExactly(contents);
      ghost var fuel := LIMIT;
      CloseFile();
      file := contents;
      if |file| < 8 || file[..8] != Ascii("MDF     ") {
        return Refused;
      }
      var dg, startNs := ReadLink(file, 64 + 24), ReadLink(file, 64 + 24 + 48);
      if dg.None? || startNs.None? {
        return Refused;
      }
      var cgFirst, dtFirst := ReadLink(file, Plus(dg.value, 32)), ReadLink(file, Plus(dg.value, 40));
      var recIdSize := ReadInt(file, Plus(dg.value, 56), 1);
      if cgFirst.None? || dtFirst.None? || recIdSize.None? {
        return Refused;
      }
      var parsed: Outcome<Session>;
      if recIdSize.value == 0 {
        parsed := ParseRawHeader(file, startNs.value, cgFirst.value, dtFirst.value, fuel);
      } else {
        parsed := ParseDbcHeader(file, startNs.value, cgFirst.value, dtFirst.value, fuel);
      }
      if parsed.Done? {
        session, isOpen := parsed.value, true;
        ParsedIsConsistent(file, startNs.value, cgFirst.value, dtFirst.value, fuel);
        return Opened;
      }
      result := if parsed.Throws? then Threw else Refused;
    }

    method Seek(recordIndex: nat) returns (ok: bool)
      modifies `cursor
      ensures ok == (isOpen && recordIndex <= session.recordCount)
      ensures cursor == if ok then recordIndex else old(cursor)
    {
      if !isOpen || recordIndex > session.recordCount {
        return false;
      }
      cursor := recordIndex;
      ok := true;
    }

    predicate Eof()
      reads this
    {
      cursor >= session.recordCount
    }

    /** Whether the payload of record `k` lies inside the file. */
    predicate HasRecord(k: nat)
      requires Valid() && isOpen && session.isDbc && k < session.recordCount
      reads this
    {
      Plus(session.offsets[k], 1) + session.groups[session.groupIdx[k]].payloadBytes <= |file|
    }

    /** Reads the decoded message under the cursor and moves on. */
    method ReadDbc() returns (ok: bool, out: ReadMessage)
      requires Valid()
      requires isOpen && session.isDbc && cursor < session.recordCount ==>
               Roomy(session.groups[session.groupIdx[cursor]])
      modifies `cursor
      ensures Valid()
      ensures ok == (isOpen && session.isDbc && old(cursor) < session.recordCount && HasRecord(old(cursor)))
      ensures cursor == old(cursor) + if ok then 1 else 0
      ensures ok ==>
                var g := session.groups[session.groupIdx[old(cursor)]];
                var at := Plus(session.offsets[old(cursor)], 1);
                out == MessageOf(g, file[at..at + g.payloadBytes])
    {
      out := ReadMessage(0, 0, []);
      if !isOpen || Eof() || !session.isDbc {
        return false, out;
      }
      var at, group := Plus(session.offsets[cursor], 1), session.groups[session.groupIdx[cursor]];
      if at + group.payloadBytes > |file| {
        return false, out;
      }
      var buf := file[at..at + group.payloadBytes];
      var values: seq<ReadValue> := [];
      for i := 0 to |group.signalNames|
        invariant values == ValuesAt(group.signalNames, i, buf)
      {
        values := values + [ReadValue(group.signalNames[i], FromLE(buf[8 + i * 8..8 + (i + 1) * 8]))];
      }
      out := ReadMessage(FromLE(buf[..8]), group.msgId, values);
      cursor := cursor + 1;
      ok := true;
    }

    /** Reads the raw frame under the cursor and moves on. */
    method ReadRaw() returns (ok: bool, out: ReadFrame)
      requires Valid()
      modifies `cursor
      ensures Valid()
      ensures ok == (isOpen && !session.isDbc && old(cursor) < session.recordCount
                     && Plus(session.dtDataStart, old(cursor) * 24) + 24 <= |file|)
      ensures cursor == old(cursor) + if ok then 1 else 0
      ensures ok ==>
                var at := Plus(session.dtDataStart, old(cursor) * 24);
                out == FrameOf(file[at..at + 24])
    {
      out := ReadFrame(0, 0, 0, [0, 0, 0, 0, 0, 0, 0, 0]);
      if !isOpen || Eof() || session.isDbc {
        return false, out;
      }
      var at := Plus(session.dtDataStart, cursor * 24);
      if at + 24 > |file| {
        return false, out;
      }
      var buf := file[at..at + 24];
      out := FrameOf(buf);
      cursor := cursor + 1;
      ok := true;
    }
  }

  lemma {:induction false} ScanIsConsistent(file: Contents, groups: seq<DbcGroupInfo>, pos: Word, at: nat, end: Word,
                                            offsets: seq<Word>, idx: seq<Byte>)
    requires |offsets| == |idx| && forall i | 0 <= i < |idx| :: idx[i] < |groups|
    ensures var r := Scan(file, groups, pos, at, end, offsets, idx);
            r.Done? ==> |r.value.0| == |r.value.1| && forall i | 0 <= i < |r.value.1| :: r.value.1[i] < |groups|
    decreases |file| - at
  {
    hide GroupOf, Plus;
    if pos < end && at < |file| {
      var g := GroupOf(groups, file[at]);
      if g.Some? {
        var payload := groups[g.value].payloadBytes;
        ScanIsConsistent(file, groups, Plus(pos, (1 + payload) % 0x1_0000_0000), at + 1 + payload, end, offsets + [pos],
                         idx + [g.value]);
      }
    }
  }

  lemma ParsedIsConsistent(file: Contents, startNs: Word, cgFirst: Word, dtFirst: Word, fuel: nat)
    ensures var p := ParseDbc(file, startNs, cgFirst, dtFirst, fuel);
            p.Done? ==> && p.value.recordCount == |p.value.offsets| == |p.value.groupIdx|
                        && forall i | 0 <= i < |p.value.groupIdx| :: p.value.groupIdx[i] < |p.value.groups|
    ensures var p := ParseRaw(file, startNs, cgFirst, dtFirst, fuel);
            p.Done? ==> !p.value.isDbc
  {
    hide WalkGroups, WalkRaw, ReadLink, Plus, Scan;
    var walked := WalkGroups(file, cgFirst, [], [], fuel);
    var dtLength := ReadLink(file, Plus(dtFirst, 8));
    if walked.Done? && dtLength.Some? {
      var start := Plus(dtFirst, 24);
      ScanIsConsistent(file, walked.value.0, start, start, Plus(dtFirst, dtLength.value), [], []);
    }
  }

  // ----- The loops of parseHeader

  method ParseRawHeader(file: Contents, startNs: Word, cgFirst: Word, dtFirst: Word, ghost fuel: nat)
    returns (r: Outcome<Session>)
    requires ParseRaw(file, startNs, cgFirst, dtFirst, fuel) != Loops
    ensures r == ParseRaw(file, startNs, cgFirst, dtFirst, fuel)
  {
    hide ReadLink, ReadText, Plus;
    var dtDataStart := Plus(dtFirst, 24);
    var dtLength := ReadLink(file, Plus(dtFirst, 8));
    if dtLength.None? {
      return Fails;
    }
    var cnFirst := ReadLink(file, Plus(cgFirst, 32));
    if cnFirst.None? {
      return Fails;
    }
    var headers: seq<Bytes> := [];
    var cn := cnFirst.value;
    ghost var left := fuel;
    while cn != 0
      invariant WalkRaw(file, cnFirst.value, [], fuel) == WalkRaw(file, cn, headers, left)
      decreases left
    {
      var next, comp, tx := ReadLink(file, Plus(cn, 24)), ReadLink(file, Plus(cn, 32)), ReadLink(file, Plus(cn, 40));
      if next.None? || comp.None? || tx.None? {
        return Fails;
      }
      if comp.value != 0 {
        ghost var before := headers;
        var sub := comp.value;
        ghost var subLeft := left;
        while sub != 0
          invariant WalkComposition(file, comp.value, before, left) == WalkComposition(file, sub, headers, subLeft)
          decreases subLeft
        {
          var subNext, subComp, subTx := ReadLink(file, Plus(sub, 24)), ReadLink(file, Plus(sub, 32)),
              ReadLink(file, Plus(sub, 40));
          if subNext.None? || subComp.None? || subTx.None? {
            return Fails;
          }
          if subComp.value == 0 && subTx.value != 0 {
            headers := headers + [ReadText(file, subTx.value)];
          }
          sub := subNext.value;
          subLeft := subLeft - 1;
        }
      } else if tx.value != 0 {
        headers := headers + [ReadText(file, tx.value)];
      }
      cn := next.value;
      left := left - 1;
    }
    r := Done(Session(false, startNs, headers, [], [], [], dtDataStart, Plus(dtLength.value, WORDS - 24) / 24));
  }

  /** parseDbcGroups and buildDbcIndex. */
  method ParseDbcHeader(file: Contents, startNs: Word, cgFirst: Word, dtFirst: Word, ghost fuel: nat)
    returns (r: Outcome<Session>)
    requires ParseDbc(file, startNs, cgFirst, dtFirst, fuel) != Loops
    ensures r == ParseDbc(file, startNs, cgFirst, dtFirst, fuel)
  {
    hide WalkGroups, ReadLink, Scan, Plus;
    var walked := ParseDbcGroups(file, cgFirst, fuel);
    if !walked.Done? {
      return if walked.Throws? then Throws else Fails;
    }
    var (groups, headers) := walked.value;
    var dtLength := ReadLink(file, Plus(dtFirst, 8));
    if dtLength.None? {
      return Fails;
    }
    var scanned := BuildDbcIndex(file, groups, dtFirst, dtLength.value);
    if !scanned.Done? {
      return Fails;
    }
    r := Done(Session(true, startNs, headers, groups, scanned.value.0, scanned.value.1, 0, |scanned.value.0|));
  }

  method ParseDbcGroups(file: Contents, firstCg: Word, ghost fuel: nat)
    returns (r: Outcome<(seq<DbcGroupInfo>, seq<Bytes>)>)
    requires WalkGroups(file, firstCg, [], [], fuel) != Loops
    ensures r == WalkGroups(file, firstCg, [], [], fuel)
  {
    hide ReadLink, ReadInt, ReadText, Plus, GroupMsgId, WalkChannels;
    var groups: seq<DbcGroupInfo> := [];
    var headers: seq<Bytes> := [];
    var cg := firstCg;
    ghost var left := fuel;
    while cg != 0
      invariant WalkGroups(file, firstCg, [], [], fuel) == WalkGroups(file, cg, groups, headers, left)
      decreases left
    {
      var next, cnFirst := ReadLink(file, Plus(cg, 24)), ReadLink(file, Plus(cg, 32));
      var recordId, dataBytes := ReadLink(file, Plus(cg, 72)), ReadInt(file, Plus(cg, 96), 4);
      if next.None? || cnFirst.None? || recordId.None? || dataBytes.None? {
        return Fails;
      }
      var id := GroupMsgId(file, cg, recordId.value);
      if !id.Done? {
        return Throws;
      }
      var walked := ParseChannels(file, cnFirst.value, headers, left);
      if !walked.Done? {
        return Fails;
      }
      groups := groups + [DbcGroupInfo(recordId.value % 256, dataBytes.value, id.value, walked.value.0)];
      headers := walked.value.1;
      cg := next.value;
      left := left - 1;
    }
    r := if groups == [] then Fails else Done((groups, headers));
  }

  /** The inner loop of parseDbcGroups. */
  method ParseChannels(file: Contents, cnFirst: Word, headers0: seq<Bytes>, ghost fuel: nat)
    returns (r: Outcome<(seq<Bytes>, seq<Bytes>)>)
    requires WalkChannels(file, cnFirst, [], headers0, fuel) != Loops
    ensures r == WalkChannels(file, cnFirst, [], headers0, fuel)
  {
    hide ReadLink, ReadInt, ReadText, Plus;
    var names: seq<Bytes> := [];
    var headers := headers0;
    var cn := cnFirst;
    ghost var left := fuel;
    while cn != 0
      invariant WalkChannels(file, cnFirst, [], headers0, fuel) == WalkChannels(file, cn, names, headers, left)
      decreases left
    {
      var next, tx, sync := ReadLink(file, Plus(cn, 24)), ReadLink(file, Plus(cn, 40)), ReadInt(file, Plus(cn, 89), 1);
      if next.None? || tx.None? || sync.None? {
        return Fails;
      }
      if tx.value != 0 {
        var name := ReadText(file, tx.value);
        if sync.value != 1 {
          names := names + [name];
        }
        if name !in headers {
          headers := headers + [name];
        }
      }
      cn := next.value;
      left := left - 1;
    }
    r := Done((names, headers));
  }

  /** The map from record identifiers agrees with `GroupOf`. */
  ghost predicate MapsGroups(m: map<Byte, Byte>, groups: seq<DbcGroupInfo>) {
    forall id: Byte :: GroupOf(groups, id) == if id in m then Some(m[id]) else None
  }

  method BuildDbcIndex(file: Contents, groups: seq<DbcGroupInfo>, dtFirst: Word, dtLength: Word)
    returns (r: Outcome<(seq<Word>, seq<Byte>)>)
    ensures var start := Plus(dtFirst, 24);
            r == Scan(file, groups, start, start, Plus(dtFirst, dtLength), [], [])
  {
    hide GroupOf, Plus, MapsGroups;
    NoGroupsMapped();
    var groupByRecId: map<Byte, Byte> := map[];
    for i := 0 to |groups|
      invariant MapsGroups(groupByRecId, groups[..i])
    {
      MapStep(groupByRecId, groups, i);
      groupByRecId := groupByRecId[groups[i].recordId := i % 256];
    }
    assert groups[..|groups|] == groups;
    var dtDataEnd := Plus(dtFirst, dtLength);
    var start := Plus(dtFirst, 24);
    var pos, at: nat := start, start;
    var offsets: seq<Word>, idx: seq<Byte> := [], [];
    while pos < dtDataEnd
      invariant Scan(file, groups, start, start, dtDataEnd, [], [])
                == Scan(file, groups, pos, at, dtDataEnd, offsets, idx)
      decreases |file| - at
    {
      if at >= |file| {
        break;
      }
      var recId := file[at];
      LookUp(groupByRecId, groups, recId);
      if recId !in groupByRecId {
        return Fails;
      }
      offsets := offsets + [pos];
      idx := idx + [groupByRecId[recId]];
      var payloadBytes := groups[groupByRecId[recId]].payloadBytes;
      at := at + 1 + payloadBytes;
      pos := Plus(pos, (1 + payloadBytes) % 0x1_0000_0000);
    }
    r := Done((offsets, idx));
  }

  lemma NoGroupsMapped()
    ensures MapsGroups(map[], [])
  {
  }

  lemma {:induction false} GroupOfIsLast(groups: seq<DbcGroupInfo>, id: Byte, k: nat)
    requires k < |groups| && groups[k].recordId == id
    requires forall j | k < j < |groups| :: groups[j].recordId != id
    ensures GroupOf(groups, id) == Some(k % 256)
  {
    if k < |groups| - 1 { GroupOfIsLast(groups[..|groups| - 1], id, k); }
  }

  lemma LookUp(m: map<Byte, Byte>, groups: seq<DbcGroupInfo>, id: Byte)
    requires MapsGroups(m, groups)
    ensures GroupOf(groups, id) == if id in m then Some(m[id]) else None
  {
    hide GroupOf;
  }

  lemma MapStep(m: map<Byte, Byte>, groups: seq<DbcGroupInfo>, i: nat)
    requires i < |groups| && MapsGroups(m, groups[..i])
    ensures MapsGroups(m[groups[i].recordId := i % 256], groups[..i + 1])
  {
    var m' := m[groups[i].recordId := i % 256];
    assert groups[..i + 1][..i] == groups[..i];
    forall id: Byte
      ensures GroupOf(groups[..i + 1], id) == if id in m' then Some(m'[id]) else None
    {
      assert GroupOf(groups[..i], id) == if id in m then Some(m[id]) else None;
    }
  }
}
