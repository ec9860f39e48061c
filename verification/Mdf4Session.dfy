/** A whole DBC session: record messages, close the file, open it, read to the end. */
module Mdf4Session {
  import opened Bits
  import opened CanTypes
  import opened Mdf4Format
  import opened Mdf4Layout
  import opened Mdf4Writer
  import opened Mdf4Walks
  import opened Mdf4Links
  import opened Mdf4Reader
  import opened Mdf4Exact
  import opened Mdf4RoundTrip

  // ----- The records of a session

  function RecordsOf(meta: map<nat, MsgMeta>, msgs: seq<DbcRecord>): seq<Record> {
    if msgs == [] then [] else RecordsOf(meta, msgs[..|msgs| - 1]) + DbcAccepted(meta, msgs[|msgs| - 1])
  }

  predicate Known(schema: seq<MessageInfo>, id: nat) {
    exists k | 0 <= k < |schema| :: schema[k].msgId == id
  }

  /** The messages whose identifier is in the schema, in order. */
  function Kept(schema: seq<MessageInfo>, msgs: seq<DbcRecord>): seq<DbcRecord> {
    if msgs == [] then []
    else
      var last := msgs[|msgs| - 1];
      Kept(schema, msgs[..|msgs| - 1]) + if Known(schema, last.msgId) then [last] else []
  }

  /** The last schema entry with the identifier. */
  function EntryOf(schema: seq<MessageInfo>, n: nat, id: nat): (k: nat)
    requires n <= |schema| && exists k | 0 <= k < n :: schema[k].msgId == id
    ensures k < n && schema[k].msgId == id
  {
    if schema[n - 1].msgId == id then n - 1 else EntryOf(schema, n - 1, id)
  }

  lemma {:induction false} MetaIsEntry(schema: seq<MessageInfo>, n: nat, id: nat)
    requires n <= |schema|
    ensures id in MetaMap(schema, n) <==> exists k | 0 <= k < n :: schema[k].msgId == id
    ensures id in MetaMap(schema, n) ==>
              MetaMap(schema, n)[id] == MetaOf(schema[EntryOf(schema, n, id)], EntryOf(schema, n, id))
  {
    if n > 0 { MetaIsEntry(schema, n - 1, id); }
  }

  /** The record that a kept message becomes. */
  ghost predicate IsRecordOf(schema: seq<MessageInfo>, msg: DbcRecord, r: Record) {
    && Known(schema, msg.msgId)
    && var k := EntryOf(schema, |schema|, msg.msgId);
       r == Record(k % 256, DbcRecordBytes(MetaOf(schema[k], k), msg))
  }

  lemma {:induction false} RecordsAreKept(schema: seq<MessageInfo>, msgs: seq<DbcRecord>)
    ensures |RecordsOf(MetaMap(schema, |schema|), msgs)| == |Kept(schema, msgs)|
    ensures forall i | 0 <= i < |Kept(schema, msgs)| :: Known(schema, Kept(schema, msgs)[i].msgId)
    ensures forall i | 0 <= i < |Kept(schema, msgs)| ::
              IsRecordOf(schema, Kept(schema, msgs)[i], RecordsOf(MetaMap(schema, |schema|), msgs)[i])
  {
    hide DbcRecordBytes, MetaOf, MetaMap, EntryOf, IsRecordOf;
    if msgs != [] {
      var init, last := msgs[..|msgs| - 1], msgs[|msgs| - 1];
      RecordsAreKept(schema, init);
      LastRecord(schema, last);
      var kept, records := Kept(schema, msgs), RecordsOf(MetaMap(schema, |schema|), msgs);
      forall i | 0 <= i < |kept|
        ensures Known(schema, kept[i].msgId) && IsRecordOf(schema, kept[i], records[i])
      {
        if i < |Kept(schema, init)| {
          assert kept[i] == Kept(schema, init)[i] && records[i] == RecordsOf(MetaMap(schema, |schema|), init)[i];
        }
      }
    }
  }

  lemma LastRecord(schema: seq<MessageInfo>, msg: DbcRecord)
    ensures var accepted := DbcAccepted(MetaMap(schema, |schema|), msg);
            if Known(schema, msg.msgId) then |accepted| == 1 && IsRecordOf(schema, msg, accepted[0]) else accepted == []
  {
    hide DbcRecordBytes, MetaMap, EntryOf;
    MetaIsEntry(schema, |schema|, msg.msgId);
  }

  // ----- The bytes of the records

  function BodyPos(records: seq<Record>, i: nat): nat
    requires i <= |records|
  {
    |Body(records[..i])|
  }

  lemma {:induction false} BodySlice(records: seq<Record>, i: nat)
    requires i < |records|
    ensures BodyPos(records, i + 1) == BodyPos(records, i) + |records[i].bytes| <= |Body(records)|
    ensures Body(records)[BodyPos(records, i)..BodyPos(records, i + 1)] == records[i].bytes
    decreases |records|
  {
    var init := records[..|records| - 1];
    assert records[..i + 1][..i] == records[..i];
    if i == |records| - 1 {
      assert records[..i + 1] == records;
    } else {
      assert init[..i] == records[..i] && init[..i + 1] == records[..i + 1];
      BodySlice(init, i);
      assert Body(records)[BodyPos(records, i)..BodyPos(records, i + 1)]
             == Body(init)[BodyPos(records, i)..BodyPos(records, i + 1)];
    }
  }

  lemma WholeBody(records: seq<Record>)
    ensures BodyPos(records, 0) == 0 && BodyPos(records, |records|) == |Body(records)|
  {
    assert records[..|records|] == records;
  }

  /** The file positions of the first `n` records. */
  function Starts(start: nat, records: seq<Record>, n: nat): (r: seq<Word>)
    requires n <= |records| && start + |Body(records)| < WORDS
    ensures |r| == n
    ensures forall i | 0 <= i < n :: r[i] == start + BodyPos(records, i)
  {
    if n == 0 then []
    else BodySlice(records, n - 1); Starts(start, records, n - 1) + [start + BodyPos(records, n - 1)]
  }

  function RecordGroups(records: seq<Record>, n: nat): (r: seq<Byte>)
    requires n <= |records|
    ensures |r| == n
    ensures forall i | 0 <= i < n :: r[i] == records[i].group % 256
  {
    if n == 0 then [] else RecordGroups(records, n - 1) + [records[n - 1].group % 256]
  }

  /** The record starts with its group's identifier and has the length its group announces. */
  predicate Indexable(infos: seq<DbcGroupInfo>, r: Record) {
    && r.group < 256 && GroupOf(infos, r.group) == Some(r.group)
    && |r.bytes| == 1 + infos[r.group].payloadBytes < 0x1_0000_0000
    && r.bytes[0] == r.group
  }

  ghost predicate AllIndexable(infos: seq<DbcGroupInfo>, records: seq<Record>) {
    forall j | 0 <= j < |records| :: Indexable(infos, records[j])
  }

  /** One record of the DT block. */
  lemma ScanStep(file: Contents, infos: seq<DbcGroupInfo>, pos: Word, end: Word, offsets: seq<Word>, idx: seq<Byte>,
                 r: Record)
    requires Indexable(infos, r) && At(file, pos, r.bytes) && pos + |r.bytes| <= end
    ensures Scan(file, infos, pos, pos, end, offsets, idx)
            == Scan(file, infos, pos + |r.bytes|, pos + |r.bytes|, end, offsets + [pos], idx + [r.group % 256])
  {
    hide GroupOf, Plus;
    assert file[pos] == r.bytes[0];
    PlusSmall(pos, |r.bytes|);
  }

  lemma {:induction false} ScanFromRecord(file: Contents, infos: seq<DbcGroupInfo>, start: nat, records: seq<Record>,
                                          i: nat)
    requires AllIndexable(infos, records)
    requires At(file, start, Body(records)) && start + |Body(records)| == |file| && i <= |records|
    ensures BodyPos(records, i) <= |Body(records)| && start + |Body(records)| < WORDS
    ensures Scan(file, infos, start + BodyPos(records, i), start + BodyPos(records, i), start + |Body(records)|,
                 Starts(start, records, i), RecordGroups(records, i))
            == Done((Starts(start, records, |records|), RecordGroups(records, |records|)))
    decreases |records| - i
  {
    hide GroupOf, Body, BodyPos, Scan, Indexable;
    if i == |records| {
      WholeBody(records);
      ScanEnds(file, infos, start + |Body(records)|, Starts(start, records, i), RecordGroups(records, i));
    } else {
      BodySlice(records, i);
      assert Indexable(infos, records[i]);
      var p := BodyPos(records, i);
      SubSlice(file, start, start + |Body(records)|, p, p + |records[i].bytes|);
      ScanStep(file, infos, start + p, start + |Body(records)|, Starts(start, records, i), RecordGroups(records, i),
               records[i]);
      ScanFromRecord(file, infos, start, records, i + 1);
    }
  }

  lemma ScanEnds(file: Contents, infos: seq<DbcGroupInfo>, end: Word, offsets: seq<Word>, idx: seq<Byte>)
    ensures Scan(file, infos, end, end, end, offsets, idx) == Done((offsets, idx))
  {
  }

  // ----- One record

  lemma {:induction false} ValueSlice(order: seq<Bytes>, n: nat, values: seq<SigWord>, i: nat)
    requires i < n <= |order|
    ensures ValuesBytes(order, n, values)[8 * i..8 * i + 8] == LE(ValueOf(values, order[i]), 8)
    decreases n
  {
    hide LE, ValueOf;
    if i < n - 1 { ValueSlice(order, n - 1, values, i); }
  }

  /** The signals in schema order, each with its value or 0.0. */
  function Projected(sigs: seq<SignalInfo>, values: seq<SigWord>): (r: seq<ReadValue>)
    ensures |r| == |sigs|
  {
    if sigs == [] then []
    else
      var last := sigs[|sigs| - 1];
      Projected(sigs[..|sigs| - 1], values) + [ReadValue(UpToNul(last.name), ValueOf(values, last.name))]
  }

  lemma {:induction false} ProjectedAt(sigs: seq<SignalInfo>, values: seq<SigWord>, i: nat)
    requires i < |sigs|
    ensures Projected(sigs, values)[i] == ReadValue(UpToNul(sigs[i].name), ValueOf(values, sigs[i].name))
  {
    hide UpToNul, ValueOf;
    if i < |sigs| - 1 { ProjectedAt(sigs[..|sigs| - 1], values, i); }
  }

  /** What the reader must deliver for a message. */
  function Expected(schema: seq<MessageInfo>, msg: DbcRecord): ReadMessage
    requires Known(schema, msg.msgId)
  {
    ReadMessage(msg.relTime, msg.msgId, Projected(schema[EntryOf(schema, |schema|, msg.msgId)].signalList, msg.values))
  }

  lemma ValueReadBack(sigs: seq<SignalInfo>, values: seq<SigWord>, buf: Bytes, i: nat)
    requires i < |sigs| && |buf| == 8 + 8 * |sigs|
    requires buf[8..] == ValuesBytes(Names(sigs), |sigs|, values)
    ensures FromLE(buf[8 + 8 * i..8 + 8 * (i + 1)]) == ValueOf(values, sigs[i].name)
  {
    hide LE, FromLE, ValueOf, ValuesBytes;
    ValueSlice(Names(sigs), |sigs|, values, i);
    SubSlice(buf, 8, |buf|, 8 * i, 8 * i + 8);
    assert buf[8..|buf|] == buf[8..];
    assert buf[8 + 8 * i..8 + 8 * (i + 1)] == LE(ValueOf(values, sigs[i].name), 8);
    WordFits(ValueOf(values, sigs[i].name));
    FromLEInverts(ValueOf(values, sigs[i].name), 8);
  }

  lemma {:induction false} ValuesReadBack(sigs: seq<SignalInfo>, n: nat, values: seq<SigWord>, buf: Bytes)
    requires n <= |sigs| && |buf| == 8 + 8 * |sigs|
    requires buf[8..] == ValuesBytes(Names(sigs), |sigs|, values)
    ensures ValuesAt(ReadNames(sigs), n, buf) == Projected(sigs, values)[..n]
    decreases n
  {
    hide LE, FromLE, UpToNul, ValueOf, ValuesBytes, Projected, ReadNames, Names;
    if n > 0 {
      ValuesReadBack(sigs, n - 1, values, buf);
      ValueReadBack(sigs, values, buf, n - 1);
      ProjectedAt(sigs, values, n - 1);
      assert Projected(sigs, values)[..n] == Projected(sigs, values)[..n - 1] + [Projected(sigs, values)[n - 1]];
    }
  }

  lemma RecordReadBack(schema: seq<MessageInfo>, msg: DbcRecord, r: Record)
    requires Recordable(schema) && IsRecordOf(schema, msg, r)
    ensures r.group < |schema| && Indexable(Infos(schema, |schema|), r) && Roomy(Infos(schema, |schema|)[r.group])
    ensures r.group < 256 && |r.bytes| == 1 + Infos(schema, |schema|)[r.group].payloadBytes
    ensures MessageOf(Infos(schema, |schema|)[r.group], r.bytes[1..]) == Expected(schema, msg)
  {
    hide LE, FromLE, Infos, ValuesBytes, UpToNul, ValuesAt, Projected, EntryOf, GroupOf, Names, ReadNames, MessageOf;
    var k := EntryOf(schema, |schema|, msg.msgId);
    GroupOfInfos(schema, |schema|, k);
    assert Infos(schema, |schema|)[k] == InfoOf(schema, k);
    PayloadReadBack(schema, k, msg, r.bytes[1..]);
  }

  lemma PayloadReadBack(schema: seq<MessageInfo>, k: nat, msg: DbcRecord, buf: Bytes)
    requires k < |schema| && schema[k].msgId == msg.msgId
    requires buf == DbcRecordBytes(MetaOf(schema[k], k), msg)[1..]
    ensures Roomy(InfoOf(schema, k)) && |buf| == InfoOf(schema, k).payloadBytes
    ensures MessageOf(InfoOf(schema, k), buf)
            == ReadMessage(msg.relTime, msg.msgId, Projected(schema[k].signalList, msg.values))
  {
    hide LE, FromLE, ValuesBytes, UpToNul, ValuesAt, Projected, Names, ReadNames;
    var sigs := schema[k].signalList;
    assert buf == LE(msg.relTime, 8) + ValuesBytes(Names(sigs), |sigs|, msg.values);
    assert buf[..8] == LE(msg.relTime, 8) && buf[8..] == ValuesBytes(Names(sigs), |sigs|, msg.values);
    WordFits(msg.relTime);
    FromLEInverts(msg.relTime, 8);
    ValuesReadBack(sigs, |sigs|, msg.values, buf);
    assert Projected(sigs, msg.values)[..|sigs|] == Projected(sigs, msg.values);
  }

  lemma {:induction false} GroupOfInfos(schema: seq<MessageInfo>, n: nat, k: nat)
    requires k < n <= |schema| <= 256
    ensures GroupOf(Infos(schema, n), k) == Some(k)
    decreases n
  {
    assert Infos(schema, n)[n - 1] == InfoOf(schema, n - 1);
    if k < n - 1 {
      assert Infos(schema, n)[..n - 1] == Infos(schema, n - 1);
      GroupOfInfos(schema, n - 1, k);
    }
  }

  // ----- The whole file

  /** The closed file of a DBC session. */
  ghost predicate IsSession(file: Bytes, schema: seq<MessageInfo>, startNs: Word, records: seq<Record>) {
    file == FinalImage(DbcGroups(schema), 1, startNs, records)
  }

  /** What the reader sees of a closed file before it looks at the groups. */
  lemma ImageRead(file: Contents, gs: seq<Group>, recIdSize: Byte, startNs: Word, records: seq<Record>)
    requires file == FinalImage(gs, recIdSize, startNs, records)
    ensures |file| >= 64 && file[..8] == Ascii("MDF     ")
    ensures ReadLink(file, 64 + 24) == Some(DG_POS) && ReadLink(file, 64 + 24 + 48) == Some(startNs)
    ensures CgLink(gs, 0) < WORDS && DtPos(gs) + 24 + |Body(records)| == |file|
    ensures ReadLink(file, Plus(DG_POS, 32)) == Some(CgLink(gs, 0))
    ensures ReadLink(file, Plus(DG_POS, 40)) == Some(DtPos(gs))
    ensures ReadInt(file, Plus(DG_POS, 56), 1) == Some(recIdSize)
    ensures ReadLink(file, Plus(DtPos(gs), 8)) == Some(24 + |Body(records)|)
    ensures At(file, DtPos(gs) + 24, Body(records))
    ensures HoldsGroups(file, gs, Counts(records, |gs|))
  {
    hide IdBlock, HdBlock, FhBlock, DgBlock, CgLink, GroupPos, Image, ReadLink, ReadInt, DtHeader, Body, At, Counts,
         GroupBytes, Ascii, LE, GroupsBytes;
    var counts := Counts(records, |gs|);
    var dt, length := DtPos(gs), 24 + |Body(records)|;
    ImageParts(gs, recIdSize, startNs, counts, length, Body(records));
    forall k | 0 <= k < |gs|
      ensures At(file, GroupPos(gs, k), GroupBytes(gs[k], GroupPos(gs, k), CgLink(gs, k + 1), counts[k]))
    {
      GroupAmong(file, gs, |gs|, counts, k);
    }
    var id, hd, fh, dg := IdBlock(), HdBlock(DG_POS, FH_POS, startNs), FhBlock(startNs),
        DgBlock(CgLink(gs, 0), dt, recIdSize);
    AtRight(file, 0, id + hd + fh, dg);
    AtLeft(file, 0, id + hd + fh, dg);
    AtLeft(file, 0, id + hd, fh);
    AtRight(file, 0, id, hd);
    AtLeft(file, 0, id, hd);
    MagicOf(file);
    HdFields(DG_POS, FH_POS, startNs);
    DgFields(CgLink(gs, 0), dt, recIdSize);
    DtFields(length);
    AtField(file, 64, hd, 24, DG_POS, 8);
    AtField(file, 64, hd, 72, startNs, 8);
    AtField(file, DG_POS, dg, 32, CgLink(gs, 0), 8);
    AtField(file, DG_POS, dg, 40, dt, 8);
    AtField(file, DG_POS, dg, 56, recIdSize, 1);
    AtField(file, dt, DtHeader(length), 8, length, 8);
    MetaInside(file, dt + 24, Body(records));
    NextInside(file, gs, counts, 0);
    LinkAt(file, 64, 24, DG_POS);
    LinkAt(file, 64, 72, startNs);
    LinkAt(file, DG_POS, 32, CgLink(gs, 0));
    LinkAt(file, DG_POS, 40, dt);
    Pow2Values();
    IntAt(file, DG_POS, 56, recIdSize, 1);
    LinkAt(file, dt, 8, length);
  }

  lemma MagicOf(file: Contents)
    requires At(file, 0, IdBlock())
    ensures |file| >= 64 && file[..8] == Ascii("MDF     ")
  {
    hide LE, Ascii;
    assert IdBlock()[..8] == Ident("MDF     ", 8);
    assert file[0..64][..8] == file[..8];
  }

  /** The session that the reader finds. */
  function SessionOf(schema: seq<MessageInfo>, startNs: Word, records: seq<Record>): Session
    requires DtPos(DbcGroups(schema)) + 24 + |Body(records)| < WORDS
  {
    Session(true, startNs, AllHeaders(DbcGroups(schema), 0, []), Infos(schema, |schema|),
            Starts(DtPos(DbcGroups(schema)) + 24, records, |records|), RecordGroups(records, |records|), 0, |records|)
  }

  lemma SessionParses(file: Contents, schema: seq<MessageInfo>, startNs: Word, records: seq<Record>)
    requires Recordable(schema) && IsSession(file, schema, startNs, records)
    requires AllIndexable(Infos(schema, |schema|), records)
    ensures DtPos(DbcGroups(schema)) + 24 + |Body(records)| < WORDS
    ensures !WalksForEver(file) && Parsed(file) == Done(SessionOf(schema, startNs, records))
  {
    hide DbcGroups, WalksForEver, Parsed, WalkGroups, Scan, ReadLink, ReadInt, Infos, Starts, RecordGroups, AllHeaders,
         CgLink, GroupPos, Body, Image, Counts, AllIndexable, Ascii, Plus, Recordable, HoldsGroups, FinalImage;
    var gs := DbcGroups(schema);
    ImageRead(file, DbcGroups(schema), 1, startNs, records);
    EmptyInfos(schema);
    SchemaIsSmall(schema);
    WalkFromGroup(file, schema, Counts(records, |schema|), 0, [], 512);
    WholeBody(records);
    PlusSmall(DtPos(gs), 24);
    PlusSmall(DtPos(gs), 24 + |Body(records)|);
    NothingScanned(DtPos(gs) + 24, records);
    ScanFromRecord(file, Infos(schema, |schema|), DtPos(gs) + 24, records, 0);
    assert ParseFile(file, 512) == Done(SessionOf(schema, startNs, records));
    BoundIsEnough(file, 512);
  }

  lemma SchemaIsSmall(schema: seq<MessageInfo>)
    requires Recordable(schema)
    ensures |schema| <= 256
  {
  }

  lemma EmptyInfos(schema: seq<MessageInfo>)
    ensures Infos(schema, 0) == []
  {
  }

  lemma NothingScanned(start: nat, records: seq<Record>)
    requires start + |Body(records)| < WORDS
    ensures Starts(start, records, 0) == [] && RecordGroups(records, 0) == []
  {
  }

  lemma BodyStands(file: Contents, schema: seq<MessageInfo>, startNs: Word, records: seq<Record>)
    requires IsSession(file, schema, startNs, records)
    ensures At(file, DtPos(DbcGroups(schema)) + 24, Body(records))
  {
    hide DbcGroups, Body, At, FinalImage, Counts, ReadLink, ReadInt, HoldsGroups, DtPos;
    ImageRead(file, DbcGroups(schema), 1, startNs, records);
  }

  /**
   The MDF4 file round trip: opening the closed file yields a DBC session whose records are the
   messages with an identifier in the schema, in order, each projected to the schema's signals.
   */
  lemma FileRoundTrip(file: Contents, schema: seq<MessageInfo>, startNs: Word, msgs: seq<DbcRecord>)
    requires Recordable(schema)
    requires IsSession(file, schema, startNs, RecordsOf(MetaMap(schema, |schema|), msgs))
    ensures var parsed, kept := Parsed(file), Kept(schema, msgs);
            && !WalksForEver(file)
            && parsed.Done? && parsed.value.isDbc && parsed.value.startNs == startNs
            && parsed.value.recordCount == |parsed.value.offsets| == |parsed.value.groupIdx| == |kept|
            && forall i | 0 <= i < |kept| ::
                 Known(schema, kept[i].msgId) && ReadsAs(file, parsed.value, i, Expected(schema, kept[i]))
  {
    hide DbcRecordBytes, Parsed, WalksForEver, SessionOf, Expected, IsSession, MetaMap, Indexable, Infos, IsRecordOf,
         ReadsAs, RecordsOf, Kept, DbcGroups, GroupPos, Body, At, HoldsGroups, Ascii, CgLink, ReadLink, ReadInt, Plus,
         Counts;
    var records, kept := RecordsOf(MetaMap(schema, |schema|), msgs), Kept(schema, msgs);
    RecordsAreKept(schema, msgs);
    forall i | 0 <= i < |records|
      ensures Indexable(Infos(schema, |schema|), records[i])
    {
      RecordReadBack(schema, kept[i], records[i]);
    }
    assert AllIndexable(Infos(schema, |schema|), records);
    SessionParses(file, schema, startNs, records);
    BodyStands(file, schema, startNs, records);
    forall i | 0 <= i < |kept|
      ensures Known(schema, kept[i].msgId) && ReadsAs(file, Parsed(file).value, i, Expected(schema, kept[i]))
    {
      RecordReads(file, schema, startNs, records, kept[i], i);
    }
    SessionFacts(schema, startNs, records);
  }

  lemma SessionFacts(schema: seq<MessageInfo>, startNs: Word, records: seq<Record>)
    requires DtPos(DbcGroups(schema)) + 24 + |Body(records)| < WORDS
    requires AllIndexable(Infos(schema, |schema|), records)
    ensures var s := SessionOf(schema, startNs, records);
            s.isDbc && s.startNs == startNs && s.recordCount == |s.offsets| == |s.groupIdx| == |records|
  {
    hide DbcGroups, GroupPos, Body, AllHeaders, Infos;
  }

  /** Reading record `k` of the session delivers `msg`. */
  ghost predicate ReadsAs(file: Contents, s: Session, k: nat, msg: ReadMessage) {
    && k < |s.offsets| && k < |s.groupIdx| && s.groupIdx[k] < |s.groups|
    && var g, at := s.groups[s.groupIdx[k]], Plus(s.offsets[k], 1);
       && Roomy(g) && at + g.payloadBytes <= |file|
       && MessageOf(g, file[at..at + g.payloadBytes]) == msg
  }

  lemma RecordReads(file: Contents, schema: seq<MessageInfo>, startNs: Word, records: seq<Record>, msg: DbcRecord,
                    i: nat)
    requires Recordable(schema) && i < |records|
    requires DtPos(DbcGroups(schema)) + 24 + |Body(records)| < WORDS
    requires At(file, DtPos(DbcGroups(schema)) + 24, Body(records))
    requires Known(schema, msg.msgId) && IsRecordOf(schema, msg, records[i])
    ensures ReadsAs(file, SessionOf(schema, startNs, records), i, Expected(schema, msg))
  {
    hide *;
    var start, r := DtPos(DbcGroups(schema)) + 24, records[i];
    RecordReadBack(schema, msg, r);
    RecordSlice(file, start, records, i);
    SessionAt(schema, startNs, records, i);
    var s, g, at := SessionOf(schema, startNs, records), Infos(schema, |schema|)[r.group],
        start + BodyPos(records, i) + 1;
    ReadsAsFrom(file, s, i, g, at, Expected(schema, msg));
  }

  lemma ReadsAsFrom(file: Contents, s: Session, i: nat, g: DbcGroupInfo, at: nat, msg: ReadMessage)
    requires i < |s.offsets| && i < |s.groupIdx| && s.groupIdx[i] < |s.groups| && s.groups[s.groupIdx[i]] == g
    requires s.offsets[i] == at - 1 && at + g.payloadBytes <= |file| && Roomy(g)
    requires MessageOf(g, file[at..at + g.payloadBytes]) == msg
    ensures ReadsAs(file, s, i, msg)
  {
    hide MessageOf;
    PlusSmall(s.offsets[i], 1);
  }

  lemma SessionAt(schema: seq<MessageInfo>, startNs: Word, records: seq<Record>, i: nat)
    requires DtPos(DbcGroups(schema)) + 24 + |Body(records)| < WORDS && i < |records|
    ensures var s := SessionOf(schema, startNs, records);
            && |s.offsets| == |s.groupIdx| == |records|
               && s.offsets[i] == DtPos(DbcGroups(schema)) + 24 + BodyPos(records, i)
            && s.groupIdx[i] == records[i].group % 256 && s.groups == Infos(schema, |schema|)
  {
    hide DbcGroups, GroupPos, Body, AllHeaders, Infos, BodyPos;
  }

  /** The payload of a record behind its identifier. */
  lemma RecordSlice(file: Contents, start: nat, records: seq<Record>, i: nat)
    requires At(file, start, Body(records)) && i < |records| && |records[i].bytes| > 0
    ensures var at := start + BodyPos(records, i) + 1;
            at + |records[i].bytes| - 1 <= |file| && file[at..at + |records[i].bytes| - 1] == records[i].bytes[1..]
  {
    hide Body, BodyPos;
    BodySlice(records, i);
    var p, r := BodyPos(records, i), records[i];
    SubSlice(file, start, start + |Body(records)|, p, p + |r.bytes|);
    SubSlice(file, start + p, start + p + |r.bytes|, 1, |r.bytes|);
  }

  /** With NUL-free names the reader delivers the schema's own names. */
  lemma NamesSurvive(sigs: seq<SignalInfo>, values: seq<SigWord>, i: nat)
    requires i < |sigs|
    ensures Projected(sigs, values)[i].name == sigs[i].name <==> NulFree(sigs[i].name)
  {
    ProjectedAt(sigs, values, i);
    NulFreeIsWhole(sigs[i].name);
  }

  /** In a schema that can be read back every message can be written. */
  lemma RecordableFits(schema: seq<MessageInfo>, msg: DbcRecord)
    requires Recordable(schema)
    ensures FitsBuffer(MetaMap(schema, |schema|), msg)
  {
    hide MetaMap, EntryOf;
    MetaIsEntry(schema, |schema|, msg.msgId);
  }

  /** Records messages with a flush before each index in `flushes`: they leave no trace in the file. */
  method RecordSession(schema: seq<MessageInfo>, startNs: Word, msgs: seq<DbcRecord>, flushes: set<nat>)
    returns (file: Bytes)
    requires forall m | m in msgs :: FitsBuffer(MetaMap(schema, |schema|), m)
    ensures IsSession(file, schema, startNs, RecordsOf(MetaMap(schema, |schema|), msgs))
  {
    hide DbcGroups, MetaMap, FinalImage, DbcAccepted, RawGroups, Image, Body, Counts, LE, Ascii, FitsBuffer;
    var writer := new Mdf4Writer.Dbc(schema, startNs);
    ghost var meta := MetaMap(schema, |schema|);
    for i := 0 to |msgs|
      invariant fresh(writer) && fresh(writer.file) && writer.Valid() && !writer.closed && writer.schema == schema
      invariant writer.msgMeta == meta
      invariant writer.records == RecordsOf(meta, msgs[..i])
    {
      if i in flushes {
        writer.Flush();
      }
      assert msgs[..i + 1][..i] == msgs[..i];
      writer.WriteDbc(msgs[i]);
    }
    assert msgs[..|msgs|] == msgs;
    writer.Close();
    file := writer.file.bytes;
  }

  /** The messages that were read are the kept ones from one position on, projected to the schema. */
  ghost predicate AreKept(schema: seq<MessageInfo>, kept: seq<DbcRecord>, from: nat, read: seq<ReadMessage>) {
    && from + |read| <= |kept|
    && forall i | 0 <= i < |read| :: Known(schema, kept[from + i].msgId) && read[i] == Expected(schema, kept[from + i])
  }

  /** Opens the file of a session, seeks a record, and reads on to the end. */
  method Replay(file: Contents, schema: seq<MessageInfo>, startNs: Word, ghost msgs: seq<DbcRecord>, from: nat)
    returns (sought: bool, replayed: seq<ReadMessage>)
    requires Recordable(schema) && IsSession(file, schema, startNs, RecordsOf(MetaMap(schema, |schema|), msgs))
    ensures sought == (from <= |Kept(schema, msgs)|)
    ensures sought ==> |replayed| == |Kept(schema, msgs)| - from && AreKept(schema, Kept(schema, msgs), from, replayed)
  {
    hide DbcGroups, MetaMap, Parsed, WalksForEver, Kept, Expected, Known, MessageOf, EntryOf, RecordsOf, IsSession,
         Recordable, ReadsAs;
    ghost var kept := Kept(schema, msgs);
    FileRoundTrip(file, schema, startNs, msgs);
    ghost var parsed := Parsed(file).value;
    var reader := new Mdf4Reader();
    var result := reader.Open(file);
    sought := reader.Seek(from);
    replayed := [];
    if !sought { return; }
    while !reader.Eof()
      invariant fresh(reader) && reader.Valid() && reader.isOpen && reader.file == file
      invariant reader.session == parsed && reader.cursor == from + |replayed| && AreKept(schema, kept, from, replayed)
      decreases |kept| - |replayed|
    {
      ghost var k := reader.cursor;
      assert Known(schema, kept[k].msgId) && ReadsAs(file, parsed, k, Expected(schema, kept[k]));
      var message := ReadNext(reader, Expected(schema, kept[k]));
      replayed := replayed + [message];
    }
  }

  method ReadNext(reader: Mdf4Reader, ghost expected: ReadMessage) returns (message: ReadMessage)
    requires reader.Valid() && reader.isOpen && reader.session.isDbc && reader.cursor < reader.session.recordCount
    requires ReadsAs(reader.file, reader.session, reader.cursor, expected)
    modifies reader`cursor
    ensures reader.Valid() && reader.cursor == old(reader.cursor) + 1 && message == expected
  {
    hide Plus, MessageOf;
    var ok, read := reader.ReadDbc();
    message := read;
  }
}
