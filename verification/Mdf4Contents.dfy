/**
 A closed MDF4 file as a foreign reader takes it: the channels say at which bytes of a record their values stand, and
 there they stand (src/can_stream/writer/mdf4_writer.cpp).
 */
module Mdf4Contents {
  import opened Bits
  import opened CanTypes
  import opened Mdf4Format
  import opened Mdf4Exact
  import opened Mdf4Writer
  import opened Mdf4Session
  import Mdf4RawSession
  import opened Mdf4Fields

  predicate Spells(s: Bytes, text: string) {
    |s| == |text| && forall k | 0 <= k < |s| :: s[k] == text[k] as int
  }

  lemma AsciiSpells(text: string)
    requires forall k | 0 <= k < |text| :: text[k] as int < 256
    ensures Spells(Ascii(text), text)
  {
    hide Ascii;
  }

  /** A channel of whole bytes: its kind, the type of its data, and its place behind the record's identifier. */
  predicate IsChannel(ch: Channel, channelType: Byte, syncType: Byte, dataType: Byte, byteOffset: nat, bytes: nat) {
    && ch.channelType == channelType && ch.syncType == syncType && ch.dataType == dataType
    && ch.byteOffset == byteOffset && ch.bitCount == 8 * bytes
  }

  /** Where the channel says, in a record with the payload at `at`, stands the number v. */
  predicate Reads(file: Bytes, at: nat, ch: Channel, v: nat) {
    Number(file, at + ch.byteOffset, ch.bitCount / 8, v)
  }

  /** The time in seconds, a master channel of eight-byte floats. */
  predicate IsTime(ch: Channel) {
    Spells(ch.name, "t") && Spells(ch.unit, "s") && IsChannel(ch, 2, 1, 4, 0, 8) && ch.chained && !ch.composed
  }

  lemma TimeIsMaster()
    ensures IsTime(MASTER)
  {
    hide Ascii, Spells;
    AsciiSpells("t");
    AsciiSpells("s");
  }

  // ----- Counting

  /** The cycle count of a group is the number of its records. */
  lemma {:induction false} CountIsNumber(records: seq<Record>, g: nat)
    ensures CountOf(records, g) == |set i | 0 <= i < |records| && records[i].group == g|
  {
    var all := set i | 0 <= i < |records| && records[i].group == g;
    if records != [] {
      var n := |records| - 1;
      CountIsNumber(records[..n], g);
      var before := set i | 0 <= i < |records[..n]| && records[..n][i].group == g;
      assert all == before + if records[n].group == g then {n} else {};
      assert n !in before;
    }
  }

  /** The length of the data block and the count of every group. */
  ghost predicate CountsAreExact(counts: seq<nat>, records: seq<Record>) {
    forall g | 0 <= g < |counts| :: counts[g] == |set i | 0 <= i < |records| && records[i].group == g|
  }

  lemma AllCounted(records: seq<Record>, n: nat)
    ensures CountsAreExact(Counts(records, n), records)
  {
    forall g | 0 <= g < n
      ensures Counts(records, n)[g] == |set i | 0 <= i < |records| && records[i].group == g|
    {
      CountIsNumber(records, g);
    }
  }

  /** Every closed file: links, counts, and the records one behind the other. */
  lemma ClosedFile(file: Bytes, groups: seq<Group>, recIdSize: Byte, startNs: Word, records: seq<Record>)
    requires file == FinalImage(groups, recIdSize, startNs, records)
    ensures IsLinked(file, groups, recIdSize, startNs, Counts(records, |groups|), 24 + |Body(records)|)
    ensures CountsAreExact(Counts(records, |groups|), records)
    ensures |file| == DtPos(groups) + 24 + |Body(records)|
    ensures forall i | 0 <= i < |records| :: At(file, DtPos(groups) + 24 + BodyPos(records, i), records[i].bytes)
  {
    hide Image, IsLinked, Counts, Body, DtPos, BodyPos, Prologue, GroupsBytes, DtHeader, CountsAreExact;
    var counts, body := Counts(records, |groups|), Body(records);
    ImageIsLinked(groups, recIdSize, startNs, counts, 24 + |body|, body);
    AllCounted(records, |groups|);
    ImageParts(groups, recIdSize, startNs, counts, 24 + |body|, body);
    forall i | 0 <= i < |records|
      ensures At(file, DtPos(groups) + 24 + BodyPos(records, i), records[i].bytes)
    {
      BodySlice(records, i);
      SubSlice(file, DtPos(groups) + 24, |file|, BodyPos(records, i), BodyPos(records, i + 1));
    }
  }

  // ----- A DBC session

  /** The group of a message: the time and one eight-byte float for every signal, side by side. */
  predicate IsMessageGroup(g: Group, msg: MessageInfo, k: nat) {
    && g.name == msg.name && g.metaIsMd && g.recordId == k && g.flags == 0 && g.separator == 0
    && g.dataBytes == 8 + 8 * |msg.signalList|
    && |g.channels| == 1 + |msg.signalList| && IsTime(g.channels[0])
    && forall i | 0 <= i < |msg.signalList| ::
         var ch := g.channels[i + 1];
         && ch.name == msg.signalList[i].name && ch.unit == msg.signalList[i].unit
         && IsChannel(ch, 0, 0, 4, 8 + 8 * i, 8) && ch.chained && !ch.composed
  }

  lemma DbcGroupIsMessageGroup(msg: MessageInfo, k: nat)
    ensures IsMessageGroup(DbcGroup(msg, k), msg, k)
  {
    hide IsTime, MASTER, MdBlock, MdXml, DbcChannels;
    TimeIsMaster();
  }

  /** The value of the first entry with the name, or else 0. */
  ghost predicate IsValueOf(values: seq<SigWord>, name: Bytes, v: Word) {
    || (exists i :: 0 <= i < |values| && values[i] == SigWord(name, v)
                    && forall j | 0 <= j < i :: values[j].name != name)
    || (v == 0 && forall i | 0 <= i < |values| :: values[i].name != name)
  }

  lemma {:induction false} FirstOfTheName(values: seq<SigWord>, name: Bytes)
    ensures IsValueOf(values, name, ValueOf(values, name))
  {
    if values != [] && values[0].name != name {
      var rest, v := values[1..], ValueOf(values, name);
      FirstOfTheName(rest, name);
      if i :| 0 <= i < |rest| && rest[i] == SigWord(name, v) && forall j | 0 <= j < i :: rest[j].name != name {
        forall j | 0 <= j < i + 1
          ensures values[j].name != name
        {
          assert j > 0 ==> values[j] == rest[j - 1];
        }
        assert values[i + 1] == SigWord(name, v);
      } else {
        forall i | 0 <= i < |values|
          ensures values[i].name != name
        {
          assert i > 0 ==> values[i] == rest[i - 1];
        }
      }
    } else if values != [] {
      assert values[0] == SigWord(name, values[0].value);
    }
  }

  /** Where the channel says, stands the value of the first entry with the name, or else 0. */
  ghost predicate ReadsValueOf(file: Bytes, at: nat, ch: Channel, values: seq<SigWord>, name: Bytes) {
    exists v: Word :: Reads(file, at, ch, v) && IsValueOf(values, name, v)
  }

  /** The record of a message: its group's identifier, and where the group's channels say, its time and values. */
  ghost predicate IsMessageRecord(file: Bytes, at: nat, g: Group, info: MessageInfo, msg: DbcRecord)
    requires |g.channels| == 1 + |info.signalList|
  {
    && Number(file, at, 1, g.recordId) && at + 1 + g.dataBytes <= |file|
    && Reads(file, at + 1, g.channels[0], msg.relTime)
    && forall i | 0 <= i < |info.signalList| ::
         ReadsValueOf(file, at + 1, g.channels[i + 1], msg.values, info.signalList[i].name)
  }

  lemma RecordIsRead(file: Bytes, at: nat, g: Group, info: MessageInfo, k: nat, msg: DbcRecord)
    requires IsMessageGroup(g, info, k) && At(file, at, DbcRecordBytes(MetaOf(info, k), msg))
    ensures IsMessageRecord(file, at, g, info, msg)
  {
    hide LE, ValueOf, ValuesBytes, Names, Number, IsValueOf, Spells;
    var sigs := info.signalList;
    var order := Names(sigs);
    var values := ValuesBytes(order, |sigs|, msg.values);
    var head := [k % 256] + LE(msg.relTime, 8);
    assert DbcRecordBytes(MetaOf(info, k), msg) == head + values;
    AtRight(file, at, head, values);
    AtLeft(file, at, head, values);
    AtRight(file, at, [k % 256], LE(msg.relTime, 8));
    AtLeft(file, at, [k % 256], LE(msg.relTime, 8));
    IdentifierIsRead(file, at, k);
    NumberAt(file, at + 1, msg.relTime, 8);
    forall i | 0 <= i < |sigs|
      ensures ReadsValueOf(file, at + 1, g.channels[i + 1], msg.values, sigs[i].name)
    {
      ValueIsRead(file, at + 9, order, msg.values, i);
      FirstOfTheName(msg.values, sigs[i].name);
      assert Reads(file, at + 1, g.channels[i + 1], ValueOf(msg.values, sigs[i].name));
    }
    AtBounds(file, at + 9, values);
    TimePlace(g.channels[0]);
    assert Reads(file, at + 1, g.channels[0], msg.relTime);
  }

  lemma AtBounds(file: Bytes, at: nat, part: Bytes)
    requires At(file, at, part)
    ensures at + |part| <= |file|
  {
  }

  lemma IdentifierIsRead(file: Bytes, at: nat, k: nat)
    requires At(file, at, [k % 256])
    ensures Number(file, at, 1, k)
  {
    assert file[at..at + 1][0] == k % 256;
  }

  lemma ValueIsRead(file: Bytes, at: nat, order: seq<Bytes>, values: seq<SigWord>, i: nat)
    requires i < |order| && At(file, at, ValuesBytes(order, |order|, values))
    ensures Number(file, at + 8 * i, 8, ValueOf(values, order[i]))
  {
    hide LE, ValueOf, ValuesBytes, Number;
    ValueSlice(order, |order|, values, i);
    FieldIsNumber(file, at, ValuesBytes(order, |order|, values), 8 * i, ValueOf(values, order[i]), 8);
  }

  /** The last entry of the identifier. */
  predicate IsLastEntry(schema: seq<MessageInfo>, k: nat, id: nat) {
    k < |schema| && schema[k].msgId == id && forall j | k < j < |schema| :: schema[j].msgId != id
  }

  lemma {:induction false} EntryIsLast(schema: seq<MessageInfo>, n: nat, id: nat)
    requires n <= |schema| && exists k | 0 <= k < n :: schema[k].msgId == id
    ensures forall j | EntryOf(schema, n, id) < j < n :: schema[j].msgId != id
  {
    if schema[n - 1].msgId != id { EntryIsLast(schema, n - 1, id); }
  }

  /** The identification of a message: its identifier in hexadecimal digits between two tags. */
  ghost predicate NamesMessage(file: Bytes, at: nat, id: nat) {
    exists open, digits, close ::
      && Spells(open, "<CANmessage><id>0x") && Spells(close, "</id></CANmessage>") && IsHexOf(digits, id)
      && IsText(file, at, "##MD", open + digits + close)
  }

  /** The digits 0 to 9 and A to F, without leading zeros. */
  predicate IsHexOf(digits: Bytes, n: nat)
    decreases |digits|
  {
    && digits != []
    && digits[|digits| - 1] == "0123456789ABCDEF"[n % 16] as int
    && if n < 16 then |digits| == 1 else IsHexOf(digits[..|digits| - 1], n / 16)
  }

  lemma {:induction false} HexIsHex(n: nat)
    ensures IsHexOf(Hex(n), n)
  {
    if n >= 16 {
      HexIsHex(n / 16);
      assert Hex(n)[..|Hex(n)| - 1] == Hex(n / 16);
    }
  }

  lemma MessageIsNamed(file: Bytes, at: nat, id: nat)
    requires At(file, at, MdBlock(MdXml(id)))
    ensures NamesMessage(file, at, id)
  {
    hide Ascii, Hex, BlockHdr, TextPadded, At, IsText, Spells, IsHexOf, TxSize;
    AsciiSpells("<CANmessage><id>0x");
    AsciiSpells("</id></CANmessage>");
    HexIsHex(id);
    TextStands(file, at, "##MD", MdXml(id));
    assert IsText(file, at, "##MD", Ascii("<CANmessage><id>0x") + Hex(id) + Ascii("</id></CANmessage>"));
  }

  /** The file of a DBC session: a group for every message of the schema, and the kept messages' records. */
  ghost predicate IsDbcFile(file: Bytes, schema: seq<MessageInfo>, startNs: Word, kept: seq<DbcRecord>,
                            groups: seq<Group>,
                            records: seq<Record>)
  {
    && |groups| == |schema| && |records| == |kept|
    && IsLinked(file, groups, 1, startNs, Counts(records, |groups|), 24 + |Body(records)|)
    && CountsAreExact(Counts(records, |groups|), records)
    && (forall k | 0 <= k < |groups| :: IsSchemaGroup(file, schema, groups, k))
    && forall i | 0 <= i < |records| :: IsKeptRecord(file, schema, groups, records, i, kept[i])
  }

  /** The group of a schema entry, with its MD block. */
  ghost predicate IsSchemaGroup(file: Bytes, schema: seq<MessageInfo>, groups: seq<Group>, k: nat)
    requires k < |groups| == |schema|
  {
    && IsMessageGroup(groups[k], schema[k], k)
    && NamesMessage(file, CgFields(groups[k], GroupPos(groups, k), CgLink(groups, k + 1)).md, schema[k].msgId)
  }

  /** The record of a kept message: behind the one before it, and laid out by the last entry of its identifier. */
  ghost predicate IsKeptRecord(file: Bytes, schema: seq<MessageInfo>, groups: seq<Group>, records: seq<Record>, i: nat,
                               msg: DbcRecord)
    requires |groups| == |schema| && i < |records|
  {
    exists k: nat :: IsLastEntry(schema, k, msg.msgId) && IsSchemaGroup(file, schema, groups, k)
                     && records[i].group == k % 256
                     && IsMessageRecord(file, DtPos(groups) + 24 + BodyPos(records, i), groups[k], schema[k], msg)
  }

  lemma SchemaGroupStands(file: Bytes, schema: seq<MessageInfo>, startNs: Word, records: seq<Record>, k: nat)
    requires IsSession(file, schema, startNs, records) && k < |schema|
    ensures IsSchemaGroup(file, schema, DbcGroups(schema), k)
  {
    hide Image, Counts, Body, BodyPos, GroupBytes, GroupsBytes, Prologue, DtHeader, At, IsMessageGroup, NamesMessage,
         MetaPos, GroupPos, TxBlock, ChannelsBytes, CgBytes, MdBlock, MdXml, DbcChannels, CgLink, DbcGroups, CgFields;
    var groups, counts := DbcGroups(schema), Counts(records, |schema|);
    assert |groups| == |schema| && groups[k] == DbcGroup(schema[k], k);
    DbcGroupIsMessageGroup(schema[k], k);
    MetaLinks(groups[k], GroupPos(groups, k), CgLink(groups, k + 1));
    ImageParts(groups, 1, startNs, counts, 24 + |Body(records)|, Body(records));
    GroupAmong(file, groups, |groups|, counts, k);
    GroupParts(file, groups[k], GroupPos(groups, k), CgLink(groups, k + 1), counts[k]);
    MessageIsNamed(file, MetaPos(groups[k], GroupPos(groups, k)), schema[k].msgId);
  }

  lemma KeptRecordStands(file: Bytes, schema: seq<MessageInfo>, groups: seq<Group>, records: seq<Record>, i: nat,
                         msg: DbcRecord)
    requires |groups| == |schema| && i < |records| && IsRecordOf(schema, msg, records[i])
    requires forall k | 0 <= k < |groups| :: IsSchemaGroup(file, schema, groups, k)
    requires At(file, DtPos(groups) + 24 + BodyPos(records, i), records[i].bytes)
    ensures IsKeptRecord(file, schema, groups, records, i, msg)
  {
    hide EntryOf, DbcRecordBytes, MetaOf, At, DtPos, BodyPos, IsMessageRecord, IsMessageGroup, NamesMessage;
    var k := EntryOf(schema, |schema|, msg.msgId);
    EntryIsLast(schema, |schema|, msg.msgId);
    assert IsSchemaGroup(file, schema, groups, k);
    RecordIsRead(file, DtPos(groups) + 24 + BodyPos(records, i), groups[k], schema[k], k, msg);
  }

  /**
   Whoever follows the links and channels of a closed DBC session, by the offsets of the standard alone, finds the
   messages that were kept, each with its time and the values of its signals.
   */
  lemma DbcFileIsReadable(file: Bytes, schema: seq<MessageInfo>, startNs: Word, msgs: seq<DbcRecord>)
    requires IsSession(file, schema, startNs, RecordsOf(MetaMap(schema, |schema|), msgs))
    ensures IsDbcFile(file, schema, startNs, Kept(schema, msgs), DbcGroups(schema),
                      RecordsOf(MetaMap(schema, |schema|), msgs))
  {
    hide RecordsOf, MetaMap, Kept, DbcGroups, IsRecordOf, IsKeptRecord, IsSchemaGroup, IsLinked, At, Counts, Body,
         BodyPos, DtPos, FinalImage, CountsAreExact;
    var groups, records, kept := DbcGroups(schema), RecordsOf(MetaMap(schema, |schema|), msgs), Kept(schema, msgs);
    ClosedFile(file, groups, 1, startNs, records);
    RecordsAreKept(schema, msgs);
    forall k | 0 <= k < |groups|
      ensures IsSchemaGroup(file, schema, groups, k)
    {
      SchemaGroupStands(file, schema, startNs, records, k);
    }
    forall i | 0 <= i < |records|
      ensures IsKeptRecord(file, schema, groups, records, i, kept[i])
    {
      KeptRecordStands(file, schema, groups, records, i, kept[i]);
    }
  }

  // ----- A RAW session

  /** The channels of a frame: the time, and a structure of bytes 8 to 24 with six named parts. */
  predicate AreFrameChannels(chs: seq<Channel>) {
    && |chs| == 8 && IsTime(chs[0])
    && Spells(chs[1].name, "CAN_DataFrame") && IsChannel(chs[1], 0, 0, 10, 8, 16)
    && chs[1].unit == [] && !chs[1].chained && chs[1].composed
    && AreFrontParts(chs) && AreBackParts(chs)
  }

  predicate AreFrontParts(chs: seq<Channel>)
    requires |chs| == 8
  {
    && IsPart(chs[2], "CAN_DataFrame.BusChannel", 0, 8, 1)
    && IsPart(chs[3], "CAN_DataFrame.ID", 0, 9, 4)
    && IsPart(chs[4], "CAN_DataFrame.Dir", 0, 13, 1)
  }

  predicate AreBackParts(chs: seq<Channel>)
    requires |chs| == 8
  {
    && IsPart(chs[5], "CAN_DataFrame.DLC", 0, 14, 1)
    && IsPart(chs[6], "CAN_DataFrame.DataLength", 0, 15, 1)
    && IsPart(chs[7], "CAN_DataFrame.DataBytes", 10, 16, 8)
  }

  predicate IsPart(ch: Channel, name: string, dataType: Byte, byteOffset: nat, bytes: nat) {
    Spells(ch.name, name) && ch.unit == [] && IsChannel(ch, 0, 0, dataType, byteOffset, bytes) && ch.chained
    && !ch.composed
  }

  predicate IsFrameGroup(g: Group) {
    && Spells(g.name, "CAN") && !g.metaIsMd && g.recordId == 0 && g.dataBytes == 24 && g.flags == 6
    && g.separator == '.' as int && AreFrameChannels(g.channels)
  }

  lemma PartAt(c: nat, name: string, dataType: Byte, byteOffset: nat, bytes: nat)
    requires c < 6 && SubDefs()[c] == RawChanDef(name, dataType, byteOffset, 8 * bytes)
    requires forall k | 0 <= k < |name| :: name[k] as int < 256
    ensures IsPart(RawChannels()[c + 2], name, dataType, byteOffset, bytes)
  {
    hide Ascii, Spells, MASTER, RawChannels, FrameChannel, SubDefs;
    RawChannelsAre();
    AsciiSpells(name);
  }

  lemma FirstChannels()
    ensures IsTime(RawChannels()[0]) && RawChannels()[1] == FrameChannel()
    ensures Spells(FrameChannel().name, "CAN_DataFrame")
  {
    hide Ascii, Spells, IsTime, MASTER, RawChannels, SubChannel, SubDefs;
    TimeIsMaster();
    AsciiSpells("CAN_DataFrame");
    RawChannelsAre();
  }

  lemma FrontPartsAre()
    ensures AreFrontParts(RawChannels())
  {
    hide Ascii, Spells, RawChannels, IsPart;
    PartAt(0, "CAN_DataFrame.BusChannel", 0, 8, 1);
    PartAt(1, "CAN_DataFrame.ID", 0, 9, 4);
    PartAt(2, "CAN_DataFrame.Dir", 0, 13, 1);
  }

  lemma BackPartsAre()
    ensures AreBackParts(RawChannels())
  {
    hide Ascii, Spells, RawChannels, IsPart;
    PartAt(3, "CAN_DataFrame.DLC", 0, 14, 1);
    PartAt(4, "CAN_DataFrame.DataLength", 0, 15, 1);
    PartAt(5, "CAN_DataFrame.DataBytes", 10, 16, 8);
  }

  lemma RawChannelsAreFrameChannels()
    ensures AreFrameChannels(RawChannels())
  {
    hide Ascii, Spells, IsTime, RawChannels, AreFrontParts, AreBackParts;
    FirstChannels();
    FrontPartsAre();
    BackPartsAre();
  }

  lemma RawGroupIsFrameGroup()
    ensures |RawGroups()| == 1 && IsFrameGroup(RawGroups()[0])
    ensures RawGroups()[0].meta == SiBlock(2)
  {
    hide Ascii, Spells, SiBlock, AreFrameChannels, RawChannels;
    AsciiSpells("CAN");
    RawChannelsAreFrameChannels();
  }

  /** The record of a frame: what stands where the channels say.  The bytes behind the length are zero. */
  ghost predicate IsFrameRecord(file: Bytes, at: nat, g: Group, msg: RawRecord)
    requires IsFrameGroup(g)
  {
    && at + g.dataBytes <= |file|
    && Reads(file, at, g.channels[0], msg.relTime)
    && Reads(file, at, g.channels[2], 1)
    && Reads(file, at, g.channels[3], msg.msgId)
    && Reads(file, at, g.channels[4], 0)
    && Reads(file, at, g.channels[5], msg.dlc) && Reads(file, at, g.channels[6], msg.dlc)
    && forall i | 0 <= i < 8 :: file[at + g.channels[7].byteOffset + i] == if i < msg.dlc then msg.data[i] else 0
  }

  lemma FrameIsRead(file: Bytes, at: nat, g: Group, msg: RawRecord)
    requires IsFrameGroup(g) && At(file, at, RawRecordBytes(msg))
    ensures IsFrameRecord(file, at, g, msg)
  {
    hide LE, Number, Spells, IsTime;
    FrameHead(file, at, msg);
    FrameByte(file, at, msg, 0);
    TimePlace(g.channels[0]);
    assert Reads(file, at, g.channels[0], msg.relTime);
    forall i | 0 <= i < 8
      ensures file[at + g.channels[7].byteOffset + i] == if i < msg.dlc then msg.data[i] else 0
    {
      FrameByte(file, at, msg, i);
    }
  }

  lemma TimePlace(ch: Channel)
    requires IsTime(ch)
    ensures ch.byteOffset == 0 && ch.bitCount == 64
  {
  }

  lemma FrameHead(file: Bytes, at: nat, msg: RawRecord)
    requires At(file, at, RawRecordBytes(msg))
    ensures Number(file, at, 8, msg.relTime) && Number(file, at + 8, 1, 1) && Number(file, at + 9, 4, msg.msgId)
    ensures Number(file, at + 13, 1, 0) && Number(file, at + 14, 1, msg.dlc) && Number(file, at + 15, 1, msg.dlc)
  {
    hide LE, Number;
    var b := RawRecordBytes(msg);
    assert b[0..8] == LE(msg.relTime, 8) && b[9..13] == LE(msg.msgId, 4);
    FieldIsNumber(file, at, b, 0, msg.relTime, 8);
    FieldIsNumber(file, at, b, 9, msg.msgId, 4);
    assert b[8] == 1 && b[13] == 0 && b[14] == msg.dlc && b[15] == msg.dlc;
    ByteIsRead(file, at, b, 8);
    ByteIsRead(file, at, b, 13);
    ByteIsRead(file, at, b, 14);
    ByteIsRead(file, at, b, 15);
  }

  lemma ByteIsRead(file: Bytes, at: nat, block: Bytes, p: nat)
    requires At(file, at, block) && p < |block|
    ensures Number(file, at + p, 1, block[p])
  {
    assert file[at..at + |block|][p] == block[p];
  }

  lemma FrameByte(file: Bytes, at: nat, msg: RawRecord, i: nat)
    requires At(file, at, RawRecordBytes(msg)) && i < 8
    ensures at + 24 <= |file| && file[at + 16 + i] == if i < msg.dlc then msg.data[i] else 0
  {
    hide LE, Mdf4RawSession.Covered;
    Mdf4RawSession.RawRecordParts(msg);
    var b := RawRecordBytes(msg);
    assert file[at..at + 24][16 + i] == b[16 + i] == b[16..24][i] == Mdf4RawSession.Covered(msg)[i];
  }

  /** The file of a RAW session: a group with the source "CAN bus", and the records of all frames. */
  ghost predicate IsRawFile(file: Bytes, startNs: Word, msgs: seq<RawRecord>, groups: seq<Group>) {
    && |groups| == 1 && IsFrameGroup(groups[0])
    && IsLinked(file, groups, 0, startNs, [|msgs|], 24 + 24 * |msgs|)
    && SourceIsBus(file, groups)
    && |file| == DtPos(groups) + 24 + 24 * |msgs|
    && forall i | 0 <= i < |msgs| :: IsFrameRecord(file, DtPos(groups) + 24 + 24 * i, groups[0], msgs[i])
  }

  lemma {:induction false} AllOfOneGroup(records: seq<Record>)
    requires forall i | 0 <= i < |records| :: records[i].group == 0
    ensures CountOf(records, 0) == |records|
  {
    if records != [] { AllOfOneGroup(records[..|records| - 1]); }
  }

  lemma FrameMeta(g: Group)
    requires IsFrameGroup(g)
    ensures !g.metaIsMd
  {
    hide AreFrameChannels, Spells;
  }

  lemma MetaLinks(g: Group, base: nat, next: nat)
    ensures CgFields(g, base, next).md == (if g.metaIsMd then MetaPos(g, base) else 0)
    ensures CgFields(g, base, next).si == (if g.metaIsMd then 0 else MetaPos(g, base))
  {
    hide MetaPos, CnPos;
  }

  /** The group's source link leads to an SI block of a CAN bus. */
  predicate SourceIsBus(file: Bytes, groups: seq<Group>) {
    |groups| == 1 && IsSi(file, CgFields(groups[0], GroupPos(groups, 0), CgLink(groups, 1)).si, 2)
  }

  lemma SourceStands(file: Bytes, startNs: Word, msgs: seq<RawRecord>)
    requires Mdf4RawSession.IsRawSession(file, RawGroups(), startNs, msgs)
    ensures SourceIsBus(file, RawGroups())
  {
    hide Image, Counts, Body, BodyPos, GroupBytes, GroupsBytes, Prologue, DtHeader, At, IsFrameGroup, IsSi, SiBlock,
         MetaPos, GroupPos, TxBlock, ChannelsBytes, CgBytes, CgLink, RawGroups, Mdf4RawSession.RawRecords, CgFields;
    var groups, records := RawGroups(), Mdf4RawSession.RawRecords(msgs);
    var counts := Counts(records, 1);
    RawGroupIsFrameGroup();
    assert !groups[0].metaIsMd by { FrameMeta(groups[0]); }
    ImageParts(groups, 0, startNs, counts, 24 + |Body(records)|, Body(records));
    GroupAmong(file, groups, |groups|, counts, 0);
    GroupParts(file, groups[0], GroupPos(groups, 0), CgLink(groups, 1), counts[0]);
    MetaLinks(groups[0], GroupPos(groups, 0), CgLink(groups, 1));
    SiStands(file, MetaPos(groups[0], GroupPos(groups, 0)), 2);
  }

  /** The same for a RAW session and its frames. */
  lemma RawFileIsReadable(file: Bytes, startNs: Word, msgs: seq<RawRecord>)
    requires Mdf4RawSession.IsRawSession(file, RawGroups(), startNs, msgs)
    ensures IsRawFile(file, startNs, msgs, RawGroups())
  {
    hide RawGroups, IsLinked, At, Counts, Body, BodyPos, DtPos, FinalImage, CountsAreExact, SourceIsBus, IsFrameRecord,
         IsFrameGroup, RawRecordBytes, CountOf;
    var groups, records := RawGroups(), Mdf4RawSession.RawRecords(msgs);
    RawGroupIsFrameGroup();
    SourceStands(file, startNs, msgs);
    ClosedFile(file, groups, 0, startNs, records);
    Mdf4RawSession.RawBodyLength(records, |records|);
    WholeBody(records);
    AllOfOneGroup(records);
    assert Counts(records, 1) == [|msgs|];
    forall i | 0 <= i < |msgs|
      ensures IsFrameRecord(file, DtPos(groups) + 24 + 24 * i, groups[0], msgs[i])
    {
      Mdf4RawSession.RawBodyLength(records, i);
      FrameIsRead(file, DtPos(groups) + 24 + 24 * i, groups[0], msgs[i]);
    }
  }
}
