/** A RAW session is read back frame by frame. */
module Mdf4RawSession {
  import opened Bits
  import opened CanTypes
  import opened Mdf4Format
  import opened Mdf4Layout
  import opened Mdf4Writer
  import opened Mdf4Walks
  import opened Mdf4Links
  import opened Mdf4Reader
  import opened Mdf4Exact
  import opened Mdf4RoundTrip
  import opened Mdf4Session

  // ----- The records

  function RawRecords(msgs: seq<RawRecord>): (r: seq<Record>)
    ensures |r| == |msgs| && forall i | 0 <= i < |r| :: r[i] == Record(0, RawRecordBytes(msgs[i]))
  {
    seq(|msgs|, i requires 0 <= i < |msgs| => Record(0, RawRecordBytes(msgs[i])))
  }

  lemma RawRecordsAppend(msgs: seq<RawRecord>, n: nat)
    requires n < |msgs|
    ensures RawRecords(msgs[..n + 1]) == RawRecords(msgs[..n]) + [Record(0, RawRecordBytes(msgs[n]))]
  {
    hide RawRecordBytes;
  }

  lemma {:induction false} RawBodyLength(records: seq<Record>, n: nat)
    requires n <= |records| && forall i | 0 <= i < |records| :: |records[i].bytes| == 24
    ensures BodyPos(records, n) == 24 * n
  {
    hide Body, BodyPos;
    if n == 0 {
      WholeBody(records);
    } else {
      RawBodyLength(records, n - 1);
      BodySlice(records, n - 1);
    }
  }

  /** What is left of a frame: the bytes that its length covers, and eleven bits of the identifier. */
  function Expected(msg: RawRecord): ReadFrame {
    ReadFrame(msg.relTime, msg.msgId % 0x800, msg.dlc, Covered(msg))
  }

  function Covered(msg: RawRecord): (r: Payload)
    ensures forall i | 0 <= i < 8 :: r[i] == if i < DataLength(msg.dlc) then msg.data[i] else 0
  {
    msg.data[..DataLength(msg.dlc)] + Zeros(8 - DataLength(msg.dlc))
  }

  lemma RawRecordParts(msg: RawRecord)
    ensures var b := RawRecordBytes(msg);
            b[..8] == LE(msg.relTime, 8) && b[9..13] == LE(msg.msgId, 4) && b[14] == msg.dlc
                && b[16..24] == Covered(msg)
  {
    hide LE, Zeros;
    var b := RawRecordBytes(msg);
    var head := LE(msg.relTime, 8) + [1] + LE(msg.msgId, 4) + [0] + [msg.dlc] + [msg.dlc];
    assert |head| == 16;
    Associate(head, msg.data[..DataLength(msg.dlc)], Zeros(8 - DataLength(msg.dlc)), []);
    assert b == head + Covered(msg);
    assert head[..8] == LE(msg.relTime, 8) && head[9..13] == LE(msg.msgId, 4) && head[14] == msg.dlc;
  }

  lemma FrameReadBack(msg: RawRecord)
    requires msg.msgId < 0x1_0000_0000
    ensures FrameOf(RawRecordBytes(msg)) == Expected(msg)
  {
    hide LE, FromLE, RawRecordBytes, Covered;
    RawRecordParts(msg);
    Pow2Values();
    WordFits(msg.relTime);
    FromLEInverts(msg.relTime, 8);
    FromLEInverts(msg.msgId, 4);
  }

  /** Exactly the frames with a standard identifier and no bytes behind their length survive unchanged. */
  lemma FrameSurvives(msg: RawRecord)
    ensures Expected(msg) == ReadFrame(msg.relTime, msg.msgId, msg.dlc, msg.data)
            <==> msg.msgId <= 0x7FF && forall i | msg.dlc <= i < 8 :: msg.data[i] == 0
  {
    hide Covered;
    var covered := Covered(msg);
    if covered != msg.data {
      var i :| 0 <= i < 8 && covered[i] != msg.data[i];
    }
    forall i | msg.dlc <= i < 8
      ensures covered[i] == 0
    {
    }
  }

  // ----- The channel walk

  /** The links of a CN block stand in the file and are in range. */
  lemma RawChannelLinks(file: Contents, g: Group, base: nat, next: nat, count: nat, c: nat)
    requires At(file, base, GroupBytes(g, base, next, count)) && c < |g.channels|
    ensures 0 < CnPos(g, base, c) && NextCn(g, base, c) < WORDS && Composition(g, base, c) < WORDS
    ensures At(file, CnPos(g, base, c) + 24, LE(NextCn(g, base, c), 8))
    ensures At(file, CnPos(g, base, c) + 32, LE(Composition(g, base, c), 8))
    ensures At(file, CnPos(g, base, c) + 40, LE(ChannelPos(g, base, c), 8))
  {
    hide GroupBytes, BlockHdr, TextPadded, TxSize, ChannelPos, At, CnPos, CnParams.Block, LE;
    ChannelParts(file, g, base, next, count, c);
    ChannelPositive(g, base, c);
    var fields, at := CnFields(g, base, c), CnPos(g, base, c);
    CnNext(fields);
    CnComposition(fields);
    CnName(fields);
    AtField(file, at, CnBytes(g, base, c), 24, NextCn(g, base, c), 8);
    AtField(file, at, CnBytes(g, base, c), 32, Composition(g, base, c), 8);
    AtField(file, at, CnBytes(g, base, c), 40, ChannelPos(g, base, c), 8);
    if c + 1 < |g.channels| {
      ChannelParts(file, g, base, next, count, c + 1);
      MetaInside(file, CnPos(g, base, c + 1), CnBytes(g, base, c + 1));
    }
  }

  lemma RawChannelName(file: Contents, g: Group, base: nat, next: nat, count: nat, c: nat)
    requires At(file, base, GroupBytes(g, base, next, count)) && c < |g.channels|
    ensures 0 < ChannelPos(g, base, c) < WORDS && ReadText(file, ChannelPos(g, base, c)) == UpToNul(g.channels[c].name)
  {
    hide GroupBytes, BlockHdr, TextPadded, ReadText, TxSize, ChannelPos, UpToNul, At, CnPos, CnBytes;
    ChannelParts(file, g, base, next, count, c);
    ChannelPositive(g, base, c);
    MetaInside(file, ChannelPos(g, base, c), TxBlock(g.channels[c].name));
    TextAt(file, ChannelPos(g, base, c), BlockHdr("##TX", TxSize(g.channels[c].name), 0), g.channels[c].name);
  }

  /** What the reader sees of any CN block. */
  lemma RawChannelRead(file: Contents, g: Group, base: nat, next: nat, count: nat, c: nat)
    requires At(file, base, GroupBytes(g, base, next, count)) && c < |g.channels|
    ensures 0 < CnPos(g, base, c) < WORDS && NextCn(g, base, c) < WORDS && Composition(g, base, c) < WORDS
    ensures 0 < ChannelPos(g, base, c) < WORDS
    ensures ReadLink(file, Plus(CnPos(g, base, c), 24)) == Some(NextCn(g, base, c))
    ensures ReadLink(file, Plus(CnPos(g, base, c), 32)) == Some(Composition(g, base, c))
    ensures ReadLink(file, Plus(CnPos(g, base, c), 40)) == Some(ChannelPos(g, base, c))
    ensures ReadText(file, ChannelPos(g, base, c)) == UpToNul(g.channels[c].name)
  {
    hide *;
    RawChannelLinks(file, g, base, next, count, c);
    RawChannelName(file, g, base, next, count, c);
    LinkAt(file, CnPos(g, base, c), 24, NextCn(g, base, c));
    LinkAt(file, CnPos(g, base, c), 32, Composition(g, base, c));
    LinkAt(file, CnPos(g, base, c), 40, ChannelPos(g, base, c));
  }

  function TextsFrom(chs: seq<Channel>, c: nat): seq<Bytes>
    requires c <= |chs|
    decreases |chs| - c
  {
    if c == |chs| then [] else [UpToNul(chs[c].name)] + TextsFrom(chs, c + 1)
  }

  /** The channels from c on are leaves that lead to one another. */
  predicate Leaves(chs: seq<Channel>, c: nat) {
    forall i | c <= i < |chs| :: chs[i].chained && !chs[i].composed
  }

  lemma {:induction false} WalkLeaves(file: Contents, g: Group, base: nat, next: nat, count: nat, c: nat,
                                      headers: seq<Bytes>, fuel: nat)
    requires At(file, base, GroupBytes(g, base, next, count)) && Leaves(g.channels, c)
    requires c <= |g.channels| <= c + fuel
    ensures CnLink(g, base, c) < WORDS
    ensures WalkComposition(file, CnLink(g, base, c), headers, fuel) == Done(headers + TextsFrom(g.channels, c))
    decreases |g.channels| - c
  {
    hide GroupBytes, ReadLink, ReadText, ChannelPos, UpToNul, At, CnPos, Plus;
    if c < |g.channels| {
      RawChannelRead(file, g, base, next, count, c);
      var name := UpToNul(g.channels[c].name);
      WalkLeaves(file, g, base, next, count, c + 1, headers + [name], fuel - 1);
      assert headers + [name] + TextsFrom(g.channels, c + 1) == headers + TextsFrom(g.channels, c);
    } else {
      assert headers + [] == headers;
    }
  }

  /** A chained master, a composed channel, and leaves: the shape of a RAW group. */
  ghost predicate IsRawShape(chs: seq<Channel>) {
    && |chs| > 2 && chs[0].chained && !chs[0].composed && !chs[1].chained && chs[1].composed && Leaves(chs, 2)
  }

  /** The column headers: the master and the sub-channels, without the channel that they compose. */
  function RawHeaders(chs: seq<Channel>): seq<Bytes>
    requires |chs| > 2
  {
    [UpToNul(chs[0].name)] + TextsFrom(chs, 2)
  }

  lemma WalkRawChannels(file: Contents, g: Group, base: nat, next: nat, count: nat, fuel: nat)
    requires At(file, base, GroupBytes(g, base, next, count)) && IsRawShape(g.channels) && |g.channels| <= fuel
    ensures CnLink(g, base, 0) < WORDS
    ensures WalkRaw(file, CnLink(g, base, 0), [], fuel) == Done(RawHeaders(g.channels))
  {
    hide GroupBytes, ReadLink, ReadText, ChannelPos, UpToNul, At, CnPos, Plus, WalkComposition, TextsFrom;
    RawChannelRead(file, g, base, next, count, 0);
    RawChannelRead(file, g, base, next, count, 1);
    RawChannelRead(file, g, base, next, count, 2);
    var first := [UpToNul(g.channels[0].name)];
    assert [] + first == first;
    WalkLeaves(file, g, base, next, count, 2, first, fuel - 1);
    assert WalkRaw(file, 0, RawHeaders(g.channels), fuel - 2) == Done(RawHeaders(g.channels));
    assert WalkRaw(file, CnPos(g, base, 1), first, fuel - 1) == Done(RawHeaders(g.channels));
  }

  /** One group with eight channels of that shape. */
  ghost predicate IsRawGroup(gs: seq<Group>) {
    |gs| == 1 && |gs[0].channels| == 8 && IsRawShape(gs[0].channels) && gs[0].recordId < WORDS
        && gs[0].dataBytes < 0x1_0000_0000
  }

  lemma RawGroupsAreRaw()
    ensures IsRawGroup(RawGroups())
  {
    hide Ascii, SiBlock, RawChannels, SubDefs;
    RawChannelsAre();
  }

  // ----- The whole file

  /** The closed file of a RAW session whose groups are `gs`. */
  ghost predicate IsRawSession(file: Bytes, gs: seq<Group>, startNs: Word, msgs: seq<RawRecord>) {
    file == FinalImage(gs, 0, startNs, RawRecords(msgs))
  }

  lemma RecordCount(n: nat)
    requires 24 + 24 * n < WORDS
    ensures Plus(24 + 24 * n, WORDS - 24) / 24 == n
  {
  }

  lemma RawHeaderParses(file: Contents, startNs: Word, cgFirst: Word, dt: Word, cn: Word, n: nat, headers: seq<Bytes>,
                        fuel: nat)
    requires dt + 24 + 24 * n < WORDS
    requires ReadLink(file, Plus(dt, 8)) == Some(24 + 24 * n) && ReadLink(file, Plus(cgFirst, 32)) == Some(cn)
    requires WalkRaw(file, cn, [], fuel) == Done(headers)
    ensures ParseRaw(file, startNs, cgFirst, dt, fuel) == Done(Session(false, startNs, headers, [], [], [], dt + 24, n))
  {
    hide WalkRaw, ReadLink, Plus;
    RecordCount(n);
    PlusSmall(dt, 24);
  }

  /** The session that the reader finds in a file of `size` bytes with n frames at its end. */
  function RawSessionOf(headers: seq<Bytes>, startNs: Word, n: nat, size: nat): Session
    requires 24 * n <= size < WORDS
  {
    Session(false, startNs, headers, [], [], [], size - 24 * n, n)
  }

  lemma HoldsFirst(file: Contents, gs: seq<Group>, counts: seq<nat>)
    requires HoldsGroups(file, gs, counts) && |gs| == 1
    ensures |counts| == 1 && At(file, GroupPos(gs, 0), GroupBytes(gs[0], GroupPos(gs, 0), CgLink(gs, 1), counts[0]))
  {
    hide At, GroupBytes, GroupPos, CgLink;
  }

  lemma RawGroupWalk(file: Contents, gs: seq<Group>, counts: seq<nat>, fuel: nat) returns (cn: Word)
    requires HoldsGroups(file, gs, counts) && IsRawGroup(gs) && fuel >= 8
    ensures CgLink(gs, 0) < WORDS
    ensures ReadLink(file, Plus(CgLink(gs, 0), 32)) == Some(cn)
            && WalkRaw(file, cn, [], fuel) == Done(RawHeaders(gs[0].channels))
  {
    hide HoldsGroups, WalkRaw, ReadLink, ReadInt, CgLink, GroupPos, Plus, RawHeaders, GroupBytes, CnPos, At, IsRawShape,
         CnLink;
    HoldsFirst(file, gs, counts);
    GroupRead(file, gs, counts, 0);
    WalkRawChannels(file, gs[0], GroupPos(gs, 0), CgLink(gs, 1), counts[0], fuel);
    cn := CnLink(gs[0], GroupPos(gs, 0), 0);
  }

  /** Opening the closed file of a RAW session. */
  lemma RawSessionParses(file: Contents, gs: seq<Group>, startNs: Word, msgs: seq<RawRecord>)
    requires IsRawSession(file, gs, startNs, msgs) && IsRawGroup(gs)
    ensures DtPos(gs) + 24 + 24 * |msgs| == |file|
    ensures !WalksForEver(file) && Parsed(file)
            == Done(RawSessionOf(RawHeaders(gs[0].channels), startNs, |msgs|, |file|))
  {
    hide ReadLink, ReadInt, CgLink, Body, Counts, Ascii, Plus, FinalImage, RawRecordBytes, At, DtPos, ParseRaw, WalkRaw,
         IsRawShape, HoldsGroups, BodyPos, RawHeaders;
    var records := RawRecords(msgs);
    ImageRead(file, gs, 0, startNs, records);
    RawBodyLength(records, |records|);
    WholeBody(records);
    var cn := RawGroupWalk(file, gs, Counts(records, |gs|), 8);
    RawHeaderParses(file, startNs, CgLink(gs, 0), DtPos(gs), cn, |msgs|, RawHeaders(gs[0].channels), 8);
    BoundIsEnough(file, 8);
  }

  lemma RawFrameStands(file: Contents, gs: seq<Group>, startNs: Word, msgs: seq<RawRecord>, i: nat)
    requires IsRawSession(file, gs, startNs, msgs) && i < |msgs|
    ensures var at := DtPos(gs) + 24 + 24 * i; at + 24 <= |file| && file[at..at + 24] == RawRecordBytes(msgs[i])
  {
    hide Body, BodyPos, Image, Counts, FinalImage, RawRecordBytes, DtPos, ReadLink, ReadInt, HoldsGroups, CgLink, Ascii,
         Plus;
    var records := RawRecords(msgs);
    ImageRead(file, gs, 0, startNs, records);
    RawBodyLength(records, i);
    RawBodyLength(records, i + 1);
    BodySlice(records, i);
    var start := DtPos(gs) + 24;
    SubSlice(file, start, start + |Body(records)|, 24 * i, 24 * (i + 1));
  }

  /** Records frames with a flush before each index in `flushes`: they leave no trace in the file. */
  method RecordRawSession(startNs: Word, msgs: seq<RawRecord>, flushes: set<nat>) returns (file: Bytes)
    ensures IsRawSession(file, RawGroups(), startNs, msgs)
  {
    hide DbcGroups, FinalImage, RawGroups, Image, Body, Counts, LE, Ascii, RawRecordBytes;
    var writer := new Mdf4Writer.Raw(startNs);
    assert RawRecords(msgs[..0]) == [];
    for i := 0 to |msgs|
      invariant fresh(writer) && fresh(writer.file) && writer.Valid() && !writer.closed && !writer.isDbc
                && writer.startNs == startNs
      invariant writer.records == RawRecords(msgs[..i])
    {
      if i in flushes {
        writer.Flush();
      }
      RawRecordsAppend(msgs, i);
      writer.WriteRaw(msgs[i]);
    }
    assert msgs[..|msgs|] == msgs;
    writer.Close();
    file := writer.file.bytes;
  }

  /** Opens the file of a RAW session, seeks a record, and reads on to the end. */
  method ReplayRaw(file: Contents, ghost gs: seq<Group>, startNs: Word, ghost msgs: seq<RawRecord>, from: nat)
    returns (sought: bool, replayed: seq<ReadFrame>)
    requires IsRawGroup(gs) && IsRawSession(file, gs, startNs, msgs) && forall m | m in msgs :: m.msgId < 0x1_0000_0000
    ensures sought == (from <= |msgs|)
    ensures sought ==> |replayed| == |msgs| - from && forall i | 0 <= i < |replayed| ::
            replayed[i] == Expected(msgs[from + i])
  {
    hide Parsed, WalksForEver, IsRawSession, RawRecordBytes, FrameOf, Expected, RawHeaders, DtPos, IsRawShape;
    ghost var headers := RawHeaders(gs[0].channels);
    RawSessionParses(file, gs, startNs, msgs);
    var reader := new Mdf4Reader();
    var result := reader.Open(file);
    sought := reader.Seek(from);
    replayed := [];
    if !sought { return; }
    while !reader.Eof()
      invariant fresh(reader) && reader.Valid() && reader.isOpen && reader.file == file
      invariant reader.session == RawSessionOf(headers, startNs, |msgs|, |file|)
      invariant reader.cursor == from + |replayed| <= |msgs|
      invariant forall i | 0 <= i < |replayed| :: replayed[i] == Expected(msgs[from + i])
      decreases |msgs| - |replayed|
    {
      var frame := ReadNext(reader, gs, startNs, msgs);
      replayed := replayed + [frame];
    }
  }

  method ReadNext(reader: Mdf4Reader, ghost gs: seq<Group>, startNs: Word, ghost msgs: seq<RawRecord>)
    returns (frame: ReadFrame)
    requires reader.Valid() && reader.isOpen && IsRawSession(reader.file, gs, startNs, msgs) && reader.cursor < |msgs|
    requires !reader.session.isDbc && reader.session.recordCount == |msgs|
             && reader.session.dtDataStart == DtPos(gs) + 24
    requires msgs[reader.cursor].msgId < 0x1_0000_0000
    modifies reader`cursor
    ensures reader.Valid() && reader.cursor == old(reader.cursor) + 1 && frame == Expected(msgs[old(reader.cursor)])
  {
    hide ParseFile, IsRawSession, RawRecordBytes, FrameOf, Expected, DtPos, Plus;
    ghost var k := reader.cursor;
    RawFrameStands(reader.file, gs, startNs, msgs, k);
    FrameReadBack(msgs[k]);
    PlusSmall(reader.session.dtDataStart, k * 24);
    var ok, read := reader.ReadRaw();
    frame := read;
  }
}
