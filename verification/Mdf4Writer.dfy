/** Writing an MDF4 file (src/can_stream/writer/mdf4_writer.cpp). */
module Mdf4Writer {
  import opened Bits
  import opened CanTypes
  import opened Mdf4Format
  import opened Mdf4Layout

  /** The bytes after writing `data` at position `p`. */
  function Overwrite(s: Bytes, p: nat, data: Bytes): (r: Bytes)
    requires p <= |s|
  {
    s[..p] + data + if p + |data| <= |s| then s[p + |data|..] else []
  }

  /** A binary output stream; `start` and `block` follow the block being appended. */
  class OutputFile {
    var bytes: Bytes
    var pos: nat
    var isOpen: bool
    ghost var start: Bytes
    ghost var block: Bytes

    constructor ()
      ensures isOpen && bytes == [] && pos == 0
    {
      bytes, pos, isOpen, start, block := [], 0, true, [], [];
    }

    /** Open, with the write position at the end. */
    predicate Ready()
      reads this
    {
      isOpen && pos == |bytes|
    }

    ghost predicate Appending()
      reads this
    {
      Ready() && bytes == start + block
    }

    /** Writes at the current position; a closed stream ignores the call. */
    method Write(data: Bytes)
      requires pos <= |bytes|
      modifies `bytes, `pos
      ensures if isOpen then bytes == Overwrite(old(bytes), old(pos), data) && pos == old(pos) + |data|
              else bytes == old(bytes) && pos == old(pos)
    {
      if isOpen {
        bytes := Overwrite(bytes, pos, data);
        pos := pos + |data|;
      }
    }

    method Seek(p: nat)
      requires p <= |bytes|
      modifies `pos
      ensures pos == p
    {
      pos := p;
    }

    method Close()
      modifies `isOpen
      ensures !isOpen
    {
      isOpen := false;
    }

    ghost method Begin()
      requires Ready()
      modifies `start, `block
      ensures Appending() && start == bytes && block == []
    {
      start, block := bytes, [];
    }

    method Put(data: Bytes)
      requires Appending()
      modifies this
      ensures Appending() && start == old(start) && block == old(block) + data
    {
      Write(data);
      block := block + data;
    }

    /** wU8 .. wU64: the low `n` bytes of a number. */
    method PutInt(v: nat, n: nat)
      requires Appending()
      modifies this
      ensures Appending() && start == old(start) && block == old(block) + LE(v, n)
    {
      Put(LE(v, n));
    }

    /** Reserved bytes, one wU8 at a time. */
    method PutZeros(n: nat)
      requires Appending()
      modifies this
      ensures Appending() && start == old(start) && block == old(block) + Zeros(n)
    {
      ghost var before := block;
      for i := 0 to n
        invariant Appending() && start == old(start) && block == before + Zeros(i)
      {
        PutInt(0, 1);
        assert LE(0, 1) == [0];
        assert before + Zeros(i) + [0] == before + (Zeros(i) + [0]);
      }
    }

    method PutBlockHdr(id: string, length: nat, links: nat)
      requires Appending() && block == [] && |id| == 4
      modifies this
      ensures Appending() && start == old(start) && block == BlockHdr(id, length, links)
    {
      hide LE, Ascii;
      Put(Ascii(id));
      assert block == Ascii(id);
      PutInt(0, 4);
      PutInt(length, 8);
      PutInt(links, 8);
    }

    method PutTextPadded(text: Bytes)
      requires Appending()
      modifies this
      ensures Appending() && start == old(start) && block == old(block) + TextPadded(text)
    {
      ghost var before := block;
      Put(text);
      Put([0]);
      var total := |text| + 1;
      PutZeros((8 - total % 8) % 8);
      assert before + text + [0] + Zeros((8 - total % 8) % 8) == before + TextPadded(text);
    }
  }

  // ----- Records

  datatype SigWord = SigWord(name: Bytes, value: Word)

  /** A decoded message; times and values are the 64-bit words of their doubles. */
  datatype DbcRecord = DbcRecord(msgId: nat, relTime: Word, values: seq<SigWord>)

  datatype RawRecord = RawRecord(relTime: Word, msgId: nat, dlc: Byte, data: Payload)

  /** What the writer remembers of a message type. */
  datatype MsgMeta = MsgMeta(recordId: Byte, sigCount: Byte, sigOrder: seq<Bytes>)

  /** An accepted record: the group it counts for and its bytes. */
  datatype Record = Record(group: nat, bytes: Bytes)

  function Names(sigs: seq<SignalInfo>): (r: seq<Bytes>)
    ensures |r| == |sigs|
    ensures forall i | 0 <= i < |r| :: r[i] == sigs[i].name
  {
    if sigs == [] then [] else Names(sigs[..|sigs| - 1]) + [sigs[|sigs| - 1].name]
  }

  function MetaOf(msg: MessageInfo, k: nat): MsgMeta {
    MsgMeta(k % 256, |msg.signalList| % 256, Names(msg.signalList))
  }

  /** The lookup table after `n` schema entries; a later entry replaces an earlier one. */
  function MetaMap(schema: seq<MessageInfo>, n: nat): map<nat, MsgMeta>
    requires n <= |schema|
  {
    if n == 0 then map[] else MetaMap(schema, n - 1)[schema[n - 1].msgId := MetaOf(schema[n - 1], n - 1)]
  }

  /** The value of the first signal with the name, or the word of 0.0. */
  function ValueOf(values: seq<SigWord>, name: Bytes): Word {
    if values == [] then 0
    else if values[0].name == name then values[0].value
    else ValueOf(values[1..], name)
  }

  function ValuesBytes(order: seq<Bytes>, n: nat, values: seq<SigWord>): (r: Bytes)
    requires n <= |order|
    ensures |r| == 8 * n
  {
    if n == 0 then [] else ValuesBytes(order, n - 1, values) + LE(ValueOf(values, order[n - 1]), 8)
  }

  function DbcRecordBytes(meta: MsgMeta, msg: DbcRecord): (r: Bytes)
    ensures |r| == 9 + 8 * |meta.sigOrder|
  {
    [meta.recordId] + LE(msg.relTime, 8) + ValuesBytes(meta.sigOrder, |meta.sigOrder|, msg.values)
  }

  /** A message that the schema does not know is not recorded. */
  function DbcAccepted(meta: map<nat, MsgMeta>, msg: DbcRecord): seq<Record> {
    if msg.msgId in meta then [Record(meta[msg.msgId].recordId, DbcRecordBytes(meta[msg.msgId], msg))] else []
  }

  function DataLength(dlc: Byte): nat {
    if dlc < 8 then dlc else 8
  }

  function RawRecordBytes(msg: RawRecord): (r: Bytes)
    ensures |r| == 24
  {
    LE(msg.relTime, 8) + [1] + LE(msg.msgId, 4) + [0] + [msg.dlc] + [msg.dlc] + msg.data[..DataLength(msg.dlc)]
    + Zeros(8 - DataLength(msg.dlc))
  }

  function Body(records: seq<Record>): Bytes {
    if records == [] then [] else Body(records[..|records| - 1]) + records[|records| - 1].bytes
  }

  function CountOf(records: seq<Record>, g: nat): nat {
    if records == [] then 0
    else CountOf(records[..|records| - 1], g) + if records[|records| - 1].group == g then 1 else 0
  }

  function Counts(records: seq<Record>, n: nat): (r: seq<nat>)
    ensures |r| == n
    ensures forall g | 0 <= g < n :: r[g] == CountOf(records, g)
  {
    seq(n, g requires 0 <= g < n => CountOf(records, g))
  }

  lemma AppendRecord(records: seq<Record>, r: Record)
    ensures Body(records + [r]) == Body(records) + r.bytes
    ensures forall g :: CountOf(records + [r], g) == CountOf(records, g) + if r.group == g then 1 else 0
  {
    assert (records + [r])[..|records|] == records;
  }

  // ----- Patching

  /** Overwriting inside the left or the right half of a concatenation. */
  lemma OverwriteLeft(a: Bytes, b: Bytes, p: nat, d: Bytes)
    requires p + |d| <= |a|
    ensures Overwrite(a + b, p, d) == Overwrite(a, p, d) + b
  {
  }

  lemma OverwriteRight(a: Bytes, b: Bytes, p: nat, d: Bytes)
    requires p + |d| <= |b|
    ensures Overwrite(a + b, |a| + p, d) == a + Overwrite(b, p, d)
  {
  }

  lemma PatchCgBlock(fields: CgParams, count: nat, newCount: nat)
    ensures Overwrite(fields.Block(count), 80, LE(newCount, 8)) == fields.Block(newCount)
  {
    hide LE, BlockHdr;
  }

  lemma PatchGroup(g: Group, base: nat, next: nat, count: nat, newCount: nat)
    ensures Overwrite(GroupBytes(g, base, next, count), CgPos(g, base) - base + 80, LE(newCount, 8))
            == GroupBytes(g, base, next, newCount)
  {
    hide LE, ChannelsBytes, TxBlock, TxSize, ChannelsSize, CgFields;
    var left := TxBlock(g.name) + g.meta + ChannelsBytes(g, base, |g.channels|);
    PatchCgBlock(CgFields(g, base, next), count, newCount);
    OverwriteRight(left, CgBytes(g, base, next, count), 80, LE(newCount, 8));
  }

  function CyclePos(groups: seq<Group>, k: nat): nat
    requires k < |groups|
  {
    CgPos(groups[k], GroupPos(groups, k)) + 80
  }

  lemma {:induction false} CyclePosInside(groups: seq<Group>, i: nat, k: nat)
    requires i < k <= |groups|
    ensures GROUPS_POS <= GroupPos(groups, i) <= CyclePos(groups, i) && CyclePos(groups, i) + 8 <= GroupPos(groups, k)
    decreases k
  {
    hide TxSize, ChannelsSize;
    GroupPosAtLeast(groups, i);
    if i < k - 1 { CyclePosInside(groups, i, k - 1); }
  }

  lemma {:induction false} GroupPosAtLeast(groups: seq<Group>, k: nat)
    requires k <= |groups|
    ensures GROUPS_POS <= GroupPos(groups, k)
  {
    if k > 0 { GroupPosAtLeast(groups, k - 1); }
  }

  lemma {:induction false} PatchGroups(groups: seq<Group>, k: nat, counts: seq<nat>, i: nat, count: nat)
    requires i < k <= |groups| && |counts| == |groups|
    ensures CyclePos(groups, i) >= GROUPS_POS && CyclePos(groups, i) + 8 <= GroupPos(groups, k)
    ensures Overwrite(GroupsBytes(groups, k, counts), CyclePos(groups, i) - GROUPS_POS, LE(count, 8))
            == GroupsBytes(groups, k, counts[i := count])
    decreases k
  {
    hide LE, GroupBytes, CgPos, GroupSize, Overwrite, CgLink;
    CyclePosInside(groups, i, k);
    var left := GroupsBytes(groups, k - 1, counts);
    var g, base, next := groups[k - 1], GroupPos(groups, k - 1), CgLink(groups, k);
    if i == k - 1 {
      PatchGroup(g, base, next, counts[i], count);
      OverwriteRight(left, GroupBytes(g, base, next, counts[i]), CyclePos(groups, i) - base, LE(count, 8));
      GroupsIgnoreLaterCounts(groups, k - 1, counts, counts[i := count]);
    } else {
      CyclePosInside(groups, i, k - 1);
      PatchGroups(groups, k - 1, counts, i, count);
      OverwriteLeft(left, GroupBytes(g, base, next, counts[k - 1]), CyclePos(groups, i) - GROUPS_POS, LE(count, 8));
    }
  }

  lemma {:induction false} GroupsIgnoreLaterCounts(groups: seq<Group>, k: nat, a: seq<nat>, b: seq<nat>)
    requires k <= |groups| == |a| == |b|
    requires forall i | 0 <= i < k :: a[i] == b[i]
    ensures GroupsBytes(groups, k, a) == GroupsBytes(groups, k, b)
    decreases k
  {
    hide GroupBytes, GroupPos, CgLink, GroupSize;
    if k > 0 { GroupsIgnoreLaterCounts(groups, k - 1, a, b); }
  }

  /** Patching a cycle count changes that count in the image and nothing else. */
  lemma PatchCount(groups: seq<Group>, recIdSize: Byte, startNs: Word, counts: seq<nat>, dtLength: nat, body: Bytes,
                   i: nat, count: nat)
    requires i < |groups| == |counts|
    ensures CyclePos(groups, i) + 8 <= DtPos(groups)
    ensures Overwrite(Image(groups, recIdSize, startNs, counts, dtLength, body), CyclePos(groups, i), LE(count, 8))
            == Image(groups, recIdSize, startNs, counts[i := count], dtLength, body)
  {
    hide LE, GroupsBytes, CyclePos, Prologue, DtHeader, GroupPos;
    var p, gs := Prologue(groups, recIdSize, startNs), GroupsBytes(groups, |groups|, counts);
    PatchGroups(groups, |groups|, counts, i, count);
    OverwriteRight(p, gs, CyclePos(groups, i) - GROUPS_POS, LE(count, 8));
    OverwriteLeft(p + gs, DtHeader(dtLength), CyclePos(groups, i), LE(count, 8));
    OverwriteLeft(p + gs + DtHeader(dtLength), body, CyclePos(groups, i), LE(count, 8));
  }

  /** Patching the DT length changes the length in the image and nothing else. */
  lemma PatchLength(groups: seq<Group>, recIdSize: Byte, startNs: Word, counts: seq<nat>, dtLength: nat, body: Bytes,
                    newLength: nat)
    requires |groups| == |counts|
    ensures Overwrite(Image(groups, recIdSize, startNs, counts, dtLength, body), DtPos(groups) + 8, LE(newLength, 8))
            == Image(groups, recIdSize, startNs, counts, newLength, body)
  {
    hide LE, GroupsBytes, Prologue, GroupPos, Ascii;
    var head := Prologue(groups, recIdSize, startNs) + GroupsBytes(groups, |groups|, counts);
    assert Overwrite(DtHeader(dtLength), 8, LE(newLength, 8)) == DtHeader(newLength);
    OverwriteRight(head, DtHeader(dtLength), 8, LE(newLength, 8));
    OverwriteLeft(head + DtHeader(dtLength), body, DtPos(groups) + 8, LE(newLength, 8));
  }

  lemma AppendBody(groups: seq<Group>, recIdSize: Byte, startNs: Word, counts: seq<nat>, dtLength: nat, a: Bytes,
                   b: Bytes)
    requires |groups| == |counts|
    ensures Image(groups, recIdSize, startNs, counts, dtLength, a) + b
            == Image(groups, recIdSize, startNs, counts, dtLength, a + b)
  {
    hide GroupsBytes, Prologue, GroupPos, DtHeader;
    var head := Prologue(groups, recIdSize, startNs) + GroupsBytes(groups, |groups|, counts) + DtHeader(dtLength);
    assert head + a + b == head + (a + b);
  }

  /** BUFFER_CAPACITY of can_stream/constants.hpp. */
  const BUFFER_CAPACITY: nat := 4 * 1024 * 1024

  function NoCounts(n: nat): (r: seq<nat>)
    ensures |r| == n
    ensures forall i | 0 <= i < n :: r[i] == 0
  {
    if n == 0 then [] else NoCounts(n - 1) + [0]
  }

  /** Where the cycle counts of the first `n` groups stand. */
  predicate CyclePositions(pos: seq<nat>, groups: seq<Group>, n: nat) {
    |pos| == n <= |groups| && forall k | 0 <= k < n :: pos[k] == CyclePos(groups, k)
  }

  lemma EmptyHeader(schema: seq<MessageInfo>, groups: seq<Group>)
    ensures CyclePositions([], groups, 0) && GroupsBytes(groups, 0, NoCounts(|groups|)) == []
    ensures NoCounts(0) == [] && MetaMap(schema, 0) == map[]
  {
  }

  lemma AddCycle(pos: seq<nat>, groups: seq<Group>, n: nat)
    requires n < |groups| && CyclePositions(pos, groups, n)
    ensures CyclePositions(pos + [CgPos(groups[n], GroupPos(groups, n)) + 80], groups, n + 1)
  {
    hide CgPos, GroupPos;
  }

  class Mdf4Writer {
    const file: OutputFile
    const isDbc: bool
    const startNs: Word
    var buffer: Bytes
    var dtLenPos: nat
    var cgCyclePos: seq<nat>
    var msgMeta: map<nat, MsgMeta>
    var recordCounts: seq<nat>
    var dtBytesWritten: nat
    var closed: bool

    /** The session's channel groups, the accepted records, and the body bytes already in the file. */
    ghost var schema: seq<MessageInfo>
    ghost var groups: seq<Group>
    ghost var records: seq<Record>
    ghost var flushed: Bytes

    function RecIdSize(): Byte {
      if isDbc then 1 else 0
    }

    // ----- Block writers

    method WriteIdBlock()
      requires file.Ready()
      modifies file
      ensures file.Ready() && file.bytes == old(file.bytes) + IdBlock()
    {
      hide LE, Ident;
      file.Begin();
      file.Put(Ident("MDF     ", 8));
      assert file.block == Ident("MDF     ", 8);
      file.Put(Ident("4.10    ", 8));
      file.Put(Ident("CANcept", 8));
      file.PutInt(0, 4);
      file.PutInt(410, 2);
      file.PutInt(0, 2);
      file.PutInt(0, 2);
      file.PutInt(0, 2);
      file.PutZeros(28);
    }

    method WriteHdBlock(dgOffset: nat, fhOffset: nat)
      requires file.Ready()
      modifies file
      ensures file.Ready() && file.bytes == old(file.bytes) + HdBlock(dgOffset, fhOffset, startNs)
    {
      hide LE, BlockHdr;
      file.Begin();
      file.PutBlockHdr("##HD", 104, 6);
      file.PutInt(dgOffset, 8);
      file.PutInt(fhOffset, 8);
      file.PutInt(0, 8);
      file.PutInt(0, 8);
      file.PutInt(0, 8);
      file.PutInt(0, 8);
      file.PutInt(startNs, 8);
      file.PutInt(0, 2);
      file.PutInt(0, 2);
      file.PutInt(0, 1);
      file.PutInt(0, 1);
      file.PutInt(0, 1);
      file.PutInt(0, 1);
      file.PutInt(0, 8);
      file.PutInt(0, 8);
    }

    method WriteFhBlock()
      requires file.Ready()
      modifies file
      ensures file.Ready() && file.bytes == old(file.bytes) + FhBlock(startNs)
    {
      hide LE, BlockHdr;
      file.Begin();
      file.PutBlockHdr("##FH", 56, 2);
      file.PutInt(0, 8);
      file.PutInt(0, 8);
      file.PutInt(startNs, 8);
      file.PutInt(0, 2);
      file.PutInt(0, 2);
      file.PutInt(0, 1);
      file.PutInt(0, 1);
      file.PutInt(0, 2);
    }

    method WriteDgBlock(firstCg: nat, dt: nat, recIdSize: Byte)
      requires file.Ready()
      modifies file
      ensures file.Ready() && file.bytes == old(file.bytes) + DgBlock(firstCg, dt, recIdSize)
    {
      hide LE, BlockHdr;
      file.Begin();
      file.PutBlockHdr("##DG", 64, 4);
      file.PutInt(0, 8);
      file.PutInt(firstCg, 8);
      file.PutInt(dt, 8);
      file.PutInt(0, 8);
      file.PutInt(recIdSize, 1);
      file.PutZeros(7);
    }

    method WriteCgBlock(fields: CgParams)
      requires file.Ready()
      modifies file, `cgCyclePos
      ensures file.Ready() && file.bytes == old(file.bytes) + fields.Block(0)
      ensures cgCyclePos == old(cgCyclePos) + [|old(file.bytes)| + 80]
    {
      hide LE, BlockHdr;
      file.Begin();
      file.PutBlockHdr("##CG", 104, 6);
      file.PutInt(fields.next, 8);
      file.PutInt(fields.cnFirst, 8);
      file.PutInt(fields.txName, 8);
      file.PutInt(fields.si, 8);
      file.PutInt(0, 8);
      file.PutInt(fields.md, 8);
      file.PutInt(fields.recordId, 8);
      cgCyclePos := cgCyclePos + [file.pos];
      file.PutInt(0, 8);
      file.PutInt(fields.flags, 2);
      file.PutInt(fields.separator, 2);
      file.PutInt(0, 4);
      file.PutInt(fields.dataBytes, 4);
      file.PutInt(0, 4);
    }

    method WriteSiBlock(busType: Byte)
      requires file.Ready()
      modifies file
      ensures file.Ready() && file.bytes == old(file.bytes) + SiBlock(busType)
    {
      hide LE, BlockHdr;
      file.Begin();
      file.PutBlockHdr("##SI", 56, 3);
      file.PutInt(0, 8);
      file.PutInt(0, 8);
      file.PutInt(0, 8);
      file.PutInt(2, 1);
      file.PutInt(busType, 1);
      file.PutInt(0, 1);
      file.PutZeros(5);
    }

    method WriteCnBlock(fields: CnParams)
      requires file.Ready()
      modifies file
      ensures file.Ready() && file.bytes == old(file.bytes) + fields.Block()
    {
      hide LE, BlockHdr;
      file.Begin();
      file.PutBlockHdr("##CN", 160, 8);
      file.PutInt(fields.next, 8);
      file.PutInt(fields.composition, 8);
      file.PutInt(fields.txName, 8);
      file.PutInt(0, 8);
      file.PutInt(0, 8);
      file.PutInt(0, 8);
      file.PutInt(fields.txUnit, 8);
      file.PutInt(0, 8);
      assert file.bytes == old(file.bytes) + fields.Links();
      WriteCnData(fields);
      assert old(file.bytes) + fields.Links() + fields.Data() == old(file.bytes) + fields.Block();
    }

    /** The data section of the CN block. */
    method WriteCnData(fields: CnParams)
      requires file.Ready()
      modifies file
      ensures file.Ready() && file.bytes == old(file.bytes) + fields.Data()
    {
      hide LE, BlockHdr;
      file.Begin();
      file.PutInt(fields.channelType, 1);
      assert file.block == LE(fields.channelType, 1);
      file.PutInt(fields.syncType, 1);
      file.PutInt(fields.dataType, 1);
      file.PutInt(0, 1);
      file.PutInt(fields.byteOffset, 4);
      file.PutInt(fields.bitCount, 4);
      file.PutInt(0, 4);
      file.PutInt(0, 4);
      file.PutInt(0xFF, 1);
      file.PutInt(0, 1);
      file.PutInt(0, 2);
      file.PutInt(0, 8);
      file.PutInt(0, 8);
      file.PutInt(0, 8);
      file.PutInt(0, 8);
      file.PutInt(0, 8);
      file.PutInt(0, 8);
    }

    method WriteTxBlock(text: Bytes)
      requires file.Ready()
      modifies file
      ensures file.Ready() && file.bytes == old(file.bytes) + TxBlock(text)
    {
      hide LE, BlockHdr, TextPadded;
      file.Begin();
      file.PutBlockHdr("##TX", TxSize(text), 0);
      file.PutTextPadded(text);
    }

    method WriteMdBlock(xml: Bytes)
      requires file.Ready()
      modifies file
      ensures file.Ready() && file.bytes == old(file.bytes) + MdBlock(xml)
    {
      hide LE, BlockHdr, TextPadded;
      file.Begin();
      file.PutBlockHdr("##MD", TxSize(xml), 0);
      file.PutTextPadded(xml);
    }

    method WriteDtBlockHeader()
      requires file.Ready()
      modifies file, `dtLenPos
      ensures file.Ready() && file.bytes == old(file.bytes) + DtHeader(24)
      ensures dtLenPos == |old(file.bytes)| + 8
    {
      hide LE, BlockHdr;
      var offset := file.pos;
      file.Begin();
      file.PutBlockHdr("##DT", 24, 0);
      dtLenPos := offset + 8;
    }

    // ----- Headers

    /** One iteration of the loop over a message's channels. */
    method WriteDbcChannel(msg: MessageInfo, ghost k: nat, ml: MsgLayout, ghost base: nat, ci: nat)
      requires file.Ready()
      requires DescribesGroup(ml, DbcGroup(msg, k), base) && ci < |ml.channels|
      modifies file
      ensures file.Ready() && file.bytes == old(file.bytes) + ChannelBytes(DbcGroup(msg, k), base, ci)
    {
      hide TxBlock, TxSize, Ascii, DescribesGroup, DbcGroup, CnFields, CnPos, ChannelPos, CnParams.Block;
      var ch := ml.channels[ci];
      var nextCn := if ci + 1 < |ml.channels| then ml.channels[ci + 1].cnBlock else 0;
      ghost var before, g := file.bytes, DbcGroup(msg, k);
      DbcChannelFields(msg, k, ml, base, ci, nextCn);
      ghost var fields := CnFields(g, base, ci);
      if ci == 0 {
        WriteTxBlock(Ascii("t"));
        WriteTxBlock(Ascii("s"));
        assert file.bytes == before + TxBlock(g.channels[ci].name) + UnitBytes(g.channels[ci].unit);
        WriteCnBlock(CnParams(nextCn, 0, ch.txName, ch.txUnit, 2, 1, 4, 0, 64));
      } else {
        var sig := msg.signalList[ci - 1];
        WriteTxBlock(sig.name);
        if ch.txUnit != 0 {
          WriteTxBlock(sig.unit);
        }
        assert file.bytes == before + TxBlock(g.channels[ci].name) + UnitBytes(g.channels[ci].unit);
        WriteCnBlock(CnParams(nextCn, 0, ch.txName, ch.txUnit, 0, 0, 4, 8 + (ci - 1) * 8, 64));
      }
      Associate(before, TxBlock(g.channels[ci].name), UnitBytes(g.channels[ci].unit), fields.Block());
    }

    /** The loop over a message's channels. */
    method WriteDbcChannels(msg: MessageInfo, ghost k: nat, ml: MsgLayout, ghost base: nat)
      requires file.Ready()
      requires DescribesGroup(ml, DbcGroup(msg, k), base)
      modifies file
      ensures file.Ready()
      ensures file.bytes == old(file.bytes) + ChannelsBytes(DbcGroup(msg, k), base, |DbcGroup(msg, k).channels|)
    {
      hide ChannelBytes, CnPos, DbcGroup, ChannelSize, UnitPos;
      ghost var g, head := DbcGroup(msg, k), file.bytes;
      for ci := 0 to |ml.channels|
        invariant file.Ready() && file.bytes == head + ChannelsBytes(g, base, ci)
      {
        WriteDbcChannel(msg, k, ml, base, ci);
        assert head + ChannelsBytes(g, base, ci) + ChannelBytes(g, base, ci) == head + ChannelsBytes(g, base, ci + 1);
      }
    }

    /** One iteration of the loop over the schema: all blocks of a message type. */
    method WriteDbcMessage(msg: MessageInfo, k: nat, ml: MsgLayout, nextCg: nat, ghost g: Group, ghost before: Bytes)
      requires file.Ready() && file.bytes == before
      requires g == DbcGroup(msg, k) && DescribesGroup(ml, g, |before|)
      modifies file, `cgCyclePos
      ensures file.Ready() && file.bytes == before + GroupBytes(g, |before|, nextCg, 0)
      ensures cgCyclePos == old(cgCyclePos) + [CgPos(g, |before|) + 80]
    {
      hide TxBlock, MdXml, TxSize, MdBlock, ChannelsBytes, DbcGroup, DescribesGroup, CgFields, GroupBytes, CgPos,
           ChannelsSize, CgParams.Block;
      DbcGroupParts(msg, k, ml, |before|, nextCg);
      WriteTxBlock(msg.name);
      WriteMdBlock(MdXml(msg.msgId));
      WriteDbcChannels(msg, k, ml, |before|);
      Associate(before, TxBlock(g.name), g.meta, ChannelsBytes(g, |before|, |g.channels|));
      var dataBytes := 8 + |msg.signalList| * 8;
      GroupCloses(g, before, nextCg, file.bytes);
      WriteCgBlock(CgParams(nextCg, ml.channels[0].cnBlock, ml.txName, 0, ml.mdBlock, k, 0, 0, dataBytes));
    }

    /** The blocks in front of the channel groups. */
    method WritePrologue(layout: FileLayout, ghost gs: seq<Group>)
      requires file.Ready() && file.bytes == []
      requires Describes(layout, gs)
      modifies file
      ensures file.Ready() && file.bytes == Prologue(gs, RecIdSize(), startNs)
    {
      hide IdBlock, HdBlock, FhBlock, DgBlock, DescribesGroup, CgPos;
      WriteIdBlock();
      WriteHdBlock(layout.dgBlock, layout.fhBlock);
      WriteFhBlock();
      var firstCg := if layout.msgs == [] then 0 else layout.msgs[0].cgBlock;
      FirstCgLink(layout, gs);
      WriteDgBlock(firstCg, layout.dtBlock, RecIdSize());
      assert [] + IdBlock() == IdBlock();
    }

    /** The header after `n` message types, behind the prologue `head`. */
    ghost predicate HeaderHolds(schema: seq<MessageInfo>, gs: seq<Group>, head: Bytes, n: nat)
      reads this, file
    {
      && |head| == GROUPS_POS && n <= |gs| == |schema|
      && file.Ready() && file.bytes == head + GroupsBytes(gs, n, NoCounts(|gs|))
      && CyclePositions(cgCyclePos, gs, n)
      && recordCounts == NoCounts(n) && msgMeta == MetaMap(schema, n)
    }

    /** One iteration of the loop over the schema. */
    method WriteDbcEntry(schema: seq<MessageInfo>, layout: FileLayout, mi: nat, ghost gs: seq<Group>, ghost head: Bytes)
      requires gs == DbcGroups(schema) && Describes(layout, gs) && mi < |gs|
      requires HeaderHolds(schema, gs, head, mi)
      modifies file, `cgCyclePos, `recordCounts, `msgMeta
      ensures HeaderHolds(schema, gs, head, mi + 1)
    {
      hide GroupBytes, Describes, DescribesGroup, DbcGroup, CgPos, DbcGroups, CyclePositions, CgLink;
      assert |layout.msgs| == |gs| by { LinkOf(layout, gs, mi); }
      var nextCg := if mi + 1 < |layout.msgs| then layout.msgs[mi + 1].cgBlock else 0;
      LinkOf(layout, gs, mi);
      ghost var cycles, counts := cgCyclePos, NoCounts(|gs|);
      AddCycle(cgCyclePos, gs, mi);
      Associate(head, GroupsBytes(gs, mi, counts), GroupBytes(gs[mi], GroupPos(gs, mi), nextCg, 0), []);
      WriteDbcMessage(schema[mi], mi, layout.msgs[mi], nextCg, gs[mi], file.bytes);
      assert cgCyclePos == cycles + [CgPos(gs[mi], GroupPos(gs, mi)) + 80];
      recordCounts := recordCounts + [0];
      var order: seq<Bytes> := NamesInOrder(schema[mi].signalList);
      msgMeta := msgMeta[schema[mi].msgId := MsgMeta(mi % 256, |schema[mi].signalList| % 256, order)];
    }

    /** The loop over the schema. */
    method WriteDbcGroups(schema: seq<MessageInfo>, layout: FileLayout, ghost gs: seq<Group>)
      requires file.Ready() && |file.bytes| == GROUPS_POS && gs == DbcGroups(schema) && Describes(layout, gs)
      requires cgCyclePos == recordCounts == [] && msgMeta == map[]
      modifies file, `cgCyclePos, `recordCounts, `msgMeta
      ensures HeaderHolds(schema, gs, old(file.bytes), |gs|)
    {
      hide DbcGroups, Describes, GroupsBytes, NoCounts, MetaMap, CyclePositions;
      ghost var head := file.bytes;
      EmptyHeader(schema, gs);
      assert head + [] == head;
      for mi := 0 to |schema|
        invariant HeaderHolds(schema, gs, head, mi)
      {
        WriteDbcEntry(schema, layout, mi, gs, head);
      }
    }

    method WriteDbcHeader(schema: seq<MessageInfo>, ghost gs: seq<Group>)
      requires isDbc && file.Ready() && file.bytes == [] && gs == DbcGroups(schema)
      requires cgCyclePos == recordCounts == [] && msgMeta == map[]
      modifies file, `cgCyclePos, `recordCounts, `msgMeta, `dtLenPos
      ensures file.Ready() && file.bytes == Image(gs, 1, startNs, NoCounts(|gs|), 24, [])
      ensures CyclePositions(cgCyclePos, gs, |gs|) && dtLenPos == DtPos(gs) + 8
      ensures recordCounts == NoCounts(|gs|) && msgMeta == MetaMap(schema, |schema|)
    {
      hide Prologue, GroupsBytes, DbcGroups, DtHeader, CyclePositions, GroupPos, MetaMap;
      var layout := ComputeDbcLayout(schema);
      WritePrologue(layout, gs);
      WriteDbcGroups(schema, layout, gs);
      WriteDtBlockHeader();
      FreshImage(gs, RecIdSize(), startNs);
    }

    /** A channel of the RAW session: its name, the master's unit, and its CN block. */
    method WriteRawChannel(name: Bytes, unit: Bytes, fields: CnParams, ghost g: Group, ghost base: nat, ghost c: nat)
      requires file.Ready()
      requires c < |g.channels| && g.channels[c].name == name && g.channels[c].unit == unit
      requires fields == CnFields(g, base, c)
      modifies file
      ensures file.Ready() && file.bytes == old(file.bytes) + ChannelBytes(g, base, c)
    {
      hide TxBlock, TxSize, CnFields, CnParams.Block;
      ghost var before := file.bytes;
      WriteTxBlock(name);
      if unit != [] {
        WriteTxBlock(unit);
      }
      assert file.bytes == before + TxBlock(name) + UnitBytes(unit);
      WriteCnBlock(fields);
      Associate(before, TxBlock(name), UnitBytes(unit), fields.Block());
    }

    method WriteRawChannels(ml: MsgLayout, ghost g: Group, ghost base: nat)
      requires file.Ready() && g == RawGroups()[0] && DescribesGroup(ml, g, base)
      modifies file
      ensures file.Ready() && file.bytes == old(file.bytes) + ChannelsBytes(g, base, |g.channels|)
    {
      hide ChannelBytes, CnFields, Ascii, RawGroups, DescribesGroup, SubDefs, RawChannels;
      RawFieldsOf(ml, g, base);
      RawChannelsAre();
      ghost var head := file.bytes;
      var ch := ml.channels;
      WriteRawChannel(Ascii("t"), Ascii("s"), CnParams(ch[1].cnBlock, 0, ch[0].txName, ch[0].txUnit, 2, 1, 4, 0, 64), g,
                      base, 0);
      NextChannel(g, base, 0, head);
      WriteRawChannel(Ascii("CAN_DataFrame"), [], CnParams(0, ch[2].cnBlock, ch[1].txName, 0, 0, 0, 10, 8, 128), g,
                      base, 1);
      NextChannel(g, base, 1, head);
      var subDefs := SubDefs();
      for ci := 0 to |subDefs|
        invariant file.Ready() && file.bytes == head + ChannelsBytes(g, base, ci + 2)
      {
        var d, chIdx := subDefs[ci], ci + 2;
        var nextCn := if ci + 1 < |subDefs| then ch[chIdx + 1].cnBlock else 0;
        RawSubFields(ml, g, base, chIdx);
        assert CnFields(g, base, chIdx)
               == CnParams(nextCn, 0, ch[chIdx].txName, 0, 0, 0, d.dataType, d.byteOffset, d.bitCount);
        WriteRawChannel(Ascii(d.name), [],
                        CnParams(nextCn, 0, ch[chIdx].txName, 0, 0, 0, d.dataType, d.byteOffset, d.bitCount),
                        g, base, chIdx);
        NextChannel(g, base, chIdx, head);
      }
    }

    method WriteRawHeader(ghost gs: seq<Group>)
      requires !isDbc && file.Ready() && file.bytes == [] && gs == RawGroups()
      requires cgCyclePos == recordCounts == []
      modifies file, `cgCyclePos, `recordCounts, `dtLenPos
      ensures file.Ready() && file.bytes == Image(gs, 0, startNs, NoCounts(|gs|), 24, [])
      ensures CyclePositions(cgCyclePos, gs, |gs|) && dtLenPos == DtPos(gs) + 8
      ensures recordCounts == NoCounts(|gs|)
    {
      hide Prologue, DtHeader, TxBlock, SiBlock, ChannelsBytes, TxSize, RawChannels, CgBytes, GroupBytes,
           DescribesGroup, Ascii, NoCounts, CgPos, CgFields, CgParams.Block;
      var layout := ComputeRawLayout();
      LinkOf(layout, gs, 0);
      ghost var g, counts := gs[0], NoCounts(|gs|);
      WritePrologue(layout, gs);
      ghost var head := file.bytes;
      var ml := layout.msgs[0];
      WriteTxBlock(Ascii("CAN"));
      WriteSiBlock(2);
      WriteRawChannels(ml, g, GROUPS_POS);
      Associate(head, TxBlock(g.name), g.meta, ChannelsBytes(g, GROUPS_POS, |g.channels|));
      RawCgFields(ml, g);
      GroupCloses(g, head, 0, file.bytes);
      WriteCgBlock(CgParams(0, ml.channels[0].cnBlock, ml.txName, ml.siBlock, 0, 0, 6, 46, 24));
      RawGroupIsAll(gs, counts);
      recordCounts := recordCounts + [0];
      WriteDtBlockHeader();
      FreshImage(gs, RecIdSize(), startNs);
    }

    /** The loop that fills sigOrder. */
    method NamesInOrder(sigs: seq<SignalInfo>) returns (order: seq<Bytes>)
      ensures order == Names(sigs)
    {
      order := [];
      for i := 0 to |sigs|
        invariant order == Names(sigs[..i])
      {
        assert sigs[..i + 1][..i] == sigs[..i];
        order := order + [sigs[i].name];
      }
      assert sigs[..|sigs|] == sigs;
    }

    // ----- The writer's life

    /** What holds of every writer, open or closed. */
    ghost predicate Consistent()
      reads this
    {
      && |recordCounts| == |groups|
      && if isDbc then
           groups == DbcGroups(schema) && msgMeta == MetaMap(schema, |schema|)
         else groups == RawGroups() && msgMeta == map[]
    }

    /** The body so far is what has been flushed followed by the buffer; nothing is patched yet. */
    ghost predicate Open()
      reads this, file
    {
      && !closed && file.Ready()
      && file.bytes == Image(groups, RecIdSize(), startNs, NoCounts(|groups|), 24, flushed)
      && flushed + buffer == Body(records)
      && dtBytesWritten == |Body(records)|
      && recordCounts == Counts(records, |groups|)
      && CyclePositions(cgCyclePos, groups, |groups|)
      && dtLenPos == DtPos(groups) + 8
    }

    ghost predicate Valid()
      reads this, file
    {
      Consistent() && if closed then !file.isOpen && file.pos <= |file.bytes| else Open()
    }

    constructor Dbc(messages: seq<MessageInfo>, startTime: Word)
      ensures Valid() && fresh(file) && !closed && isDbc && startNs == startTime
      ensures schema == messages && records == []
    {
      hide Body, Counts, LE, Ascii, Image, MetaMap, DbcGroups, NoCounts, CyclePositions, DtPos;
      file := new OutputFile();
      isDbc, startNs := true, startTime;
      buffer, cgCyclePos, msgMeta, recordCounts := [], [], map[], [];
      dtBytesWritten, closed := 0, false;
      schema, groups, records, flushed := messages, DbcGroups(messages), [], [];
      new;
      WriteDbcHeader(messages, groups);
      NothingCounted(|groups|);
      assert flushed + buffer == [];
      assert Open();
    }

    constructor Raw(startTime: Word)
      ensures Valid() && fresh(file) && !closed && !isDbc && startNs == startTime && records == []
    {
      hide RawGroups, DbcGroups, MetaMap, Body, Counts, LE, Ascii, Image, NoCounts, CyclePositions, DtPos;
      file := new OutputFile();
      isDbc, startNs := false, startTime;
      buffer, cgCyclePos, msgMeta, recordCounts := [], [], map[], [];
      dtBytesWritten, closed := 0, false;
      schema, groups, records, flushed := [], RawGroups(), [], [];
      new;
      WriteRawHeader(groups);
      NothingCounted(|groups|);
    }

    /** Lays the record out in zeroed space at the end of the buffer. */
    method FillDbcRecord(meta: MsgMeta, msg: DbcRecord)
      requires |meta.sigOrder| == meta.sigCount
      modifies `buffer
      ensures buffer == old(buffer) + DbcRecordBytes(meta, msg)
    {
      hide LE, Zeros;
      var recSize := 1 + 8 + meta.sigCount * 8;
      var prev := buffer;
      var p := |buffer|;
      var order := meta.sigOrder;
      buffer := buffer + Zeros(recSize);
      OverwriteZeros(prev, [meta.recordId], 8 + |order| * 8);
      buffer := Overwrite(buffer, p, [meta.recordId]);
      p := p + 1;
      OverwriteZeros(prev + [meta.recordId], LE(msg.relTime, 8), |order| * 8);
      buffer := Overwrite(buffer, p, LE(msg.relTime, 8));
      p := p + 8;
      ghost var head := prev + [meta.recordId] + LE(msg.relTime, 8);
      assert head + ValuesBytes(order, 0, msg.values) == head;
      for i := 0 to |order|
        invariant p == |head| + 8 * i
        invariant buffer == head + ValuesBytes(order, i, msg.values) + Zeros((|order| - i) * 8)
      {
        var value: Word := 0;
        var k := 0;
        while k < |msg.values|
          invariant 0 <= k <= |msg.values| && value == 0
          invariant ValueOf(msg.values, order[i]) == ValueOf(msg.values[k..], order[i])
        {
          if msg.values[k].name == order[i] {
            value := msg.values[k].value;
            break;
          }
          assert msg.values[k..][1..] == msg.values[k + 1..];
          k := k + 1;
        }
        assert value == ValueOf(msg.values, order[i]);
        OverwriteZeros(head + ValuesBytes(order, i, msg.values), LE(value, 8), (|order| - i - 1) * 8);
        Associate(head, ValuesBytes(order, i, msg.values), LE(value, 8), []);
        buffer := Overwrite(buffer, p, LE(value, 8));
        p := p + 8;
      }
      NoZeros();
      Associate(prev, [meta.recordId], LE(msg.relTime, 8), ValuesBytes(order, |order|, msg.values));
    }

    /** Counting an accepted record whose bytes have just been appended to the buffer. */
    method Commit(group: nat, recSize: nat, ghost before: Bytes, ghost bytes: Bytes)
      requires Consistent() && group < |groups| && |bytes| == recSize
      requires buffer == before + bytes
      requires closed ==> !file.isOpen && file.pos <= |file.bytes|
      requires !closed ==> OpenWith(before)
      modifies this, file
      ensures Valid() && closed == old(closed) && groups == old(groups) && schema == old(schema)
      ensures closed ==> file.bytes == old(file.bytes)
      ensures records == old(records) + [Record(group, bytes)]
    {
      hide Body, CountOf, Image, RawGroups, DbcGroups, MetaMap, NoCounts, CyclePositions, DtPos, BUFFER_CAPACITY;
      recordCounts := recordCounts[group := recordCounts[group] + 1];
      dtBytesWritten := dtBytesWritten + recSize;
      AppendRecord(records, Record(group, bytes));
      Associate(flushed, before, bytes, []);
      records := records + [Record(group, bytes)];
      assert !closed ==> recordCounts == Counts(records, |groups|);
      if |buffer| >= BUFFER_CAPACITY {
        Flush();
      }
    }

    /** `Open`, with `before` in the place of the buffer. */
    ghost predicate OpenWith(before: Bytes)
      reads this, file
    {
      && !closed && file.Ready()
      && file.bytes == Image(groups, RecIdSize(), startNs, NoCounts(|groups|), 24, flushed)
      && flushed + before == Body(records)
      && dtBytesWritten == |Body(records)|
      && recordCounts == Counts(records, |groups|)
      && CyclePositions(cgCyclePos, groups, |groups|)
      && dtLenPos == DtPos(groups) + 8
    }

    /** Accepts a decoded message if the schema knows its identifier. */
    method WriteDbc(msg: DbcRecord)
      requires Valid() && FitsBuffer(msgMeta, msg)
      modifies this, file
      ensures Valid() && closed == old(closed) && groups == old(groups) && schema == old(schema)
      ensures closed ==> file.bytes == old(file.bytes)
      ensures records == old(records) + DbcAccepted(old(msgMeta), msg)
    {
      hide Body, CountOf, Image, RawGroups, DbcGroups, MetaMap, NoCounts, CyclePositions, DtPos, DbcRecordBytes;
      if msg.msgId !in msgMeta {
        assert records == old(records) + [];
        return;
      }
      var meta := msgMeta[msg.msgId];
      if isDbc { MetaMapFacts(schema, |schema|, msg.msgId); }
      ghost var before := buffer;
      FillDbcRecord(meta, msg);
      Commit(meta.recordId, 1 + 8 + meta.sigCount * 8, before, DbcRecordBytes(meta, msg));
    }

    /** Accepts a raw frame in a RAW session and ignores it in a DBC session. */
    method WriteRaw(msg: RawRecord)
      requires Valid()
      modifies this, file
      ensures Valid() && closed == old(closed) && groups == old(groups) && schema == old(schema)
      ensures closed ==> file.bytes == old(file.bytes)
      ensures records == old(records) + if isDbc then [] else [Record(0, RawRecordBytes(msg))]
    {
      hide Body, CountOf, Image, DbcGroups, RawGroups, MetaMap, NoCounts, CyclePositions, DtPos, RawRecordBytes;
      OneRawGroup();
      if isDbc {
        assert records == old(records) + [];
        return;
      }
      ghost var before := buffer;
      FillRawRecord(msg);
      Commit(0, 24, before, RawRecordBytes(msg));
    }

    /** Lays the frame's record out in zeroed space at the end of the buffer. */
    method FillRawRecord(msg: RawRecord)
      modifies `buffer
      ensures buffer == old(buffer) + RawRecordBytes(msg)
    {
      hide LE, Zeros;
      var prev, p := buffer, |buffer|;
      buffer := buffer + Zeros(24);
      OverwriteZeros(prev, LE(msg.relTime, 8), 16);
      buffer := Overwrite(buffer, p, LE(msg.relTime, 8));
      p := p + 8;
      ghost var a := prev + LE(msg.relTime, 8);
      OverwriteZeros(a, [1], 15);
      buffer := Overwrite(buffer, p, [1]);
      p := p + 1;
      a := a + [1];
      OverwriteZeros(a, LE(msg.msgId, 4), 11);
      buffer := Overwrite(buffer, p, LE(msg.msgId, 4));
      p := p + 4;
      a := a + LE(msg.msgId, 4);
      OverwriteZeros(a, [0], 10);
      buffer := Overwrite(buffer, p, [0]);
      p := p + 1;
      a := a + [0];
      OverwriteZeros(a, [msg.dlc], 9);
      buffer := Overwrite(buffer, p, [msg.dlc]);
      p := p + 1;
      a := a + [msg.dlc];
      OverwriteZeros(a, [msg.dlc], 8);
      buffer := Overwrite(buffer, p, [msg.dlc]);
      p := p + 1;
      a := a + [msg.dlc];
      var dataLen := if msg.dlc < 8 then msg.dlc else 8;
      OverwriteZeros(a, msg.data[..dataLen], 8 - dataLen);
      buffer := Overwrite(buffer, p, msg.data[..dataLen]);
      RawRecordJoined(prev, msg);
    }

    /** Moves the buffer to the file; on a closed file the bytes are lost. */
    method Flush()
      requires Valid()
      modifies this, file
      ensures Valid() && closed == old(closed) && buffer == []
      ensures groups == old(groups) && schema == old(schema) && records == old(records)
      ensures closed ==> file.bytes == old(file.bytes)
    {
      hide Body, CountOf, Image, DbcGroups, RawGroups, MetaMap, NoCounts, CyclePositions, DtPos;
      AppendBody(groups, RecIdSize(), startNs, NoCounts(|groups|), 24, flushed, buffer);
      if !closed { flushed := flushed + buffer; }
      WriteBuffer();
      assert flushed + [] == flushed;
    }

    /** The body of flush(). */
    method WriteBuffer()
      requires file.pos <= |file.bytes|
      modifies `buffer, file
      ensures buffer == [] && file.isOpen == old(file.isOpen) && file.pos <= |file.bytes|
      ensures old(file.Ready()) ==> file.Ready() && file.bytes == old(file.bytes) + old(buffer)
      ensures !file.isOpen ==> file.bytes == old(file.bytes)
    {
      if buffer == [] {
        assert file.bytes == file.bytes + [];
        return;
      }
      file.Write(buffer);
      buffer := [];
    }

    /** Overwrites eight bytes and restores the write position. */
    method PatchU64(pos: nat, value: nat)
      requires file.Ready() && pos + 8 <= |file.bytes|
      modifies file
      ensures file.Ready() && file.bytes == Overwrite(old(file.bytes), pos, LE(value, 8))
    {
      var saved := file.pos;
      file.Seek(pos);
      file.Write(LE(value, 8));
      file.Seek(saved);
    }

    /** Patches every cycle count. */
    method PatchCounts(ghost length: nat, ghost body: Bytes)
      requires file.Ready() && |recordCounts| == |groups| && CyclePositions(cgCyclePos, groups, |groups|)
      requires file.bytes == Image(groups, RecIdSize(), startNs, NoCounts(|groups|), length, body)
      modifies file
      ensures file.Ready() && file.bytes == Image(groups, RecIdSize(), startNs, recordCounts, length, body)
    {
      hide Image, NoCounts, LE, Overwrite, CyclePos;
      assert NoCounts(|groups|) == PartlyCounted(recordCounts, 0);
      for i := 0 to |cgCyclePos|
        invariant file.Ready()
        invariant file.bytes == Image(groups, RecIdSize(), startNs, PartlyCounted(recordCounts, i), length, body)
      {
        PatchCount(groups, RecIdSize(), startNs, PartlyCounted(recordCounts, i), length, body, i, recordCounts[i]);
        ImageSize(groups, RecIdSize(), startNs, PartlyCounted(recordCounts, i), length, body);
        assert PartlyCounted(recordCounts, i)[i := recordCounts[i]] == PartlyCounted(recordCounts, i + 1);
        PatchU64(cgCyclePos[i], recordCounts[i]);
      }
      assert PartlyCounted(recordCounts, |groups|) == recordCounts;
    }

    /** Writes what is left and patches the DT length and every cycle count. */
    method Close()
      requires Valid()
      modifies this, file
      ensures Valid() && closed && groups == old(groups) && schema == old(schema) && records == old(records)
      ensures file.bytes == if old(closed) then old(file.bytes) else FinalImage(groups, RecIdSize(), startNs, records)
    {
      hide Body, CountOf, Image, DbcGroups, RawGroups, MetaMap, NoCounts, DtPos, LE, Overwrite, CyclePos;
      if closed {
        return;
      }
      closed := true;
      AppendBody(groups, RecIdSize(), startNs, NoCounts(|groups|), 24, flushed, buffer);
      WriteBuffer();
      ghost var length, body := 24 + dtBytesWritten, Body(records);
      PatchLength(groups, RecIdSize(), startNs, NoCounts(|groups|), 24, body, length);
      ImageSize(groups, RecIdSize(), startNs, NoCounts(|groups|), 24, body);
      PatchU64(dtLenPos, 24 + dtBytesWritten);
      PatchCounts(length, body);
      file.Close();
    }
  }

  lemma NextChannel(g: Group, base: nat, c: nat, head: Bytes)
    requires c < |g.channels|
    ensures head + ChannelsBytes(g, base, c) + ChannelBytes(g, base, c) == head + ChannelsBytes(g, base, c + 1)
    ensures head + ChannelsBytes(g, base, 0) == head
  {
    hide ChannelBytes;
  }

  /** The CN parameters that writeRawHeader spells out are those of the group's channels. */
  lemma RawFieldsOf(ml: MsgLayout, g: Group, base: nat)
    requires g == RawGroups()[0] && DescribesGroup(ml, g, base)
    ensures |g.channels| == |ml.channels| == 8
    ensures g.channels == RawChannels()
    ensures g.channels[0].name == Ascii("t") && g.channels[0].unit == Ascii("s")
    ensures g.channels[1].name == Ascii("CAN_DataFrame") && forall c | 0 < c < 8 :: g.channels[c].unit == []
    ensures CnFields(g, base, 0) == CnParams(ml.channels[1].cnBlock, 0, ml.channels[0].txName, ml.channels[0].txUnit, 2,
                                             1, 4, 0, 64)
    ensures CnFields(g, base, 1) == CnParams(0, ml.channels[2].cnBlock, ml.channels[1].txName, 0, 0, 0, 10, 8, 128)
  {
    hide Ascii, TxSize, CnPos, ChannelPos, SiBlock, SubDefs, RawChannels;
    RawChannelsAre();
    forall c | 0 <= c < 8
      ensures ml.channels[c] == ChanLayout(ChannelPos(g, base, c), UnitPos(g, base, c), CnPos(g, base, c))
    {
    }
  }

  lemma RawSubFields(ml: MsgLayout, g: Group, base: nat, c: nat)
    requires g == RawGroups()[0] && DescribesGroup(ml, g, base) && 2 <= c < 8
    ensures |g.channels| == |ml.channels| == 8
    ensures var d := SubDefs()[c - 2];
            && g.channels[c].name == Ascii(d.name) && g.channels[c].unit == []
            && CnFields(g, base, c)
               == CnParams(if c + 1 < 8 then ml.channels[c + 1].cnBlock else 0, 0, ml.channels[c].txName, 0, 0, 0,
                           d.dataType, d.byteOffset, d.bitCount)
  {
    hide Ascii, TxSize, CnPos, ChannelPos, SiBlock, SubDefs, RawChannels;
    RawChannelsAre();
    assert g.channels[c] == SubChannel(SubDefs()[c - 2]);
  }

  lemma RawCgFields(ml: MsgLayout, g: Group)
    requires g == RawGroups()[0] && DescribesGroup(ml, g, GROUPS_POS)
    ensures |ml.channels| == 8
    ensures CgFields(g, GROUPS_POS, 0) == CgParams(0, ml.channels[0].cnBlock, ml.txName, ml.siBlock, 0, 0, 6, 46, 24)
  {
    hide Ascii, TxSize, ChannelPos, SiBlock, RawChannels;
  }

  lemma RawGroupIsAll(gs: seq<Group>, counts: seq<nat>)
    requires gs == RawGroups() && counts == NoCounts(|gs|)
    ensures |gs| == 1 && counts == [0] && GroupPos(gs, 0) == GROUPS_POS
    ensures GroupsBytes(gs, 1, counts) == GroupBytes(gs[0], GROUPS_POS, 0, 0)
    ensures CyclePositions([CgPos(gs[0], GROUPS_POS) + 80], gs, 1)
  {
    hide Ascii, TxSize, GroupBytes, SiBlock, RawChannels;
    assert GroupsBytes(gs, 0, counts) == [];
    assert [] + GroupBytes(gs[0], GROUPS_POS, 0, 0) == GroupBytes(gs[0], GROUPS_POS, 0, 0);
  }

  /** The one-byte signal count is exact; the code writes behind the record's buffer space otherwise. */
  predicate FitsBuffer(meta: map<nat, MsgMeta>, msg: DbcRecord) {
    msg.msgId in meta ==> |meta[msg.msgId].sigOrder| <= 255
  }

  /** The file after close. */
  function FinalImage(groups: seq<Group>, recIdSize: Byte, startNs: Word, records: seq<Record>): Bytes {
    Image(groups, recIdSize, startNs, Counts(records, |groups|), 24 + |Body(records)|, Body(records))
  }

  /** The first `n` counts patched, the rest still zero. */
  function PartlyCounted(counts: seq<nat>, n: nat): (r: seq<nat>)
    requires n <= |counts|
    ensures |r| == |counts|
    ensures forall i | 0 <= i < |r| :: r[i] == if i < n then counts[i] else 0
  {
    counts[..n] + NoCounts(|counts| - n)
  }

  lemma ImageSize(groups: seq<Group>, recIdSize: Byte, startNs: Word, counts: seq<nat>, dtLength: nat, body: Bytes)
    requires |counts| == |groups|
    ensures DtPos(groups) + 16 <= |Image(groups, recIdSize, startNs, counts, dtLength, body)|
  {
  }

  lemma OneRawGroup()
    ensures |RawGroups()| == 1
  {
    hide RawChannels, Ascii, SiBlock;
  }

  lemma NothingCounted(n: nat)
    ensures NoCounts(n) == Counts([], n) && Body([]) == []
  {
  }

  lemma NoZeros()
    ensures Zeros(0) == []
  {
  }

  lemma {:induction false} MetaMapFacts(schema: seq<MessageInfo>, n: nat, id: nat)
    requires n <= |schema| && id in MetaMap(schema, n)
    ensures MetaMap(schema, n)[id].recordId < n
    ensures MetaMap(schema, n)[id].sigCount == |MetaMap(schema, n)[id].sigOrder| % 256
  {
    if schema[n - 1].msgId != id { MetaMapFacts(schema, n - 1, id); }
  }

  /** Writing into zeroed space leaves the rest of it zero. */
  lemma OverwriteZeros(a: Bytes, d: Bytes, rest: nat)
    ensures Overwrite(a + Zeros(|d| + rest), |a|, d) == a + d + Zeros(rest)
  {
  }

  lemma RawRecordJoined(prev: Bytes, msg: RawRecord)
    ensures prev + LE(msg.relTime, 8) + [1] + LE(msg.msgId, 4) + [0] + [msg.dlc] + [msg.dlc]
            + msg.data[..DataLength(msg.dlc)]
            + Zeros(8 - DataLength(msg.dlc))
            == prev + RawRecordBytes(msg)
  {
    hide LE, Zeros;
  }

  lemma FirstCgLink(layout: FileLayout, gs: seq<Group>)
    requires Describes(layout, gs)
    ensures (if layout.msgs == [] then 0 else layout.msgs[0].cgBlock) == CgLink(gs, 0)
  {
    if gs != [] { assert DescribesGroup(layout.msgs[0], gs[0], GroupPos(gs, 0)); }
  }

  lemma LinkOf(layout: FileLayout, gs: seq<Group>, mi: nat)
    requires Describes(layout, gs) && mi < |gs|
    ensures DescribesGroup(layout.msgs[mi], gs[mi], GroupPos(gs, mi))
    ensures |layout.msgs| == |gs|
    ensures (if mi + 1 < |layout.msgs| then layout.msgs[mi + 1].cgBlock else 0) == CgLink(gs, mi + 1)
  {
    if mi + 1 < |gs| { assert DescribesGroup(layout.msgs[mi + 1], gs[mi + 1], GroupPos(gs, mi + 1)); }
  }

  lemma FreshImage(gs: seq<Group>, recIdSize: Byte, startNs: Word)
    ensures Prologue(gs, recIdSize, startNs) + GroupsBytes(gs, |gs|, NoCounts(|gs|)) + DtHeader(24)
            == Image(gs, recIdSize, startNs, NoCounts(|gs|), 24, [])
  {
    hide Prologue, GroupsBytes, DtHeader;
  }

  lemma GroupCloses(g: Group, before: Bytes, nextCg: nat, all: Bytes)
    requires all == before + (TxBlock(g.name) + g.meta + ChannelsBytes(g, |before|, |g.channels|))
    ensures |all| == CgPos(g, |before|)
    ensures all + CgFields(g, |before|, nextCg).Block(0) == before + GroupBytes(g, |before|, nextCg, 0)
  {
    hide TxBlock, TxSize, ChannelsBytes, CgFields, ChannelsSize, CgParams.Block;
    var blocks := TxBlock(g.name) + g.meta + ChannelsBytes(g, |before|, |g.channels|);
    Associate(before, blocks, CgBytes(g, |before|, nextCg, 0), []);
    assert |blocks| == TxSize(g.name) + |g.meta| + ChannelsSize(g.channels, |g.channels|);
  }

  lemma DbcGroupParts(msg: MessageInfo, k: nat, ml: MsgLayout, base: nat, nextCg: nat)
    requires DescribesGroup(ml, DbcGroup(msg, k), base)
    ensures var g := DbcGroup(msg, k);
            && g.name == msg.name && g.meta == MdBlock(MdXml(msg.msgId)) && |ml.channels| > 0
            && CgFields(g, base, nextCg)
               == CgParams(nextCg, ml.channels[0].cnBlock, ml.txName, 0, ml.mdBlock, k, 0, 0, 8 + |msg.signalList| * 8)
  {
    hide MdBlock, MdXml, TxSize;
  }

  lemma Associate(a: Bytes, b: Bytes, c: Bytes, d: Bytes)
    ensures a + b + c + d == a + (b + c + d)
    ensures a + b + c == a + (b + c)
  {
  }

  lemma DbcChannelFields(msg: MessageInfo, k: nat, ml: MsgLayout, base: nat, ci: nat, nextCn: nat)
    requires DescribesGroup(ml, DbcGroup(msg, k), base) && ci < |ml.channels|
    requires nextCn == if ci + 1 < |ml.channels| then ml.channels[ci + 1].cnBlock else 0
    ensures var g := DbcGroup(msg, k);
            var ch := ml.channels[ci];
            && |g.channels| == |ml.channels| == |msg.signalList| + 1
            && g.channels[ci] == (if ci == 0 then MASTER else SignalChannel(msg.signalList[ci - 1], ci - 1))
            && (ch.txUnit != 0 <==> g.channels[ci].unit != [])
            && CnFields(g, base, ci)
               == if ci == 0 then CnParams(nextCn, 0, ch.txName, ch.txUnit, 2, 1, 4, 0, 64)
                  else CnParams(nextCn, 0, ch.txName, ch.txUnit, 0, 0, 4, 8 + (ci - 1) * 8, 64)
  {
    hide MdBlock, MdXml;
    var g := DbcGroup(msg, k);
    assert |MASTER.unit| == 1;
    assert g.channels[ci] == if ci == 0 then MASTER else SignalChannel(msg.signalList[ci - 1], ci - 1);
    assert ml.channels[ci] == ChanLayout(ChannelPos(g, base, ci), UnitPos(g, base, ci), CnPos(g, base, ci));
    if ci + 1 < |ml.channels| {
      assert ml.channels[ci + 1].cnBlock == CnPos(g, base, ci + 1);
      assert g.channels[ci].chained;
    }
  }
}
