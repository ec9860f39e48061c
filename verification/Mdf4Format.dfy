/**
 The bytes of an MDF4 file as this program writes it: the blocks, the position of every block
 and the whole file image (src/can_stream/writer/mdf4_helper.hpp, mdf4_writer.cpp).

 A DBC session and a RAW session are both lists of channel groups; `DbcGroups` and `RawGroups`
 say which.  Doubles are opaque 64-bit words.
 */
module Mdf4Format {
  import opened Bits

  type Bytes = seq<Byte>

  // ----- Integers and text

  /** `v` modulo 256^n, least significant byte first. */
  function LE(v: nat, n: nat): (r: Bytes)
    ensures |r| == n
  {
    if n == 0 then [] else [v % 256] + LE(v / 256, n - 1)
  }

  function FromLE(s: Bytes): nat {
    if s == [] then 0 else s[0] + 256 * FromLE(s[1..])
  }

  lemma {:induction false} FromLEInverts(v: nat, n: nat)
    requires v < Pow2(8 * n)
    ensures FromLE(LE(v, n)) == v
    decreases n
  {
    if n > 0 {
      assert Pow2(8 * n) == 256 * Pow2(8 * (n - 1)) by { Pow2Eight(8 * (n - 1)); }
      FromLEInverts(v / 256, n - 1);
      assert LE(v, n)[1..] == LE(v / 256, n - 1);
    }
  }

  lemma Pow2Eight(n: nat)
    ensures Pow2(n + 8) == 256 * Pow2(n)
  {
    assert Pow2(n + 2) == 4 * Pow2(n);
    assert Pow2(n + 4) == 16 * Pow2(n);
    assert Pow2(n + 6) == 64 * Pow2(n);
  }

  function Zeros(n: nat): (r: Bytes)
    ensures |r| == n
    ensures forall i | 0 <= i < n :: r[i] == 0
  {
    if n == 0 then [] else Zeros(n - 1) + [0]
  }

  function Ascii(s: string): (r: Bytes)
    ensures |r| == |s|
    ensures forall i | 0 <= i < |s| :: r[i] == s[i] as int % 256
  {
    if s == [] then [] else [s[0] as int % 256] + Ascii(s[1..])
  }

  /** A field of fixed width, cut off or filled with spaces. */
  function Ident(s: string, width: nat): (r: Bytes)
    ensures |r| == width
  {
    if width <= |s| then Ascii(s[..width]) else Ascii(s) + Spaces(width - |s|)
  }

  function Spaces(n: nat): (r: Bytes)
    ensures |r| == n
  {
    if n == 0 then [] else Spaces(n - 1) + [32]
  }

  /** Text followed by a NUL and padding up to a multiple of eight bytes. */
  function TextPadded(text: Bytes): (r: Bytes)
    ensures |r| == RoundUp8(|text| + 1)
  {
    text + [0] + Zeros((8 - (|text| + 1) % 8) % 8)
  }

  /** (n + 7) & ~7 */
  function RoundUp8(n: nat): nat {
    (n + 7) / 8 * 8
  }

  function TxSize(text: Bytes): nat {
    24 + RoundUp8(|text| + 1)
  }

  // ----- Blocks

  function BlockHdr(id: string, length: nat, links: nat): (r: Bytes)
    requires |id| == 4
    ensures |r| == 24
  {
    Ascii(id) + LE(0, 4) + LE(length, 8) + LE(links, 8)
  }

  function IdBlock(): (r: Bytes)
    ensures |r| == 64
  {
    Ident("MDF     ", 8) + Ident("4.10    ", 8) + Ident("CANcept", 8) + LE(0, 4) + LE(410, 2) + LE(0, 2) + LE(0, 2)
    + LE(0, 2) + Zeros(28)
  }

  function HdBlock(dg: nat, fh: nat, startNs: Word): (r: Bytes)
    ensures |r| == 104
  {
    BlockHdr("##HD", 104, 6) + LE(dg, 8) + LE(fh, 8) + LE(0, 8) + LE(0, 8) + LE(0, 8) + LE(0, 8) + LE(startNs, 8)
    + LE(0, 2) + LE(0, 2) + LE(0, 1) + LE(0, 1) + LE(0, 1) + LE(0, 1) + LE(0, 8) + LE(0, 8)
  }

  function FhBlock(startNs: Word): (r: Bytes)
    ensures |r| == 56
  {
    BlockHdr("##FH", 56, 2) + LE(0, 8) + LE(0, 8) + LE(startNs, 8) + LE(0, 2) + LE(0, 2) + LE(0, 1) + LE(0, 1)
        + LE(0, 2)
  }

  function DgBlock(firstCg: nat, dt: nat, recIdSize: Byte): (r: Bytes)
    ensures |r| == 64
  {
    BlockHdr("##DG", 64, 4) + LE(0, 8) + LE(firstCg, 8) + LE(dt, 8) + LE(0, 8) + LE(recIdSize, 1) + Zeros(7)
  }

  datatype CgParams = CgParams(
    next: nat, cnFirst: nat, txName: nat, si: nat, md: nat, recordId: nat, flags: nat, separator: nat, dataBytes: nat)
  {
    /** The block with the given cycle count. */
    function Block(count: nat): (r: Bytes)
      ensures |r| == 104
    {
      BlockHdr("##CG", 104, 6) + LE(next, 8) + LE(cnFirst, 8) + LE(txName, 8) + LE(si, 8) + LE(0, 8) + LE(md, 8)
      + LE(recordId, 8) + LE(count, 8) + LE(flags, 2) + LE(separator, 2) + LE(0, 4) + LE(dataBytes, 4) + LE(0, 4)
    }
  }

  function SiBlock(busType: Byte): (r: Bytes)
    ensures |r| == 56
  {
    BlockHdr("##SI", 56, 3) + LE(0, 8) + LE(0, 8) + LE(0, 8) + LE(2, 1) + LE(busType, 1) + LE(0, 1) + Zeros(5)
  }

  datatype CnParams = CnParams(
    next: nat, composition: nat, txName: nat, txUnit: nat, channelType: Byte, syncType: Byte, dataType: Byte,
    byteOffset: nat, bitCount: nat)
  {
    function Links(): (r: Bytes)
      ensures |r| == 88
    {
      BlockHdr("##CN", 160, 8) + LE(next, 8) + LE(composition, 8) + LE(txName, 8) + LE(0, 8) + LE(0, 8) + LE(0, 8)
      + LE(txUnit, 8) + LE(0, 8)
    }

    function Data(): (r: Bytes)
      ensures |r| == 72
    {
      LE(channelType, 1) + LE(syncType, 1) + LE(dataType, 1) + LE(0, 1) + LE(byteOffset, 4) + LE(bitCount, 4) + LE(0, 4)
      + LE(0, 4) + LE(0xFF, 1) + LE(0, 1) + LE(0, 2) + LE(0, 8) + LE(0, 8) + LE(0, 8) + LE(0, 8) + LE(0, 8) + LE(0, 8)
    }

    function Block(): (r: Bytes)
      ensures |r| == 160
    {
      Links() + Data()
    }
  }

  function TxBlock(text: Bytes): (r: Bytes)
    ensures |r| == TxSize(text)
  {
    BlockHdr("##TX", TxSize(text), 0) + TextPadded(text)
  }

  function MdBlock(xml: Bytes): (r: Bytes)
    ensures |r| == TxSize(xml)
  {
    BlockHdr("##MD", TxSize(xml), 0) + TextPadded(xml)
  }

  function DtHeader(length: nat): (r: Bytes)
    ensures |r| == 24
  {
    BlockHdr("##DT", length, 0)
  }

  // ----- Channel groups

  /** `chained`: cn_next leads to the following channel.  `composed`: cn_composition does. */
  datatype Channel = Channel(
    name: Bytes, unit: Bytes, channelType: Byte, syncType: Byte, dataType: Byte, byteOffset: nat, bitCount: nat,
    chained: bool, composed: bool)

  /** `meta` is the block after the acquisition name: MD in a DBC session, SI in a RAW one. */
  datatype Group = Group(
    name: Bytes, meta: Bytes, metaIsMd: bool, channels: seq<Channel>, recordId: nat, dataBytes: nat, flags: nat,
    separator: nat)

  function UnitSize(unit: Bytes): nat {
    if unit == [] then 0 else TxSize(unit)
  }

  function ChannelSize(ch: Channel): nat {
    TxSize(ch.name) + UnitSize(ch.unit) + 160
  }

  function ChannelsSize(chs: seq<Channel>, c: nat): nat
    requires c <= |chs|
  {
    if c == 0 then 0 else ChannelsSize(chs, c - 1) + ChannelSize(chs[c - 1])
  }

  function MetaPos(g: Group, base: nat): nat {
    base + TxSize(g.name)
  }

  function ChannelPos(g: Group, base: nat, c: nat): nat
    requires c <= |g.channels|
  {
    MetaPos(g, base) + |g.meta| + ChannelsSize(g.channels, c)
  }

  function UnitPos(g: Group, base: nat, c: nat): nat
    requires c < |g.channels|
  {
    if g.channels[c].unit == [] then 0 else ChannelPos(g, base, c) + TxSize(g.channels[c].name)
  }

  function CnPos(g: Group, base: nat, c: nat): nat
    requires c < |g.channels|
  {
    ChannelPos(g, base, c) + TxSize(g.channels[c].name) + UnitSize(g.channels[c].unit)
  }

  function CgPos(g: Group, base: nat): nat {
    ChannelPos(g, base, |g.channels|)
  }

  function GroupSize(g: Group): nat {
    TxSize(g.name) + |g.meta| + ChannelsSize(g.channels, |g.channels|) + 104
  }

  function NextCn(g: Group, base: nat, c: nat): nat
    requires c < |g.channels|
  {
    if g.channels[c].chained && c + 1 < |g.channels| then CnPos(g, base, c + 1) else 0
  }

  function Composition(g: Group, base: nat, c: nat): nat
    requires c < |g.channels|
  {
    if g.channels[c].composed && c + 1 < |g.channels| then CnPos(g, base, c + 1) else 0
  }

  function CnFields(g: Group, base: nat, c: nat): CnParams
    requires c < |g.channels|
  {
    var ch := g.channels[c];
    CnParams(NextCn(g, base, c), Composition(g, base, c), ChannelPos(g, base, c), UnitPos(g, base, c),
             ch.channelType, ch.syncType, ch.dataType, ch.byteOffset, ch.bitCount)
  }

  function CnBytes(g: Group, base: nat, c: nat): (r: Bytes)
    requires c < |g.channels|
    ensures |r| == 160
  {
    CnFields(g, base, c).Block()
  }

  function UnitBytes(unit: Bytes): (r: Bytes)
    ensures |r| == UnitSize(unit)
  {
    if unit == [] then [] else TxBlock(unit)
  }

  function ChannelBytes(g: Group, base: nat, c: nat): (r: Bytes)
    requires c < |g.channels|
    ensures |r| == ChannelSize(g.channels[c])
  {
    TxBlock(g.channels[c].name) + UnitBytes(g.channels[c].unit) + CnBytes(g, base, c)
  }

  /** The blocks of the first `c` channels. */
  function ChannelsBytes(g: Group, base: nat, c: nat): (r: Bytes)
    requires c <= |g.channels|
    ensures |r| == ChannelsSize(g.channels, c)
  {
    if c == 0 then [] else ChannelsBytes(g, base, c - 1) + ChannelBytes(g, base, c - 1)
  }

  function CgFields(g: Group, base: nat, next: nat): CgParams {
    CgParams(next, if g.channels == [] then 0 else CnPos(g, base, 0), base,
             if g.metaIsMd then 0 else MetaPos(g, base), if g.metaIsMd then MetaPos(g, base) else 0,
             g.recordId, g.flags, g.separator, g.dataBytes)
  }

  function CgBytes(g: Group, base: nat, next: nat, count: nat): (r: Bytes)
    ensures |r| == 104
  {
    CgFields(g, base, next).Block(count)
  }

  function GroupBytes(g: Group, base: nat, next: nat, count: nat): (r: Bytes)
    ensures |r| == GroupSize(g)
  {
    TxBlock(g.name) + g.meta + ChannelsBytes(g, base, |g.channels|) + CgBytes(g, base, next, count)
  }

  const FH_POS: nat := 168
  const DG_POS: nat := 224
  const GROUPS_POS: nat := 288

  function GroupPos(groups: seq<Group>, k: nat): nat
    requires k <= |groups|
  {
    if k == 0 then GROUPS_POS else GroupPos(groups, k - 1) + GroupSize(groups[k - 1])
  }

  /** Where the CG block of group `k` stands, or 0 past the last group. */
  function CgLink(groups: seq<Group>, k: nat): nat {
    if k < |groups| then CgPos(groups[k], GroupPos(groups, k)) else 0
  }

  function GroupsBytes(groups: seq<Group>, k: nat, counts: seq<nat>): (r: Bytes)
    requires k <= |groups| && |counts| == |groups|
    ensures GROUPS_POS + |r| == GroupPos(groups, k)
  {
    if k == 0 then []
    else
      GroupsBytes(groups, k - 1, counts)
      + GroupBytes(groups[k - 1], GroupPos(groups, k - 1), CgLink(groups, k), counts[k - 1])
  }

  function DtPos(groups: seq<Group>): nat {
    GroupPos(groups, |groups|)
  }

  function Prologue(groups: seq<Group>, recIdSize: Byte, startNs: Word): (r: Bytes)
    ensures |r| == GROUPS_POS
  {
    IdBlock() + HdBlock(DG_POS, FH_POS, startNs) + FhBlock(startNs)
        + DgBlock(CgLink(groups, 0), DtPos(groups), recIdSize)
  }

  /** The whole file. */
  function Image(groups: seq<Group>, recIdSize: Byte, startNs: Word, counts: seq<nat>, dtLength: nat,
                 body: Bytes): (r: Bytes)
    requires |counts| == |groups|
    ensures |r| == DtPos(groups) + 24 + |body|
  {
    Prologue(groups, recIdSize, startNs) + GroupsBytes(groups, |groups|, counts) + DtHeader(dtLength) + body
  }

  // ----- The two kinds of session

  datatype SignalInfo = SignalInfo(name: Bytes, unit: Bytes)
  datatype MessageInfo = MessageInfo(msgId: nat, name: Bytes, signalList: seq<SignalInfo>)

  function HexDigit(d: nat): Byte
    requires d < 16
  {
    if d < 10 then 48 + d else 55 + d
  }

  /** Upper-case hexadecimal without leading zeros, as "%X" prints it. */
  function Hex(n: nat): (r: Bytes)
    ensures |r| > 0
  {
    if n < 16 then [HexDigit(n)] else Hex(n / 16) + [HexDigit(n % 16)]
  }

  function MdXml(msgId: nat): Bytes {
    Ascii("<CANmessage><id>0x") + Hex(msgId) + Ascii("</id></CANmessage>")
  }

  const MASTER: Channel := Channel(Ascii("t"), Ascii("s"), 2, 1, 4, 0, 64, true, false)

  function SignalChannel(sig: SignalInfo, i: nat): Channel {
    Channel(sig.name, sig.unit, 0, 0, 4, 8 + i * 8, 64, true, false)
  }

  /** The master channel followed by the first `n` signal channels. */
  function DbcChannels(sigs: seq<SignalInfo>, n: nat): (r: seq<Channel>)
    requires n <= |sigs|
    ensures |r| == n + 1
    ensures r[0] == MASTER && forall c | 0 < c <= n :: r[c] == SignalChannel(sigs[c - 1], c - 1)
  {
    if n == 0 then [MASTER] else DbcChannels(sigs, n - 1) + [SignalChannel(sigs[n - 1], n - 1)]
  }

  function DbcGroup(msg: MessageInfo, k: nat): Group {
    Group(msg.name, MdBlock(MdXml(msg.msgId)), true, DbcChannels(msg.signalList, |msg.signalList|), k,
          8 + |msg.signalList| * 8, 0, 0)
  }

  function DbcGroups(schema: seq<MessageInfo>): (r: seq<Group>)
    ensures |r| == |schema|
    ensures forall k | 0 <= k < |schema| :: r[k] == DbcGroup(schema[k], k)
  {
    seq(|schema|, k requires 0 <= k < |schema| => DbcGroup(schema[k], k))
  }

  datatype RawChanDef = RawChanDef(name: string, dataType: Byte, byteOffset: nat, bitCount: nat)

  /** The sub-channels of the RAW session's composition. */
  function SubDefs(): (r: seq<RawChanDef>)
    ensures |r| == 6
  {
    [RawChanDef("CAN_DataFrame.BusChannel", 0, 8, 8),
     RawChanDef("CAN_DataFrame.ID", 0, 9, 32),
     RawChanDef("CAN_DataFrame.Dir", 0, 13, 8),
     RawChanDef("CAN_DataFrame.DLC", 0, 14, 8),
     RawChanDef("CAN_DataFrame.DataLength", 0, 15, 8),
     RawChanDef("CAN_DataFrame.DataBytes", 10, 16, 64)]
  }

  /** The structure channel that is composed of the sub-channels. */
  function FrameChannel(): Channel {
    Channel(Ascii("CAN_DataFrame"), [], 0, 0, 10, 8, 128, false, true)
  }

  function SubChannel(def: RawChanDef): Channel {
    Channel(Ascii(def.name), [], 0, 0, def.dataType, def.byteOffset, def.bitCount, true, false)
  }

  function SubChannels(defs: seq<RawChanDef>): (r: seq<Channel>)
    ensures |r| == |defs|
    ensures forall c | 0 <= c < |defs| :: r[c] == SubChannel(defs[c])
  {
    seq(|defs|, i requires 0 <= i < |defs| => SubChannel(defs[i]))
  }

  /** Master, the structure channel, and the sub-channels. */
  function RawChannels(): (r: seq<Channel>)
    ensures |r| == 8
  {
    hide *;
    [MASTER, FrameChannel()] + SubChannels(SubDefs())
  }

  lemma RawChannelsAre()
    ensures RawChannels()[0] == MASTER && RawChannels()[1] == FrameChannel()
    ensures forall c | 2 <= c < 8 :: RawChannels()[c] == SubChannel(SubDefs()[c - 2])
  {
    hide MASTER, FrameChannel, SubChannel, SubDefs;
  }

  function RawGroups(): seq<Group> {
    hide Ascii, RawChannels, SiBlock;
    [Group(Ascii("CAN"), SiBlock(2), false, RawChannels(), 0, 24, 6, 46)]
  }

  // ----- Reading at an offset

  /** `file` holds `part` at offset `off`. */
  predicate At(file: Bytes, off: nat, part: Bytes) {
    off + |part| <= |file| && file[off..off + |part|] == part
  }

  lemma SubSlice(s: Bytes, lo: nat, hi: nat, p: nat, q: nat)
    requires lo <= hi <= |s| && p <= q <= hi - lo
    ensures s[lo..hi][p..q] == s[lo + p..lo + q]
  {
    forall i | 0 <= i < q - p
      ensures s[lo..hi][p..q][i] == s[lo + p..lo + q][i]
    {
    }
  }

  /** `block` holds the number `v` in its bytes p to p + n. */
  predicate Field(block: Bytes, p: nat, v: nat, n: nat) {
    p + n <= |block| && block[p..p + n] == LE(v, n)
  }

  lemma AtField(file: Bytes, off: nat, block: Bytes, p: nat, v: nat, n: nat)
    requires At(file, off, block) && Field(block, p, v, n)
    ensures At(file, off + p, LE(v, n))
  {
    SubSlice(file, off, off + |block|, p, p + n);
  }

  lemma HdFields(dg: nat, fh: nat, startNs: Word)
    ensures Field(HdBlock(dg, fh, startNs), 24, dg, 8)
    ensures Field(HdBlock(dg, fh, startNs), 72, startNs, 8)
  {
    hide LE, BlockHdr;
  }

  lemma DgFields(firstCg: nat, dt: nat, recIdSize: Byte)
    ensures Field(DgBlock(firstCg, dt, recIdSize), 32, firstCg, 8)
    ensures Field(DgBlock(firstCg, dt, recIdSize), 40, dt, 8)
    ensures Field(DgBlock(firstCg, dt, recIdSize), 56, recIdSize, 1)
  {
    hide LE, BlockHdr;
  }

  lemma DtFields(length: nat)
    ensures Field(DtHeader(length), 8, length, 8)
  {
    hide LE;
  }

  lemma CgNext(fields: CgParams, count: nat)
    ensures Field(fields.Block(count), 24, fields.next, 8)
  {
    hide LE, BlockHdr;
  }

  lemma CgCnFirst(fields: CgParams, count: nat)
    ensures Field(fields.Block(count), 32, fields.cnFirst, 8)
  {
    hide LE, BlockHdr;
  }

  lemma CgMd(fields: CgParams, count: nat)
    ensures Field(fields.Block(count), 64, fields.md, 8)
  {
    hide LE, BlockHdr;
  }

  lemma CgRecordId(fields: CgParams, count: nat)
    ensures Field(fields.Block(count), 72, fields.recordId, 8)
  {
    hide LE, BlockHdr;
  }

  lemma CgDataBytes(fields: CgParams, count: nat)
    ensures Field(fields.Block(count), 96, fields.dataBytes, 4)
  {
    hide LE, BlockHdr;
  }

  lemma CnNext(fields: CnParams)
    ensures Field(fields.Block(), 24, fields.next, 8)
  {
    hide LE, BlockHdr;
    assert fields.Links()[24..32] == LE(fields.next, 8);
  }

  lemma CnComposition(fields: CnParams)
    ensures Field(fields.Block(), 32, fields.composition, 8)
  {
    hide LE, BlockHdr;
    assert fields.Links()[32..40] == LE(fields.composition, 8);
  }

  lemma CnName(fields: CnParams)
    ensures Field(fields.Block(), 40, fields.txName, 8)
  {
    hide LE, BlockHdr;
    assert fields.Links()[40..48] == LE(fields.txName, 8);
  }

  lemma CnSync(fields: CnParams)
    ensures Field(fields.Block(), 89, fields.syncType, 1)
  {
    hide LE, BlockHdr;
    assert fields.Data()[1..2] == LE(fields.syncType, 1);
  }
}
