/** Computing all block offsets before anything is written (src/can_stream/writer/mdf4_helper.hpp). */
module Mdf4Layout {
  import opened Bits
  import opened Mdf4Format

  datatype ChanLayout = ChanLayout(txName: nat, txUnit: nat, cnBlock: nat)
  datatype MsgLayout = MsgLayout(txName: nat, mdBlock: nat, siBlock: nat, channels: seq<ChanLayout>, cgBlock: nat)
  datatype FileLayout = FileLayout(fhBlock: nat, dgBlock: nat, msgs: seq<MsgLayout>, dtBlock: nat)

  /** The first `n` channel entries are the positions of the group's channel blocks. */
  predicate DescribesChannels(chs: seq<ChanLayout>, g: Group, base: nat, n: nat) {
    && |chs| == n <= |g.channels|
    && forall c | 0 <= c < n :: chs[c] == ChanLayout(ChannelPos(g, base, c), UnitPos(g, base, c), CnPos(g, base, c))
  }

  predicate DescribesGroup(ml: MsgLayout, g: Group, base: nat) {
    && ml.txName == base
    && ml.mdBlock == (if g.metaIsMd then MetaPos(g, base) else 0)
    && ml.siBlock == (if g.metaIsMd then 0 else MetaPos(g, base))
    && DescribesChannels(ml.channels, g, base, |g.channels|)
    && ml.cgBlock == CgPos(g, base)
  }

  predicate DescribesGroups(msgs: seq<MsgLayout>, groups: seq<Group>, n: nat) {
    |msgs| == n <= |groups| && forall k | 0 <= k < n :: DescribesGroup(msgs[k], groups[k], GroupPos(groups, k))
  }

  /** Every offset in the layout is the position of its block in the file image. */
  predicate Describes(layout: FileLayout, groups: seq<Group>) {
    && layout.fhBlock == FH_POS && layout.dgBlock == DG_POS
    && DescribesGroups(layout.msgs, groups, |groups|)
    && layout.dtBlock == DtPos(groups)
  }

  lemma NoGroups(groups: seq<Group>)
    ensures DescribesGroups([], groups, 0) && GroupPos(groups, 0) == GROUPS_POS
  {
  }

  lemma AddGroup(msgs: seq<MsgLayout>, ml: MsgLayout, groups: seq<Group>, k: nat)
    requires k < |groups| && DescribesGroups(msgs, groups, k)
    requires DescribesGroup(ml, groups[k], GroupPos(groups, k))
    ensures DescribesGroups(msgs + [ml], groups, k + 1)
  {
    hide DescribesGroup, GroupPos;
  }

  method ComputeDbcLayout(schema: seq<MessageInfo>) returns (layout: FileLayout)
    ensures Describes(layout, DbcGroups(schema))
  {
    hide Ascii, TxSize, MdXml, MdBlock, DescribesGroup, DescribesGroups, GroupSize, DbcGroup;
    var fhBlock := 64 + 104;
    var dgBlock := fhBlock + 56;
    var pos := dgBlock + 64;
    var msgs: seq<MsgLayout> := [];
    ghost var groups := DbcGroups(schema);
    NoGroups(groups);
    for k := 0 to |schema|
      invariant pos == GroupPos(groups, k)
      invariant DescribesGroups(msgs, groups, k)
    {
      var ml;
      assert groups[k] == DbcGroup(schema[k], k);
      ml, pos := ComputeMsgLayout(schema[k], k, pos);
      AddGroup(msgs, ml, groups, k);
      msgs := msgs + [ml];
    }
    layout := FileLayout(fhBlock, dgBlock, msgs, pos);
  }

  /** The body of the loop over the schema. */
  method ComputeMsgLayout(msg: MessageInfo, ghost k: nat, start: nat) returns (ml: MsgLayout, pos: nat)
    ensures DescribesGroup(ml, DbcGroup(msg, k), start)
    ensures pos == start + GroupSize(DbcGroup(msg, k))
  {
    hide Ascii, TxSize, MdXml, MdBlock;
    ghost var g := DbcGroup(msg, k);
    pos := start;
    var txName := pos;
    pos := pos + TxSize(msg.name);
    var mdBlock := pos;
    pos := pos + TxSize(MdXml(msg.msgId));
    assert pos == ChannelPos(g, start, 0);
    var masterName := pos;
    pos := pos + TxSize(Ascii("t"));
    var masterUnit := pos;
    pos := pos + TxSize(Ascii("s"));
    var channels := [ChanLayout(masterName, masterUnit, pos)];
    pos := pos + 160;
    assert g.channels[0] == MASTER;
    assert DescribesChannels(channels, g, start, 1);
    for i := 0 to |msg.signalList|
      invariant pos == ChannelPos(g, start, i + 1)
      invariant DescribesChannels(channels, g, start, i + 1)
    {
      var sig := msg.signalList[i];
      assert g.channels[i + 1] == SignalChannel(sig, i);
      var name := pos;
      pos := pos + TxSize(sig.name);
      var unit := if sig.unit == [] then 0 else pos;
      if sig.unit != [] {
        pos := pos + TxSize(sig.unit);
      }
      channels := channels + [ChanLayout(name, unit, pos)];
      pos := pos + 160;
    }
    ml := MsgLayout(txName, mdBlock, 0, channels, pos);
    pos := pos + 104;
  }

  method ComputeRawLayout() returns (layout: FileLayout)
    ensures Describes(layout, RawGroups())
  {
    hide Ascii, TxSize, SiBlock, RawChannels;
    var fhBlock := 64 + 104;
    var dgBlock := fhBlock + 56;
    var pos := dgBlock + 64;
    ghost var groups := RawGroups();
    ghost var g, base := groups[0], pos;
    var txName := pos;
    pos := pos + TxSize(Ascii("CAN"));
    var siBlock := pos;
    pos := pos + 56;
    var chanNames := [
      "t", "CAN_DataFrame", "CAN_DataFrame.BusChannel", "CAN_DataFrame.ID", "CAN_DataFrame.Dir", "CAN_DataFrame.DLC",
      "CAN_DataFrame.DataLength", "CAN_DataFrame.DataBytes"];
    RawChannelNames(chanNames);
    var channels: seq<ChanLayout> := [];
    for i := 0 to |chanNames|
      invariant pos == ChannelPos(g, base, i)
      invariant DescribesChannels(channels, g, base, i)
    {
      var name := pos;
      pos := pos + TxSize(Ascii(chanNames[i]));
      var unit := if i == 0 then pos else 0;
      if i == 0 {
        pos := pos + TxSize(Ascii("s"));
      }
      channels := channels + [ChanLayout(name, unit, pos)];
      pos := pos + 160;
    }
    var cgBlock := pos;
    pos := pos + 104;
    var msgs := [MsgLayout(txName, 0, siBlock, channels, cgBlock)];
    assert GroupPos(groups, 1) == GroupPos(groups, 0) + GroupSize(g);
    layout := FileLayout(fhBlock, dgBlock, msgs, pos);
  }

  lemma RawChannelNames(names: seq<string>)
    requires names == [
      "t", "CAN_DataFrame", "CAN_DataFrame.BusChannel", "CAN_DataFrame.ID", "CAN_DataFrame.Dir", "CAN_DataFrame.DLC",
      "CAN_DataFrame.DataLength", "CAN_DataFrame.DataBytes"]
    ensures |RawChannels()| == |names|
    ensures forall c | 0 <= c < |names| ::
              RawChannels()[c].name == Ascii(names[c]) && RawChannels()[c].unit == if c == 0 then Ascii("s") else []
  {
    hide Ascii, RawChannels;
    RawChannelsAre();
    forall c | 2 <= c < 8
      ensures RawChannels()[c].name == Ascii(names[c])
    {
      assert RawChannels()[c] == SubChannel(SubDefs()[c - 2]);
    }
  }
}
