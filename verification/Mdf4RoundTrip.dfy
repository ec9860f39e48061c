/** What is written to a DBC session is what the reader finds in it. */
module Mdf4RoundTrip {
  import opened Bits
  import opened CanTypes
  import opened Mdf4Format
  import opened Mdf4Layout
  import opened Mdf4Writer
  import opened Mdf4Walks
  import opened Mdf4Reader
  import opened Mdf4Exact

  // ----- The identifier in the MD block

  predicate IsUpperHex(c: Byte) {
    48 <= c <= 57 || 65 <= c <= 70
  }

  predicate AllUpperHex(s: Bytes) {
    forall i | 0 <= i < |s| :: IsUpperHex(s[i])
  }

  lemma {:induction false} HexIsUpper(n: nat)
    ensures AllUpperHex(Hex(n))
  {
    if n >= 16 { HexIsUpper(n / 16); }
  }

  lemma {:induction false} DigitsOfConcat(a: Bytes, b: Bytes, acc: nat)
    requires AllUpperHex(a)
    ensures DigitsValue(a + b, acc) == DigitsValue(b, DigitsValue(a, acc))
  {
    if a == [] {
      assert a + b == b;
    } else {
      assert (a + b)[1..] == a[1..] + b;
      DigitsOfConcat(a[1..], b, 16 * acc + DigitValue(a[0]).value);
    }
  }

  lemma {:induction false} DigitsOfHex(n: nat)
    ensures DigitsValue(Hex(n), 0) == n
  {
    if n >= 16 {
      HexIsUpper(n / 16);
      DigitsOfConcat(Hex(n / 16), [HexDigit(n % 16)], 0);
      DigitsOfHex(n / 16);
      assert [HexDigit(n % 16)][1..] == [];
    }
  }

  lemma StoulOfHex(n: nat)
    requires n < WORDS
    ensures StoulHex(Hex(n)) == Some(n)
  {
    hide DigitsValue;
    HexIsUpper(n);
    DigitsOfHex(n);
    var h := Hex(n);
    assert IsUpperHex(h[0]) && (|h| > 1 ==> IsUpperHex(h[1]));
    assert SkipSpace(h) == h;
  }

  /** The pattern stands at position `p`. */
  predicate Occurs(s: Bytes, pattern: Bytes, p: nat) {
    p + |pattern| <= |s| && s[p..p + |pattern|] == pattern
  }

  lemma {:induction false} FindFirst(s: Bytes, pattern: Bytes, p: nat)
    requires pattern != [] && Occurs(s, pattern, p)
    requires forall q | 0 <= q < p :: !Occurs(s, pattern, q)
    ensures Find(s, pattern) == Some(p)
    decreases p
  {
    if p > 0 {
      assert !Occurs(s, pattern, 0);
      forall q | 0 <= q < p
        ensures Occurs(s[1..], pattern, q) == Occurs(s, pattern, q + 1)
      {
        if q + 1 + |pattern| <= |s| { SubSlice(s, 1, |s|, q, q + |pattern|); }
      }
      FindFirst(s[1..], pattern, p - 1);
    }
  }

  /** The characters of the XML in front of the identifier. */
  lemma XmlFront(a: Bytes)
    requires a == Ascii("<CANmessage><id>0x")
    ensures |a| == 18 && a[0] == 60 && a[1] == 67 && a[12] == 60 && a[13] == 105
    ensures forall q | 1 <= q < 18 && q != 12 :: a[q] != 60
    ensures forall q | 0 <= q < 18 :: a[q] != 0
    ensures Occurs(a, Ascii("<id>0x"), 12)
  {
    hide Ascii;
    var s, p := "<CANmessage><id>0x", "<id>0x";
    assert forall i | 0 <= i < 18 :: a[i] == s[i] as int % 256;
    forall i | 0 <= i < 6
      ensures a[12..18][i] == Ascii(p)[i]
    {
      assert a[12 + i] == s[12 + i] as int % 256;
    }
    assert a[12..18] == Ascii(p);
  }

  lemma XmlBack(b: Bytes)
    requires b == Ascii("</id></CANmessage>")
    ensures |b| == 18 && Occurs(b, Ascii("</id>"), 0)
    ensures forall q | 0 <= q < 18 :: b[q] != 0
  {
    hide Ascii;
    var s, p := "</id></CANmessage>", "</id>";
    forall i | 0 <= i < 5
      ensures b[0..5][i] == Ascii(p)[i]
    {
      assert b[i] == s[i] as int % 256;
    }
    assert b[0..5] == Ascii(p);
  }

  lemma Markers()
    ensures |Ascii("<id>0x")| == 6 && Ascii("<id>0x")[0] == 60 && Ascii("<id>0x")[1] == 105
    ensures |Ascii("</id>")| == 5 && Ascii("</id>")[0] == 60 && Ascii("</id>")[1] == 47
  {
  }

  lemma OccursInConcat(a: Bytes, b: Bytes, c: Bytes, pattern: Bytes, p: nat)
    ensures Occurs(a, pattern, p) ==> Occurs(a + b + c, pattern, p)
    ensures Occurs(c, pattern, p) ==> Occurs(a + b + c, pattern, |a| + |b| + p)
  {
    if Occurs(a, pattern, p) {
      assert (a + b + c)[p..p + |pattern|] == a[p..p + |pattern|];
    }
    if Occurs(c, pattern, p) {
      assert (a + b + c)[|a| + |b| + p..|a| + |b| + p + |pattern|] == c[p..p + |pattern|];
    }
  }

  /** Both markers are found where they stand, whatever the identifier. */
  lemma MarkersInXml(id: nat)
    ensures var xml := MdXml(id);
            Find(xml, Ascii("<id>0x")) == Some(12) && Find(xml, Ascii("</id>")) == Some(18 + |Hex(id)|)
    ensures 18 + |Hex(id)| <= |MdXml(id)| && MdXml(id)[18..18 + |Hex(id)|] == Hex(id)
    ensures NulFree(MdXml(id))
  {
    hide Find, Hex, Ascii;
    var a, h, b := Ascii("<CANmessage><id>0x"), Hex(id), Ascii("</id></CANmessage>");
    var xml, open, shut := a + h + b, Ascii("<id>0x"), Ascii("</id>");
    XmlFront(a);
    XmlBack(b);
    Markers();
    HexIsUpper(id);
    OccursInConcat(a, h, b, open, 12);
    OccursInConcat(a, h, b, shut, 0);
    forall q | 0 <= q < 18 + |h|
      ensures q != 12 ==> !Occurs(xml, open, q)
      ensures !Occurs(xml, shut, q)
    {
      assert xml[q] == if q < 18 then a[q] else h[q - 18];
      if q < 17 { assert xml[q + 1] == a[q + 1]; }
      StartsAt(xml, open, q);
      StartsAt(xml, shut, q);
    }
    FindFirst(xml, open, 12);
    FindFirst(xml, shut, 18 + |h|);
    assert xml[18..18 + |h|] == h;
    forall i | 0 <= i < |xml|
      ensures xml[i] != 0
    {
      assert xml[i] == if i < 18 then a[i] else if i < 18 + |h| then h[i - 18] else b[i - 18 - |h|];
    }
  }

  lemma StartsAt(s: Bytes, pattern: Bytes, p: nat)
    requires |pattern| >= 2
    ensures Occurs(s, pattern, p) ==> p + 1 < |s| && s[p] == pattern[0] && s[p + 1] == pattern[1]
  {
    if Occurs(s, pattern, p) {
      assert s[p] == s[p..p + |pattern|][0] && s[p + 1] == s[p..p + |pattern|][1];
    }
  }

  /** Reading the identifier of a DBC group gives the identifier that was written. */
  lemma MsgIdReadBack(file: Contents, g: Group, base: nat, next: nat, count: nat, id: nat, recordId: Word)
    requires At(file, base, GroupBytes(g, base, next, count))
    requires g.metaIsMd && g.meta == MdBlock(MdXml(id)) && id < 0x1_0000
    ensures CgPos(g, base) < WORDS && GroupMsgId(file, CgPos(g, base), recordId) == Done(id)
  {
    hide GroupBytes, MdXml, BlockHdr, TextPadded, ReadLink, ReadText, TxSize, CgPos, UpToNul, At, GroupMsgId;
    GroupParts(file, g, base, next, count);
    var fields, xml := CgFields(g, base, next), MdXml(id);
    CgMd(fields, count);
    AtField(file, CgPos(g, base), CgBytes(g, base, next, count), 64, MetaPos(g, base), 8);
    MetaInside(file, MetaPos(g, base), g.meta);
    LinkAt(file, CgPos(g, base), 64, MetaPos(g, base));
    TextAt(file, MetaPos(g, base), BlockHdr("##MD", TxSize(xml), 0), xml);
    MarkersInXml(id);
    NulFreeIsWhole(xml);
    TxSizePositive(g.name);
    MsgIdFromXml(file, CgPos(g, base), recordId, MetaPos(g, base), id);
  }

  lemma MsgIdFromXml(file: Contents, cg: Word, recordId: Word, md: Word, id: nat)
    requires ReadLink(file, Plus(cg, 64)) == Some(md) && md != 0
    requires ReadText(file, md) == MdXml(id) && id < 0x1_0000
    ensures GroupMsgId(file, cg, recordId) == Done(id)
  {
    hide ReadLink, ReadText, Find, StoulHex, MdXml, Ascii, Hex;
    MarkersInXml(id);
    StoulOfHex(id);
  }

  lemma MetaInside(file: Contents, off: nat, part: Bytes)
    requires At(file, off, part)
    ensures off + |part| < WORDS
  {
  }

  lemma TxSizePositive(text: Bytes)
    ensures TxSize(text) > 24
  {
  }

  // ----- The channel walk

  /** The names that the reader keeps of the channels from `c` on: all but the synchronised one. */
  function NamesFrom(chs: seq<Channel>, c: nat): seq<Bytes>
    requires c <= |chs|
    decreases |chs| - c
  {
    if c == |chs| then []
    else (if chs[c].syncType != 1 then [UpToNul(chs[c].name)] else []) + NamesFrom(chs, c + 1)
  }

  function HeadersFrom(headers: seq<Bytes>, chs: seq<Channel>, c: nat): seq<Bytes>
    requires c <= |chs|
    decreases |chs| - c
  {
    if c == |chs| then headers else HeadersFrom(AddHeader(headers, UpToNul(chs[c].name)), chs, c + 1)
  }

  /** The link to channel `c`, or 0 past the last one. */
  function CnLink(g: Group, base: nat, c: nat): nat {
    if c < |g.channels| then CnPos(g, base, c) else 0
  }

  /** What the reader sees of a CN block. */
  lemma ChannelRead(file: Contents, g: Group, base: nat, next: nat, count: nat, c: nat)
    requires At(file, base, GroupBytes(g, base, next, count)) && c < |g.channels| && g.channels[c].chained
    ensures 0 < CnPos(g, base, c) < WORDS && CnLink(g, base, c + 1) < WORDS && 0 < ChannelPos(g, base, c) < WORDS
    ensures ReadLink(file, Plus(CnPos(g, base, c), 24)) == Some(CnLink(g, base, c + 1))
    ensures ReadLink(file, Plus(CnPos(g, base, c), 40)) == Some(ChannelPos(g, base, c))
    ensures ReadInt(file, Plus(CnPos(g, base, c), 89), 1) == Some(g.channels[c].syncType)
    ensures ReadText(file, ChannelPos(g, base, c)) == UpToNul(g.channels[c].name)
  {
    hide GroupBytes, BlockHdr, TextPadded, ReadLink, ReadText, ReadInt, TxSize, ChannelPos, UpToNul, At, CnPos,
         CnParams.Block;
    ChannelParts(file, g, base, next, count, c);
    ChannelPositive(g, base, c);
    var fields, at := CnFields(g, base, c), CnPos(g, base, c);
    CnNext(fields);
    CnName(fields);
    CnSync(fields);
    AtField(file, at, CnBytes(g, base, c), 24, CnLink(g, base, c + 1), 8);
    AtField(file, at, CnBytes(g, base, c), 40, ChannelPos(g, base, c), 8);
    AtField(file, at, CnBytes(g, base, c), 89, g.channels[c].syncType, 1);
    MetaInside(file, ChannelPos(g, base, c), TxBlock(g.channels[c].name));
    if c + 1 < |g.channels| {
      ChannelParts(file, g, base, next, count, c + 1);
      MetaInside(file, CnPos(g, base, c + 1), CnBytes(g, base, c + 1));
    }
    LinkAt(file, at, 24, CnLink(g, base, c + 1));
    LinkAt(file, at, 40, ChannelPos(g, base, c));
    Pow2Values();
    IntAt(file, at, 89, g.channels[c].syncType, 1);
    TextAt(file, ChannelPos(g, base, c), BlockHdr("##TX", TxSize(g.channels[c].name), 0), g.channels[c].name);
  }

  lemma ChannelPositive(g: Group, base: nat, c: nat)
    requires c < |g.channels|
    ensures 0 < ChannelPos(g, base, c) < CnPos(g, base, c)
  {
    hide ChannelsSize;
  }

  ghost predicate AllChained(chs: seq<Channel>) {
    forall c | 0 <= c < |chs| :: chs[c].chained
  }

  lemma {:induction false} WalkFromChannel(file: Contents, g: Group, base: nat, next: nat, count: nat, c: nat,
                                           names: seq<Bytes>, headers: seq<Bytes>, fuel: nat)
    requires At(file, base, GroupBytes(g, base, next, count)) && AllChained(g.channels)
    requires c <= |g.channels| <= c + fuel
    ensures CnLink(g, base, c) < WORDS
    ensures WalkChannels(file, CnLink(g, base, c), names, headers, fuel)
            == Done((names + NamesFrom(g.channels, c), HeadersFrom(headers, g.channels, c)))
    decreases |g.channels| - c
  {
    hide GroupBytes, ReadLink, ReadText, ReadInt, ChannelPos, UpToNul, At, CnPos, AddHeader, Plus;
    if c < |g.channels| {
      ChannelRead(file, g, base, next, count, c);
      var name := UpToNul(g.channels[c].name);
      var names' := if g.channels[c].syncType != 1 then names + [name] else names;
      WalkFromChannel(file, g, base, next, count, c + 1, names', AddHeader(headers, name), fuel - 1);
      assert names' + NamesFrom(g.channels, c + 1) == names + NamesFrom(g.channels, c);
    } else {
      assert names + [] == names;
    }
  }

  // ----- The group walk

  /** At most 256 message types of at most 255 signals, with 16-bit identifiers. */
  ghost predicate Recordable(schema: seq<MessageInfo>) {
    && 0 < |schema| <= 256
    && forall k | 0 <= k < |schema| :: |schema[k].signalList| <= 255 && schema[k].msgId < 0x1_0000
  }

  function ReadNames(sigs: seq<SignalInfo>): (r: seq<Bytes>)
    ensures |r| == |sigs|
    ensures forall i | 0 <= i < |r| :: r[i] == UpToNul(sigs[i].name)
  {
    seq(|sigs|, i requires 0 <= i < |sigs| => UpToNul(sigs[i].name))
  }

  /** What the reader keeps of message type `k`. */
  function InfoOf(schema: seq<MessageInfo>, k: nat): DbcGroupInfo
    requires k < |schema|
  {
    DbcGroupInfo(k % 256, 8 + |schema[k].signalList| * 8, schema[k].msgId, ReadNames(schema[k].signalList))
  }

  function Infos(schema: seq<MessageInfo>, n: nat): (r: seq<DbcGroupInfo>)
    requires n <= |schema|
    ensures |r| == n
    ensures forall k | 0 <= k < n :: r[k] == InfoOf(schema, k)
  {
    seq(n, k requires 0 <= k < n => InfoOf(schema, k))
  }

  lemma {:induction false} NamesOfSignals(sigs: seq<SignalInfo>, c: nat)
    requires 1 <= c <= |sigs| + 1
    ensures NamesFrom(DbcChannels(sigs, |sigs|), c) == ReadNames(sigs)[c - 1..]
    decreases |sigs| + 1 - c
  {
    hide UpToNul, DbcChannels;
    var chs := DbcChannels(sigs, |sigs|);
    if c <= |sigs| {
      NamesOfSignals(sigs, c + 1);
      assert chs[c] == SignalChannel(sigs[c - 1], c - 1);
    }
  }

  lemma GroupNames(msg: MessageInfo, k: nat)
    ensures NamesFrom(DbcGroup(msg, k).channels, 0) == ReadNames(msg.signalList)
    ensures AllChained(DbcGroup(msg, k).channels) && |DbcGroup(msg, k).channels| == |msg.signalList| + 1
  {
    hide UpToNul, DbcChannels, MdBlock, MdXml;
    var chs := DbcGroup(msg, k).channels;
    NamesOfSignals(msg.signalList, 1);
    assert chs[0] == MASTER;
    assert NamesFrom(chs, 0) == NamesFrom(chs, 1);
  }

  /** The file holds every channel group at its position. */
  ghost predicate HoldsGroups(file: Contents, groups: seq<Group>, counts: seq<nat>) {
    && |counts| == |groups|
    && forall k | 0 <= k < |groups| ::
         At(file, GroupPos(groups, k), GroupBytes(groups[k], GroupPos(groups, k), CgLink(groups, k + 1), counts[k]))
  }

  /** What the reader sees of a CG block. */
  lemma GroupRead(file: Contents, groups: seq<Group>, counts: seq<nat>, k: nat)
    requires HoldsGroups(file, groups, counts) && k < |groups| && groups[k].channels != []
    requires groups[k].recordId < WORDS && groups[k].dataBytes < 0x1_0000_0000
    ensures 0 < CgLink(groups, k) < WORDS && CgLink(groups, k + 1) < WORDS
    ensures CnLink(groups[k], GroupPos(groups, k), 0) < WORDS
    ensures ReadLink(file, Plus(CgLink(groups, k), 24)) == Some(CgLink(groups, k + 1))
    ensures ReadLink(file, Plus(CgLink(groups, k), 32)) == Some(CnLink(groups[k], GroupPos(groups, k), 0))
    ensures ReadLink(file, Plus(CgLink(groups, k), 72)) == Some(groups[k].recordId)
    ensures ReadInt(file, Plus(CgLink(groups, k), 96), 4) == Some(groups[k].dataBytes)
  {
    hide GroupBytes, BlockHdr, ReadLink, ReadInt, TxSize, ChannelPos, At, CnPos, GroupPos, CgPos, CnBytes,
         CgParams.Block;
    var g, base, next := groups[k], GroupPos(groups, k), CgLink(groups, k + 1);
    var fields, at := CgFields(g, base, next), CgPos(g, base);
    GroupParts(file, g, base, next, counts[k]);
    CgNext(fields, counts[k]);
    CgCnFirst(fields, counts[k]);
    CgRecordId(fields, counts[k]);
    CgDataBytes(fields, counts[k]);
    AtField(file, at, CgBytes(g, base, next, counts[k]), 24, next, 8);
    AtField(file, at, CgBytes(g, base, next, counts[k]), 32, CnPos(g, base, 0), 8);
    AtField(file, at, CgBytes(g, base, next, counts[k]), 72, g.recordId, 8);
    AtField(file, at, CgBytes(g, base, next, counts[k]), 96, g.dataBytes, 4);
    ChannelParts(file, g, base, next, counts[k], 0);
    MetaInside(file, CnPos(g, base, 0), CnBytes(g, base, 0));
    NextInside(file, groups, counts, k + 1);
    NextInside(file, groups, counts, k);
    LinkAt(file, at, 24, next);
    LinkAt(file, at, 32, CnPos(g, base, 0));
    LinkAt(file, at, 72, g.recordId);
    Pow2Values();
    IntAt(file, at, 96, g.dataBytes, 4);
  }

  lemma NextInside(file: Contents, groups: seq<Group>, counts: seq<nat>, k: nat)
    requires HoldsGroups(file, groups, counts)
    ensures CgLink(groups, k) < WORDS && (k < |groups| ==> CgLink(groups, k) > 0)
  {
    hide GroupBytes, CgBytes, TxSize, ChannelsSize;
    if k < |groups| {
      GroupParts(file, groups[k], GroupPos(groups, k), CgLink(groups, k + 1), counts[k]);
      MetaInside(file, CgPos(groups[k], GroupPos(groups, k)),
                 CgBytes(groups[k], GroupPos(groups, k), CgLink(groups, k + 1), counts[k]));
      GroupPosAtLeast(groups, k);
    }
  }

  /** The column headers after the groups from `k` on. */
  function AllHeaders(groups: seq<Group>, k: nat, headers: seq<Bytes>): seq<Bytes>
    requires k <= |groups|
    decreases |groups| - k
  {
    if k == |groups| then headers else AllHeaders(groups, k + 1, HeadersFrom(headers, groups[k].channels, 0))
  }

  lemma {:induction false} WalkFromGroup(file: Contents, schema: seq<MessageInfo>, counts: seq<nat>, k: nat,
                                         headers: seq<Bytes>, fuel: nat)
    requires Recordable(schema) && HoldsGroups(file, DbcGroups(schema), counts)
    requires k <= |schema| && |schema| - k + 256 <= fuel
    ensures CgLink(DbcGroups(schema), k) < WORDS
    ensures WalkGroups(file, CgLink(DbcGroups(schema), k), Infos(schema, k), headers, fuel)
            == Done((Infos(schema, |schema|), AllHeaders(DbcGroups(schema), k, headers)))
    decreases |schema| - k
  {
    hide DbcGroups, DbcGroup, HoldsGroups, GroupBytes, ReadLink, ReadInt, GroupMsgId, CgPos, CnPos, GroupPos, CgLink,
         Plus, WalkChannels, HeadersFrom, NamesFrom, MdBlock, MdXml, At;
    var groups := DbcGroups(schema);
    if k == |schema| {
      NoLink(groups, k);
    } else {
      GroupStep(file, schema, counts, k, headers, fuel);
      var headers' := HeadersFrom(headers, groups[k].channels, 0);
      WalkFromGroup(file, schema, counts, k + 1, headers', fuel - 1);
      assert Infos(schema, k) + [InfoOf(schema, k)] == Infos(schema, k + 1);
    }
  }

  lemma NoLink(groups: seq<Group>, k: nat)
    requires k >= |groups|
    ensures CgLink(groups, k) == 0
  {
  }

  /** One step of the group walk. */
  lemma GroupStep(file: Contents, schema: seq<MessageInfo>, counts: seq<nat>, k: nat, headers: seq<Bytes>, fuel: nat)
    requires Recordable(schema) && HoldsGroups(file, DbcGroups(schema), counts)
    requires k < |schema| && 256 < fuel
    ensures 0 < CgLink(DbcGroups(schema), k) < WORDS && CgLink(DbcGroups(schema), k + 1) < WORDS
    ensures WalkGroups(file, CgLink(DbcGroups(schema), k), Infos(schema, k), headers, fuel)
            == WalkGroups(file, CgLink(DbcGroups(schema), k + 1), Infos(schema, k) + [InfoOf(schema, k)],
                          HeadersFrom(headers, DbcGroups(schema)[k].channels, 0), fuel - 1)
  {
    hide DbcGroups, GroupBytes, ReadLink, ReadInt, GroupMsgId, CgPos, CnPos, GroupPos, CgLink, Plus, WalkChannels,
         HeadersFrom, NamesFrom, MdBlock, MdXml, At, CnLink, DbcChannels, Infos;
    var groups := DbcGroups(schema);
    var g, base := groups[k], GroupPos(groups, k);
    assert g == DbcGroup(schema[k], k);
    GroupNames(schema[k], k);
    GroupRead(file, groups, counts, k);
    CgLinkIs(groups, k);
    MsgIdReadBack(file, g, base, CgLink(groups, k + 1), counts[k], schema[k].msgId, k);
    WalkFromChannel(file, g, base, CgLink(groups, k + 1), counts[k], 0, [], headers, fuel);
    assert [] + NamesFrom(g.channels, 0) == NamesFrom(g.channels, 0);
  }

  lemma CgLinkIs(groups: seq<Group>, k: nat)
    requires k < |groups|
    ensures CgLink(groups, k) == CgPos(groups[k], GroupPos(groups, k))
  {
  }
}
