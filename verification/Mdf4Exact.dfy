/** Every computed offset is the position of its block, and every field can be read back. */
module Mdf4Exact {
  import opened Bits
  import opened CanTypes
  import opened Mdf4Format
  import opened Mdf4Layout
  import opened Mdf4Walks

  // ----- Positions

  lemma AtLeft(file: Bytes, off: nat, a: Bytes, b: Bytes)
    requires At(file, off, a + b)
    ensures At(file, off, a)
  {
    assert (a + b)[0..|a|] == a;
    SubSlice(file, off, off + |a + b|, 0, |a|);
  }

  lemma AtRight(file: Bytes, off: nat, a: Bytes, b: Bytes)
    requires At(file, off, a + b)
    ensures At(file, off + |a|, b)
  {
    assert (a + b)[|a|..|a| + |b|] == b;
    SubSlice(file, off, off + |a + b|, |a|, |a| + |b|);
  }

  lemma {:induction false} GroupAmong(file: Bytes, groups: seq<Group>, n: nat, counts: seq<nat>, k: nat)
    requires k < n <= |groups| == |counts|
    requires At(file, GROUPS_POS, GroupsBytes(groups, n, counts))
    ensures At(file, GroupPos(groups, k), GroupBytes(groups[k], GroupPos(groups, k), CgLink(groups, k + 1), counts[k]))
    decreases n
  {
    hide GroupBytes, GroupSize, CgLink, At;
    var left := GroupsBytes(groups, n - 1, counts);
    var last := GroupBytes(groups[n - 1], GroupPos(groups, n - 1), CgLink(groups, n), counts[n - 1]);
    if k == n - 1 {
      AtRight(file, GROUPS_POS, left, last);
    } else {
      AtLeft(file, GROUPS_POS, left, last);
      GroupAmong(file, groups, n - 1, counts, k);
    }
  }

  /** The parts of the file image stand where the layout says. */
  lemma ImageParts(groups: seq<Group>, recIdSize: Byte, startNs: Word, counts: seq<nat>, dtLength: nat, body: Bytes)
    requires |counts| == |groups|
    ensures var file := Image(groups, recIdSize, startNs, counts, dtLength, body);
            && At(file, 0, Prologue(groups, recIdSize, startNs))
            && At(file, GROUPS_POS, GroupsBytes(groups, |groups|, counts))
            && At(file, DtPos(groups), DtHeader(dtLength))
            && At(file, DtPos(groups) + 24, body)
  {
    hide Prologue, GroupsBytes, DtHeader, GroupPos;
    var file := Image(groups, recIdSize, startNs, counts, dtLength, body);
    var p, gs, dt := Prologue(groups, recIdSize, startNs), GroupsBytes(groups, |groups|, counts), DtHeader(dtLength);
    assert At(file, 0, p + gs + dt + body);
    AtRight(file, 0, p + gs + dt, body);
    AtLeft(file, 0, p + gs + dt, body);
    AtRight(file, 0, p + gs, dt);
    AtLeft(file, 0, p + gs, dt);
    AtRight(file, 0, p, gs);
    AtLeft(file, 0, p, gs);
  }

  lemma GroupParts(file: Bytes, g: Group, base: nat, next: nat, count: nat)
    requires At(file, base, GroupBytes(g, base, next, count))
    ensures At(file, base, TxBlock(g.name)) && At(file, MetaPos(g, base), g.meta)
    ensures At(file, ChannelPos(g, base, 0), ChannelsBytes(g, base, |g.channels|))
    ensures At(file, CgPos(g, base), CgBytes(g, base, next, count))
  {
    hide TxBlock, ChannelsBytes, CgBytes, TxSize;
    var tx, chs, cg := TxBlock(g.name), ChannelsBytes(g, base, |g.channels|), CgBytes(g, base, next, count);
    AtRight(file, base, tx + g.meta + chs, cg);
    AtLeft(file, base, tx + g.meta + chs, cg);
    AtRight(file, base, tx + g.meta, chs);
    AtLeft(file, base, tx + g.meta, chs);
    AtRight(file, base, tx, g.meta);
    AtLeft(file, base, tx, g.meta);
  }

  lemma {:induction false} ChannelAmong(file: Bytes, g: Group, base: nat, n: nat, c: nat)
    requires c < n <= |g.channels|
    requires At(file, ChannelPos(g, base, 0), ChannelsBytes(g, base, n))
    ensures At(file, ChannelPos(g, base, c), ChannelBytes(g, base, c))
    decreases n
  {
    hide ChannelBytes, ChannelSize, At, TxSize;
    var left, last := ChannelsBytes(g, base, n - 1), ChannelBytes(g, base, n - 1);
    if c == n - 1 {
      AtRight(file, ChannelPos(g, base, 0), left, last);
    } else {
      AtLeft(file, ChannelPos(g, base, 0), left, last);
      ChannelAmong(file, g, base, n - 1, c);
    }
  }

  /** A channel's name, unit and CN block stand at the positions in its layout entry. */
  lemma ChannelParts(file: Bytes, g: Group, base: nat, next: nat, count: nat, c: nat)
    requires At(file, base, GroupBytes(g, base, next, count)) && c < |g.channels|
    ensures At(file, ChannelPos(g, base, c), TxBlock(g.channels[c].name))
    ensures g.channels[c].unit != [] ==> At(file, UnitPos(g, base, c), TxBlock(g.channels[c].unit))
    ensures At(file, CnPos(g, base, c), CnBytes(g, base, c))
  {
    hide TxBlock, ChannelsBytes, GroupBytes, CgBytes, CnBytes, TxSize, ChannelPos;
    GroupParts(file, g, base, next, count);
    ChannelAmong(file, g, base, |g.channels|, c);
    var ch, at := g.channels[c], ChannelPos(g, base, c);
    AtRight(file, at, TxBlock(ch.name) + UnitBytes(ch.unit), CnBytes(g, base, c));
    AtLeft(file, at, TxBlock(ch.name) + UnitBytes(ch.unit), CnBytes(g, base, c));
    AtRight(file, at, TxBlock(ch.name), UnitBytes(ch.unit));
    AtLeft(file, at, TxBlock(ch.name), UnitBytes(ch.unit));
  }

  /** The blocks of a group stand where its layout entry says. */
  predicate GroupStands(file: Bytes, ml: MsgLayout, g: Group, next: nat, count: nat) {
    && |ml.channels| == |g.channels|
    && At(file, ml.txName, TxBlock(g.name)) && At(file, if g.metaIsMd then ml.mdBlock else ml.siBlock, g.meta)
    && At(file, ml.cgBlock, CgBytes(g, ml.txName, next, count))
    && forall c | 0 <= c < |g.channels| ::
         && At(file, ml.channels[c].txName, TxBlock(g.channels[c].name))
         && (g.channels[c].unit != [] ==> At(file, ml.channels[c].txUnit, TxBlock(g.channels[c].unit)))
         && At(file, ml.channels[c].cnBlock, CnBytes(g, ml.txName, c))
  }

  /**
   The single-pass layout is exact: in the file that is written from it, every offset in the
   layout is the position of the block it is meant for.
   */
  lemma LayoutIsExact(layout: FileLayout, groups: seq<Group>, recIdSize: Byte, startNs: Word, counts: seq<nat>,
                      dtLength: nat, body: Bytes)
    requires Describes(layout, groups) && |counts| == |groups|
    ensures var file := Image(groups, recIdSize, startNs, counts, dtLength, body);
            && At(file, layout.fhBlock, FhBlock(startNs))
            && At(file, layout.dgBlock, DgBlock(CgLink(groups, 0), DtPos(groups), recIdSize))
            && At(file, layout.dtBlock, DtHeader(dtLength))
            && forall k | 0 <= k < |groups| ::
               GroupStands(file, layout.msgs[k], groups[k], CgLink(groups, k + 1), counts[k])
  {
    hide Image, GroupBytes, GroupsBytes, DtHeader, At, Prologue, DescribesGroup, GroupStands, FhBlock, DgBlock;
    var file := Image(groups, recIdSize, startNs, counts, dtLength, body);
    ImageParts(groups, recIdSize, startNs, counts, dtLength, body);
    PrologueParts(file, groups, recIdSize, startNs);
    forall k | 0 <= k < |groups|
      ensures GroupStands(file, layout.msgs[k], groups[k], CgLink(groups, k + 1), counts[k])
    {
      GroupAmong(file, groups, |groups|, counts, k);
      GroupIsExact(file, layout.msgs[k], groups[k], GroupPos(groups, k), CgLink(groups, k + 1), counts[k]);
    }
  }

  lemma PrologueParts(file: Bytes, groups: seq<Group>, recIdSize: Byte, startNs: Word)
    requires At(file, 0, Prologue(groups, recIdSize, startNs))
    ensures At(file, FH_POS, FhBlock(startNs)) && At(file, DG_POS, DgBlock(CgLink(groups, 0), DtPos(groups), recIdSize))
  {
    hide IdBlock, HdBlock, FhBlock, DgBlock, At, CgLink, GroupPos;
    var front, fh := IdBlock() + HdBlock(DG_POS, FH_POS, startNs), FhBlock(startNs);
    var dg := DgBlock(CgLink(groups, 0), DtPos(groups), recIdSize);
    AtRight(file, 0, front + fh, dg);
    AtLeft(file, 0, front + fh, dg);
    AtRight(file, 0, front, fh);
  }

  lemma GroupIsExact(file: Bytes, ml: MsgLayout, g: Group, base: nat, next: nat, count: nat)
    requires DescribesGroup(ml, g, base) && At(file, base, GroupBytes(g, base, next, count))
    ensures GroupStands(file, ml, g, next, count)
  {
    hide TxBlock, CgBytes, CnBytes, GroupBytes, CgPos, CnPos, UnitPos, ChannelPos, At;
    GroupParts(file, g, base, next, count);
    forall c | 0 <= c < |g.channels|
      ensures At(file, ml.channels[c].txName, TxBlock(g.channels[c].name))
      ensures g.channels[c].unit != [] ==> At(file, ml.channels[c].txUnit, TxBlock(g.channels[c].unit))
      ensures At(file, ml.channels[c].cnBlock, CnBytes(g, ml.txName, c))
    {
      ChannelParts(file, g, base, next, count, c);
      assert ml.channels[c] == ChanLayout(ChannelPos(g, base, c), UnitPos(g, base, c), CnPos(g, base, c));
    }
  }

  // ----- Reading what stands at a position

  lemma PlusSmall(a: Word, b: nat)
    requires a + b < WORDS
    ensures Plus(a, b) == a + b
  {
  }

  lemma IntAt(file: Contents, off: nat, p: nat, v: nat, n: nat)
    requires At(file, off + p, LE(v, n)) && v < Pow2(8 * n)
    ensures off < WORDS && ReadInt(file, Plus(off, p), n) == Some(v)
  {
    hide LE, FromLE, Pow2, Plus;
    PlusSmall(off, p);
    FromLEInverts(v, n);
  }

  lemma LinkAt(file: Contents, off: nat, p: nat, v: nat)
    requires At(file, off + p, LE(v, 8)) && v < WORDS
    ensures off < WORDS && ReadLink(file, Plus(off, p)) == Some(v)
  {
    hide LE, FromLE, Pow2, Plus;
    PlusSmall(off, p);
    WordFits(v);
    FromLEInverts(v, 8);
  }

  lemma WordFits(w: Word)
    ensures w < Pow2(8 * 8)
  {
    Pow2Values();
  }

  predicate NulFree(s: Bytes) {
    0 !in s
  }

  lemma {:induction false} TextEnds(text: Bytes, rest: Bytes)
    ensures UpToNul(text + [0] + rest) == UpToNul(text)
  {
    if text != [] && text[0] != 0 {
      TextEnds(text[1..], rest);
      assert (text + [0] + rest)[1..] == text[1..] + [0] + rest;
    }
  }

  lemma {:induction false} NulFreeIsWhole(s: Bytes)
    ensures UpToNul(s) == s <==> NulFree(s)
  {
    if s != [] && s[0] != 0 {
      NulFreeIsWhole(s[1..]);
      assert s == [s[0]] + s[1..];
    }
  }

  /** Reading the text of a TX or MD block stops at the first NUL. */
  lemma TextAt(file: Contents, off: nat, hdr: Bytes, text: Bytes)
    requires |hdr| == 24 && At(file, off, hdr + TextPadded(text))
    ensures off < WORDS && ReadText(file, off) == UpToNul(text)
  {
    hide UpToNul, TextPadded, Plus;
    AtRight(file, off, hdr, TextPadded(text));
    PlusSmall(off, 24);
    PaddedText(text);
    AtLeft(file, off + 24, text + [0], TextPadded(text)[|text| + 1..]);
    var tail, n := file[off + 24..], |text| + 1;
    assert file[off + 24..off + 24 + n] == text + [0];
    assert tail == text + [0] + tail[n..];
    TextEnds(text, tail[n..]);
  }

  lemma PaddedText(text: Bytes)
    ensures |TextPadded(text)| >= |text| + 1 && TextPadded(text) == text + [0] + TextPadded(text)[|text| + 1..]
  {
  }
}
