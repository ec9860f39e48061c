/**
 The closed MDF4 file, byte by byte: every field of every block stands at the offset that the ASAM MDF 4.10
 standard gives it, and every link leads to the block that it is meant for (src/can_stream/writer/mdf4_writer.cpp).
 */
module Mdf4Fields {
  import opened Bits
  import opened CanTypes
  import opened Mdf4Format
  import opened Mdf4Layout
  import opened Mdf4Exact
  import opened Mdf4Writer

  // ----- Bytes

  /** The number in n bytes, the lowest byte first. */
  predicate Number(file: Bytes, at: nat, n: nat, v: nat) {
    at + n <= |file| && forall k | 0 <= k < n :: file[at + k] == v / Pow2(8 * k) % 256
  }

  predicate Chars(file: Bytes, at: nat, s: string) {
    at + |s| <= |file| && forall k | 0 <= k < |s| :: file[at + k] == s[k] as int
  }

  lemma {:induction false} NumberByBytes(v: nat, n: nat)
    ensures Number(LE(v, n), 0, n, v)
    decreases n
  {
    if n > 0 {
      NumberByBytes(v / 256, n - 1);
      forall k | 0 <= k < n
        ensures LE(v, n)[k] == v / Pow2(8 * k) % 256
      {
        if k > 0 {
          assert LE(v, n)[k] == LE(v / 256, n - 1)[0 + (k - 1)];
          HigherByte(v, k);
        }
      }
    }
  }

  lemma HigherByte(v: nat, k: nat)
    requires k > 0
    ensures v / 256 / Pow2(8 * (k - 1)) == v / Pow2(8 * k)
  {
    Pow2Eight(8 * (k - 1));
    DivideTwice(v, 256, Pow2(8 * (k - 1)));
  }

  lemma FieldIsNumber(file: Bytes, at: nat, block: Bytes, p: nat, v: nat, n: nat)
    requires At(file, at, block) && Field(block, p, v, n)
    ensures Number(file, at + p, n, v)
  {
    hide LE;
    AtField(file, at, block, p, v, n);
    NumberByBytes(v, n);
    forall k | 0 <= k < n
      ensures file[at + p + k] == v / Pow2(8 * k) % 256
    {
      assert file[at + p..at + p + n][k] == LE(v, n)[0 + k];
    }
  }

  lemma LastField(block: Bytes, p: nat, v: nat, n: nat)
    requires p + n == |block| && block[p..] == LE(v, n)
    ensures Field(block, p, v, n)
  {
    hide LE;
    assert block[p..p + n] == block[p..];
  }

  // ----- Blocks

  /** The head of a block: its name, its length and the number of its links. */
  predicate IsBlock(file: Bytes, at: nat, id: string, length: nat, links: nat) {
    Chars(file, at, id) && Number(file, at + 4, 4, 0) && Number(file, at + 8, 8, length)
        && Number(file, at + 16, 8, links)
  }

  lemma HeaderStands(file: Bytes, at: nat, block: Bytes, id: string, length: nat, links: nat)
    requires At(file, at, block) && |id| == 4 && (forall i | 0 <= i < 4 :: id[i] as int < 256)
    requires |block| >= 24 && block[..24] == BlockHdr(id, length, links)
    ensures IsBlock(file, at, id, length, links)
  {
    hide LE, Ascii, Number;
    var b := BlockHdr(id, length, links);
    SubSlice(file, at, at + |block|, 0, 24);
    assert At(file, at, b);
    FieldIsNumber(file, at, b, 4, 0, 4);
    FieldIsNumber(file, at, b, 8, length, 8);
    LastField(b, 16, links, 8);
    FieldIsNumber(file, at, b, 16, links, 8);
    forall i | 0 <= i < 4
      ensures file[at + i] == id[i] as int
    {
      assert file[at..at + 24][i] == b[i] == Ascii(id)[i];
    }
  }

  /** The header block. */
  predicate IsHd(file: Bytes, at: nat, dg: nat, fh: nat, startNs: Word) {
    && IsBlock(file, at, "##HD", 104, 6)
    && Number(file, at + 24, 8, dg) // hd_dg_first
    && Number(file, at + 32, 8, fh) // hd_fh_first
    && Number(file, at + 40, 8, 0) // hd_ch_first
    && Number(file, at + 48, 8, 0) // hd_at_first
    && Number(file, at + 56, 8, 0) // hd_ev_first
    && Number(file, at + 64, 8, 0) // hd_md_comment
    && Number(file, at + 72, 8, startNs) // hd_start_time_ns
    && Number(file, at + 80, 2, 0) // hd_tz_offset_min
    && Number(file, at + 82, 2, 0) // hd_dst_offset_min
    && Number(file, at + 84, 1, 0) // hd_time_flags
    && Number(file, at + 85, 1, 0) // hd_time_class
    && Number(file, at + 86, 1, 0) // hd_flags
    && Number(file, at + 87, 1, 0) // reserved
    && Number(file, at + 88, 8, 0) // hd_start_angle_rad
    && Number(file, at + 96, 8, 0) // hd_start_distance_m
  }

  lemma HdStands(file: Bytes, at: nat, dg: nat, fh: nat, startNs: Word)
    requires At(file, at, HdBlock(dg, fh, startNs))
    ensures IsHd(file, at, dg, fh, startNs)
  {
    hide LE, BlockHdr, At, Number, IsBlock;
    var b := HdBlock(dg, fh, startNs);
    assert b[..24] == BlockHdr("##HD", 104, 6);
    HeaderStands(file, at, b, "##HD", 104, 6);
    FieldIsNumber(file, at, b, 24, dg, 8);
    FieldIsNumber(file, at, b, 32, fh, 8);
    FieldIsNumber(file, at, b, 40, 0, 8);
    FieldIsNumber(file, at, b, 48, 0, 8);
    FieldIsNumber(file, at, b, 56, 0, 8);
    FieldIsNumber(file, at, b, 64, 0, 8);
    HdDataStands(file, at, dg, fh, startNs);
  }

  lemma HdDataStands(file: Bytes, at: nat, dg: nat, fh: nat, startNs: Word)
    requires At(file, at, HdBlock(dg, fh, startNs))
    ensures Number(file, at + 72, 8, startNs) && Number(file, at + 80, 2, 0) && Number(file, at + 82, 2, 0)
    ensures Number(file, at + 84, 1, 0) && Number(file, at + 85, 1, 0) && Number(file, at + 86, 1, 0)
    ensures Number(file, at + 87, 1, 0) && Number(file, at + 88, 8, 0) && Number(file, at + 96, 8, 0)
  {
    hide LE, BlockHdr, At, Number;
    var b := HdBlock(dg, fh, startNs);
    FieldIsNumber(file, at, b, 72, startNs, 8);
    FieldIsNumber(file, at, b, 80, 0, 2);
    FieldIsNumber(file, at, b, 82, 0, 2);
    FieldIsNumber(file, at, b, 84, 0, 1);
    FieldIsNumber(file, at, b, 85, 0, 1);
    FieldIsNumber(file, at, b, 86, 0, 1);
    FieldIsNumber(file, at, b, 87, 0, 1);
    FieldIsNumber(file, at, b, 88, 0, 8);
    LastField(b, 96, 0, 8);
    FieldIsNumber(file, at, b, 96, 0, 8);
  }

  /** The file history block. */
  predicate IsFh(file: Bytes, at: nat, startNs: Word) {
    && IsBlock(file, at, "##FH", 56, 2)
    && Number(file, at + 24, 8, 0) // fh_fh_next
    && Number(file, at + 32, 8, 0) // fh_md_comment
    && Number(file, at + 40, 8, startNs) // fh_time_ns
    && Number(file, at + 48, 2, 0) // fh_tz_offset_min
    && Number(file, at + 50, 2, 0) // fh_dst_offset_min
    && Number(file, at + 52, 1, 0) // fh_time_flags
    && Number(file, at + 53, 1, 0) // reserved
    && Number(file, at + 54, 2, 0) // reserved
  }

  lemma FhStands(file: Bytes, at: nat, startNs: Word)
    requires At(file, at, FhBlock(startNs))
    ensures IsFh(file, at, startNs)
  {
    hide LE, BlockHdr, At, Number, IsBlock;
    var b := FhBlock(startNs);
    assert b[..24] == BlockHdr("##FH", 56, 2);
    HeaderStands(file, at, b, "##FH", 56, 2);
    FieldIsNumber(file, at, b, 24, 0, 8);
    FieldIsNumber(file, at, b, 32, 0, 8);
    FieldIsNumber(file, at, b, 40, startNs, 8);
    FieldIsNumber(file, at, b, 48, 0, 2);
    FieldIsNumber(file, at, b, 50, 0, 2);
    FieldIsNumber(file, at, b, 52, 0, 1);
    FieldIsNumber(file, at, b, 53, 0, 1);
    LastField(b, 54, 0, 2);
    FieldIsNumber(file, at, b, 54, 0, 2);
  }

  /** The data group block. */
  predicate IsDg(file: Bytes, at: nat, firstCg: nat, dt: nat, recIdSize: Byte) {
    && IsBlock(file, at, "##DG", 64, 4)
    && Number(file, at + 24, 8, 0) // dg_dg_next
    && Number(file, at + 32, 8, firstCg) // dg_cg_first
    && Number(file, at + 40, 8, dt) // dg_data
    && Number(file, at + 48, 8, 0) // dg_md_comment
    && Number(file, at + 56, 1, recIdSize) // dg_rec_id_size
  }

  lemma DgStands(file: Bytes, at: nat, firstCg: nat, dt: nat, recIdSize: Byte)
    requires At(file, at, DgBlock(firstCg, dt, recIdSize))
    ensures IsDg(file, at, firstCg, dt, recIdSize)
  {
    hide LE, BlockHdr, At, Number, IsBlock;
    var b := DgBlock(firstCg, dt, recIdSize);
    assert b[..24] == BlockHdr("##DG", 64, 4);
    HeaderStands(file, at, b, "##DG", 64, 4);
    FieldIsNumber(file, at, b, 24, 0, 8);
    FieldIsNumber(file, at, b, 32, firstCg, 8);
    FieldIsNumber(file, at, b, 40, dt, 8);
    FieldIsNumber(file, at, b, 48, 0, 8);
    FieldIsNumber(file, at, b, 56, recIdSize, 1);
  }

  /** The source information block of a bus. */
  predicate IsSi(file: Bytes, at: nat, busType: Byte) {
    && IsBlock(file, at, "##SI", 56, 3)
    && Number(file, at + 24, 8, 0) // si_tx_name
    && Number(file, at + 32, 8, 0) // si_tx_path
    && Number(file, at + 40, 8, 0) // si_md_comment
    && Number(file, at + 48, 1, 2) // si_type: a bus
    && Number(file, at + 49, 1, busType) // si_bus_type
    && Number(file, at + 50, 1, 0) // si_flags
  }

  lemma SiStands(file: Bytes, at: nat, busType: Byte)
    requires At(file, at, SiBlock(busType))
    ensures IsSi(file, at, busType)
  {
    hide LE, BlockHdr, At, Number, IsBlock;
    var b := SiBlock(busType);
    assert b[..24] == BlockHdr("##SI", 56, 3);
    HeaderStands(file, at, b, "##SI", 56, 3);
    FieldIsNumber(file, at, b, 24, 0, 8);
    FieldIsNumber(file, at, b, 32, 0, 8);
    FieldIsNumber(file, at, b, 40, 0, 8);
    FieldIsNumber(file, at, b, 48, 2, 1);
    FieldIsNumber(file, at, b, 49, busType, 1);
    FieldIsNumber(file, at, b, 50, 0, 1);
  }

  /** A channel group block. */
  predicate IsCg(file: Bytes, at: nat, f: CgParams, count: nat) {
    && IsBlock(file, at, "##CG", 104, 6)
    && Number(file, at + 24, 8, f.next) // cg_cg_next
    && Number(file, at + 32, 8, f.cnFirst) // cg_cn_first
    && Number(file, at + 40, 8, f.txName) // cg_tx_acq_name
    && Number(file, at + 48, 8, f.si) // cg_si_acq_source
    && Number(file, at + 56, 8, 0) // cg_sr_first
    && Number(file, at + 64, 8, f.md) // cg_md_comment
    && Number(file, at + 72, 8, f.recordId) // cg_record_id
    && Number(file, at + 80, 8, count) // cg_cycle_count
    && Number(file, at + 88, 2, f.flags) // cg_flags
    && Number(file, at + 90, 2, f.separator) // cg_path_separator
    && Number(file, at + 92, 4, 0) // reserved
    && Number(file, at + 96, 4, f.dataBytes) // cg_data_bytes
    && Number(file, at + 100, 4, 0) // cg_inval_bytes
  }

  lemma CgStands(file: Bytes, at: nat, f: CgParams, count: nat)
    requires At(file, at, f.Block(count))
    ensures IsCg(file, at, f, count)
  {
    hide LE, BlockHdr, At, Number, IsBlock;
    var b := f.Block(count);
    assert b[..24] == BlockHdr("##CG", 104, 6);
    HeaderStands(file, at, b, "##CG", 104, 6);
    FieldIsNumber(file, at, b, 24, f.next, 8);
    FieldIsNumber(file, at, b, 32, f.cnFirst, 8);
    FieldIsNumber(file, at, b, 40, f.txName, 8);
    FieldIsNumber(file, at, b, 48, f.si, 8);
    FieldIsNumber(file, at, b, 56, 0, 8);
    FieldIsNumber(file, at, b, 64, f.md, 8);
    FieldIsNumber(file, at, b, 72, f.recordId, 8);
    FieldIsNumber(file, at, b, 80, count, 8);
    FieldIsNumber(file, at, b, 88, f.flags, 2);
    FieldIsNumber(file, at, b, 90, f.separator, 2);
    FieldIsNumber(file, at, b, 92, 0, 4);
    FieldIsNumber(file, at, b, 96, f.dataBytes, 4);
    LastField(b, 100, 0, 4);
    FieldIsNumber(file, at, b, 100, 0, 4);
  }

  /** A channel block. */
  predicate IsCn(file: Bytes, at: nat, f: CnParams) {
    && IsBlock(file, at, "##CN", 160, 8)
    && Number(file, at + 24, 8, f.next) // cn_cn_next
    && Number(file, at + 32, 8, f.composition) // cn_composition
    && Number(file, at + 40, 8, f.txName) // cn_tx_name
    && Number(file, at + 48, 8, 0) // cn_si_source
    && Number(file, at + 56, 8, 0) // cn_cc_conversion
    && Number(file, at + 64, 8, 0) // cn_data
    && Number(file, at + 72, 8, f.txUnit) // cn_md_unit
    && Number(file, at + 80, 8, 0) // cn_md_comment
    && Number(file, at + 88, 1, f.channelType) // cn_type
    && Number(file, at + 89, 1, f.syncType) // cn_sync_type
    && Number(file, at + 90, 1, f.dataType) // cn_data_type
    && Number(file, at + 91, 1, 0) // cn_bit_offset
    && Number(file, at + 92, 4, f.byteOffset) // cn_byte_offset
    && Number(file, at + 96, 4, f.bitCount) // cn_bit_count
    && Number(file, at + 100, 4, 0) // cn_flags
    && Number(file, at + 104, 4, 0) // cn_inval_bit_pos
    && Number(file, at + 108, 1, 0xFF) // cn_precision
    && Number(file, at + 109, 1, 0) // reserved
    && Number(file, at + 110, 2, 0) // cn_val_range_n
    && Number(file, at + 112, 8, 0) // cn_val_range_min
    && Number(file, at + 120, 8, 0) // cn_val_range_max
    && Number(file, at + 128, 8, 0) // cn_limit_min
    && Number(file, at + 136, 8, 0) // cn_limit_max
    && Number(file, at + 144, 8, 0) // cn_limit_ext_min
    && Number(file, at + 152, 8, 0) // cn_limit_ext_max
  }

  lemma CnLinksStand(file: Bytes, at: nat, f: CnParams)
    requires At(file, at, f.Links())
    ensures IsBlock(file, at, "##CN", 160, 8)
    ensures Number(file, at + 24, 8, f.next) && Number(file, at + 32, 8, f.composition)
    ensures Number(file, at + 40, 8, f.txName) && Number(file, at + 48, 8, 0)
    ensures Number(file, at + 56, 8, 0) && Number(file, at + 64, 8, 0)
    ensures Number(file, at + 72, 8, f.txUnit) && Number(file, at + 80, 8, 0)
  {
    hide LE, BlockHdr, At, Number, IsBlock;
    var b := f.Links();
    assert b[..24] == BlockHdr("##CN", 160, 8);
    HeaderStands(file, at, b, "##CN", 160, 8);
    FieldIsNumber(file, at, b, 24, f.next, 8);
    FieldIsNumber(file, at, b, 32, f.composition, 8);
    FieldIsNumber(file, at, b, 40, f.txName, 8);
    FieldIsNumber(file, at, b, 48, 0, 8);
    FieldIsNumber(file, at, b, 56, 0, 8);
    FieldIsNumber(file, at, b, 64, 0, 8);
    FieldIsNumber(file, at, b, 72, f.txUnit, 8);
    LastField(b, 80, 0, 8);
    FieldIsNumber(file, at, b, 80, 0, 8);
  }

  lemma CnDataStands(file: Bytes, at: nat, f: CnParams)
    requires At(file, at + 88, f.Data())
    ensures Number(file, at + 88, 1, f.channelType) && Number(file, at + 89, 1, f.syncType)
    ensures Number(file, at + 90, 1, f.dataType) && Number(file, at + 91, 1, 0)
    ensures Number(file, at + 92, 4, f.byteOffset) && Number(file, at + 96, 4, f.bitCount)
    ensures Number(file, at + 100, 4, 0) && Number(file, at + 104, 4, 0)
    ensures Number(file, at + 108, 1, 0xFF)
  {
    hide LE, At, Number;
    var b := f.Data();
    FieldIsNumber(file, at + 88, b, 0, f.channelType, 1);
    FieldIsNumber(file, at + 88, b, 1, f.syncType, 1);
    FieldIsNumber(file, at + 88, b, 2, f.dataType, 1);
    FieldIsNumber(file, at + 88, b, 3, 0, 1);
    FieldIsNumber(file, at + 88, b, 4, f.byteOffset, 4);
    FieldIsNumber(file, at + 88, b, 8, f.bitCount, 4);
    FieldIsNumber(file, at + 88, b, 12, 0, 4);
    FieldIsNumber(file, at + 88, b, 16, 0, 4);
    FieldIsNumber(file, at + 88, b, 20, 0xFF, 1);
  }

  lemma CnLimitsStand(file: Bytes, at: nat, f: CnParams)
    requires At(file, at + 88, f.Data())
    ensures Number(file, at + 109, 1, 0) && Number(file, at + 110, 2, 0)
    ensures Number(file, at + 112, 8, 0) && Number(file, at + 120, 8, 0)
    ensures Number(file, at + 128, 8, 0) && Number(file, at + 136, 8, 0)
    ensures Number(file, at + 144, 8, 0) && Number(file, at + 152, 8, 0)
  {
    hide LE, At, Number;
    var b := f.Data();
    FieldIsNumber(file, at + 88, b, 21, 0, 1);
    FieldIsNumber(file, at + 88, b, 22, 0, 2);
    FieldIsNumber(file, at + 88, b, 24, 0, 8);
    FieldIsNumber(file, at + 88, b, 32, 0, 8);
    FieldIsNumber(file, at + 88, b, 40, 0, 8);
    FieldIsNumber(file, at + 88, b, 48, 0, 8);
    FieldIsNumber(file, at + 88, b, 56, 0, 8);
    LastField(b, 64, 0, 8);
    FieldIsNumber(file, at + 88, b, 64, 0, 8);
  }

  lemma CnStands(file: Bytes, at: nat, f: CnParams)
    requires At(file, at, f.Block())
    ensures IsCn(file, at, f)
  {
    hide At, Number, IsBlock, CnParams.Links, CnParams.Data;
    AtLeft(file, at, f.Links(), f.Data());
    AtRight(file, at, f.Links(), f.Data());
    CnLinksStand(file, at, f);
    CnDataStands(file, at, f);
    CnLimitsStand(file, at, f);
  }

  /** A text block: the text, a NUL, and zeros up to a multiple of eight bytes. */
  predicate IsText(file: Bytes, at: nat, id: string, text: Bytes) {
    var length := 24 + (|text| + 8) / 8 * 8;
    && IsBlock(file, at, id, length, 0)
    && at + length <= |file| && file[at + 24..at + 24 + |text|] == text
    && forall i | at + 24 + |text| <= i < at + length :: file[i] == 0
  }

  lemma TextStands(file: Bytes, at: nat, id: string, text: Bytes)
    requires |id| == 4 && (forall i | 0 <= i < 4 :: id[i] as int < 256)
    requires At(file, at, BlockHdr(id, TxSize(text), 0) + TextPadded(text))
    ensures IsText(file, at, id, text)
  {
    hide LE, BlockHdr, At, Number, IsBlock;
    var hdr := BlockHdr(id, TxSize(text), 0);
    assert (hdr + TextPadded(text))[..24] == hdr;
    HeaderStands(file, at, hdr + TextPadded(text), id, TxSize(text), 0);
    AtRight(file, at, hdr, TextPadded(text));
    TextBytes(file, at + 24, text);
  }

  lemma TextBytes(file: Bytes, at: nat, text: Bytes)
    requires At(file, at, TextPadded(text))
    ensures at + (|text| + 8) / 8 * 8 <= |file| && file[at..at + |text|] == text
    ensures forall i | at + |text| <= i < at + (|text| + 8) / 8 * 8 :: file[i] == 0
  {
    var padded := TextPadded(text);
    assert |padded| == (|text| + 8) / 8 * 8;
    forall i | 0 <= i < |padded|
      ensures file[at + i] == padded[i]
    {
      assert file[at..at + |padded|][i] == padded[i];
    }
    forall i | at + |text| <= i < at + |padded|
      ensures file[i] == 0
    {
      assert file[at + (i - at)] == padded[i - at];
    }
    assert padded[..|text|] == text;
    forall i | 0 <= i < |text|
      ensures file[at + i] == text[i]
    {
      assert padded[i] == padded[..|text|][i];
    }
    assert file[at..at + |text|] == text;
  }

  /** The head of the data block. */
  predicate IsDt(file: Bytes, at: nat, length: nat) {
    IsBlock(file, at, "##DT", length, 0)
  }

  lemma DtStands(file: Bytes, at: nat, length: nat)
    requires At(file, at, DtHeader(length))
    ensures IsDt(file, at, length)
  {
    hide At, IsBlock, LE, Ascii;
    var b := DtHeader(length);
    assert |b| == 24 && b[..24] == b;
    HeaderStands(file, at, b, "##DT", length, 0);
  }

  /** The identification block. */
  predicate IsId(file: Bytes) {
    && |file| >= 64
    && Chars(file, 0, "MDF     ") && Chars(file, 8, "4.10    ")
    && Chars(file, 16, "CANcept") && file[23] == 32
    && Number(file, 24, 4, 0)
    && Number(file, 28, 2, 410) // id_ver
    && Number(file, 30, 2, 0) && Number(file, 32, 2, 0) && Number(file, 34, 2, 0)
    && forall i | 36 <= i < 64 :: file[i] == 0
  }

  lemma IdStands(file: Bytes)
    requires At(file, 0, IdBlock())
    ensures IsId(file)
  {
    var names := Ident("MDF     ", 8) + Ident("4.10    ", 8) + Ident("CANcept", 8);
    var b4 := names + LE(0, 4);
    var b5 := b4 + LE(410, 2);
    var b6 := b5 + LE(0, 2);
    var b7 := b6 + LE(0, 2);
    var b8 := b7 + LE(0, 2);
    assert IdBlock() == b8 + Zeros(28);
    hide LE, Ident, Zeros, At, Number, Chars, IdBlock;
    Peel(file, b8, Zeros(28));
    Peel(file, b7, LE(0, 2));
    Peel(file, b6, LE(0, 2));
    Peel(file, b5, LE(0, 2));
    Peel(file, b4, LE(410, 2));
    Peel(file, names, LE(0, 4));
    NumberAt(file, 24, 0, 4);
    NumberAt(file, 28, 410, 2);
    NumberAt(file, 30, 0, 2);
    NumberAt(file, 32, 0, 2);
    NumberAt(file, 34, 0, 2);
    IdZeros(file);
    IdNames(file);
  }

  lemma Peel(file: Bytes, a: Bytes, b: Bytes)
    requires At(file, 0, a + b)
    ensures At(file, 0, a) && At(file, |a|, b)
  {
    AtLeft(file, 0, a, b);
    AtRight(file, 0, a, b);
  }

  lemma NumberAt(file: Bytes, at: nat, v: nat, n: nat)
    requires At(file, at, LE(v, n))
    ensures Number(file, at, n, v)
  {
    hide LE;
    assert LE(v, n)[0..n] == LE(v, n);
    FieldIsNumber(file, at, LE(v, n), 0, v, n);
  }

  lemma IdZeros(file: Bytes)
    requires At(file, 36, Zeros(28))
    ensures |file| >= 64 && forall i | 36 <= i < 64 :: file[i] == 0
  {
    hide Zeros;
    SameBytes(file, 36, Zeros(28));
    forall i | 36 <= i < 64
      ensures file[i] == 0
    {
      assert file[36 + (i - 36)] == Zeros(28)[i - 36];
    }
  }

  lemma IdNames(file: Bytes)
    requires At(file, 0, Ident("MDF     ", 8) + Ident("4.10    ", 8) + Ident("CANcept", 8))
    ensures |file| >= 24
    ensures Chars(file, 0, "MDF     ") && Chars(file, 8, "4.10    ") && Chars(file, 16, "CANcept") && file[23] == 32
  {
    hide At, Ident, Chars;
    Peel(file, Ident("MDF     ", 8) + Ident("4.10    ", 8), Ident("CANcept", 8));
    Peel(file, Ident("MDF     ", 8), Ident("4.10    ", 8));
    IdentStands(file, 0, "MDF     ", 8);
    IdentStands(file, 8, "4.10    ", 8);
    IdentStands(file, 16, "CANcept", 8);
  }

  /** A name, filled up with spaces. */
  lemma IdentStands(file: Bytes, at: nat, s: string, width: nat)
    requires At(file, at, Ident(s, width)) && |s| <= width && forall i | 0 <= i < |s| :: s[i] as int < 256
    ensures Chars(file, at, s) && at + width <= |file| && forall i | at + |s| <= i < at + width :: file[i] == 32
  {
    hide Ascii, Spaces, Ident;
    IdentIs(s, width);
    AreSpaces(width - |s|);
    SameBytes(file, at, Ident(s, width));
    CharsOf(file, at, s, Spaces(width - |s|));
  }

  lemma IdentIs(s: string, width: nat)
    requires |s| <= width
    ensures Ident(s, width) == Ascii(s) + Spaces(width - |s|)
  {
    hide Ascii, Spaces;
    assert s[..|s|] == s;
    if width == |s| { NoSpaces(); }
  }

  lemma NoSpaces()
    ensures Spaces(0) == []
  {
  }

  lemma CharsOf(file: Bytes, at: nat, s: string, fill: Bytes)
    requires forall i | 0 <= i < |s| :: s[i] as int < 256
    requires forall i | 0 <= i < |fill| :: fill[i] == 32
    requires at + |s| + |fill| <= |file| && forall i | 0 <= i < |s| + |fill| :: file[at + i] == (Ascii(s) + fill)[i]
    ensures Chars(file, at, s) && forall i | at + |s| <= i < at + |s| + |fill| :: file[i] == 32
  {
    hide Ascii;
    forall k | 0 <= k < |s|
      ensures file[at + k] == s[k] as int
    {
      assert file[at + k] == (Ascii(s) + fill)[k] == Ascii(s)[k];
    }
    forall i | at + |s| <= i < at + |s| + |fill|
      ensures file[i] == 32
    {
      assert file[at + (i - at)] == (Ascii(s) + fill)[i - at] == fill[i - at - |s|];
    }
  }

  lemma {:induction false} AreSpaces(n: nat)
    ensures forall i | 0 <= i < n :: Spaces(n)[i] == 32
  {
    if n > 0 { AreSpaces(n - 1); }
  }

  lemma SameBytes(file: Bytes, at: nat, part: Bytes)
    requires At(file, at, part)
    ensures at + |part| <= |file| && forall i | 0 <= i < |part| :: file[at + i] == part[i]
  {
    forall i | 0 <= i < |part|
      ensures file[at + i] == part[i]
    {
      assert file[at..at + |part|][i] == part[i];
    }
  }

  // ----- The closed file

  /** A channel: its block, with links to its name, its unit, and the channels behind and below it. */
  predicate ChannelIsLinked(file: Bytes, g: Group, base: nat, c: nat)
    requires c < |g.channels|
  {
    var ch, f := g.channels[c], CnFields(g, base, c);
    && IsCn(file, CnPos(g, base, c), f)
    && IsText(file, f.txName, "##TX", ch.name)
    && (if ch.unit == [] then f.txUnit == 0 else IsText(file, f.txUnit, "##TX", ch.unit))
    && f.channelType == ch.channelType && f.syncType == ch.syncType && f.dataType == ch.dataType
    && f.byteOffset == ch.byteOffset && f.bitCount == ch.bitCount
    && f.next == (if ch.chained && c + 1 < |g.channels| then CnPos(g, base, c + 1) else 0)
    && f.composition == (if ch.composed && c + 1 < |g.channels| then CnPos(g, base, c + 1) else 0)
  }

  /** A group: its block, with links to its name, its MD or SI block, its first channel and the next group. */
  predicate GroupIsLinked(file: Bytes, groups: seq<Group>, k: nat, count: nat)
    requires k < |groups|
  {
    var g, base := groups[k], GroupPos(groups, k);
    var f := CgFields(g, base, CgLink(groups, k + 1));
    && IsCg(file, CgPos(g, base), f, count)
    && IsText(file, f.txName, "##TX", g.name)
    && (if g.metaIsMd then f.si == 0 && At(file, f.md, g.meta) else f.md == 0 && At(file, f.si, g.meta))
    && f.recordId == g.recordId && f.flags == g.flags && f.separator == g.separator && f.dataBytes == g.dataBytes
    && f.cnFirst == (if g.channels == [] then 0 else CnPos(g, base, 0))
    && f.next == (if k + 1 < |groups| then CgPos(groups[k + 1], GroupPos(groups, k + 1)) else 0)
    && forall c | 0 <= c < |g.channels| :: ChannelIsLinked(file, g, base, c)
  }

  /** The image of a session: from the header every link leads on to the block that it is meant for. */
  ghost predicate IsLinked(file: Bytes, groups: seq<Group>, recIdSize: Byte, startNs: Word, counts: seq<nat>,
                           dtLength: nat)
    requires |counts| == |groups|
  {
    var dg, fh, dt := 224, 168, DtPos(groups);
    && IsId(file)
    && IsHd(file, 64, dg, fh, startNs)
    && IsFh(file, fh, startNs)
    && IsDg(file, dg, if groups == [] then 0 else CgPos(groups[0], GroupPos(groups, 0)), dt, recIdSize)
    && (forall k | 0 <= k < |groups| :: GroupIsLinked(file, groups, k, counts[k]))
    && IsDt(file, dt, dtLength)
  }

  lemma ChannelLinks(file: Bytes, g: Group, base: nat, next: nat, count: nat, c: nat)
    requires At(file, base, GroupBytes(g, base, next, count)) && c < |g.channels|
    ensures ChannelIsLinked(file, g, base, c)
  {
    hide TxBlock, GroupBytes, At, IsCn, IsText, ChannelPos, CnPos, UnitPos;
    ChannelParts(file, g, base, next, count, c);
    CnStands(file, CnPos(g, base, c), CnFields(g, base, c));
    NameStands(file, ChannelPos(g, base, c), g.channels[c].name);
    if g.channels[c].unit == [] {
      NoUnit(g, base, c);
    } else {
      NameStands(file, UnitPos(g, base, c), g.channels[c].unit);
    }
  }

  lemma NoUnit(g: Group, base: nat, c: nat)
    requires c < |g.channels| && g.channels[c].unit == []
    ensures UnitPos(g, base, c) == 0
  {
  }

  lemma NameStands(file: Bytes, at: nat, text: Bytes)
    requires At(file, at, TxBlock(text))
    ensures IsText(file, at, "##TX", text)
  {
    hide BlockHdr, TextPadded, At, IsText, TxSize;
    TextStands(file, at, "##TX", text);
  }

  lemma {:induction false} GroupLinks(file: Bytes, groups: seq<Group>, k: nat, count: nat)
    requires k < |groups|
    requires At(file, GroupPos(groups, k), GroupBytes(groups[k], GroupPos(groups, k), CgLink(groups, k + 1), count))
    ensures GroupIsLinked(file, groups, k, count)
  {
    hide TxBlock, GroupBytes, At, IsCg, IsText, ChannelIsLinked, CnPos, CgPos, GroupPos, MetaPos;
    var g, base := groups[k], GroupPos(groups, k);
    var next := CgLink(groups, k + 1);
    GroupParts(file, g, base, next, count);
    CgStands(file, CgPos(g, base), CgFields(g, base, next), count);
    NameStands(file, base, g.name);
    forall c | 0 <= c < |g.channels|
      ensures ChannelIsLinked(file, g, base, c)
    {
      ChannelLinks(file, g, base, next, count, c);
    }
  }

  /** Every image that the writer leaves, whatever its groups, counts and records. */
  lemma ImageIsLinked(groups: seq<Group>, recIdSize: Byte, startNs: Word, counts: seq<nat>, dtLength: nat, body: Bytes)
    requires |counts| == |groups|
    ensures IsLinked(Image(groups, recIdSize, startNs, counts, dtLength, body), groups, recIdSize, startNs, counts,
                     dtLength)
  {
    hide Image, GroupBytes, GroupsBytes, DtHeader, At, Prologue, GroupIsLinked, IsHd, IsFh, IsDg, IsDt, IsId, GroupPos,
         FhBlock, DgBlock, HdBlock, IdBlock, CgPos;
    var file := Image(groups, recIdSize, startNs, counts, dtLength, body);
    ImageParts(groups, recIdSize, startNs, counts, dtLength, body);
    PrologueParts(file, groups, recIdSize, startNs);
    FrontParts(file, groups, recIdSize, startNs);
    IdStands(file);
    HdStands(file, 64, DG_POS, FH_POS, startNs);
    FhStands(file, FH_POS, startNs);
    DgStands(file, DG_POS, CgLink(groups, 0), DtPos(groups), recIdSize);
    DtStands(file, DtPos(groups), dtLength);
    forall k | 0 <= k < |groups|
      ensures GroupIsLinked(file, groups, k, counts[k])
    {
      GroupAmong(file, groups, |groups|, counts, k);
      GroupLinks(file, groups, k, counts[k]);
    }
  }

  lemma FrontParts(file: Bytes, groups: seq<Group>, recIdSize: Byte, startNs: Word)
    requires At(file, 0, Prologue(groups, recIdSize, startNs))
    ensures At(file, 0, IdBlock()) && At(file, 64, HdBlock(DG_POS, FH_POS, startNs))
  {
    hide IdBlock, HdBlock, FhBlock, DgBlock, At, CgLink, GroupPos;
    var id, hd, fh := IdBlock(), HdBlock(DG_POS, FH_POS, startNs), FhBlock(startNs);
    var dg := DgBlock(CgLink(groups, 0), DtPos(groups), recIdSize);
    AtLeft(file, 0, id + hd + fh, dg);
    AtLeft(file, 0, id + hd, fh);
    AtRight(file, 0, id, hd);
    AtLeft(file, 0, id, hd);
  }
}
