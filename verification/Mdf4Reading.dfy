/**
 What the reader finds in any file, by the offsets that the ASAM MDF 4.10 standard gives to the fields: the walks go
 from block to block along the stored links (src/can_stream/reader/mdf4_reader.cpp:145-332).
 */
module Mdf4Reading {
  import opened Bits
  import opened CanTypes
  import opened Mdf4Format
  import opened Mdf4Walks
  import opened Mdf4Fields

  // ----- Fields

  /** The n bytes that stand p behind the block hold v.  Positions are counted modulo 2^64. */
  predicate Holds(file: Bytes, block: Word, p: nat, n: nat, v: nat) {
    v < Pow2(8 * n) && Number(file, (block + p) % 0x1_0000_0000_0000_0000, n, v)
  }

  predicate Missing(file: Bytes, block: Word, p: nat, n: nat) {
    (block + p) % 0x1_0000_0000_0000_0000 + n > |file|
  }

  lemma {:induction false} BytesOfNumber(s: Bytes)
    ensures LE(FromLE(s), |s|) == s
  {
    if s != [] {
      BytesOfNumber(s[1..]);
      assert FromLE(s) / 256 == FromLE(s[1..]) && FromLE(s) % 256 == s[0];
    }
  }

  lemma SliceIsNumber(file: Bytes, at: nat, n: nat)
    requires at + n <= |file|
    ensures FromLE(file[at..at + n]) < Pow2(8 * n) && Number(file, at, n, FromLE(file[at..at + n]))
  {
    hide LE, FromLE, Number;
    var s := file[at..at + n];
    FromLEBound(s);
    BytesOfNumber(s);
    NumberAt(file, at, FromLE(s), n);
  }

  lemma IntIsRead(file: Contents, block: Word, p: nat, n: nat)
    ensures match ReadInt(file, Plus(block, p), n)
            case Some(v) => Holds(file, block, p, n, v)
            case None => Missing(file, block, p, n)
  {
    hide FromLE, Number;
    if Plus(block, p) + n <= |file| { SliceIsNumber(file, Plus(block, p), n); }
  }

  lemma LinkIsRead(file: Contents, block: Word, p: nat)
    ensures match ReadLink(file, Plus(block, p))
            case Some(v) => Holds(file, block, p, 8, v)
            case None => Missing(file, block, p, 8)
  {
    IntIsRead(file, block, p, 8);
  }

  lemma ByteOfNumber(file: Bytes, at: nat, n: nat, v: nat, k: nat)
    requires Number(file, at, n, v) && k < n
    ensures file[at + k] == v / Pow2(8 * k) % 256
  {
  }

  /** A field holds one number only. */
  lemma HoldsOne(file: Bytes, block: Word, p: nat, n: nat, v: nat, w: nat)
    requires Holds(file, block, p, n, v) && Holds(file, block, p, n, w)
    ensures v == w
  {
    hide LE, Pow2, Number;
    NumberByBytes(v, n);
    NumberByBytes(w, n);
    var a, b, at := LE(v, n), LE(w, n), (block + p) % 0x1_0000_0000_0000_0000;
    forall k | 0 <= k < n
      ensures a[k] == b[k]
    {
      ByteOfNumber(a, 0, n, v, k);
      ByteOfNumber(b, 0, n, w, k);
      ByteOfNumber(file, at, n, v, k);
      ByteOfNumber(file, at, n, w, k);
    }
    assert a == b;
    FromLEInverts(v, n);
    FromLEInverts(w, n);
  }

  /** A text: the bytes behind a block's head, up to a NUL or the end of the file. */
  predicate IsName(file: Bytes, block: Word, name: Bytes) {
    var start := (block + 24) % 0x1_0000_0000_0000_0000;
    if start >= |file| then name == []
    else
      var end := start + |name|;
      end <= |file| && file[start..end] == name && 0 !in name && (end < |file| ==> file[end] == 0)
  }

  lemma {:induction false} UpToNulEnds(s: Bytes)
    ensures var t := UpToNul(s); |t| <= |s| && s[..|t|] == t && 0 !in t && (|t| < |s| ==> s[|t|] == 0)
  {
    if s != [] && s[0] != 0 {
      UpToNulEnds(s[1..]);
      assert s == [s[0]] + s[1..];
    }
  }

  lemma TextIsName(file: Contents, block: Word)
    ensures IsName(file, block, ReadText(file, block))
  {
    hide UpToNul;
    var start := Plus(block, 24);
    if start < |file| {
      UpToNulEnds(file[start..]);
      var t := UpToNul(file[start..]);
      assert file[start..start + |t|] == file[start..][..|t|];
    }
  }

  // ----- The channels of a group

  /** A place on a walk along channels, with the signal names and column headers found so far. */
  datatype CnState = CnState(at: Word, names: seq<Bytes>, headers: seq<Bytes>)

  /** A name is a header once; the master channel is no signal; a channel without a name is passed over. */
  ghost predicate CnNamed(file: Bytes, s: CnState, t: CnState, tx: Word, sync: Byte, name: Bytes) {
    && Holds(file, s.at, 24, 8, t.at) && Holds(file, s.at, 40, 8, tx) && Holds(file, s.at, 89, 1, sync)
    && if tx == 0 then t.names == s.names && t.headers == s.headers
       else
         && IsName(file, tx, name)
         && t.names == (if sync == 1 then s.names else s.names + [name])
         && t.headers == (if name in s.headers then s.headers else s.headers + [name])
  }

  ghost predicate CnStep(file: Bytes, s: CnState, t: CnState) {
    s.at != 0 && exists tx, sync, name :: CnNamed(file, s, t, tx, sync, name)
  }

  predicate CnStuck(file: Bytes, s: CnState) {
    s.at != 0 && (Missing(file, s.at, 24, 8) || Missing(file, s.at, 40, 8) || Missing(file, s.at, 89, 1))
  }

  /** The walk comes from one place to the other in n steps. */
  ghost predicate CnReaches(file: Bytes, s: CnState, t: CnState, n: nat)
    decreases n
  {
    if n == 0 then s == t else exists m :: CnStep(file, s, m) && CnReaches(file, m, t, n - 1)
  }

  lemma CnGoesOn(file: Bytes, s: CnState, m: CnState, t: CnState, n: nat)
    requires CnStep(file, s, m) && CnReaches(file, m, t, n)
    ensures CnReaches(file, s, t, n + 1)
  {
    hide CnStep;
  }

  /** The walk over the channels of a group ends behind the last one, or at a block that is cut off. */
  lemma {:induction false} ChannelsAreWalked(file: Contents, s: CnState, fuel: nat) returns (t: CnState, n: nat)
    ensures CnReaches(file, s, t, n)
    ensures match WalkChannels(file, s.at, s.names, s.headers, fuel)
            case Done((names, headers)) => t == CnState(0, names, headers)
            case Fails => CnStuck(file, t)
            case Loops => t.at != 0 && n == fuel
            case Throws => false
    decreases fuel
  {
    hide ReadLink, ReadInt, Plus, ReadText, Holds, IsName, Missing, CnStep;
    t, n := s, 0;
    if s.at != 0 && fuel > 0 {
      LinkIsRead(file, s.at, 24);
      LinkIsRead(file, s.at, 40);
      IntIsRead(file, s.at, 89, 1);
      var next, tx, sync := ReadLink(file, Plus(s.at, 24)), ReadLink(file, Plus(s.at, 40)),
        ReadInt(file, Plus(s.at, 89), 1);
      if next.Some? && tx.Some? && sync.Some? {
        var name := ReadText(file, tx.value);
        TextIsName(file, tx.value);
        ByteIsSmall(file, s.at, 89, sync.value);
        var m := if tx.value == 0 then s.(at := next.value)
        else
          CnState(next.value, if sync.value != 1 then s.names + [name] else s.names, AddHeader(s.headers, name));
        CnIsStep(file, s, m, tx.value, sync.value, name);
        t, n := ChannelsAreWalked(file, m, fuel - 1);
        CnGoesOn(file, s, m, t, n);
        n := n + 1;
      }
    }
  }

  lemma ByteIsSmall(file: Bytes, block: Word, p: nat, v: nat)
    requires Holds(file, block, p, 1, v)
    ensures v < 256
  {
    Pow2Values();
  }

  lemma CnIsStep(file: Bytes, s: CnState, t: CnState, tx: Word, sync: Byte, name: Bytes)
    requires s.at != 0 && CnNamed(file, s, t, tx, sync, name)
    ensures CnStep(file, s, t)
  {
    hide CnNamed;
  }

  // ----- The groups of a DBC session

  predicate OccursAt(s: Bytes, text: string, p: nat) {
    p + |text| <= |s| && forall k | 0 <= k < |text| :: s[p + k] == text[k] as int
  }

  predicate FirstAt(s: Bytes, text: string, p: nat) {
    OccursAt(s, text, p) && forall q | 0 <= q < p :: !OccursAt(s, text, q)
  }

  predicate Occurs(s: Bytes, text: string) {
    exists p | 0 <= p < |s| :: OccursAt(s, text, p)
  }

  lemma {:induction false} FindIsFirst(s: Bytes, text: string)
    requires text != "" && forall k | 0 <= k < |text| :: text[k] as int < 256
    ensures match Find(s, Ascii(text)) case Some(p) => FirstAt(s, text, p) case None => !Occurs(s, text)
    decreases |s|
  {
    hide Ascii;
    var pattern := Ascii(text);
    assert |s| >= |text| ==> (s[..|text|] == pattern <==> OccursAt(s, text, 0)) by {
      if |s| >= |text| && OccursAt(s, text, 0) {
        forall k | 0 <= k < |text|
          ensures s[..|text|][k] == pattern[k]
        {
          assert s[0 + k] == text[k] as int;
        }
      }
      if |s| >= |text| && s[..|text|] == pattern {
        forall k | 0 <= k < |text|
          ensures s[0 + k] == text[k] as int
        {
          assert s[..|text|][k] == pattern[k];
        }
      }
    }
    if |s| >= |text| && s[..|text|] != pattern {
      FindIsFirst(s[1..], text);
      forall p | 0 < p <= |s|
        ensures OccursAt(s, text, p) <==> OccursAt(s[1..], text, p - 1)
      {
        OccursShifted(s, text, p);
      }
    }
  }

  lemma OccursShifted(s: Bytes, text: string, p: nat)
    requires 0 < p <= |s|
    ensures OccursAt(s, text, p) <==> OccursAt(s[1..], text, p - 1)
  {
    if p + |text| <= |s| {
      assert forall k {:trigger text[k]} | 0 <= k < |text| :: s[p + k] == s[1..][p - 1 + k];
    }
  }

  /** What stands between the first tags, or from the first one on if they come the other way round. */
  ghost predicate IsTagged(xml: Bytes, text: Bytes) {
    exists start: nat, end: nat ::
      && FirstAt(xml, "<id>0x", start) && FirstAt(xml, "</id>", end)
      && text == if end < start + 6 then xml[start + 6..] else xml[start + 6..end]
  }

  predicate HasTags(xml: Bytes) {
    Occurs(xml, "<id>0x") && Occurs(xml, "</id>")
  }

  /** A hexadecimal digit of either case, by its code. */
  predicate IsHex(c: Byte, v: nat) {
    (v < 10 && c == 48 + v) || (10 <= v < 16 && (c == 55 + v || c == 87 + v))
  }

  lemma HexIsRead(c: Byte, v: nat)
    ensures DigitValue(c) == Some(v) <==> IsHex(c, v)
  {
  }

  /** A number ends before the first byte that is no digit. */
  lemma {:induction false} DigitsEnd(digits: Bytes, rest: Bytes, acc: nat)
    requires (forall k | 0 <= k < |digits| :: DigitValue(digits[k]).Some?) && !StartsWithDigit(rest)
    ensures DigitsValue(digits + rest, acc) == DigitsValue(digits, acc)
    decreases |digits|
  {
    hide DigitValue;
    if digits == [] {
      assert digits + rest == rest;
    } else {
      assert (digits + rest)[1..] == digits[1..] + rest;
      DigitsEnd(digits[1..], rest, 16 * acc + DigitValue(digits[0]).value);
    }
  }

  /** A further digit counts sixteen times what stands in front of it, plus itself. */
  lemma {:induction false} DigitsWeigh(digits: Bytes, c: Byte, v: nat, acc: nat)
    requires (forall k | 0 <= k < |digits| :: DigitValue(digits[k]).Some?) && IsHex(c, v)
    ensures DigitsValue(digits + [c], acc) == 16 * DigitsValue(digits, acc) + v
    decreases |digits|
  {
    HexIsRead(c, v);
    hide DigitValue, IsHex;
    if digits == [] {
      assert digits + [c] == [c] && [c][1..] == [];
    } else {
      assert (digits + [c])[1..] == digits[1..] + [c];
      DigitsWeigh(digits[1..], c, v, 16 * acc + DigitValue(digits[0]).value);
    }
  }

  lemma {:induction false} SpaceIsSkipped(spaces: Bytes, rest: Bytes)
    requires forall k | 0 <= k < |spaces| :: spaces[k] in {9, 10, 11, 12, 13, 32}
    requires rest != [] && rest[0] !in {9, 10, 11, 12, 13, 32}
    ensures SkipSpace(spaces + rest) == rest
    decreases |spaces|
  {
    if spaces == [] {
      assert spaces + rest == rest;
    } else {
      assert (spaces + rest)[1..] == spaces[1..] + rest;
      SpaceIsSkipped(spaces[1..], rest);
    }
  }

  /** The text is a number: digits behind spaces, a sign and "0x", each of them optional. */
  predicate IsNumberText(spaces: Bytes, sign: Bytes, prefix: Bytes, digits: Bytes, rest: Bytes) {
    && (forall k | 0 <= k < |spaces| :: spaces[k] in {9, 10, 11, 12, 13, 32})
    && (sign == [] || sign == [43] || sign == [45])
    && (prefix == [48, 120] || prefix == [48, 88] || (prefix == [] && |digits| > 1 && digits[1] !in {88, 120})
        || (prefix == [] && |digits| == 1 && (rest == [] || rest[0] !in {88, 120})))
    && digits != [] && (forall k | 0 <= k < |digits| :: DigitValue(digits[k]).Some?)
    && !StartsWithDigit(rest)
  }

  /** What std::stoul makes of such a text: it throws beyond 64 bits, and a minus sign counts down from 2^64. */
  lemma NumberTextIsRead(spaces: Bytes, sign: Bytes, prefix: Bytes, digits: Bytes, rest: Bytes)
    requires IsNumberText(spaces, sign, prefix, digits, rest)
    ensures var v := DigitsValue(digits, 0);
            StoulHex(spaces + (sign + (prefix + (digits + rest))))
            == if v >= 0x1_0000_0000_0000_0000 then None
               else Some(if sign == [45] && v > 0 then 0x1_0000_0000_0000_0000 - v else v)
  {
    hide DigitsValue, SkipSpace, SkipHexPrefix, DigitValue, IsNumberText;
    var number := prefix + (digits + rest);
    var signed := sign + number;
    FrontOfNumber(spaces, sign, prefix, digits, rest);
    SpaceIsSkipped(spaces, signed);
    SignIsSkipped(sign, number);
    PrefixIsSkipped(spaces, sign, prefix, digits, rest);
    DigitsEnd(digits, rest, 0);
  }

  lemma SignIsSkipped(sign: Bytes, number: Bytes)
    requires (sign == [] || sign == [43] || sign == [45]) && number != [] && number[0] != 43 && number[0] != 45
    ensures var s := sign + number;
            && s != [] && (s[0] == 45 <==> sign == [45])
            && number == if s[0] == 45 || s[0] == 43 then s[1..] else s
  {
  }

  lemma FrontOfNumber(spaces: Bytes, sign: Bytes, prefix: Bytes, digits: Bytes, rest: Bytes)
    requires IsNumberText(spaces, sign, prefix, digits, rest)
    ensures forall k | 0 <= k < |spaces| :: spaces[k] in {9, 10, 11, 12, 13, 32}
    ensures sign == [] || sign == [43] || sign == [45]
    ensures forall k | 0 <= k < |digits| :: DigitValue(digits[k]).Some?
    ensures !StartsWithDigit(rest) && StartsWithDigit(digits + rest)
    ensures var number := prefix + (digits + rest);
            number != [] && number[0] !in {9, 10, 11, 12, 13, 32, 43, 45}
            && (sign + number)[0] !in {9, 10, 11, 12, 13, 32}
  {
    assert (digits + rest)[0] == digits[0];
    if prefix == [] { assert (prefix + (digits + rest))[0] == digits[0]; }
  }

  lemma PrefixIsSkipped(spaces: Bytes, sign: Bytes, prefix: Bytes, digits: Bytes, rest: Bytes)
    requires IsNumberText(spaces, sign, prefix, digits, rest)
    ensures SkipHexPrefix(prefix + (digits + rest)) == digits + rest
  {
    var s := prefix + (digits + rest);
    if prefix == [] {
      assert s == digits + rest;
      if |s| > 1 { assert s[1] == if |digits| > 1 then digits[1] else rest[0]; }
    } else {
      assert s[2..] == digits + rest && (digits + rest)[0] == digits[0];
    }
  }

  /** The group has a readable MD block with both tags. */
  ghost predicate IsTaggedGroup(file: Bytes, cg: Word, md: Word, xml: Bytes) {
    md != 0 && Holds(file, cg, 64, 8, md) && IsName(file, md, xml) && HasTags(xml)
  }

  /** Without an MD block, or without its tags, the record identifier is all there is. */
  ghost predicate IsUntaggedGroup(file: Bytes, cg: Word) {
    || Missing(file, cg, 64, 8) || Holds(file, cg, 64, 8, 0)
    || exists md: Word, xml :: Holds(file, cg, 64, 8, md) && IsName(file, md, xml) && !HasTags(xml)
  }

  /** The low sixteen bits of the hexadecimal number between the tags, or of the record identifier. */
  ghost predicate IsMsgId(file: Bytes, cg: Word, recordId: Word, id: nat) {
    || (exists md: Word, xml, text :: IsTaggedGroup(file, cg, md, xml) && IsTagged(xml, text)
                                      && StoulHex(text).Some? && id == StoulHex(text).value % 0x1_0000)
    || (IsUntaggedGroup(file, cg) && id == recordId % 0x1_0000)
  }

  /** No number stands between the tags. */
  ghost predicate HasBadId(file: Bytes, cg: Word) {
    exists md: Word, xml, text :: IsTaggedGroup(file, cg, md, xml) && IsTagged(xml, text) && StoulHex(text) == None
  }

  lemma FirstOccurs(s: Bytes, text: string, p: nat)
    requires FirstAt(s, text, p) && text != ""
    ensures Occurs(s, text)
  {
    hide OccursAt;
    assert OccursAt(s, text, p) && p < |s| by { InsideText(s, text, p); }
  }

  lemma InsideText(s: Bytes, text: string, p: nat)
    requires OccursAt(s, text, p) && text != ""
    ensures OccursAt(s, text, p) && p < |s|
  {
  }

  lemma TagsAreFound(xml: Bytes)
    ensures var start, end := Find(xml, Ascii("<id>0x")), Find(xml, Ascii("</id>"));
            && (start.Some? && end.Some? <==> HasTags(xml))
            && (start.Some? && end.Some? ==> start.value + 6 <= |xml| && end.value <= |xml|
                                             && IsTagged(xml, Between(xml, start.value + 6, end.value)))
  {
    hide Ascii, Occurs, FirstAt;
    FindIsFirst(xml, "<id>0x");
    FindIsFirst(xml, "</id>");
    var start, end := Find(xml, Ascii("<id>0x")), Find(xml, Ascii("</id>"));
    if start.Some? { FirstOccurs(xml, "<id>0x", start.value); }
    if end.Some? { FirstOccurs(xml, "</id>", end.value); }
  }

  lemma MsgIdIsRead(file: Contents, cg: Word, recordId: Word)
    ensures match GroupMsgId(file, cg, recordId)
            case Done(id) => IsMsgId(file, cg, recordId, id)
            case Throws => HasBadId(file, cg)
            case _ => false
  {
    hide ReadLink, Plus, ReadText, Holds, Missing, IsName, Ascii, HasTags, IsTagged, StoulHex;
    LinkIsRead(file, cg, 64);
    var md := ReadLink(file, Plus(cg, 64));
    if md.Some? && md.value != 0 {
      var xml := ReadText(file, md.value);
      TextIsName(file, md.value);
      TagsAreFound(xml);
      var start, end := Find(xml, Ascii("<id>0x")), Find(xml, Ascii("</id>"));
      if start.Some? && end.Some? {
        assert IsTaggedGroup(file, cg, md.value, xml);
        assert IsTagged(xml, Between(xml, start.value + 6, end.value));
      }
    }
  }

  /** A place on a walk along groups. */
  datatype CgState = CgState(at: Word, groups: seq<DbcGroupInfo>, headers: seq<Bytes>)

  /** The fields of a group block that are read. */
  datatype CgFound = CgFound(cnFirst: Word, recordId: Word, dataBytes: nat, msgId: nat)

  ghost predicate CgHas(file: Bytes, cg: Word, f: CgFound) {
    && Holds(file, cg, 32, 8, f.cnFirst) && Holds(file, cg, 72, 8, f.recordId) && Holds(file, cg, 96, 4, f.dataBytes)
    && IsMsgId(file, cg, f.recordId, f.msgId)
  }

  ghost predicate CgNamed(file: Bytes, s: CgState, t: CgState, f: CgFound, names: seq<Bytes>, n: nat) {
    && Holds(file, s.at, 24, 8, t.at) && CgHas(file, s.at, f)
    && CnReaches(file, CnState(f.cnFirst, [], s.headers), CnState(0, names, t.headers), n)
    && t.groups == s.groups + [DbcGroupInfo(f.recordId % 256, f.dataBytes, f.msgId, names)]
  }

  ghost predicate CgStep(file: Bytes, s: CgState, t: CgState) {
    s.at != 0 && exists f, names, n :: CgNamed(file, s, t, f, names, n)
  }

  /** The block of a group, or one of its channels, is cut off. */
  ghost predicate CgStuck(file: Bytes, s: CgState) {
    && s.at != 0
    && (|| Missing(file, s.at, 24, 8) || Missing(file, s.at, 32, 8) || Missing(file, s.at, 72, 8)
        || Missing(file, s.at, 96, 4)
        || exists cn: Word, t, n :: Holds(file, s.at, 32, 8, cn) && CnReaches(file, CnState(cn, [], s.headers), t, n)
                                    && CnStuck(file, t))
  }

  ghost predicate CgReaches(file: Bytes, s: CgState, t: CgState, n: nat)
    decreases n
  {
    if n == 0 then s == t else exists m :: CgStep(file, s, m) && CgReaches(file, m, t, n - 1)
  }

  lemma CgGoesOn(file: Bytes, s: CgState, m: CgState, t: CgState, n: nat)
    requires CgStep(file, s, m) && CgReaches(file, m, t, n)
    ensures CgReaches(file, s, t, n + 1)
  {
    hide CgStep;
  }

  lemma CgIsStep(file: Bytes, s: CgState, t: CgState, f: CgFound, names: seq<Bytes>, n: nat)
    requires s.at != 0 && CgNamed(file, s, t, f, names, n)
    ensures CgStep(file, s, t)
  {
    hide CgNamed;
  }

  lemma CgIsStuck(file: Bytes, s: CgState, cn: Word, t: CnState, n: nat)
    requires s.at != 0 && Holds(file, s.at, 32, 8, cn)
    requires CnReaches(file, CnState(cn, [], s.headers), t, n) && CnStuck(file, t)
    ensures CgStuck(file, s)
  {
    hide Holds, CnReaches, CnStuck;
  }

  /**
   The walk over the groups ends behind the last one; it fails at a block that is cut off, or without any group, and
   throws at a group whose identifier is no number.
   */
  lemma {:induction false} GroupsAreWalked(file: Contents, s: CgState, fuel: nat) returns (t: CgState, n: nat)
    ensures CgReaches(file, s, t, n)
    ensures match WalkGroups(file, s.at, s.groups, s.headers, fuel)
            case Done((groups, headers)) => t == CgState(0, groups, headers) && groups != []
            case Fails => CgStuck(file, t) || (t.at == 0 && t.groups == [])
            case Throws => t.at != 0 && HasBadId(file, t.at)
            case Loops => true
    decreases fuel
  {
    hide ReadLink, ReadInt, Plus, Holds, Missing, CnReaches, CgStep, WalkChannels, GroupMsgId, IsMsgId, HasBadId,
         CnStuck, CgStuck;
    t, n := s, 0;
    if s.at != 0 && fuel > 0 {
      var next, cn := ReadLink(file, Plus(s.at, 24)), ReadLink(file, Plus(s.at, 32));
      var recordId, dataBytes := ReadLink(file, Plus(s.at, 72)), ReadInt(file, Plus(s.at, 96), 4);
      GroupFields(file, s);
      if next.Some? && cn.Some? && recordId.Some? && dataBytes.Some? {
        MsgIdIsRead(file, s.at, recordId.value);
        var id := GroupMsgId(file, s.at, recordId.value);
        if id.Done? {
          var u, k := ChannelsAreWalked(file, CnState(cn.value, [], s.headers), fuel);
          var walked := WalkChannels(file, cn.value, [], s.headers, fuel);
          if walked.Fails? {
            CgIsStuck(file, s, cn.value, u, k);
          } else if walked.Done? {
            var f := CgFound(cn.value, recordId.value, dataBytes.value, id.value);
            var group := DbcGroupInfo(recordId.value % 256, dataBytes.value, id.value, walked.value.0);
            var m := CgState(next.value, s.groups + [group], walked.value.1);
            CgIsStep(file, s, m, f, walked.value.0, k);
            t, n := GroupsAreWalked(file, m, fuel - 1);
            CgGoesOn(file, s, m, t, n);
            n := n + 1;
          }
        }
      }
    }
  }

  lemma GroupFields(file: Contents, s: CgState)
    requires s.at != 0
    ensures var next, cn := ReadLink(file, Plus(s.at, 24)), ReadLink(file, Plus(s.at, 32));
            var recordId, dataBytes := ReadLink(file, Plus(s.at, 72)), ReadInt(file, Plus(s.at, 96), 4);
            if next.Some? && cn.Some? && recordId.Some? && dataBytes.Some? then
              && Holds(file, s.at, 24, 8, next.value) && Holds(file, s.at, 32, 8, cn.value)
              && Holds(file, s.at, 72, 8, recordId.value) && Holds(file, s.at, 96, 4, dataBytes.value)
            else CgStuck(file, s)
  {
    hide ReadLink, ReadInt, Plus, Holds, Missing, CnReaches, CnStuck;
    LinkIsRead(file, s.at, 24);
    LinkIsRead(file, s.at, 32);
    LinkIsRead(file, s.at, 72);
    IntIsRead(file, s.at, 96, 4);
  }

  // ----- The channels of a RAW session

  /** A place on a walk along channels or sub-channels, with the column headers found so far. */
  datatype RawState = RawState(at: Word, headers: seq<Bytes>)

  /** Name and place of a channel's texts and parts. */
  datatype RawFound = RawFound(composition: Word, tx: Word, name: Bytes)

  ghost predicate RawHas(file: Bytes, s: RawState, next: Word, f: RawFound) {
    && Holds(file, s.at, 24, 8, next) && Holds(file, s.at, 32, 8, f.composition) && Holds(file, s.at, 40, 8, f.tx)
    && IsName(file, f.tx, f.name)
  }

  predicate RawStuck(file: Bytes, s: RawState) {
    s.at != 0 && (Missing(file, s.at, 24, 8) || Missing(file, s.at, 32, 8) || Missing(file, s.at, 40, 8))
  }

  /** A sub-channel with a name and without parts of its own is a column. */
  ghost predicate SubStep(file: Bytes, s: RawState, t: RawState) {
    && s.at != 0
    && exists f :: RawHas(file, s, t.at, f)
                   && t.headers == if f.composition == 0 && f.tx != 0 then s.headers + [f.name] else s.headers
  }

  ghost predicate SubReaches(file: Bytes, s: RawState, t: RawState, n: nat)
    decreases n
  {
    if n == 0 then s == t else exists m :: SubStep(file, s, m) && SubReaches(file, m, t, n - 1)
  }

  lemma SubGoesOn(file: Bytes, s: RawState, m: RawState, t: RawState, n: nat)
    requires SubStep(file, s, m) && SubReaches(file, m, t, n)
    ensures SubReaches(file, s, t, n + 1)
  {
    hide SubStep;
  }

  lemma RawFields(file: Contents, s: RawState)
    requires s.at != 0
    ensures var next, comp, tx := ReadLink(file, Plus(s.at, 24)), ReadLink(file, Plus(s.at, 32)),
              ReadLink(file, Plus(s.at, 40));
            if next.Some? && comp.Some? && tx.Some? then
              RawHas(file, s, next.value, RawFound(comp.value, tx.value, ReadText(file, tx.value)))
            else RawStuck(file, s)
  {
    hide ReadLink, Plus, Holds, Missing, IsName, ReadText;
    LinkIsRead(file, s.at, 24);
    LinkIsRead(file, s.at, 32);
    LinkIsRead(file, s.at, 40);
    var tx := ReadLink(file, Plus(s.at, 40));
    if tx.Some? { TextIsName(file, tx.value); }
  }

  lemma {:induction false} SubChannelsAreWalked(file: Contents, s: RawState, fuel: nat) returns (t: RawState, n: nat)
    ensures SubReaches(file, s, t, n)
    ensures match WalkComposition(file, s.at, s.headers, fuel)
            case Done(headers) => t == RawState(0, headers)
            case Fails => RawStuck(file, t)
            case Throws => false
            case Loops => true
    decreases fuel
  {
    hide ReadLink, Plus, ReadText, RawHas, RawStuck;
    t, n := s, 0;
    if s.at != 0 && fuel > 0 {
      RawFields(file, s);
      var next, comp, tx := ReadLink(file, Plus(s.at, 24)), ReadLink(file, Plus(s.at, 32)),
        ReadLink(file, Plus(s.at, 40));
      if next.Some? && comp.Some? && tx.Some? {
        var name := ReadText(file, tx.value);
        var m := RawState(next.value, if comp.value == 0 && tx.value != 0 then s.headers + [name] else s.headers);
        assert RawHas(file, s, m.at, RawFound(comp.value, tx.value, name));
        assert SubStep(file, s, m);
        t, n := SubChannelsAreWalked(file, m, fuel - 1);
        SubGoesOn(file, s, m, t, n);
        n := n + 1;
      }
    }
  }

  /** A channel with parts gives their columns, one without its own, if it has a name. */
  ghost predicate RawStep(file: Bytes, s: RawState, t: RawState) {
    && s.at != 0
    && exists f :: RawHas(file, s, t.at, f) && RawColumns(file, s.headers, t.headers, f)
  }

  ghost predicate RawColumns(file: Bytes, before: seq<Bytes>, after: seq<Bytes>, f: RawFound) {
    if f.composition == 0 then after == if f.tx != 0 then before + [f.name] else before
    else exists n :: SubReaches(file, RawState(f.composition, before), RawState(0, after), n)
  }

  /** A channel's block is cut off, or the block of one of its parts. */
  ghost predicate RawStuckDeep(file: Bytes, s: RawState) {
    || RawStuck(file, s)
    || (s.at != 0
        && exists comp: Word, t, n :: comp != 0 && Holds(file, s.at, 32, 8, comp)
                                      && SubReaches(file, RawState(comp, s.headers), t, n) && RawStuck(file, t))
  }

  ghost predicate RawReaches(file: Bytes, s: RawState, t: RawState, n: nat)
    decreases n
  {
    if n == 0 then s == t else exists m :: RawStep(file, s, m) && RawReaches(file, m, t, n - 1)
  }

  lemma RawGoesOn(file: Bytes, s: RawState, m: RawState, t: RawState, n: nat)
    requires RawStep(file, s, m) && RawReaches(file, m, t, n)
    ensures RawReaches(file, s, t, n + 1)
  {
    hide RawStep;
  }

  lemma RawIsStuck(file: Bytes, s: RawState, comp: Word, t: RawState, n: nat)
    requires s.at != 0 && comp != 0 && Holds(file, s.at, 32, 8, comp)
    requires SubReaches(file, RawState(comp, s.headers), t, n) && RawStuck(file, t)
    ensures RawStuckDeep(file, s)
  {
    hide Holds, SubReaches, RawStuck;
  }

  lemma RawIsStep(file: Bytes, s: RawState, t: RawState, f: RawFound, n: nat)
    requires s.at != 0 && RawHas(file, s, t.at, f)
    requires if f.composition == 0 then t.headers == (if f.tx != 0 then s.headers + [f.name] else s.headers)
             else SubReaches(file, RawState(f.composition, s.headers), RawState(0, t.headers), n)
    ensures RawStep(file, s, t)
  {
    hide RawHas, SubReaches;
    assert RawColumns(file, s.headers, t.headers, f);
  }

  lemma CompositionIsHeld(file: Bytes, s: RawState, next: Word, f: RawFound)
    requires RawHas(file, s, next, f)
    ensures Holds(file, s.at, 32, 8, f.composition)
  {
    hide Holds, IsName;
  }

  lemma {:induction false} RawChannelsAreWalked(file: Contents, s: RawState, fuel: nat) returns (t: RawState, n: nat)
    ensures RawReaches(file, s, t, n)
    ensures match WalkRaw(file, s.at, s.headers, fuel)
            case Done(headers) => t == RawState(0, headers)
            case Fails => RawStuckDeep(file, t)
            case Throws => false
            case Loops => true
    decreases fuel
  {
    hide ReadLink, Plus, ReadText, RawHas, RawStuck, SubReaches, WalkComposition, Holds, RawStep;
    t, n := s, 0;
    if s.at != 0 && fuel > 0 {
      RawFields(file, s);
      var next, comp, tx := ReadLink(file, Plus(s.at, 24)), ReadLink(file, Plus(s.at, 32)),
        ReadLink(file, Plus(s.at, 40));
      if next.Some? && comp.Some? && tx.Some? {
        var f := RawFound(comp.value, tx.value, ReadText(file, tx.value));
        var u, k := SubChannelsAreWalked(file, RawState(comp.value, s.headers), fuel);
        var walked := WalkComposition(file, comp.value, s.headers, fuel);
        if comp.value != 0 && !walked.Done? {
          CompositionIsHeld(file, s, next.value, f);
          if walked.Fails? { RawIsStuck(file, s, comp.value, u, k); }
        } else {
          var headers := if comp.value != 0 then walked.value
          else if tx.value != 0 then s.headers + [f.name] else s.headers;
          var m := RawState(next.value, headers);
          RawIsStep(file, s, m, f, k);
          t, n := RawChannelsAreWalked(file, m, fuel - 1);
          RawGoesOn(file, s, m, t, n);
          n := n + 1;
        }
      }
    }
  }

  // ----- The records of a DBC session

  /** A record identifier stands for the last group that has it, whose number is kept in one byte. */
  predicate IsGroupOf(groups: seq<DbcGroupInfo>, recordId: Byte, g: nat) {
    g < |groups| && groups[g].recordId == recordId && forall h | g < h < |groups| :: groups[h].recordId != recordId
  }

  lemma {:induction false} GroupIsLast(groups: seq<DbcGroupInfo>, recordId: Byte)
    ensures match GroupOf(groups, recordId)
            case None => forall g | 0 <= g < |groups| :: groups[g].recordId != recordId
            case Some(i) => exists g: nat :: IsGroupOf(groups, recordId, g) && i == g % 256
    decreases |groups|
  {
    if groups != [] {
      var last := |groups| - 1;
      if groups[last].recordId == recordId {
        assert IsGroupOf(groups, recordId, last);
      } else {
        GroupIsLast(groups[..last], recordId);
        if GroupOf(groups, recordId).Some? {
          var g: nat :| IsGroupOf(groups[..last], recordId, g) && GroupOf(groups, recordId).value == g % 256;
          assert IsGroupOf(groups, recordId, g);
        }
      }
    }
  }

  /** A place in the data block: the counted position, the real one, and the records found so far. */
  datatype ScanState = ScanState(pos: Word, at: nat, offsets: seq<Word>, groupIdx: seq<Byte>)

  predicate GoesOn(file: Bytes, s: ScanState, end: Word) {
    s.pos < end && s.at < |file|
  }

  /** One record: its identifier, and behind it as many bytes as its group says. */
  ghost predicate ScanStep(file: Bytes, groups: seq<DbcGroupInfo>, end: Word, s: ScanState, t: ScanState) {
    && GoesOn(file, s, end)
    && exists g: nat :: IsGroupOf(groups, file[s.at], g) && IsRecordOf(groups, s, t, g % 256)
  }

  predicate IsRecordOf(groups: seq<DbcGroupInfo>, s: ScanState, t: ScanState, i: nat) {
    && i < |groups| && i < 256 && t.offsets == s.offsets + [s.pos] && t.groupIdx == s.groupIdx + [i]
    && t.at == s.at + 1 + groups[i].payloadBytes
    && t.pos == (s.pos + (1 + groups[i].payloadBytes) % 0x1_0000_0000) % 0x1_0000_0000_0000_0000
  }

  ghost predicate ScanReaches(file: Bytes, groups: seq<DbcGroupInfo>, end: Word, s: ScanState, t: ScanState, n: nat)
    decreases n
  {
    if n == 0 then s == t
    else exists m :: ScanStep(file, groups, end, s, m) && ScanReaches(file, groups, end, m, t, n - 1)
  }

  lemma ScanGoesOn(file: Bytes, groups: seq<DbcGroupInfo>, end: Word, s: ScanState, m: ScanState, t: ScanState, n: nat)
    requires ScanStep(file, groups, end, s, m) && ScanReaches(file, groups, end, m, t, n)
    ensures ScanReaches(file, groups, end, s, t, n + 1)
  {
    hide ScanStep;
  }

  /** The scan ends at the end of the block or of the file, and fails at an identifier that no group has. */
  lemma {:induction false} RecordsAreScanned(file: Contents, groups: seq<DbcGroupInfo>, end: Word, s: ScanState)
    returns (t: ScanState, n: nat)
    ensures ScanReaches(file, groups, end, s, t, n)
    ensures match Scan(file, groups, s.pos, s.at, end, s.offsets, s.groupIdx)
            case Done((offsets, groupIdx)) =>
              offsets == t.offsets && groupIdx == t.groupIdx && !GoesOn(file, t, end)
            case Fails =>
              GoesOn(file, t, end) && forall g | 0 <= g < |groups| :: groups[g].recordId != file[t.at]
            case _ => false
    decreases |file| - s.at
  {
    hide IsGroupOf, GroupOf, ScanStep;
    t, n := s, 0;
    if GoesOn(file, s, end) {
      GroupIsLast(groups, file[s.at]);
      var i := GroupOf(groups, file[s.at]);
      if i.Some? {
        var size := groups[i.value].payloadBytes;
        var m := ScanState(Plus(s.pos, (1 + size) % 0x1_0000_0000), s.at + 1 + size, s.offsets + [s.pos],
                           s.groupIdx + [i.value]);
        RecordIsStep(file, groups, end, s, m, i.value);
        t, n := RecordsAreScanned(file, groups, end, m);
        ScanGoesOn(file, groups, end, s, m, t, n);
        n := n + 1;
      }
    }
  }

  lemma RecordIsStep(file: Bytes, groups: seq<DbcGroupInfo>, end: Word, s: ScanState, m: ScanState, i: nat)
    requires GoesOn(file, s, end) && IsRecordOf(groups, s, m, i)
    requires exists g: nat :: IsGroupOf(groups, file[s.at], g) && i == g % 256
    ensures ScanStep(file, groups, end, s, m)
  {
    hide IsGroupOf, IsRecordOf;
  }

  // ----- The whole file

  /** Where the header says the first group and the data block are. */
  datatype Front = Front(dg: Word, startNs: Word, cg: Word, dt: Word, recIdSize: Byte)

  predicate IsFront(file: Bytes, f: Front) {
    && Chars(file, 0, "MDF     ") && Holds(file, 64, 24, 8, f.dg) && Holds(file, 64, 72, 8, f.startNs)
    && Holds(file, f.dg, 32, 8, f.cg) && Holds(file, f.dg, 40, 8, f.dt) && Holds(file, f.dg, 56, 1, f.recIdSize)
  }

  /** The file is none of this kind, or cut off in its front. */
  ghost predicate HasNoFront(file: Bytes) {
    || !Chars(file, 0, "MDF     ") || Missing(file, 64, 24, 8) || Missing(file, 64, 72, 8)
    || exists dg: Word :: Holds(file, 64, 24, 8, dg)
                          && (Missing(file, dg, 32, 8) || Missing(file, dg, 40, 8) || Missing(file, dg, 56, 1))
  }

  /** A session without record identifiers: columns from the channels, and 24 bytes for every record. */
  ghost predicate IsRawSessionOf(file: Bytes, f: Front, s: Session) {
    exists cn: Word, length: Word, n :: HasRawParts(file, f, s, cn, length, n)
  }

  ghost predicate HasRawParts(file: Bytes, f: Front, s: Session, cn: Word, length: Word, n: nat) {
    && Holds(file, f.dt, 8, 8, length) && Holds(file, f.cg, 32, 8, cn)
    && RawReaches(file, RawState(cn, []), RawState(0, s.columnHeaders), n)
    && !s.isDbc && s.startNs == f.startNs && s.groups == [] && s.offsets == [] && s.groupIdx == []
    && s.dtDataStart == (f.dt + 24) % 0x1_0000_0000_0000_0000
    && s.recordCount == (length as int - 24) % 0x1_0000_0000_0000_0000 / 24
  }

  /** A session with record identifiers: the groups, and the records found behind the head of the data block. */
  ghost predicate IsDbcSessionOf(file: Bytes, f: Front, s: Session) {
    exists length: Word, t, n, k :: HasDbcParts(file, f, s, length, t, n, k)
  }

  ghost predicate HasDbcParts(file: Bytes, f: Front, s: Session, length: Word, t: ScanState, n: nat, k: nat) {
    var start: Word := (f.dt + 24) % 0x1_0000_0000_0000_0000;
    var end: Word := (f.dt + length) % 0x1_0000_0000_0000_0000;
    && Holds(file, f.dt, 8, 8, length) && s.groups != []
    && CgReaches(file, CgState(f.cg, [], []), CgState(0, s.groups, s.columnHeaders), n)
    && ScanReaches(file, s.groups, end, ScanState(start, start, [], []), t, k) && !GoesOn(file, t, end)
    && s.isDbc && s.startNs == f.startNs && s.offsets == t.offsets && s.groupIdx == t.groupIdx
    && s.recordCount == |t.offsets| && s.dtDataStart == 0
  }

  lemma FrontIsRead(file: Contents)
    ensures var dg, startNs := ReadLink(file, 64 + 24), ReadLink(file, 64 + 24 + 48);
            if |file| < 8 || file[..8] != Ascii("MDF     ") || dg.None? || startNs.None? then HasNoFront(file)
            else
              var cg, dt := ReadLink(file, Plus(dg.value, 32)), ReadLink(file, Plus(dg.value, 40));
              var size := ReadInt(file, Plus(dg.value, 56), 1);
              if cg.None? || dt.None? || size.None? then HasNoFront(file)
              else size.value < 256 && IsFront(file, Front(dg.value, startNs.value, cg.value, dt.value, size.value))
  {
    hide ReadLink, ReadInt, Ascii, Holds, Missing, Chars;
    MagicIsText(file);
    LinkIsRead(file, 64, 24);
    LinkIsRead(file, 64, 72);
    assert Plus(64, 24) == 88 && Plus(64, 72) == 136;
    var dg := ReadLink(file, 64 + 24);
    if dg.Some? {
      LinkIsRead(file, dg.value, 32);
      LinkIsRead(file, dg.value, 40);
      IntIsRead(file, dg.value, 56, 1);
      var size := ReadInt(file, Plus(dg.value, 56), 1);
      if size.Some? { ByteIsSmall(file, dg.value, 56, size.value); }
    }
  }

  lemma MagicIsText(file: Bytes)
    ensures |file| >= 8 && file[..8] == Ascii("MDF     ") <==> Chars(file, 0, "MDF     ")
  {
    hide Ascii;
    if |file| >= 8 {
      assert forall k | 0 <= k < 8 :: file[..8][k] == file[0 + k];
      if Chars(file, 0, "MDF     ") { assert file[..8] == Ascii("MDF     "); }
    }
  }

  /**
   Opening any file on which the walks end: what is found is what the links and fields say; a file is refused if its
   front, a block on the way or an identifier is missing, and thrown at if the identifier of a group is no number.
   */
  lemma FileIsRead(file: Contents, fuel: nat)
    ensures match ParseFile(file, fuel)
            case Done(s) => exists f :: IsFront(file, f) && if f.recIdSize == 0 then IsRawSessionOf(file, f, s)
                                                            else IsDbcSessionOf(file, f, s)
            case Fails => HasNoFront(file) || exists f :: IsFront(file, f) && IsCutOff(file, f)
            case Throws => exists f :: IsFront(file, f) && f.recIdSize != 0 && MeetsBadId(file, f)
            case Loops => true
  {
    hide ReadLink, ReadInt, Ascii, Plus, IsFront, HasNoFront, ParseRaw, ParseDbc, IsCutOff, MeetsBadId, IsRawSessionOf,
         IsDbcSessionOf;
    FrontIsRead(file);
    var dg, startNs := ReadLink(file, 64 + 24), ReadLink(file, 64 + 24 + 48);
    if |file| >= 8 && file[..8] == Ascii("MDF     ") && dg.Some? && startNs.Some? {
      var cg, dt := ReadLink(file, Plus(dg.value, 32)), ReadLink(file, Plus(dg.value, 40));
      var size := ReadInt(file, Plus(dg.value, 56), 1);
      if cg.Some? && dt.Some? && size.Some? {
        var f := Front(dg.value, startNs.value, cg.value, dt.value, size.value);
        if size.value == 0 { RawIsRead(file, f, fuel); } else { DbcIsRead(file, f, fuel); }
      }
    }
  }

  /** The walk comes to a group whose identifier is no number. */
  ghost predicate MeetsBadId(file: Bytes, f: Front) {
    exists t, n :: CgReaches(file, CgState(f.cg, [], []), t, n) && t.at != 0 && HasBadId(file, t.at)
  }

  /** Something on the way from the front to the last record is missing. */
  ghost predicate IsCutOff(file: Bytes, f: Front) {
    || Missing(file, f.dt, 8, 8)
    || if f.recIdSize == 0 then
         || Missing(file, f.cg, 32, 8)
         || exists cn: Word, t, n :: Holds(file, f.cg, 32, 8, cn) && RawReaches(file, RawState(cn, []), t, n)
                                     && RawStuckDeep(file, t)
       else
         || (exists t, n :: CgReaches(file, CgState(f.cg, [], []), t, n)
                            && (CgStuck(file, t) || (t.at == 0 && t.groups == [])))
         || exists t, n, u, k :: CgReaches(file, CgState(f.cg, [], []), t, n) && t.at == 0
                                 && HasStranger(file, f, t.groups, u, k)
  }

  /** The scan comes to a record of no group. */
  ghost predicate HasStranger(file: Bytes, f: Front, groups: seq<DbcGroupInfo>, u: ScanState, k: nat) {
    exists length: Word ::
      && Holds(file, f.dt, 8, 8, length)
      && var start: Word := (f.dt + 24) % 0x1_0000_0000_0000_0000;
         var end: Word := (f.dt + length) % 0x1_0000_0000_0000_0000;
         && ScanReaches(file, groups, end, ScanState(start, start, [], []), u, k) && GoesOn(file, u, end)
         && forall g | 0 <= g < |groups| :: groups[g].recordId != file[u.at]
  }

  lemma RawIsRead(file: Contents, f: Front, fuel: nat)
    requires f.recIdSize == 0
    ensures match ParseRaw(file, f.startNs, f.cg, f.dt, fuel)
            case Done(s) => IsRawSessionOf(file, f, s)
            case Fails => IsCutOff(file, f)
            case Throws => false
            case Loops => true
  {
    hide ReadLink, Holds, Missing, RawReaches, RawStuckDeep, WalkRaw;
    LinkIsRead(file, f.dt, 8);
    LinkIsRead(file, f.cg, 32);
    var length, cn := ReadLink(file, Plus(f.dt, 8)), ReadLink(file, Plus(f.cg, 32));
    if length.Some? && cn.Some? {
      var t, n := RawChannelsAreWalked(file, RawState(cn.value, []), fuel);
      var parsed := ParseRaw(file, f.startNs, f.cg, f.dt, fuel);
      if parsed.Done? {
        assert Plus(length.value, WORDS - 24) == (length.value as int - 24) % 0x1_0000_0000_0000_0000;
        assert HasRawParts(file, f, parsed.value, cn.value, length.value, n);
      }
    }
  }

  lemma DbcIsRead(file: Contents, f: Front, fuel: nat)
    requires f.recIdSize != 0
    ensures match ParseDbc(file, f.startNs, f.cg, f.dt, fuel)
            case Done(s) => IsDbcSessionOf(file, f, s)
            case Fails => IsCutOff(file, f)
            case Throws => MeetsBadId(file, f)
            case Loops => true
  {
    hide ReadLink, Holds, Missing, CgReaches, CgStuck, HasBadId, WalkGroups, Scan, ScanReaches;
    var t, n := GroupsAreWalked(file, CgState(f.cg, [], []), fuel);
    LinkIsRead(file, f.dt, 8);
    var walked, length := WalkGroups(file, f.cg, [], [], fuel), ReadLink(file, Plus(f.dt, 8));
    if walked.Done? && length.Some? {
      var groups, start, end := walked.value.0, Plus(f.dt, 24), Plus(f.dt, length.value);
      var u, k := RecordsAreScanned(file, groups, end, ScanState(start, start, [], []));
      var parsed := ParseDbc(file, f.startNs, f.cg, f.dt, fuel);
      if parsed.Done? {
        assert HasDbcParts(file, f, parsed.value, length.value, u, n, k);
      } else {
        assert HasStranger(file, f, groups, u, k);
      }
    }
  }
}
