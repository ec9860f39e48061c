/**
 What the reader makes of an MDF4 file (src/can_stream/reader/mdf4_reader.cpp): `ParseFile` says it for any
 sequence of bytes.  The walks along the links carry a bound and answer `Loops` when it is used up.
 */
module Mdf4Walks {
  import opened Bits
  import opened CanTypes
  import opened Mdf4Format

  datatype Outcome<+T> = Done(value: T) | Fails | Throws | Loops

  const WORDS: nat := 0x1_0000_0000_0000_0000

  /** The contents of a file: positions fit into a std::streamoff. */
  type Contents = f: Bytes | |f| < 0x8000_0000_0000_0000

  /** Unsigned 64-bit addition. */
  function Plus(a: Word, b: nat): Word {
    (a + b) % WORDS
  }

  /** readAt for an unsigned integer of `n` bytes. */
  function ReadInt(file: Contents, off: Word, n: nat): Option<nat> {
    if off + n <= |file| then Some(FromLE(file[off..off + n])) else None
  }

  /** A link: an unsigned 64-bit integer. */
  function ReadLink(file: Contents, off: Word): (r: Option<Word>) {
    if off + 8 <= |file| then LinkInRange(file[off..off + 8]); Some(FromLE(file[off..off + 8])) else None
  }

  lemma {:induction false} FromLEBound(s: Bytes)
    ensures FromLE(s) < Pow2(8 * |s|)
  {
    if s != [] {
      FromLEBound(s[1..]);
      Pow2Eight(8 * (|s| - 1));
    }
  }

  lemma LinkInRange(s: Bytes)
    requires |s| == 8
    ensures 0 <= FromLE(s) < WORDS
  {
    FromLEBound(s);
    Pow2Values();
  }

  /** std::getline(..., '\0') from a position. */
  function UpToNul(s: Bytes): Bytes {
    if s == [] || s[0] == 0 then [] else [s[0]] + UpToNul(s[1..])
  }

  function ReadText(file: Contents, off: Word): Bytes {
    var start := Plus(off, 24);
    if start < |file| then UpToNul(file[start..]) else []
  }

  /** The first position of a pattern, as std::string::find returns it. */
  function Find(s: Bytes, pattern: Bytes): (r: Option<nat>)
    ensures r.Some? ==> r.value + |pattern| <= |s|
  {
    if |s| < |pattern| then None
    else if s[..|pattern|] == pattern then Some(0)
    else if s == [] then None
    else
      var rest := Find(s[1..], pattern);
      if rest.Some? then Some(rest.value + 1) else None
  }

  // ----- std::stoul(s, nullptr, 16)

  predicate IsSpace(c: Byte) {
    c == 32 || 9 <= c <= 13
  }

  function SkipSpace(s: Bytes): Bytes {
    if s != [] && IsSpace(s[0]) then SkipSpace(s[1..]) else s
  }

  function DigitValue(c: Byte): Option<nat> {
    if 48 <= c <= 57 then Some(c - 48)
    else if 65 <= c <= 70 then Some(c - 55)
    else if 97 <= c <= 102 then Some(c - 87)
    else None
  }

  predicate StartsWithDigit(s: Bytes) {
    s != [] && DigitValue(s[0]).Some?
  }

  /** The value of the leading digits, appended to `acc`. */
  function DigitsValue(s: Bytes, acc: nat): nat {
    if StartsWithDigit(s) then DigitsValue(s[1..], 16 * acc + DigitValue(s[0]).value) else acc
  }

  function SkipHexPrefix(s: Bytes): Bytes {
    if |s| > 2 && s[0] == 48 && (s[1] == 120 || s[1] == 88) && StartsWithDigit(s[2..]) then s[2..] else s
  }

  /** None when std::stoul throws: no digits, or a value beyond unsigned long. */
  function StoulHex(s: Bytes): Option<Word> {
    var t := SkipSpace(s);
    var negative := t != [] && t[0] == 45;
    var u := SkipHexPrefix(if t != [] && (t[0] == 45 || t[0] == 43) then t[1..] else t);
    if !StartsWithDigit(u) then None
    else
      var v := DigitsValue(u, 0);
      if v >= WORDS then None else Some(if negative then (WORDS - v) % WORDS else v)
  }

  // ----- The walks

  datatype DbcGroupInfo = DbcGroupInfo(recordId: Byte, payloadBytes: nat, msgId: nat, signalNames: seq<Bytes>)

  function AddHeader(headers: seq<Bytes>, name: Bytes): seq<Bytes> {
    if name in headers then headers else headers + [name]
  }

  /** The CN chain of a DBC group: signal names, and column headers without duplicates. */
  function WalkChannels(file: Contents, cn: Word, names: seq<Bytes>, headers: seq<Bytes>,
                        fuel: nat): Outcome<(seq<Bytes>, seq<Bytes>)>
    decreases fuel
  {
    if cn == 0 then Done((names, headers))
    else if fuel == 0 then Loops
    else
      var next, tx, sync := ReadLink(file, Plus(cn, 24)), ReadLink(file, Plus(cn, 40)), ReadInt(file, Plus(cn, 89), 1);
      if next.None? || tx.None? || sync.None? then Fails
      else if tx.value == 0 then WalkChannels(file, next.value, names, headers, fuel - 1)
      else
        var name := ReadText(file, tx.value);
        WalkChannels(file, next.value, if sync.value != 1 then names + [name] else names, AddHeader(headers, name),
                     fuel - 1)
  }

  /** The message identifier of a group: from the MD block's XML, else the record identifier. */
  function GroupMsgId(file: Contents, cg: Word, recordId: Word): Outcome<nat> {
    var md := ReadLink(file, Plus(cg, 64));
    if md.Some? && md.value != 0 then
      var xml := ReadText(file, md.value);
      var start, end := Find(xml, Ascii("<id>0x")), Find(xml, Ascii("</id>"));
      if start.Some? && end.Some? then
        var id := StoulHex(Between(xml, start.value + 6, end.value));
        if id.Some? then Done(id.value % 0x1_0000) else Throws
      else Done(recordId % 0x1_0000)
    else Done(recordId % 0x1_0000)
  }

  /** substr(from, to - from), whose unsigned length runs to the end when `to` lies before `from`. */
  function Between(s: Bytes, from: nat, to: nat): Bytes
    requires from <= |s| && to <= |s|
  {
    if to < from then s[from..] else s[from..to]
  }

  function WalkGroups(file: Contents, cg: Word, groups: seq<DbcGroupInfo>, headers: seq<Bytes>, fuel: nat)
    : Outcome<(seq<DbcGroupInfo>, seq<Bytes>)>
    decreases fuel
  {
    if cg == 0 then if groups == [] then Fails else Done((groups, headers))
    else if fuel == 0 then Loops
    else
      var next, cnFirst := ReadLink(file, Plus(cg, 24)), ReadLink(file, Plus(cg, 32));
      var recordId, dataBytes := ReadLink(file, Plus(cg, 72)), ReadInt(file, Plus(cg, 96), 4);
      if next.None? || cnFirst.None? || recordId.None? || dataBytes.None? then Fails
      else
        var id := GroupMsgId(file, cg, recordId.value);
        if !id.Done? then Throws
        else
          var walked := WalkChannels(file, cnFirst.value, [], headers, fuel);
          match walked
          case Done((names, headers')) =>
            var group := DbcGroupInfo(recordId.value % 256, dataBytes.value, id.value, names);
            WalkGroups(file, next.value, groups + [group], headers', fuel - 1)
          case Loops => Loops
          case _ => Fails
  }

  /** The sub-channels of a composition in a RAW session. */
  function WalkComposition(file: Contents, sub: Word, headers: seq<Bytes>, fuel: nat): Outcome<seq<Bytes>>
    decreases fuel
  {
    if sub == 0 then Done(headers)
    else if fuel == 0 then Loops
    else
      var next, comp, tx := ReadLink(file, Plus(sub, 24)), ReadLink(file, Plus(sub, 32)), ReadLink(file, Plus(sub, 40));
      if next.None? || comp.None? || tx.None? then Fails
      else
        WalkComposition(file, next.value,
                        if comp.value == 0 && tx.value != 0 then headers + [ReadText(file, tx.value)] else headers,
                            fuel - 1)
  }

  function WalkRaw(file: Contents, cn: Word, headers: seq<Bytes>, fuel: nat): Outcome<seq<Bytes>>
    decreases fuel
  {
    if cn == 0 then Done(headers)
    else if fuel == 0 then Loops
    else
      var next, comp, tx := ReadLink(file, Plus(cn, 24)), ReadLink(file, Plus(cn, 32)), ReadLink(file, Plus(cn, 40));
      if next.None? || comp.None? || tx.None? then Fails
      else if comp.value != 0 then
        var walked := WalkComposition(file, comp.value, headers, fuel);
        match walked
        case Done(headers') => WalkRaw(file, next.value, headers', fuel - 1)
        case Loops => Loops
        case _ => Fails
      else
        WalkRaw(file, next.value, if tx.value != 0 then headers + [ReadText(file, tx.value)] else headers, fuel - 1)
  }

  // ----- The record index

  /** The group that a record identifier stands for: the last one, its index cut to a byte. */
  function GroupOf(groups: seq<DbcGroupInfo>, recId: Byte): (r: Option<Byte>)
    ensures r.Some? ==> r.value < |groups|
  {
    if groups == [] then None
    else if groups[|groups| - 1].recordId == recId then Some((|groups| - 1) % 256)
    else GroupOf(groups[..|groups| - 1], recId)
  }

  /** The DT block from file position `at`; `pos` is the code's own 64-bit position counter. */
  function Scan(file: Contents, groups: seq<DbcGroupInfo>, pos: Word, at: nat, end: Word, offsets: seq<Word>,
                idx: seq<Byte>)
    : Outcome<(seq<Word>, seq<Byte>)>
    decreases |file| - at
  {
    if pos >= end || at >= |file| then Done((offsets, idx))
    else
      var g := GroupOf(groups, file[at]);
      if g.None? then Fails
      else
        var payload := groups[g.value].payloadBytes;
        Scan(file, groups, Plus(pos, (1 + payload) % 0x1_0000_0000), at + 1 + payload, end, offsets + [pos],
             idx + [g.value])
  }

  datatype Session = Session(
    isDbc: bool, startNs: Word, columnHeaders: seq<Bytes>, groups: seq<DbcGroupInfo>, offsets: seq<Word>,
    groupIdx: seq<Byte>, dtDataStart: Word, recordCount: nat)

  function ParseRaw(file: Contents, startNs: Word, cgFirst: Word, dtFirst: Word, fuel: nat): Outcome<Session> {
    var dtLength, cnFirst := ReadLink(file, Plus(dtFirst, 8)), ReadLink(file, Plus(cgFirst, 32));
    if dtLength.None? || cnFirst.None? then Fails
    else
      var walked := WalkRaw(file, cnFirst.value, [], fuel);
      match walked
      case Done(headers) =>
        Done(Session(false, startNs, headers, [], [], [], Plus(dtFirst, 24), Plus(dtLength.value, WORDS - 24) / 24))
      case Loops => Loops
      case _ => Fails
  }

  function ParseDbc(file: Contents, startNs: Word, cgFirst: Word, dtFirst: Word, fuel: nat): Outcome<Session> {
    var walked := WalkGroups(file, cgFirst, [], [], fuel);
    match walked
    case Done((groups, headers)) =>
      var dtLength := ReadLink(file, Plus(dtFirst, 8));
      if dtLength.None? then Fails
      else
        var start := Plus(dtFirst, 24);
        var scanned := Scan(file, groups, start, start, Plus(dtFirst, dtLength.value), [], []);
        if scanned.Done? then
          Done(Session(true, startNs, headers, groups, scanned.value.0, scanned.value.1, 0, |scanned.value.0|))
        else Fails
    case Loops => Loops
    case Throws => Throws
    case Fails => Fails
  }

  function ParseFile(file: Contents, fuel: nat): Outcome<Session> {
    if |file| < 8 || file[..8] != Ascii("MDF     ") then Fails
    else
      var dg, startNs := ReadLink(file, 64 + 24), ReadLink(file, 64 + 24 + 48);
      if dg.None? || startNs.None? then Fails
      else
        var cgFirst, dtFirst := ReadLink(file, Plus(dg.value, 32)), ReadLink(file, Plus(dg.value, 40));
        var recIdSize := ReadInt(file, Plus(dg.value, 56), 1);
        if cgFirst.None? || dtFirst.None? || recIdSize.None? then Fails
        else if recIdSize.value == 0 then ParseRaw(file, startNs.value, cgFirst.value, dtFirst.value, fuel)
        else ParseDbc(file, startNs.value, cgFirst.value, dtFirst.value, fuel)
  }
}
