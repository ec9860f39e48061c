/**
 Packing physical signal values into CAN frames and reading them back
 (src/can_handler/can_communication_handler/can_dbc_handler.cpp).

 Frames are specified bit by bit: bit `j` of a signal's raw integer lives at frame bit
 `FramePos(sig, j)`, where frame bit `b` is bit `b % 8` of byte `b / 8`.  The methods work on
 the two accumulator words, as the code does.
 */
module DbcCodec {
  import opened Bits
  import opened CanTypes

  // ----- Reference definitions

  predicate FrameBit(data: Payload, b: nat)
    requires b < 64
  {
    Bit(data[b / 8], b % 8)
  }

  /** Where bit `i` of the big-endian word sits in the frame; its own inverse. */
  function Mirror(i: nat): (r: nat)
    requires i < 64
    ensures r < 64
  {
    8 * (7 - i / 8) + i % 8
  }

  /** The distance of a Motorola signal's first bit from the top of the big-endian word. */
  function LinearStart(sig: Signal): int {
    63 - (56 - 8 * (sig.startBit / 8) + sig.startBit % 8)
  }

  /** The signal lies inside the 64-bit word that its byte order selects. */
  predicate Fits(sig: Signal) {
    && 1 <= sig.size <= 64
    && if sig.bigEndian then sig.startBit < 64 && LinearStart(sig) + sig.size <= 64
       else sig.startBit + sig.size <= 64
  }

  /** The position of the signal's least significant bit in its word. */
  function WordPos(sig: Signal): (p: nat)
    requires Fits(sig)
    ensures p + sig.size <= 64
  {
    if sig.bigEndian then 64 - LinearStart(sig) - sig.size else sig.startBit
  }

  /** The frame bit that carries bit `j` of the raw integer. */
  function FramePos(sig: Signal, j: nat): (b: nat)
    requires Fits(sig) && j < sig.size
    ensures b < 64
  {
    if sig.bigEndian then Mirror(WordPos(sig) + j) else WordPos(sig) + j
  }

  /** The index of frame bit `b` inside the signal; the signal covers `b` if it is in range. */
  function RawIndex(sig: Signal, b: nat): int
    requires Fits(sig) && b < 64
  {
    (if sig.bigEndian then Mirror(b) else b) - WordPos(sig)
  }

  predicate Covers(sig: Signal, b: nat)
    requires Fits(sig) && b < 64
  {
    0 <= RawIndex(sig, b) < sig.size
  }

  /** Frame bit `b` is set in the word that carries it. */
  predicate WordsBit(le: Word, be: Word, b: nat)
    requires b < 64
  {
    Bit(le, b) || Bit(be, Mirror(b))
  }

  lemma FramePosInverts(sig: Signal, j: nat)
    requires Fits(sig) && j < sig.size
    ensures RawIndex(sig, FramePos(sig, j)) == j
  {
    hide Mirror;
    MirrorInverts(WordPos(sig) + j);
  }

  lemma MirrorInverts(i: nat)
    requires i < 64
    ensures Mirror(Mirror(i)) == i
  {
  }

  /** The number spelled by the frame bits of the signal from bit `j` upwards. */
  function FieldFrom(sig: Signal, data: Payload, j: nat): (r: nat)
    requires Fits(sig) && j <= sig.size
    ensures r < Pow2(sig.size - j)
    decreases sig.size - j
  {
    if j == sig.size then 0
    else (if FrameBit(data, FramePos(sig, j)) then 1 else 0) + 2 * FieldFrom(sig, data, j + 1)
  }

  /** Raw integers pass through an int64_t, so a 64-bit field is signed whatever its type. */
  predicate ReadsSigned(sig: Signal) {
    sig.signed || sig.size == 64
  }

  /** The raw integer stored in the frame. */
  function RawValue(sig: Signal, data: Payload): int
    requires Fits(sig)
  {
    var u := FieldFrom(sig, data, 0);
    if ReadsSigned(sig) then Signed(u, sig.size) else u
  }

  function Physical(sig: Signal, data: Payload): real
    requires Fits(sig)
  {
    RawValue(sig, data) as real * sig.factor + sig.offset
  }

  /** Rounding half away from zero, as std::round does. */
  function Round(x: real): int {
    if x >= 0.0 then (x + 0.5).Floor else -((-x + 0.5).Floor)
  }

  /** Conversion from floating point to an integer type. */
  function Truncate(x: real): int {
    if x >= 0.0 then x.Floor else -((-x).Floor)
  }

  /** min(max(value, minimum), maximum): the maximum wins when the range is inverted. */
  function Clamp(sig: Signal, value: real): real {
    var atLeast := if value < sig.minimum then sig.minimum else value;
    if sig.maximum < atLeast then sig.maximum else atLeast
  }

  /** The raw integer sent for a physical value. */
  function RawOf(sig: Signal, value: real): int
    requires sig.factor != 0.0
  {
    Round((Clamp(sig, value) - sig.offset) / sig.factor)
  }

  /** The raw integers that the signal's field can hold. */
  predicate Representable(sig: Signal, raw: int)
    requires sig.size >= 1
  {
    if ReadsSigned(sig) then 0 - Pow2(sig.size - 1) <= raw < Pow2(sig.size - 1)
    else 0 <= raw < Pow2(sig.size)
  }

  predicate IsInt64(x: int) {
    -0x8000_0000_0000_0000 <= x < 0x8000_0000_0000_0000
  }

  predicate IsInt32(x: int) {
    -0x8000_0000 <= x < 0x8000_0000
  }

  /** What the encoder asks of a signal and value: no shift, division or cast is undefined. */
  predicate Encodable(sig: Signal, value: real) {
    Fits(sig) && sig.factor != 0.0 && IsInt64(RawOf(sig, value))
  }

  // ----- Reading a signal out of the two words

  /** The shift formulas of parseReceivedSignal, on the two 64-bit words. */
  function DecodeRaw(sig: Signal, le: Word, be: Word): int
    requires Fits(sig)
  {
    var shifted := if sig.bigEndian then Shl64(be, LinearStart(sig)) else Shl64(le, 64 - sig.startBit - sig.size);
    var raw := ToInt64(Shr(shifted, 64 - sig.size));
    if sig.signed then Shr(ToInt64(Shl(raw, 64 - sig.size)), 64 - sig.size) else raw
  }

  function DecodeValue(sig: Signal, le: Word, be: Word): real
    requires Fits(sig)
  {
    DecodeRaw(sig, le, be) as real * sig.factor + sig.offset
  }

  /** The little- and big-endian words hold the frame. */
  ghost predicate HoldsFrame(le: Word, be: Word, data: Payload) {
    && (forall i {:trigger Bit(le, i)} | 0 <= i < 64 :: Bit(le, i) == FrameBit(data, i))
    && (forall i {:trigger Bit(be, i)} | 0 <= i < 64 :: Bit(be, i) == FrameBit(data, Mirror(i)))
  }

  lemma {:induction false} BitField(sig: Signal, data: Payload, j: nat, i: nat)
    requires Fits(sig) && j <= sig.size
    ensures Bit(FieldFrom(sig, data, j), i) == (i + j < sig.size && FrameBit(data, FramePos(sig, i + j)))
    decreases sig.size - j
  {
    if j == sig.size {
      BitZero(i);
    } else if i > 0 {
      BitField(sig, data, j + 1, i - 1);
    }
  }

  lemma NumbersByBits(x: nat, y: nat, n: nat)
    requires x < Pow2(n) && y < Pow2(n)
    requires forall i | 0 <= i < n :: Bit(x, i) == Bit(y, i)
    ensures x == y
  {
    LowByBits(x, y, n);
    LowFixed(x, n);
    LowFixed(y, n);
  }

  /** Shifting up by `up` and down by 64 - n isolates the n bits that end `up` below the top. */
  lemma IsolateBit(w: Word, up: nat, n: nat, i: nat)
    requires up + n <= 64 && n >= 1
    ensures Bit(Shr(Shl64(w, up), 64 - n), i) == (i < n && Bit(w, i + 64 - up - n))
  {
    BitShr(Shl64(w, up), 64 - n, i);
    BitLow(Shl(w, up), WIDTH, i + 64 - n);
    BitShl(w, up, i + 64 - n);
  }

  lemma IsolatedField(sig: Signal, le: Word, be: Word, data: Payload)
    requires Fits(sig) && HoldsFrame(le, be, data)
    ensures var shifted := if sig.bigEndian then Shl64(be, LinearStart(sig))
            else Shl64(le, 64 - sig.startBit - sig.size);
            Shr(shifted, 64 - sig.size) == FieldFrom(sig, data, 0)
  {
    hide Bit, Low, Signed, Shl, Shr, And, Or, Pow2;
    var w, up := if sig.bigEndian then be else le, 64 - WordPos(sig) - sig.size;
    Pow2Values();
    ShrBound(Shl64(w, up), WIDTH, 64 - sig.size);
    forall i | 0 <= i < sig.size
      ensures Bit(Shr(Shl64(w, up), 64 - sig.size), i) == Bit(FieldFrom(sig, data, 0), i)
    {
      IsolateBit(w, up, sig.size, i);
      BitField(sig, data, 0, i);
    }
    NumbersByBits(Shr(Shl64(w, up), 64 - sig.size), FieldFrom(sig, data, 0), sig.size);
  }

  lemma {:induction false} ShrStaysInt64(x: int, k: nat)
    requires IsInt64(x)
    ensures IsInt64(Shr(x, k))
    decreases k
  {
    if k > 0 { ShrStaysInt64(x / 2, k - 1); }
  }

  lemma Int64ByBits(x: int, y: int)
    requires IsInt64(x) && IsInt64(y)
    requires forall i | 0 <= i < 64 :: Bit(x, i) == Bit(y, i)
    ensures x == y
  {
    Pow2Values();
    SignedByBits(x, y, WIDTH);
    SignedFixed(x, WIDTH);
    SignedFixed(y, WIDTH);
  }

  /** Shifting an int64_t left and back copies bit n - 1 into all higher bits. */
  lemma SignExtension(u: nat, n: nat)
    requires 1 <= n <= 64 && u < Pow2(n)
    ensures Shr(ToInt64(Shl(ToInt64(u), 64 - n)), 64 - n) == Signed(u, n)
  {
    hide Bit, Low, Signed, Shl, Shr, And, Or, Pow2;
    var up := Shl(ToInt64(u), 64 - n);
    Pow2Values();
    ShrStaysInt64(ToInt64(up), 64 - n);
    Pow2Monotone(n - 1, WIDTH - 1);
    forall i | 0 <= i < 64
      ensures Bit(Shr(ToInt64(up), 64 - n), i) == Bit(Signed(u, n), i)
    {
      var at := if i + 64 - n < 64 then i + 64 - n else 63;
      BitShr(ToInt64(up), 64 - n, i);
      BitSigned(up, WIDTH, i + 64 - n);
      BitShl(ToInt64(u), 64 - n, at);
      BitSigned(u, WIDTH, at - (64 - n));
      BitSigned(u, n, i);
    }
    Int64ByBits(Shr(ToInt64(up), 64 - n), Signed(u, n));
  }

  /** The decoder's shift formulas read exactly the bits that the signal covers in the frame. */
  lemma DecodeReadsField(sig: Signal, le: Word, be: Word, data: Payload)
    requires Fits(sig) && HoldsFrame(le, be, data)
    ensures DecodeRaw(sig, le, be) == RawValue(sig, data)
    ensures DecodeValue(sig, le, be) == Physical(sig, data)
  {
    hide Bit, Low, Signed, Shl, Shr, And, Or, Pow2, FieldFrom, HoldsFrame, Shl64;
    var u := FieldFrom(sig, data, 0);
    IsolatedField(sig, le, be, data);
    if sig.signed {
      SignExtension(u, sig.size);
    } else if sig.size < 64 {
      Pow2Values();
      Pow2Monotone(sig.size, WIDTH - 1);
      SignedFixed(u, WIDTH);
    }
  }

  // ----- Decoded messages

  /** The signals without a multiplexor condition, in order. */
  function PlainSignals(sigs: seq<Signal>): (r: seq<Signal>)
    ensures forall s :: s in r <==> s in sigs && s.multiplexedBy == -1
  {
    if sigs == [] then []
    else
      var last := sigs[|sigs| - 1];
      PlainSignals(sigs[..|sigs| - 1]) + if last.multiplexedBy == -1 then [last] else []
  }

  /** The multiplexed signals, in order. */
  function MultiplexedSignals(sigs: seq<Signal>): (r: seq<Signal>)
    ensures forall s :: s in r <==> s in sigs && s.multiplexedBy != -1
  {
    if sigs == [] then []
    else
      var last := sigs[|sigs| - 1];
      MultiplexedSignals(sigs[..|sigs| - 1]) + if last.multiplexedBy != -1 then [last] else []
  }

  function SelectedBy(sigs: seq<Signal>, mux: int): (r: seq<Signal>)
    ensures forall s :: s in r <==> s in sigs && s.multiplexedBy == mux
  {
    if sigs == [] then []
    else
      var last := sigs[|sigs| - 1];
      SelectedBy(sigs[..|sigs| - 1], mux) + if last.multiplexedBy == mux then [last] else []
  }

  ghost predicate AllFit(sigs: seq<Signal>) {
    forall s | s in sigs :: Fits(s)
  }

  /** The value of the last multiplexor in the list, or -1. */
  function MuxValue(plain: seq<Signal>, data: Payload): int
    requires AllFit(plain)
  {
    if plain == [] then -1
    else
      var last := plain[|plain| - 1];
      if last.multiplexer then Truncate(Physical(last, data)) else MuxValue(plain[..|plain| - 1], data)
  }

  function ActiveSignals(sigs: seq<Signal>, data: Payload): seq<Signal>
    requires AllFit(PlainSignals(sigs))
  {
    PlainSignals(sigs) + SelectedBy(MultiplexedSignals(sigs), MuxValue(PlainSignals(sigs), data))
  }

  /** A multiplexor is published truncated to an int, every other signal unchanged. */
  function PublishedValue(sig: Signal, data: Payload): real
    requires Fits(sig)
  {
    if sig.multiplexer && sig.multiplexedBy == -1 then Truncate(Physical(sig, data)) as real else Physical(sig, data)
  }

  function Published(sigs: seq<Signal>, data: Payload): (r: seq<SignalValue>)
    requires AllFit(sigs)
    ensures |r| == |sigs|
    ensures forall k | 0 <= k < |r| :: r[k] == SignalValue(sigs[k].name, PublishedValue(sigs[k], data))
  {
    if sigs == [] then []
    else
      var last := sigs[|sigs| - 1];
      Published(sigs[..|sigs| - 1], data) + [SignalValue(last.name, PublishedValue(last, data))]
  }

  /** What the decoder asks of a description: every signal it reads fits, multiplexors are ints. */
  ghost predicate Decodable(sigs: seq<Signal>, data: Payload) {
    && AllFit(PlainSignals(sigs))
    && AllFit(ActiveSignals(sigs, data))
    && forall s | s in PlainSignals(sigs) && s.multiplexer :: IsInt32(Truncate(Physical(s, data)))
  }

  function DecodedValues(sigs: seq<Signal>, data: Payload): seq<SignalValue>
    requires AllFit(PlainSignals(sigs)) && AllFit(ActiveSignals(sigs, data))
  {
    Published(ActiveSignals(sigs, data), data)
  }

  // ----- Encoded messages

  /** The first signal with the given name, as the encoder's inner loop finds it. */
  function FindSignal(sigs: seq<Signal>, name: string): (r: Option<Signal>)
    ensures r.Some? ==> r.value in sigs && r.value.name == name
    ensures r.None? <==> forall s | s in sigs :: s.name != name
  {
    if sigs == [] then None
    else if sigs[0].name == name then Some(sigs[0])
    else FindSignal(sigs[1..], name)
  }

  /** A value is sent for the first signal of its name. */
  lemma {:induction false} FoundIsFirst(sigs: seq<Signal>, name: string, k: nat)
    requires k < |sigs| && sigs[k].name == name && forall j | 0 <= j < k :: sigs[j].name != name
    ensures FindSignal(sigs, name) == Some(sigs[k])
    decreases k
  {
    if k > 0 { FoundIsFirst(sigs[1..], name, k - 1); }
  }

  predicate SetsBit(sig: Signal, value: real, b: nat)
    requires Encodable(sig, value) && b < 64
  {
    Covers(sig, b) && Bit(RawOf(sig, value), RawIndex(sig, b))
  }

  predicate CanSend(sigs: seq<Signal>, sv: SignalValue) {
    var found := FindSignal(sigs, sv.name);
    found.Some? ==> Encodable(found.value, sv.value)
  }

  predicate Contributes(sigs: seq<Signal>, sv: SignalValue, b: nat)
    requires CanSend(sigs, sv) && b < 64
  {
    var found := FindSignal(sigs, sv.name);
    found.Some? && SetsBit(found.value, sv.value, b)
  }

  ghost predicate CanSendAll(sigs: seq<Signal>, values: seq<SignalValue>) {
    forall m | 0 <= m < |values| :: CanSend(sigs, values[m])
  }

  /** `data` is the frame for `values`: a bit is set iff some sent signal has it set. */
  ghost predicate Encodes(sigs: seq<Signal>, values: seq<SignalValue>, data: Payload)
    requires CanSendAll(sigs, values)
  {
    forall b | 0 <= b < 64 ::
      FrameBit(data, b) <==> exists m :: 0 <= m < |values| && Contributes(sigs, values[m], b)
  }

  // ----- The imperative encoder and decoder

  /** Masking a raw value to n bits and shifting it to p puts its bit i - p at i. */
  lemma PlacedBit(n: nat, raw: int, mask: Word, p: nat, i: nat)
    requires 1 <= n && p + n <= 64 && i < 64
    requires mask == Pow2(n) - 1
    ensures Bit(Shl64(And64(ToWord(raw), mask), p), i) == (p <= i < p + n && Bit(raw, i - p))
  {
    hide Bit, Low, Signed, Shl, Shr, And, Or, Pow2;
    var masked := And64(ToWord(raw), mask);
    BitLow(Shl(masked, p), WIDTH, i);
    BitShl(masked, p, i);
    if p <= i {
      BitAnd(ToWord(raw), mask, i - p);
      BitLow(raw, WIDTH, i - p);
      BitAllOnes(n, i - p);
    }
  }

  /** parseSendSignal: or one signal into the accumulator word of its byte order. */
  method ParseSendSignal(sig: Signal, le: Word, be: Word, value: real) returns (le': Word, be': Word)
    requires Encodable(sig, value)
    ensures forall b | 0 <= b < 64 ::
              WordsBit(le', be', b)
              == (WordsBit(le, be, b) || SetsBit(sig, value, b))
  {
    hide Bit, Low, Shl, And, Or, Pow2;
    le', be' := le, be;
    var rawValue := Round((Clamp(sig, value) - sig.offset) / sig.factor);
    Pow2Values();
    Pow2Monotone(sig.size, WIDTH);
    var mask: Word := if sig.size >= 64 then 0xFFFF_FFFF_FFFF_FFFF else Pow2(sig.size) - 1;
    var masked := And64(ToWord(rawValue), mask);
    if !sig.bigEndian {
      le' := Or64(le, Shl64(masked, sig.startBit));
    } else {
      be' := Or64(be, Shl64(masked, 64 - LinearStart(sig) - sig.size));
    }
    forall b | 0 <= b < 64
      ensures WordsBit(le', be', b) == (WordsBit(le, be, b) || SetsBit(sig, value, b))
    {
      var i := if sig.bigEndian then Mirror(b) else b;
      BitOr(if sig.bigEndian then be else le, Shl64(masked, WordPos(sig)), i);
      PlacedBit(sig.size, rawValue, mask, WordPos(sig), i);
    }
  }

  /** Assembling the frame bytes from the two words. */
  method JoinWords(le: Word, be: Word) returns (data: Payload)
    ensures forall b | 0 <= b < 64 :: FrameBit(data, b) == WordsBit(le, be, b)
  {
    hide Bit, Low, Shr, And, Or, Pow2;
    data := [0, 0, 0, 0, 0, 0, 0, 0];
    for i := 0 to 8
      invariant forall b | 0 <= b < 8 * i :: FrameBit(data, b) == WordsBit(le, be, b)
    {
      var byteLE: Byte := And(Shr64(le, i * 8), 0xFF);
      var byteBE: Byte := And(Shr64(be, (7 - i) * 8), 0xFF);
      OrBytes(byteLE, byteBE);
      ghost var before := data;
      data := data[i := Or(byteLE, byteBE)];
      forall b | 0 <= b < 8 * (i + 1)
        ensures FrameBit(data, b) == WordsBit(le, be, b)
      {
        if b / 8 == i {
          BitOr(byteLE, byteBE, b % 8);
          ByteOfWord(le, i * 8, b % 8);
          ByteOfWord(be, (7 - i) * 8, b % 8);
        } else {
          assert FrameBit(data, b) == FrameBit(before, b);
        }
      }
    }
  }

  lemma OrBytes(a: Byte, b: Byte)
    ensures Or(a, b) < 256
  {
    Pow2Values();
    OrBound(a, b, 8);
  }

  lemma ByteOfWord(w: Word, k: nat, j: nat)
    requires j < 8
    ensures Bit(And(Shr64(w, k), 0xFF), j) == Bit(w, k + j)
  {
    hide Bit, Shr, And;
    BitAnd(Shr64(w, k), 0xFF, j);
    BitShr(w, k, j);
    Pow2Values();
    BitAllOnes(8, j);
  }

  /** A byte added above k occupied bits: nothing overflows. */
  lemma AppendHigh(w: Word, b: Byte, k: nat)
    requires k + 8 <= 64 && w < Pow2(k)
    ensures ToWord(w + Shl64(b, k)) == w + Shl(b, k) < Pow2(k + 8)
  {
    hide Bit, Low, Shl, Pow2;
    Pow2Values();
    ConcatBound(w, b, k, 8);
    ConcatBound(0, b, k, 8);
    Pow2Monotone(k + 8, WIDTH);
    LowFixed(Shl(b, k), WIDTH);
    LowFixed(w + Shl(b, k), WIDTH);
  }

  /** A byte added below a word shifted up by eight. */
  lemma AppendLow(w: Word, b: Byte, k: nat)
    requires k + 8 <= 64 && w < Pow2(k)
    ensures ToWord(Shl64(w, 8) + b) == b + Shl(w, 8) < Pow2(k + 8)
  {
    hide Bit, Low, Shl, Pow2;
    Pow2Values();
    ConcatBound(b, w, 8, k);
    ConcatBound(0, w, 8, k);
    Pow2Monotone(k + 8, WIDTH);
    LowFixed(Shl(w, 8), WIDTH);
    LowFixed(b + Shl(w, 8), WIDTH);
  }

  /** The words after `n` bytes: le holds them lowest first, be highest first. */
  ghost predicate HoldsBytes(le: Word, be: Word, data: Payload, n: nat)
    requires n <= 8
  {
    && le < Pow2(8 * n) && be < Pow2(8 * n)
    && (forall j {:trigger Bit(le, j)} | 0 <= j < 8 * n :: Bit(le, j) == FrameBit(data, j))
    && (forall j {:trigger Bit(be, j)} | 0 <= j < 8 * n :: Bit(be, j) == FrameBit(data, 8 * (n - 1 - j / 8) + j % 8))
  }

  lemma AppendByte(le: Word, be: Word, data: Payload, n: nat)
    requires n < 8 && HoldsBytes(le, be, data, n)
    ensures HoldsBytes(ToWord(le + Shl64(data[n], n * 8)), ToWord(Shl64(be, 8) + data[n]), data, n + 1)
  {
    hide Bit, Low, Shl, Pow2;
    AppendHigh(le, data[n], n * 8);
    AppendLow(be, data[n], n * 8);
    var le', be' := le + Shl(data[n], n * 8), data[n] + Shl(be, 8);
    forall j {:trigger Bit(le', j)} | 0 <= j < 8 * (n + 1)
      ensures Bit(le', j) == FrameBit(data, j)
    {
      BitConcat(le, data[n], n * 8, j);
    }
    Pow2Values();
    forall j {:trigger Bit(be', j)} | 0 <= j < 8 * (n + 1)
      ensures Bit(be', j) == FrameBit(data, 8 * (n - j / 8) + j % 8)
    {
      ShiftedBit(be, data, n, j);
    }
  }

  /** A bit of the big-endian word after one more byte. */
  lemma ShiftedBit(be: nat, data: Payload, n: nat, j: nat)
    requires n < 8 && j < 8 * (n + 1)
    requires forall i {:trigger Bit(be, i)} | 0 <= i < 8 * n ::
             Bit(be, i) == FrameBit(data, 8 * (n - 1 - i / 8) + i % 8)
    ensures Bit(data[n] + Shl(be, 8), j) == FrameBit(data, 8 * (n - j / 8) + j % 8)
  {
    hide Bit, Shl, Pow2;
    Pow2Values();
    BitConcat(data[n], be, 8, j);
    if j >= 8 {
      assert Bit(be, j - 8) == FrameBit(data, 8 * (n - 1 - (j - 8) / 8) + (j - 8) % 8);
    }
  }

  /** Building both words from the frame bytes. */
  method SplitWords(data: Payload) returns (le: Word, be: Word)
    ensures HoldsFrame(le, be, data)
  {
    hide Bit, Low, Shl;
    le, be := 0, 0;
    for i := 0 to 8
      invariant HoldsBytes(le, be, data, i)
    {
      AppendByte(le, be, data, i);
      le := ToWord(le + Shl64(data[i], i * 8));
      be := ToWord(Shl64(be, 8) + data[i]);
    }
  }

  /** The description that a configuration leaves in the table for an identifier. */
  function LastDefinition(config: seq<Message>, id: nat): Option<Message> {
    if config == [] then None
    else if config[|config| - 1].id == id then Some(config[|config| - 1])
    else LastDefinition(config[..|config| - 1], id)
  }

  lemma {:induction false} LastDefinitionIsLast(config: seq<Message>, id: nat, k: nat)
    requires k < |config| && config[k].id == id
    requires forall j | k < j < |config| :: config[j].id != id
    ensures LastDefinition(config, id) == Some(config[k])
  {
    if k < |config| - 1 {
      LastDefinitionIsLast(config[..|config| - 1], id, k);
    }
  }

  /** One more signal in each of the lists that the decoder fills. */
  lemma ListStep(sigs: seq<Signal>, k: nat, mux: int)
    requires k < |sigs|
    ensures PlainSignals(sigs[..k + 1])
            == if sigs[k].multiplexedBy == -1 then PlainSignals(sigs[..k]) + [sigs[k]] else PlainSignals(sigs[..k])
    ensures MultiplexedSignals(sigs[..k + 1])
            == if sigs[k].multiplexedBy != -1 then MultiplexedSignals(sigs[..k]) + [sigs[k]]
                else MultiplexedSignals(sigs[..k])
    ensures SelectedBy(sigs[..k + 1], mux)
            == if sigs[k].multiplexedBy == mux then SelectedBy(sigs[..k], mux) + [sigs[k]]
                else SelectedBy(sigs[..k], mux)
    ensures forall s | s in PlainSignals(sigs[..k + 1]) :: s in PlainSignals(sigs)
    ensures forall s | s in SelectedBy(sigs[..k + 1], mux) :: s in SelectedBy(sigs, mux)
  {
    assert sigs[..k + 1][..k] == sigs[..k];
  }

  /** Appending one decoded signal to the published values and to the multiplexor value. */
  lemma PublishStep(plain: seq<Signal>, sig: Signal, data: Payload)
    requires AllFit(plain) && Fits(sig)
    ensures AllFit(plain + [sig])
    ensures Published(plain + [sig], data)
            == Published(plain, data) + [SignalValue(sig.name, PublishedValue(sig, data))]
    ensures MuxValue(plain + [sig], data) == if sig.multiplexer then Truncate(Physical(sig, data))
            else MuxValue(plain, data)
  {
    assert (plain + [sig])[..|plain|] == plain;
  }

  lemma PublishedConcat(a: seq<Signal>, b: seq<Signal>, data: Payload)
    requires AllFit(a) && AllFit(b)
    ensures AllFit(a + b)
    ensures Published(a + b, data) == Published(a, data) + Published(b, data)
  {
  }

  /** The accumulator words after the first `k` values. */
  ghost predicate Accumulated(sigs: seq<Signal>, values: seq<SignalValue>, k: nat, le: Word, be: Word)
    requires CanSendAll(sigs, values) && k <= |values|
  {
    forall b | 0 <= b < 64 ::
      WordsBit(le, be, b) <==> exists m :: 0 <= m < k && Contributes(sigs, values[m], b)
  }

  lemma NothingAccumulated(sigs: seq<Signal>, values: seq<SignalValue>)
    requires CanSendAll(sigs, values)
    ensures Accumulated(sigs, values, 0, 0, 0)
  {
    forall b | 0 <= b < 64
      ensures !WordsBit(0, 0, b)
    {
      BitZero(b);
      BitZero(Mirror(b));
    }
  }

  lemma AccumulateStep(sigs: seq<Signal>, values: seq<SignalValue>, k: nat, le: Word, be: Word, le': Word, be': Word)
    requires CanSendAll(sigs, values) && k < |values| && Accumulated(sigs, values, k, le, be)
    requires forall b | 0 <= b < 64 ::
               WordsBit(le', be', b) == (WordsBit(le, be, b) || Contributes(sigs, values[k], b))
    ensures Accumulated(sigs, values, k + 1, le', be')
  {
    hide WordsBit, Contributes;
    forall b | 0 <= b < 64
      ensures WordsBit(le', be', b) <==> exists m :: 0 <= m < k + 1 && Contributes(sigs, values[m], b)
    {
      assert WordsBit(le, be, b) <==> exists m :: 0 <= m < k && Contributes(sigs, values[m], b);
      if m :| 0 <= m < k && Contributes(sigs, values[m], b) {
        assert 0 <= m < k + 1;
      } else if m :| 0 <= m < k + 1 && Contributes(sigs, values[m], b) {
        assert m == k;
      } else {
        assert !Contributes(sigs, values[k], b);
      }
    }
  }

  /** The decoder's three accumulators after `k` signals of the first pass. */
  ghost predicate FirstPass(sigs: seq<Signal>, data: Payload, k: nat, multiplexed: seq<Signal>,
                            values: seq<SignalValue>, mux: int) {
    && k <= |sigs|
    && AllFit(PlainSignals(sigs[..k]))
    && multiplexed == MultiplexedSignals(sigs[..k])
    && values == Published(PlainSignals(sigs[..k]), data)
    && mux == MuxValue(PlainSignals(sigs[..k]), data)
  }

  lemma FirstPassStep(sigs: seq<Signal>, data: Payload, k: nat, multiplexed: seq<Signal>, values: seq<SignalValue>,
                      mux: int)
    requires k < |sigs| && FirstPass(sigs, data, k, multiplexed, values, mux)
    requires sigs[k].multiplexedBy == -1 ==> Fits(sigs[k])
    ensures if sigs[k].multiplexedBy != -1 then FirstPass(sigs, data, k + 1, multiplexed + [sigs[k]], values, mux)
            else FirstPass(sigs, data, k + 1, multiplexed,
                           values + [SignalValue(sigs[k].name, PublishedValue(sigs[k], data))],
                           if sigs[k].multiplexer then Truncate(Physical(sigs[k], data)) else mux)
  {
    hide PlainSignals, MultiplexedSignals, Published, MuxValue, Fits, RawValue, Truncate;
    ListStep(sigs, k, -1);
    if sigs[k].multiplexedBy == -1 {
      PublishStep(PlainSignals(sigs[..k]), sigs[k], data);
    }
  }

  /** The selected signals published after `k` signals of the second pass. */
  ghost predicate SecondPass(multiplexed: seq<Signal>, data: Payload, mux: int, k: nat, values: seq<SignalValue>) {
    && k <= |multiplexed|
    && AllFit(SelectedBy(multiplexed[..k], mux))
    && values == Published(SelectedBy(multiplexed[..k], mux), data)
  }

  lemma SecondPassStep(multiplexed: seq<Signal>, data: Payload, mux: int, k: nat, values: seq<SignalValue>)
    requires k < |multiplexed| && SecondPass(multiplexed, data, mux, k, values)
    requires multiplexed[k].multiplexedBy == mux ==> Fits(multiplexed[k])
    requires multiplexed[k].multiplexedBy != -1
    ensures SecondPass(multiplexed, data, mux, k + 1,
              if multiplexed[k].multiplexedBy == mux
                  then values + [SignalValue(multiplexed[k].name, Physical(multiplexed[k], data))]
              else values)
  {
    hide SelectedBy, Published, MuxValue, Fits, RawValue, Truncate;
    ListStep(multiplexed, k, mux);
    if multiplexed[k].multiplexedBy == mux {
      PublishStep(SelectedBy(multiplexed[..k], mux), multiplexed[k], data);
    }
  }

  lemma PassesDone(sigs: seq<Signal>, data: Payload, multiplexed: seq<Signal>, plain: seq<SignalValue>, mux: int,
                   selected: seq<SignalValue>)
    requires Decodable(sigs, data)
    requires FirstPass(sigs, data, |sigs|, multiplexed, plain, mux)
    requires SecondPass(multiplexed, data, mux, |multiplexed|, selected)
    ensures plain + selected == DecodedValues(sigs, data)
  {
    hide SelectedBy, MultiplexedSignals, PlainSignals, Published, MuxValue, Fits;
    assert sigs[..|sigs|] == sigs && multiplexed[..|multiplexed|] == multiplexed;
    PublishedConcat(PlainSignals(sigs), SelectedBy(multiplexed, mux), data);
  }

  /** The two passes over the signal list: plain signals first, then the selected ones. */
  method DecodeSignals(sigs: seq<Signal>, data: Payload) returns (values: seq<SignalValue>)
    requires Decodable(sigs, data)
    ensures values == DecodedValues(sigs, data)
  {
    hide SelectedBy, MultiplexedSignals, PlainSignals, Published, MuxValue, Fits, DecodeRaw, RawValue, Truncate,
         FirstPass, SecondPass;
    var le, be := SplitWords(data);
    var multiplexed: seq<Signal> := [];
    var mux := -1;
    values := [];
    PassesStart(sigs, data);
    for k := 0 to |sigs|
      invariant FirstPass(sigs, data, k, multiplexed, values, mux)
    {
      var sig := sigs[k];
      PlainIffUnconditioned(sigs, k);
      FirstPassStep(sigs, data, k, multiplexed, values, mux);
      if sig.multiplexedBy != -1 {
        multiplexed := multiplexed + [sig];
        continue;
      }
      DecodeReadsField(sig, le, be, data);
      if sig.multiplexer {
        mux := Truncate(DecodeValue(sig, le, be));
        values := values + [SignalValue(sig.name, mux as real)];
        continue;
      }
      values := values + [SignalValue(sig.name, DecodeValue(sig, le, be))];
    }
    ghost var plain, selected := values, [];
    for k := 0 to |multiplexed|
      invariant SecondPass(multiplexed, data, mux, k, selected)
      invariant values == plain + selected
    {
      var sig := multiplexed[k];
      SelectedIsActive(sigs, data, multiplexed, plain, mux, k);
      SecondPassStep(multiplexed, data, mux, k, selected);
      if sig.multiplexedBy == mux {
        DecodeReadsField(sig, le, be, data);
        var sv := SignalValue(sig.name, DecodeValue(sig, le, be));
        assert plain + (selected + [sv]) == plain + selected + [sv];
        values, selected := values + [sv], selected + [sv];
      }
    }
    PassesDone(sigs, data, multiplexed, plain, mux, selected);
  }

  lemma PassesStart(sigs: seq<Signal>, data: Payload)
    ensures FirstPass(sigs, data, 0, [], [], -1)
    ensures forall multiplexed, mux :: SecondPass(multiplexed, data, mux, 0, [])
  {
  }

  lemma PlainIffUnconditioned(sigs: seq<Signal>, k: nat)
    requires k < |sigs|
    ensures sigs[k].multiplexedBy == -1 <==> sigs[k] in PlainSignals(sigs)
  {
  }

  lemma SelectedIsActive(sigs: seq<Signal>, data: Payload, multiplexed: seq<Signal>, plain: seq<SignalValue>, mux: int,
                         k: nat)
    requires FirstPass(sigs, data, |sigs|, multiplexed, plain, mux) && AllFit(PlainSignals(sigs))
    requires k < |multiplexed|
    ensures multiplexed[k].multiplexedBy != -1
    ensures multiplexed[k].multiplexedBy == mux ==> multiplexed[k] in ActiveSignals(sigs, data)
  {
    assert sigs[..|sigs|] == sigs;
  }

  datatype EncodedFrame = EncodedFrame(messageId: nat, dlc: Byte, data: Payload)

  class CanDbcHandler {
    const dbcMessages: array<Option<Message>>

    predicate Valid() {
      dbcMessages.Length == ID_COUNT
    }

    constructor ()
      ensures Valid() && fresh(dbcMessages)
      ensures forall id | 0 <= id < ID_COUNT :: dbcMessages[id] == None
    {
      dbcMessages := new Option<Message>[ID_COUNT](_ => None);
    }

    /** Replaces the whole table; of several definitions of one identifier the last counts. */
    method HandleNewDbc(config: seq<Message>)
      requires Valid()
      modifies dbcMessages
      ensures forall id | 0 <= id < ID_COUNT :: dbcMessages[id] == LastDefinition(config, id)
    {
      for i := 0 to dbcMessages.Length
        invariant forall id | 0 <= id < i :: dbcMessages[id] == None
      {
        dbcMessages[i] := None;
      }
      for k := 0 to |config|
        invariant forall id | 0 <= id < ID_COUNT :: dbcMessages[id] == LastDefinition(config[..k], id)
      {
        assert config[..k + 1][..k] == config[..k];
        if config[k].id < dbcMessages.Length {
          dbcMessages[config[k].id] := Some(config[k]);
        }
      }
      assert config[..|config|] == config;
    }

    predicate Knows(id: nat)
      requires Valid()
      reads dbcMessages
    {
      id < ID_COUNT && dbcMessages[id].Some?
    }

    /** Decodes a received frame; nothing is published for unknown or short frames. */
    method ParseReceivedMessage(canId: nat, len: nat, data: Payload, timestamp: int)
      returns (published: Option<DbcCanMessage>)
      requires Valid()
      requires Knows(canId) && len >= dbcMessages[canId].value.size ==>
               Decodable(dbcMessages[canId].value.signals, data)
      ensures published.Some? <==> Knows(canId) && len >= dbcMessages[canId].value.size
      ensures published.Some? ==>
                published.value == DbcCanMessage(timestamp, DecodedValues(dbcMessages[canId].value.signals, data),
                                                 canId)
    {
      if canId >= dbcMessages.Length {
        return None;
      }
      if dbcMessages[canId].None? {
        return None;
      }
      var desc := dbcMessages[canId].value;
      if len < desc.size {
        return None;
      }
      var values := DecodeSignals(desc.signals, data);
      published := Some(DbcCanMessage(timestamp, values, canId));
    }

    /** Encodes a decoded message; a message without a description leaves the output untouched. */
    method HandleEncodeMessage(message: DbcCanMessage) returns (encoded: Option<EncodedFrame>)
      requires Valid()
      requires Knows(message.messageId) ==>
               CanSendAll(dbcMessages[message.messageId].value.signals, message.signalValues)
      ensures encoded.Some? <==> Knows(message.messageId)
      ensures encoded.Some? ==>
                && encoded.value.messageId == message.messageId
                && encoded.value.dlc == dbcMessages[message.messageId].value.size % 256
                && Encodes(dbcMessages[message.messageId].value.signals, message.signalValues, encoded.value.data)
    {
      if message.messageId >= dbcMessages.Length {
        return None;
      }
      if dbcMessages[message.messageId].None? {
        return None;
      }
      var desc := dbcMessages[message.messageId].value;
      var sigs, values := desc.signals, message.signalValues;
      var le: Word, be: Word := 0, 0;
      NothingAccumulated(sigs, values);
      for k := 0 to |values|
        invariant Accumulated(sigs, values, k, le, be)
      {
        assert CanSend(sigs, values[k]);
        ghost var le0, be0 := le, be;
        var i := 0;
        while i < |sigs| && sigs[i].name != values[k].name
          invariant 0 <= i <= |sigs|
          invariant FindSignal(sigs, values[k].name) == FindSignal(sigs[i..], values[k].name)
        {
          assert sigs[i..][1..] == sigs[i + 1..];
          i := i + 1;
        }
        if i < |sigs| {
          le, be := ParseSendSignal(sigs[i], le, be, values[k].value);
        }
        AccumulateStep(sigs, values, k, le0, be0, le, be);
      }
      var data := JoinWords(le, be);
      encoded := Some(EncodedFrame(message.messageId, desc.size % 256, data));
    }
  }
}
