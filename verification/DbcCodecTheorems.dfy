/** What the codec guarantees across encoding and decoding. */
module DbcCodecTheorems {
  import opened Bits
  import opened CanTypes
  import opened DbcCodec
  import opened PhysicalRange

  /**
   The bit numbering is the DBC one: an Intel signal counts up from its start bit, a Motorola
   signal starts at its start bit with the most significant bit and walks down each byte, then
   on to bit 7 of the next byte.
   */
  lemma FramePosIsDbcNumbering(sig: Signal, j: nat)
    requires Fits(sig) && j < sig.size
    ensures !sig.bigEndian ==> FramePos(sig, j) == sig.startBit + j
    ensures sig.bigEndian ==> FramePos(sig, sig.size - 1) == sig.startBit
    ensures sig.bigEndian && j > 0 ==>
              var b := FramePos(sig, j);
              FramePos(sig, j - 1) == if b % 8 > 0 then b - 1 else b + 15
  {
    hide Mirror;
    if sig.bigEndian {
      MirrorOfLinear(sig.startBit);
      if j > 0 { MirrorStep(WordPos(sig) + j); }
    }
  }

  /** One bit up in the word is one bit up in its byte, or the lowest bit of the byte before. */
  lemma MirrorStep(p: nat)
    requires 0 < p < 64
    ensures Mirror(p - 1) == if Mirror(p) % 8 > 0 then Mirror(p) - 1 else Mirror(p) + 15
  {
    assert Mirror(p) % 8 == p % 8;
    if p % 8 > 0 {
      assert (p - 1) / 8 == p / 8 && (p - 1) % 8 == p % 8 - 1;
    } else {
      assert (p - 1) / 8 == p / 8 - 1 && (p - 1) % 8 == 7;
    }
  }

  lemma MirrorOfLinear(b: nat)
    requires b < 64
    ensures Mirror(56 - 8 * (b / 8) + b % 8) == b
  {
    assert (56 - 8 * (b / 8) + b % 8) / 8 == 7 - b / 8;
  }

  /** No frame bit is covered by two of the sent signals. */
  ghost predicate Separate(sigs: seq<Signal>, values: seq<SignalValue>)
    requires CanSendAll(sigs, values)
  {
    forall i, j, b | 0 <= i < |values| && 0 <= j < |values| && i != j && 0 <= b < 64 ::
      !(Occupies(sigs, values[i], b) && Occupies(sigs, values[j], b))
  }

  predicate Occupies(sigs: seq<Signal>, sv: SignalValue, b: nat)
    requires CanSend(sigs, sv) && b < 64
  {
    var found := FindSignal(sigs, sv.name);
    found.Some? && Covers(found.value, b)
  }

  /** The raw integer as the signal's field can hold it. */
  function Wrapped(sig: Signal, raw: int): int
    requires sig.size >= 1
  {
    if ReadsSigned(sig) then Signed(raw, sig.size) else Low(raw, sig.size)
  }

  lemma WrappedIsExactWhenRepresentable(sig: Signal, raw: int)
    requires sig.size >= 1
    ensures Wrapped(sig, raw) == raw <==> Representable(sig, raw)
    ensures Wrapped(sig, raw) % 2 == raw % 2
  {
    LowestBitKept(raw, sig.size);
    hide Signed, Low, Pow2;
    SignedFixed(raw, sig.size);
    LowFixed(raw, sig.size);
  }

  lemma LowestBitKept(raw: int, n: nat)
    requires n >= 1
    ensures Signed(raw, n) % 2 == raw % 2 == Low(raw, n) % 2
  {
  }

  /** A frame bit of a sent signal is that signal's own bit. */
  lemma OwnBit(sigs: seq<Signal>, values: seq<SignalValue>, data: Payload, m: nat, sig: Signal, j: nat)
    requires CanSendAll(sigs, values) && Encodes(sigs, values, data) && Separate(sigs, values)
    requires m < |values| && FindSignal(sigs, values[m].name) == Some(sig)
    requires CanSend(sigs, values[m]) && j < sig.size
    ensures FrameBit(data, FramePos(sig, j)) == Bit(RawOf(sig, values[m].value), j)
  {
    hide Bit, RawOf;
    var b := FramePos(sig, j);
    FramePosInverts(sig, j);
    assert Occupies(sigs, values[m], b);
    assert FrameBit(data, b) <==> exists i :: 0 <= i < |values| && Contributes(sigs, values[i], b);
    if FrameBit(data, b) {
      var i :| 0 <= i < |values| && Contributes(sigs, values[i], b);
      assert Occupies(sigs, values[i], b);
      assert i == m;
    }
    assert Contributes(sigs, values[m], b) == Bit(RawOf(sig, values[m].value), j);
  }

  lemma FieldHolds(sig: Signal, data: Payload, raw: int)
    requires Fits(sig)
    requires forall j | 0 <= j < sig.size :: FrameBit(data, FramePos(sig, j)) == Bit(raw, j)
    ensures RawValue(sig, data) == Wrapped(sig, raw)
  {
    hide Bit, Low, Signed, FieldFrom;
    var u := FieldFrom(sig, data, 0);
    forall j | 0 <= j < sig.size
      ensures Bit(u, j) == Bit(raw, j)
    {
      BitField(sig, data, 0, j);
    }
    SignedByBits(u, raw, sig.size);
    LowByBits(u, raw, sig.size);
    LowFixed(u, sig.size);
  }

  /**
   Mixed-endian round trip: every signal sent in the frame decodes to the raw integer that was
   encoded if and only if that integer is one the field can hold.
   */
  lemma RawRoundTrip(sigs: seq<Signal>, values: seq<SignalValue>, data: Payload, m: nat, sig: Signal)
    requires CanSendAll(sigs, values) && Encodes(sigs, values, data) && Separate(sigs, values)
    requires m < |values| && FindSignal(sigs, values[m].name) == Some(sig)
    ensures CanSend(sigs, values[m]) && RawValue(sig, data) == Wrapped(sig, RawOf(sig, values[m].value))
    ensures RawValue(sig, data) == RawOf(sig, values[m].value) <==> Representable(sig, RawOf(sig, values[m].value))
  {
    hide Bit, RawOf, FieldFrom, Wrapped;
    assert CanSend(sigs, values[m]);
    var raw := RawOf(sig, values[m].value);
    forall j | 0 <= j < sig.size
      ensures FrameBit(data, FramePos(sig, j)) == Bit(raw, j)
    {
      OwnBit(sigs, values, data, m, sig, j);
    }
    FieldHolds(sig, data, raw);
    WrappedIsExactWhenRepresentable(sig, raw);
  }

  /** A signal that shares no bit with any sent signal decodes to raw zero. */
  lemma UnsentDecodesToZero(sigs: seq<Signal>, values: seq<SignalValue>, data: Payload, sig: Signal)
    requires CanSendAll(sigs, values) && Encodes(sigs, values, data) && Fits(sig)
    requires forall i, b | 0 <= i < |values| && 0 <= b < 64 :: !(Covers(sig, b) && Occupies(sigs, values[i], b))
    ensures RawValue(sig, data) == 0
  {
    hide Bit, RawOf, FieldFrom, Wrapped;
    forall j | 0 <= j < sig.size
      ensures FrameBit(data, FramePos(sig, j)) == Bit(0, j)
    {
      var b := FramePos(sig, j);
      FramePosInverts(sig, j);
      BitZero(j);
      assert Covers(sig, b);
      forall i | 0 <= i < |values|
        ensures !Contributes(sigs, values[i], b)
      {
        assert !Occupies(sigs, values[i], b);
      }
    }
    FieldHolds(sig, data, 0);
    WrappedIsExactWhenRepresentable(sig, 0);
  }

  lemma PayloadByBits(a: Payload, b: Payload)
    requires forall i | 0 <= i < 64 :: FrameBit(a, i) == FrameBit(b, i)
    ensures a == b
  {
    hide Bit;
    forall k | 0 <= k < 8
      ensures a[k] == b[k]
    {
      forall i | 0 <= i < 8
        ensures Bit(a[k], i) == Bit(b[k], i)
      {
        assert FrameBit(a, 8 * k + i) == FrameBit(b, 8 * k + i);
      }
      Pow2Values();
      NumbersByBits(a[k], b[k], 8);
    }
  }

  /** The frame does not depend on the order in which the values are listed. */
  lemma EncodingIsOrderFree(sigs: seq<Signal>, values: seq<SignalValue>, permuted: seq<SignalValue>, a: Payload,
                            b: Payload)
    requires multiset(values) == multiset(permuted)
    requires CanSendAll(sigs, values) && CanSendAll(sigs, permuted)
    requires Encodes(sigs, values, a) && Encodes(sigs, permuted, b)
    ensures a == b
  {
    forall i | 0 <= i < 64
      ensures FrameBit(a, i) == FrameBit(b, i)
    {
      SameContributions(sigs, values, permuted, i);
      SameContributions(sigs, permuted, values, i);
    }
    PayloadByBits(a, b);
  }

  lemma SameContributions(sigs: seq<Signal>, values: seq<SignalValue>, permuted: seq<SignalValue>, b: nat)
    requires b < 64 && multiset(values) == multiset(permuted)
    requires CanSendAll(sigs, values) && CanSendAll(sigs, permuted)
    ensures (exists m :: 0 <= m < |values| && Contributes(sigs, values[m], b)) ==>
              exists m :: 0 <= m < |permuted| && Contributes(sigs, permuted[m], b)
  {
    hide Contributes;
    if m :| 0 <= m < |values| && Contributes(sigs, values[m], b) {
      assert values[m] in multiset(permuted);
      var n :| 0 <= n < |permuted| && permuted[n] == values[m];
      assert Contributes(sigs, permuted[n], b);
    }
  }

  // ----- Multiplexing

  /** The decoded signals are the plain ones and those that the multiplexor selects. */
  lemma ActiveCharacterised(sigs: seq<Signal>, data: Payload, sig: Signal)
    requires AllFit(PlainSignals(sigs))
    ensures sig in ActiveSignals(sigs, data) <==>
              sig in sigs && (sig.multiplexedBy == -1 || sig.multiplexedBy == MuxValue(PlainSignals(sigs), data))
  {
  }

  lemma {:induction false} OnlyMultiplexor(plain: seq<Signal>, data: Payload, mux: Signal)
    requires AllFit(plain)
    requires mux in plain && mux.multiplexer
    requires forall s | s in plain && s.multiplexer :: s == mux
    ensures MuxValue(plain, data) == Truncate(Physical(mux, data))
  {
    hide Fits, Physical, Truncate;
    if !plain[|plain| - 1].multiplexer {
      assert mux in plain[..|plain| - 1];
      OnlyMultiplexor(plain[..|plain| - 1], data, mux);
    }
  }

  /** The only multiplexor selects wherever it stands in the list of signals. */
  lemma SelectionIsPositionFree(sigs: seq<Signal>, data: Payload, mux: Signal, sig: Signal)
    requires AllFit(PlainSignals(sigs))
    requires mux in sigs && mux.multiplexer && mux.multiplexedBy == -1
    requires forall s | s in sigs && s.multiplexer && s.multiplexedBy == -1 :: s == mux
    requires sig in sigs && sig.multiplexedBy != -1
    ensures sig in ActiveSignals(sigs, data) <==> sig.multiplexedBy == Truncate(Physical(mux, data))
  {
    hide Fits, Physical, Truncate, ActiveSignals, MuxValue;
    OnlyMultiplexor(PlainSignals(sigs), data, mux);
    ActiveCharacterised(sigs, data, sig);
  }

  // ----- Decoding, then encoding

  /** The published value is the physical one and lies inside the declared range. */
  predicate Reencodable(sig: Signal, data: Payload) {
    && Fits(sig) && sig.factor != 0.0
    && PublishedValue(sig, data) == Physical(sig, data)
    && sig.minimum <= Physical(sig, data) <= sig.maximum
  }

  lemma ScaledBack(raw: int, factor: real, offset: real)
    requires factor != 0.0
    ensures (raw as real * factor + offset - offset) / factor == raw as real
  {
  }

  lemma {:induction false} FieldFromBits(sig: Signal, data: Payload, j: nat)
    requires Fits(sig) && j < sig.size
    ensures Bit(RawValue(sig, data), j) == FrameBit(data, FramePos(sig, j))
  {
    hide Bit, Signed, FieldFrom;
    BitField(sig, data, 0, j);
    BitSigned(FieldFrom(sig, data, 0), sig.size, j);
  }

  lemma RawValueIsInt64(sig: Signal, data: Payload)
    requires Fits(sig)
    ensures IsInt64(RawValue(sig, data))
  {
    hide Signed, FieldFrom, Pow2;
    Pow2Values();
    Pow2Monotone(sig.size - 1, WIDTH - 1);
    if !ReadsSigned(sig) { Pow2Monotone(sig.size, WIDTH - 1); }
  }

  lemma RawOfPublished(sig: Signal, data: Payload)
    requires Reencodable(sig, data)
    ensures RawOf(sig, PublishedValue(sig, data)) == RawValue(sig, data)
    ensures Encodable(sig, PublishedValue(sig, data))
  {
    hide RawValue, Round, Fits;
    var raw := RawValue(sig, data);
    ScaledBack(raw, sig.factor, sig.offset);
    assert Clamp(sig, PublishedValue(sig, data)) == Physical(sig, data);
    assert (Physical(sig, data) - sig.offset) / sig.factor == raw as real;
    RoundStaysBetween(raw as real, raw, raw);
    RawValueIsInt64(sig, data);
  }

  ghost predicate DistinctNames(sigs: seq<Signal>) {
    forall s, t | s in sigs && t in sigs && s.name == t.name :: s == t
  }

  lemma DecodedCanBeSent(sigs: seq<Signal>, data: Payload)
    requires DistinctNames(sigs) && Decodable(sigs, data)
    requires forall s | s in ActiveSignals(sigs, data) :: Reencodable(s, data)
    ensures CanSendAll(sigs, DecodedValues(sigs, data))
    ensures forall k | 0 <= k < |ActiveSignals(sigs, data)| ::
              FindSignal(sigs, DecodedValues(sigs, data)[k].name) == Some(ActiveSignals(sigs, data)[k])
  {
    hide Fits, RawOf, RawValue, Physical, PublishedValue;
    var values, active := DecodedValues(sigs, data), ActiveSignals(sigs, data);
    forall k | 0 <= k < |values|
      ensures FindSignal(sigs, values[k].name) == Some(active[k]) && CanSend(sigs, values[k])
    {
      ActiveCharacterised(sigs, data, active[k]);
      RawOfPublished(active[k], data);
    }
  }

  /**
   Encoding what was decoded gives the frame back with every bit outside the active signals
   cleared.  Signals may overlap.
   */
  lemma DecodeThenEncodeProjects(sigs: seq<Signal>, data: Payload, again: Payload)
    requires DistinctNames(sigs) && Decodable(sigs, data)
    requires forall s | s in ActiveSignals(sigs, data) :: Reencodable(s, data)
    requires CanSendAll(sigs, DecodedValues(sigs, data)) && Encodes(sigs, DecodedValues(sigs, data), again)
    ensures forall b | 0 <= b < 64 ::
              FrameBit(again, b) <==> FrameBit(data, b) && exists s :: s in ActiveSignals(sigs, data) && Covers(s, b)
  {
    forall b | 0 <= b < 64
      ensures FrameBit(again, b) <==> FrameBit(data, b) && exists s :: s in ActiveSignals(sigs, data) && Covers(s, b)
    {
      ProjectedBit(sigs, data, again, b);
    }
  }

  lemma ProjectedBit(sigs: seq<Signal>, data: Payload, again: Payload, b: nat)
    requires DistinctNames(sigs) && Decodable(sigs, data) && b < 64
    requires forall s | s in ActiveSignals(sigs, data) :: Reencodable(s, data)
    requires CanSendAll(sigs, DecodedValues(sigs, data)) && Encodes(sigs, DecodedValues(sigs, data), again)
    ensures FrameBit(again, b) <==> FrameBit(data, b) && exists s :: s in ActiveSignals(sigs, data) && Covers(s, b)
  {
    hide Fits, RawOf, RawValue, Physical, PublishedValue, Bit, Covers, ActiveSignals, SetsBit, Encodable, Clamp,
         FrameBit;
    var values, active := DecodedValues(sigs, data), ActiveSignals(sigs, data);
    DecodedCanBeSent(sigs, data);
    forall k | 0 <= k < |values|
      ensures Contributes(sigs, values[k], b) <==> Covers(active[k], b) && FrameBit(data, b)
    {
      assert active[k] in active;
      ContributionOfDecoded(active[k], data, b);
    }
    if k :| 0 <= k < |values| && Contributes(sigs, values[k], b) {
      assert active[k] in active && Covers(active[k], b);
    } else {
      forall s | s in active && FrameBit(data, b)
        ensures !Covers(s, b)
      {
        var k :| 0 <= k < |active| && active[k] == s;
        assert !Contributes(sigs, values[k], b);
      }
    }
  }

  lemma ContributionOfDecoded(sig: Signal, data: Payload, b: nat)
    requires Reencodable(sig, data) && b < 64
    ensures Encodable(sig, PublishedValue(sig, data))
    ensures SetsBit(sig, PublishedValue(sig, data), b) <==> Covers(sig, b) && FrameBit(data, b)
  {
    hide RawOf, RawValue, Physical, PublishedValue, Bit, FramePos, RawIndex, FrameBit, Clamp, Fits, IsInt64, Encodable;
    RawOfPublished(sig, data);
    if Covers(sig, b) {
      IndexInverts(sig, b);
      FieldFromBits(sig, data, RawIndex(sig, b));
    }
  }

  lemma IndexInverts(sig: Signal, b: nat)
    requires Fits(sig) && b < 64 && Covers(sig, b)
    ensures FramePos(sig, RawIndex(sig, b)) == b
  {
  }

  // ----- Quantisation

  function Abs(x: real): real {
    if x < 0.0 then -x else x
  }

  lemma RoundIsNearest(x: real)
    ensures Abs(Round(x) as real - x) <= 0.5
  {
  }

  /** Rounding goes to the nearest integer, from halfway away from zero. */
  lemma RoundsHalfAway(x: real, n: int)
    ensures Round(x) == n <==>
              if x >= 0.0 then n as real - 0.5 <= x < n as real + 0.5 else n as real - 0.5 < x <= n as real + 0.5
  {
  }

  lemma PhysicalIs(sig: Signal, data: Payload)
    requires Fits(sig)
    ensures Physical(sig, data) == RawValue(sig, data) as real * sig.factor + sig.offset
  {
    hide RawValue, Fits;
  }

  /** A multiplexor is published cut towards zero to an integer, every other signal as its raw integer, scaled. */
  lemma PublishedIs(sig: Signal, data: Payload, n: int)
    requires Fits(sig)
    ensures Physical(sig, data) == RawValue(sig, data) as real * sig.factor + sig.offset
    ensures var physical := Physical(sig, data);
            if sig.multiplexer && sig.multiplexedBy == -1
            then PublishedValue(sig, data) == n as real <==>
                   if physical >= 0.0 then n as real <= physical < n as real + 1.0
                   else n as real - 1.0 < physical <= n as real
            else PublishedValue(sig, data) == physical
  {
    hide RawValue, Fits, Physical, Truncate;
    PhysicalIs(sig, data);
    TruncatesTowardsZero(Physical(sig, data), n);
    SameNumber(Truncate(Physical(sig, data)), n);
  }

  lemma SameNumber(a: int, b: int)
    ensures a as real == b as real <==> a == b
  {
  }

  lemma TruncatesTowardsZero(x: real, n: int)
    ensures Truncate(x) == n <==>
              if x >= 0.0 then n as real <= x < n as real + 1.0 else n as real - 1.0 < x <= n as real
  {
  }

  lemma RoundStaysBetween(x: real, low: int, high: int)
    requires low as real <= x <= high as real
    ensures low <= Round(x) <= high
  {
  }

  lemma ScaledError(raw: int, x: real, factor: real)
    ensures Abs((raw as real - x) * factor) == Abs(raw as real - x) * Abs(factor)
  {
  }

  lemma ErrorBound(e: real, f: real, p: real)
    requires e >= 0.0 && f > 0.0 && p == e * f
    ensures p <= f / 2.0 <==> e <= 0.5
  {
    if e <= 0.5 {
      assert e * f <= 0.5 * f;
    } else {
      assert e * f > 0.5 * f;
    }
  }

  /**
   The value comes back to within half a step: to itself inside the declared range, to the maximum from above
   and to the minimum from below.  In a range whose bounds are swapped everything goes to the maximum.
   */
  predicate Arrives(sig: Signal, value: real, back: real) {
    var half := if sig.factor < 0.0 then -sig.factor / 2.0 else sig.factor / 2.0;
    && (sig.minimum <= value <= sig.maximum ==> value - half <= back <= value + half)
    && (value > sig.maximum ==> sig.maximum - half <= back <= sig.maximum + half)
    && (value < sig.minimum <= sig.maximum ==> sig.minimum - half <= back <= sig.minimum + half)
    && (sig.maximum < sig.minimum ==> sig.maximum - half <= back <= sig.maximum + half)
  }

  lemma ArrivesAtClamp(sig: Signal, value: real, back: real)
    ensures Arrives(sig, value, back) <==> Abs(back - Clamp(sig, value)) <= Abs(sig.factor) / 2.0
  {
  }

  /** A sent value arrives exactly if its raw integer is representable in the signal's field. */
  lemma QuantisationBound(sigs: seq<Signal>, values: seq<SignalValue>, data: Payload, m: nat, sig: Signal)
    requires CanSendAll(sigs, values) && Encodes(sigs, values, data) && Separate(sigs, values)
    requires m < |values| && FindSignal(sigs, values[m].name) == Some(sig)
    ensures CanSend(sigs, values[m])
    ensures Arrives(sig, values[m].value, RawValue(sig, data) as real * sig.factor + sig.offset)
            <==> Representable(sig, RawOf(sig, values[m].value))
  {
    hide RawValue, Wrapped, Encodes, Separate, RawOf, Clamp, FindSignal, Representable, Arrives;
    ArrivesAtClamp(sig, values[m].value, RawValue(sig, data) as real * sig.factor + sig.offset);
    RawRoundTrip(sigs, values, data, m, sig);
    assert CanSend(sigs, values[m]);
    WrappedIsExactWhenRepresentable(sig, RawOf(sig, values[m].value));
    HalfStep(sig, values[m].value, RawValue(sig, data));
  }

  /** A raw integer congruent to the rounded one modulo 2 is within half a step only if equal. */
  lemma HalfStep(sig: Signal, v: real, back: int)
    requires sig.factor != 0.0 && back % 2 == RawOf(sig, v) % 2
    ensures Abs(back as real * sig.factor + sig.offset - Clamp(sig, v)) <= Abs(sig.factor) / 2.0
            <==> back == RawOf(sig, v)
  {
    hide Clamp, Round;
    var raw := RawOf(sig, v);
    var x := (Clamp(sig, v) - sig.offset) / sig.factor;
    ErrorIsScaled(back, Clamp(sig, v), sig.factor, sig.offset);
    var e := Abs(back as real - x);
    var p := Abs(back as real * sig.factor + sig.offset - Clamp(sig, v));
    AbsIsPositive(sig.factor);
    AbsIsPositive(back as real - x);
    ErrorBound(e, Abs(sig.factor), p);
    NearestOfParity(x, back);
  }

  lemma AbsIsPositive(x: real)
    ensures Abs(x) >= 0.0 && (x != 0.0 ==> Abs(x) > 0.0)
  {
  }

  lemma NearestOfParity(x: real, back: int)
    requires back % 2 == Round(x) % 2
    ensures Abs(back as real - x) <= 0.5 <==> back == Round(x)
  {
    hide Round;
    RoundIsNearest(x);
    if back != Round(x) { assert back >= Round(x) + 2 || back <= Round(x) - 2; }
  }

  lemma UnscaledError(raw: int, value: real, factor: real, offset: real)
    requires factor != 0.0
    ensures raw as real * factor + offset - value == (raw as real - (value - offset) / factor) * factor
  {
    var x := (value - offset) / factor;
    assert x * factor == value - offset;
    assert (raw as real - x) * factor == raw as real * factor - x * factor;
  }

  lemma ErrorIsScaled(raw: int, value: real, factor: real, offset: real)
    requires factor != 0.0
    ensures Abs(raw as real * factor + offset - value) == Abs(raw as real - (value - offset) / factor) * Abs(factor)
  {
    UnscaledError(raw, value, factor, offset);
    ScaledError(raw, (value - offset) / factor, factor);
  }

  /** Ranges filled in from 0|0 only ever produce representable raw integers. */
  lemma FilledRangeIsRepresentable(declared: Signal, value: real)
    requires declared.minimum == declared.maximum == 0.0 && declared.factor > 0.0
    requires 1 <= declared.size <= (if declared.signed then 64 else 63)
    ensures var sig := WithPhysicalRange(declared);
            Representable(sig, RawOf(sig, value)) && IsInt64(RawOf(sig, value))
  {
    hide Pow2, Round, Clamp, RawMinimum, RawMaximum, Representable;
    var sig := WithPhysicalRange(declared);
    var low, high := RawMinimum(declared), RawMaximum(declared);
    RawRangeOf(declared);
    var c := Clamp(sig, value);
    ScaleMonotone(low, high, sig.factor);
    ClampInside(sig, value);
    QuotientBetween(low, high, c, sig.factor, sig.offset);
    RoundStaysBetween((c - sig.offset) / sig.factor, low, high);
    InRawRange(declared, RawOf(sig, value));
  }

  lemma RawRangeOf(sig: Signal)
    requires sig.size >= 1
    ensures RawMinimum(sig) <= RawMaximum(sig)
  {
    Pow2Values();
  }

  lemma ClampInside(sig: Signal, value: real)
    requires sig.minimum <= sig.maximum
    ensures sig.minimum <= Clamp(sig, value) <= sig.maximum
  {
  }

  lemma InRawRange(declared: Signal, raw: int)
    requires 1 <= declared.size <= (if declared.signed then 64 else 63)
    requires RawMinimum(declared) <= raw <= RawMaximum(declared)
    ensures Representable(WithPhysicalRange(declared), raw) && IsInt64(raw)
  {
    hide Pow2;
    Pow2Values();
    Pow2Monotone(declared.size - 1, WIDTH - 1);
    if !declared.signed { Pow2Monotone(declared.size, WIDTH - 1); }
  }

  lemma ScaleMonotone(low: int, high: int, factor: real)
    requires low <= high && factor > 0.0
    ensures low as real * factor <= high as real * factor
  {
    assert (high as real - low as real) * factor >= 0.0;
  }

  lemma QuotientBetween(low: int, high: int, c: real, factor: real, offset: real)
    requires factor > 0.0
    requires low as real * factor + offset <= c <= high as real * factor + offset
    ensures low as real <= (c - offset) / factor <= high as real
  {
    var q := (c - offset) / factor;
    assert q * factor == c - offset;
  }

  // ----- Order

  /** The signals of a list with the given multiplexor number, from left to right, and where they stand. */
  predicate AreAll(sigs: seq<Signal>, mux: int, at: seq<nat>, picked: seq<Signal>) {
    && |at| == |picked| && (forall k | 0 <= k < |at| :: at[k] < |sigs| && picked[k] == sigs[at[k]])
    && (forall k, l | 0 <= k < l < |at| :: at[k] < at[l])
    && forall i | 0 <= i < |sigs| :: i in at <==> sigs[i].multiplexedBy == mux
  }

  lemma PickNext(sigs: seq<Signal>, mux: int, at: seq<nat>, picked: seq<Signal>)
    requires sigs != [] && AreAll(sigs[..|sigs| - 1], mux, at, picked)
    ensures var last := |sigs| - 1;
            if sigs[last].multiplexedBy == mux then AreAll(sigs, mux, at + [last], picked + [sigs[last]])
            else AreAll(sigs, mux, at, picked)
  {
    var last := |sigs| - 1;
    var init := sigs[..last];
    assert forall i | 0 <= i < last :: init[i] == sigs[i];
    if sigs[last].multiplexedBy == mux {
      var more, all := at + [last], picked + [sigs[last]];
      forall k | 0 <= k < |more|
        ensures more[k] < |sigs| && all[k] == sigs[more[k]]
      {
      }
      forall i | 0 <= i < |sigs|
        ensures i in more <==> sigs[i].multiplexedBy == mux
      {
        if i < last { assert i in at <==> init[i].multiplexedBy == mux; }
      }
    } else {
      forall i | 0 <= i < |sigs|
        ensures i in at <==> sigs[i].multiplexedBy == mux
      {
        if i < last { assert i in at <==> init[i].multiplexedBy == mux; }
      }
    }
  }

  /** The signals without a condition keep their order. */
  lemma {:induction false} PlainInOrder(sigs: seq<Signal>) returns (at: seq<nat>)
    ensures AreAll(sigs, -1, at, PlainSignals(sigs))
  {
    hide AreAll;
    if sigs == [] {
      at := [];
      NothingPicked(-1);
    } else {
      var last := |sigs| - 1;
      at := PlainInOrder(sigs[..last]);
      PickNext(sigs, -1, at, PlainSignals(sigs[..last]));
      if sigs[last].multiplexedBy == -1 {
        at := at + [last];
      } else {
        assert PlainSignals(sigs) == PlainSignals(sigs[..last]);
      }
    }
  }

  lemma NothingPicked(mux: int)
    ensures AreAll([], mux, [], [])
  {
  }

  /** So do those that a multiplexor number selects. */
  lemma {:induction false} SelectedInOrder(sigs: seq<Signal>, mux: int) returns (at: seq<nat>)
    requires mux != -1
    ensures AreAll(sigs, mux, at, SelectedBy(MultiplexedSignals(sigs), mux))
  {
    hide AreAll;
    if sigs == [] {
      at := [];
      NothingPicked(mux);
    } else {
      var last := |sigs| - 1;
      at := SelectedInOrder(sigs[..last], mux);
      SelectedStep(sigs, mux);
      PickNext(sigs, mux, at, SelectedBy(MultiplexedSignals(sigs[..last]), mux));
      if sigs[last].multiplexedBy == mux { at := at + [last]; }
    }
  }

  lemma SelectedStep(sigs: seq<Signal>, mux: int)
    requires sigs != [] && mux != -1
    ensures var init, last := sigs[..|sigs| - 1], sigs[|sigs| - 1];
            SelectedBy(MultiplexedSignals(sigs), mux)
            == if last.multiplexedBy == mux then SelectedBy(MultiplexedSignals(init), mux) + [last]
               else SelectedBy(MultiplexedSignals(init), mux)
  {
    var init, last := sigs[..|sigs| - 1], sigs[|sigs| - 1];
    var before := MultiplexedSignals(init);
    if last.multiplexedBy != -1 {
      assert (before + [last])[..|before|] == before;
    } else {
      assert MultiplexedSignals(sigs) == before;
    }
  }

  /** The last multiplexor among the plain signals selects. */
  lemma {:induction false} LastMultiplexorSelects(plain: seq<Signal>, data: Payload, i: nat)
    requires AllFit(plain) && i < |plain| && plain[i].multiplexer && forall j | i < j < |plain| :: !plain[j].multiplexer
    ensures MuxValue(plain, data) == Truncate(Physical(plain[i], data))
  {
    hide Fits, Physical, Truncate;
    if i < |plain| - 1 { LastMultiplexorSelects(plain[..|plain| - 1], data, i); }
  }

  /** Without a multiplexor no multiplexed signal is decoded. */
  lemma {:induction false} NothingSelects(plain: seq<Signal>, sigs: seq<Signal>, data: Payload)
    requires AllFit(plain) && forall s | s in plain :: !s.multiplexer
    ensures SelectedBy(MultiplexedSignals(sigs), MuxValue(plain, data)) == []
  {
    hide Fits, Physical, Truncate;
    if plain == [] {
      NoMembers(SelectedBy(MultiplexedSignals(sigs), -1));
    } else {
      assert plain[|plain| - 1] in plain;
      NothingSelects(plain[..|plain| - 1], sigs, data);
    }
  }

  lemma NoMembers(sigs: seq<Signal>)
    requires forall s :: s !in sigs
    ensures sigs == []
  {
    HasMember(sigs);
  }

  lemma HasMember(sigs: seq<Signal>)
    ensures sigs == [] || exists s :: s in sigs
  {
    if sigs != [] { assert sigs[0] in sigs; }
  }
}
