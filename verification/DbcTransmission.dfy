/** From the values that one side sends to the values that the other side publishes. */
module DbcTransmission {
  import opened Bits
  import opened CanTypes
  import opened DbcCodec
  import opened DbcCodecTheorems

  /** At most one multiplexor, an integer of at most 31 bits. */
  ghost predicate SimplyMultiplexed(sigs: seq<Signal>) {
    && (forall s | s in sigs && IsMultiplexor(s) :: s.factor == 1.0 && s.offset == 0.0 && 1 <= s.size <= 31)
    && forall s, t | s in sigs && t in sigs && IsMultiplexor(s) && IsMultiplexor(t) :: s == t
  }

  predicate IsMultiplexor(s: Signal) {
    s.multiplexer && s.multiplexedBy == -1
  }

  lemma TruncateInt(n: int)
    ensures Truncate(n as real * 1.0 + 0.0) == n
  {
  }

  lemma SmallRaw(sig: Signal, data: Payload)
    requires Fits(sig) && sig.size <= 31
    ensures IsInt32(RawValue(sig, data))
  {
    hide FieldFrom, Signed, Pow2;
    Pow2Values();
    Pow2Monotone(sig.size, 31);
    Pow2Monotone(sig.size - 1, 31);
  }

  lemma AlwaysDecodable(sigs: seq<Signal>, data: Payload)
    requires SimplyMultiplexed(sigs) && forall s | s in sigs :: Fits(s)
    ensures Decodable(sigs, data)
  {
    hide Fits, RawValue, Truncate, IsInt32, MuxValue;
    forall s | s in PlainSignals(sigs) && s.multiplexer
      ensures IsInt32(Truncate(Physical(s, data)))
    {
      assert IsMultiplexor(s);
      SmallRaw(s, data);
      TruncateInt(RawValue(s, data));
    }
  }

  /** Value m of the message sends the signal. */
  predicate Sends(sigs: seq<Signal>, values: seq<SignalValue>, m: nat, sig: Signal) {
    m < |values| && FindSignal(sigs, values[m].name) == Some(sig)
  }

  /** The raw integer that value m sends survives in the signal's field. */
  predicate Survives(sig: Signal, value: real) {
    sig.factor != 0.0 && sig.size >= 1 && Representable(sig, RawOf(sig, value))
  }

  /** The multiplexor's bits hold the number n: the one that was sent, cut to the field, or 0 where nothing was sent. */
  ghost predicate Carries(sigs: seq<Signal>, values: seq<SignalValue>, mux: Signal, n: int)
    requires CanSendAll(sigs, values)
  {
    || (exists m: nat :: Sends(sigs, values, m, mux) && SendsNumber(mux, values[m].value, n))
    || (Untouched(sigs, values, mux) && n == 0)
  }

  predicate SendsNumber(mux: Signal, value: real, n: int) {
    mux.factor != 0.0 && mux.size >= 1 && Wrapped(mux, RawOf(mux, value)) == n
  }

  /** No sent signal has a bit of this one. */
  ghost predicate Untouched(sigs: seq<Signal>, values: seq<SignalValue>, sig: Signal)
    requires CanSendAll(sigs, values)
  {
    Fits(sig) && forall i, b | 0 <= i < |values| && 0 <= b < 64 :: !(Covers(sig, b) && Occupies(sigs, values[i], b))
  }

  lemma CarriedIsRead(sigs: seq<Signal>, values: seq<SignalValue>, data: Payload, mux: Signal, n: int)
    requires CanSendAll(sigs, values) && Encodes(sigs, values, data) && Separate(sigs, values)
    requires Fits(mux) && Carries(sigs, values, mux, n)
    ensures RawValue(mux, data) == n
  {
    hide Fits, RawValue, RawOf, Wrapped, Encodes, Separate, CanSend, Covers, Occupies;
    if m: nat :| Sends(sigs, values, m, mux) && SendsNumber(mux, values[m].value, n) {
      RawRoundTrip(sigs, values, data, m, mux);
    } else {
      UnsentDecodesToZero(sigs, values, data, mux);
    }
  }

  /** A multiplexed signal is decoded exactly if the multiplexor carries its number. */
  lemma MultiplexorSelects(sigs: seq<Signal>, values: seq<SignalValue>, data: Payload, mux: Signal, n: int, sig: Signal)
    requires CanSendAll(sigs, values) && Encodes(sigs, values, data) && Separate(sigs, values)
    requires SimplyMultiplexed(sigs) && forall s | s in sigs :: Fits(s)
    requires mux in sigs && IsMultiplexor(mux) && Carries(sigs, values, mux, n)
    requires sig in sigs && sig.multiplexedBy != -1
    ensures sig in ActiveSignals(sigs, data) <==> sig.multiplexedBy == n
  {
    hide Fits, RawValue, RawOf, Truncate, ActiveSignals, Encodes, Separate, CanSend, Carries;
    forall s | s in sigs && s.multiplexer && s.multiplexedBy == -1
      ensures s == mux
    {
      assert IsMultiplexor(s);
    }
    SelectionIsPositionFree(sigs, data, mux, sig);
    CarriedIsRead(sigs, values, data, mux, n);
    TruncateInt(RawValue(mux, data));
  }

  /** Some published value of that name is where the sent value arrives. */
  ghost predicate Delivered(published: seq<SignalValue>, sig: Signal, value: real) {
    exists k | 0 <= k < |published| :: published[k].name == sig.name && Arrives(sig, value, published[k].value)
  }

  /** Truncation leaves a multiplexor's value as it is, so every signal is published with its physical value. */
  lemma PublishedIsPhysical(sigs: seq<Signal>, data: Payload, sig: Signal)
    requires SimplyMultiplexed(sigs) && sig in sigs && Fits(sig)
    ensures PublishedValue(sig, data) == Physical(sig, data)
  {
    hide Fits, RawValue, Truncate;
    if IsMultiplexor(sig) { TruncateInt(RawValue(sig, data)); }
  }

  lemma PublishedAt(sigs: seq<Signal>, data: Payload, k: nat)
    requires AllFit(PlainSignals(sigs)) && AllFit(ActiveSignals(sigs, data)) && k < |ActiveSignals(sigs, data)|
    ensures var published, sig := DecodedValues(sigs, data), ActiveSignals(sigs, data)[k];
            k < |published| && Fits(sig) && published[k] == SignalValue(sig.name, PublishedValue(sig, data))
  {
    hide Fits, ActiveSignals, PublishedValue;
  }

  /** A sent signal that is active is published, and arrives. */
  lemma ActiveIsDelivered(sigs: seq<Signal>, values: seq<SignalValue>, data: Payload, m: nat, sig: Signal)
    requires CanSendAll(sigs, values) && Encodes(sigs, values, data) && Separate(sigs, values)
    requires Decodable(sigs, data) && sig in ActiveSignals(sigs, data) && SimplyMultiplexed(sigs)
    requires Sends(sigs, values, m, sig) && Survives(sig, values[m].value)
    ensures Delivered(DecodedValues(sigs, data), sig, values[m].value)
  {
    hide Fits, RawValue, RawOf, ActiveSignals, Encodes, Separate, CanSend, Representable, Arrives, SimplyMultiplexed,
         PublishedValue;
    QuantisationBound(sigs, values, data, m, sig);
    var active := ActiveSignals(sigs, data);
    var k :| 0 <= k < |active| && active[k] == sig;
    PublishedIsPhysical(sigs, data, sig);
    var published := DecodedValues(sigs, data);
    PublishedAt(sigs, data, k);
    assert Arrives(sig, values[m].value, Physical(sig, data));
    assert published[k].name == sig.name && Arrives(sig, values[m].value, published[k].value);
  }

  /** The signal is plain, or the multiplexor carries its number. */
  ghost predicate Chosen(sigs: seq<Signal>, values: seq<SignalValue>, sig: Signal)
    requires CanSendAll(sigs, values)
  {
    sig.multiplexedBy == -1 || exists mux | mux in sigs && IsMultiplexor(mux) ::
        Carries(sigs, values, mux, sig.multiplexedBy)
  }

  lemma ChosenIsActive(sigs: seq<Signal>, values: seq<SignalValue>, data: Payload, sig: Signal)
    requires CanSendAll(sigs, values) && Encodes(sigs, values, data) && Separate(sigs, values)
    requires SimplyMultiplexed(sigs) && forall s | s in sigs :: Fits(s)
    requires sig in sigs && Chosen(sigs, values, sig)
    ensures AllFit(PlainSignals(sigs)) && sig in ActiveSignals(sigs, data)
  {
    hide Fits, RawOf, Encodes, Separate, CanSend, Carries;
    if sig.multiplexedBy != -1 {
      var mux :| mux in sigs && IsMultiplexor(mux) && Carries(sigs, values, mux, sig.multiplexedBy);
      MultiplexorSelects(sigs, values, data, mux, sig.multiplexedBy, sig);
    }
  }

  /**
   Encoding a message and decoding the frame: every sent signal whose raw integer its field can hold and
   that is plain or selected arrives; a multiplexor that is not sent selects the signals of number 0.  The frame is
   decoded exactly if the length of the description fits into a byte.
   */
  method Transmit(handler: CanDbcHandler, message: DbcCanMessage, timestamp: int)
    returns (received: Option<DbcCanMessage>)
    requires handler.Valid() && handler.Knows(message.messageId)
    requires var sigs := handler.dbcMessages[message.messageId].value.signals;
             && CanSendAll(sigs, message.signalValues) && Separate(sigs, message.signalValues)
             && SimplyMultiplexed(sigs) && forall s | s in sigs :: Fits(s)
    ensures received.Some? <==> handler.dbcMessages[message.messageId].value.size < 256
    ensures received.Some? ==> received.value.messageId == message.messageId && received.value.receiveTime == timestamp
    ensures received.Some? ==>
              var sigs, values := handler.dbcMessages[message.messageId].value.signals, message.signalValues;
              forall m: nat, sig |
                Sends(sigs, values, m, sig) && Survives(sig, values[m].value) && Chosen(sigs, values, sig) ::
                Delivered(received.value.signalValues, sig, values[m].value)
  {
    hide Fits, RawOf, Encodes, Separate, CanSend, Decodable, SimplyMultiplexed, DecodedValues, Delivered, Survives,
         Chosen, Encodable, Representable;
    var encoded := handler.HandleEncodeMessage(message);
    ghost var sigs, values := handler.dbcMessages[message.messageId].value.signals, message.signalValues;
    var frame := encoded.value;
    AlwaysDecodable(sigs, frame.data);
    received := handler.ParseReceivedMessage(frame.messageId, frame.dlc, frame.data, timestamp);
    forall m: nat, sig |
      received.Some? && Sends(sigs, values, m, sig) && Survives(sig, values[m].value) && Chosen(sigs, values, sig)
      ensures Delivered(received.value.signalValues, sig, values[m].value)
    {
      ChosenIsActive(sigs, values, frame.data, sig);
      ActiveIsDelivered(sigs, values, frame.data, m, sig);
    }
  }
}
