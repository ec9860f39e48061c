/** The range that the DBC parser fills in for signals declared with [0|0]. */
module PhysicalRange {
  import opened Bits
  import opened CanTypes

  /** The largest and smallest raw integers of the signal's type. */
  function RawMaximum(sig: Signal): int {
    if sig.signed then if sig.size >= 64 then 0x7FFF_FFFF_FFFF_FFFF else HalfRange(sig.size) - 1
    else if sig.size >= 64 then 0xFFFF_FFFF_FFFF_FFFF else Pow2(sig.size) - 1
  }

  function RawMinimum(sig: Signal): int {
    if sig.signed then if sig.size >= 64 then -0x8000_0000_0000_0000 else 0 - HalfRange(sig.size)
    else 0
  }

  /** 2^(size - 1); the shift is undefined in C++ for size 0, where 1 stands in for it. */
  function HalfRange(size: nat): nat {
    if size == 0 then 1 else Pow2(size - 1)
  }

  /** The raw integers of the signal's type: at most 64 bits, signed or not. */
  predicate InRawType(sig: Signal, raw: int) {
    var bits := if sig.size < 64 then sig.size else 64;
    if sig.signed then bits > 0 && 0 - Pow2(bits - 1) <= raw < Pow2(bits - 1) else 0 <= raw < Pow2(bits)
  }

  lemma RawTypeBounds(sig: Signal, raw: int)
    requires sig.size >= 1
    ensures InRawType(sig, raw) <==> RawMinimum(sig) <= raw <= RawMaximum(sig)
    ensures RawMinimum(sig) <= RawMaximum(sig)
  {
    hide Pow2;
    Pow2Values();
    Pow2Monotone(0, sig.size - 1);
    assert Pow2(0) == 1 by { PowerOfZero(); }
  }

  lemma PowerOfZero()
    ensures Pow2(0) == 1
  {
  }

  lemma ScaledInside(low: int, high: int, raw: int, factor: real, offset: real)
    requires factor > 0.0
    ensures low <= raw <= high
            <==> low as real * factor + offset <= raw as real * factor + offset <= high as real * factor + offset
  {
    StepIsPositive(low, raw, factor);
    StepIsPositive(raw, high, factor);
  }

  lemma StepIsPositive(a: int, b: int, factor: real)
    requires factor > 0.0
    ensures a <= b <==> a as real * factor <= b as real * factor
  {
    assert (b as real - a as real) * factor == b as real * factor - a as real * factor;
    if a <= b {
      assert (b as real - a as real) * factor >= 0.0;
    } else {
      assert (a as real - b as real) * factor > 0.0;
    }
  }

  /** Whether the physical value of a raw integer lies in the signal's range. */
  predicate InRange(sig: Signal, raw: int) {
    sig.minimum <= raw as real * sig.factor + sig.offset <= sig.maximum
  }

  /**
   A range filled in for 0|0 holds the physical values of exactly the raw integers of the type; any other range is kept.
   */
  lemma FilledRangeIsExact(sig: Signal, raw: int)
    requires sig.size >= 1 && sig.factor > 0.0
    ensures sig.minimum == sig.maximum == 0.0 ==> (InRange(WithPhysicalRange(sig), raw) <==> InRawType(sig, raw))
    ensures !(sig.minimum == sig.maximum == 0.0) ==> WithPhysicalRange(sig) == sig
  {
    hide InRawType, RawMinimum, RawMaximum;
    RawTypeBounds(sig, raw);
    ScaledInside(RawMinimum(sig), RawMaximum(sig), raw, sig.factor, sig.offset);
  }

  /** calculatePhysicalRange: only a range declared as 0|0 is replaced. */
  function WithPhysicalRange(sig: Signal): Signal {
    if sig.minimum == 0.0 && sig.maximum == 0.0 then
      sig.(minimum := RawMinimum(sig) as real * sig.factor + sig.offset,
           maximum := RawMaximum(sig) as real * sig.factor + sig.offset)
    else sig
  }
}
