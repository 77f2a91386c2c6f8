/** Floating point seen from outside: exact values, the decoding of single-precision patterns, and the arithmetic left open. */
module Numbers {
  import opened Bytes

  /** Zero has one sign here. */
  datatype Number = Finite(value: real) | Infinite | NotANumber

  function Power(n: int): real
    decreases if n < 0 then -n else n
  {
    if n == 0 then 1.0 else if n > 0 then 2.0 * Power(n - 1) else Power(n + 1) / 2.0
  }

  /** The number a single-precision pattern stands for: eight exponent bits above twenty-three fraction bits. */
  function SingleValue(bits: Word32): Number {
    var sign := if bits < 0x8000_0000 then 1.0 else -1.0;
    var exponent, fraction := bits / 0x80_0000 % 0x100, bits % 0x80_0000;
    if exponent == 0xff then if fraction == 0 then Infinite else NotANumber
    else if exponent == 0 then Finite(sign * (fraction as real * Power(-149)))
    else Finite(sign * ((fraction + 0x80_0000) as real * Power(exponent - 150)))
  }

  /** The largest finite single: 2^128 - 2^104. */
  function SingleMax(): real { Power(128) - Power(104) }

  const AO_MAX_VOLTS: real := 3.3
  const PWM_MAX_DUTY: real := 1.0

  /**
   * The arithmetic of the machine. `quotient(v, shift, scale)` stands for (v - shift) / scale on doubles, `single` for the
   * conversion to single precision, `scaledSingle` and `scaledInteger` for raw * scale + shift on doubles, the first as a
   * pattern.
   */
  datatype Machine = Machine(
    quotient: (Word64, Number, Number) -> Number,
    single: real -> Word32,
    scaledSingle: (Word32, Number, Number) -> Word64,
    scaledInteger: (int, Number, Number) -> Number)
  {
    /** All that is asked of the conversion to single precision: it is monotone, and zero and one are exact. */
    ghost predicate Rounds() {
      && (forall x: real | -SingleMax() <= x <= SingleMax() :: SingleValue(single(x)).Finite?)
      && (forall x: real, y: real | -SingleMax() <= x <= y <= SingleMax() ::
            SingleValue(single(x)).Finite? && SingleValue(single(y)).Finite? ==>
              SingleValue(single(x)).value <= SingleValue(single(y)).value)
      && SingleValue(single(0.0)) == Finite(0.0)
      && SingleValue(single(PWM_MAX_DUTY)) == Finite(1.0)
    }
  }

  lemma {:induction false} PowerInverse(n: int)
    requires n >= 0
    ensures Power(n) * Power(-n) == 1.0 && Power(n) >= 1.0
  {
    if n > 0 {
      PowerInverse(n - 1);
      assert Power(-n) == Power(-(n - 1)) / 2.0;
    }
  }

  /** The coarsest such conversion: everything below one becomes zero, everything else one. */
  function Coarse(x: real): Word32 { if x < 1.0 then 0 else 0x3f80_0000 }

  /** What is asked of the conversion can be met. */
  lemma RoundingExists(m: Machine)
    requires m.single == Coarse
    ensures m.Rounds()
  {
    OneIsOne();
    ZeroIsZero();
    hide SingleValue, SingleMax;
  }

  lemma ZeroIsZero()
    ensures SingleValue(0) == Finite(0.0)
  {
  }

  lemma OneIsOne()
    ensures SingleValue(0x3f80_0000) == Finite(1.0)
  {
    PowerInverse(23);
    assert Power(10) == 1024.0;
    assert Power(20) == 1048576.0;
    assert Power(23) == 8388608.0;
  }

  lemma {:induction false} PowerAdds(n: nat, k: nat)
    ensures Power(n + k) == Power(n) * Power(k)
  {
    if k > 0 {
      PowerAdds(n, k - 1);
    }
  }

  /** The limit is the value of the largest finite pattern. */
  lemma LimitIsLargest()
    ensures SingleValue(0x7f7f_ffff) == Finite(SingleMax())
  {
    PowerAdds(104, 24);
    assert Power(8) == 256.0;
    PowerAdds(8, 8);
    PowerAdds(16, 8);
    assert Power(24) == 16777216.0;
  }
}
