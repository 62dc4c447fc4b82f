/** A Python float is an IEEE-754 binary64 value; this model keeps it as
    its 64-bit pattern. Parsing text into a float is left to the caller
    (see `Extract.FloatOf`); converting a small integer into a float, which
    the converter does when it makes up ids, is computed here. */
module Float64 {
  import opened Util

  const TwoTo52: nat := 0x10_0000_0000_0000
  const TwoTo53: nat := 0x20_0000_0000_0000
  const TwoTo63: nat := 0x8000_0000_0000_0000
  const TwoTo64: nat := 0x1_0000_0000_0000_0000

  /** The bit pattern of one double. */
  type Bits64 = b: int | 0 <= b < 0x1_0000_0000_0000_0000

  function Sign(d: Bits64): nat { d / TwoTo63 }
  function BiasedExponent(d: Bits64): nat { (d / TwoTo52) % 2048 }
  function Fraction(d: Bits64): nat { d % TwoTo52 }

  /** The double `d` stands for exactly the integer `i`: +0.0 for zero,
      otherwise a positive normal number whose significand
      `(2^52 + fraction) * 2^(exponent - 1075)` equals `i`. */
  ghost predicate DenotesInteger(d: Bits64, i: nat)
  {
    if i == 0 then d == 0
    else Sign(d) == 0 && 1023 <= BiasedExponent(d) <= 1075 &&
         i * Pow2(1075 - BiasedExponent(d)) == TwoTo52 + Fraction(d)
  }

  lemma {:induction false} Pow2Is52()
    ensures Pow2(52) == TwoTo52
  {
    assert Pow2(13) == 8192;
    Pow2Add(13, 13);
    Pow2Add(26, 26);
  }

  /** The position of the highest set bit. */
  function Log2(i: nat): (e: nat)
    requires i >= 1
    ensures Pow2(e) <= i < 2 * Pow2(e)
  {
    if i == 1 then 0 else 1 + Log2(i / 2)
  }

  /** `float(i)` for an integer below 2^53, where the conversion is exact. */
  function NatToDouble(i: nat): Bits64
    requires i < TwoTo53
  {
    if i == 0 then 0
    else
      var e := Log2(i);
      Log2Below53(i);
      FractionBound(i, e);
      Compose(1023 + e, (i - Pow2(e)) * Pow2(52 - e))
  }

  /** The non-negative double with biased exponent `q` and fraction `f`. */
  function Compose(q: nat, f: nat): Bits64
    requires q < 2048 && f < TwoTo52
  {
    Assemble(q, f);
    q * TwoTo52 + f
  }

  lemma {:induction false} Log2Below53(i: nat)
    requires 1 <= i < TwoTo53
    ensures Log2(i) <= 52
  {
    var e := Log2(i);
    if e > 52 {
      Pow2Monotone(53, e);
      Pow2Is52();
    }
  }

  lemma {:induction false} FractionBound(i: nat, e: nat)
    requires i >= 1 && e == Log2(i) && e <= 52
    ensures 0 <= (i - Pow2(e)) * Pow2(52 - e) < TwoTo52
  {
    var a, b, c := i - Pow2(e), Pow2(e), Pow2(52 - e);
    Pow2Add(e, 52 - e);
    Pow2Is52();
    assert b * c == TwoTo52;
    MulStrict(a, b, c);
  }

  lemma {:induction false} MulStrict(a: nat, b: nat, c: nat)
    requires a < b && c > 0
    ensures a * c < b * c
  {
  }

  lemma {:induction false} DivModUnique(d: nat, q: nat, f: nat)
    requires 0 <= f < TwoTo52 && d == q * TwoTo52 + f
    ensures d / TwoTo52 == q && d % TwoTo52 == f
  {
  }

  lemma {:induction false} MulCancel(a: nat, b: nat, k: nat)
    requires k > 0 && a * k == b * k
    ensures a == b
  {
    if a < b { MulStrict(a, b, k); }
    if b < a { MulStrict(b, a, k); }
  }

  /** Packing an exponent below 2048 and a 52-bit fraction gives a
      non-negative double with exactly those fields. */
  lemma {:induction false} Assemble(q: nat, f: nat)
    requires q < 2048 && f < TwoTo52
    ensures q * TwoTo52 + f < TwoTo63
    ensures var d: Bits64 := q * TwoTo52 + f;
      Sign(d) == 0 && BiasedExponent(d) == q && Fraction(d) == f
  {
    var d := q * TwoTo52 + f;
    DivModUnique(d, q, f);
    MulMono(q, 2047, TwoTo52);
    assert d < TwoTo63;
  }

  lemma {:induction false} MulMono(a: nat, b: nat, c: nat)
    requires a <= b
    ensures a * c <= b * c
  {
  }

  /** The fields of the double made for a non-zero `i`. */
  lemma {:induction false} NatToDoubleFields(i: nat)
    requires 1 <= i < TwoTo53
    ensures Log2(i) <= 52
    ensures var d := NatToDouble(i);
      Sign(d) == 0 && BiasedExponent(d) == 1023 + Log2(i) &&
      Fraction(d) == (i - Pow2(Log2(i))) * Pow2(52 - Log2(i))
  {
    var e := Log2(i);
    Log2Below53(i);
    FractionBound(i, e);
    var f := (i - Pow2(e)) * Pow2(52 - e);
    assert NatToDouble(i) == Compose(1023 + e, f);
    ComposeFields(1023 + e, f);
  }

  lemma {:induction false} ComposeFields(q: nat, f: nat)
    requires q < 2048 && f < TwoTo52
    ensures var d := Compose(q, f);
      Sign(d) == 0 && BiasedExponent(d) == q && Fraction(d) == f
  {
    Assemble(q, f);
  }

  lemma {:induction false} SignificandIdentity(i: nat, e: nat)
    requires i >= Pow2(e) && e <= 52
    ensures i * Pow2(52 - e) == TwoTo52 + (i - Pow2(e)) * Pow2(52 - e)
  {
    var b, c := Pow2(e), Pow2(52 - e);
    Pow2Add(e, 52 - e);
    Pow2Is52();
    assert b * c == TwoTo52;
    Distribute(i, b, c);
  }

  lemma {:induction false} Distribute(i: nat, b: nat, c: nat)
    requires i >= b
    ensures i * c == b * c + (i - b) * c
  {
  }

  /** `float(i)` is exact below 2^53: the double made for `i` stands for
      `i` itself. */
  lemma {:induction false} NatToDoubleExact(i: nat)
    requires i < TwoTo53
    ensures DenotesInteger(NatToDouble(i), i)
  {
    if i > 0 {
      NatToDoubleFields(i);
      SignificandIdentity(i, Log2(i));
    }
  }

  /** A double stands for at most one integer. */
  lemma {:induction false} DenotesUnique(d: Bits64, i: nat, j: nat)
    requires DenotesInteger(d, i) && DenotesInteger(d, j)
    ensures i == j
  {
    if i > 0 && j > 0 {
      var k := Pow2(1075 - BiasedExponent(d));
      MulCancel(i, j, k);
    }
  }

  /** Distinct integers below 2^53 become distinct doubles. */
  lemma {:induction false} NatToDoubleInjective(i: nat, j: nat)
    requires i < TwoTo53 && j < TwoTo53
    requires NatToDouble(i) == NatToDouble(j)
    ensures i == j
  {
    NatToDoubleExact(i);
    NatToDoubleExact(j);
    DenotesUnique(NatToDouble(i), i, j);
  }
}
