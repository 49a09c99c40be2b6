/**
 * `Individuo`: one candidate solution. It keeps a chromosome and its integer value `_valor` in
 * step; the real value in `[l_inf, l_sup]` is read and written through an affine map.
 */
module Individuals {
  import opened Codec
  import opened Outcomes

  class Individual {
    /** `n_bits`, `l_sup`, `l_inf`: fixed once the individual exists. */
    const nBits: nat
    const lSup: real
    const lInf: real

    /** `_cromossomo` */
    var chromosome: string
    /**
     * `_valor`. An integer after construction and after a chromosome assignment; the real-value
     * setter stores the untruncated quotient, and only the chromosome uses its integer part.
     */
    var value: real

    /** `_vmax`: the largest integer `n_bits` bits can hold. */
    function Vmax(): (m: nat)
      ensures m + 1 == Pow2(nBits)
    {
      Pow2(nBits) - 1
    }

    /** The chromosome is the encoding of the integer part of `_valor`, which lies in `[0, _vmax]`. */
    ghost predicate Valid()
      reads this
    {
      0.0 <= value <= Vmax() as real && chromosome == IntToBits(value.Floor, nBits)
    }

    /**
     * `__post_init__` once its length check has passed: a non-empty chromosome `cr` is kept and decoded;
     * with an empty one the integer drawn by `randint(0, _vmax)` is encoded.
     */
    constructor (nBits: nat, lInf: real, lSup: real, cr: string, draw: nat)
      requires IsBits(cr) && (cr == [] || |cr| == nBits)
      requires draw <= Pow2(nBits) - 1
      ensures Valid()
      ensures this.nBits == nBits && this.lInf == lInf && this.lSup == lSup
      ensures cr != [] ==> chromosome == cr && value == BitsToInt(cr) as real
      ensures cr == [] ==> value == draw as real && chromosome == IntToBits(draw, nBits)
    {
      this.nBits, this.lInf, this.lSup := nBits, lInf, lSup;
      if cr != [] {
        chromosome := cr;
        value := BitsToInt(cr) as real;
        EncodeDecode(cr);
      } else {
        value := draw as real;
        chromosome := IntToBits(draw, nBits);
      }
    }

    /** `Individuo(_cromossomo=cr, ...)`: fails on a non-empty chromosome of the wrong length. */
    static method Create(nBits: nat, lInf: real, lSup: real, cr: string, draw: nat) returns (r: Result<Individual>)
      requires IsBits(cr)
      requires draw <= Pow2(nBits) - 1
      ensures r.Failure? <==> cr != [] && |cr| != nBits
      ensures r.Failure? ==> r.error == InvalidChromosomeLength
      ensures r.Success? ==> fresh(r.value) && r.value.Valid()
      ensures r.Success? ==> r.value.nBits == nBits && r.value.lInf == lInf && r.value.lSup == lSup
      ensures r.Success? && cr != [] ==> r.value.chromosome == cr && r.value.value == BitsToInt(cr) as real
      ensures r.Success? && cr == [] ==> r.value.value == draw as real
    {
      if cr != [] && |cr| != nBits {
        return Failure(InvalidChromosomeLength);
      }
      var ind := new Individual(nBits, lInf, lSup, cr, draw);
      return Success(ind);
    }

    /**
     * The `cromossomo` setter: rejects a chromosome whose length is not `n_bits`, otherwise stores it
     * and recomputes `_valor` from it; nothing else changes.
     */
    method SetChromosome(c: string) returns (res: Outcome)
      requires Valid() && IsBits(c)
      modifies this
      ensures Valid()
      ensures res == if |c| == nBits then Pass else Fail(InvalidChromosomeLength)
      ensures res.Pass? ==> chromosome == c && value == BitsToInt(c) as real
      ensures res.Fail? ==> chromosome == old(chromosome) && value == old(value)
    {
      if |c| != nBits {
        return Fail(InvalidChromosomeLength);
      }
      chromosome := c;
      value := BitsToInt(c) as real;
      EncodeDecode(c);
      return Pass;
    }

    /**
     * The `valor` getter: the line through `(0, l_inf)` and `(_vmax, l_sup)`, so increasing when
     * `l_inf < l_sup`. `_vmax` is zero when `n_bits` is zero, where Python divides by zero.
     */
    function Value(): (v: real)
      reads this
      requires nBits >= 1
      ensures value == 0.0 ==> v == lInf
      ensures value == Vmax() as real ==> v == lSup
      ensures Valid() && lInf <= lSup ==> lInf <= v <= lSup
    {
      AffineForwardInRange(Vmax() as real, lInf, lSup, value);
      var m := (lSup - lInf) / Vmax() as real;
      m * (value - Vmax() as real) + lSup
    }

    /**
     * The `valor` setter: fails unless `l_inf <= v <= l_sup` (and, as Python, on equal bounds, where
     * the slope divides by zero); otherwise `_valor` becomes the inverse of the affine map at `v`,
     * untruncated, and the chromosome the encoding of its integer part.
     */
    method SetValue(v: real) returns (res: Outcome)
      requires Valid()
      modifies this
      ensures Valid()
      ensures !(lInf <= v <= lSup) ==> res == Fail(ValueOutOfBounds)
      ensures lInf <= v <= lSup && lInf == lSup ==> res == Fail(DivisionByZero)
      ensures res.Pass? <==> lInf <= v <= lSup && lInf < lSup
      ensures res.Fail? ==> chromosome == old(chromosome) && value == old(value)
      ensures res.Pass? ==> value == (Vmax() as real / (lSup - lInf)) * (v - lSup) + Vmax() as real
      ensures res.Pass? ==> |chromosome| == nBits && chromosome == IntToBits(value.Floor, nBits)
      ensures res.Pass? && nBits >= 1 ==> Value() == v
    {
      if !(lInf <= v <= lSup) {
        return Fail(ValueOutOfBounds);
      }
      if lSup - lInf == 0.0 {
        return Fail(DivisionByZero);
      }
      var vmax := Vmax() as real;
      var m := vmax / (lSup - lInf);
      var u := m * (v - lSup) + vmax;
      AffineInverseInRange(vmax, lInf, lSup, v, u);
      if nBits >= 1 {
        AffineRoundTrip(vmax, lInf, lSup, v, u);
      }
      value, chromosome := u, IntToBits(u.Floor, nBits);
      return Pass;
    }

    /** `Individuo.__eq__` of the dataclass: all five fields compare equal. */
    predicate SameFields(other: Individual)
      reads this, other
    {
      nBits == other.nBits && lSup == other.lSup && lInf == other.lInf
      && chromosome == other.chromosome && value == other.value
    }
  }

  /** The inverse affine map sends `[l_inf, l_sup]` into `[0, _vmax]`. */
  lemma AffineInverseInRange(vmax: real, lInf: real, lSup: real, v: real, u: real)
    requires vmax >= 0.0 && lInf <= v <= lSup && lInf < lSup
    requires u == (vmax / (lSup - lInf)) * (v - lSup) + vmax
    ensures 0.0 <= u <= vmax
  {
    var w := lSup - lInf;
    var t := (v - lSup) / w;
    assert -1.0 <= t <= 0.0 by {
      assert v - lSup >= -w;
      assert (v - lSup) / w >= -w / w;
    }
    assert (vmax / w) * (v - lSup) == vmax * t;
    assert vmax * t >= -vmax by {
      assert vmax * (t + 1.0) >= 0.0;
    }
    assert vmax * t <= 0.0;
  }

  /** The forward map sends `[0, _vmax]` into `[l_inf, l_sup]`. */
  lemma AffineForwardInRange(vmax: real, lInf: real, lSup: real, x: real)
    requires vmax > 0.0
    ensures 0.0 <= x <= vmax && lInf <= lSup ==> lInf <= ((lSup - lInf) / vmax) * (x - vmax) + lSup <= lSup
  {
    if 0.0 <= x <= vmax && lInf <= lSup {
      var w := lSup - lInf;
      var t := (x - vmax) / vmax;
      assert -1.0 <= t <= 0.0 by {
        assert x - vmax >= -vmax;
        assert (x - vmax) / vmax >= -vmax / vmax;
      }
      assert (w / vmax) * (x - vmax) == w * t;
      assert w * t >= -w by {
        assert w * (t + 1.0) >= 0.0;
      }
      assert w * t <= 0.0;
    }
  }

  /** Reading the value back through the forward map gives exactly the value that was set. */
  lemma AffineRoundTrip(vmax: real, lInf: real, lSup: real, v: real, u: real)
    requires vmax > 0.0 && lInf < lSup
    requires u == (vmax / (lSup - lInf)) * (v - lSup) + vmax
    ensures ((lSup - lInf) / vmax) * (u - vmax) + lSup == v
  {
    var w := lSup - lInf;
    assert u - vmax == (vmax / w) * (v - lSup);
    assert (w / vmax) * ((vmax / w) * (v - lSup)) == ((w / vmax) * (vmax / w)) * (v - lSup);
    assert (w / vmax) * (vmax / w) == 1.0;
  }
}
