/**
 * The chromosome codec of `Individuo`: a fixed-width string of '0'/'1', least significant
 * bit first (`_int_to_bits`), and its decoding back to an integer (`_bits_to_int`).
 */
module Codec {

  /** `2**i` */
  function Pow2(i: nat): (r: nat)
    ensures r >= 1
  {
    if i == 0 then 1 else 2 * Pow2(i - 1)
  }

  /** A well-formed chromosome: only the characters '0' and '1'. */
  predicate IsBits(s: string) {
    forall i :: 0 <= i < |s| ==> s[i] == '0' || s[i] == '1'
  }

  /** Bit `i` of `x` is set: `x & 2**i > 0` for a non-negative `x`. */
  predicate BitSet(x: nat, i: nat) {
    (x / Pow2(i)) % 2 == 1
  }

  /** `_int_to_bits`: one character per bit position `0 .. n-1`, '1' exactly where `x` has that bit. */
  function IntToBits(x: nat, n: nat): (r: string)
    ensures |r| == n && IsBits(r)
    ensures forall i :: 0 <= i < n ==> (r[i] == '1' <==> BitSet(x, i))
  {
    seq(n, i requires 0 <= i < n => if BitSet(x, i) then '1' else '0')
  }

  /** `int(bit)` for a chromosome character. */
  function Digit(c: char): nat {
    if c == '1' then 1 else 0
  }

  /** `_bits_to_int`: the sum of `int(bits[i]) * 2**i` over the positions, added up in order. */
  function BitsToInt(bits: string): (x: nat)
    requires IsBits(bits)
    ensures x < Pow2(|bits|)
  {
    if bits == [] then 0
    else BitsToInt(bits[..|bits| - 1]) + Digit(bits[|bits| - 1]) * Pow2(|bits| - 1)
  }

  /** The chromosome with every one of its `n` bits set. */
  function Ones(n: nat): (r: string)
    ensures |r| == n && IsBits(r)
  {
    seq(n, _ => '1')
  }

  /**
   * `2**n - 1` is the largest value `n` bits can hold: no `n`-bit chromosome decodes above it, and
   * the all-ones chromosome decodes to it.
   */
  lemma {:induction false} OnesValue(n: nat)
    ensures forall c :: IsBits(c) && |c| == n ==> BitsToInt(c) <= Pow2(n) - 1
    ensures BitsToInt(Ones(n)) == Pow2(n) - 1
  {
    if n > 0 {
      OnesValue(n - 1);
      assert Ones(n)[..n - 1] == Ones(n - 1);
    }
  }

  // ---------------------------------------------------------------------------
  // Arithmetic used by the round trips

  /** Division with remainder has exactly one answer. */
  lemma DivModUnique(x: int, d: int, q: int, r: int)
    requires d > 0 && 0 <= r < d && x == q * d + r
    ensures x / d == q && x % d == r
  {
    var q0, r0 := x / d, x % d;
    assert x == q0 * d + r0;
    if q0 != q {
      var a, b := if q0 < q then q else q0, if q0 < q then q0 else q;
      MulDistinct(a, b, d);
      assert false;
    }
  }

  /** Two multiples of `d` that differ are at least `d` apart. */
  lemma {:induction false} MulDistinct(a: int, b: int, d: int)
    requires b < a && d > 0
    ensures a * d >= b * d + d
    decreases a - b
  {
    if a - 1 > b {
      MulDistinct(a - 1, b, d);
    }
    assert a * d == (a - 1) * d + d;
  }

  /** Dividing by `2 * p` is halving and then dividing by `p`; the remainder splits the same way. */
  lemma DivModDouble(x: nat, p: nat)
    requires p >= 1
    ensures x / (2 * p) == (x / 2) / p
    ensures x % (2 * p) == x % 2 + 2 * ((x / 2) % p)
  {
    var h, q, r := x / 2, (x / 2) / p, (x / 2) % p;
    assert h == q * p + r;
    assert x == q * (2 * p) + (x % 2 + 2 * r);
    DivModUnique(x, 2 * p, q, x % 2 + 2 * r);
  }

  // ---------------------------------------------------------------------------
  // Both conversions read from the least significant end

  /** Bit `i + 1` of `x` is bit `i` of `x / 2`. */
  lemma BitSetShift(x: nat, i: nat)
    ensures BitSet(x, i + 1) == BitSet(x / 2, i)
  {
    DivModDouble(x, Pow2(i));
  }

  /** The encoding starts with the lowest bit and continues with the encoding of `x / 2`. */
  lemma IntToBitsCons(x: nat, n: nat)
    requires n >= 1
    ensures IntToBits(x, n) == [if x % 2 == 1 then '1' else '0'] + IntToBits(x / 2, n - 1)
  {
    var lhs, rhs := IntToBits(x, n), [if x % 2 == 1 then '1' else '0'] + IntToBits(x / 2, n - 1);
    forall i | 0 <= i < n
      ensures lhs[i] == rhs[i]
    {
      if i > 0 {
        BitSetShift(x, i - 1);
      }
    }
  }

  /** The decoding is the first digit plus twice the decoding of the rest. */
  lemma {:induction false} BitsToIntCons(bits: string)
    requires IsBits(bits) && bits != []
    ensures BitsToInt(bits) == Digit(bits[0]) + 2 * BitsToInt(bits[1..])
  {
    var n := |bits|;
    if n == 1 {
      assert bits[..0] == [] && bits[1..] == [];
    } else {
      var init := bits[..n - 1];
      BitsToIntCons(init);
      assert init[0] == bits[0];
      assert init[1..] == bits[1..][..n - 2];
      assert bits[1..][n - 2] == bits[n - 1];
      var d, p := Digit(bits[n - 1]), Pow2(n - 2);
      assert Pow2(n - 1) == 2 * p;
      var dp := if d == 1 then p else 0;
      assert d * p == dp && d * (2 * p) == 2 * dp;
      assert BitsToInt(bits[1..]) == BitsToInt(init[1..]) + dp;
      assert BitsToInt(bits) == BitsToInt(init) + 2 * dp;
    }
  }

  // ---------------------------------------------------------------------------
  // Round trips

  /**
   * Decoding an encoding gives back the integer modulo `2**n`: the encoder keeps the low `n` bits,
   * so every `x` in `[0, 2**n - 1]` comes back unchanged.
   */
  lemma {:induction false} DecodeEncode(x: nat, n: nat)
    ensures BitsToInt(IntToBits(x, n)) == x % Pow2(n)
    ensures x < Pow2(n) ==> BitsToInt(IntToBits(x, n)) == x
  {
    if n == 0 {
      assert IntToBits(x, 0) == [];
    } else {
      var bits := IntToBits(x, n);
      IntToBitsCons(x, n);
      BitsToIntCons(bits);
      assert bits[1..] == IntToBits(x / 2, n - 1);
      DecodeEncode(x / 2, n - 1);
      DivModDouble(x, Pow2(n - 1));
    }
    if x < Pow2(n) {
      DivModUnique(x, Pow2(n), 0, x);
    }
  }

  /** Encoding the decoding of a well-formed chromosome, at its own width, gives back the chromosome. */
  lemma {:induction false} EncodeDecode(bits: string)
    requires IsBits(bits)
    ensures IntToBits(BitsToInt(bits), |bits|) == bits
  {
    if bits != [] {
      var n, d, y := |bits|, Digit(bits[0]), BitsToInt(bits[1..]);
      var x := d + 2 * y;
      BitsToIntCons(bits);
      assert BitsToInt(bits) == x;
      IntToBitsCons(x, n);
      DivModUnique(x, 2, y, d);
      EncodeDecode(bits[1..]);
      assert IntToBits(x / 2, n - 1) == bits[1..];
      assert [if x % 2 == 1 then '1' else '0'] == [bits[0]];
      assert bits == [bits[0]] + bits[1..];
    }
  }

  /** Two well-formed chromosomes of one width with the same decoding are the same chromosome. */
  lemma BitsToIntInjective(a: string, b: string)
    requires IsBits(a) && IsBits(b) && |a| == |b|
    ensures BitsToInt(a) == BitsToInt(b) ==> a == b
  {
    if BitsToInt(a) == BitsToInt(b) {
      EncodeDecode(a);
      EncodeDecode(b);
    }
  }
}
