/**
  * The floating-point and foreign primitives the engine calls. Their numeric content is
  * not modelled: each is an arbitrary constant, and every property of the engine is
  * proved for all possible values of them.
  */
module Numerics {
  /** cos, sqrt and log from <cmath>. */
  const Cos: real -> real
  const Sqrt: real -> real
  const Ln: real -> real

  /**
    * Coefficient k of fftpack's forward real transform of s (__ogg_fdrffti followed by
    * __ogg_fdrfftf). Its layout is not modelled.
    */
  const RfftCoeff: (seq<real>, nat) -> real

  /** The PI macro of libstft.hpp, a truncation of pi. */
  const PI: real := 3.14159265

  /** The in-place real transform of a buffer: as many coefficients as input values. */
  function Rfft(s: seq<real>): (r: seq<real>)
    ensures |r| == |s|
  {
    seq(|s|, k requires 0 <= k < |s| => RfftCoeff(s, k))
  }

  /** Euclidean magnitude sqrt(a*a + b*b) of a packed pair (a, b) of coefficients. */
  function Mag(a: real, b: real): (r: real)
    ensures (forall v :: v >= 0.0 ==> Sqrt(v) >= 0.0) ==> r >= 0.0
  {
    Sqrt(a * a + b * b)
  }

  function Square(v: real): real
  {
    v * v
  }

  /** Log power with the configured floor eps: never below log(eps) when log is monotone. */
  function LogEps(eps: real, v: real): (r: real)
    ensures (forall a, b :: a <= b ==> Ln(a) <= Ln(b)) ==> Ln(eps) <= r
  {
    Ln(eps + v * v)
  }

  /** Coefficient k of the periodic Hann window of length n (the source divides by n). */
  function HannCoeff(k: nat, n: nat): (r: real)
    requires k < n
    ensures -1.0 <= Cos(2.0 * PI * (k as real) / (n as real)) <= 1.0 ==> 0.0 <= r <= 1.0
  {
    0.5 * (1.0 - Cos(2.0 * PI * (k as real) / (n as real)))
  }
}
