/**
  * The integer bookkeeping of the STFT engine: configuration validation, zero padding,
  * and the row and column counts of the output matrix (libstft.hpp, calc_nrows,
  * calc_ncols and the STFTPack constructor).
  */
module Sizing {
  import opened Wrappers

  /** The two ways constructing an engine can throw. */
  datatype ConfigError =
    | InvalidArgument    // std::invalid_argument: nperseg < noverlap, or noverlap does not divide nperseg
    | BadArrayNewLength  // std::bad_array_new_length: a negative row count reaches new float*[nrows]

  /**
    * calc_nrows: floor(n / hop) - 2 with hop = nperseg - noverlap. The source divides in
    * float; here the quotient is the exact integer floor (Dafny's division by a positive
    * divisor floors). The result is the number of whole hops in n, less two.
    */
  function CalcNrows(n: int, nperseg: int, noverlap: int): (r: int)
    requires nperseg - noverlap > 0
    ensures (r + 2) * (nperseg - noverlap) <= n < (r + 3) * (nperseg - noverlap)
  {
    n / (nperseg - noverlap) - 2
  }

  /** calc_ncols: floor(nperseg / 2), the number of magnitude bins per frame. */
  function CalcNcols(n: int, nperseg: int, noverlap: int): (r: int)
    ensures 2 * r <= nperseg <= 2 * r + 1
  {
    nperseg / 2
  }

  /**
    * The constructor's padding length: enough trailing zeros to make the signal length
    * a multiple of nperseg, and none when it already is one.
    */
  function PadLen(n: nat, nperseg: int): (r: nat)
    requires nperseg > 0
    ensures r < nperseg
    ensures (n + r) % nperseg == 0
    ensures r == 0 <==> n % nperseg == 0
  {
    if n % nperseg != 0 then
      PadCompletesMultiple(n, nperseg);
      nperseg - n % nperseg
    else 0
  }

  /** Adding nperseg - n % nperseg to n reaches the next multiple of nperseg. */
  lemma PadCompletesMultiple(n: nat, p: int)
    requires p > 0
    ensures (n + (p - n % p)) % p == 0
  {
    var q := n / p;
    assert n + (p - n % p) == (q + 1) * p;
    MultipleHasNoRemainder(q + 1, p);
  }

  lemma MultipleHasNoRemainder(k: int, p: int)
    requires p > 0
    ensures (k * p) % p == 0
  {
    var x := k * p;
    var d := k - x / p;
    assert x % p == d * p;
    if d >= 1 {
      MulMonotone(1, d, p);
    }
  }

  /** The guard the constructor evaluates before anything else. */
  predicate OverlapDivides(nperseg: int, noverlap: int)
    requires noverlap != 0
  {
    nperseg >= noverlap && nperseg % noverlap == 0
  }

  /**
    * The error, if any, that constructing STFTPack(n, nperseg, noverlap, eps) throws.
    * A negative row count is rejected by the array allocation rather than by a check.
    */
  function CheckConfig(n: nat, nperseg: int, noverlap: int): (r: Option<ConfigError>)
    requires noverlap > 0 && nperseg != noverlap
    ensures r == Some(InvalidArgument) <==> !(nperseg >= noverlap && nperseg % noverlap == 0)
    ensures r == Some(BadArrayNewLength) <==>
              nperseg > noverlap && nperseg % noverlap == 0 && n < 2 * (nperseg - noverlap)
    ensures r == None <==>
              nperseg > noverlap && nperseg % noverlap == 0 && 2 * (nperseg - noverlap) <= n
  {
    if !OverlapDivides(nperseg, noverlap) then Some(InvalidArgument)
    else if CalcNrows(n, nperseg, noverlap) < 0 then Some(BadArrayNewLength)
    else None
  }

  /**
    * Because the overlap divides the frame size and is smaller than it, it is at most
    * half of it; so a frame spans at most two hops.
    */
  lemma HopCoversOverlap(nperseg: int, noverlap: int)
    requires 0 < noverlap < nperseg && nperseg % noverlap == 0
    ensures 2 * noverlap <= nperseg
    ensures nperseg <= 2 * (nperseg - noverlap)
  {
  }

  /**
    * Frame m starts at m * hop and spans nperseg samples. Under a configuration the
    * constructor accepts, every frame the engine computes (m < nrows), and even the next
    * one (m == nrows), ends inside the unpadded signal: no read of forward_stft reaches
    * the zero padding.
    */
  lemma FrameWithinSignal(n: nat, nperseg: int, noverlap: int, m: nat)
    requires noverlap > 0 && nperseg != noverlap
    requires CheckConfig(n, nperseg, noverlap) == None
    requires m <= CalcNrows(n, nperseg, noverlap)
    ensures m * (nperseg - noverlap) + nperseg <= n
  {
    var hop := nperseg - noverlap;
    var nrows := CalcNrows(n, nperseg, noverlap);
    HopCoversOverlap(nperseg, noverlap);
    assert m * hop <= nrows * hop by { MulMonotone(m, nrows, hop); }
    assert (nrows + 2) * hop == nrows * hop + 2 * hop;
  }

  /** Multiplying by a natural number preserves order. */
  lemma MulMonotone(a: nat, b: nat, c: nat)
    requires a <= b
    ensures a * c <= b * c
  {
  }
}
