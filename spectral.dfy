/**
  * What the engine computes, as functions of values: the Hann window, the zero-padded
  * working signal, the windowed frames, the per-frame magnitude bins, the STFT matrix and
  * its power and log-power reductions.
  */
module Spectral {
  import opened Numerics
  import opened Sizing

  /** The window get_hann_window(n) fills. */
  function HannWindow(n: nat): (w: seq<real>)
    ensures |w| == n
  {
    seq(n, k requires 0 <= k < n => HannCoeff(k, n))
  }

  function Zeros(len: nat): seq<real>
  {
    seq(len, _ => 0.0)
  }

  /** The working copy forward_stft builds: the signal followed by padlen zeros. */
  function Pad(s: seq<real>, padlen: nat): (x: seq<real>)
    ensures |x| == |s| + padlen
  {
    s + Zeros(padlen)
  }

  /** The padded copy starts with the signal and continues with zeros only. */
  lemma PadKeepsSignalThenZeros(s: seq<real>, padlen: nat)
    ensures Pad(s, padlen)[..|s|] == s
    ensures forall i :: |s| <= i < |s| + padlen ==> Pad(s, padlen)[i] == 0.0
  {
  }

  /** The chunk of frame starting at offset k: x[k + j] * w[j] for each window index j. */
  function Frame(x: seq<real>, w: seq<real>, k: nat): (f: seq<real>)
    requires k + |w| <= |x|
    ensures |f| == |w|
  {
    seq(|w|, j requires 0 <= j < |w| => x[k + j] * w[j])
  }

  /** Magnitude of each packed pair (F[2j], F[2j+1]) of the transform's coefficients. */
  function Bins(F: seq<real>, ncols: nat): (b: seq<real>)
    requires 2 * ncols <= |F|
    ensures |b| == ncols
  {
    seq(ncols, j requires 0 <= j < ncols => Mag(F[2 * j], F[2 * j + 1]))
  }

  /** One row of the STFT: the bins of the transform of the windowed frame at offset k. */
  function Row(x: seq<real>, w: seq<real>, k: nat, ncols: nat): (r: seq<real>)
    requires k + |w| <= |x| && 2 * ncols <= |w|
    ensures |r| == ncols
  {
    Bins(Rfft(Frame(x, w, k)), ncols)
  }

  /** Frames 0 .. nrows - 1, at offsets m * hop, all lie inside x. */
  predicate FramesFit(len: nat, wlen: nat, hop: nat, nrows: nat)
  {
    nrows == 0 || (nrows - 1) * hop + wlen <= len
  }

  /** The STFT matrix: row m holds the magnitude bins of the frame at offset m * hop. */
  function Stft(x: seq<real>, w: seq<real>, hop: nat, nrows: nat, ncols: nat): (M: seq<seq<real>>)
    requires FramesFit(|x|, |w|, hop, nrows) && 2 * ncols <= |w|
    ensures |M| == nrows
    ensures forall m :: 0 <= m < nrows ==> |M[m]| == ncols
  {
    seq(nrows, m requires 0 <= m < nrows =>
      MulMonotone(m, nrows - 1, hop);
      Row(x, w, m * hop, ncols))
  }

  /** One row of the power spectrogram: every value squared. */
  function PowerRow(v: seq<real>): (p: seq<real>)
    ensures |p| == |v|
  {
    seq(|v|, j requires 0 <= j < |v| => Square(v[j]))
  }

  /** One row of the log-power spectrogram: every value v replaced by log(eps + v*v). */
  function LogPowerRow(eps: real, v: seq<real>): (l: seq<real>)
    ensures |l| == |v|
  {
    seq(|v|, j requires 0 <= j < |v| => LogEps(eps, v[j]))
  }

  /** The power spectrogram: every cell squared. */
  function Power(M: seq<seq<real>>): (P: seq<seq<real>>)
    ensures |P| == |M|
  {
    seq(|M|, m requires 0 <= m < |M| => PowerRow(M[m]))
  }

  /** The log-power spectrogram: every cell v replaced by log(eps + v*v). */
  function LogPower(eps: real, M: seq<seq<real>>): (L: seq<seq<real>>)
    ensures |L| == |M|
  {
    seq(|M|, m requires 0 <= m < |M| => LogPowerRow(eps, M[m]))
  }

  /**
    * Padding a signal of length n with PadLen(n, nperseg) zeros gives a whole number of
    * frames of nperseg samples.
    */
  lemma PaddedToWholeFrames(s: seq<real>, nperseg: nat)
    requires nperseg > 0
    ensures |Pad(s, PadLen(|s|, nperseg))| % nperseg == 0
  {
  }

  /**
    * A frame reads only its own slice of the signal: the chunk at offset k is the chunk
    * at offset 0 of x[k .. k + |w|].
    */
  lemma FrameReadsOnlyItsSlice(x: seq<real>, w: seq<real>, k: nat)
    requires k + |w| <= |x|
    ensures Frame(x, w, k) == Frame(x[k..k + |w|], w, 0)
  {
    var y := x[k..k + |w|];
    forall j | 0 <= j < |w|
      ensures Frame(x, w, k)[j] == Frame(y, w, 0)[j]
    {
      assert y[j] == x[k + j];
    }
  }

  /**
    * The bins read only the first 2 * ncols coefficients of the spectrum; when nperseg is
    * odd, the last coefficient is never used.
    */
  lemma BinsReadOnlyPairs(F: seq<real>, ncols: nat)
    requires 2 * ncols <= |F|
    ensures Bins(F, ncols) == Bins(F[..2 * ncols], ncols)
  {
  }

  /** If cos maps into [-1, 1], every Hann coefficient lies in [0, 1]. */
  lemma HannWindowBounded(n: nat)
    requires forall t :: -1.0 <= Cos(t) <= 1.0
    ensures forall k :: 0 <= k < n ==> 0.0 <= HannWindow(n)[k] <= 1.0
  {
  }

  /** If cos(0) == 1, the periodic Hann window starts at zero. */
  lemma HannWindowStartsAtZero(n: nat)
    requires n > 0 && Cos(0.0) == 1.0
    ensures HannWindow(n)[0] == 0.0
  {
  }

  /**
    * If sqrt is a square root on non-negative reals, each power-spectrogram cell of a row
    * is the sum of squares F[2j]*F[2j] + F[2j+1]*F[2j+1] of its packed pair.
    */
  lemma PowerIsSumOfSquares(F: seq<real>, ncols: nat)
    requires 2 * ncols <= |F|
    requires forall v :: v >= 0.0 ==> Sqrt(v) * Sqrt(v) == v
    ensures forall j :: 0 <= j < ncols ==>
      PowerRow(Bins(F, ncols))[j] == F[2 * j] * F[2 * j] + F[2 * j + 1] * F[2 * j + 1]
  {
  }

  /** The log-power spectrogram is the log of eps plus the power spectrogram, cell by cell. */
  lemma LogPowerIsLogOfPower(eps: real, M: seq<seq<real>>)
    ensures forall m, j :: 0 <= m < |M| && 0 <= j < |M[m]| ==>
      LogPower(eps, M)[m][j] == Ln(eps + Power(M)[m][j])
  {
  }

  /**
    * Frames that end inside the signal never see the padding: the STFT of the padded
    * working copy equals the STFT of the signal itself.
    */
  lemma PaddingNeverRead(s: seq<real>, padlen: nat, w: seq<real>, hop: nat, nrows: nat, ncols: nat)
    requires FramesFit(|s|, |w|, hop, nrows) && 2 * ncols <= |w|
    ensures FramesFit(|Pad(s, padlen)|, |w|, hop, nrows)
    ensures Stft(Pad(s, padlen), w, hop, nrows, ncols) == Stft(s, w, hop, nrows, ncols)
  {
    var x := Pad(s, padlen);
    forall m | 0 <= m < nrows
      ensures Stft(x, w, hop, nrows, ncols)[m] == Stft(s, w, hop, nrows, ncols)[m]
    {
      MulMonotone(m, nrows - 1, hop);
      var k := m * hop;
      assert k + |w| <= |s|;
      forall j | 0 <= j < |w|
        ensures Frame(x, w, k)[j] == Frame(s, w, k)[j]
      {
        assert x[k + j] == s[k + j];
      }
      assert Frame(x, w, k) == Frame(s, w, k);
    }
  }

  /**
    * A silent signal gives every frame the same (zero) chunk, whatever the window, so
    * every row of its STFT is the bins of the transform of the zero frame.
    */
  lemma SilentSignalRowsAgree(s: seq<real>, w: seq<real>, hop: nat, nrows: nat, ncols: nat, m: nat)
    requires FramesFit(|s|, |w|, hop, nrows) && 2 * ncols <= |w|
    requires s == Zeros(|s|)
    requires m < nrows
    ensures Stft(s, w, hop, nrows, ncols)[m] == Bins(Rfft(Zeros(|w|)), ncols)
  {
    MulMonotone(m, nrows - 1, hop);
    assert Frame(s, w, m * hop) == Zeros(|w|);
  }

  /**
    * If the transform maps the zero frame to zeros and sqrt(0) == 0, a silent signal
    * gives an all-zero STFT.
    */
  lemma SilentSignalGivesZeros(s: seq<real>, w: seq<real>, hop: nat, nrows: nat, ncols: nat)
    requires FramesFit(|s|, |w|, hop, nrows) && 2 * ncols <= |w|
    requires s == Zeros(|s|)
    requires Rfft(Zeros(|w|)) == Zeros(|w|) && Sqrt(0.0) == 0.0
    ensures Stft(s, w, hop, nrows, ncols) == seq(nrows, _ => Zeros(ncols))
  {
    var M := Stft(s, w, hop, nrows, ncols);
    forall m | 0 <= m < nrows
      ensures M[m] == Zeros(ncols)
    {
      SilentSignalRowsAgree(s, w, hop, nrows, ncols, m);
    }
  }
}
