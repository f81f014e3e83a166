/**
  * The STFT engine of libstft.hpp: get_hann_window and the STFTPack class, which owns a
  * window, two frame buffers, an FFT helper and the output matrix, all allocated once at
  * construction and overwritten in place by every forward_* call.
  */
module Engine {
  import opened Wrappers
  import opened Numerics
  import opened Sizing
  import opened Spectral
  import opened Fft

  /** get_hann_window: a fresh buffer holding the periodic Hann window of length n. */
  method GetHannWindow(n: nat) returns (buffer: array<real>)
    ensures fresh(buffer)
    ensures buffer[..] == HannWindow(n)
  {
    buffer := new real[n];
    for k := 0 to n
      invariant forall i :: 0 <= i < k ==> buffer[i] == HannCoeff(i, n)
    {
      buffer[k] := HannCoeff(k, n);
    }
  }

  /** The inner loop of forward_spectrogram: each cell v of one row becomes v*v. */
  method SquareCells(row: array<real>)
    modifies row
    ensures row[..] == PowerRow(old(row[..]))
  {
    for j := 0 to row.Length
      invariant forall c :: 0 <= c < j ==> row[c] == Square(old(row[c]))
      invariant forall c :: j <= c < row.Length ==> row[c] == old(row[c])
    {
      row[j] := row[j] * row[j];
    }
  }

  /** The inner loop of forward_log_spectrogram: each cell v of one row becomes log(eps + v*v). */
  method LogCells(eps: real, row: array<real>)
    modifies row
    ensures row[..] == LogPowerRow(eps, old(row[..]))
  {
    for j := 0 to row.Length
      invariant forall c :: 0 <= c < j ==> row[c] == LogEps(eps, old(row[c]))
      invariant forall c :: j <= c < row.Length ==> row[c] == old(row[c])
    {
      row[j] := LogEps(eps, row[j]);  // log(eps + v*v)
    }
  }

  /** The allocation loop of the constructor: count fresh, distinct rows of cols cells. */
  method AllocateRows(count: nat, cols: nat) returns (rows: seq<array<real>>)
    ensures |rows| == count
    ensures forall i :: 0 <= i < count ==> fresh(rows[i]) && rows[i].Length == cols
    ensures forall a, b :: 0 <= a < count && 0 <= b < count && a != b ==> rows[a] != rows[b]
  {
    rows := [];
    for j := 0 to count
      invariant |rows| == j
      invariant forall i :: 0 <= i < j ==> fresh(rows[i]) && rows[i].Length == cols
      invariant forall a, b :: 0 <= a < j && 0 <= b < j && a != b ==> rows[a] != rows[b]
    {
      var row := new real[cols];
      rows := rows + [row];
    }
  }

  class STFTPack {
    const n: nat
    const nperseg: nat
    const noverlap: nat
    const eps: real
    const padlen: nat

    const chunk: array<real>
    const chunkFft: array<real>
    const window: array<real>
    /** The row pointers of the output matrix; each row is its own array. */
    const output: array<array<real>>

    const nrows: nat
    const ncols: nat

    const fftMachine: FFT

    /** The buffers this engine owns. */
    ghost const Repr: set<object>

    /**
      * The sizes are those the constructor computes from (n, nperseg, noverlap). Kept
      * apart from Valid, which holds only the facts the buffer loops need: these fields
      * are constants, so no method can break it.
      */
    ghost predicate Configured()
    {
      noverlap > 0 && nperseg != noverlap
      && CheckConfig(n, nperseg, noverlap) == None
      && padlen == PadLen(n, nperseg)
      && nrows == CalcNrows(n, nperseg, noverlap)
      && ncols == CalcNcols(n, nperseg, noverlap)
    }

    /** The engine's buffers have the sizes it computed and none of them alias. */
    ghost predicate Valid()
      reads output, window
    {
      0 < noverlap < nperseg && 2 * ncols <= nperseg
      && FramesFit(n, nperseg, nperseg - noverlap, nrows)
      && window.Length == nperseg
      && chunk.Length == nperseg && chunkFft.Length == nperseg
      && fftMachine.Valid() && fftMachine.n == nperseg
      && output.Length == nrows
      && (forall m :: 0 <= m < nrows ==> output[m].Length == ncols)
      && (forall a, b :: 0 <= a < nrows && 0 <= b < nrows && a != b ==> output[a] != output[b])
      && (forall m :: 0 <= m < nrows ==> output[m] !in {window, chunk, chunkFft, fftMachine.output})
      && window != chunk && window != chunkFft && window != fftMachine.output
      && chunk != chunkFft && chunk != fftMachine.output && chunkFft != fftMachine.output
      && (forall m :: 0 <= m < nrows ==> output[m] in Repr)
      && Repr == {window, chunk, chunkFft, fftMachine, fftMachine.output, output}
                 + set m | 0 <= m < nrows :: output[m]
    }

    /** The window is the Hann window of length nperseg (kept apart from Valid: no method writes it). */
    ghost predicate HannWindowed()
      reads window
    {
      window[..] == HannWindow(nperseg)
    }

    /** The output matrix holds M, row by row. */
    ghost predicate Holds(M: seq<seq<real>>)
      reads output, output[..]
    {
      |M| == output.Length && forall m :: 0 <= m < output.Length ==> output[m][..] == M[m]
    }

    /** The STFT of signal s under this engine's window, hop and sizes. */
    ghost function StftOf(s: seq<real>): (M: seq<seq<real>>)
      reads output, window
      requires Valid() && |s| == n
    {
      Stft(s, window[..], nperseg - noverlap, nrows, ncols)
    }

    /**
      * The constructor once the configuration has passed the checks that would throw
      * (see Create): sizes, window, frame buffers, the nrows x ncols matrix and the FFT.
      */
    constructor (n: nat, nperseg: int, noverlap: int, eps: real)
      requires noverlap > 0 && nperseg != noverlap
      requires CheckConfig(n, nperseg, noverlap) == None
      ensures Configured() && Valid() && HannWindowed() && fresh(Repr)
      ensures this.n == n && this.nperseg == nperseg && this.noverlap == noverlap && this.eps == eps
    {
      var rowCount := CalcNrows(n, nperseg, noverlap);
      var colCount := CalcNcols(n, nperseg, noverlap);
      if rowCount > 0 {
        FrameWithinSignal(n, nperseg, noverlap, rowCount - 1);
      }
      this.n := n;
      this.nperseg := nperseg;
      this.noverlap := noverlap;
      this.eps := eps;
      padlen := PadLen(n, nperseg);
      nrows := rowCount;
      ncols := colCount;

      var w := GetHannWindow(nperseg);
      var c := new real[nperseg];
      var cf := new real[nperseg];
      window, chunk, chunkFft := w, c, cf;

      var rows := AllocateRows(rowCount, colCount);
      output := new array<real>[rowCount](i requires 0 <= i < |rows| => rows[i]);

      var f := new FFT(nperseg);
      fftMachine := f;
      Repr := {w, c, cf, f, f.output, output} + set m | 0 <= m < rowCount :: rows[m];
      new;
      assert output[..] == rows;
    }

    /**
      * STFTPack(n, nperseg, noverlap, eps) with its exceptions as failures: the divisibility
      * guard (nperseg >= noverlap and noverlap divides nperseg) throws invalid_argument
      * when it fails, and a negative row count makes new float*[nrows]
      * throw bad_array_new_length.
      */
    static method Create(n: nat, nperseg: int, noverlap: int, eps: real)
      returns (r: Result<STFTPack, ConfigError>)
      requires noverlap > 0 && nperseg != noverlap
      ensures r.Failure? <==> CheckConfig(n, nperseg, noverlap).Some?
      ensures r.Failure? ==> Some(r.error) == CheckConfig(n, nperseg, noverlap)
      ensures r.Success? ==> r.value.Configured() && r.value.Valid() && r.value.HannWindowed() && fresh(r.value.Repr)
      ensures r.Success? ==>
                r.value.n == n && r.value.nperseg == nperseg
                && r.value.noverlap == noverlap && r.value.eps == eps
    {
      if !(nperseg >= noverlap && nperseg % noverlap == 0) {
        return Failure(InvalidArgument);
      }
      if CalcNrows(n, nperseg, noverlap) < 0 {
        return Failure(BadArrayNewLength);
      }
      var engine := new STFTPack(n, nperseg, noverlap, eps);
      return Success(engine);
    }

    /** get_nrows: the number of frames, two fewer than the whole hops in the signal. */
    function GetNrows(): (r: nat)
      requires Configured()
      ensures (r + 2) * (nperseg - noverlap) <= n < (r + 3) * (nperseg - noverlap)
    {
      nrows
    }

    /** get_ncols: the number of bins per frame, half the frame size rounded down. */
    function GetNcols(): (r: nat)
      requires Configured()
      ensures 2 * r <= nperseg <= 2 * r + 1
    {
      ncols
    }

    /** The windowing loop of forward_stft: chunk[j] = x[k + j] * window[j]. */
    method WindowFrame(x: array<real>, k: nat)
      requires Valid()
      requires k + nperseg <= x.Length && x != chunk
      modifies chunk
      ensures chunk[..] == Frame(x[..], window[..], k)
    {
      ghost var frame := Frame(x[..], window[..], k);
      for j := 0 to nperseg
        invariant forall i :: 0 <= i < j ==> chunk[i] == frame[i]
      {
        assert frame[j] == x[k + j] * window[j];
        chunk[j] := x[k + j] * window[j];
      }
      assert chunk[..] == frame;
    }

    /** The magnitude loop of forward_stft: row m gets the bins of the spectrum in chunkFft. */
    method WriteBins(m: nat)
      requires Valid() && m < nrows
      modifies output[m]
      ensures output[m][..] == Bins(chunkFft[..], ncols)
    {
      var row := output[m];
      for j := 0 to ncols
        invariant forall i :: 0 <= i < j ==> row[i] == Mag(chunkFft[2 * i], chunkFft[2 * i + 1])
      {
        row[j] := Mag(chunkFft[2 * j], chunkFft[2 * j + 1]);
      }
    }

    /**
      * One iteration of forward_stft's frame loop: window the frame at offset k into
      * chunk, transform it, copy the aliased spectrum into chunkFft, and write the
      * magnitudes of its packed pairs into row m.
      */
    method ComputeRow(x: array<real>, m: nat, k: nat)
      requires Valid()
      requires m < nrows && k + nperseg <= x.Length
      requires x !in Repr
      modifies chunk, chunkFft, fftMachine.output, output[m]
      ensures output[m][..] == Row(x[..], window[..], k, ncols)
    {
      ghost var xs, ws := x[..], window[..];
      WindowFrame(x, k);
      ghost var frame := chunk[..];
      assert frame == Frame(xs, ws, k);
      // Transform the chunk, then copy the transform's aliased buffer into chunkFft.
      var spectrum := fftMachine.ForwardRfft(chunk);
      assert spectrum[..] == Rfft(frame);
      forall i | 0 <= i < nperseg {
        chunkFft[i] := spectrum[i];
      }
      assert chunkFft[..] == Rfft(frame);
      WriteBins(m);
      assert x[..] == xs && window[..] == ws;
    }

    /**
      * The working copy forward_stft reads: when n is not a multiple of nperseg, a fresh
      * buffer holding the signal followed by padlen zeros; otherwise the signal itself.
      */
    method PadSignal(arr: array<real>) returns (x: array<real>)
      requires arr.Length == n
      ensures x[..] == Pad(arr[..], padlen)
      ensures padlen == 0 ==> x == arr
      ensures padlen > 0 ==> fresh(x)
    {
      if padlen > 0 {
        x := new real[n + padlen];
        // Copy the n samples of the signal.
        forall i | 0 <= i < n {
          x[i] := arr[i];
        }
        for k := 0 to padlen
          invariant forall i :: 0 <= i < n ==> x[i] == arr[i]
          invariant forall i :: n <= i < n + k ==> x[i] == 0.0
        {
          x[n + k] := 0.0;
        }
      } else {
        x := arr;
      }
    }

    /**
      * forward_stft: frames the (zero-padded, when n is not a multiple of nperseg) signal,
      * and overwrites every row of the output matrix with the magnitude bins of its
      * frame. Returns the matrix itself, which the next forward_* call overwrites.
      */
    method ForwardStft(arr: array<real>) returns (r: array<array<real>>)
      requires Valid()
      requires arr.Length == n && arr !in Repr
      modifies chunk, chunkFft, fftMachine.output, output[..]
      ensures Valid()
      ensures r == output
      ensures arr[..] == old(arr[..])
      ensures Holds(StftOf(arr[..]))
    {
      var x := PadSignal(arr);
      ComputeRows(x);
      PaddingNeverRead(arr[..], padlen, window[..], nperseg - noverlap, nrows, ncols);
      r := output;
    }

    /**
      * The frame loop of forward_stft over the working copy x: row m becomes the bins of
      * the frame at offset m * hop.
      */
    method ComputeRows(x: array<real>)
      requires Valid()
      requires x !in Repr && FramesFit(x.Length, nperseg, nperseg - noverlap, nrows)
      modifies chunk, chunkFft, fftMachine.output, output[..]
      ensures x[..] == old(x[..])
      ensures Holds(Stft(x[..], window[..], nperseg - noverlap, nrows, ncols))
    {
      ghost var xs := x[..];
      ghost var S := Stft(xs, window[..], nperseg - noverlap, nrows, ncols);
      var k := 0;
      for m := 0 to nrows
        invariant k == m * (nperseg - noverlap)
        invariant x[..] == xs
        invariant forall i :: 0 <= i < m ==> output[i][..] == S[i]
      {
        MulMonotone(m, nrows - 1, nperseg - noverlap);
        ComputeRow(x, m, k);
        k := k + nperseg - noverlap;
      }
    }

    /** The loop nest of forward_spectrogram: every cell v of the matrix becomes v*v. */
    method SquareRows(ghost S: seq<seq<real>>)
      requires Valid() && Holds(S)
      modifies output[..]
      ensures Holds(Power(S))
    {
      for k := 0 to nrows
        invariant forall i :: 0 <= i < k ==> output[i][..] == PowerRow(S[i])
        invariant forall i :: k <= i < nrows ==> output[i][..] == S[i]
      {
        SquareCells(output[k]);
      }
      assert forall i :: 0 <= i < nrows ==> Power(S)[i] == PowerRow(S[i]);
    }

    /** The loop nest of forward_log_spectrogram: every cell v becomes log(eps + v*v). */
    method LogRows(ghost S: seq<seq<real>>)
      requires Valid() && Holds(S)
      modifies output[..]
      ensures Holds(LogPower(eps, S))
    {
      for k := 0 to nrows
        invariant forall i :: 0 <= i < k ==> output[i][..] == LogPowerRow(eps, S[i])
        invariant forall i :: k <= i < nrows ==> output[i][..] == S[i]
      {
        LogCells(eps, output[k]);
      }
      assert forall i :: 0 <= i < nrows ==> LogPower(eps, S)[i] == LogPowerRow(eps, S[i]);
    }

    /**
      * forward_spectrogram: forward_stft, then every cell v of the matrix overwritten
      * in place by v*v.
      */
    method ForwardSpectrogram(arr: array<real>) returns (r: array<array<real>>)
      requires Valid()
      requires arr.Length == n && arr !in Repr
      modifies chunk, chunkFft, fftMachine.output, output[..]
      ensures Valid()
      ensures r == output
      ensures arr[..] == old(arr[..])
      ensures Holds(Power(StftOf(arr[..])))
    {
      var stft := ForwardStft(arr);
      SquareRows(StftOf(arr[..]));
      r := stft;
    }

    /**
      * forward_log_spectrogram: forward_stft, then every cell v of the matrix
      * overwritten in place by log(eps + v*v).
      */
    method ForwardLogSpectrogram(arr: array<real>) returns (r: array<array<real>>)
      requires Valid()
      requires arr.Length == n && arr !in Repr
      modifies chunk, chunkFft, fftMachine.output, output[..]
      ensures Valid()
      ensures r == output
      ensures arr[..] == old(arr[..])
      ensures Holds(LogPower(eps, StftOf(arr[..])))
    {
      var stft := ForwardStft(arr);
      LogRows(StftOf(arr[..]));
      r := stft;
    }
  }
}
