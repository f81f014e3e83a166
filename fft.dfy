/** The FFT helper of libstft.hpp: one fixed-size output buffer, transformed in place. */
module Fft {
  import opened Numerics

  class FFT {
    /** The transform length. */
    const n: nat
    /** The buffer every call transforms and returns; the next call overwrites it. */
    const output: array<real>

    ghost predicate Valid()
    {
      output.Length == n
    }

    constructor (n: nat)
      ensures Valid() && this.n == n && fresh(output)
    {
      this.n := n;
      output := new real[n];
    }

    /**
      * Copies arr into the output buffer, transforms the buffer in place and returns it
      * (an alias of the buffer, not a copy). The input is read but not written.
      */
    method ForwardRfft(arr: array<real>) returns (r: array<real>)
      requires Valid() && arr.Length == n
      modifies output
      ensures r == output
      ensures output[..] == Rfft(old(arr[..]))
      ensures arr != output ==> arr[..] == old(arr[..])
    {
      // Copy the input into the buffer.
      forall i | 0 <= i < n {
        output[i] := arr[i];
      }
      assert output[..] == old(arr[..]);
      // Overwrite the buffer with its real transform.
      var spectrum := Rfft(output[..]);
      forall i | 0 <= i < n {
        output[i] := spectrum[i];
      }
      assert output[..] == spectrum;
      r := output;
    }
  }
}
