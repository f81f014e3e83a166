# STFT engine of libstft (Dafny model)

This project models the short-time Fourier transform engine of `libstft.hpp` and proves its
properties. The engine is the `STFTPack` class, its `FFT` helper, and the sizing helpers
`calc_nrows`, `calc_ncols` and `get_hann_window`.

An engine is built for one signal length `n`, frame size `nperseg` and overlap `noverlap`.
The frames start `hop = nperseg - noverlap` samples apart. At construction the engine:

- checks that `nperseg >= noverlap` and that `noverlap` divides `nperseg`;
- computes the zero padding `padlen`, the row count `nrows = floor(n / hop) - 2` and the
  column count `ncols = floor(nperseg / 2)`;
- allocates a Hann window, two frame buffers (`chunk`, `chunk_fft`), an FFT helper and an
  `nrows x ncols` output matrix.

Each `forward_*` call works on the whole signal and overwrites that one matrix in place:

- `forward_stft` windows frame `m`, taken from offset `m * hop`. It transforms the frame
  with the FFT helper, whose returned buffer is an alias that the next call overwrites. It
  writes the magnitudes of the packed pairs `(2j, 2j+1)` into row `m`.
- `forward_spectrogram` then squares every cell.
- `forward_log_spectrogram` then replaces every cell `v` with `log(eps + v*v)`.

Files and modules:

- `sizing.dfy` (`Sizing`): the integer arithmetic, meaning the configuration check, padding,
  row and column counts, and the bounds lemmas.
- `numerics.dfy` (`Numerics`): the opaque floating-point and foreign primitives.
- `spectral.dfy` (`Spectral`): what the engine computes, as functions of values. These are
  the window, the padded signal, frames, bins, the STFT matrix and its two reductions.
- `fft.dfy` (`Fft`): the `FFT` class, with a fixed output buffer transformed in place.
- `engine.dfy` (`Engine`): `get_hann_window` and the `STFTPack` class. Its array fields are
  overwritten by methods with loop invariants, and each method is proved against the
  functions of `Spectral`.
- `wrappers.dfy` (`Wrappers`): `Option` and `Result`.

Proved facts worth noting:

- Under every configuration the constructor accepts, each frame the engine reads ends inside
  the unpadded signal (`Sizing.FrameWithinSignal`). So the zero padding that `forward_stft`
  builds is never read, and the STFT of the padded copy equals the STFT of the signal itself
  (`Spectral.PaddingNeverRead`). `Sizing.FrameWithinSignal`, taken at `m == nrows`, shows something
  more: the first frame dropped by the `- 2` in `calc_nrows` also lies wholly inside the
  signal.
- For the modelled configurations, construction throws in exactly two cases
  (`Sizing.CheckConfig`); allocation failure is left out:
  - `invalid_argument` when `nperseg < noverlap` or `noverlap` does not divide `nperseg`;
  - `bad_array_new_length` when the configuration is valid but the signal is shorter than two
    hops, because `new float*[nrows]` gets a negative length.

Two behaviours of the code worth noting:

- `forward_stft` overwrites every cell of the matrix before `forward_spectrogram` or
  `forward_log_spectrogram` squares it. So calling either one twice on the same signal gives
  the same matrix both times (see the `ensures` of `Engine.STFTPack.ForwardSpectrogram`).
- `get_hann_window` divides by `n`, not `n - 1`, so it builds the periodic Hann window. Under
  `cos(0) == 1` its first coefficient is zero (`Spectral.HannWindowStartsAtZero`).

## Model

| member | source | states |
|---|---|---|
| `Sizing.CalcNrows` | libstft.hpp:76-78 | The row count plus two is the number of whole hops in the signal: `(nrows + 2) * hop <= n < (nrows + 3) * hop`. |
| `Sizing.CalcNcols` | libstft.hpp:79-81 | The column count is half the frame size rounded down: `2 * ncols <= nperseg <= 2 * ncols + 1`. So bin `j < ncols` reads `2j + 1 < nperseg`. |
| `Sizing.PadLen` | libstft.hpp:129-132 | The padding is shorter than a frame and brings the length to a multiple of `nperseg`. It is zero exactly when `nperseg` divides `n`. |
| `Sizing.CheckConfig` | libstft.hpp:123-147 | `InvalidArgument` exactly when `!(nperseg >= noverlap && nperseg % noverlap == 0)`. `BadArrayNewLength` exactly when the check passes but `n < 2 * hop`, which makes `nrows` negative. No error exactly when the check passes and `n >= 2 * hop`. |
| `Sizing.HopCoversOverlap` | libstft.hpp:123 | If the overlap divides the frame size and is smaller than it, then `2 * noverlap <= nperseg`, so one frame spans at most two hops. |
| `Sizing.FrameWithinSignal` | libstft.hpp:191-196 | Under an accepted configuration, frame `m <= nrows` ends inside the unpadded signal: `m * hop + nperseg <= n`. So every read `x[k + j]` is below `n`. |
| `Numerics.Rfft` | libstft.hpp:45-48 | The in-place real transform yields as many coefficients as input values. |
| `Engine.GetHannWindow` | libstft.hpp:82-90 | Returns a fresh buffer whose coefficient `k` is `0.5 * (1 - cos(2 * PI * k / n))` for every `k < n`. |
| `Spectral.Stft` | libstft.hpp:191-207 | The STFT matrix has `nrows` rows of `ncols` cells. Row `m` is the magnitude bins of the transform of the frame windowed at offset `m * hop`. |
| `Spectral.PaddingNeverRead` | libstft.hpp:177-196 | When all frames fit in the signal, the STFT of the zero-padded working copy equals the STFT of the signal. |
| `Spectral.SilentSignalRowsAgree` | libstft.hpp:192-205 | For an all-zero signal, every row equals the bins of the transform of the zero frame, whatever the window. |
| `Spectral.SilentSignalGivesZeros` | libstft.hpp:192-205 | For an all-zero signal, the STFT is all zeros, provided the transform maps zeros to zeros and `sqrt(0) == 0`. |
| `Spectral.Power` | libstft.hpp:219-223 | The power spectrogram has the shape of its input. |
| `Spectral.LogPower` | libstft.hpp:231-235 | The log-power spectrogram has the shape of its input. |
| `Fft.FFT.constructor` | libstft.hpp:26-31 | Records the transform length and allocates a fresh output buffer of that length. |
| `Fft.FFT.ForwardRfft` | libstft.hpp:39-51 | Leaves the input unchanged when the input is not the buffer itself. Sets the internal buffer to the transform of the input and returns that same buffer, an alias rather than a copy. |
| `Engine.AllocateRows` | libstft.hpp:147-150 | Allocates `nrows` fresh, pairwise distinct rows of `ncols` cells. |
| `Engine.STFTPack.constructor` | libstft.hpp:121-153 | For an accepted configuration, sets padding, row and column counts from the sizing functions. Establishes the Hann window, frame buffers of `nperseg` values, the `nrows x ncols` matrix and an FFT of length `nperseg`, all fresh and unaliased. |
| `Engine.STFTPack.Create` | libstft.hpp:123-127 | Fails exactly when `CheckConfig` reports an error, with that error. Otherwise returns an engine with the given parameters that satisfies its invariants. |
| `Engine.STFTPack.GetNrows` | libstft.hpp:166-168 | Returns a row count whose value plus two is the number of whole hops in `n`. |
| `Engine.STFTPack.GetNcols` | libstft.hpp:170-172 | Returns half the frame size rounded down. |
| `Engine.STFTPack.WindowFrame` | libstft.hpp:194-196 | `chunk` becomes the frame at offset `k`, multiplied elementwise by the window. |
| `Engine.STFTPack.WriteBins` | libstft.hpp:201-205 | Row `m` becomes the magnitudes of the packed pairs `(chunk_fft[2j], chunk_fft[2j+1])`, for `j < ncols`. |
| `Engine.STFTPack.ComputeRow` | libstft.hpp:193-206 | Row `m` becomes the bins of the transform of the windowed frame at offset `k`. The transform's aliased buffer is copied into `chunk_fft` before use. |
| `Engine.STFTPack.PadSignal` | libstft.hpp:175-189 | The working copy is the signal followed by `padlen` zeros. With no padding it is the signal itself (an alias); otherwise it is a fresh buffer. |
| `Spectral.Pad` | libstft.hpp:177-189 | The working copy has length `n + padlen`. Its contents are stated by `Spectral.PadKeepsSignalThenZeros`. |
| `Spectral.Frame` | libstft.hpp:194-196 | The chunk of a frame has one value per window coefficient. What it reads is stated by `Spectral.FrameReadsOnlyItsSlice`. |
| `Spectral.Bins` | libstft.hpp:201-205 | A row of bins has exactly `ncols` cells. Which coefficients it reads is stated by `Spectral.BinsReadOnlyPairs`. |
| `Spectral.Row` | libstft.hpp:193-205 | The row computed from one frame has exactly `ncols` cells. |
| `Spectral.HannWindow` | libstft.hpp:82-90 | The window of length `n` has `n` coefficients. |
| `Numerics.HannCoeff` | libstft.hpp:86 | If the cosine at `2 * PI * k / n` lies in `[-1, 1]`, the coefficient lies in `[0, 1]`. |
| `Numerics.Mag` | libstft.hpp:202-204 | The magnitude of a packed pair is non-negative whenever `sqrt` is. |
| `Numerics.LogEps` | libstft.hpp:233 | If `log` is monotone, the log-power is at least `log(eps)`. |
| `Spectral.PowerRow` | libstft.hpp:221 | The squared row has the length of its input. Cell values are stated by `Spectral.PowerIsSumOfSquares`. |
| `Spectral.LogPowerRow` | libstft.hpp:233 | The log-power row has the length of its input. Cell values are stated by `Spectral.LogPowerIsLogOfPower`. |
| `Spectral.PadKeepsSignalThenZeros` | libstft.hpp:177-189 | The padded copy begins with the whole signal, and every one of the `padlen` cells after it is `0.0`. |
| `Spectral.PaddedToWholeFrames` | libstft.hpp:129-132 | Padding a signal with `PadLen(n, nperseg)` zeros makes its length a multiple of `nperseg`. |
| `Spectral.FrameReadsOnlyItsSlice` | libstft.hpp:194-196 | The chunk at offset `k` depends only on the slice `x[k .. k + nperseg]`: it equals the chunk at offset 0 of that slice. |
| `Spectral.BinsReadOnlyPairs` | libstft.hpp:201-205 | The bins of a row read only the first `2 * ncols` transform coefficients. When `nperseg` is odd, the last coefficient is ignored. |
| `Spectral.HannWindowBounded` | libstft.hpp:82-90 | If `cos` maps into `[-1, 1]`, every coefficient of the window lies in `[0, 1]`. |
| `Spectral.HannWindowStartsAtZero` | libstft.hpp:86 | If `cos(0) == 1`, coefficient 0 of the periodic window is `0`. |
| `Spectral.PowerIsSumOfSquares` | libstft.hpp:220-222 | If `sqrt` is a square root on non-negative reals, each power-spectrogram cell is `F[2j]*F[2j] + F[2j+1]*F[2j+1]` of its packed pair `(F[2j], F[2j+1])`. |
| `Spectral.LogPowerIsLogOfPower` | libstft.hpp:232-234 | Each log-power cell is `log(eps + p)`, where `p` is the power-spectrogram cell at the same place. |
| `Engine.STFTPack.ComputeRows` | libstft.hpp:190-207 | Every row `m` of the matrix becomes the bins of the frame of the working copy at offset `m * hop`. The working copy is not written. |
| `Engine.STFTPack.ForwardStft` | libstft.hpp:174-214 | Returns the engine's own matrix, with every row overwritten by the STFT of the signal. The signal is unchanged, and the result does not depend on the matrix's earlier contents. |
| `Engine.SquareCells` | libstft.hpp:220-222 | Every cell `v` of one row becomes `v * v`, and nothing else changes. |
| `Engine.LogCells` | libstft.hpp:232-234 | Every cell `v` of one row becomes `log(eps + v * v)`, and nothing else changes. |
| `Engine.STFTPack.SquareRows` | libstft.hpp:219-223 | A matrix holding `S` comes to hold the power spectrogram of `S`. |
| `Engine.STFTPack.LogRows` | libstft.hpp:231-235 | A matrix holding `S` comes to hold the log-power spectrogram of `S`. |
| `Engine.STFTPack.ForwardSpectrogram` | libstft.hpp:216-226 | Returns the same matrix, each cell being the square of the STFT cell of the signal. The signal is unchanged. |
| `Engine.STFTPack.ForwardLogSpectrogram` | libstft.hpp:228-238 | Returns the same matrix, each cell being `log(eps + v * v)` of the STFT cell `v` of the signal. The signal is unchanged. |

## Left out

- The `extern "C"` wrappers (libstft.hpp:54-71 and 241-272), the benchmark `main` in `libstft.cpp`, and the Python ctypes glue. They are marshalling and test scaffolding with no engine logic.
- The numeric content of `cos`, `sqrt`, `log` and the fftpack routines `__ogg_fdrffti`/`__ogg_fdrfftf`. `fftpack.h` is not part of this model. These are arbitrary constants in `Numerics`, and every property holds for all of their values. As a result:
  - Hann symmetry is out of reach.
  - A zero output for a silent signal is proved only under two hypotheses: the transform of zeros is zeros, and `sqrt(0) == 0`.
- The bins pair the transform's coefficients as `(F[2j], F[2j+1])` from index 0, as the code does. The coefficient layout of fftpack is not part of this model. If index 0 holds the DC term alone, as in the usual fftpack layout, these pairs are not the real and imaginary parts of one bin. This is an observation from reading only; nothing was executed.
- Floating point: `float` values are modelled as `real`, with no rounding.
- The Hann coefficients keep the truncated `PI` constant, but the mixed `double`/`float` arithmetic is not modelled.
- Sizing.CalcNrows: the source divides in `float`. The model takes the exact integer floor of `n / hop`, which agrees only while the `float` quotient floors exactly (for example, while `n` is below 2^24).
- 32-bit `int` overflow of `n + padlen`, `k + j` and `m * hop` is not modelled. Integers are unbounded.
- The scratch tables `ifac` and `wsave` of the FFT helper (libstft.hpp:17-18, 28-29, 45). Their contents are not modelled, so they are not fields of the model.
- Destructors, `delete[]` of the padded copy, and other memory release (libstft.hpp:33-37, 155-164, 209-212). Allocation failure (`std::bad_alloc`) is not modelled either.
- Sizing.CalcNrows: requires `nperseg - noverlap > 0`. A zero hop divides by zero at libstft.hpp:77, and the source does not check for it.
- Engine.STFTPack.Create: requires these, which the source does not check:
  - `noverlap > 0`, because `%` by zero at libstft.hpp:123 is undefined behaviour, and negative overlaps are not modelled;
  - `nperseg != noverlap`, because that makes the hop zero and divides by zero in `calc_nrows`.
- Engine.STFTPack.ForwardStft: requires the signal to have exactly `n` samples and not to be one of the engine's own buffers. The source reads `n` samples without checking either.
- Engine.STFTPack.ForwardSpectrogram: the same two requirements on the signal as `ForwardStft`.
- Engine.STFTPack.ForwardLogSpectrogram: the same two requirements on the signal as `ForwardStft`.
- Fft.FFT.ForwardRfft: requires an input of exactly `n` values. The source copies `n` floats without checking.
- Signal lengths are natural numbers. A negative `n` passed to the constructor is not modelled.
