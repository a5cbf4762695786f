/** Compile-time configuration shared by both builds: the matrix geometry, the
    per-channel colour correction coefficients and the minimum frame delay. */
module Config {

  const MatrixWidth: nat := 16
  const MatrixHeight: nat := 16
  const BytesPerLed: nat := 3
  const NumLeds: nat := MatrixWidth * MatrixHeight
  /** Size of one frame payload: every LED contributes an R, a G and a B byte. */
  const FrameBytes: nat := NumLeds * BytesPerLed

  /** Substituted for a frame delay that resolves to zero milliseconds or less. */
  const MinDelayMs: nat := 16

  /** A brightness or other factor in [0, 1]. The option parser rejects numbers outside
      this range; it lets a NaN through, which this type leaves out. */
  type Level = x: real | 0.0 <= x <= 1.0

  /** Per-channel correction coefficients, exact rationals standing for the C floats. */
  datatype Correction = Correction(r: real, g: real, b: real)

  /** R/G/B_CORRECTION of the split build. */
  const SplitCorrection := Correction(1.00, 1.00, 1.00)

  /** R/G/B_CORRECTION of the single-file build. */
  const LegacyCorrection := Correction(1.00, 0.82, 0.70)
}
