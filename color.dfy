/** The per-channel colour pipeline: correction, then brightness, then the gamma
    lookup, each result clamped to a byte before the next stage. The float
    multiplies of the C code are exact rational multiplies here, truncated the
    way a C float-to-integer conversion truncates. */
module Color {
  import opened Bytes
  import opened Clamp
  import opened Config

  /** A 256-entry gamma lookup table for one channel. */
  type Lut = s: seq<uint8> | |s| == 256 witness IdentityLut

  const IdentityLut: seq<uint8> := seq(256, i requires 0 <= i < 256 => i)

  /** The three channel tables; their contents (built with powf) are a parameter. */
  datatype GammaTable = GammaTable(r: Lut, g: Lut, b: Lut)

  ghost predicate NonDecreasing(lut: Lut)
  {
    forall i, j :: 0 <= i <= j < 256 ==> lut[i] <= lut[j]
  }

  /** Conversion of a float to an integer type: truncation toward zero. */
  function TruncToInt(x: real): int
  {
    if x >= 0.0 then x.Floor else -((-x).Floor)
  }

  /** Stage 1: clamp_u8((int)(v * coef)). */
  function Correct(v: uint8, coef: real): uint8
  {
    ClampU8(TruncToInt(v as real * coef))
  }

  /** Stage 2: (uint8_t)(v * br); with br in [0, 1] the product never leaves [0, v]. */
  function Dim(v: uint8, br: Level): (r: uint8)
    ensures r <= v
  {
    ScaleBounds(v, br);
    TruncToInt(v as real * br)
  }

  /** Stage 3: lut[clamp_u8(v)]. The clamp never changes a byte, so this is a plain lookup. */
  function Gamma(v: uint8, lut: Lut): (r: uint8)
    ensures r == lut[v]
  {
    lut[ClampU8(v)]
  }

  /** One channel through the whole pipeline, in the fixed stage order. */
  function ProcessChannel(v: uint8, coef: real, br: Level, lut: Lut): uint8
  {
    Gamma(Dim(Correct(v, coef), br), lut)
  }

  /** Channel c of a correction triple: 0 is red, 1 green, 2 blue. */
  function Coef(corr: Correction, c: nat): real
    requires c < 3
  {
    if c == 0 then corr.r else if c == 1 then corr.g else corr.b
  }

  /** Channel c of the gamma tables: 0 is red, 1 green, 2 blue. */
  function LutOf(gamma: GammaTable, c: nat): Lut
    requires c < 3
  {
    if c == 0 then gamma.r else if c == 1 then gamma.g else gamma.b
  }

  /** Scaling a byte by a factor in [0, 1] stays within [0, the byte]. */
  lemma ScaleBounds(v: uint8, f: Level)
    ensures 0.0 <= v as real * f
    ensures 0 <= (v as real * f).Floor <= v
  {
    assert v as real * f >= 0.0;
    assert v as real * (1.0 - f) >= 0.0;
  }

  /** Scaling by a non-negative factor and truncating preserves order. */
  lemma ScaleMonotone(v: uint8, w: uint8, f: real)
    requires v <= w && 0.0 <= f
    ensures 0.0 <= v as real * f <= w as real * f
    ensures (v as real * f).Floor <= (w as real * f).Floor
  {
    assert (w as real - v as real) * f >= 0.0;
    assert 0.0 <= v as real * f;
  }

  /** A coefficient of 1.00 (every channel of the split build) leaves a byte unchanged. */
  lemma CorrectUnit(v: uint8)
    ensures Correct(v, 1.0) == v
  {
  }

  /** A coefficient in [0, 1] (every channel of either build) never brightens a channel. */
  lemma CorrectDarkens(v: uint8, coef: Level)
    ensures Correct(v, coef) <= v
  {
    ScaleBounds(v, coef);
  }

  /** Full brightness is the identity; the result is at most the input for any level (Dim's ensures). */
  lemma DimFull(v: uint8)
    ensures Dim(v, 1.0) == v
  {
  }

  /** Unit corrections, full brightness and an identity table pass every byte through. */
  lemma PipelineIdentity(v: uint8)
    ensures ProcessChannel(v, 1.0, 1.0, IdentityLut) == v
  {
    CorrectUnit(v);
    DimFull(v);
  }

  lemma CorrectMonotone(v: uint8, w: uint8, coef: real)
    requires v <= w && coef >= 0.0
    ensures Correct(v, coef) <= Correct(w, coef)
  {
    ScaleMonotone(v, w, coef);
    ClampMonotone(TruncToInt(v as real * coef), TruncToInt(w as real * coef));
  }

  lemma DimMonotone(v: uint8, w: uint8, br: Level)
    requires v <= w
    ensures Dim(v, br) <= Dim(w, br)
  {
    ScaleMonotone(v, w, br);
  }

  /** With a non-negative coefficient and a non-decreasing gamma table, a brighter
      source channel never yields a darker LED channel. */
  lemma ProcessChannelMonotone(v: uint8, w: uint8, coef: real, br: Level, lut: Lut)
    requires v <= w && coef >= 0.0
    requires NonDecreasing(lut)
    ensures ProcessChannel(v, coef, br, lut) <= ProcessChannel(w, coef, br, lut)
  {
    CorrectMonotone(v, w, coef);
    DimMonotone(Correct(v, coef), Correct(w, coef), br);
  }
}
