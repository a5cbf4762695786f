/** Frame extraction of the split build: the aspect-ratio gate, point sampling of
    one source pixel per LED, the colour pipeline and the delay floor, for every
    frame of the decoded animation. */
module Gif {
  import opened Bytes
  import opened Clamp
  import opened Config
  import opened Color
  import opened Decoder

  function Abs(x: real): real
  {
    if x < 0.0 then -x else x
  }

  /** The aspect gate: |width / height - 1| <= 0.02. It compares against a square,
      whatever the matrix dimensions. A zero height gives an infinite ratio (rejected)
      unless the width is zero too, where 0/0 is NaN and the "> 0.02" test fails.
      The decoder handle only has sides of at least 1, so extraction never reaches
      the zero-height branch; it is kept so the predicate is total. */
  predicate SquareEnough(width: int, height: int)
  {
    if height == 0 then width == 0
    else Abs(width as real / height as real - 1.0) <= 0.02
  }

  lemma RatioAtMost(width: int, height: int)
    requires height >= 1
    ensures width as real / height as real <= 1.02 <==> 50 * width <= 51 * height
  {
    assert (width as real / height as real) * height as real == width as real;
    if width as real / height as real <= 1.02 {
      assert (1.02 - width as real / height as real) * height as real >= 0.0;
      assert width as real <= 1.02 * height as real;
      assert 50.0 * width as real <= 51.0 * height as real;
      assert 50 * width <= 51 * height;
    } else {
      assert (width as real / height as real - 1.02) * height as real > 0.0;
      assert width as real > 1.02 * height as real;
      assert 50.0 * width as real > 51.0 * height as real;
      assert 50 * width > 51 * height;
    }
  }

  lemma RatioAtLeast(width: int, height: int)
    requires height >= 1
    ensures 0.98 <= width as real / height as real <==> 49 * height <= 50 * width
  {
    assert (width as real / height as real) * height as real == width as real;
    if 0.98 <= width as real / height as real {
      assert (width as real / height as real - 0.98) * height as real >= 0.0;
      assert 0.98 * height as real <= width as real;
      assert 49.0 * height as real <= 50.0 * width as real;
      assert 49 * height <= 50 * width;
    } else {
      assert (0.98 - width as real / height as real) * height as real > 0.0;
      assert width as real < 0.98 * height as real;
      assert 50.0 * width as real < 49.0 * height as real;
      assert 50 * width < 49 * height;
    }
  }

  /** For a non-zero height the gate is the integer condition
      49 * height <= 50 * width <= 51 * height: the ratio lies in [0.98, 1.02]. */
  lemma SquareEnoughIntegral(width: int, height: int)
    requires height >= 1
    ensures SquareEnough(width, height) <==> 49 * height <= 50 * width <= 51 * height
  {
    RatioAtMost(width, height);
    RatioAtLeast(width, height);
  }

  /** Every square source passes, both ends of the tolerance are inclusive, and one
      pixel past either end is rejected. */
  lemma GateBoundaries(n: int)
    requires n >= 1
    ensures SquareEnough(n, n)
    ensures SquareEnough(51, 50) && !SquareEnough(52, 50)
    ensures SquareEnough(49, 50) && !SquareEnough(48, 50)
    ensures !SquareEnough(32, 20)
  {
    SquareEnoughIntegral(n, n);
    SquareEnoughIntegral(51, 50);
    SquareEnoughIntegral(52, 50);
    SquareEnoughIntegral(49, 50);
    SquareEnoughIntegral(48, 50);
    SquareEnoughIntegral(32, 20);
  }

  /** The source pixel (column, row) sampled for LED (x, y): the cell's origin plus
      half a cell in each direction, all in integer division. It lies inside the
      source, and inside cell (x, y) whenever the source has at least one pixel per LED. */
  function SamplePoint(width: int, height: int, x: nat, y: nat): (p: (int, int))
    requires width >= 1 && height >= 1 && x < MatrixWidth && y < MatrixHeight
    ensures 0 <= p.0 < width && 0 <= p.1 < height
    ensures width >= MatrixWidth ==>
      x * (width / MatrixWidth) <= p.0 < (x + 1) * (width / MatrixWidth)
    ensures height >= MatrixHeight ==>
      y * (height / MatrixHeight) <= p.1 < (y + 1) * (height / MatrixHeight)
  {
    var cellW, cellH := width / MatrixWidth, height / MatrixHeight;
    CellCentre(width, x);
    CellCentre(height, y);
    (x * cellW + cellW / 2, y * cellH + cellH / 2)
  }

  /** What the integer cells leave out. A side shorter than the matrix gives zero-width
      cells, so every LED samples column (or row) 0; otherwise the last side mod 16
      columns (or rows) are never sampled. */
  lemma SampleCoverage(width: int, height: int, x: nat, y: nat)
    requires width >= 1 && height >= 1 && x < MatrixWidth && y < MatrixHeight
    ensures width < MatrixWidth ==> SamplePoint(width, height, x, y).0 == 0
    ensures height < MatrixHeight ==> SamplePoint(width, height, x, y).1 == 0
    ensures width >= MatrixWidth ==> SamplePoint(width, height, x, y).0 < MatrixWidth * (width / MatrixWidth)
    ensures height >= MatrixHeight ==> SamplePoint(width, height, x, y).1 < MatrixHeight * (height / MatrixHeight)
  {
    MulAtMost(x + 1, MatrixWidth, width / MatrixWidth);
    MulAtMost(y + 1, MatrixHeight, height / MatrixHeight);
  }

  lemma CellCentre(n: int, x: nat)
    requires n >= 1 && x < 16
    ensures 0 <= x * (n / 16) + (n / 16) / 2 < n
    ensures n >= 16 ==> x * (n / 16) <= x * (n / 16) + (n / 16) / 2 < (x + 1) * (n / 16)
  {
    var cell := n / 16;
    assert 16 * cell <= n;
    assert (x + 1) * cell == x * cell + cell;
    MulAtMost(x + 1, 16, cell);
  }

  lemma {:induction false} MulAtMost(a: nat, b: nat, c: nat)
    requires a <= b
    ensures a * c <= b * c
    decreases b - a
  {
    if a < b {
      assert (a + 1) * c == a * c + c;
      MulAtMost(a + 1, b, c);
    }
  }

  /** The row-major pixel index that the sampler reads for LED (x, y). */
  function SampleIndex(width: int, height: int, x: nat, y: nat): (i: nat)
    requires width >= 1 && height >= 1 && x < MatrixWidth && y < MatrixHeight
    ensures i < width * height
  {
    var p := SamplePoint(width, height, x, y);
    RowMajorBound(p.0, p.1, width, height);
    p.1 * width + p.0
  }

  lemma RowMajorBound(px: int, py: int, width: int, height: int)
    requires 0 <= px < width && 0 <= py < height
    ensures 0 <= py * width + px < width * height
  {
    assert py * width + px < py * width + width == (py + 1) * width;
    assert (py + 1) * width <= height * width;
  }

  /** Byte k of a sampled frame: channel k % 3 of LED k / 3, LEDs in row-major order. */
  function SampledByte(width: int, height: int, rgb: seq<uint8>, corr: Correction,
                       br: Level, gamma: GammaTable, k: nat): uint8
    requires width >= 1 && height >= 1 && |rgb| == width * height * 3
    requires k < FrameBytes
  {
    var led, c := k / 3, k % 3;
    var i := SampleIndex(width, height, led % MatrixWidth, led / MatrixWidth);
    ProcessChannel(rgb[3 * i + c], Coef(corr, c), br, LutOf(gamma, c))
  }

  /** The 768-byte payload extracted from one rendered source frame. */
  function SampledFrame(width: int, height: int, rgb: seq<uint8>, corr: Correction,
                        br: Level, gamma: GammaTable): (f: seq<uint8>)
    requires width >= 1 && height >= 1 && |rgb| == width * height * 3
    ensures |f| == FrameBytes
  {
    seq(FrameBytes, k requires 0 <= k < FrameBytes => SampledByte(width, height, rgb, corr, br, gamma, k))
  }

  /** Byte 3 * (16 * y + x) + c addresses channel c of LED (x, y), and no other. */
  lemma LedPosition(x: nat, y: nat, c: nat)
    requires x < MatrixWidth && y < MatrixHeight && c < 3
    ensures 3 * (MatrixWidth * y + x) + c < FrameBytes
    ensures (3 * (MatrixWidth * y + x) + c) / 3 == MatrixWidth * y + x
    ensures (3 * (MatrixWidth * y + x) + c) % 3 == c
    ensures (MatrixWidth * y + x) % MatrixWidth == x
    ensures (MatrixWidth * y + x) / MatrixWidth == y
  {
  }

  /** Every payload byte belongs to exactly one (LED, channel) pair: the frame is
      covered, in row-major order, with no gaps and no overlaps. */
  lemma ByteToLed(k: nat)
    requires k < FrameBytes
    ensures k == 3 * (MatrixWidth * ((k / 3) / MatrixWidth) + (k / 3) % MatrixWidth) + k % 3
    ensures (k / 3) % MatrixWidth < MatrixWidth && (k / 3) / MatrixWidth < MatrixHeight
  {
  }

  /** Channel c of LED (x, y) is the pipeline applied to channel c of the source
      pixel sampled for that LED. */
  lemma SampledFrameAt(width: int, height: int, rgb: seq<uint8>, corr: Correction,
                       br: Level, gamma: GammaTable, x: nat, y: nat, c: nat)
    requires width >= 1 && height >= 1 && |rgb| == width * height * 3
    requires x < MatrixWidth && y < MatrixHeight && c < 3
    ensures |SampledFrame(width, height, rgb, corr, br, gamma)| == FrameBytes
    ensures 3 * SampleIndex(width, height, x, y) + c < |rgb|
    ensures SampledFrame(width, height, rgb, corr, br, gamma)[3 * (MatrixWidth * y + x) + c]
         == ProcessChannel(rgb[3 * SampleIndex(width, height, x, y) + c], Coef(corr, c), br, LutOf(gamma, c))
  {
    LedPosition(x, y, c);
  }

  /** Unit corrections, full brightness and identity tables reduce the sampler to a
      pure point sampler: each LED shows its sampled source pixel unchanged. */
  lemma IdentitySettingsSample(width: int, height: int, rgb: seq<uint8>, x: nat, y: nat, c: nat)
    requires width >= 1 && height >= 1 && |rgb| == width * height * 3
    requires x < MatrixWidth && y < MatrixHeight && c < 3
    ensures 3 * SampleIndex(width, height, x, y) + c < |rgb|
    ensures SampledFrame(width, height, rgb, SplitCorrection, 1.0,
                         GammaTable(IdentityLut, IdentityLut, IdentityLut))[3 * (MatrixWidth * y + x) + c]
         == rgb[3 * SampleIndex(width, height, x, y) + c]
  {
    var gamma := GammaTable(IdentityLut, IdentityLut, IdentityLut);
    SampledFrameAt(width, height, rgb, SplitCorrection, 1.0, gamma, x, y, c);
    PipelineIdentity(rgb[3 * SampleIndex(width, height, x, y) + c]);
  }

  /** The delay stored for a frame: gce.delay hundredths of a second in milliseconds,
      with the floor MinDelayMs for a zero delay. It is always positive. */
  function ResolveDelay(delayCs: uint16): (ms: int)
    ensures ms > 0
    ensures delayCs == 0 ==> ms == MinDelayMs
    ensures delayCs > 0 ==> ms == 10 * delayCs as int
  {
    var d := delayCs as int * 10;
    if d <= 0 then MinDelayMs else d
  }

  /** The frame payloads of a whole animation, in file order. */
  function SampledFrames(width: int, height: int, raws: seq<RawFrame>, corr: Correction,
                         br: Level, gamma: GammaTable): seq<seq<uint8>>
    requires width >= 1 && height >= 1
    requires forall i :: 0 <= i < |raws| ==> |raws[i].rgb| == width * height * 3
  {
    seq(|raws|, i requires 0 <= i < |raws| => SampledFrame(width, height, raws[i].rgb, corr, br, gamma))
  }

  /** The resolved delays of a whole animation, in file order. */
  function ResolvedDelays(raws: seq<RawFrame>): seq<int>
  {
    seq(|raws|, i requires 0 <= i < |raws| => ResolveDelay(raws[i].delayCs))
  }

  /** The counting pass: reads frames until the decoder reports the end, then rewinds. */
  method CountFrames(handle: GifHandle) returns (frameCount: nat)
    requires handle.Valid() && handle.cursor == 0
    modifies handle
    ensures handle.Valid() && handle.cursor == 0
    ensures frameCount == |handle.frames|
  {
    frameCount := 0;
    var got := handle.GetFrame();
    while got
      invariant handle.Valid()
      invariant got ==> handle.cursor == frameCount + 1
      invariant !got ==> handle.cursor == frameCount == |handle.frames|
      decreases |handle.frames| - frameCount
    {
      frameCount := frameCount + 1;
      got := handle.GetFrame();
    }
    handle.Rewind();
  }

  /** Correction, then brightness, then gamma, channel by channel: the body of the
      per-LED loop. */
  method ProcessPixel(r0: uint8, g0: uint8, b0: uint8, corr: Correction, br: Level, gamma: GammaTable)
    returns (r: uint8, g: uint8, b: uint8)
    ensures r == ProcessChannel(r0, Coef(corr, 0), br, LutOf(gamma, 0))
    ensures g == ProcessChannel(g0, Coef(corr, 1), br, LutOf(gamma, 1))
    ensures b == ProcessChannel(b0, Coef(corr, 2), br, LutOf(gamma, 2))
  {
    r := Correct(r0, corr.r);
    g := Correct(g0, corr.g);
    b := Correct(b0, corr.b);

    r := Dim(r, br);
    g := Dim(g, br);
    b := Dim(b, br);

    r := gamma.r[ClampU8(r)];
    g := gamma.g[ClampU8(g)];
    b := gamma.b[ClampU8(b)];
  }

  /** The nested y/x loops: samples one source pixel per LED, runs its three channels
      through the pipeline and stores them at bytes 3 * (16 * y + x) .. + 2. */
  method FillLeds(width: int, height: int, frameBuffer: array<uint8>, dataBuffer: array<uint8>,
                  corr: Correction, br: Level, gamma: GammaTable)
    requires width >= 1 && height >= 1
    requires frameBuffer.Length == width * height * 3 && dataBuffer.Length == FrameBytes
    requires frameBuffer != dataBuffer
    modifies dataBuffer
    ensures dataBuffer[..] == SampledFrame(width, height, frameBuffer[..], corr, br, gamma)
  {
    ghost var want := SampledFrame(width, height, frameBuffer[..], corr, br, gamma);
    var cellW := width / MatrixWidth;
    var cellH := height / MatrixHeight;
    for y := 0 to MatrixHeight
      invariant forall k :: 0 <= k < y * MatrixWidth * 3 ==> dataBuffer[k] == want[k]
    {
      for x := 0 to MatrixWidth
        invariant forall k :: 0 <= k < (y * MatrixWidth + x) * 3 ==> dataBuffer[k] == want[k]
      {
        SampleLed(width, height, cellW, cellH, frameBuffer, dataBuffer, x, y, corr, br, gamma);
      }
    }
  }

  /** What the loop body needs about LED (x, y), stated on the index expressions it computes. */
  lemma SampledLedAt(width: int, height: int, rgb: seq<uint8>, corr: Correction,
                     br: Level, gamma: GammaTable, x: nat, y: nat,
                     cellW: int, cellH: int, px: int, py: int, index: int, led: int)
    requires width >= 1 && height >= 1 && |rgb| == width * height * 3
    requires x < MatrixWidth && y < MatrixHeight
    requires cellW == width / MatrixWidth && cellH == height / MatrixHeight
    requires px == x * cellW + cellW / 2 && py == y * cellH + cellH / 2
    requires index == py * width + px
    requires led == y * MatrixWidth + x
    ensures 0 <= index && index * 3 + 2 < |rgb| && 0 <= led < NumLeds
    ensures SampledFrame(width, height, rgb, corr, br, gamma)[led * 3]
         == ProcessChannel(rgb[index * 3], Coef(corr, 0), br, LutOf(gamma, 0))
    ensures SampledFrame(width, height, rgb, corr, br, gamma)[led * 3 + 1]
         == ProcessChannel(rgb[index * 3 + 1], Coef(corr, 1), br, LutOf(gamma, 1))
    ensures SampledFrame(width, height, rgb, corr, br, gamma)[led * 3 + 2]
         == ProcessChannel(rgb[index * 3 + 2], Coef(corr, 2), br, LutOf(gamma, 2))
  {
    assert index == SampleIndex(width, height, x, y);
    SampledFrameAt(width, height, rgb, corr, br, gamma, x, y, 0);
    SampledFrameAt(width, height, rgb, corr, br, gamma, x, y, 1);
    SampledFrameAt(width, height, rgb, corr, br, gamma, x, y, 2);
  }

  /** The body of the sampling loops for LED (x, y): reads the sampled source pixel,
      sends it through the pipeline and stores it; no other payload byte changes. */
  method SampleLed(width: int, height: int, cellW: int, cellH: int,
                   frameBuffer: array<uint8>, dataBuffer: array<uint8>, x: nat, y: nat,
                   corr: Correction, br: Level, gamma: GammaTable)
    requires width >= 1 && height >= 1 && cellW == width / MatrixWidth && cellH == height / MatrixHeight
    requires frameBuffer.Length == width * height * 3 && dataBuffer.Length == FrameBytes
    requires frameBuffer != dataBuffer
    requires x < MatrixWidth && y < MatrixHeight
    modifies dataBuffer
    ensures dataBuffer[(y * MatrixWidth + x) * 3] == SampledFrame(width, height, frameBuffer[..], corr, br, gamma)[(y * MatrixWidth + x) * 3]
    ensures dataBuffer[(y * MatrixWidth + x) * 3 + 1] == SampledFrame(width, height, frameBuffer[..], corr, br, gamma)[(y * MatrixWidth + x) * 3 + 1]
    ensures dataBuffer[(y * MatrixWidth + x) * 3 + 2] == SampledFrame(width, height, frameBuffer[..], corr, br, gamma)[(y * MatrixWidth + x) * 3 + 2]
    ensures forall k :: 0 <= k < FrameBytes && (k < (y * MatrixWidth + x) * 3 || (y * MatrixWidth + x) * 3 + 3 <= k) ==>
      dataBuffer[k] == old(dataBuffer[k])
  {
    var px := x * cellW + cellW / 2;
    var py := y * cellH + cellH / 2;
    var index := py * width + px;
    var dataIndex := y * MatrixWidth + x;
    SampledLedAt(width, height, frameBuffer[..], corr, br, gamma, x, y, cellW, cellH, px, py, index, dataIndex);

    var r, g, b := ProcessPixel(frameBuffer[index * 3 + 0], frameBuffer[index * 3 + 1],
                                frameBuffer[index * 3 + 2], corr, br, gamma);

    dataBuffer[dataIndex * 3 + 0] := r;
    dataBuffer[dataIndex * 3 + 1] := g;
    dataBuffer[dataIndex * 3 + 2] := b;
  }

  method RenderAndSample(handle: GifHandle, br: Level, gamma: GammaTable) returns (dataBuffer: array<uint8>)
    requires handle.Valid() && 0 < handle.cursor
    ensures fresh(dataBuffer) && dataBuffer.Length == FrameBytes
    ensures dataBuffer[..] == SampledFrame(handle.width as int, handle.height as int,
                                           handle.frames[handle.cursor - 1].rgb, SplitCorrection, br, gamma)
  {
    var width, height := handle.width as int, handle.height as int;
    var frameBuffer := new uint8[width * height * 3];
    dataBuffer := new uint8[FrameBytes];
    handle.Render(frameBuffer);
    FillLeds(width, height, frameBuffer, dataBuffer, SplitCorrection, br, gamma);
  }

  /** Whether extract_gif_frames returns a non-zero frame count. */
  ghost predicate ExtractionSucceeds(handle: GifHandle?, tablesAllocOk: bool, bufferAllocOk: nat -> bool)
  {
    && handle != null
    && SquareEnough(handle.width as int, handle.height as int)
    && |handle.frames| > 0
    && tablesAllocOk
    && forall i :: 0 <= i < |handle.frames| ==> bufferAllocOk(i)
  }

  /** extract_gif_frames. A NULL handle is a failed gd_open_gif. tablesAllocOk says
      whether the frame and delay arrays are allocated, bufferAllocOk(i) whether both
      buffers of frame i are. The count is the number of frames the counting pass
      saw, or 0 on any failure. */
  method ExtractGifFrames(handle: GifHandle?, br: Level, gamma: GammaTable,
                          tablesAllocOk: bool, bufferAllocOk: nat -> bool)
    returns (count: nat, frames: array?<array?<uint8>>, delays: array?<int>)
    requires handle != null ==> handle.Valid() && handle.cursor == 0
    modifies handle
    ensures handle != null ==> handle.Valid()
    ensures handle == null || !SquareEnough(handle.width as int, handle.height as int) ==>
      count == 0 && frames == null && delays == null
    ensures count > 0 <==> ExtractionSucceeds(handle, tablesAllocOk, bufferAllocOk)
    ensures count > 0 ==>
      && count == |handle.frames|
      && frames != null && delays != null
      && frames.Length == count && delays.Length == count
      && delays[..] == ResolvedDelays(handle.frames)
      && forall i :: 0 <= i < count ==>
           && frames[i] != null && frames[i].Length == FrameBytes
           && frames[i][..] == SampledFrame(handle.width as int, handle.height as int,
                                            handle.frames[i].rgb, SplitCorrection, br, gamma)
  {
    if handle == null {
      return 0, null, null;
    }
    var width, height := handle.width as int, handle.height as int;
    if !SquareEnough(width, height) {
      return 0, null, null;
    }

    var frameCount := CountFrames(handle);

    if !tablesAllocOk {
      return 0, null, null;
    }
    var frameTable := new array?<uint8>[frameCount];
    var delayTable := new int[frameCount];
    var ok := ReadFrames(handle, frameTable, delayTable, br, gamma, bufferAllocOk);
    if !ok || frameCount == 0 {
      return 0, null, null;
    }
    return frameCount, frameTable, delayTable;
  }

  /** The second pass of extraction: for every frame, its delay, the two buffers, the
      render and the sampling loops. False as soon as a buffer cannot be allocated. */
  method ReadFrames(handle: GifHandle, frameTable: array<array?<uint8>>, delayTable: array<int>,
                    br: Level, gamma: GammaTable, bufferAllocOk: nat -> bool)
    returns (ok: bool)
    requires handle.Valid() && handle.cursor == 0
    requires frameTable.Length == delayTable.Length == |handle.frames|
    modifies handle, frameTable, delayTable
    ensures handle.Valid()
    ensures ok <==> forall i :: 0 <= i < |handle.frames| ==> bufferAllocOk(i)
    ensures ok ==> delayTable[..] == ResolvedDelays(handle.frames)
    ensures ok ==> forall i :: 0 <= i < frameTable.Length ==>
      && frameTable[i] != null && frameTable[i].Length == FrameBytes
      && frameTable[i][..] == SampledFrame(handle.width as int, handle.height as int,
                                           handle.frames[i].rgb, SplitCorrection, br, gamma)
  {
    var current := 0;
    var got := handle.GetFrame();
    while got
      invariant handle.Valid()
      invariant got ==> handle.cursor == current + 1
      invariant !got ==> handle.cursor == current == |handle.frames|
      invariant current <= frameTable.Length
      invariant forall i :: 0 <= i < current ==> bufferAllocOk(i)
      invariant forall i :: 0 <= i < current ==> delayTable[i] == ResolveDelay(handle.frames[i].delayCs)
      invariant forall i :: 0 <= i < current ==>
        && frameTable[i] != null && frameTable[i].Length == FrameBytes
        && frameTable[i][..] == SampledFrame(handle.width as int, handle.height as int,
                                             handle.frames[i].rgb, SplitCorrection, br, gamma)
      decreases |handle.frames| - current
    {
      var delayInMs := handle.CurrentDelay() as int * 10;
      if !bufferAllocOk(current) {
        return false;
      }
      var dataBuffer := RenderAndSample(handle, br, gamma);
      frameTable[current] := dataBuffer;
      delayTable[current] := if delayInMs <= 0 then MinDelayMs else delayInMs;
      current := current + 1;
      got := handle.GetFrame();
    }
    assert delayTable[..] == ResolvedDelays(handle.frames);
    return true;
  }
}
