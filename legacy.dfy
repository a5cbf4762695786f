/** The single-file build (main.c): the same decoder, encoder and playback loop, but
    extraction accepts only sources of exactly the matrix size and corrects the
    rendered frame in place, byte for byte, with its own correction coefficients. */
module Legacy {
  import opened Bytes
  import opened Config
  import opened Color
  import opened Decoder
  import opened Gif
  import opened Playback

  /** The gate of this build: exactly MATRIX_WIDTH x MATRIX_HEIGHT. */
  predicate MatrixSized(width: int, height: int)
  {
    width == MatrixWidth && height == MatrixHeight
  }

  /** A rendered 16x16 frame after the per-LED pass: byte k is channel k mod 3 of
      LED k / 3, sent through the colour pipeline. */
  function CorrectedFrame(rgb: seq<uint8>, corr: Correction, br: Level, gamma: GammaTable): (f: seq<uint8>)
    requires |rgb| == FrameBytes
    ensures |f| == FrameBytes
  {
    seq(FrameBytes, k requires 0 <= k < FrameBytes =>
      ProcessChannel(rgb[k], Coef(corr, k % 3), br, LutOf(gamma, k % 3)))
  }

  /** All rendered frames of a source, corrected. */
  function CorrectedFrames(raws: seq<RawFrame>, corr: Correction, br: Level, gamma: GammaTable): seq<seq<uint8>>
    requires forall i :: 0 <= i < |raws| ==> |raws[i].rgb| == FrameBytes
  {
    seq(|raws|, i requires 0 <= i < |raws| => CorrectedFrame(raws[i].rgb, corr, br, gamma))
  }

  lemma CorrectedFrameSet(raws: seq<RawFrame>, corr: Correction, br: Level, gamma: GammaTable)
    requires |raws| > 0
    requires forall i :: 0 <= i < |raws| ==> |raws[i].rgb| == FrameBytes
    ensures FrameSet(CorrectedFrames(raws, corr, br, gamma), ResolvedDelays(raws))
  {
  }

  /** Byte 3 * i + c of a corrected frame is channel c of LED i through the pipeline. */
  lemma CorrectedFrameAt(rgb: seq<uint8>, corr: Correction, br: Level, gamma: GammaTable, i: nat, c: nat)
    requires |rgb| == FrameBytes && i < NumLeds && c < 3
    ensures 3 * i + c < FrameBytes
    ensures CorrectedFrame(rgb, corr, br, gamma)[3 * i + c]
         == ProcessChannel(rgb[3 * i + c], Coef(corr, c), br, LutOf(gamma, c))
  {
    assert (3 * i + c) % 3 == c;
  }

  /** The per-LED loop: each of the 256 RGB triples of the buffer is replaced by its
      corrected, dimmed and gamma-mapped value. */
  method CorrectInPlace(frameBuffer: array<uint8>, corr: Correction, br: Level, gamma: GammaTable)
    requires frameBuffer.Length == FrameBytes
    modifies frameBuffer
    ensures frameBuffer[..] == CorrectedFrame(old(frameBuffer[..]), corr, br, gamma)
  {
    ghost var src := frameBuffer[..];
    ghost var want := CorrectedFrame(src, corr, br, gamma);
    for i := 0 to NumLeds
      invariant forall k :: 0 <= k < 3 * i ==> frameBuffer[k] == want[k]
      invariant forall k :: 3 * i <= k < FrameBytes ==> frameBuffer[k] == src[k]
    {
      CorrectLed(frameBuffer, i, src, corr, br, gamma);
    }
  }

  /** The body of the per-LED loop for LED i, whose three bytes still hold the source
      values; no other byte changes. */
  method CorrectLed(frameBuffer: array<uint8>, i: nat, ghost src: seq<uint8>,
                    corr: Correction, br: Level, gamma: GammaTable)
    requires frameBuffer.Length == FrameBytes && |src| == FrameBytes && i < NumLeds
    requires frameBuffer[3 * i] == src[3 * i] && frameBuffer[3 * i + 1] == src[3 * i + 1]
    requires frameBuffer[3 * i + 2] == src[3 * i + 2]
    modifies frameBuffer
    ensures frameBuffer[3 * i] == CorrectedFrame(src, corr, br, gamma)[3 * i]
    ensures frameBuffer[3 * i + 1] == CorrectedFrame(src, corr, br, gamma)[3 * i + 1]
    ensures frameBuffer[3 * i + 2] == CorrectedFrame(src, corr, br, gamma)[3 * i + 2]
    ensures forall k :: 0 <= k < FrameBytes && (k < 3 * i || 3 * i + 3 <= k) ==>
      frameBuffer[k] == old(frameBuffer[k])
  {
    CorrectedFrameAt(src, corr, br, gamma, i, 0);
    CorrectedFrameAt(src, corr, br, gamma, i, 1);
    CorrectedFrameAt(src, corr, br, gamma, i, 2);
    var r, g, b := ProcessPixel(frameBuffer[i * 3 + 0], frameBuffer[i * 3 + 1], frameBuffer[i * 3 + 2],
                                corr, br, gamma);
    frameBuffer[i * 3 + 0] := r;
    frameBuffer[i * 3 + 1] := g;
    frameBuffer[i * 3 + 2] := b;
  }

  /** Renders the current frame into a fresh matrix-sized buffer and corrects it there. */
  method RenderAndCorrect(handle: GifHandle, br: Level, gamma: GammaTable) returns (frameBuffer: array<uint8>)
    requires handle.Valid() && 0 < handle.cursor
    requires MatrixSized(handle.width as int, handle.height as int)
    ensures fresh(frameBuffer) && frameBuffer.Length == FrameBytes
    ensures frameBuffer[..] == CorrectedFrame(handle.frames[handle.cursor - 1].rgb, LegacyCorrection, br, gamma)
  {
    frameBuffer := new uint8[FrameBytes];
    handle.Render(frameBuffer);
    CorrectInPlace(frameBuffer, LegacyCorrection, br, gamma);
  }

  /** Whether this build's extraction yields frames. */
  ghost predicate StrictExtractionSucceeds(handle: GifHandle?, tablesAllocOk: bool, bufferAllocOk: nat -> bool)
  {
    && handle != null
    && MatrixSized(handle.width as int, handle.height as int)
    && |handle.frames| > 0
    && tablesAllocOk
    && forall i :: 0 <= i < |handle.frames| ==> bufferAllocOk(i)
  }

  /** extract_gif_frames of the single-file build. The oracles are read as in the
      split build; bufferAllocOk(i) is the one frame buffer of frame i. */
  method ExtractGifFramesStrict(handle: GifHandle?, br: Level, gamma: GammaTable,
                                tablesAllocOk: bool, bufferAllocOk: nat -> bool)
    returns (count: nat, frames: array?<array?<uint8>>, delays: array?<int>)
    requires handle != null ==> handle.Valid() && handle.cursor == 0
    modifies handle
    ensures handle != null ==> handle.Valid()
    ensures handle == null || !MatrixSized(handle.width as int, handle.height as int) ==>
      count == 0 && frames == null && delays == null
    ensures count > 0 <==> StrictExtractionSucceeds(handle, tablesAllocOk, bufferAllocOk)
    ensures count > 0 ==>
      && count == |handle.frames|
      && frames != null && delays != null
      && frames.Length == count && delays.Length == count
      && delays[..] == ResolvedDelays(handle.frames)
      && forall i :: 0 <= i < count ==>
           && frames[i] != null && frames[i].Length == FrameBytes
           && frames[i][..] == CorrectedFrame(handle.frames[i].rgb, LegacyCorrection, br, gamma)
  {
    if handle == null {
      return 0, null, null;
    }
    if !MatrixSized(handle.width as int, handle.height as int) {
      return 0, null, null;
    }

    var frameCount := CountFrames(handle);

    if !tablesAllocOk {
      return 0, null, null;
    }
    var frameTable := new array?<uint8>[frameCount];
    var delayTable := new int[frameCount];
    var ok := ReadFramesStrict(handle, frameTable, delayTable, br, gamma, bufferAllocOk);
    if !ok || frameCount == 0 {
      return 0, null, null;
    }
    return frameCount, frameTable, delayTable;
  }

  /** The second pass of extraction: for every frame, its delay, a fresh buffer, the
      render and the per-LED loop. False as soon as a buffer cannot be allocated. */
  method ReadFramesStrict(handle: GifHandle, frameTable: array<array?<uint8>>, delayTable: array<int>,
                          br: Level, gamma: GammaTable, bufferAllocOk: nat -> bool)
    returns (ok: bool)
    requires handle.Valid() && handle.cursor == 0
    requires MatrixSized(handle.width as int, handle.height as int)
    requires frameTable.Length == delayTable.Length == |handle.frames|
    modifies handle, frameTable, delayTable
    ensures handle.Valid()
    ensures ok <==> forall i :: 0 <= i < |handle.frames| ==> bufferAllocOk(i)
    ensures ok ==> delayTable[..] == ResolvedDelays(handle.frames)
    ensures ok ==> forall i :: 0 <= i < frameTable.Length ==>
      && frameTable[i] != null && frameTable[i].Length == FrameBytes
      && frameTable[i][..] == CorrectedFrame(handle.frames[i].rgb, LegacyCorrection, br, gamma)
  {
    var current := 0;
    var got := handle.GetFrame();
    while got
      invariant handle.Valid()
      invariant got ==> handle.cursor == current + 1
      invariant !got ==> handle.cursor == current == |handle.frames|
      invariant current <= frameTable.Length
      invariant forall i :: 0 <= i < current ==> bufferAllocOk(i)
      invariant forall i :: 0 <= i < current ==> delayTable[i] == ResolveDelay(handle.frames[i].delayCs)
      invariant forall i :: 0 <= i < current ==>
        && frameTable[i] != null && frameTable[i].Length == FrameBytes
        && frameTable[i][..] == CorrectedFrame(handle.frames[i].rgb, LegacyCorrection, br, gamma)
      decreases |handle.frames| - current
    {
      var delayInMs := handle.CurrentDelay() as int * 10;
      if !bufferAllocOk(current) {
        return false;
      }
      var frameBuffer := RenderAndCorrect(handle, br, gamma);
      frameTable[current] := frameBuffer;
      delayTable[current] := if delayInMs <= 0 then MinDelayMs else delayInMs;
      current := current + 1;
      got := handle.GetFrame();
    }
    assert delayTable[..] == ResolvedDelays(handle.frames);
    return true;
  }

  /** main of the single-file build after option parsing. */
  method RunLegacy(handle: GifHandle?, br: Level, gamma: GammaTable, tablesAllocOk: bool,
                   bufferAllocOk: nat -> bool, loopCount: int, window: nat,
                   packetAllocOk: nat -> bool, headerAllocOk: nat -> bool)
    returns (exit: Termination, trace: seq<Event>)
    requires handle != null ==> handle.Valid() && handle.cursor == 0
    modifies handle
    ensures !StrictExtractionSucceeds(handle, tablesAllocOk, bufferAllocOk) ==> exit == Exited(1) && trace == []
    ensures StrictExtractionSucceeds(handle, tablesAllocOk, bufferAllocOk) ==>
      var frames := CorrectedFrames(handle.frames, LegacyCorrection, br, gamma);
      var delays := ResolvedDelays(handle.frames);
      var planned := Planned(loopCount, |handle.frames|, window);
      && FrameSet(frames, delays)
      && trace == Schedule(frames, delays, |trace| / 2)
      && |trace| / 2 <= planned
      && (exit == Exited(1) <==> |trace| / 2 < planned)
      && (exit == Exited(0) <==> |trace| / 2 == planned && loopCount >= 0 && planned == loopCount * |handle.frames|)
      && (exit.Exited? ==> exit.code == 0 || exit.code == 1)
      && (forall j :: 0 <= j < |trace| / 2 ==> packetAllocOk(j) && headerAllocOk(j))
      && (exit == Exited(1) ==> !(packetAllocOk(|trace| / 2) && headerAllocOk(|trace| / 2)))
      && (loopCount >= 0 && loopCount * |handle.frames| <= window
          && (forall j :: 0 <= j < loopCount * |handle.frames| ==> packetAllocOk(j) && headerAllocOk(j))
          ==> exit == Exited(0) && |trace| / 2 == loopCount * |handle.frames|)
  {
    var count, frames, delays := ExtractGifFramesStrict(handle, br, gamma, tablesAllocOk, bufferAllocOk);
    if count == 0 || frames == null || delays == null {
      return Exited(1), [];
    }
    ghost var contents := CorrectedFrames(handle.frames, LegacyCorrection, br, gamma);
    CorrectedFrameSet(handle.frames, LegacyCorrection, br, gamma);
    assert forall i :: 0 <= i < frames.Length ==> frames[i] != null && frames[i][..] == contents[i];
    var outcome, packets;
    outcome, packets, trace := Play(frames, delays, contents, loopCount, window, packetAllocOk, headerAllocOk);
    assert |trace| / 2 == packets;
    exit := match outcome
      case Aborted => Exited(1)
      case Completed => Exited(0)
      case Interrupted => Killed;
  }

  /** On a source of exactly the matrix size the split build's centre sampling picks
      every pixel once, in order, so both builds compute the same frame from the same
      corrections. */
  lemma BuildsAgreeOnMatrixSizedSource(rgb: seq<uint8>, corr: Correction, br: Level, gamma: GammaTable)
    requires |rgb| == FrameBytes
    ensures SampledFrame(MatrixWidth, MatrixHeight, rgb, corr, br, gamma) == CorrectedFrame(rgb, corr, br, gamma)
  {
    forall k | 0 <= k < FrameBytes
      ensures SampledFrame(MatrixWidth, MatrixHeight, rgb, corr, br, gamma)[k] == CorrectedFrame(rgb, corr, br, gamma)[k]
    {
      var led := k / 3;
      var x, y := led % MatrixWidth, led / MatrixWidth;
      assert SampleIndex(MatrixWidth, MatrixHeight, x, y) == led;
    }
  }

  /** With the identity gamma table, this build's coefficients (all at most 1) never
      make a byte brighter than the source pixel. */
  lemma LegacyNeverBrightens(rgb: seq<uint8>, br: Level)
    requires |rgb| == FrameBytes
    ensures forall k :: 0 <= k < FrameBytes ==>
      CorrectedFrame(rgb, LegacyCorrection, br, GammaTable(IdentityLut, IdentityLut, IdentityLut))[k] <= rgb[k]
  {
    var gamma := GammaTable(IdentityLut, IdentityLut, IdentityLut);
    forall k | 0 <= k < FrameBytes
      ensures CorrectedFrame(rgb, LegacyCorrection, br, gamma)[k] <= rgb[k]
    {
      var c := k % 3;
      CorrectDarkens(rgb[k], Coef(LegacyCorrection, c));
    }
  }
}
