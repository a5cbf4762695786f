/** The playback driver of main: the fixed DDP header, the emit/sleep/advance loop
    over the extracted frames with its loop-count target, and the exit code. Writes
    to standard output and sleeps are events of an output trace. */
module Playback {
  import opened Bytes
  import opened Config
  import opened Protocol
  import opened Color
  import opened Decoder
  import opened Gif

  /** The header main fills in once: DDP version 1 with PUSH, RGB data, offset 0,
      one full frame of payload. */
  const FixedHeader: Header := Header(0x41, 0x00, 0x03, 0x00, 0, FrameBytes)

  /** What the sink and the clock observe: fwrite+fflush of one packet, or a
      usleep of the given number of microseconds. */
  datatype Event = Write(packet: seq<uint8>) | Sleep(micros: int)

  /** How the loop ended: its guard became false, a packet could not be
      serialised, or the process was stopped from outside after a number of ticks. */
  datatype Outcome = Completed | Aborted | Interrupted

  /** How the process ends: main returns an exit code, or the process is stopped
      from outside while still playing. */
  datatype Termination = Exited(code: int) | Killed

  /** A non-empty frame set with one delay per frame and full-size payloads. */
  predicate FrameSet(frames: seq<seq<uint8>>, delays: seq<int>)
  {
    && |frames| == |delays| > 0
    && forall i :: 0 <= i < |frames| ==> |frames[i]| == FrameBytes
  }

  /** One tick for frame i: its packet is written, then the driver sleeps for its delay. */
  function Tick(frames: seq<seq<uint8>>, delays: seq<int>, i: nat): (t: seq<Event>)
    requires FrameSet(frames, delays) && i < |frames|
    ensures |t| == 2 && t[0].Write? && t[1].Sleep?
    ensures |t[0].packet| == HeaderSize + FrameBytes
  {
    [Write(PacketBytes(FixedHeader, frames[i])), Sleep(delays[i] * 1000)]
  }

  /** The trace of the first m ticks: frame indices 0 .. N-1, then again from 0. */
  function Schedule(frames: seq<seq<uint8>>, delays: seq<int>, m: nat): (t: seq<Event>)
    requires FrameSet(frames, delays)
    ensures |t| == 2 * m
  {
    if m == 0 then [] else Schedule(frames, delays, m - 1) + Tick(frames, delays, (m - 1) % |frames|)
  }

  /** Tick j writes the packet of frame j mod N and then sleeps for that same
      frame's delay. */
  lemma {:induction false} ScheduleAt(frames: seq<seq<uint8>>, delays: seq<int>, m: nat, j: nat)
    requires FrameSet(frames, delays) && j < m
    ensures Schedule(frames, delays, m)[2 * j] == Write(PacketBytes(FixedHeader, frames[j % |frames|]))
    ensures Schedule(frames, delays, m)[2 * j + 1] == Sleep(delays[j % |frames|] * 1000)
  {
    if j < m - 1 {
      ScheduleAt(frames, delays, m - 1, j);
    }
  }

  /** Playback only ever appends: the first m ticks are a prefix of any longer run. */
  lemma {:induction false} SchedulePrefix(frames: seq<seq<uint8>>, delays: seq<int>, m: nat, m': nat)
    requires FrameSet(frames, delays) && m <= m'
    ensures Schedule(frames, delays, m) == Schedule(frames, delays, m')[..2 * m]
    decreases m' - m
  {
    if m < m' {
      SchedulePrefix(frames, delays, m, m' - 1);
      var s := Schedule(frames, delays, m' - 1);
      assert Schedule(frames, delays, m') == s + Tick(frames, delays, (m' - 1) % |frames|);
      assert s[..2 * m] == (s + Tick(frames, delays, (m' - 1) % |frames|))[..2 * m];
    }
  }

  /** The fixed header on the wire: 41 00 03 00 00 00 00 00 03 00. */
  lemma FixedHeaderWire()
    ensures HeaderBytes(FixedHeader) == [0x41, 0x00, 0x03, 0x00, 0x00, 0x00, 0x00, 0x00, 0x03, 0x00]
  {
    HeaderLayout(FixedHeader);
  }

  /** Every packet the driver writes is 778 bytes: the fixed header then the frame unchanged. */
  lemma ScheduledPacket(frames: seq<seq<uint8>>, delays: seq<int>, m: nat, j: nat)
    requires FrameSet(frames, delays) && j < m
    ensures Schedule(frames, delays, m)[2 * j].Write?
    ensures |Schedule(frames, delays, m)[2 * j].packet| == 778
    ensures Schedule(frames, delays, m)[2 * j].packet[..10] == [0x41, 0x00, 0x03, 0x00, 0x00, 0x00, 0x00, 0x00, 0x03, 0x00]
    ensures Schedule(frames, delays, m)[2 * j].packet[10..] == frames[j % |frames|]
  {
    ScheduleAt(frames, delays, m, j);
    PacketLayout(FixedHeader, frames[j % |frames|]);
    FixedHeaderWire();
  }

  /** The number of ticks the loop attempts when no serialisation fails: loopCount
      passes over the N frames, cut short by a stop from outside after window ticks. */
  function Planned(loopCount: int, n: nat, window: nat): nat
  {
    if loopCount >= 0 && loopCount * n <= window then loopCount * n else window
  }

  lemma {:induction false} MulMono(a: nat, b: nat, n: nat)
    requires a < b
    ensures a * n + n <= b * n
    decreases b - a
  {
    assert (a + 1) * n == a * n + n;
    if a + 1 < b {
      MulMono(a + 1, b, n);
    }
  }

  lemma DivModUnique(a: nat, n: nat, q: nat, r: nat)
    requires n > 0 && a == q * n + r && r < n
    ensures a / n == q && a % n == r
  {
    var q', r' := a / n, a % n;
    assert a == q' * n + r';
    if q' < q {
      MulMono(q', q, n);
    } else if q' > q {
      MulMono(q, q', n);
    }
  }

  /** Advancing by one packet moves the frame index to the next frame, wrapping to
      0 and counting one more loop exactly when it reaches N. */
  lemma NextTick(m: nat, n: nat)
    requires n > 0
    ensures m % n + 1 < n ==> (m + 1) % n == m % n + 1 && (m + 1) / n == m / n
    ensures m % n + 1 == n ==> (m + 1) % n == 0 && (m + 1) / n == m / n + 1
  {
    if m % n + 1 < n {
      DivModUnique(m + 1, n, m / n, m % n + 1);
    } else {
      assert m + 1 == (m / n + 1) * n + 0;
      DivModUnique(m + 1, n, m / n + 1, 0);
    }
  }

  /** Fewer than k loops are done after m packets exactly when m < k * N. */
  lemma LoopsBelowTarget(m: nat, n: nat, k: nat)
    requires n > 0
    ensures m / n < k <==> m < k * n
  {
    var q, r := m / n, m % n;
    assert m == q * n + r;
    if q < k {
      MulMono(q, k, n);
    } else if k < q {
      MulMono(k, q, n);
    }
  }

  /** The while loop of main. cur_frame_index and loops_done are locals; tick j's
      serialisation gets packetAllocOk(j) and headerAllocOk(j) as the outcomes of its
      two allocations; window is the tick at which the process is stopped from outside. */
  method Play(frames: array<array?<uint8>>, delays: array<int>, ghost contents: seq<seq<uint8>>,
              loopCount: int, window: nat, packetAllocOk: nat -> bool, headerAllocOk: nat -> bool)
    returns (outcome: Outcome, packets: nat, trace: seq<Event>)
    requires frames.Length == delays.Length == |contents|
    requires FrameSet(contents, delays[..])
    requires forall i :: 0 <= i < frames.Length ==> frames[i] != null && frames[i][..] == contents[i]
    ensures trace == Schedule(contents, delays[..], packets)
    ensures packets <= Planned(loopCount, frames.Length, window)
    ensures outcome == Aborted <==> packets < Planned(loopCount, frames.Length, window)
    ensures outcome == Aborted ==> !(packetAllocOk(packets) && headerAllocOk(packets))
    ensures forall j :: 0 <= j < packets ==> packetAllocOk(j) && headerAllocOk(j)
    ensures outcome == Completed <==> outcome != Aborted && loopCount >= 0 && packets == loopCount * frames.Length
    ensures loopCount >= 0 && loopCount * frames.Length <= window
            && (forall j :: 0 <= j < loopCount * frames.Length ==> packetAllocOk(j) && headerAllocOk(j))
            ==> outcome == Completed && packets == loopCount * frames.Length
    ensures loopCount < 0 ==> outcome != Completed
  {
    var n := frames.Length;
    var ddp := new Ddp(FixedHeader, frames[0]);
    var curFrameIndex := 0;
    var loopsDone := 0;
    packets := 0;
    trace := [];
    while (loopCount < 0 || loopsDone < loopCount) && packets < window
      invariant 0 <= curFrameIndex < n
      invariant curFrameIndex == packets % n && loopsDone == packets / n
      invariant loopCount >= 0 ==> packets <= loopCount * n
      invariant packets <= window
      invariant trace == Schedule(contents, delays[..], packets)
      invariant forall j :: 0 <= j < packets ==> packetAllocOk(j) && headerAllocOk(j)
      invariant ddp.header == FixedHeader
      decreases window - packets
    {
      LoopsBelowTarget(packets, n, if loopCount < 0 then 0 else loopCount);
      ddp.data := frames[curFrameIndex];
      var packetSize := new SizeCell(0);
      var packet := Serialize(ddp, packetSize, packetAllocOk(packets), headerAllocOk(packets));
      if packet == null || packetSize.value == 0 {
        return Aborted, packets, trace;
      }
      trace := trace + [Write(packet[..]), Sleep(delays[curFrameIndex] * 1000)];
      NextTick(packets, n);
      curFrameIndex := curFrameIndex + 1;
      if curFrameIndex == n {
        curFrameIndex := 0;
        loopsDone := loopsDone + 1;
      }
      packets := packets + 1;
    }
    LoopsBelowTarget(packets, n, if loopCount < 0 then 0 else loopCount);
    if loopCount < 0 || loopsDone < loopCount {
      outcome := Interrupted;
    } else {
      outcome := Completed;
    }
  }

  lemma SampledFrameSet(width: int, height: int, raws: seq<RawFrame>, br: Level, gamma: GammaTable)
    requires width >= 1 && height >= 1 && |raws| > 0
    requires forall i :: 0 <= i < |raws| ==> |raws[i].rgb| == width * height * 3
    ensures FrameSet(SampledFrames(width, height, raws, SplitCorrection, br, gamma), ResolvedDelays(raws))
  {
  }

  /** main of the split build after option parsing: builds the header, extracts the
      frames, gives up with exit code 1 when there are none, and plays them. */
  method Run(handle: GifHandle?, br: Level, gamma: GammaTable, tablesAllocOk: bool,
             bufferAllocOk: nat -> bool, loopCount: int, window: nat,
             packetAllocOk: nat -> bool, headerAllocOk: nat -> bool)
    returns (exit: Termination, trace: seq<Event>)
    requires handle != null ==> handle.Valid() && handle.cursor == 0
    modifies handle
    ensures !ExtractionSucceeds(handle, tablesAllocOk, bufferAllocOk) ==> exit == Exited(1) && trace == []
    ensures ExtractionSucceeds(handle, tablesAllocOk, bufferAllocOk) ==>
      var frames := SampledFrames(handle.width as int, handle.height as int, handle.frames,
                                  SplitCorrection, br, gamma);
      var delays := ResolvedDelays(handle.frames);
      var planned := Planned(loopCount, |handle.frames|, window);
      && FrameSet(frames, delays)
      && trace == Schedule(frames, delays, |trace| / 2)
      && |trace| / 2 <= planned
      && (exit == Exited(1) <==> |trace| / 2 < planned)
      && (exit == Exited(0) <==> |trace| / 2 == planned && loopCount >= 0 && planned == loopCount * |handle.frames|)
      && (exit.Exited? ==> exit.code == 0 || exit.code == 1)
      && (forall j :: 0 <= j < |trace| / 2 ==> packetAllocOk(j) && headerAllocOk(j))
      && (exit == Exited(1) ==> !(packetAllocOk(|trace| / 2) && headerAllocOk(|trace| / 2)))
      && (loopCount >= 0 && loopCount * |handle.frames| <= window
          && (forall j :: 0 <= j < loopCount * |handle.frames| ==> packetAllocOk(j) && headerAllocOk(j))
          ==> exit == Exited(0) && |trace| / 2 == loopCount * |handle.frames|)
  {
    var count, frames, delays := ExtractGifFrames(handle, br, gamma, tablesAllocOk, bufferAllocOk);
    if count == 0 || frames == null || delays == null {
      return Exited(1), [];
    }
    ghost var contents := SampledFrames(handle.width as int, handle.height as int, handle.frames,
                                        SplitCorrection, br, gamma);
    SampledFrameSet(handle.width as int, handle.height as int, handle.frames, br, gamma);
    assert forall i :: 0 <= i < frames.Length ==> frames[i] != null && frames[i][..] == contents[i];
    var outcome, packets;
    outcome, packets, trace := Play(frames, delays, contents, loopCount, window, packetAllocOk, headerAllocOk);
    assert |trace| / 2 == packets;
    exit := match outcome
      case Aborted => Exited(1)
      case Completed => Exited(0)
      case Interrupted => Killed;
  }
}
