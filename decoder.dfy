/** The GIF decoder as the extraction code sees it: an open handle with a width, a
    height and a cursor over the frames of the file. Each frame is what rendering it
    yields (width x height RGB triples, row-major) together with the delay of its
    graphic control extension in hundredths of a second. How the decoder gets there
    (LZW, palettes, disposal) is not part of this model. */
module Decoder {
  import opened Bytes

  datatype RawFrame = RawFrame(rgb: seq<uint8>, delayCs: uint16)

  class GifHandle {
    const width: uint16
    const height: uint16
    const frames: seq<RawFrame>
    /** Number of frames consumed since opening or since the last rewind. */
    var cursor: nat

    ghost predicate Valid()
      reads this
    {
      && width >= 1 && height >= 1
      && cursor <= |frames|
      && forall i :: 0 <= i < |frames| ==> |frames[i].rgb| == width as int * height as int * 3
    }

    /** A successful gd_open_gif. */
    constructor Open(width: uint16, height: uint16, frames: seq<RawFrame>)
      requires width >= 1 && height >= 1
      requires forall i :: 0 <= i < |frames| ==> |frames[i].rgb| == width as int * height as int * 3
      ensures Valid() && cursor == 0
      ensures this.width == width && this.height == height && this.frames == frames
    {
      this.width := width;
      this.height := height;
      this.frames := frames;
      cursor := 0;
    }

    /** gd_get_frame: advances to the next frame; false once the frames are exhausted. */
    method GetFrame() returns (got: bool)
      requires Valid()
      modifies this
      ensures Valid()
      ensures got == (old(cursor) < |frames|)
      ensures cursor == if got then old(cursor) + 1 else old(cursor)
    {
      got := cursor < |frames|;
      if got {
        cursor := cursor + 1;
      }
    }

    /** gd_rewind. */
    method Rewind()
      requires Valid()
      modifies this
      ensures Valid() && cursor == 0
    {
      cursor := 0;
    }

    /** gce.delay of the current frame. */
    function CurrentDelay(): uint16
      reads this
      requires Valid() && 0 < cursor
    {
      frames[cursor - 1].delayCs
    }

    /** gd_render_frame: fills a width x height x 3 buffer with the current frame. */
    method Render(buf: array<uint8>)
      requires Valid() && 0 < cursor
      requires buf.Length == width as int * height as int * 3
      modifies buf
      ensures buf[..] == frames[cursor - 1].rgb
    {
      var rgb := frames[cursor - 1].rgb;
      forall i | 0 <= i < buf.Length {
        buf[i] := rgb[i];
      }
    }
  }
}
