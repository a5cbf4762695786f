/** The DDP packet encoder: a 10-byte header (flags, two reserved bytes, data type,
    big-endian 32-bit offset, big-endian 16-bit payload length) followed by the raw
    payload. The split build (src/ddp.c) and the single-file build (ddp.h) carry the
    same code, so one model serves both. */
module Protocol {
  import opened Bytes

  const HeaderSize: nat := 10

  /** struct ddp_header. In DDP proper, res1 is the sequence number and res2 the
      destination id; this program always leaves them zero. */
  datatype Header = Header(
    flags: uint8, res1: uint8, dataType: uint8, res2: uint8,
    offset: uint32, length: uint16)

  datatype Option<T> = None | Some(value: T)

  /** The ten bytes that ddp_header_serialize leaves in its buffer. */
  function HeaderBytes(h: Header): (b: seq<uint8>)
    ensures |b| == HeaderSize
  {
    [h.flags, h.res1, h.dataType, h.res2] + Be32(h.offset) + Be16(h.length)
  }

  /** Reads a header from the front of a byte string: the receiver's view. */
  function ParseHeader(b: seq<uint8>): Option<Header>
  {
    if |b| < HeaderSize then None
    else Some(Header(b[0], b[1], b[2], b[3], FromBe32(b[4..8]), FromBe16(b[8..10])))
  }

  /** The bytes DDP_serialize returns: the header followed by the first
      header.length bytes of the data buffer. */
  function PacketBytes(h: Header, data: seq<uint8>): (p: seq<uint8>)
    requires h.length <= |data|
    ensures |p| == HeaderSize + h.length as int
  {
    HeaderBytes(h) + data[..h.length]
  }

  /** Splits a packet into its header and the payload the header announces. */
  function ParsePacket(p: seq<uint8>): Option<(Header, seq<uint8>)>
  {
    match ParseHeader(p)
    case None => None
    case Some(h) =>
      if |p| < HeaderSize + h.length then None
      else Some((h, p[HeaderSize..HeaderSize + h.length]))
  }

  /** Byte positions of every header field, with the offset and the length most
      significant byte first. */
  lemma HeaderLayout(h: Header)
    ensures |HeaderBytes(h)| == HeaderSize
    ensures HeaderBytes(h)[0] == h.flags && HeaderBytes(h)[1] == h.res1
    ensures HeaderBytes(h)[2] == h.dataType && HeaderBytes(h)[3] == h.res2
    ensures HeaderBytes(h)[4..8] == Be32(h.offset)
    ensures HeaderBytes(h)[8..10] == Be16(h.length)
    ensures FromBe32(HeaderBytes(h)[4..8]) == h.offset
    ensures FromBe16(HeaderBytes(h)[8..10]) == h.length
  {
    var b := HeaderBytes(h);
    assert b[4..8] == Be32(h.offset);
    assert b[8..10] == Be16(h.length);
    Be32Inverse(h.offset);
    Be16Inverse(h.length);
  }

  /** A receiver recovers every header field from the serialised bytes. */
  lemma HeaderRoundTrip(h: Header)
    ensures ParseHeader(HeaderBytes(h)) == Some(h)
  {
    HeaderLayout(h);
  }

  /** Every ten-byte string is the serialisation of exactly the header read from it. */
  lemma ParseThenSerialize(b: seq<uint8>)
    requires |b| == HeaderSize
    ensures ParseHeader(b).Some? && HeaderBytes(ParseHeader(b).value) == b
  {
    var h := ParseHeader(b).value;
    FromBe32Inverse(b[4..8]);
    FromBe16Inverse(b[8..10]);
    assert b == b[..4] + b[4..8] + b[8..10];
  }

  /** The packet is 10 + length bytes: the serialised header, then the payload unmodified. */
  lemma PacketLayout(h: Header, data: seq<uint8>)
    requires h.length <= |data|
    ensures |PacketBytes(h, data)| == HeaderSize + h.length
    ensures PacketBytes(h, data)[..HeaderSize] == HeaderBytes(h)
    ensures PacketBytes(h, data)[HeaderSize..] == data[..h.length]
  {
    HeaderLayout(h);
  }

  /** A receiver splits a packet back into the header and the payload that were sent. */
  lemma PacketRoundTrip(h: Header, data: seq<uint8>)
    requires h.length <= |data|
    ensures ParsePacket(PacketBytes(h, data)) == Some((h, data[..h.length]))
  {
    var p := PacketBytes(h, data);
    PacketLayout(h, data);
    HeaderRoundTrip(h);
    assert p[..HeaderSize] == HeaderBytes(h);
    assert ParseHeader(p) == ParseHeader(HeaderBytes(h)) by {
      assert p[4..8] == HeaderBytes(h)[4..8];
      assert p[8..10] == HeaderBytes(h)[8..10];
    }
    assert p[HeaderSize..HeaderSize + h.length] == data[..h.length];
  }

  /** struct DDP: a header and a pointer to the payload buffer. */
  class Ddp {
    var header: Header
    var data: array<uint8>

    constructor (header: Header, data: array<uint8>)
      ensures this.header == header && this.data == data
    {
      this.header := header;
      this.data := data;
    }
  }

  /** A size_t variable whose address is handed to DDP_serialize. */
  class SizeCell {
    var value: int

    constructor (value: int)
      ensures this.value == value
    {
      this.value := value;
    }
  }

  /** memcpy(dst + at, src, |src|). */
  method MemCpy(dst: array<uint8>, at: nat, src: seq<uint8>)
    requires at + |src| <= dst.Length
    modifies dst
    ensures dst[..at] == old(dst[..at])
    ensures dst[at..at + |src|] == src
    ensures dst[at + |src|..] == old(dst[at + |src|..])
  {
    for i := 0 to |src|
      invariant forall k :: 0 <= k < dst.Length ==>
        dst[k] == if at <= k < at + i then src[k - at] else old(dst[k])
    {
      dst[at + i] := src[i];
    }
  }

  /** ddp_header_serialize: fills a fresh ten-byte buffer, or yields NULL when the
      allocation fails. */
  method SerializeHeader(h: Header, allocOk: bool) returns (buf: array?<uint8>)
    ensures buf == null <==> !allocOk
    ensures buf != null ==> fresh(buf) && buf[..] == HeaderBytes(h)
  {
    if !allocOk {
      return null;
    }
    var b := new uint8[HeaderSize];
    b[0] := h.flags;
    b[1] := h.res1;
    b[2] := h.dataType;
    b[3] := h.res2;
    var off := Be32(h.offset);
    var len := Be16(h.length);
    MemCpy(b, 4, off);
    MemCpy(b, 8, len);
    assert b[..] == b[..4] + b[4..8] + b[8..];
    buf := b;
  }

  /** DDP_serialize. A NULL ddp or packet_size yields NULL; otherwise *packet_size
      becomes 10 + header.length before either allocation is tried, and it keeps
      that value when the packet allocation fails (the C code then clears its local
      copy of the pointer, not the size). */
  method Serialize(ddp: Ddp?, packetSize: SizeCell?, packetAllocOk: bool, headerAllocOk: bool)
    returns (packet: array?<uint8>)
    requires ddp != null ==> ddp.header.length <= ddp.data.Length
    modifies packetSize
    ensures ddp == null || packetSize == null ==> packet == null
    ensures packetSize != null && ddp == null ==> packetSize.value == old(packetSize.value)
    ensures packetSize != null && ddp != null ==> packetSize.value == HeaderSize + ddp.header.length
    ensures packet != null <==> ddp != null && packetSize != null && packetAllocOk && headerAllocOk
    ensures packet != null ==> fresh(packet) && packet[..] == PacketBytes(ddp.header, ddp.data[..])
  {
    if ddp == null || packetSize == null {
      return null;
    }
    packetSize.value := HeaderSize + ddp.header.length;
    if !packetAllocOk {
      return null;
    }
    var buf := new uint8[packetSize.value];
    var serializedHeader := SerializeHeader(ddp.header, headerAllocOk);
    if serializedHeader == null {
      return null;
    }
    MemCpy(buf, 0, serializedHeader[..]);
    MemCpy(buf, HeaderSize, ddp.data[..ddp.header.length]);
    assert buf[..] == buf[..HeaderSize] + buf[HeaderSize..];
    packet := buf;
  }
}
