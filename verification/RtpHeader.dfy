// RTP packets as bytes (section 5.1 of RFC 3550): the header the sender fills
// in and what the receiver takes from a datagram.
module RtpHeader {
  import opened Common

  const HEADER_SIZE: nat := 12

  // fill_header, update_sequence and the marker bit set on queueing.
  function HeaderBytes(h: Header): (b: seq<u8>)
    ensures |b| == HEADER_SIZE
  {
    [128, h.payloadType % 128 + if h.marker then 128 else 0] + Be16(h.seqNo) + Be32(h.timestamp) + Be32(h.ssrc)
  }

  function WireBytes(f: Frame): seq<u8> {
    HeaderBytes(f.header) + f.payload
  }

  // The contributing sources are kept as they lie in the packet, not converted
  // from network order.
  function HostWord(b: seq<u8>): u32
    requires |b| == 4
  {
    var b0: int, b1: int, b2: int, b3: int := b[0], b[1], b[2], b[3];
    b0 + b1 * 0x100 + b2 * 0x1_0000 + b3 * 0x100_0000
  }

  datatype Parsed = NotHandled | Malformed | Packet(header: Header, csrc: seq<u32>, payload: seq<u8>)

  function CsrcCount(m: seq<u8>): nat
    requires |m| >= 1
  {
    m[0] % 16
  }

  // Padding and extension bits are clear.
  predicate Unadorned(m: seq<u8>)
    requires |m| >= 1
  {
    m[0] / 16 % 4 == 0
  }

  function HeaderOf(m: seq<u8>): Header
    requires |m| >= HEADER_SIZE
  {
    Header(m[1] >= 128, m[1] % 128, Word16(m[2..4]), Word32(m[4..8]), Word32(m[8..12]))
  }

  // rtp::packet_handler
  function Parse(m: seq<u8>): Parsed
    requires |m| >= HEADER_SIZE && m[0] / 64 == 2 ==> Unadorned(m)
  {
    if |m| < HEADER_SIZE || m[0] / 64 != 2 then NotHandled
    else
      var cc := CsrcCount(m);
      if |m| - HEADER_SIZE - 4 * cc < 0 then Malformed
      else
        Packet(HeaderOf(m),
               seq(cc, i requires 0 <= i < cc => HostWord(m[HEADER_SIZE + 4 * i..HEADER_SIZE + 4 * i + 4])),
               m[HEADER_SIZE + 4 * cc..])
  }

  function ByteAt(m: seq<u8>, i: nat): int
    requires i < |m|
  {
    m[i]
  }

  function Bytes16(m: seq<u8>, i: nat): int
    requires i + 2 <= |m|
  {
    ByteAt(m, i) * 0x100 + ByteAt(m, i + 1)
  }

  // The layout of section 5.1 of RFC 3550, byte by byte: two bits of version,
  // four bits of source count; marker and payload type; number, timestamp and
  // SSRC with the high byte first; then the contributing sources, which keep
  // the low byte first, and the payload.
  lemma ParsedLayout(m: seq<u8>)
    requires |m| >= HEADER_SIZE && m[0] / 64 == 2 ==> Unadorned(m)
    ensures Parse(m).NotHandled? <==> |m| < 12 || m[0] < 128 || m[0] >= 192
    ensures Parse(m).Malformed? <==> |m| >= 12 && 128 <= m[0] < 192 && |m| < 12 + 4 * (m[0] % 16)
    ensures Parse(m).Packet? ==>
              var Packet(h, csrc, payload), from := Parse(m), 12 + 4 * (m[0] % 16);
              && (h.marker <==> m[1] >= 128) && h.payloadType == m[1] % 128 && h.seqNo == Bytes16(m, 2)
              && h.timestamp == Bytes16(m, 4) * 0x1_0000 + Bytes16(m, 6) && h.ssrc == Bytes16(m, 8) * 0x1_0000 + Bytes16(m, 10)
              && from <= |m| && payload == m[from..] && |csrc| == m[0] % 16
              && forall i :: 0 <= i < |csrc| ==>
                   var at := 12 + 4 * i;
                   csrc[i] == ByteAt(m, at) + ByteAt(m, at + 1) * 0x100 + ByteAt(m, at + 2) * 0x1_0000 + ByteAt(m, at + 3) * 0x100_0000
  {
  }

  // What is sent is read back, the payload type cut to seven bits.
  lemma WireReadsBack(f: Frame)
    ensures var m := WireBytes(f);
            && |m| >= HEADER_SIZE && Unadorned(m)
            && Parse(m) == Packet(f.header.(payloadType := f.header.payloadType % 128), [], f.payload)
  {
    hide Be16, Be32, Word16, Word32;
    var m, h := WireBytes(f), f.header;
    var first := [128, h.payloadType % 128 + if h.marker then 128 else 0];
    Widths(h.seqNo, h.timestamp, h.ssrc);
    assert m == first + Be16(h.seqNo) + Be32(h.timestamp) + Be32(h.ssrc) + f.payload;
    assert m[2..4] == Be16(h.seqNo);
    assert m[4..8] == Be32(h.timestamp);
    assert m[8..12] == Be32(h.ssrc);
    Word16RoundTrip(h.seqNo);
    Word32RoundTrip(h.timestamp);
    Word32RoundTrip(h.ssrc);
  }

  lemma Widths(a: u16, b: u32, c: u32)
    ensures |Be16(a)| == 2 && |Be32(b)| == 4 && |Be32(c)| == 4
  {
  }

  // A packet comes back as it was exactly if its payload type has seven bits.
  lemma WireExactly(f: Frame)
    ensures var m := WireBytes(f);
            && |m| >= HEADER_SIZE && Unadorned(m)
            && (Parse(m) == Packet(f.header, [], f.payload) <==> f.header.payloadType < 128)
  {
    hide Parse;
    WireReadsBack(f);
  }

  method ParsePacket(m: seq<u8>) returns (code: Code, out: Option<Frame>, csrc: seq<u32>)
    requires |m| >= HEADER_SIZE && m[0] / 64 == 2 ==> Unadorned(m)
    ensures match Parse(m)
            case NotHandled => code == PktNotHandled && out == None
            case Malformed => code == GenericError && out == None
            case Packet(header, sources, payload) => code == PktModified && out == Some(Frame(header, payload)) && csrc == sources
  {
    hide HostWord, HeaderOf;
    csrc := [];
    if |m| < HEADER_SIZE || m[0] / 64 != 2 {
      return PktNotHandled, None, csrc;
    }
    var cc := CsrcCount(m);
    var left := |m| - HEADER_SIZE;
    var ptr := HEADER_SIZE;
    if cc > 0 {
      if left - 4 * cc < 0 {
        return GenericError, None, csrc;
      }
      left := left - 4 * cc;
      for i := 0 to cc
        invariant ptr == HEADER_SIZE + 4 * i
        invariant csrc == Parse(m).csrc[..i]
      {
        csrc := csrc + [HostWord(m[ptr..ptr + 4])];
        ptr := ptr + 4;
      }
    }
    assert csrc == Parse(m).csrc;
    assert m[ptr..ptr + left] == m[ptr..];
    return PktModified, Some(Frame(HeaderOf(m), m[ptr..ptr + left])), csrc;
  }
}
