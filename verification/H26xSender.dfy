// The H.264 and H.265 packetisers: a NAL unit that fits is sent alone or
// queued for an aggregation packet; a larger one is cut into fragments.
module H26xSender {
  import opened Common
  import opened FrameQueue
  import opened H26xReceiver

  // ----- fragmentation -----

  // data cut into pieces of the given size; only the last may be shorter.
  function Pieces(data: seq<u8>, size: nat): (ps: seq<seq<u8>>)
    requires size > 0
    ensures |ps| >= 1
    decreases |data|
  {
    if |data| <= size then [data] else [data[..size]] + Pieces(data[size..], size)
  }

  lemma {:induction false} PiecesConcat(data: seq<u8>, size: nat)
    requires size > 0
    ensures Concat(Pieces(data, size)) == data
    decreases |data|
  {
    if |data| <= size {
      assert Concat([data]) == data + Concat([]);
    } else {
      PiecesConcat(data[size..], size);
    }
  }

  // The number of pieces that len bytes are cut into.
  function PieceCount(len: nat, size: nat): (n: nat)
    requires size > 0
    ensures n >= 1
    decreases len
  {
    if len <= size then 1 else 1 + PieceCount(len - size, size)
  }

  lemma {:induction false} PiecesCounted(data: seq<u8>, size: nat)
    requires size > 0
    ensures |Pieces(data, size)| == PieceCount(|data|, size)
    decreases |data|
  {
    if |data| > size {
      PiecesCounted(data[size..], size);
    }
  }

  lemma {:induction false} UniformPieces(data: seq<u8>, size: nat, v: u8)
    requires size > 0 && data != [] && forall i :: 0 <= i < |data| ==> data[i] == v
    ensures forall i :: 0 <= i < |Pieces(data, size)| ==> Pieces(data, size)[i] != [] && Pieces(data, size)[i][0] == v
    decreases |data|
  {
    if |data| > size {
      UniformPieces(data[size..], size, v);
    }
  }

  // Data of the same length whose pieces are the same but for the l-th.
  lemma {:induction false} PieceChanged(data: seq<u8>, size: nat, l: nat) returns (other: seq<u8>)
    requires size > 0 && data != [] && l < |Pieces(data, size)|
    ensures |other| == |data| && other != data && |Pieces(other, size)| == |Pieces(data, size)|
    ensures forall i :: 0 <= i < |Pieces(data, size)| && i != l ==> Pieces(other, size)[i] == Pieces(data, size)[i]
    decreases |data|
  {
    var changed: u8 := if data[0] == 0 then 1 else 0;
    if l == 0 {
      other := data[0 := changed];
      if |data| > size {
        assert other[size..] == data[size..];
      }
    } else {
      var rest := PieceChanged(data[size..], size, l - 1);
      other := data[..size] + rest;
      assert other[size..] == rest && other[..size] == data[..size];
    }
  }

  function UnitType(c: Codec, first: u8): (t: u8)
    ensures t < 64
  {
    if c.H264? then first % 32 else first / 2 % 64
  }

  // H.265 writes 1 as the second NAL header byte whatever the unit says.
  function FuIndicator(c: Codec, first: u8): seq<u8> {
    if c.H264? then [first / 32 * 32 + 28] else [98, 1]
  }

  function FuHeader(unitType: u8, i: nat, n: nat): u8
    requires unitType < 64
  {
    if i + 1 == n then 64 + unitType else if i == 0 then 128 + unitType else unitType
  }

  // The payloads of fragments of this body under headers made from this first
  // byte.
  function FuPayloadsOf(c: Codec, first: u8, body: seq<u8>, size: nat): (r: seq<seq<u8>>)
    requires size > 0
    ensures |r| == |Pieces(body, size)|
  {
    var ps := Pieces(body, size);
    seq(|ps|, i requires 0 <= i < |ps| => FuIndicator(c, first) + [FuHeader(UnitType(c, first), i, |ps|)] + ps[i])
  }

  // The payloads of the fragments of a NAL unit.
  function FuPayloads(c: Codec, data: seq<u8>, size: nat): seq<seq<u8>>
    requires |data| > 3 && size > 0
  {
    FuPayloadsOf(c, data[0], data[NalSize(c)..], size)
  }

  // The bytes of a fragment, after RFC 6184 section 5.8 and RFC 7798 section
  // 4.4.3: the fragment type, 28 or 49, under the unit's own upper bits (H.264)
  // or a constant (H.265); a start bit in the first, an end bit in the last,
  // and the unit's type; then its piece.
  lemma FragmentLayout(c: Codec, data: seq<u8>, size: nat, i: nat)
    requires size > 0 && |data| > size + 3 && i < |Pieces(data[NalSize(c)..], size)|
    ensures |FuPayloads(c, data, size)| == |Pieces(data[NalSize(c)..], size)| >= 2
    ensures var p, n := FuPayloads(c, data, size)[i], |Pieces(data[NalSize(c)..], size)|;
            var fu := if c.H264? then 1 else 2;
            && |p| > fu && p[fu + 1..] == Pieces(data[NalSize(c)..], size)[i]
            && (p[fu] >= 128 <==> i == 0) && (p[fu] / 64 % 2 == 1 <==> i == n - 1)
            && (c.H264? ==> p[0] % 32 == 28 && p[0] / 32 == data[0] / 32 && p[1] / 32 % 2 == 0 && p[1] % 32 == data[0] % 32)
            && (c.H265? ==> p[0] == 49 * 2 && p[1] == 1 && p[2] % 64 == data[0] / 2 % 64)
  {
    hide Pieces;
    TwoPieces(data[NalSize(c)..], size);
    var ps := Pieces(data[NalSize(c)..], size);
    var head := FuIndicator(c, data[0]) + [FuHeader(UnitType(c, data[0]), i, |ps|)];
    assert FuPayloads(c, data, size)[i] == head + ps[i];
  }

  lemma TwoPieces(body: seq<u8>, size: nat)
    requires 0 < size < |body|
    ensures |Pieces(body, size)| >= 2
  {
  }

  // The record a large unit leaves in the transaction: headers for a start, a
  // middle and an end fragment.
  function FuHeaders(c: Codec, first: u8): MediaHeaders {
    var t := UnitType(c, first);
    MediaHeaders(FuIndicator(c, first), [128 + t, t, 64 + t])
  }

  function FuIndex(i: nat, n: nat): nat {
    if i + 1 == n then 2 else if i == 0 then 0 else 1
  }

  // The buffers of the fragments: two pointers into the record, and a piece.
  function FuBuffers(body: seq<u8>, size: nat): (r: seq<seq<Buffer>>)
    requires size > 0
    ensures |r| == |Pieces(body, size)|
  {
    var ps := Pieces(body, size);
    seq(|ps|, i requires 0 <= i < |ps| => [Indicator, FuHeaderAt(FuIndex(i, |ps|)), Bytes(ps[i])])
  }

  // Read with the headers of a unit, they are fragments under these headers.
  lemma FuBuffersRead(c: Codec, first: u8, body: seq<u8>, size: nat, i: nat)
    requires size > 0 && i < |Pieces(body, size)|
    ensures Joined(FuHeaders(c, first), FuBuffers(body, size)[i]) == FuPayloadsOf(c, first, body, size)[i]
  {
    hide Pieces, FuIndicator, UnitType;
    var h, list := FuHeaders(c, first), FuBuffers(body, size)[i];
    JoinedAppend(h, [list[0]] + [list[1]], [list[2]]);
    JoinedAppend(h, [list[0]], [list[1]]);
    JoinedOne(h, list[0]);
    JoinedOne(h, list[1]);
    JoinedOne(h, list[2]);
    assert list == [list[0]] + [list[1]] + [list[2]];
  }

  // ----- aggregation -----

  function MaxNri(nalus: seq<seq<u8>>): (m: u8)
    requires forall i :: 0 <= i < |nalus| ==> |nalus[i]| > 3
    ensures m < 4
  {
    if nalus == [] then 0
    else
      var rest, nri := MaxNri(nalus[..|nalus| - 1]), nalus[|nalus| - 1][0] / 32 % 4;
      if nri > rest then nri else rest
  }

  function ApHeader(c: Codec, nalus: seq<seq<u8>>): seq<u8>
    requires forall i :: 0 <= i < |nalus| ==> |nalus[i]| > 3
  {
    if c.H264? then [MaxNri(nalus) * 32 + 24] else [96, 1]
  }

  // Each unit preceded by its 16-bit length.
  function ApBuffers(nalus: seq<seq<u8>>): seq<seq<u8>>
    requires forall i :: 0 <= i < |nalus| ==> |nalus[i]| < 0x1_0000
  {
    if nalus == [] then []
    else ApBuffers(nalus[..|nalus| - 1]) + [Be16(|nalus[|nalus| - 1]|), nalus[|nalus| - 1]]
  }

  ghost predicate Aggregatable(nalus: seq<seq<u8>>) {
    forall i :: 0 <= i < |nalus| ==> 3 < |nalus[i]| < 0x1_0000
  }

  function AsBuffers(parts: seq<seq<u8>>): (bs: seq<Buffer>)
    ensures |bs| == |parts|
  {
    seq(|parts|, i requires 0 <= i < |parts| => Bytes(parts[i]))
  }

  // Bytes of the caller read the same under any headers.
  lemma {:induction false} AsBuffersRead(h: MediaHeaders, parts: seq<seq<u8>>)
    ensures Joined(h, AsBuffers(parts)) == Concat(parts)
  {
    if parts != [] {
      assert AsBuffers(parts)[1..] == AsBuffers(parts[1..]);
      AsBuffersRead(h, parts[1..]);
    }
  }

  // The packet made of several queued units.
  function Aggregated(c: Codec, nalus: seq<seq<u8>>): (lists: seq<seq<Buffer>>)
    requires forall i :: 0 <= i < |nalus| ==> 3 < |nalus[i]| < 0x1_0000
    ensures |lists| == if nalus == [] then 0 else 1
  {
    if nalus == [] then [] else [AsBuffers([ApHeader(c, nalus)] + ApBuffers(nalus))]
  }

  method HighestNri(nalus: seq<seq<u8>>) returns (nri: u8)
    requires Aggregatable(nalus)
    ensures nri == MaxNri(nalus)
  {
    nri := 0;
    for i := 0 to |nalus|
      invariant nri == MaxNri(nalus[..i])
    {
      assert nalus[..i + 1][..i] == nalus[..i];
      if nalus[i][0] / 32 % 4 > nri {
        nri := nalus[i][0] / 32 % 4;
      }
    }
    assert nalus[..|nalus|] == nalus;
  }

  method ApPacket(c: Codec, nalus: seq<seq<u8>>) returns (packet: seq<seq<u8>>)
    requires Aggregatable(nalus)
    ensures packet == [ApHeader(c, nalus)] + ApBuffers(nalus)
  {
    var nri := HighestNri(nalus);
    var header: seq<u8> := if c.H264? then [nri * 32 + 24] else [96, 1];
    packet := [header];
    for i := 0 to |nalus|
      invariant packet == [header] + ApBuffers(nalus[..i])
    {
      assert nalus[..i + 1][..i] == nalus[..i];
      packet := packet + [Be16(|nalus[i]|), nalus[i]];
    }
    assert nalus[..|nalus|] == nalus;
  }

  // One packet of the given buffers.
  lemma Single(copies: bool, h: MediaHeaders, common: Header, s: u16, buffers: seq<Buffer>)
    ensures Stored(copies, h, common, s, [buffers]) == [Packet(common.(seqNo := s, marker := false), Kept(copies, h, buffers))]
  {
    hide Kept;
  }

  // Buffers that do not point into the record are kept alike under any.
  lemma KeptAlike(copies: bool, h: MediaHeaders, now: MediaHeaders, parts: seq<seq<u8>>)
    ensures Kept(copies, h, AsBuffers(parts)) == Kept(copies, now, AsBuffers(parts))
  {
    AsBuffersRead(h, parts);
    AsBuffersRead(now, parts);
  }

  lemma AggregatedAlike(copies: bool, c: Codec, nalus: seq<seq<u8>>, h: MediaHeaders, now: MediaHeaders, common: Header, s: u16)
    requires Aggregatable(nalus)
    ensures Stored(copies, h, common, s, Aggregated(c, nalus)) == Stored(copies, now, common, s, Aggregated(c, nalus))
  {
    hide Kept, ApHeader, ApBuffers, AsBuffers;
    if nalus != [] {
      KeptAlike(copies, h, now, [ApHeader(c, nalus)] + ApBuffers(nalus));
    }
  }

  lemma Appended(packets: seq<Packet>, copies: bool, h: MediaHeaders, common: Header, s: u16,
                 x: seq<seq<Buffer>>, y: seq<seq<Buffer>>)
    requires |x| <= 1
    ensures packets + Stored(copies, h, common, s, x + y)
         == packets + Stored(copies, h, common, s, x) + Stored(copies, h, common, if x == [] then s else Number(s, 1), y)
  {
    hide Kept;
  }

  class Packetiser {
    const codec: Codec
    const queue: Queue
    const payloadSize: nat
    var nalus: seq<seq<u8>>  // small units waiting for an aggregation packet
    var aggregated: bool     // the list was made into a packet: its lengths are byte-swapped now

    constructor (c: Codec, q: Queue, size: nat)
      requires size > 0
      ensures codec == c && queue == q && payloadSize == size && nalus == [] && !aggregated
    {
      codec, queue, payloadSize, nalus, aggregated := c, q, size, [], false;
    }

    // What the packets will be once these buffers are queued under headers h.
    ghost function Queued(h: MediaHeaders, lists: seq<seq<Buffer>>): seq<Packet>
      reads this, queue
    {
      queue.packets + Stored(queue.copies, h, queue.common, queue.seqNo, lists)
    }

    // One packet holding every queued unit; a single unit is sent as it is,
    // which also closes the transaction.
    method MakeAggregationPkt(accepted: bool) returns (code: Code)
      requires queue.Valid() && queue.active && |queue.packets| < MAX_MSG_COUNT && Aggregatable(nalus) && !aggregated
      modifies this`aggregated, queue
      ensures queue.Valid() && aggregated == (|nalus| > 1) && queue.media == old(queue.media)
      ensures nalus == [] ==> code == InvalidValue && queue.packets == old(queue.packets) && queue.active
                              && queue.wire == old(queue.wire) && queue.seqNo == old(queue.seqNo)
                              && queue.common == old(queue.common)
      ensures |nalus| == 1 ==>
                && code == (if accepted then Ok else SendError) && !queue.active && queue.packets == []
                && queue.wire == old(queue.wire) + MarkLast(Frames(queue.media, old(Queued(queue.media, [AsBuffers(nalus)]))))
      ensures |nalus| > 1 ==>
                && code == Ok && queue.active && queue.wire == old(queue.wire)
                && queue.common == old(queue.common) && queue.seqNo == Number(old(queue.seqNo), 1)
                && queue.packets == old(Queued(queue.media, Aggregated(codec, nalus)))
    {
      hide Follow, Stored, Kept, Frames, ApHeader, ApBuffers, AsBuffers, MarkLast;
      if nalus == [] {
        return InvalidValue;
      }
      if |nalus| == 1 {
        Single(queue.copies, queue.media, queue.common, queue.seqNo, AsBuffers(nalus));
        NoneEmpty(nalus);
        code := queue.EnqueueMessage(AsBuffers(nalus), false);
        code := queue.Flush(accepted);
        return;
      }
      var packet := ApPacket(codec, nalus);
      NoneEmpty(packet);
      Single(queue.copies, queue.media, queue.common, queue.seqNo, AsBuffers(packet));
      aggregated := true;
      code := queue.EnqueueMessage(AsBuffers(packet), false);
    }

    // One NAL unit of the access unit; more: another one follows. A unit that
    // is fragmented leaves its headers in the transaction's record, and what is
    // on the wire in the end is read with the record of the flush.
    method PushNalUnit(data: seq<u8>, more: bool, accepted: bool) returns (code: Code)
      requires queue.Valid() && queue.active && payloadSize > 0 && Aggregatable(nalus) && |queue.packets| < MAX_MSG_COUNT
      requires (3 < |data| <= payloadSize + 3 && !more) || |data| > payloadSize + 3 ==> |nalus| != 1 && !aggregated
      requires |data| > payloadSize + 3 ==>
                 |queue.packets| + |Aggregated(codec, nalus)| + |FuBuffers(data[NalSize(codec)..], payloadSize)| <= MAX_MSG_COUNT
      modifies this, queue
      ensures queue.Valid()
      ensures |data| <= 3 ==>
                && code == InvalidValue && nalus == old(nalus) && aggregated == old(aggregated)
                && queue.packets == old(queue.packets) && queue.media == old(queue.media)
      ensures 3 < |data| <= payloadSize + 3 && more ==>
                && code == NotReady && nalus == old(nalus) + [data] && aggregated == old(aggregated)
                && queue.packets == old(queue.packets) && queue.media == old(queue.media)
      ensures 3 < |data| <= payloadSize + 3 && !more ==>
                && code == (if accepted then Ok else SendError) && nalus == [] && !aggregated
                && var lists := if old(nalus) == [] then [[Bytes(data)]] else Aggregated(codec, old(nalus));
                   queue.wire == old(queue.wire) + MarkLast(Frames(old(queue.media), old(Queued(queue.media, lists))))
      ensures |data| > payloadSize + 3 ==>
                var h := FuHeaders(codec, data[0]);
                var lists := Aggregated(codec, old(nalus)) + FuBuffers(data[NalSize(codec)..], payloadSize);
                && nalus == (if more || codec.H264? then old(nalus) else []) && aggregated == (nalus != []) && queue.media == h
                && if more
                   then && code == NotReady && queue.packets == old(Queued(h, lists)) && queue.wire == old(queue.wire)
                        && queue.active && queue.common == old(queue.common)
                        && queue.seqNo == Number(old(queue.seqNo), |lists|)
                   else && code == (if accepted then Ok else SendError)
                        && queue.wire == old(queue.wire) + MarkLast(Frames(h, old(Queued(h, lists))))
    {
      hide Follow, Stored, Kept, Frames, FuBuffers, FuHeaders, ApHeader, ApBuffers, MarkLast, Marked, Joined;
      if |data| <= 3 {
        return InvalidValue;
      }
      if |data| - 3 <= payloadSize {
        if more {
          nalus := nalus + [data];
          return NotReady;
        }
        if nalus == [] {
          Single(queue.copies, queue.media, queue.common, queue.seqNo, [Bytes(data)]);
          code := queue.EnqueueMessage([Bytes(data)], false);
          code := queue.Flush(accepted);
          return;
        }
        code := MakeAggregationPkt(accepted);
        code := queue.Flush(accepted);
        nalus, aggregated := [], false;
        return;
      }
      code := PushLarge(data, more, accepted);
    }

    // A unit to be fragmented; smaller ones queued before it go first.
    method PushLarge(data: seq<u8>, more: bool, accepted: bool) returns (code: Code)
      requires queue.Valid() && queue.active && payloadSize > 0 && Aggregatable(nalus) && |nalus| != 1 && !aggregated
      requires |data| > payloadSize + 3 && |queue.packets| < MAX_MSG_COUNT
      requires |queue.packets| + |Aggregated(codec, nalus)| + |FuBuffers(data[NalSize(codec)..], payloadSize)| <= MAX_MSG_COUNT
      modifies this, queue
      ensures queue.Valid() && queue.media == FuHeaders(codec, data[0])
      ensures nalus == (if more || codec.H264? then old(nalus) else []) && aggregated == (nalus != [])
      ensures var h := FuHeaders(codec, data[0]);
              var lists := Aggregated(codec, old(nalus)) + FuBuffers(data[NalSize(codec)..], payloadSize);
              if more
              then && code == NotReady && queue.packets == old(Queued(h, lists)) && queue.wire == old(queue.wire)
                   && queue.active && queue.common == old(queue.common) && queue.seqNo == Number(old(queue.seqNo), |lists|)
              else && code == (if accepted then Ok else SendError)
                   && queue.wire == old(queue.wire) + MarkLast(Frames(h, old(Queued(h, lists))))
    {
      hide Follow, Stored, Kept, Frames, FuBuffers, FuHeaders, ApHeader, ApBuffers, AsBuffers, MarkLast, Joined, Number;
      NumberSum(queue.seqNo, 1, |FuBuffers(data[NalSize(codec)..], payloadSize)|);
      ghost var h, body := FuHeaders(codec, data[0]), data[NalSize(codec)..];
      ghost var lists := Aggregated(codec, nalus) + FuBuffers(body, payloadSize);
      AggregatedAlike(queue.copies, codec, nalus, h, queue.media, queue.common, queue.seqNo);
      Appended(queue.packets, queue.copies, h, queue.common, queue.seqNo, Aggregated(codec, nalus), FuBuffers(body, payloadSize));
      SizesOf(queue.copies, queue.media, queue.common, queue.seqNo, Aggregated(codec, nalus));
      code := MakeAggregationPkt(accepted);
      code := EnqueueFragments(data);
      assert queue.packets == old(Queued(h, lists));
      if more {
        return NotReady;
      }
      if codec.H265? {
        nalus, aggregated := [], false;
      }
      code := queue.Flush(accepted);
    }

    // Cuts a NAL unit into fragments and enqueues them.
    method EnqueueFragments(data: seq<u8>) returns (code: Code)
      requires queue.Valid() && queue.active && payloadSize > 0 && |data| > payloadSize + 3
      requires |queue.packets| + |FuBuffers(data[NalSize(codec)..], payloadSize)| <= MAX_MSG_COUNT
      modifies queue
      ensures queue.Valid() && code == Ok && queue.active && queue.packets != []
      ensures queue.wire == old(queue.wire) && queue.common == old(queue.common) && queue.media == FuHeaders(codec, data[0])
      ensures queue.packets == old(Queued(FuHeaders(codec, data[0]), FuBuffers(data[NalSize(codec)..], payloadSize)))
      ensures queue.seqNo == Number(old(queue.seqNo), |FuBuffers(data[NalSize(codec)..], payloadSize)|)
    {
      hide Follow, Stored, Kept, UnitType, FuIndicator, FuBuffers, Pieces, Number;
      var pos := NalSize(codec);
      var left := |data| - pos;
      ghost var h, lists := FuHeaders(codec, data[0]), FuBuffers(data[pos..], payloadSize);
      ghost var ps := Pieces(data[pos..], payloadSize);
      ghost var done: nat := 0;
      FragmentsCounted(data[pos..], payloadSize, queue.copies, h, queue.common, queue.seqNo);
      var unitType := UnitType(codec, data[0]);
      queue.SetMediaHeaders(MediaHeaders(FuIndicator(codec, data[0]), [128 + unitType, unitType, 64 + unitType]));
      var fuHeader := 0;
      assert ps[0..] == ps && lists[..0] == [];
      while left > payloadSize
        invariant 0 <= pos <= |data| && left == |data| - pos && done <= |ps|
        invariant left <= payloadSize ==> done > 0
        invariant ps[done..] == Pieces(data[pos..], payloadSize)
        invariant fuHeader == (if done == 0 then 0 else 1)
        invariant queue.Valid() && queue.active && queue.wire == old(queue.wire) && queue.common == old(queue.common)
        invariant queue.seqNo == Number(old(queue.seqNo), done) && |queue.packets| == |old(queue.packets)| + done
        invariant queue.media == h && queue.packets == old(Queued(h, lists[..done]))
        decreases left
      {
        NextPiece(data, pos, payloadSize, ps, done);
        FragmentBuffers(data[NalSize(codec)..], payloadSize, done);
        StoredNext(queue.copies, h, queue.common, old(queue.seqNo), lists, done);
        code := queue.EnqueueMessage([Indicator, FuHeaderAt(fuHeader), Bytes(data[pos..pos + payloadSize])], false);
        pos, left := pos + payloadSize, left - payloadSize;
        fuHeader := 1;
        done := done + 1;
      }
      LastPiece(data, pos, payloadSize, ps, done);
      FragmentBuffers(data[NalSize(codec)..], payloadSize, done);
      StoredNext(queue.copies, h, queue.common, old(queue.seqNo), lists, done);
      code := queue.EnqueueMessage([Indicator, FuHeaderAt(2), Bytes(data[pos..])], false);
      assert lists[..done + 1] == lists;
    }
  }

  lemma NumberSum(s: u16, a: nat, b: nat)
    ensures Number(Number(s, a), b) == Number(s, a + b)
  {
  }

  lemma NoneEmpty(parts: seq<seq<u8>>)
    ensures |AsBuffers(parts)| == |parts|
  {
  }

  lemma SizesOf(copies: bool, h: MediaHeaders, common: Header, s: u16, lists: seq<seq<Buffer>>)
    ensures |Stored(copies, h, common, s, lists)| == |lists|
  {
  }

  lemma FragmentsCounted(body: seq<u8>, size: nat, copies: bool, h: MediaHeaders, common: Header, s: u16)
    requires size > 0
    ensures |FuBuffers(body, size)| == |Pieces(body, size)|
    ensures Stored(copies, h, common, s, []) == [] && s == Number(s, 0)
  {
  }

  lemma FragmentBuffers(body: seq<u8>, size: nat, i: nat)
    requires size > 0 && i < |Pieces(body, size)|
    ensures |FuBuffers(body, size)| == |Pieces(body, size)|
    ensures FuBuffers(body, size)[i] == [Indicator, FuHeaderAt(FuIndex(i, |Pieces(body, size)|)), Bytes(Pieces(body, size)[i])]
  {
  }

  lemma NextPiece(data: seq<u8>, pos: nat, size: nat, ps: seq<seq<u8>>, done: nat)
    requires 0 < size < |data| - pos && done <= |ps| && ps[done..] == Pieces(data[pos..], size)
    ensures done + 1 < |ps| && ps[done] == data[pos..pos + size] && ps[done + 1..] == Pieces(data[pos + size..], size)
  {
    assert data[pos..][..size] == data[pos..pos + size] && data[pos..][size..] == data[pos + size..];
    assert ps[done] == ps[done..][0] && ps[done + 1..] == ps[done..][1..];
  }

  lemma LastPiece(data: seq<u8>, pos: nat, size: nat, ps: seq<seq<u8>>, done: nat)
    requires size > 0 && pos <= |data| <= pos + size && done <= |ps| && ps[done..] == Pieces(data[pos..], size)
    ensures done + 1 == |ps| && ps[done] == data[pos..]
  {
    assert ps[done] == ps[done..][0];
  }
}
