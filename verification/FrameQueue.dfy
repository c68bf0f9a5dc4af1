// The sender's frame queue: every enqueued packet gets the transaction's common
// header with the next sequence number; a flush hands all packets to the
// socket in order. Until then a packet is a list of pointers, unless it is
// copied to be encrypted.
module FrameQueue {
  import opened Common

  // Room for RTP headers in one transaction.
  const MAX_MSG_COUNT: nat := 5000

  function Number(s: u16, i: nat): u16 {
    (s + i) % 0x1_0000
  }

  // The packets of the given payloads, numbered consecutively from s.
  function Packetize(common: Header, s: u16, payloads: seq<seq<u8>>): seq<Frame> {
    seq(|payloads|, i requires 0 <= i < |payloads| =>
      Frame(common.(seqNo := Number(s, i), marker := false), payloads[i]))
  }

  function Marked(f: Frame): Frame {
    f.(header := f.header.(marker := true))
  }

  // The last of several packets carries the marker bit.
  function MarkLast(fs: seq<Frame>): seq<Frame> {
    if |fs| > 1 then fs[|fs| - 1 := Marked(fs[|fs| - 1])] else fs
  }

  // Packets of one source numbered consecutively from s.
  predicate Numbered(s: u16, ssrc: u32, fs: seq<Frame>) {
    forall i :: 0 <= i < |fs| ==> fs[i].header.seqNo == Number(s, i) && fs[i].header.ssrc == ssrc
  }

  // ----- packets that are not on the wire yet -----

  // The fragment headers of a transaction: one record, which the fragments of
  // all its units point at.
  datatype MediaHeaders = MediaHeaders(indicator: seq<u8>, fu: seq<u8>)

  // One buffer of a packet: bytes of the caller, or a pointer into the record.
  datatype Buffer = Bytes(bytes: seq<u8>) | Indicator | FuHeaderAt(k: nat)

  datatype Packet = Packet(header: Header, buffers: seq<Buffer>)

  function Deref(h: MediaHeaders, b: Buffer): seq<u8> {
    match b
    case Bytes(bytes) => bytes
    case Indicator => h.indicator
    case FuHeaderAt(k) => if k < |h.fu| then [h.fu[k]] else []
  }

  // The bytes of a packet, with the record as it is now.
  function Joined(h: MediaHeaders, buffers: seq<Buffer>): seq<u8> {
    if buffers == [] then [] else Deref(h, buffers[0]) + Joined(h, buffers[1..])
  }

  lemma JoinedCons(h: MediaHeaders, b: Buffer, rest: seq<Buffer>)
    ensures Joined(h, [b] + rest) == Deref(h, b) + Joined(h, rest)
  {
    hide Deref;
    assert ([b] + rest)[1..] == rest;
  }

  lemma {:induction false} JoinedAppend(h: MediaHeaders, x: seq<Buffer>, y: seq<Buffer>)
    ensures Joined(h, x + y) == Joined(h, x) + Joined(h, y)
  {
    assert Joined(h, []) == [];
    hide Joined, Deref;
    if x == [] {
      assert x + y == y;
    } else {
      var b, rest := x[0], x[1..];
      assert x == [b] + rest && x + y == [b] + (rest + y);
      JoinedCons(h, b, rest);
      JoinedCons(h, b, rest + y);
      JoinedAppend(h, rest, y);
    }
  }

  lemma JoinedOne(h: MediaHeaders, b: Buffer)
    ensures Joined(h, [b]) == Deref(h, b)
  {
    assert Joined(h, [b]) == Deref(h, b) + Joined(h, []);
  }

  // What enqueue_message keeps of a list of buffers.
  function Kept(copies: bool, h: MediaHeaders, buffers: seq<Buffer>): seq<Buffer> {
    if copies && |buffers| > 1 then [Bytes(Joined(h, buffers))] else buffers
  }

  // Packets of the given buffer lists, numbered consecutively from s.
  function Stored(copies: bool, h: MediaHeaders, common: Header, s: u16, lists: seq<seq<Buffer>>): (ps: seq<Packet>)
    ensures |ps| == |lists|
  {
    seq(|lists|, i requires 0 <= i < |lists| =>
      Packet(common.(seqNo := Number(s, i), marker := false), Kept(copies, h, lists[i])))
  }

  lemma StoredNext(copies: bool, h: MediaHeaders, common: Header, s: u16, lists: seq<seq<Buffer>>, k: nat)
    requires k < |lists|
    ensures Stored(copies, h, common, s, lists[..k + 1])
         == Stored(copies, h, common, s, lists[..k])
              + [Packet(common.(seqNo := Number(s, k), marker := false), Kept(copies, h, lists[k]))]
    ensures Number(Number(s, k), 1) == Number(s, k + 1)
  {
    hide Kept;
  }

  // Packets as the socket reads them.
  function Frames(h: MediaHeaders, ps: seq<Packet>): (fs: seq<Frame>)
    ensures |fs| == |ps|
  {
    seq(|ps|, i requires 0 <= i < |ps| => Frame(ps[i].header, Joined(h, ps[i].buffers)))
  }

  // A copied packet no longer depends on the record; any other is read with
  // the record as it is at the flush.
  lemma KeptRead(copies: bool, h: MediaHeaders, now: MediaHeaders, buffers: seq<Buffer>)
    requires |buffers| > 1
    ensures Joined(now, Kept(copies, h, buffers)) == Joined(if copies then h else now, buffers)
  {
    hide Joined;
    JoinedOne(now, Bytes(Joined(h, buffers)));
  }

  method Gather(h: MediaHeaders, buffers: seq<Buffer>) returns (payload: seq<u8>)
    ensures payload == Joined(h, buffers)
  {
    payload := [];
    for i := 0 to |buffers|
      invariant payload == Joined(h, buffers[..i])
    {
      assert buffers[..i + 1] == buffers[..i] + [buffers[i]];
      JoinedAppend(h, buffers[..i], [buffers[i]]);
      JoinedOne(h, buffers[i]);
      payload := payload + Deref(h, buffers[i]);
    }
    assert buffers[..|buffers|] == buffers;
  }

  // What sendmmsg does with the scatter lists.
  method ReadPackets(h: MediaHeaders, ps: seq<Packet>) returns (fs: seq<Frame>)
    ensures fs == Frames(h, ps)
  {
    hide Joined;
    fs := [];
    for i := 0 to |ps|
      invariant fs == Frames(h, ps[..i])
    {
      var payload := Gather(h, ps[i].buffers);
      assert ps[..i + 1] == ps[..i] + [ps[i]];
      fs := fs + [Frame(ps[i].header, payload)];
    }
    assert ps[..|ps|] == ps;
  }

  // The headers of packets and of what has been sent, without a gap.
  predicate Follow(s: u16, ssrc: u32, wire: seq<Frame>, packets: seq<Packet>) {
    && Numbered(s, ssrc, wire)
    && forall i :: 0 <= i < |packets| ==>
         packets[i].header.seqNo == Number(s, |wire| + i) && packets[i].header.ssrc == ssrc
  }

  lemma FollowNext(s: u16, ssrc: u32, wire: seq<Frame>, packets: seq<Packet>, p: Packet)
    requires Follow(s, ssrc, wire, packets)
    requires p.header.seqNo == Number(s, |wire| + |packets|) && p.header.ssrc == ssrc
    ensures Follow(s, ssrc, wire, packets + [p])
    ensures Number(Number(s, |wire| + |packets|), 1) == Number(s, |wire| + |packets| + 1)
  {
    hide Numbered;
  }

  lemma FollowFlushed(s: u16, ssrc: u32, wire: seq<Frame>, packets: seq<Packet>, h: MediaHeaders)
    requires Follow(s, ssrc, wire, packets)
    ensures Follow(s, ssrc, wire + MarkLast(Frames(h, packets)), [])
    ensures |MarkLast(Frames(h, packets))| == |packets|
  {
    hide Joined;
  }

  class Queue {
    const copies: bool        // RCE_SRTP without RCE_SRTP_NULL_CIPHER
    ghost const first: u16    // the number of the first packet
    var seqNo: u16            // rtp::seq_
    var sentPkts: nat         // rtp::sent_pkts_
    var active: bool          // a transaction is open
    var common: Header        // rtp_common of the transaction
    var media: MediaHeaders   // media_headers of the transaction
    var packets: seq<Packet>  // packets of the transaction
    var wire: seq<Frame>      // packets handed to the socket so far

    // Whatever was handed to the socket and what is queued is numbered without
    // a gap.
    ghost predicate Valid()
      reads this
    {
      && Follow(first, common.ssrc, wire, packets)
      && seqNo == Number(first, |wire| + |packets|)
    }

    constructor (s: u16, h: Header, copies: bool)
      ensures Valid() && first == s && this.copies == copies
      ensures seqNo == s && sentPkts == 0 && !active && common == h && packets == [] && wire == []
    {
      first := s;
      this.copies := copies;
      media := MediaHeaders([], []);
      seqNo, sentPkts, active, common, packets, wire := s, 0, false, h, [], [];
    }

    // The transaction before it has been flushed.
    method InitTransaction(timestamp: u32)
      requires Valid() && packets == []
      modifies this
      ensures Valid()
      ensures active && packets == [] && common == old(common).(timestamp := timestamp)
      ensures wire == old(wire) && seqNo == old(seqNo) && sentPkts == old(sentPkts) && media == old(media)
    {
      active, packets, common := true, [], common.(timestamp := timestamp);
    }

    // What get_media_headers points at is written by the packetiser.
    method SetMediaHeaders(h: MediaHeaders)
      requires Valid()
      modifies this`media
      ensures Valid() && media == h
    {
      media := h;
    }

    // buffers: the buffers of one packet after the RTP header.
    method EnqueueMessage(buffers: seq<Buffer>, setMarker: bool) returns (code: Code)
      requires Valid() && active && |packets| < MAX_MSG_COUNT
      modifies this`seqNo, this`sentPkts, this`packets
      ensures Valid()
      ensures buffers == [] ==> code == InvalidValue && packets == old(packets) && seqNo == old(seqNo) && sentPkts == old(sentPkts)
      ensures buffers != [] ==>
                && code == Ok && seqNo == Number(old(seqNo), 1) && sentPkts == old(sentPkts) + 1
                && packets == old(packets)
                     + [Packet(common.(seqNo := old(seqNo), marker := setMarker), Kept(copies, media, buffers))]
    {
      hide Follow, Joined;
      if buffers == [] {
        return InvalidValue;
      }
      var kept := buffers;
      if copies && |buffers| > 1 {
        var copy := Gather(media, buffers);
        kept := [Bytes(copy)];
      }
      var p := Packet(common.(seqNo := seqNo, marker := setMarker), kept);
      FollowNext(first, common.ssrc, wire, packets, p);
      packets := packets + [p];
      seqNo := if seqNo == 0xffff then 0 else seqNo + 1;
      sentPkts := sentPkts + 1;
      return Ok;
    }

    // The bytes are read when the packets go to the socket; accepted: the
    // socket takes what it is given.
    method Flush(accepted: bool) returns (code: Code)
      requires Valid() && active
      modifies this`active, this`packets, this`wire
      ensures Valid() && !active && packets == []
      ensures code == (if old(packets) == [] then InvalidValue else if accepted then Ok else SendError)
      ensures wire == old(wire) + MarkLast(Frames(media, old(packets)))
    {
      hide Follow, Joined;
      if packets == [] {
        active := false;
        assert Frames(media, packets) == [];
        return InvalidValue;
      }
      FollowFlushed(first, common.ssrc, wire, packets, media);
      var frames := ReadPackets(media, packets);
      if |frames| > 1 {
        frames := frames[|frames| - 1 := Marked(frames[|frames| - 1])];
      }
      wire := wire + frames;
      active, packets := false, [];
      return if accepted then Ok else SendError;
    }
  }
}
