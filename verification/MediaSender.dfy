// Generic media frames: a frame that does not fit one packet is cut into
// pieces, and the first and the last packet carry the marker bit.
module MediaSender {
  import opened Common
  import opened FrameQueue
  import opened H26xSender

  // The packets of a frame, numbered from s. A frame in one packet is not marked.
  function MediaPackets(common: Header, s: u16, data: seq<u8>, size: nat): (fs: seq<Frame>)
    requires size > 0
    ensures |fs| == |Pieces(data, size)|
  {
    var ps := Pieces(data, size);
    seq(|ps|, i requires 0 <= i < |ps| =>
      Frame(common.(seqNo := Number(s, i), marker := |ps| > 1 && (i == 0 || i + 1 == |ps|)), ps[i]))
  }

  lemma MediaPacketsNext(common: Header, s: u16, data: seq<u8>, size: nat, k: nat)
    requires size > 0 && k < |Pieces(data, size)|
    ensures var fs, n := MediaPackets(common, s, data, size), |Pieces(data, size)|;
            && fs[..k + 1] == fs[..k] + [Frame(common.(seqNo := Number(s, k), marker := n > 1 && (k == 0 || k + 1 == n)),
                                               Pieces(data, size)[k])]
            && Number(Number(s, k), 1) == Number(s, k + 1)
  {
    hide Pieces;
  }

  // Packets of one buffer each.
  function Unread(fs: seq<Frame>): (ps: seq<Packet>)
    ensures |ps| == |fs|
  {
    seq(|fs|, i requires 0 <= i < |fs| => Packet(fs[i].header, [Bytes(fs[i].payload)]))
  }

  lemma UnreadRead(h: MediaHeaders, fs: seq<Frame>)
    ensures Frames(h, Unread(fs)) == fs
  {
    hide Joined;
    forall i | 0 <= i < |fs|
      ensures Joined(h, Unread(fs)[i].buffers) == fs[i].payload
    {
      JoinedOne(h, Bytes(fs[i].payload));
    }
  }

  lemma UnreadNext(fs: seq<Frame>, k: nat)
    requires k < |fs|
    ensures Unread(fs[..k + 1]) == Unread(fs[..k]) + [Packet(fs[k].header, [Bytes(fs[k].payload)])]
  {
  }

  // media::push_media_frame
  method PushMediaFrame(queue: Queue, data: seq<u8>, timestamp: u32, payloadSize: nat, fragment: bool, accepted: bool)
    returns (code: Code)
    requires queue.Valid() && queue.packets == []
    requires data != [] && payloadSize > 0 && |Pieces(data, payloadSize)| <= MAX_MSG_COUNT
    modifies queue
    ensures queue.Valid() && code == if accepted then Ok else SendError
    ensures var common := old(queue.common).(timestamp := timestamp);
            queue.wire == old(queue.wire)
              + if fragment then MediaPackets(common, old(queue.seqNo), data, payloadSize)
                else [Frame(common.(seqNo := old(queue.seqNo), marker := false), data)]
  {
    hide Pieces, MediaPackets, Follow, Joined, Frames, Unread;
    queue.InitTransaction(timestamp);
    if !fragment || |data| <= payloadSize {
      code := queue.EnqueueMessage([Bytes(data)], false);
      ghost var single := [Frame(queue.common.(seqNo := old(queue.seqNo), marker := false), data)];
      UnreadOne(single[0]);
      UnreadRead(queue.media, single);
      assert queue.packets == Unread(single);
      if fragment {
        SinglePacket(queue.common, old(queue.seqNo), data, payloadSize);
      }
      code := queue.Flush(accepted);
      return;
    }
    ghost var ps := Pieces(data, payloadSize);
    ghost var fs := MediaPackets(queue.common, old(queue.seqNo), data, payloadSize);
    ghost var done: nat := 0;
    assert data[0..] == data && ps[0..] == ps && fs[..0] == [];
    UnreadNone(fs);
    var left := |data|;
    var pos := 0;
    var setMarker := true;
    while left > payloadSize
      invariant 0 <= pos <= |data| && left == |data| - pos && done <= |ps| == |fs| && setMarker == (done == 0)
      invariant ps[done..] == Pieces(data[pos..], payloadSize) && (left <= payloadSize ==> done > 0)
      invariant queue.Valid() && queue.active && queue.wire == old(queue.wire)
      invariant queue.common == old(queue.common).(timestamp := timestamp)
      invariant queue.seqNo == Number(old(queue.seqNo), done)
      invariant queue.packets == Unread(fs[..done]) && |queue.packets| == done
      decreases left
    {
      NextPiece(data, pos, payloadSize, ps, done);
      MediaPacketsNext(queue.common, old(queue.seqNo), data, payloadSize, done);
      UnreadNext(fs, done);
      code := queue.EnqueueMessage([Bytes(data[pos..pos + payloadSize])], setMarker);
      pos, left, setMarker := pos + payloadSize, left - payloadSize, false;
      done := done + 1;
    }
    LastPiece(data, pos, payloadSize, ps, done);
    MediaPacketsNext(queue.common, old(queue.seqNo), data, payloadSize, done);
    UnreadNext(fs, done);
    code := queue.EnqueueMessage([Bytes(data[pos..])], true);
    assert fs[..done + 1] == fs;
    UnreadRead(queue.media, fs);
    assert MarkLast(fs) == fs;
    code := queue.Flush(accepted);
  }

  lemma UnreadOne(f: Frame)
    ensures Unread([f]) == [Packet(f.header, [Bytes(f.payload)])]
  {
  }

  lemma UnreadNone(fs: seq<Frame>)
    ensures Unread(fs[..0]) == []
  {
  }

  lemma SinglePacket(common: Header, s: u16, data: seq<u8>, size: nat)
    requires size > 0 && |data| <= size
    ensures MediaPackets(common, s, data, size) == [Frame(common.(seqNo := s, marker := false), data)]
  {
  }
}
