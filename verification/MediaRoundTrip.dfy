// Generic frames end to end: which arrival orders give the frame back.
module MediaRoundTrip {
  import opened Common
  import opened FrameQueue
  import opened H26xSender
  import opened MediaSender
  import opened MediaReceiver

  ghost predicate Fragmented(len: nat, size: nat) {
    size > 0 && 2 <= PieceCount(len, size) <= 0x8000
  }

  lemma PacketsAreTrain(common: Header, s: u16, data: seq<u8>, size: nat)
    requires Fragmented(|data|, size)
    ensures var fs := MediaPackets(common, s, data, size);
            |fs| == PieceCount(|data|, size) && Train(fs, s, common.timestamp) && Payloads(fs) == Pieces(data, size)
  {
    hide Pieces;
    PiecesCounted(data, size);
    var fs := MediaPackets(common, s, data, size);
    assert Payloads(fs) == Pieces(data, size);
  }

  // A frame in one packet is handed on at once and as it is, and nothing
  // changes, exactly if no frame with its timestamp is being put together.
  lemma SinglePacketExactly(st: Frames, common: Header, s: u16, data: seq<u8>, size: nat)
    requires size > 0 && |data| <= size
    ensures |MediaPackets(common, s, data, size)| == 1
    ensures var f := MediaPackets(common, s, data, size)[0];
            && f == Frame(common.(seqNo := s, marker := false), data)
            && (Step(st, f) == (st, Returned(f)) <==> common.timestamp !in st)
            && (common.timestamp in st ==> !Step(st, f).1.Returned?)
  {
    hide Listed, Complete;
    SinglePacket(common, s, data, size);
    if common.timestamp !in st {
      assert st - {common.timestamp} == st;
    }
  }

  lemma ConcatNone()
    ensures Concat([]) == []
  {
  }

  lemma RotatedWhole(s: u16, parts: seq<seq<u8>>)
    requires s + |parts| <= 0x1_0000
    ensures Rotated(s, parts) == Concat(parts)
  {
    hide Concat;
    assert parts[|parts|..] == [] && parts[..|parts|] == parts;
    assert Concat([]) == [] by {
      ConcatNone();
    }
  }

  // As many arrivals as the frame has packets; a packet may repeat and
  // another be missing.
  ghost predicate Exchangeable(len: nat, size: nat, order: seq<nat>) {
    Fragmented(len, size) && |order| == PieceCount(len, size) && Below(order, |order|)
  }

  // What an empty receiver returns at the last of these arrivals.
  ghost function Exchange(common: Header, s: u16, data: seq<u8>, size: nat, order: seq<nat>): Outcome
    requires Exchangeable(|data|, size, order)
  {
    PacketsAreTrain(common, s, data, size);
    OutcomeAt(map[], Arrived(MediaPackets(common, s, data, size), order), |order| - 1)
  }

  // The frame and nothing else comes back.
  ghost predicate ComesBack(common: Header, s: u16, data: seq<u8>, size: nat, order: seq<nat>)
    requires Exchangeable(|data|, size, order)
  {
    var o := Exchange(common, s, data, size, order);
    o.Merged? && o.payload == data && o.size == |data|
  }

  lemma {:induction false} OnlyAll(fs: seq<Frame>, ts: u32)
    requires forall i :: 0 <= i < |fs| ==> fs[i].header.timestamp == ts
    ensures Only(fs, ts) == fs
  {
    if fs != [] {
      OnlyAll(fs[..|fs| - 1], ts);
    }
  }

  lemma ExchangeArrives(fs: seq<Frame>, s: u16, ts: u32, order: seq<nat>)
    requires Train(fs, s, ts) && ArrivalOrder(order, |fs|)
    ensures |Arrived(fs, order)| == |order| && ArrivesAs(Arrived(fs, order), |order| - 1, ts, fs, order)
  {
    var evs := Arrived(fs, order);
    assert evs[..|order|] == evs;
    OnlyAll(evs, ts);
  }

  // The frame comes back from every order that begins with the first packet,
  // if the sequence numbers do not wrap.
  lemma ReturnsInOrder(common: Header, s: u16, data: seq<u8>, size: nat, order: seq<nat>)
    requires Exchangeable(|data|, size, order) && Distinct(order)
    requires order[0] == 0 && s + |order| <= 0x1_0000
    ensures ComesBack(common, s, data, size, order)
  {
    hide MediaPackets, Pieces, Rotated, Payloads, OutcomeAt, ArrivesAs, Train, Arrived;
    PacketsAreTrain(common, s, data, size);
    var fs, ts := MediaPackets(common, s, data, size), common.timestamp;
    ExchangeArrives(fs, s, ts, order);
    Reassembles(map[], Arrived(fs, order), |order| - 1, fs, s, ts, order);
    RotatedWhole(s, Pieces(data, size));
    PiecesConcat(data, size);
  }

  // A frame whose only nonzero byte is the first one.
  function Probe(len: nat): (p: seq<u8>)
    requires len > 0
    ensures |p| == len
  {
    [1] + seq(len - 1, i => 0)
  }

  lemma ProbeRotated(s: u16, len: nat, size: nat)
    requires Fragmented(len, size) && len > 0 && s + PieceCount(len, size) > 0x1_0000
    ensures Rotated(s, Pieces(Probe(len), size)) != Probe(len)
  {
    hide Concat;
    var data := Probe(len);
    var parts := Pieces(data, size);
    PiecesCounted(data, size);
    var w := Unwrapped(s, |parts|);
    assert 0 < w < |parts| && |data| > size;
    UniformPieces(data[size..], size, 0);
    assert parts[w] == Pieces(data[size..], size)[w - 1];
    HeadOf(parts[w..], Concat(parts[..w]));
  }

  lemma HeadOf(parts: seq<seq<u8>>, more: seq<u8>)
    requires parts != [] && parts[0] != []
    ensures var all := Concat(parts) + more; all != [] && all[0] == parts[0][0]
  {
  }

  // With packet l missing, two frames that differ in its piece alone give the
  // same arrivals, so they cannot both come back.
  lemma MissingLost(common: Header, s: u16, len: nat, size: nat, order: seq<nat>, l: nat) returns (data: seq<u8>)
    requires Exchangeable(len, size, order) && len > 0 && l < |order| && l !in order
    ensures |data| == len && !ComesBack(common, s, data, size, order)
  {
    hide Pieces, OutcomeAt;
    var a := Probe(len);
    PiecesCounted(a, size);
    var b := PieceChanged(a, size, l);
    var fs, gs := MediaPackets(common, s, a, size), MediaPackets(common, s, b, size);
    assert Arrived(fs, order) == Arrived(gs, order);
    data := if ComesBack(common, s, a, size, order) then b else a;
  }

  // For packets numbered from s and as many arrivals, repetitions allowed,
  // every frame of a given length comes back at the last arrival if and only
  // if no packet repeats, the first packet arrives first and the sequence
  // numbers do not wrap.
  lemma ReturnsExactly(common: Header, s: u16, len: nat, size: nat, order: seq<nat>)
    requires Exchangeable(len, size, order) && len > 0
    ensures (forall data: seq<u8> | |data| == len :: ComesBack(common, s, data, size, order))
            <==> Distinct(order) && order[0] == 0 && s + |order| <= 0x1_0000
  {
    hide ComesBack, PieceCount;
    if !Distinct(order) {
      var l := SomethingMissing(order, |order|);
      var data := MissingLost(common, s, len, size, order, l);
    } else if order[0] == 0 && s + |order| <= 0x1_0000 {
      forall data: seq<u8> | |data| == len
        ensures ComesBack(common, s, data, size, order)
      {
        ReturnsInOrder(common, s, data, size, order);
      }
    } else {
      ProbeNotBack(common, s, len, size, order);
    }
  }

  lemma ProbeNotBack(common: Header, s: u16, len: nat, size: nat, order: seq<nat>)
    requires Exchangeable(len, size, order) && len > 0 && Distinct(order)
    requires order[0] != 0 || s + |order| > 0x1_0000
    ensures !ComesBack(common, s, Probe(len), size, order)
  {
    hide MediaPackets, Pieces, Rotated, Payloads, OutcomeAt, ArrivesAs, Train, Arrived;
    var data := Probe(len);
    PacketsAreTrain(common, s, data, size);
    var fs, ts := MediaPackets(common, s, data, size), common.timestamp;
    ExchangeArrives(fs, s, ts, order);
    if order[0] == 0 {
      Reassembles(map[], Arrived(fs, order), |order| - 1, fs, s, ts, order);
      ProbeRotated(s, len, size);
    } else {
      NeverReassembled(map[], Arrived(fs, order), |order| - 1, fs, s, ts, order);
    }
  }
}
