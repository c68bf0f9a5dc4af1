// Large NAL units pushed into one transaction: all their fragments point at one
// record of headers, which every unit overwrites, so what reaches the wire
// depends on whether packets are copied before that.
module H26xTransaction {
  import opened Common
  import opened FrameQueue
  import opened H26xReceiver
  import opened H26xReassembly
  import opened H26xSender
  import opened H26xRoundTrip

  // The sum of the first k counts.
  function Start(ns: seq<nat>, k: nat): nat
    requires k <= |ns|
  {
    if k == 0 then 0 else Start(ns, k - 1) + ns[k - 1]
  }

  lemma StartStep(ns: seq<nat>, k: nat)
    requires k < |ns|
    ensures Start(ns, k + 1) == Start(ns, k) + ns[k]
  {
  }

  predicate AllLarge(size: nat, us: seq<seq<u8>>) {
    size > 0 && us != [] && forall k :: 0 <= k < |us| ==> |us[k]| > size + 3
  }

  // How many fragments each unit has.
  function Counts(c: Codec, size: nat, us: seq<seq<u8>>): (ns: seq<nat>)
    requires AllLarge(size, us)
    ensures |ns| == |us|
  {
    seq(|us|, k requires 0 <= k < |us| => |Pieces(us[k][NalSize(c)..], size)|)
  }

  function UnitPackets(c: Codec, size: nat, copies: bool, common: Header, s: u16, u: seq<u8>): seq<Packet>
    requires size > 0 && |u| > size + 3
  {
    Stored(copies, FuHeaders(c, u[0]), common, s, FuBuffers(u[NalSize(c)..], size))
  }

  // What the first k pushes leave in the queue.
  function QueuedPackets(c: Codec, size: nat, copies: bool, common: Header, s: u16, us: seq<seq<u8>>, k: nat): seq<Packet>
    requires AllLarge(size, us) && k <= |us|
  {
    if k == 0 then []
    else
      QueuedPackets(c, size, copies, common, s, us, k - 1)
      + UnitPackets(c, size, copies, common, Number(s, Start(Counts(c, size, us), k - 1)), us[k - 1])
  }

  function Last(us: seq<seq<u8>>): seq<u8>
    requires us != []
  {
    us[|us| - 1]
  }

  // What the flush hands to the socket.
  function WireOf(c: Codec, size: nat, copies: bool, common: Header, s: u16, us: seq<seq<u8>>): seq<Frame>
    requires AllLarge(size, us)
  {
    MarkLast(Frames(FuHeaders(c, Last(us)[0]), QueuedPackets(c, size, copies, common, s, us, |us|)))
  }

  // The first byte whose headers the fragments of unit k show: its own if
  // packets are copied, that of the last unit if not.
  function ShownFirst(copies: bool, us: seq<seq<u8>>, k: nat): u8
    requires k < |us| && forall i :: 0 <= i < |us| ==> us[i] != []
  {
    if copies then us[k][0] else Last(us)[0]
  }

  lemma {:induction false} QueuedCount(c: Codec, size: nat, copies: bool, common: Header, s: u16, us: seq<seq<u8>>, k: nat)
    requires AllLarge(size, us) && k <= |us|
    ensures |QueuedPackets(c, size, copies, common, s, us, k)| == Start(Counts(c, size, us), k)
  {
    hide Stored, Kept, FuHeaders;
    if k > 0 {
      QueuedCount(c, size, copies, common, s, us, k - 1);
      UnitCount(c, size, copies, common, Number(s, Start(Counts(c, size, us), k - 1)), us[k - 1]);
    }
  }

  lemma UnitCount(c: Codec, size: nat, copies: bool, common: Header, s: u16, u: seq<u8>)
    requires size > 0 && |u| > size + 3
    ensures |UnitPackets(c, size, copies, common, s, u)| == |Pieces(u[NalSize(c)..], size)|
  {
    hide Kept, FuHeaders, Pieces;
  }

  lemma {:induction false} QueuedPrefix(c: Codec, size: nat, copies: bool, common: Header, s: u16, us: seq<seq<u8>>, k: nat, n: nat)
    requires AllLarge(size, us) && k <= n <= |us|
    ensures QueuedPackets(c, size, copies, common, s, us, k) <= QueuedPackets(c, size, copies, common, s, us, n)
  {
    hide UnitPackets;
    if k < n {
      QueuedPrefix(c, size, copies, common, s, us, k, n - 1);
    }
  }

  lemma {:induction false} StartGrows(ns: seq<nat>, k: nat, n: nat)
    requires k <= n <= |ns|
    ensures Start(ns, k) <= Start(ns, n)
  {
    if k < n {
      StartGrows(ns, k, n - 1);
    }
  }

  lemma QueuedStep(c: Codec, size: nat, copies: bool, common: Header, s: u16, us: seq<seq<u8>>, k: nat)
    requires AllLarge(size, us) && k < |us|
    ensures QueuedPackets(c, size, copies, common, s, us, k + 1)
         == QueuedPackets(c, size, copies, common, s, us, k)
              + UnitPackets(c, size, copies, common, Number(s, Start(Counts(c, size, us), k)), us[k])
  {
    hide UnitPackets;
  }

  // The i-th packet of unit k.
  lemma QueuedAt(c: Codec, size: nat, copies: bool, common: Header, s: u16, us: seq<seq<u8>>, k: nat, i: nat)
    requires AllLarge(size, us) && k < |us| && i < Counts(c, size, us)[k]
    ensures var ns := Counts(c, size, us);
            var ps, own := QueuedPackets(c, size, copies, common, s, us, |us|),
                           UnitPackets(c, size, copies, common, Number(s, Start(ns, k)), us[k]);
            Start(ns, k) + i < |ps| == Start(ns, |us|) && i < |own| && ps[Start(ns, k) + i] == own[i]
  {
    hide UnitPackets, QueuedPackets, Start;
    QueuedCount(c, size, copies, common, s, us, k);
    QueuedCount(c, size, copies, common, s, us, |us|);
    QueuedPrefix(c, size, copies, common, s, us, k + 1, |us|);
    UnitCount(c, size, copies, common, Number(s, Start(Counts(c, size, us), k)), us[k]);
    QueuedStep(c, size, copies, common, s, us, k);
    var ns := Counts(c, size, us);
    PrefixAt(QueuedPackets(c, size, copies, common, s, us, k),
             UnitPackets(c, size, copies, common, Number(s, Start(ns, k)), us[k]),
             QueuedPackets(c, size, copies, common, s, us, |us|), i);
  }

  lemma PrefixAt(x: seq<Packet>, y: seq<Packet>, z: seq<Packet>, i: nat)
    requires x + y <= z && i < |y|
    ensures |x| + i < |z| && z[|x| + i] == y[i]
  {
    assert z[|x| + i] == (x + y)[|x| + i];
  }

  // A fragment read at the flush shows the headers that its packet points at.
  lemma FragmentRead(c: Codec, size: nat, copies: bool, common: Header, s: u16, u: seq<u8>, last: u8, i: nat)
    requires size > 0 && |u| > size + 3 && i < |Pieces(u[NalSize(c)..], size)|
    ensures |UnitPackets(c, size, copies, common, s, u)| == |Pieces(u[NalSize(c)..], size)|
    ensures var p := UnitPackets(c, size, copies, common, s, u)[i];
            && p.header == common.(seqNo := Number(s, i), marker := false)
            && Joined(FuHeaders(c, last), p.buffers)
               == FuPayloadsOf(c, if copies then u[0] else last, u[NalSize(c)..], size)[i]
  {
    hide Kept, FuHeaders, Pieces, Joined, FuPayloadsOf;
    var body := u[NalSize(c)..];
    FuBuffersRead(c, if copies then u[0] else last, body, size, i);
    FragmentBuffers(body, size, i);
    KeptRead(copies, FuHeaders(c, u[0]), FuHeaders(c, last), FuBuffers(body, size)[i]);
  }

  lemma AtLeastTwoPieces(c: Codec, size: nat, us: seq<seq<u8>>, k: nat)
    requires AllLarge(size, us) && k < |us|
    ensures Counts(c, size, us)[k] >= 2
  {
  }

  lemma MarkedAlike(fs: seq<Frame>, i: nat)
    requires i < |fs|
    ensures |MarkLast(fs)| == |fs| && MarkLast(fs)[i].payload == fs[i].payload
    ensures MarkLast(fs)[i].header.(marker := fs[i].header.marker) == fs[i].header
  {
  }

  lemma MarkedAt(fs: seq<Frame>, i: nat)
    requires i < |fs|
    ensures |MarkLast(fs)| == |fs|
    ensures MarkLast(fs)[i].header.marker <==> fs[i].header.marker || (|fs| > 1 && i == |fs| - 1)
  {
  }

  lemma {:induction false} QueuedUnmarked(c: Codec, size: nat, copies: bool, common: Header, s: u16, us: seq<seq<u8>>, k: nat)
    requires AllLarge(size, us) && k <= |us|
    ensures forall i :: 0 <= i < |QueuedPackets(c, size, copies, common, s, us, k)| ==>
              !QueuedPackets(c, size, copies, common, s, us, k)[i].header.marker
  {
    hide Kept, FuHeaders, FuBuffers, Number;
    if k > 0 {
      QueuedUnmarked(c, size, copies, common, s, us, k - 1);
    }
  }

  // Whatever the units, the last packet of the transaction carries the marker
  // bit and no other does.
  lemma MarkedOnce(c: Codec, size: nat, copies: bool, common: Header, s: u16, us: seq<seq<u8>>, i: nat)
    requires AllLarge(size, us) && i < |WireOf(c, size, copies, common, s, us)|
    ensures var fs := WireOf(c, size, copies, common, s, us);
            |fs| > 1 && (fs[i].header.marker <==> i == |fs| - 1)
  {
    hide FuHeaders, Joined, QueuedPackets, Start, MarkLast, Counts;
    var ps := QueuedPackets(c, size, copies, common, s, us, |us|);
    QueuedUnmarked(c, size, copies, common, s, us, |us|);
    WireSize(c, size, copies, common, s, us);
    UnitInside(c, size, us, 0);
    if i < |ps| {
      MarkedAt(Frames(FuHeaders(c, Last(us)[0]), ps), i);
    }
    QueuedCount(c, size, copies, common, s, us, |us|);
  }

  // The i-th fragment of a body under these headers, numbered from s.
  predicate IsFragment(c: Codec, f: Frame, i: nat, first: u8, body: seq<u8>, size: nat, s: u16, ts: u32) {
    && size > 0 && i < |Pieces(body, size)|
    && f.header.timestamp == ts && f.header.seqNo == Number(s, i)
    && f.payload == FuPayloadsOf(c, first, body, size)[i]
  }

  lemma AllCarry(c: Codec, fs: seq<Frame>, first: u8, body: seq<u8>, size: nat, s: u16, ts: u32)
    requires size > 0 && 2 <= |fs| == |Pieces(body, size)| <= 0x1_0000
    requires forall i :: 0 <= i < |fs| ==> IsFragment(c, fs[i], i, first, body, size, s, ts)
    ensures CarriesUnit(c, fs, first, body, size, s, ts)
  {
    hide Pieces, CarriesUnit;
    FragmentsCarry(c, fs, first, body, size, s, ts);
  }

  // The i-th frame of unit k on the wire.
  lemma WireAt(c: Codec, size: nat, copies: bool, common: Header, s: u16, us: seq<seq<u8>>, k: nat, i: nat)
    requires AllLarge(size, us) && k < |us| && i < Counts(c, size, us)[k]
    ensures var ns, fs := Counts(c, size, us), WireOf(c, size, copies, common, s, us);
            && Start(ns, k) + i < |fs|
            && IsFragment(c, fs[Start(ns, k) + i], i, ShownFirst(copies, us, k), us[k][NalSize(c)..], size,
                          Number(s, Start(ns, k)), common.timestamp)
  {
    hide UnitPackets, FuHeaders, Joined, FuPayloadsOf, Pieces, QueuedPackets, Start, MarkLast, Number;
    var from := Start(Counts(c, size, us), k);
    var h, ps := FuHeaders(c, Last(us)[0]), QueuedPackets(c, size, copies, common, s, us, |us|);
    QueuedAt(c, size, copies, common, s, us, k, i);
    FragmentRead(c, size, copies, common, Number(s, from), us[k], Last(us)[0], i);
    assert Frames(h, ps)[from + i] == Frame(ps[from + i].header, Joined(h, ps[from + i].buffers));
    MarkedAlike(Frames(h, ps), from + i);
  }

  lemma WireSize(c: Codec, size: nat, copies: bool, common: Header, s: u16, us: seq<seq<u8>>)
    requires AllLarge(size, us)
    ensures |WireOf(c, size, copies, common, s, us)| == Start(Counts(c, size, us), |us|)
  {
    hide FuHeaders, Joined, QueuedPackets, Start;
    QueuedCount(c, size, copies, common, s, us, |us|);
  }

  // What a transaction of any number of large units puts on the wire: unit by
  // unit, numbered on, their bodies under the headers shown.
  lemma WireCarries(c: Codec, size: nat, copies: bool, common: Header, s: u16, us: seq<seq<u8>>, k: nat)
    requires AllLarge(size, us) && k < |us| && Start(Counts(c, size, us), |us|) <= 0x1_0000
    ensures var ns, fs := Counts(c, size, us), WireOf(c, size, copies, common, s, us);
            && Start(ns, k) + ns[k] <= |fs| == Start(ns, |us|)
            && CarriesUnit(c, fs[Start(ns, k)..Start(ns, k) + ns[k]], ShownFirst(copies, us, k), us[k][NalSize(c)..], size,
                           Number(s, Start(ns, k)), common.timestamp)
  {
    hide Pieces, WireOf, CarriesUnit, ShownFirst, IsFragment, Number, Start;
    var ns, fs := Counts(c, size, us), WireOf(c, size, copies, common, s, us);
    WireSize(c, size, copies, common, s, us);
    UnitInside(c, size, us, k);
    var from, first, body := Start(ns, k), ShownFirst(copies, us, k), us[k][NalSize(c)..];
    var own := fs[from..from + ns[k]];
    forall i | 0 <= i < |own|
      ensures IsFragment(c, own[i], i, first, body, size, Number(s, from), common.timestamp)
    {
      WireAt(c, size, copies, common, s, us, k, i);
      assert own[i] == fs[from + i];
    }
    AllCarry(c, own, first, body, size, Number(s, from), common.timestamp);
  }

  lemma UnitInside(c: Codec, size: nat, us: seq<seq<u8>>, k: nat)
    requires AllLarge(size, us) && k < |us|
    ensures var ns := Counts(c, size, us);
            2 <= ns[k] == |Pieces(us[k][NalSize(c)..], size)| && Start(ns, k) + ns[k] <= Start(ns, |us|)
  {
    StartGrows(Counts(c, size, us), k + 1, |us|);
    AtLeastTwoPieces(c, size, us, k);
  }

  // Pushing large units into an empty transaction, the last one without more.
  method PushUnits(p: Packetiser, us: seq<seq<u8>>, accepted: bool) returns (code: Code)
    requires p.queue.Valid() && p.queue.active && p.queue.packets == [] && p.nalus == [] && !p.aggregated
    requires AllLarge(p.payloadSize, us) && Start(Counts(p.codec, p.payloadSize, us), |us|) <= MAX_MSG_COUNT
    modifies p, p.queue
    ensures p.queue.Valid() && code == if accepted then Ok else SendError
    ensures p.queue.wire == old(p.queue.wire)
              + WireOf(p.codec, p.payloadSize, p.queue.copies, old(p.queue.common), old(p.queue.seqNo), us)
  {
    hide Follow, Stored, Kept, Frames, FuBuffers, FuHeaders, Aggregated, MarkLast, UnitPackets, Number, Pieces, QueuedPackets,
      WireOf;
    ghost var common, s, ns := p.queue.common, p.queue.seqNo, Counts(p.codec, p.payloadSize, us);
    QueuedNone(p.codec, p.payloadSize, p.queue.copies, common, s, us);
    ghost var last: nat := |us| - 1;
    for i := 0 to |us| - 1
      invariant p.queue.Valid() && p.nalus == [] && !p.aggregated
      invariant p.queue.active && p.queue.common == common && p.queue.wire == old(p.queue.wire)
      invariant p.queue.packets == QueuedPackets(p.codec, p.payloadSize, p.queue.copies, common, s, us, i)
      invariant p.queue.seqNo == Number(s, Start(ns, i))
    {
      Ready(p.codec, p.payloadSize, p.queue.copies, common, s, us, i);
      code := p.PushNalUnit(us[i], true, accepted);
    }
    Ready(p.codec, p.payloadSize, p.queue.copies, common, s, us, last);
    code := p.PushNalUnit(us[|us| - 1], false, accepted);
  }

  // What the push of unit i finds and adds.
  lemma Ready(c: Codec, size: nat, copies: bool, common: Header, s: u16, us: seq<seq<u8>>, i: nat)
    requires AllLarge(size, us) && i < |us|
    ensures var ns, lists := Counts(c, size, us), FuBuffers(us[i][NalSize(c)..], size);
            && |QueuedPackets(c, size, copies, common, s, us, i)| + |lists| <= Start(ns, |us|) && |lists| > 0
            && Aggregated(c, []) == [] && Aggregated(c, []) + lists == lists
            && QueuedPackets(c, size, copies, common, s, us, i)
               + Stored(copies, FuHeaders(c, us[i][0]), common, Number(s, Start(ns, i)), lists)
               == QueuedPackets(c, size, copies, common, s, us, i + 1)
            && Number(Number(s, Start(ns, i)), |lists|) == Number(s, Start(ns, i + 1))
  {
    hide Stored, FuBuffers, FuHeaders, Pieces, QueuedPackets, Start, Number;
    var ns := Counts(c, size, us);
    QueuedCount(c, size, copies, common, s, us, i);
    UnitInside(c, size, us, i);
    UnitQueued(c, size, copies, common, Number(s, Start(ns, i)), us[i]);
    QueuedStep(c, size, copies, common, s, us, i);
    StartStep(ns, i);
    NumberSum(s, Start(ns, i), ns[i]);
  }

  lemma QueuedNone(c: Codec, size: nat, copies: bool, common: Header, s: u16, us: seq<seq<u8>>)
    requires AllLarge(size, us)
    ensures QueuedPackets(c, size, copies, common, s, us, 0) == [] && Number(s, 0) == s
    ensures WireOf(c, size, copies, common, s, us)
         == MarkLast(Frames(FuHeaders(c, Last(us)[0]), QueuedPackets(c, size, copies, common, s, us, |us|)))
  {
    hide Frames, FuHeaders, MarkLast;
  }

  lemma UnitQueued(c: Codec, size: nat, copies: bool, common: Header, s: u16, u: seq<u8>)
    requires size > 0 && |u| > size + 3
    ensures Aggregated(c, []) + FuBuffers(u[NalSize(c)..], size) == FuBuffers(u[NalSize(c)..], size)
    ensures |FuBuffers(u[NalSize(c)..], size)| == |Pieces(u[NalSize(c)..], size)| && |Aggregated(c, [])| == 0
    ensures UnitPackets(c, size, copies, common, s, u) == Stored(copies, FuHeaders(c, u[0]), common, s, FuBuffers(u[NalSize(c)..], size))
  {
  }

  // A single unit's transaction is the packets of its round trip, copied or not.
  lemma SingleWire(c: Codec, size: nat, copies: bool, common: Header, s: u16, u: seq<u8>)
    requires size > 0 && |u| > size + 3
    ensures WireOf(c, size, copies, common, s, [u]) == FuPackets(c, u, size, common, s)
  {
    hide UnitPackets, FuHeaders, Joined, FuPayloadsOf, Pieces, Start, QueuedPackets, Number, MarkLast, FuPayloads;
    var us := [u];
    var h, ps := FuHeaders(c, u[0]), QueuedPackets(c, size, copies, common, s, us, 1);
    var ns := Counts(c, size, us);
    SingleStart(ns, s);
    QueuedCount(c, size, copies, common, s, us, 1);
    PayloadsAre(c, u, size);
    var fs := Packetize(common, s, FuPayloads(c, u, size));
    forall i | 0 <= i < ns[0]
      ensures Frames(h, ps)[i] == fs[i]
    {
      QueuedAt(c, size, copies, common, s, us, 0, i);
      FragmentRead(c, size, copies, common, s, u, u[0], i);
    }
    assert Frames(h, ps) == fs;
  }

  lemma SingleStart(ns: seq<nat>, s: u16)
    requires |ns| == 1
    ensures Start(ns, 0) == 0 && Start(ns, 1) == ns[0] && Number(s, 0) == s
  {
  }

  lemma PayloadsAre(c: Codec, u: seq<u8>, size: nat)
    requires size > 0 && |u| > 3
    ensures |FuPayloads(c, u, size)| == |Pieces(u[NalSize(c)..], size)| == |FuPayloadsOf(c, u[0], u[NalSize(c)..], size)|
    ensures FuPayloads(c, u, size) == FuPayloadsOf(c, u[0], u[NalSize(c)..], size)
  {
  }
}
