// Fragmenting a NAL unit and merging its fragments: what comes out for every
// arrival order and every interleaving with other frames, and exactly when
// that is the unit that was sent.
module H26xRoundTrip {
  import opened Common
  import opened FrameQueue
  import opened H26xReceiver
  import opened H26xInvariants
  import opened H26xReassembly
  import opened H26xSender

  // The packets on the wire for one large NAL unit.
  function FuPackets(c: Codec, data: seq<u8>, size: nat, common: Header, s: u16): seq<Frame>
    requires |data| > 3 && size > 0
  {
    MarkLast(Packetize(common, s, FuPayloads(c, data, size)))
  }

  ghost predicate Fragmented(data: seq<u8>, size: nat) {
    0 < size && |data| > size + 3
  }

  ghost function FragmentCount(c: Codec, data: seq<u8>, size: nat): nat
    requires Fragmented(data, size)
  {
    |Pieces(data[NalSize(c)..], size)|
  }

  lemma AtLeastTwo(c: Codec, data: seq<u8>, size: nat)
    requires Fragmented(data, size)
    ensures FragmentCount(c, data, size) >= 2
  {
  }

  // The NAL header a receiver rebuilds from headers made from this first byte.
  function HeaderFrom(c: Codec, first: u8): (h: seq<u8>)
    ensures |h| == NalSize(c)
  {
    if c.H264? then [first] else [UnitType(c, first) * 2, 1]
  }

  // Headers of the i-th fragment as the receiver reads them.
  lemma FragmentHeaders(c: Codec, first: u8, i: nat, n: nat, piece: seq<u8>)
    requires i < n && n >= 2
    ensures var p := FuIndicator(c, first) + [FuHeader(UnitType(c, first), i, n)] + piece;
            && |p| >= HeaderSize(c) && p[HeaderSize(c)..] == piece
            && GetFrag(c, p) == Kind(i, n)
            && NalType(c, p) == UnitType(c, first)
            && NalHeader(c, p) == HeaderFrom(c, first)
  {
  }

  // Packets that carry a body in pieces under headers made from this first
  // byte, numbered from s; markers do not matter.
  ghost predicate CarriesUnit(c: Codec, fs: seq<Frame>, first: u8, body: seq<u8>, size: nat, s: u16, ts: u32) {
    && size > 0 && Train(c, fs, s, ts) && Bodies(c, fs) == Pieces(body, size) && |fs| == |Pieces(body, size)|
    && forall i :: 0 <= i < |fs| ==>
         NalType(c, fs[i].payload) == UnitType(c, first) && NalHeader(c, fs[i].payload) == HeaderFrom(c, first)
  }

  lemma FragmentsCarry(c: Codec, fs: seq<Frame>, first: u8, body: seq<u8>, size: nat, s: u16, ts: u32)
    requires size > 0 && 2 <= |fs| == |Pieces(body, size)| <= 0x1_0000
    requires forall i :: 0 <= i < |fs| ==>
               && fs[i].header.timestamp == ts && fs[i].header.seqNo == (s + i) % 0x1_0000
               && fs[i].payload == FuPayloadsOf(c, first, body, size)[i]
    ensures CarriesUnit(c, fs, first, body, size, s, ts)
  {
    hide GetFrag, NalType, NalHeader, FuIndicator, FuHeader, UnitType, HeaderFrom, Pieces;
    var ps := Pieces(body, size);
    forall i | 0 <= i < |fs|
      ensures |fs[i].payload| >= HeaderSize(c) && GetFrag(c, fs[i].payload) == Kind(i, |fs|) && Body(c, fs[i]) == ps[i]
      ensures NalType(c, fs[i].payload) == UnitType(c, first) && NalHeader(c, fs[i].payload) == HeaderFrom(c, first)
    {
      FragmentHeaders(c, first, i, |fs|, ps[i]);
    }
  }

  lemma PacketsAreTrain(c: Codec, data: seq<u8>, size: nat, common: Header, s: u16)
    requires Fragmented(data, size) && FragmentCount(c, data, size) <= 0x1_0000
    ensures var fs := FuPackets(c, data, size, common, s);
            && |fs| == FragmentCount(c, data, size)
            && CarriesUnit(c, fs, data[0], data[NalSize(c)..], size, s, common.timestamp)
  {
    hide FuPayloadsOf, Pieces;
    AtLeastTwo(c, data, size);
    PayloadCount(c, data, size);
    FragmentsCarry(c, FuPackets(c, data, size, common, s), data[0], data[NalSize(c)..], size, s, common.timestamp);
  }

  lemma PayloadCount(c: Codec, data: seq<u8>, size: nat)
    requires |data| > 3 && size > 0
    ensures |FuPayloads(c, data, size)| == |Pieces(data[NalSize(c)..], size)|
  {
  }

  // H.264 keeps the NAL header; H.265 keeps it when the forbidden bit and the
  // layer id are zero and the second byte is 1.
  predicate HeaderKept(c: Codec, data: seq<u8>)
    requires |data| >= 2
  {
    c.H264? || (data[0] < 128 && data[0] % 2 == 0 && data[1] == 1)
  }

  lemma RebuiltHeader(c: Codec, data: seq<u8>)
    requires |data| >= 2
    ensures HeaderFrom(c, data[0]) == data[..NalSize(c)] <==> HeaderKept(c, data)
  {
  }

  lemma SameAfterPrefix(sc: seq<u8>, h: seq<u8>, data: seq<u8>)
    requires |h| <= |data|
    ensures sc + h + data[|h|..] == sc + data <==> h == data[..|h|]
  {
    var whole := sc + h + data[|h|..];
    assert whole[|sc|..|sc| + |h|] == h && (sc + data)[|sc|..|sc| + |h|] == data[..|h|];
    if h == data[..|h|] {
      assert data == data[..|h|] + data[|h|..];
    }
  }

  // The fragments of one NAL unit, each once, in the given order and on time.
  ghost predicate Carries(c: Codec, fl: Flags, evs: seq<Event>, data: seq<u8>, size: nat, common: Header, s: u16, order: seq<nat>) {
    && Fragmented(data, size) && FragmentCount(c, data, size) <= 0x1_0000
    && Delivers(FuPackets(c, data, size, common, s), order, evs)
    && AllReadable(c, evs)
    && OnTime(c, fl, evs)
  }

  // Without interleaving: every arrival but the last is held back, the last
  // one returns the merged bytes of all fragments under the rebuilt header.
  lemma UnitReturned(c: Codec, fl: Flags, st: State, evs: seq<Event>, fs: seq<Frame>, first: u8, body: seq<u8>, size: nat,
                     s: u16, ts: u32, order: seq<nat>)
    returns (m: map<nat, Frame>)
    requires CarriesUnit(c, fs, first, body, size, s, ts) && Delivers(fs, order, evs) && AllReadable(c, evs) && OnTime(c, fl, evs)
    requires ts !in st.frames && ts !in st.dropped
    ensures |order| == |evs| == |fs| >= 2
    ensures forall i :: 0 <= i < |evs| - 1 ==> OutcomeAt(c, fl, st, evs, i) == Held
    ensures Filled(c, fs, s, order[0], Range(0, |evs|), m)
    ensures var last := evs[|evs| - 1].frame;
            var written := ScPrefix(c, fl) + HeaderFrom(c, first) + Ordered(c, m, m.Keys);
            && OutcomeAt(c, fl, st, evs, |evs| - 1) == Rebuilt(last.header, written, |written|)
            && (InOrder(c, s, |evs|, order[0]) ==> Ordered(c, m, m.Keys) == body)
    ensures ViewOf(Run(c, fl, st, evs), ts) == View(None, false)
  {
    hide Filled, Bodies, InOrder, NalHeader, OutcomeAt, Run, Readable, OnTime, Range, Ordered, HeaderFrom, ScPrefix, Pieces;
    m := TrainMerged(c, fl, st, fs, s, ts, order, evs);
    if InOrder(c, s, |evs|, order[0]) {
      MergedInOrder(c, fs, s, order[0], m);
      PiecesConcat(body, size);
    }
  }

  lemma TrainReturned(c: Codec, fl: Flags, st: State, evs: seq<Event>, data: seq<u8>, size: nat, common: Header, s: u16,
                      order: seq<nat>)
    returns (m: map<nat, Frame>)
    requires Carries(c, fl, evs, data, size, common, s, order)
    requires common.timestamp !in st.frames && common.timestamp !in st.dropped
    ensures |order| == |evs| == FragmentCount(c, data, size) >= 2
    ensures forall i :: 0 <= i < |evs| - 1 ==> OutcomeAt(c, fl, st, evs, i) == Held
    ensures Filled(c, FuPackets(c, data, size, common, s), s, order[0], Range(0, |evs|), m)
    ensures var last := evs[|evs| - 1].frame;
            var written := ScPrefix(c, fl) + HeaderFrom(c, data[0]) + Ordered(c, m, m.Keys);
            OutcomeAt(c, fl, st, evs, |evs| - 1) == Rebuilt(last.header, written, |written|) &&
            (InOrder(c, s, |evs|, order[0]) ==> (written == ScPrefix(c, fl) + data <==> HeaderKept(c, data)))
    ensures ViewOf(Run(c, fl, st, evs), common.timestamp) == View(None, false)
  {
    hide Filled, Bodies, InOrder, FuPackets, HeaderFrom, HeaderKept, OutcomeAt, Run, Readable, OnTime, Range, Ordered, ScPrefix;
    PacketsAreTrain(c, data, size, common, s);
    m := UnitReturned(c, fl, st, evs, FuPackets(c, data, size, common, s), data[0], data[NalSize(c)..], size, s,
                      common.timestamp, order);
    RebuiltHeader(c, data);
    HeaderSized(c, data[0]);
    SameAfterPrefix(ScPrefix(c, fl), HeaderFrom(c, data[0]), data);
  }

  lemma HeaderSized(c: Codec, first: u8)
    ensures |HeaderFrom(c, first)| == NalSize(c)
  {
  }

  // With the packets of any other frames in between: the unit comes back
  // exactly once, at the arrival of its last fragment, and nothing of it stays
  // behind. When the arrivals keep the fragments in order, the bytes returned
  // are the unit sent if and only if its header is one the format keeps.
  lemma RoundTrip(c: Codec, fl: Flags, st: State, evs: seq<Event>, data: seq<u8>, size: nat, common: Header, s: u16,
                  order: seq<nat>, i: nat)
    requires AllReadable(c, evs) && Carries(c, fl, Project(evs, common.timestamp), data, size, common, s, order)
    requires common.timestamp !in st.frames && common.timestamp !in st.dropped
    requires i < |evs| && evs[i].frame.header.timestamp == common.timestamp
    ensures var n, at, o := FragmentCount(c, data, size), |Project(evs[..i], common.timestamp)|, OutcomeAt(c, fl, st, evs, i);
            && at < n
            && (at < n - 1 ==> o == Held)
            && (at == n - 1 ==> o.Rebuilt? && o.header == evs[i].frame.header && o.size == |o.written|)
            && (at == n - 1 && InOrder(c, s, n, order[0]) ==> (o.written == ScPrefix(c, fl) + data <==> HeaderKept(c, data)))
    ensures ViewOf(Run(c, fl, st, evs), common.timestamp) == View(None, false)
  {
    hide Filled, InOrder, FuPackets, HeaderKept, MergedBytes, OutcomeAt, Run, Readable, OnTime, Range, Delivers;
    var own := Project(evs, common.timestamp);
    var m := TrainReturned(c, fl, st, own, data, size, common, s, order);
    RunIsolated(c, fl, st, evs, common.timestamp);
    OutcomesIsolated(c, fl, st, evs, i);
    ProjectPrefix(evs, common.timestamp, i);
  }

  // ----- when the order of arrival matters -----

  const PLAIN := Flags(false, true)
  const EMPTY := State(map[], {}, [])

  function Arrivals(fs: seq<Frame>, order: seq<nat>): seq<Event>
    requires forall i :: 0 <= i < |order| ==> order[i] < |fs|
  {
    seq(|order|, i requires 0 <= i < |order| => Event(fs[order[i]], false))
  }

  // The fragments of a unit of len bytes and as many arrivals, in which a
  // fragment may repeat and another be missing.
  ghost predicate Exchangeable(c: Codec, len: nat, size: nat, order: seq<nat>) {
    && 0 < size && len > size + 3 && |order| == PieceCount(len - NalSize(c), size) <= 0x1_0000
    && forall j :: 0 <= j < |order| ==> order[j] < |order|
  }

  lemma ExchangeReadable(c: Codec, data: seq<u8>, size: nat, common: Header, s: u16, order: seq<nat>)
    requires Exchangeable(c, |data|, size, order)
    ensures Fragmented(data, size) && FragmentCount(c, data, size) == |order| >= 2
    ensures |FuPackets(c, data, size, common, s)| == |order|
    ensures AllReadable(c, Arrivals(FuPackets(c, data, size, common, s), order))
  {
    hide FuPackets, Bodies, NalHeader, NalType, Step, StepFragment;
    PiecesCounted(data[NalSize(c)..], size);
    AtLeastTwo(c, data, size);
    PacketsAreTrain(c, data, size, common, s);
    var fs := FuPackets(c, data, size, common, s);
    forall j | 0 <= j < |order|
      ensures Readable(c, fs[order[j]])
    {
      TrainStep(c, PLAIN, EMPTY, fs, s, common.timestamp, order[j], false);
    }
  }

  lemma ExchangeCarries(c: Codec, data: seq<u8>, size: nat, common: Header, s: u16, order: seq<nat>)
    requires Exchangeable(c, |data|, size, order) && Distinct(order)
    ensures |FuPackets(c, data, size, common, s)| == |order| >= 2
    ensures Carries(c, PLAIN, Arrivals(FuPackets(c, data, size, common, s), order), data, size, common, s, order)
  {
    hide FuPackets, Readable, DropsLate;
    ExchangeReadable(c, data, size, common, s, order);
    NeverLate(c, Arrivals(FuPackets(c, data, size, common, s), order));
  }

  lemma NeverLate(c: Codec, evs: seq<Event>)
    requires forall i :: 0 <= i < |evs| ==> !evs[i].late
    ensures OnTime(c, PLAIN, evs)
  {
    hide NalType;
  }

  // What an empty receiver returns at the last of these arrivals.
  ghost function Exchange(c: Codec, data: seq<u8>, size: nat, common: Header, s: u16, order: seq<nat>): Outcome
    requires Exchangeable(c, |data|, size, order)
  {
    ExchangeReadable(c, data, size, common, s, order);
    OutcomeAt(c, PLAIN, EMPTY, Arrivals(FuPackets(c, data, size, common, s), order), |order| - 1)
  }

  // The unit and nothing else comes back.
  ghost predicate ComesBack(c: Codec, data: seq<u8>, size: nat, common: Header, s: u16, order: seq<nat>)
    requires Exchangeable(c, |data|, size, order)
  {
    var o := Exchange(c, data, size, common, s, order);
    o.Rebuilt? && o.written == data && o.size == |data|
  }

  // A body whose only nonzero byte is the first one.
  function ProbeBody(n: nat): (p: seq<u8>)
    requires n > 0
    ensures |p| == n && p[0] == 1
  {
    [1] + seq(n - 1, i => 0)
  }

  function Probe(c: Codec, len: nat): (p: seq<u8>)
    requires len > 3
    ensures |p| == len
  {
    (if c.H264? then [2] else [2, 1]) + ProbeBody(len - NalSize(c))
  }

  // Out of order, the merged bytes of such a body begin with zero.
  lemma ProbeMerged(c: Codec, fs: seq<Frame>, first: u8, n: nat, size: nat, s: u16, ts: u32, opener: nat, m: map<nat, Frame>)
    requires n > 0 && CarriesUnit(c, fs, first, ProbeBody(n), size, s, ts) && opener < |fs|
    requires Filled(c, fs, s, opener, Range(0, |fs|), m) && !InOrder(c, s, |fs|, opener)
    ensures Ordered(c, m, m.Keys) != [] && Ordered(c, m, m.Keys)[0] == 0
  {
    hide Bodies, NalHeader, NalType, InOrder, Filled, Range, Body, Ordered, Pieces, ProbeBody;
    var l := MergedOutOfOrder(c, fs, s, opener, m);
    ProbePieces(n, size, l);
    BodyIsPiece(c, fs, Pieces(ProbeBody(n), size), l);
  }

  lemma BodyIsPiece(c: Codec, fs: seq<Frame>, ps: seq<seq<u8>>, l: nat)
    requires Bodies(c, fs) == ps && l < |fs|
    ensures l < |ps| && Body(c, fs[l]) == ps[l]
  {
  }

  lemma ProbePieces(n: nat, size: nat, l: nat)
    requires n > 0 && size > 0 && 0 < l < |Pieces(ProbeBody(n), size)|
    ensures Pieces(ProbeBody(n), size)[l] != [] && Pieces(ProbeBody(n), size)[l][0] == 0
  {
    var body := ProbeBody(n);
    assert n > size;
    UniformPieces(body[size..], size, 0);
    assert Pieces(body, size)[l] == Pieces(body[size..], size)[l - 1];
  }

  // Out of order, the probe does not come back.
  lemma ProbeLost(c: Codec, len: nat, size: nat, common: Header, s: u16, order: seq<nat>)
    requires Exchangeable(c, len, size, order) && Distinct(order) && !InOrder(c, s, |order|, order[0])
    ensures var o := Exchange(c, Probe(c, len), size, common, s, order); o.Rebuilt? && o.written != Probe(c, len)
  {
    hide FuPackets, InOrder, Filled, Range, HeaderKept, OutcomeAt, Carries, CarriesUnit, Ordered, HeaderFrom;
    var data := Probe(c, len);
    var fs := FuPackets(c, data, size, common, s);
    ExchangeReadable(c, data, size, common, s, order);
    ExchangeCarries(c, data, size, common, s, order);
    PacketsAreTrain(c, data, size, common, s);
    var m := TrainReturned(c, PLAIN, EMPTY, Arrivals(fs, order), data, size, common, s, order);
    assert data[NalSize(c)..] == ProbeBody(len - NalSize(c)) && data[NalSize(c)] == 1;
    ProbeMerged(c, fs, data[0], len - NalSize(c), size, s, common.timestamp, order[0], m);
    HeaderSized(c, data[0]);
    var header, merged := HeaderFrom(c, data[0]), Ordered(c, m, m.Keys);
    assert (header + merged)[|header|] == 0;
    assert ScPrefix(c, PLAIN) + header + merged == header + merged;
  }

  // ----- repeated fragments -----

  // The i-th packet depends on the unit's header, its length and the i-th piece.
  lemma PacketSame(c: Codec, a: seq<u8>, b: seq<u8>, size: nat, common: Header, s: u16, i: nat)
    requires |a| == |b| > size + 3 && size > 0 && a[..NalSize(c)] == b[..NalSize(c)]
    requires var ps, qs := Pieces(a[NalSize(c)..], size), Pieces(b[NalSize(c)..], size);
             |ps| == |qs| && i < |ps| && ps[i] == qs[i]
    ensures var fs, gs := FuPackets(c, a, size, common, s), FuPackets(c, b, size, common, s);
            i < |fs| == |gs| && fs[i] == gs[i]
  {
    hide Pieces;
    assert a[..NalSize(c)][0] == b[..NalSize(c)][0];
  }

  // With fragment l missing, two units that differ in its piece alone give the
  // same arrivals, so they cannot both come back.
  lemma MissingLost(c: Codec, len: nat, size: nat, common: Header, s: u16, order: seq<nat>, l: nat) returns (data: seq<u8>)
    requires Exchangeable(c, len, size, order) && l < |order| && l !in order
    ensures |data| == len && HeaderKept(c, data) && !ComesBack(c, data, size, common, s, order)
  {
    hide FuPackets, OutcomeAt, Pieces;
    var k := NalSize(c);
    var a := Probe(c, len);
    PiecesCounted(a[k..], size);
    var rest := PieceChanged(a[k..], size, l);
    var b := a[..k] + rest;
    assert b[k..] == rest && b[..k] == a[..k];
    KeptBoth(c, a, b);
    ExchangeReadable(c, a, size, common, s, order);
    ExchangeReadable(c, b, size, common, s, order);
    var fs, gs := FuPackets(c, a, size, common, s), FuPackets(c, b, size, common, s);
    forall j | 0 <= j < |order|
      ensures fs[order[j]] == gs[order[j]]
    {
      PacketSame(c, a, b, size, common, s, order[j]);
    }
    assert Arrivals(fs, order) == Arrivals(gs, order);
    data := if ComesBack(c, a, size, common, s, order) then b else a;
    assert a[k..] != b[k..];
  }

  lemma KeptBoth(c: Codec, a: seq<u8>, b: seq<u8>)
    requires |a| == |b| > 3 && a == Probe(c, |a|) && a[..NalSize(c)] == b[..NalSize(c)]
    ensures HeaderKept(c, a) && HeaderKept(c, b)
  {
    assert forall i :: 0 <= i < NalSize(c) ==> a[i] == a[..NalSize(c)][i] && b[i] == b[..NalSize(c)][i];
  }

  // ----- the exact condition -----

  // For fragments numbered from s and as many arrivals as there are fragments,
  // repetitions allowed, every unit of a given length comes back at the last
  // arrival if and only if no fragment repeats and, for H.265, the arrival that
  // opens the entry is not behind the wrap of the sequence number or, for
  // H.264, no fragment is.
  lemma RoundTripExactly(c: Codec, len: nat, size: nat, common: Header, s: u16, order: seq<nat>)
    requires Exchangeable(c, len, size, order)
    ensures |order| >= 2
    ensures (forall data: seq<u8> | |data| == len && HeaderKept(c, data) :: ComesBack(c, data, size, common, s, order))
            <==> Distinct(order) && InOrder(c, s, |order|, order[0])
  {
    hide InOrder, HeaderKept, ComesBack, Probe;
    ExchangeReadable(c, Probe(c, len), size, common, s, order);
    if !Distinct(order) {
      var l := SomethingMissing(order, |order|);
      var data := MissingLost(c, len, size, common, s, order, l);
    } else if !InOrder(c, s, |order|, order[0]) {
      ProbeNotBack(c, len, size, common, s, order);
    } else {
      forall data: seq<u8> | |data| == len && HeaderKept(c, data)
        ensures ComesBack(c, data, size, common, s, order)
      {
        ExchangeKeeps(c, data, size, common, s, order);
      }
    }
  }

  lemma ProbeNotBack(c: Codec, len: nat, size: nat, common: Header, s: u16, order: seq<nat>)
    requires Exchangeable(c, len, size, order) && Distinct(order) && |order| >= 2 && !InOrder(c, s, |order|, order[0])
    ensures HeaderKept(c, Probe(c, len)) && !ComesBack(c, Probe(c, len), size, common, s, order)
  {
    hide InOrder, Exchange;
    ProbeLost(c, len, size, common, s, order);
  }

  lemma ExchangeKeeps(c: Codec, data: seq<u8>, size: nat, common: Header, s: u16, order: seq<nat>)
    requires Exchangeable(c, |data|, size, order) && Distinct(order) && |order| >= 2
    requires HeaderKept(c, data) && InOrder(c, s, |order|, order[0])
    ensures ComesBack(c, data, size, common, s, order)
  {
    hide FuPackets, InOrder, Filled, HeaderKept, OutcomeAt, CarriesUnit, Ordered, HeaderFrom, Carries, Readable;
    ExchangeReadable(c, data, size, common, s, order);
    ExchangeCarries(c, data, size, common, s, order);
    var m := TrainReturned(c, PLAIN, EMPTY, Arrivals(FuPackets(c, data, size, common, s), order), data, size, common, s, order);
  }
}
