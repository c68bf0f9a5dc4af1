// The H.264 and H.265 packet handlers: fragments of a NAL unit are collected
// per timestamp and merged once all of them have arrived; aggregation packets
// are split into a queue. The two handlers share one algorithm and differ in
// header sizes, header bits and the width of the fragment map's key.
module H26xReceiver {
  import opened Common

  datatype Codec = H264 | H265

  datatype FragType = FragInvalid | NotFrag | FragStart | FragMiddle | FragEnd | Aggregation

  // prependSc: RCE_H26X_PREPEND_SC; intraDelay: RCE_NO_H26X_INTRA_DELAY is absent.
  datatype Flags = Flags(prependSc: bool, intraDelay: bool)

  const INVALID_SEQ: nat := 0x13371338
  const INTRA := 19
  const START_CODE: seq<u8> := [0, 0, 0, 1]

  // ----- payload headers -----

  function NalSize(c: Codec): nat {
    if c.H264? then 1 else 2
  }

  // NAL header (or FU indicator) plus FU header.
  function HeaderSize(c: Codec): nat {
    NalSize(c) + 1
  }

  function PacketType(c: Codec, p: seq<u8>): nat
    requires |p| >= 1
  {
    if c.H264? then p[0] % 32 else p[0] / 2
  }

  function AggregationType(c: Codec): nat {
    if c.H264? then 24 else 48
  }

  function FragmentType(c: Codec): nat {
    if c.H264? then 28 else 49
  }

  function GetFrag(c: Codec, p: seq<u8>): FragType
    requires |p| >= HeaderSize(c)
  {
    var first := p[NalSize(c)] / 128 % 2 == 1;
    var last := p[NalSize(c)] / 64 % 2 == 1;
    if PacketType(c, p) == AggregationType(c) then Aggregation
    else if PacketType(c, p) != FragmentType(c) then NotFrag
    else if first && last then FragInvalid
    else if first then FragStart
    else if last then FragEnd
    else FragMiddle
  }

  // The NAL unit type carried in the FU header.
  function NalType(c: Codec, p: seq<u8>): nat
    requires |p| >= HeaderSize(c)
  {
    p[NalSize(c)] % (if c.H264? then 32 else 64)
  }

  // The NAL header rebuilt from the packet that completes the frame.
  function NalHeader(c: Codec, p: seq<u8>): seq<u8>
    requires |p| >= HeaderSize(c)
  {
    match c
    case H264 => [p[0] / 32 * 32 + NalType(c, p)]
    case H265 => [p[0] / 128 * 128 + NalType(c, p) * 2 + p[0] % 2, p[1]]
  }

  function Body(c: Codec, f: Frame): seq<u8> {
    if |f.payload| >= HeaderSize(c) then f.payload[HeaderSize(c)..] else []
  }

  // ----- aggregation packets -----

  // Every length field and every NAL unit from offset i on lies inside p.
  predicate WellFormedAp(p: seq<u8>, i: nat)
    decreases |p| - i
  {
    i == |p| || (i + 2 <= |p| && i + 2 + Word16(p[i..i + 2]) <= |p| && WellFormedAp(p, i + 2 + Word16(p[i..i + 2])))
  }

  function SplitAp(p: seq<u8>, i: nat): seq<seq<u8>>
    requires WellFormedAp(p, i)
    decreases |p| - i
  {
    if i >= |p| then []
    else
      var size := Word16(p[i..i + 2]);
      [p[i + 2..i + 2 + size]] + SplitAp(p, i + 2 + size)
  }

  // The reads the handler makes stay inside the payload.
  predicate Readable(c: Codec, f: Frame) {
    |f.payload| >= HeaderSize(c) &&
    (GetFrag(c, f.payload) == Aggregation ==> WellFormedAp(f.payload, NalSize(c)))
  }

  predicate IsPiece(t: FragType) {
    t.FragStart? || t.FragMiddle? || t.FragEnd?
  }

  // ----- state -----

  // sSeq/eSeq: sequence numbers of the start and end fragment, or INVALID_SEQ;
  // fragments: ordered by key; temporary: fragments whose key is not known yet.
  datatype Info = Info(sSeq: nat, eSeq: nat, pkts: nat, total: nat, fragments: map<nat, Frame>, temporary: seq<Frame>)

  datatype State = State(frames: map<u32, Info>, dropped: set<u32>, queued: seq<seq<u8>>)

  // What one call hands back. Rebuilt: a buffer of the given size is returned
  // whose first |written| bytes have been written.
  datatype Outcome =
    | Held
    | Passed(frame: Frame)
    | Refused
    | Queued
    | Rebuilt(header: Header, written: seq<u8>, size: nat)

  // The fragment map of H.264 has 16-bit keys, that of H.265 32-bit ones.
  function SlotKey(c: Codec, k: nat): nat {
    if c.H264? then k % 0x1_0000 else k
  }

  // The key of a fragment once the start fragment's number is known.
  function Slot(c: Codec, start: nat, s: u16): nat {
    SlotKey(c, if start > s then 0x1_0000 + s else s)
  }

  function Place(c: Codec, frags: map<nat, Frame>, temps: seq<Frame>, start: nat): map<nat, Frame>
    decreases |temps|
  {
    if temps == [] then frags
    else
      var last := temps[|temps| - 1];
      Place(c, frags, temps[..|temps| - 1], start)[Slot(c, start, last.header.seqNo) := last]
  }

  function Open(c: Codec, f: Frame, t: FragType): Info {
    Info(if t == FragStart then f.header.seqNo else INVALID_SEQ,
         if t == FragEnd then f.header.seqNo else INVALID_SEQ,
         1, |Body(c, f)|, map[SlotKey(c, f.header.seqNo) := f], [])
  }

  function Counted(c: Codec, info: Info, f: Frame): Info {
    info.(pkts := info.pkts + 1, total := info.total + |Body(c, f)|)
  }

  // The start fragment fixes every key: the packets held back get theirs.
  function AbsorbStart(c: Codec, info: Info, f: Frame): Info {
    var q := f.header.seqNo;
    Counted(c, info, f).(sSeq := q, temporary := [],
                         fragments := Place(c, info.fragments[SlotKey(c, q) := f], info.temporary, q))
  }

  function AbsorbOther(c: Codec, info: Info, f: Frame): Info {
    if info.sSeq != INVALID_SEQ
    then Counted(c, info, f).(fragments := info.fragments[Slot(c, info.sSeq, f.header.seqNo) := f])
    else Counted(c, info, f).(temporary := info.temporary + [f])
  }

  function Absorb(c: Codec, info: Info, f: Frame, t: FragType): Info {
    match t
    case FragStart => AbsorbStart(c, info, f)
    case FragEnd => AbsorbOther(c, info.(eSeq := f.header.seqNo), f)
    case _ => AbsorbOther(c, info, f)
  }

  // Number of fragments between the start and the end fragment, both included.
  function Received(s: nat, e: nat): int {
    if s > e then 0xffff - s + e + 2 else e - s + 1
  }

  predicate Complete(info: Info) {
    info.sSeq != INVALID_SEQ && info.eSeq != INVALID_SEQ && Received(info.sSeq, info.eSeq) == info.pkts
  }

  // Fragment bodies in ascending key order, as iterating the map yields them.
  ghost function Ordered(c: Codec, m: map<nat, Frame>, keys: set<nat>): seq<u8>
    requires keys <= m.Keys
    decreases |keys|
  {
    if keys == {} then []
    else
      var k := Least(keys);
      Body(c, m[k]) + Ordered(c, m, keys - {k})
  }

  function Prefix(fl: Flags): seq<u8> {
    if fl.prependSc then START_CODE else []
  }

  // H.264 frames are never given a start code by the handler.
  function ScPrefix(c: Codec, fl: Flags): seq<u8> {
    if c.H264? then [] else Prefix(fl)
  }

  ghost function Merge(c: Codec, fl: Flags, info: Info, f: Frame): Outcome
    requires |f.payload| >= HeaderSize(c)
  {
    Rebuilt(f.header,
            ScPrefix(c, fl) + NalHeader(c, f.payload) + Ordered(c, info.fragments, info.fragments.Keys),
            |ScPrefix(c, fl)| + NalSize(c) + info.total)
  }

  // A frame past its deadline is dropped unless it is an intra frame and intra
  // delay is enabled.
  predicate DropsLate(c: Codec, fl: Flags, p: seq<u8>, late: bool)
    requires |p| >= HeaderSize(c)
  {
    late && !(NalType(c, p) == INTRA && fl.intraDelay)
  }

  // What a fragment of type t does to the frame table.
  datatype Act = Keep | Reject | Finish(info: Info)

  function StepFragment(c: Codec, st: State, f: Frame, t: FragType, drop: bool): (State, Act) {
    var ts := f.header.timestamp;
    if ts !in st.frames then
      if ts in st.dropped then (st, Reject)
      else (st.(frames := st.frames[ts := Open(c, f, t)]), Keep)
    else
      var info := Absorb(c, st.frames[ts], f, t);
      if Complete(info) then (st.(frames := st.frames - {ts}), Finish(info))
      else if drop then (st.(frames := st.frames - {ts}, dropped := st.dropped + {ts}), Keep)
      else (st.(frames := st.frames[ts := info]), Keep)
  }

  ghost function Result(c: Codec, fl: Flags, f: Frame, a: Act): Outcome
    requires |f.payload| >= HeaderSize(c)
  {
    match a
    case Keep => Held
    case Reject => Refused
    case Finish(info) => Merge(c, fl, info, f)
  }

  // One call of the handler; late: the frame's deadline has passed.
  ghost function Step(c: Codec, fl: Flags, st: State, f: Frame, late: bool): (State, Outcome)
    requires Readable(c, f)
  {
    match GetFrag(c, f.payload)
    case Aggregation => (st.(queued := st.queued + SplitAp(f.payload, NalSize(c))), Queued)
    case NotFrag => (st, Passed(f.(payload := ScPrefix(c, fl) + f.payload)))
    case FragInvalid => (st, Refused)
    case t =>
      var r := StepFragment(c, st, f, t, DropsLate(c, fl, f.payload, late));
      (r.0, Result(c, fl, f, r.1))
  }

  // ----- runs -----

  datatype Event = Event(frame: Frame, late: bool)

  ghost predicate AllReadable(c: Codec, evs: seq<Event>) {
    forall i :: 0 <= i < |evs| ==> Readable(c, evs[i].frame)
  }

  ghost function Run(c: Codec, fl: Flags, st: State, evs: seq<Event>): State
    requires AllReadable(c, evs)
    decreases |evs|
  {
    if evs == [] then st
    else
      var last := evs[|evs| - 1];
      Step(c, fl, Run(c, fl, st, evs[..|evs| - 1]), last.frame, last.late).0
  }

  // What the i-th call of the run returns.
  ghost function OutcomeAt(c: Codec, fl: Flags, st: State, evs: seq<Event>, i: nat): Outcome
    requires AllReadable(c, evs) && i < |evs|
  {
    Step(c, fl, Run(c, fl, st, evs[..i]), evs[i].frame, evs[i].late).1
  }
}
