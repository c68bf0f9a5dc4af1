// A NAL unit that fits one packet, from the packetiser through the handler.
module H26xSmallUnit {
  import opened Common
  import opened FrameQueue
  import opened H26xReceiver
  import opened H26xInvariants
  import opened H26xSender
  import opened H26xSameTimestamp

  // The type in the first byte is neither that of an aggregation packet nor
  // that of a fragment.
  predicate Plain(c: Codec, data: seq<u8>)
    requires data != []
  {
    match c
    case H264 => data[0] % 32 !in {24, 28}
    case H265 => data[0] / 2 !in {48, 49}
  }

  // The start code of four bytes in front of a unit, if asked for.
  function Prefixed(c: Codec, fl: Flags, data: seq<u8>): seq<u8> {
    if c == H265 && fl.prependSc then [0, 0, 0, 1] + data else data
  }

  // Pushed alone, the unit goes out as it is, copied or not.
  lemma SentAsItIs(copies: bool, h: MediaHeaders, now: MediaHeaders, common: Header, s: u16, data: seq<u8>)
    ensures MarkLast(Frames(now, Stored(copies, h, common, s, [[Bytes(data)]])))
         == [Frame(common.(seqNo := s, marker := false), data)]
  {
    hide Joined;
    Single(copies, h, common, s, [Bytes(data)]);
    JoinedOne(now, Bytes(data));
  }

  // A unit in one packet comes back at once as its own bytes and leaves table,
  // dropped set and queue as they were, in any state and however late, if and
  // only if its type is a unit's.
  lemma SmallUnitExactly(c: Codec, fl: Flags, st: State, header: Header, data: seq<u8>, late: bool)
    requires |data| > 3
    ensures var f := Frame(header, data);
            && (Plain(c, data) ==> Readable(c, f))
            && (Readable(c, f) ==>
                  (Plain(c, data) <==> Step(c, fl, st, f, late) == (st, Passed(Frame(header, Prefixed(c, fl, data))))))
  {
    hide SplitAp, WellFormedAp, StepFragment, Result;
    assert ScPrefix(c, fl) + data == Prefixed(c, fl, data);
    var f := Frame(header, data);
    if Readable(c, f) && !Plain(c, data) {
      NotPassed(c, fl, st, f, late);
    }
  }

  lemma NotPassed(c: Codec, fl: Flags, st: State, f: Frame, late: bool)
    requires Readable(c, f) && !Plain(c, f.payload)
    ensures !Step(c, fl, st, f, late).1.Passed?
  {
    hide SplitAp, WellFormedAp, StepFragment;
  }

  // In any traffic: the i-th packet, one whole unit, is answered with the
  // unit, and nothing else that happens depends on it.
  lemma SmallUnitReturns(c: Codec, fl: Flags, st: State, before: seq<Event>, e: Event, after: seq<Event>, j: nat)
    requires AllReadable(c, before) && AllReadable(c, after) && |e.frame.payload| > 3 && Plain(c, e.frame.payload)
    ensures Readable(c, e.frame) && AllReadable(c, before + [e] + after) && AllReadable(c, before + after)
    ensures OutcomeAt(c, fl, st, before + [e] + after, |before|)
         == Passed(Frame(e.frame.header, Prefixed(c, fl, e.frame.payload)))
    ensures Run(c, fl, st, before + [e] + after) == Run(c, fl, st, before + after)
    ensures j < |before| ==> OutcomeAt(c, fl, st, before + [e] + after, j) == OutcomeAt(c, fl, st, before + after, j)
    ensures j < |after| ==>
              OutcomeAt(c, fl, st, before + [e] + after, |before| + 1 + j) == OutcomeAt(c, fl, st, before + after, |before| + j)
  {
    hide Step, Readable, Plain, Prefixed, OutcomeAt, Run;
    SmallUnitExactly(c, fl, Run(c, fl, st, before), e.frame.header, e.frame.payload, e.late);
    assert e.frame == Frame(e.frame.header, e.frame.payload);
    var one := [e];
    RunOne(c, fl, Run(c, fl, st, before), e);
    RunAppend(c, fl, st, before, one);
    RunAppend(c, fl, st, before + one, after);
    RunAppend(c, fl, st, before, after);
    OutcomeAppend(c, fl, st, before, one, 0);
    OutcomeKept(c, fl, st, before + one, after, |before|);
    if j < |before| {
      OutcomeKept(c, fl, st, before, one, j);
      OutcomeKept(c, fl, st, before + one, after, j);
      OutcomeKept(c, fl, st, before, after, j);
    }
    if j < |after| {
      OutcomeAppend(c, fl, st, before + one, after, j);
      OutcomeAppend(c, fl, st, before, after, j);
    }
  }

  lemma RunOne(c: Codec, fl: Flags, st: State, e: Event)
    requires Readable(c, e.frame)
    ensures AllReadable(c, [e]) && Run(c, fl, st, [e]) == Step(c, fl, st, e.frame, e.late).0
    ensures OutcomeAt(c, fl, st, [e], 0) == Step(c, fl, st, e.frame, e.late).1
  {
    hide Readable, Step;
    assert [e][..0] == [];
    assert Run(c, fl, st, []) == st;
  }

  lemma OutcomeKept(c: Codec, fl: Flags, st: State, x: seq<Event>, y: seq<Event>, i: nat)
    requires AllReadable(c, x) && AllReadable(c, y) && i < |x|
    ensures AllReadable(c, x + y) && OutcomeAt(c, fl, st, x + y, i) == OutcomeAt(c, fl, st, x, i)
  {
    hide Readable, Step, Run;
    assert (x + y)[..i] == x[..i];
  }

  // ----- what is refused -----

  // A packet is refused, and changes nothing, exactly if it is of the fragment
  // type and has both start and end bit, or belongs to a dropped timestamp.
  lemma RefusedExactly(c: Codec, fl: Flags, st: State, f: Frame, late: bool)
    requires Readable(c, f)
    ensures var p := f.payload;
            var fragment := if c.H264? then p[0] % 32 == 28 else p[0] / 2 == 49;
            var bits, ts := p[if c.H264? then 1 else 2], f.header.timestamp;
            && (Step(c, fl, st, f, late).1 == Refused <==> fragment && (bits >= 192 || (ts in st.dropped && ts !in st.frames)))
            && (Step(c, fl, st, f, late).1 == Refused ==> Step(c, fl, st, f, late).0 == st)
  {
    hide Absorb, Complete, Ordered, NalHeader, SplitAp, WellFormedAp;
  }

  // ----- late fragments -----

  // A fragment that completes nothing ends the wait for its timestamp exactly
  // if it is late and not part of an intra frame, type 19, that is waited for;
  // the timestamp is then dropped. The packet that opens an entry never does.
  lemma LateExactly(c: Codec, fl: Flags, st: State, f: Frame, late: bool)
    requires Readable(c, f) && IsPiece(GetFrag(c, f.payload)) && f.header.timestamp !in st.dropped
    ensures var (next, o), ts := Step(c, fl, st, f, late), f.header.timestamp;
            var nalType := if c.H264? then f.payload[1] % 32 else f.payload[2] % 64;
            && (o.Rebuilt? ==> ts in st.frames && ts !in next.frames && next.dropped == st.dropped)
            && (!o.Rebuilt? ==> o == Held && (ts in next.frames <==> ts !in next.dropped))
            && (!o.Rebuilt? ==> (ts in next.dropped <==> ts in st.frames && late && (nalType != 19 || !fl.intraDelay)))
  {
    hide Absorb, Complete, Ordered, NalHeader;
  }
}
