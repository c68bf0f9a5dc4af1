// The packet handler as the receiver runs it: the frame table, the dropped
// timestamps and the queue of split units are fields updated call by call.
module H26xHandler {
  import opened Common
  import opened H26xReceiver
  import opened H26xInvariants

  method LeastKey(keys: set<nat>) returns (k: nat)
    requires keys != {}
    ensures k == Least(keys) && k in keys
  {
    LeastExists(keys);
    k :| k in keys && forall j :: j in keys ==> k <= j;
    assert IsLeast(k, keys);
  }

  lemma OrderedNext(c: Codec, m: map<nat, Frame>, keys: set<nat>, done: seq<u8>, all: seq<u8>)
    requires keys <= m.Keys && keys != {} && done + Ordered(c, m, keys) == all
    ensures var k := Least(keys);
            && (done + Body(c, m[k])) + Ordered(c, m, keys - {k}) == all
            && |done + Body(c, m[k])| <= |all|
  {
    var k := Least(keys);
    Associative(done, Body(c, m[k]), Ordered(c, m, keys - {k}));
    hide Body, IsLeast;
  }

  lemma Associative(a: seq<u8>, b: seq<u8>, c: seq<u8>)
    ensures a + (b + c) == (a + b) + c
  {
  }

  // Appends the bodies to the first fptr bytes of buf, in ascending key order.
  method CopyBodies(c: Codec, m: map<nat, Frame>, buf: array<u8>, fptr: nat)
    requires fptr + OrderedSize(c, m) <= buf.Length
    modifies buf
    ensures buf[..fptr + OrderedSize(c, m)] == old(buf[..fptr]) + Ordered(c, m, m.Keys)
  {
    hide Body, Least, IsLeast;
    var at := fptr;
    var keys := m.Keys;
    ghost var done: seq<u8> := [];
    while keys != {}
      invariant keys <= m.Keys && at == fptr + |done|
      invariant done + Ordered(c, m, keys) == Ordered(c, m, m.Keys)
      invariant buf[..at] == old(buf[..fptr]) + done
      decreases |keys|
    {
      var k := LeastKey(keys);
      var body := Body(c, m[k]);
      OrderedNext(c, m, keys, done, Ordered(c, m, m.Keys));
      Associative(old(buf[..fptr]), done, body);
      CopyInto(buf, at, body);
      at, keys, done := at + |body|, keys - {k}, done + body;
    }
  }

  lemma SplitNext(p: seq<u8>, i: nat, done: seq<seq<u8>>, all: seq<seq<u8>>)
    requires WellFormedAp(p, i) && i < |p| && done + SplitAp(p, i) == all
    ensures i + 2 <= |p| && var end := i + 2 + Word16(p[i..i + 2]);
            && end <= |p| && WellFormedAp(p, end)
            && (done + [p[i + 2..end]]) + SplitAp(p, end) == all
  {
    var end := i + 2 + Word16(p[i..i + 2]);
    assert done + ([p[i + 2..end]] + SplitAp(p, end)) == (done + [p[i + 2..end]]) + SplitAp(p, end);
  }

  method SplitUnits(p: seq<u8>, start: nat) returns (nalus: seq<seq<u8>>)
    requires WellFormedAp(p, start)
    ensures nalus == SplitAp(p, start)
  {
    hide Word16;
    nalus := [];
    var i := start;
    while i < |p|
      invariant i <= |p| && WellFormedAp(p, i)
      invariant nalus + SplitAp(p, i) == SplitAp(p, start)
      decreases |p| - i
    {
      SplitNext(p, i, nalus, SplitAp(p, start));
      var size := Word16(p[i..i + 2]);
      nalus := nalus + [p[i + 2..i + 2 + size]];
      i := i + size + 2;
    }
  }

  class Handler {
    const codec: Codec
    const flags: Flags
    var frames: map<u32, Info>
    var dropped: set<u32>
    var queued: seq<seq<u8>>

    constructor (c: Codec, fl: Flags)
      ensures codec == c && flags == fl && Now() == State(map[], {}, []) && Valid()
    {
      codec, flags, frames, dropped, queued := c, fl, map[], {}, [];
    }

    ghost function Now(): State
      reads this
    {
      State(frames, dropped, queued)
    }

    // What every reachable state satisfies; a merge relies on it not to write
    // past its buffer.
    ghost predicate Valid()
      reads this
    {
      AllSound(codec, Now())
    }

    // __handle_ap / __handle_stap_a
    method HandleAp(f: Frame)
      requires Readable(codec, f) && GetFrag(codec, f.payload) == Aggregation
      modifies this`queued
      ensures queued == old(queued) + SplitAp(f.payload, NalSize(codec))
    {
      var nalus := SplitUnits(f.payload, NalSize(codec));
      queued := queued + nalus;
    }

    // Merges a complete frame; bytes of the buffer that no fragment fills keep
    // whatever the allocation left there.
    method MergeFrame(info: Info, f: Frame) returns (out: Frame)
      requires Sound(codec, info) && |f.payload| >= HeaderSize(codec)
      ensures Answers(Merge(codec, flags, info, f), PktReady, Some(out))
    {
      hide Ordered;
      var sc, header := ScPrefix(codec, flags), NalHeader(codec, f.payload);
      var buf := new u8[|sc| + NalSize(codec) + info.total];
      CopyInto(buf, 0, sc);
      CopyInto(buf, |sc|, header);
      CopyBodies(codec, info.fragments, buf, |sc| + |header|);
      ghost var written := sc + header + Ordered(codec, info.fragments, info.fragments.Keys);
      assert buf[..|written|] == written;
      out := Frame(f.header, buf[..]);
    }

    // The entry after one more fragment, field by field.
    method StoreFragment(info: Info, f: Frame, t: FragType) returns (r: Info)
      ensures r == Absorb(codec, info, f, t)
    {
      var q: u16 := f.header.seqNo;
      r := info.(pkts := info.pkts + 1, total := info.total + |Body(codec, f)|);
      if t == FragStart {
        r := r.(sSeq := q, fragments := r.fragments[SlotKey(codec, q) := f]);
        var i := 0;
        while i < |r.temporary|
          invariant 0 <= i <= |r.temporary| && r.temporary == info.temporary
          invariant r == Counted(codec, info, f).(sSeq := q,
                           fragments := Place(codec, info.fragments[SlotKey(codec, q) := f], info.temporary[..i], q))
        {
          assert info.temporary[..i + 1][..i] == info.temporary[..i];
          r := r.(fragments := r.fragments[Slot(codec, q, r.temporary[i].header.seqNo) := r.temporary[i]]);
          i := i + 1;
        }
        assert info.temporary[..|info.temporary|] == info.temporary;
        r := r.(temporary := []);
      }
      if t == FragEnd {
        r := r.(eSeq := q);
      }
      if t != FragStart {
        if r.sSeq != INVALID_SEQ {
          r := r.(fragments := r.fragments[Slot(codec, r.sSeq, q) := f]);
        } else {
          r := r.(temporary := r.temporary + [f]);
        }
      }
    }

    // The source's local `intra` is reset by every call, so the branches that
    // compare it with INVALID_TS never run and are not repeated here.
    method PacketHandler(f: Frame, late: bool) returns (code: Code, out: Option<Frame>)
      requires Valid() && Readable(codec, f)
      modifies this
      ensures Valid()
      ensures Now() == Step(codec, flags, old(Now()), f, late).0
      ensures Answers(Step(codec, flags, old(Now()), f, late).1, code, out)
      ensures GetFrag(codec, f.payload) == NotFrag ==>
                code == PktReady && out == Some(Frame(f.header, ScPrefix(codec, flags) + f.payload)) && Now() == old(Now())
      ensures Step(codec, flags, old(Now()), f, late).1.Rebuilt? ==>
                code == PktReady && out.Some? && Step(codec, flags, old(Now()), f, late).1.written <= out.value.payload
    {
      var ts: u32 := f.header.timestamp;
      var t := GetFrag(codec, f.payload);
      StepSound(codec, flags, Now(), f, late);
      if t == Aggregation {
        HandleAp(f);
        return MultiplePktsReady, None;
      }
      if t == NotFrag {
        return PktReady, Some(f.(payload := ScPrefix(codec, flags) + f.payload));
      }
      if t == FragInvalid {
        return GenericError, None;
      }
      code, out := FragmentHandler(f, t, late);
    }

    method FragmentHandler(f: Frame, t: FragType, late: bool) returns (code: Code, out: Option<Frame>)
      requires Valid() && |f.payload| >= HeaderSize(codec) && IsPiece(t)
      modifies this
      ensures var r := StepFragment(codec, old(Now()), f, t, DropsLate(codec, flags, f.payload, late));
              Now() == r.0 && Answers(Result(codec, flags, f, r.1), code, out)
    {
      hide Absorb, NalType, Merge, Sound, Place;
      var ts: u32 := f.header.timestamp;
      if ts !in frames {
        if ts in dropped {
          return GenericError, None;
        }
        frames := frames[ts := Info(if t == FragStart then f.header.seqNo else INVALID_SEQ,
                                    if t == FragEnd then f.header.seqNo else INVALID_SEQ,
                                    1, |Body(codec, f)|, map[SlotKey(codec, f.header.seqNo) := f], [])];
        return Ok, None;
      }
      ghost var before := frames[ts];
      var info := StoreFragment(frames[ts], f, t);
      frames := frames[ts := info];
      assert frames - {ts} == old(frames) - {ts};
      if info.sSeq != INVALID_SEQ && info.eSeq != INVALID_SEQ {
        var received := if info.sSeq > info.eSeq then 0xffff - info.sSeq + info.eSeq + 2 else info.eSeq - info.sSeq + 1;
        if received == info.pkts {
          AbsorbSound(codec, before, f, t);
          var complete := MergeFrame(info, f);
          frames := frames - {ts};
          return PktReady, Some(complete);
        }
      }
      if late {
        if NalType(codec, f.payload) != INTRA || !flags.intraDelay {
          frames := frames - {ts};
          dropped := dropped + {ts};
        }
      }
      return Ok, None;
    }

    // frame_getter: the next unit of a split aggregation packet.
    method FrameGetter() returns (code: Code, nalu: seq<u8>)
      modifies this`queued
      ensures old(queued) == [] ==> code == NotFound && queued == []
      ensures old(queued) != [] ==> code == PktReady && nalu == old(queued)[0] && queued == old(queued)[1..]
    {
      if queued == [] {
        return NotFound, [];
      }
      nalu := queued[0];
      queued := queued[1..];
      return PktReady, nalu;
    }

    // The dispatcher's loop after RTP_MULTIPLE_PKTS_READY: everything queued is
    // returned to the user, first in first out.
    method Drain() returns (returned: seq<seq<u8>>)
      modifies this`queued
      ensures returned == old(queued) && queued == []
    {
      returned := [];
      var code, nalu := FrameGetter();
      while code == PktReady
        invariant code == PktReady ==> returned + [nalu] + queued == old(queued)
        invariant code != PktReady ==> returned == old(queued) && queued == []
        decreases |queued|, code == PktReady
      {
        returned := returned + [nalu];
        code, nalu := FrameGetter();
      }
    }
  }

  // The return code and frame of a call with the given outcome.
  ghost predicate Answers(o: Outcome, code: Code, out: Option<Frame>) {
    match o
    case Held => code == Ok && out == None
    case Passed(f) => code == PktReady && out == Some(f)
    case Refused => code == GenericError && out == None
    case Queued => code == MultiplePktsReady && out == None
    case Rebuilt(header, written, size) =>
      code == PktReady && out.Some? && out.value.header == header && |out.value.payload| == size && written <= out.value.payload
  }
}
