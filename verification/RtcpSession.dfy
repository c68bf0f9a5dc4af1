// The RTCP session: the participant table and the receiver count as packets
// and reports come in, and the reports written from them.
module RtcpSession {
  import opened Common
  import opened RtcpSequence
  import opened RtcpReports
  import opened Bitwise
  import H26xHandler

  function Signed32(x: int): int {
    var y := x % 0x1_0000_0000;
    if y >= 0x8000_0000 then y - 0x1_0000_0000 else y
  }

  // update_session_statistics, jitter apart.
  function Counted(p: Participant, size: nat, jitter: u32): Participant {
    var received := (p.receivedPkts + 1) % 0x1_0000_0000;
    var dropped := Signed32(Expected(p.seqs) - received);
    p.(receivedPkts := received, receivedBytes := (p.receivedBytes + size) % 0x1_0000_0000,
       droppedPkts := if dropped >= 0 then dropped else 0, jitter := jitter)
  }

  function Blank(probation: nat): Participant {
    Participant(Seq(probation, 0, 0, 0, 0), 0, 0, 0, 0, 0)
  }

  // One packet of a source: its number, its size, and the jitter computed for
  // it.
  datatype Arrival = Arrival(sn: u16, size: nat, jitter: u32)

  // The entry of a new source after its first packet.
  function First(sn: u16, size: nat, jitter: u32): Participant {
    Counted(Blank(0).(seqs := NewParticipant(sn)), size, jitter)
  }

  // The entry of a known source after one more: counted only if accepted.
  function Noted(p: Participant, a: Arrival): Participant {
    var (seqs, ok) := UpdateSeq(p.seqs, a.sn);
    var q := p.(seqs := seqs);
    if ok then Counted(q, a.size, a.jitter) else q
  }

  lemma OneBlockEach(m: Participants, delays: nat -> u32)
    ensures |Blocks(m, delays, m.Keys)| == |m|
  {
    BlockCount(m, delays, m.Keys);
    assert |m.Keys| == |m|;
  }

  // Table keys of the given sources.
  function Keys(sources: seq<u32>): set<nat> {
    if sources == [] then {} else Keys(sources[..|sources| - 1]) + {sources[|sources| - 1] as nat}
  }

  lemma KeysNone(m: Participants)
    ensures m - Keys([]) == m
  {
  }

  lemma Without(m: Participants, a: set<nat>, x: nat)
    ensures m - a - {x} == m - (a + {x})
  {
  }

  lemma KeysNext(sources: seq<u32>, i: nat)
    requires i < |sources|
    ensures Keys(sources[..i + 1]) == Keys(sources[..i]) + {sources[i] as nat}
  {
    assert sources[..i + 1][..i] == sources[..i];
  }

  class Rtcp {
    const ssrc: u32
    var participants: Participants
    var numReceivers: nat
    var senders: nat

    constructor (ssrc: u32)
      ensures this.ssrc == ssrc && participants == map[] && numReceivers == 0 && senders == 0 && Valid()
    {
      this.ssrc := ssrc;
      participants, numReceivers, senders := map[], 0, 0;
    }

    // A report has room for every participant.
    ghost predicate Valid()
      reads this
    {
      |participants| <= numReceivers
    }

    // add_participant(ssrc); probation holds whatever the caller's record held.
    method AddParticipant(source: u32, probation: nat)
      requires Valid()
      modifies this`participants, this`numReceivers
      ensures Valid() && numReceivers == old(numReceivers) + 1
      ensures participants == old(participants)[source as nat := Blank(probation)]
    {
      participants := participants[source as nat := Blank(probation)];
      numReceivers := numReceivers + 1;
      assert participants.Keys == old(participants).Keys + {source as nat};
      assert |participants.Keys| <= |old(participants).Keys| + 1;
    }

    // init_new_participant
    method InitNewParticipant(source: u32, sn: u16)
      requires Valid() && source as nat !in participants
      modifies this
      ensures Valid() && senders == old(senders) + 1 && numReceivers == old(numReceivers) + 1
      ensures participants == old(participants)[source as nat := Blank(0).(seqs := NewParticipant(sn))]
    {
      var key: nat := source;
      AddParticipant(source, 0);
      var p := participants[key];
      p := p.(seqs := InitSeq(p.seqs, sn));
      p := p.(seqs := p.seqs.(probation := MIN_SEQUENTIAL));
      SetParticipant(key, p);
      senders := senders + 1;
    }

    method SetParticipant(key: nat, p: Participant)
      requires Valid() && key in participants
      modifies this`participants
      ensures Valid() && participants == old(participants)[key := p]
    {
      participants := participants[key := p];
      assert participants.Keys == old(participants).Keys;
    }

    // recv_packet_handler
    method RecvPacketHandler(source: u32, sn: u16, size: nat, jitter: u32) returns (code: Code)
      requires Valid()
      modifies this
      ensures Valid()
      ensures source as nat !in old(participants) ==>
                && code == PktNotHandled && senders == old(senders) + 1 && numReceivers == old(numReceivers) + 1
                && participants == old(participants)[source as nat := First(sn, size, jitter)]
      ensures source as nat in old(participants) ==>
                var p := old(participants)[source as nat];
                && senders == old(senders) && numReceivers == old(numReceivers)
                && code == (if Accepts(p.seqs, sn) then PktNotHandled else GenericError)
                && participants == old(participants)[source as nat := Noted(p, Arrival(sn, size, jitter))]
    {
      hide UpdateSeq, Counted;
      var key: nat := source;
      if key !in participants {
        InitNewParticipant(source, sn);
      } else {
        var (seqs, ok) := UpdateSeq(participants[key].seqs, sn);
        SetParticipant(key, participants[key].(seqs := seqs));
        if !ok {
          return GenericError;
        }
      }
      SetParticipant(key, Counted(participants[key], size, jitter));
      return PktNotHandled;
    }

    // A Sender or Receiver Report from a source not seen before adds it.
    method NoteReporter(source: u32, probation: nat)
      requires Valid()
      modifies this`participants, this`numReceivers
      ensures Valid() && source as nat in participants
      ensures source as nat in old(participants) ==> participants == old(participants) && numReceivers == old(numReceivers)
      ensures source as nat !in old(participants) ==>
                participants == old(participants)[source as nat := Blank(probation)] && numReceivers == old(numReceivers) + 1
    {
      if source as nat !in participants {
        AddParticipant(source, probation);
      }
    }

    method RemoveParticipant(source: u32)
      requires Valid()
      modifies this`participants
      ensures Valid() && participants == old(participants) - {source as nat}
    {
      var rest := participants - {source as nat};
      SubsetSize(rest.Keys, participants.Keys);
      participants := rest;
    }

    // handle_bye_packet: sources leave the table, the receiver count stays.
    method HandleBye(sources: seq<u32>)
      requires Valid()
      modifies this`participants
      ensures Valid()
      ensures participants == old(participants) - Keys(sources)
    {
      KeysNone(participants);
      hide Keys;
      for i := 0 to |sources|
        invariant Valid() && participants == old(participants) - Keys(sources[..i])
      {
        KeysNext(sources, i);
        Without(old(participants), Keys(sources[..i]), sources[i]);
        RemoveParticipant(sources[i]);
      }
      assert sources[..|sources|] == sources;
    }

    // generate_sender_report and generate_receiver_report up to the socket:
    // they differ in the type and the twenty bytes of sender information.
    method GenerateReport(kind: u8, info: seq<u8>, delays: nat -> u32) returns (code: Code, frame: array<u8>)
      requires Valid() && kind in {SR, RR} && |info| == InfoSize(kind)
      ensures fresh(frame)
      ensures senders == 0 ==> code == NotReady
      ensures senders > 0 ==>
                && |Blocks(participants, delays, participants.Keys)| <= numReceivers
                && code == Ok
                && frame[..] == ReportBytes(kind, numReceivers, ssrc, info, Blocks(participants, delays, participants.Keys))
    {
      hide Head, BlockBytes, BlocksBytes, Blocks, Zeros, Least, IsLeast, BlockOf;
      if senders == 0 {
        frame := new u8[0];
        return NotReady, frame;
      }
      OneBlockEach(participants, delays);
      var size := 8 + |info| + numReceivers * 24;
      frame := new u8[size](_ => 0);
      var head := Head(kind, numReceivers, size, ssrc, info);
      HeadLength(kind, numReceivers, size, ssrc, info);
      WriteAt(frame, 0, head);
      var ptr := WriteBlocks(frame, |head|, participants, delays);
      ZeroTail(frame, ptr);
      assert frame[..] == frame[..ptr] + frame[ptr..];
      code := Ok;
    }
  }

  // The report blocks, in the order in which the table is iterated.
  method WriteBlocks(frame: array<u8>, from: nat, m: Participants, delays: nat -> u32) returns (ptr: nat)
    requires from + BLOCK * |Blocks(m, delays, m.Keys)| <= frame.Length
    requires forall j :: from <= j < frame.Length ==> frame[j] == 0
    modifies frame
    ensures ptr == from + BLOCK * |Blocks(m, delays, m.Keys)|
    ensures frame[..ptr] == old(frame[..from]) + BlocksBytes(Blocks(m, delays, m.Keys))
    ensures forall j :: ptr <= j < frame.Length ==> frame[j] == 0
  {
    hide BlockBytes, Blocks, Least, IsLeast, BlockOf;
    ptr := from;
    var keys := m.Keys;
    ghost var all := Blocks(m, delays, keys);
    ghost var head := frame[..from];
    ghost var done: seq<Block> := [];
    while keys != {}
      invariant keys <= m.Keys && done + Blocks(m, delays, keys) == all
      invariant ptr == from + BLOCK * |done| && |done| <= |all|
      invariant frame[..ptr] == head + BlocksBytes(done)
      invariant forall j :: ptr <= j < frame.Length ==> frame[j] == 0
      decreases |keys|
    {
      var k := H26xHandler.LeastKey(keys);
      NextBlock(m, delays, keys, done, all);
      ptr := WriteBlock(frame, ptr, k, m[k], delays(k));
      keys := keys - {k};
      done := done + [BlockOf(k, m[k], delays(k))];
    }
    NoBlocks(m, delays);
    assert done == all;
  }

  lemma NoBlocks(m: Participants, delays: nat -> u32)
    ensures Blocks(m, delays, {}) == []
  {
  }

  lemma BlocksStep(m: Participants, delays: nat -> u32, keys: set<nat>)
    requires keys <= m.Keys && keys != {}
    ensures var k := Least(keys); k in m && Blocks(m, delays, keys) == [BlockOf(k, m[k], delays(k))] + Blocks(m, delays, keys - {k})
  {
    hide BlockOf;
  }

  lemma OneMore(done: seq<Block>, b: Block)
    ensures BlocksBytes(done + [b]) == BlocksBytes(done) + BlockBytes(b)
  {
    hide BlockBytes;
    assert (done + [b])[..|done + [b]| - 1] == done;
  }

  lemma NextBlock(m: Participants, delays: nat -> u32, keys: set<nat>, done: seq<Block>, all: seq<Block>)
    requires keys <= m.Keys && keys != {} && done + Blocks(m, delays, keys) == all
    ensures var k := Least(keys);
            && k in m && (done + [BlockOf(k, m[k], delays(k))]) + Blocks(m, delays, keys - {k}) == all
            && |done| + 1 <= |all|
            && BlocksBytes(done + [BlockOf(k, m[k], delays(k))]) == BlocksBytes(done) + BlockBytes(BlockOf(k, m[k], delays(k)))
  {
    hide BlockBytes, BlockOf, Blocks, BlocksBytes, Least;
    BlocksStep(m, delays, keys);
    var k := Least(keys);
    var b, rest := BlockOf(k, m[k], delays(k)), Blocks(m, delays, keys - {k});
    assert done + ([b] + rest) == (done + [b]) + rest;
    OneMore(done, b);
  }

  lemma ZeroTail(frame: array<u8>, ptr: nat)
    requires ptr <= frame.Length && forall j :: ptr <= j < frame.Length ==> frame[j] == 0
    ensures frame[ptr..] == Zeros(frame.Length - ptr)
  {
  }

  // Overwrites a stretch of the frame.
  method WriteAt(frame: array<u8>, at: nat, bytes: seq<u8>)
    requires at + |bytes| <= frame.Length
    modifies frame
    ensures frame[..at + |bytes|] == old(frame[..at]) + bytes
    ensures forall j :: at + |bytes| <= j < frame.Length ==> frame[j] == old(frame[j])
  {
    for i := 0 to |bytes|
      invariant frame[..at + i] == old(frame[..at]) + bytes[..i]
      invariant forall j :: at + |bytes| <= j < frame.Length ==> frame[j] == old(frame[j])
    {
      frame[at + i] := bytes[i];
    }
    assert bytes[..|bytes|] == bytes;
  }

  // One report block, field by field; with no Sender Report received the last
  // field is stepped over.
  method WriteBlock(frame: array<u8>, at: nat, source: u32, p: Participant, delay: u32) returns (ptr: nat)
    requires at + BLOCK <= frame.Length && forall j :: at <= j < frame.Length ==> frame[j] == 0
    modifies frame
    ensures ptr == at + BLOCK
    ensures frame[..ptr] == old(frame[..at]) + BlockBytes(BlockOf(source, p, delay))
    ensures forall j :: ptr <= j < frame.Length ==> frame[j] == 0
  {
    hide Be32, LostWord;
    var b := BlockOf(source, p, delay);
    ptr := NextField(frame, at, source);
    ptr := NextField(frame, ptr, LostWord(p));
    ptr := NextField(frame, ptr, p.seqs.maxSeq);
    ptr := NextField(frame, ptr, p.jitter);
    ptr := NextField(frame, ptr, p.lsr);
    if p.lsr != 0 {
      ptr := NextField(frame, ptr, delay);
    } else {
      ZeroField();
      assert frame[..ptr + 4] == frame[..ptr] + [0, 0, 0, 0];
      ptr := ptr + 4;
    }
  }

  lemma ZeroField()
    ensures Be32(0) == [0, 0, 0, 0]
  {
  }

  // SET_NEXT_FIELD_32 of a value in network order.
  method NextField(frame: array<u8>, at: nat, x: u32) returns (ptr: nat)
    requires at + 4 <= frame.Length
    modifies frame
    ensures ptr == at + 4 && frame[..ptr] == old(frame[..at]) + Be32(x)
    ensures forall j :: ptr <= j < frame.Length ==> frame[j] == old(frame[j])
  {
    hide Be32;
    BeLength(x);
    WriteAt(frame, at, Be32(x));
    ptr := at + 4;
  }
}
