// RTCP Sender and Receiver Reports (sections 6.4.1 and 6.4.2 of RFC 3550): the
// bytes written for a set of participants, and what is read from them.
module RtcpReports {
  import opened Bitwise
  import opened Common
  import opened RtcpSequence

  // The statistics of a participant that reports draw on.
  datatype Participant = Participant(seqs: Seq, receivedPkts: u32, receivedBytes: u32, droppedPkts: u32, jitter: u32, lsr: u32)

  // A report block; the loss word holds fraction and count together.
  datatype Block = Block(ssrc: u32, lost: u32, lastSeq: u32, jitter: u32, lsr: u32, dlsr: u32)

  const SR: u8 := 200
  const RR: u8 := 201
  const BYE: u8 := 203
  const APP: u8 := 204
  const BLOCK: nat := 24

  // ----- what is reported -----

  // The fraction is bytes received per packet lost, cut to eight bits, and is
  // merged into the top byte of the loss count.
  function LostWord(p: Participant): u32 {
    Or(Fraction(p), p.droppedPkts / 0x100_0000) * 0x100_0000 + p.droppedPkts % 0x100_0000
  }

  function Fraction(p: Participant): u8 {
    if p.droppedPkts == 0 then 0 else p.receivedBytes / p.droppedPkts % 0x100
  }

  // A count below 2^24 reads back as the loss exactly when the fraction is
  // zero; the count alone is always in the low 24 bits.
  lemma LossExactly(p: Participant)
    requires p.droppedPkts < 0x100_0000
    ensures LostWord(p) == p.droppedPkts <==> Fraction(p) == 0
    ensures LostWord(p) % 0x100_0000 == p.droppedPkts && LostWord(p) / 0x100_0000 == Fraction(p)
  {
    hide OrBits, Fraction;
    assert Bits(8) == 0x100;
    OrZero(Fraction(p), 8);
  }

  // The delay is written only if a Sender Report has been received.
  function BlockOf(ssrc: u32, p: Participant, delay: u32): Block {
    Block(ssrc, LostWord(p), p.seqs.maxSeq, p.jitter, p.lsr, if p.lsr != 0 then delay else 0)
  }

  type Participants = m: map<nat, Participant> | forall k :: k in m ==> k < 0x1_0000_0000 witness map[]

  // One block per participant, in ascending order of SSRC.
  ghost function Blocks(m: Participants, delays: nat -> u32, keys: set<nat>): seq<Block>
    requires keys <= m.Keys
    decreases |keys|
  {
    if keys == {} then []
    else
      var k := Least(keys);
      [BlockOf(k, m[k], delays(k))] + Blocks(m, delays, keys - {k})
  }

  lemma {:induction false} BlockCount(m: Participants, delays: nat -> u32, keys: set<nat>)
    requires keys <= m.Keys
    ensures |Blocks(m, delays, keys)| == |keys|
    decreases |keys|
  {
    if keys != {} {
      BlockCount(m, delays, keys - {Least(keys)});
    }
  }

  // ----- bytes -----

  function BlockBytes(b: Block): (r: seq<u8>)
    ensures |r| == BLOCK
  {
    Be32(b.ssrc) + Be32(b.lost) + Be32(b.lastSeq) + Be32(b.jitter) + Be32(b.lsr) + Be32(b.dlsr)
  }

  function BlocksBytes(bs: seq<Block>): (r: seq<u8>)
    ensures |r| == BLOCK * |bs|
  {
    if bs == [] then [] else BlocksBytes(bs[..|bs| - 1]) + BlockBytes(bs[|bs| - 1])
  }

  function Zeros(n: nat): (z: seq<u8>)
    ensures |z| == n
  {
    seq(n, i => 0)
  }

  // Version 2, the receiver count, the packet type, the size, the SSRC and, in
  // a Sender Report, twenty bytes of sender information.
  function Head(kind: u8, count: nat, size: nat, ssrc: u32, info: seq<u8>): (h: seq<u8>)
    ensures |h| == 8 + |info|
  {
    [Or(128, count % 0x100), kind] + Be16(size % 0x1_0000) + Be32(ssrc) + info
  }

  // A report: room for count blocks, the unused ones left zero.
  function ReportBytes(kind: u8, count: nat, ssrc: u32, info: seq<u8>, bs: seq<Block>): seq<u8>
    requires |bs| <= count
  {
    Head(kind, count, 8 + |info| + BLOCK * count, ssrc, info) + BlocksBytes(bs) + Zeros(BLOCK * (count - |bs|))
  }

  // ----- reading -----

  function Field32(m: seq<u8>, i: nat): u32
    requires i + 4 <= |m|
  {
    Word32(m[i..i + 4])
  }

  function BlockAt(m: seq<u8>, i: nat): Block
    requires i + BLOCK <= |m|
  {
    Block(Field32(m, i), Field32(m, i + 4), Field32(m, i + 8), Field32(m, i + 12), Field32(m, i + 16), Field32(m, i + 20))
  }

  datatype Report = Report(kind: u8, count: nat, length: u16, ssrc: u32, info: seq<u8>, blocks: seq<Block>)

  // The checks of handle_incoming_packet.
  predicate Admissible(m: seq<u8>) {
    |m| >= 8 && m[0] / 64 == 2 && m[0] / 32 % 2 == 0 && SR <= m[1] <= BYE
  }

  function InfoSize(kind: u8): nat {
    if kind == SR then 20 else 0
  }

  // What the report handlers read: as many blocks as the header says, all of
  // which must be there.
  function Parse(m: seq<u8>): Report
    requires Admissible(m) && m[1] in {SR, RR}
    requires 8 + InfoSize(m[1]) + BLOCK * (m[0] % 32) <= |m|
  {
    var from := 8 + InfoSize(m[1]);
    Report(m[1], m[0] % 32, Word16(m[2..4]), Field32(m, 4), m[8..from],
           seq(m[0] % 32, i requires 0 <= i < m[0] % 32 => BlockAt(m, from + BLOCK * i)))
  }

  // ----- round trip -----

  lemma FieldOf(a: seq<u8>, x: u32, b: seq<u8>)
    ensures Field32(a + Be32(x) + b, |a|) == x
  {
    hide Be32, Word32;
    var m := a + Be32(x) + b;
    BeLength(x);
    assert m[|a|..|a| + 4] == Be32(x);
    Word32RoundTrip(x);
  }

  lemma BeLength(x: u32)
    ensures |Be32(x)| == 4
  {
  }

  lemma BlockReadsBack(a: seq<u8>, x: Block, b: seq<u8>)
    ensures BlockAt(a + BlockBytes(x) + b, |a|) == x
  {
    hide Be32, Field32;
    var m := a + BlockBytes(x) + b;
    var f0, f1, f2, f3, f4, f5 := Be32(x.ssrc), Be32(x.lost), Be32(x.lastSeq), Be32(x.jitter), Be32(x.lsr), Be32(x.dlsr);
    BeLength(x.ssrc); BeLength(x.lost); BeLength(x.lastSeq); BeLength(x.jitter); BeLength(x.lsr); BeLength(x.dlsr);
    FieldOf(a, x.ssrc, f1 + f2 + f3 + f4 + f5 + b);
    assert m == a + f0 + (f1 + f2 + f3 + f4 + f5 + b);
    FieldOf(a + f0, x.lost, f2 + f3 + f4 + f5 + b);
    assert m == (a + f0) + f1 + (f2 + f3 + f4 + f5 + b);
    FieldOf(a + f0 + f1, x.lastSeq, f3 + f4 + f5 + b);
    assert m == (a + f0 + f1) + f2 + (f3 + f4 + f5 + b);
    FieldOf(a + f0 + f1 + f2, x.jitter, f4 + f5 + b);
    assert m == (a + f0 + f1 + f2) + f3 + (f4 + f5 + b);
    FieldOf(a + f0 + f1 + f2 + f3, x.lsr, f5 + b);
    assert m == (a + f0 + f1 + f2 + f3) + f4 + (f5 + b);
    FieldOf(a + f0 + f1 + f2 + f3 + f4, x.dlsr, b);
    assert m == (a + f0 + f1 + f2 + f3 + f4) + f5 + b;
  }

  lemma {:induction false} BlocksReadBack(a: seq<u8>, bs: seq<Block>, b: seq<u8>, i: nat)
    requires i < |bs|
    ensures BlockAt(a + BlocksBytes(bs) + b, |a| + BLOCK * i) == bs[i]
    decreases |bs|
  {
    hide BlockAt, BlockBytes;
    var init, last := bs[..|bs| - 1], bs[|bs| - 1];
    SizeOfBlock(last);
    if i == |init| {
      BlockReadsBack(a + BlocksBytes(init), last, b);
      assert a + BlocksBytes(bs) + b == (a + BlocksBytes(init)) + BlockBytes(last) + b;
    } else {
      BlocksReadBack(a, init, BlockBytes(last) + b, i);
      assert a + BlocksBytes(bs) + b == a + BlocksBytes(init) + (BlockBytes(last) + b);
    }
  }

  // Six words, in the order of section 6.4.1 of RFC 3550.
  lemma BlockLayout(b: Block)
    ensures var m := BlockBytes(b);
            && Field32(m, 0) == b.ssrc && Field32(m, 4) == b.lost && Field32(m, 8) == b.lastSeq
            && Field32(m, 12) == b.jitter && Field32(m, 16) == b.lsr && Field32(m, 20) == b.dlsr
  {
    hide Be32, Field32;
    var m := BlockBytes(b);
    var f0, f1, f2, f3, f4, f5 := Be32(b.ssrc), Be32(b.lost), Be32(b.lastSeq), Be32(b.jitter), Be32(b.lsr), Be32(b.dlsr);
    BeLength(b.ssrc); BeLength(b.lost); BeLength(b.lastSeq); BeLength(b.jitter); BeLength(b.lsr); BeLength(b.dlsr);
    FieldOf([], b.ssrc, f1 + f2 + f3 + f4 + f5);
    assert m == [] + f0 + (f1 + f2 + f3 + f4 + f5);
    FieldOf(f0, b.lost, f2 + f3 + f4 + f5);
    assert m == f0 + f1 + (f2 + f3 + f4 + f5);
    FieldOf(f0 + f1, b.lastSeq, f3 + f4 + f5);
    assert m == (f0 + f1) + f2 + (f3 + f4 + f5);
    FieldOf(f0 + f1 + f2, b.jitter, f4 + f5);
    assert m == (f0 + f1 + f2) + f3 + (f4 + f5);
    FieldOf(f0 + f1 + f2 + f3, b.lsr, f5);
    assert m == (f0 + f1 + f2 + f3) + f4 + f5;
    FieldOf(f0 + f1 + f2 + f3 + f4, b.dlsr, []);
    assert m == (f0 + f1 + f2 + f3 + f4) + f5 + [];
  }

  lemma SizeOfBlock(b: Block)
    ensures |BlockBytes(b)| == BLOCK
  {
  }

  const EMPTY_BLOCK := Block(0, 0, 0, 0, 0, 0)

  function Padded(bs: seq<Block>, count: nat): (r: seq<Block>)
    requires |bs| <= count
    ensures |r| == count
  {
    bs + seq(count - |bs|, i => EMPTY_BLOCK)
  }

  lemma {:induction false} BlocksAppend(x: seq<Block>, y: seq<Block>)
    ensures BlocksBytes(x + y) == BlocksBytes(x) + BlocksBytes(y)
    decreases |y|
  {
    hide BlockBytes;
    if y == [] {
      assert x + y == x;
    } else {
      var init := y[..|y| - 1];
      BlocksAppend(x, init);
      assert (x + y)[..|x + y| - 1] == x + init;
      assert BlocksBytes(x) + (BlocksBytes(init) + BlockBytes(y[|y| - 1])) == (BlocksBytes(x) + BlocksBytes(init)) + BlockBytes(y[|y| - 1]);
    }
  }

  lemma {:induction false} EmptyBlocksAreZeros(n: nat)
    ensures BlocksBytes(seq(n, i => EMPTY_BLOCK)) == Zeros(BLOCK * n)
  {
    if n > 0 {
      EmptyBlocksAreZeros(n - 1);
      assert seq(n, i => EMPTY_BLOCK)[..n - 1] == seq(n - 1, i => EMPTY_BLOCK);
      assert BlockBytes(EMPTY_BLOCK) == Zeros(BLOCK);
      assert Zeros(BLOCK * (n - 1)) + Zeros(BLOCK) == Zeros(BLOCK * n);
    }
  }

  // The unused room of a report reads as empty blocks.
  lemma PaddedBytes(kind: u8, count: nat, ssrc: u32, info: seq<u8>, bs: seq<Block>)
    requires |bs| <= count
    ensures ReportBytes(kind, count, ssrc, info, bs)
         == Head(kind, count, 8 + |info| + BLOCK * count, ssrc, info) + BlocksBytes(Padded(bs, count))
  {
    hide Head, BlocksBytes;
    var empty := seq(count - |bs|, i => EMPTY_BLOCK);
    BlocksAppend(bs, empty);
    EmptyBlocksAreZeros(count - |bs|);
  }

  lemma HeadByte(count: nat)
    ensures Or(128, count % 0x100) == 128 + count % 128
  {
    hide OrBits;
    assert Bits(7) == 128 && Bits(8) == 256;
    OrTop(count % 0x100, 7);
    LowSeven(count);
  }

  lemma LowSeven(count: nat)
    ensures count % 128 == if count % 0x100 < 128 then count % 0x100 else count % 0x100 - 128
  {
    var q := count / 0x100;
    assert count == 128 * (2 * q) + count % 0x100;
  }

  // Of the first byte, five bits are the count and one is the padding bit.
  lemma HeadBits(count: nat)
    ensures var b := Or(128, count % 0x100);
            && b % 32 == count % 32
            && (b / 64 == 2 && b / 32 % 2 == 0 <==> count % 128 < 32)
  {
    hide Or;
    HeadByte(count);
    var x := count % 128;
    var a, r := x / 32, x % 32;
    Remainder(128 + x, 4 + a, r);
    Remainder(count, 4 * (count / 128) + a, r);
  }

  lemma Remainder(n: nat, k: nat, r: nat)
    requires n == 32 * k + r && r < 32
    ensures n % 32 == r
  {
  }

  // The fixed fields of an RTCP packet read back, whatever follows them, and
  // it is admitted exactly if the receiver count leaves the padding bit and
  // the version alone and it is not an application packet.
  lemma HeadReadsBack(kind: u8, count: nat, size: nat, ssrc: u32, info: seq<u8>, body: seq<u8>)
    requires SR <= kind <= APP
    ensures var m := Head(kind, count, size, ssrc, info) + body;
            && |m| >= 8 && m[0] % 32 == count % 32 && m[1] == kind
            && (Admissible(m) <==> count % 128 < 32 && kind != APP)
            && Word16(m[2..4]) == size % 0x1_0000 && Field32(m, 4) == ssrc && m[8..8 + |info|] == info
  {
    hide Or, Field32, Word16, Be16, Be32;
    var length := size % 0x1_0000;
    HeadBits(count);
    Sizes(length, ssrc);
    var first := [Or(128, count % 0x100), kind];
    var m := Head(kind, count, size, ssrc, info) + body;
    assert m == first + Be16(length) + (Be32(ssrc) + info + body);
    assert m[2..4] == Be16(length);
    Word16RoundTrip(length);
    FieldOf(first + Be16(length), ssrc, info + body);
    assert m == (first + Be16(length)) + Be32(ssrc) + (info + body);
    assert m[8..8 + |info|] == info;
  }

  // send_app_packet
  function AppBytes(subtype: u8, ssrc: u32, name: seq<u8>, payload: seq<u8>): seq<u8>
    requires |name| == 4
  {
    [128 + subtype % 32, APP] + Be16((12 + |payload|) % 0x1_0000) + Be32(ssrc) + name + payload
  }

  // The library refuses its own application packets.
  lemma AppRefused(subtype: u8, ssrc: u32, name: seq<u8>, payload: seq<u8>)
    requires |name| == 4
    ensures !Admissible(AppBytes(subtype, ssrc, name, payload))
  {
  }

  lemma Sizes(size: u16, ssrc: u32)
    ensures |Be16(size)| == 2 && |Be32(ssrc)| == 4
  {
  }

  lemma HeadLength(kind: u8, count: nat, size: nat, ssrc: u32, info: seq<u8>)
    ensures |Head(kind, count, size, ssrc, info)| == 8 + |info|
  {
  }

  lemma PaddedLength(bs: seq<Block>, count: nat)
    requires |bs| <= count
    ensures |Padded(bs, count)| == count && |BlocksBytes(Padded(bs, count))| == BLOCK * count
  {
  }

  // The blocks read when count is what the header's five bits come from.
  function Shown(bs: seq<Block>, count: nat): (r: seq<Block>)
    requires |bs| <= count
    ensures |r| == count % 32
  {
    Padded(bs, count)[..count % 32]
  }

  // What the report handlers make of a packet: nothing of one that is refused,
  // nor of a Receiver Report without blocks.
  function Read(m: seq<u8>): Option<Report>
    requires Admissible(m) && m[1] in {SR, RR} ==> 8 + InfoSize(m[1]) + BLOCK * (m[0] % 32) <= |m|
  {
    if !Admissible(m) || m[1] !in {SR, RR} || (m[1] == RR && m[0] % 32 == 0) then None
    else Some(Parse(m))
  }

  // The blocks of an admitted report: those written, then empty ones for
  // unused room, as many as five bits of the count say.
  lemma BlocksParsed(kind: u8, count: nat, ssrc: u32, info: seq<u8>, bs: seq<Block>)
    requires |bs| <= count && kind in {SR, RR} && |info| == InfoSize(kind) && count % 128 < 32
    ensures var m := ReportBytes(kind, count, ssrc, info, bs);
            && Admissible(m) && m[1] == kind && 8 + InfoSize(kind) + BLOCK * (m[0] % 32) <= |m|
            && Parse(m) == Report(kind, count % 32, |m| % 0x1_0000, ssrc, info, Shown(bs, count))
  {
    hide Head, Admissible, Field32, BlockAt, BlocksBytes, Padded, Word16;
    var m := ReportBytes(kind, count, ssrc, info, bs);
    var size := 8 + |info| + BLOCK * count;
    PaddedBytes(kind, count, ssrc, info, bs);
    PaddedLength(bs, count);
    var head := Head(kind, count, size, ssrc, info);
    HeadLength(kind, count, size, ssrc, info);
    var body := BlocksBytes(Padded(bs, count));
    assert m == head + body;
    HeadReadsBack(kind, count, size, ssrc, info, body);
    forall i | 0 <= i < count % 32
      ensures BlockAt(m, 8 + |info| + BLOCK * i) == Padded(bs, count)[i]
    {
      BlocksReadBack(head, Padded(bs, count), [], i);
      assert m == head + body + [];
    }
    assert Parse(m).blocks == Padded(bs, count)[..count % 32];
  }

  predicate Survives(kind: u8, count: nat) {
    count % 128 < 32 && (kind == RR ==> count % 32 > 0)
  }

  // A report for any number of receivers, as it is read: refused if the count
  // spills into the padding bit or the version, or if a Receiver Report shows
  // no blocks; otherwise its fields and as many blocks as the count shows.
  lemma ReportReadsBack(kind: u8, count: nat, ssrc: u32, info: seq<u8>, bs: seq<Block>)
    requires |bs| <= count && kind in {SR, RR} && |info| == InfoSize(kind)
    ensures var m := ReportBytes(kind, count, ssrc, info, bs);
            && |m| >= 8 && m[1] == kind && 8 + InfoSize(kind) + BLOCK * (m[0] % 32) <= |m|
            && Read(m) == if Survives(kind, count)
                          then Some(Report(kind, count % 32, |m| % 0x1_0000, ssrc, info, Shown(bs, count)))
                          else None
  {
    hide Head, Admissible, Parse, BlocksBytes, Padded, Word16;
    var size := 8 + |info| + BLOCK * count;
    HeadLength(kind, count, size, ssrc, info);
    PaddedBytes(kind, count, ssrc, info, bs);
    PaddedLength(bs, count);
    HeadReadsBack(kind, count, size, ssrc, info, BlocksBytes(Padded(bs, count)));
    if count % 128 < 32 {
      BlocksParsed(kind, count, ssrc, info, bs);
    }
  }

  // For every count of receivers: the reader gets exactly the blocks written if
  // and only if the report survives and the participants are as many as the
  // five count bits say.
  lemma BlocksExactly(kind: u8, count: nat, ssrc: u32, info: seq<u8>, bs: seq<Block>)
    requires |bs| <= count && kind in {SR, RR} && |info| == InfoSize(kind)
    ensures var m := ReportBytes(kind, count, ssrc, info, bs);
            && |m| >= 8 && m[1] == kind && 8 + InfoSize(kind) + BLOCK * (m[0] % 32) <= |m|
            && (Read(m).Some? && Read(m).value.blocks == bs <==> Survives(kind, count) && |bs| == count % 32)
  {
    hide ReportBytes, Parse, Read;
    ReportReadsBack(kind, count, ssrc, info, bs);
    PaddedLength(bs, count);
    if |bs| == count % 32 {
      assert Padded(bs, count)[..|bs|] == bs;
    }
  }

  // The count survives its five bits exactly up to 31 receivers.
  lemma CountExactly(count: nat)
    ensures Or(128, count % 0x100) % 32 == count <==> count <= 31
  {
    hide Or;
    HeadBits(count);
  }

  // ----- the reader as implemented -----

  // handle_incoming_packet down to the two report handlers, for a packet that
  // holds the blocks its header announces.
  method ReadReport(m: seq<u8>) returns (code: Code, report: Option<Report>)
    requires Admissible(m) && m[1] in {SR, RR} ==> 8 + InfoSize(m[1]) + BLOCK * (m[0] % 32) <= |m|
    ensures report == Read(m) && code == if Read(m).Some? then Ok else InvalidValue
  {
    hide BlockAt, Word16, Word32;
    if !Admissible(m) || (m[1] != SR && m[1] != RR) {
      return InvalidValue, None;
    }
    var count: nat := m[0] % 32;
    if m[1] == RR && count == 0 {
      return InvalidValue, None;
    }
    var from := 8 + InfoSize(m[1]);
    var blocks: seq<Block> := [];
    for i := 0 to count
      invariant blocks == Parse(m).blocks[..i]
    {
      blocks := blocks + [BlockAt(m, from + BLOCK * i)];
    }
    assert blocks == Parse(m).blocks;
    return Ok, Some(Report(m[1], count, Word16(m[2..4]), Field32(m, 4), m[8..from], blocks));
  }
}
