// What a report says about a source, from the packets that came in to the
// bytes that the other side reads.
module RtcpStatistics {
  import opened Bitwise
  import opened Common
  import opened RtcpSequence
  import opened RtcpReports
  import opened RtcpSession

  // ----- counting -----

  function NotedAll(p: Participant, arrivals: seq<Arrival>): Participant {
    if arrivals == [] then p else Noted(NotedAll(p, arrivals[..|arrivals| - 1]), arrivals[|arrivals| - 1])
  }

  function Numbers(arrivals: seq<Arrival>): (sns: seq<u16>)
    ensures |sns| == |arrivals|
  {
    seq(|arrivals|, i requires 0 <= i < |arrivals| => arrivals[i].sn)
  }

  // Of the first k arrivals: those accepted, and their sizes.
  function AcceptedCount(s: Seq, arrivals: seq<Arrival>, k: nat): nat
    requires k <= |arrivals|
  {
    if k == 0 then 0
    else AcceptedCount(s, arrivals, k - 1) + if Accepts(AfterAll(s, Numbers(arrivals)[..k - 1]), arrivals[k - 1].sn) then 1 else 0
  }

  function AcceptedSize(s: Seq, arrivals: seq<Arrival>, k: nat): nat
    requires k <= |arrivals|
  {
    if k == 0 then 0
    else
      AcceptedSize(s, arrivals, k - 1)
      + if Accepts(AfterAll(s, Numbers(arrivals)[..k - 1]), arrivals[k - 1].sn) then arrivals[k - 1].size else 0
  }

  lemma NumbersPrefix(arrivals: seq<Arrival>, k: nat)
    requires k <= |arrivals|
    ensures Numbers(arrivals[..k]) == Numbers(arrivals)[..k]
  {
  }

  lemma {:induction false} AcceptedPrefix(s: Seq, arrivals: seq<Arrival>, n: nat, k: nat)
    requires k <= n <= |arrivals|
    ensures AcceptedCount(s, arrivals[..n], k) == AcceptedCount(s, arrivals, k)
    ensures AcceptedSize(s, arrivals[..n], k) == AcceptedSize(s, arrivals, k)
  {
    hide Accepts, AfterAll;
    if k > 0 {
      NumbersPrefix(arrivals, n);
      assert Numbers(arrivals[..n])[..k - 1] == Numbers(arrivals)[..k - 1];
      AcceptedPrefix(s, arrivals, n, k - 1);
    }
  }

  lemma AddModulo(a: nat, b: nat, x: nat)
    ensures ((a + b) % 0x1_0000_0000 + x) % 0x1_0000_0000 == (a + (b + x)) % 0x1_0000_0000
  {
  }

  lemma NotedCounts(p: Participant, a: Arrival)
    ensures var q, ok := Noted(p, a), Accepts(p.seqs, a.sn);
            && q.seqs == UpdateSeq(p.seqs, a.sn).0 && q.lsr == p.lsr
            && q.receivedPkts == (p.receivedPkts + if ok then 1 else 0) % 0x1_0000_0000
            && q.receivedBytes == (p.receivedBytes + if ok then a.size else 0) % 0x1_0000_0000
  {
    hide UpdateSeq, Expected;
  }

  lemma AfterLast(s: Seq, sns: seq<u16>)
    requires sns != []
    ensures AfterAll(s, sns) == UpdateSeq(AfterAll(s, sns[..|sns| - 1]), sns[|sns| - 1]).0
  {
    hide UpdateSeq;
  }

  lemma AcceptedLast(s: Seq, arrivals: seq<Arrival>)
    requires arrivals != []
    ensures var n, init, last := |arrivals|, arrivals[..|arrivals| - 1], arrivals[|arrivals| - 1];
            var ok := Accepts(AfterAll(s, Numbers(init)), last.sn);
            && AcceptedCount(s, arrivals, n) == AcceptedCount(s, init, n - 1) + (if ok then 1 else 0)
            && AcceptedSize(s, arrivals, n) == AcceptedSize(s, init, n - 1) + (if ok then last.size else 0)
  {
    hide Accepts, AfterAll;
    NumbersPrefix(arrivals, |arrivals| - 1);
    AcceptedPrefix(s, arrivals, |arrivals| - 1, |arrivals| - 1);
  }

  // In every run: packets and bytes received are those of the packets accepted,
  // modulo 2^32.
  lemma {:induction false} StatisticsExactly(p: Participant, arrivals: seq<Arrival>)
    ensures var q, n := NotedAll(p, arrivals), |arrivals|;
            && q.seqs == AfterAll(p.seqs, Numbers(arrivals)) && q.lsr == p.lsr
            && q.receivedPkts == (p.receivedPkts + AcceptedCount(p.seqs, arrivals, n)) % 0x1_0000_0000
            && q.receivedBytes == (p.receivedBytes + AcceptedSize(p.seqs, arrivals, n)) % 0x1_0000_0000
    decreases |arrivals|
  {
    hide UpdateSeq, Noted, Accepts, AfterAll, AcceptedCount, AcceptedSize, Numbers, NotedAll;
    var n := |arrivals|;
    if n == 0 {
      NothingYet(p, arrivals);
    } else {
      var init, last := arrivals[..n - 1], arrivals[n - 1];
      StatisticsExactly(p, init);
      AcceptedLast(p.seqs, arrivals);
      NotedLast(p, arrivals);
      var one: nat := if Accepts(AfterAll(p.seqs, Numbers(init)), last.sn) then 1 else 0;
      AddModulo(p.receivedPkts, AcceptedCount(p.seqs, init, n - 1), one);
      AddModulo(p.receivedBytes, AcceptedSize(p.seqs, init, n - 1), if one == 1 then last.size else 0);
    }
  }

  lemma NothingYet(p: Participant, arrivals: seq<Arrival>)
    requires arrivals == []
    ensures NotedAll(p, arrivals) == p && AfterAll(p.seqs, Numbers(arrivals)) == p.seqs
    ensures AcceptedCount(p.seqs, arrivals, 0) == 0 && AcceptedSize(p.seqs, arrivals, 0) == 0
    ensures p.receivedPkts % 0x1_0000_0000 == p.receivedPkts && p.receivedBytes % 0x1_0000_0000 == p.receivedBytes
  {
  }

  lemma NotedLast(p: Participant, arrivals: seq<Arrival>)
    requires arrivals != []
    requires NotedAll(p, arrivals[..|arrivals| - 1]).seqs == AfterAll(p.seqs, Numbers(arrivals[..|arrivals| - 1]))
    ensures var init, last := arrivals[..|arrivals| - 1], arrivals[|arrivals| - 1];
            var before, q, ok := NotedAll(p, init), NotedAll(p, arrivals), Accepts(AfterAll(p.seqs, Numbers(init)), last.sn);
            && q.seqs == AfterAll(p.seqs, Numbers(arrivals)) && q.lsr == before.lsr
            && q.receivedPkts == (before.receivedPkts + if ok then 1 else 0) % 0x1_0000_0000
            && q.receivedBytes == (before.receivedBytes + if ok then last.size else 0) % 0x1_0000_0000
  {
    hide UpdateSeq, Noted, Accepts, AfterAll, NotedAll;
    var n := |arrivals|;
    NumbersPrefix(arrivals, n - 1);
    LastOf(p, arrivals);
    NotedCounts(NotedAll(p, arrivals[..n - 1]), arrivals[n - 1]);
    AfterLast(p.seqs, Numbers(arrivals));
  }

  // The arrivals of a source by their indices.
  function Indexed(ns: seq<int>, sizes: seq<nat>, jitters: seq<u32>): (arrivals: seq<Arrival>)
    requires |ns| == |sizes| == |jitters|
    ensures |arrivals| == |ns|
  {
    seq(|ns|, i requires 0 <= i < |ns| => Arrival(ns[i] % SEQ_MOD, sizes[i], jitters[i]))
  }

  lemma {:induction false} AllAccepted(s: Seq, arrivals: seq<Arrival>, k: nat)
    requires k <= |arrivals|
    requires forall i :: 0 <= i < k ==> Accepts(AfterAll(s, Numbers(arrivals)[..i]), arrivals[i].sn)
    ensures AcceptedCount(s, arrivals, k) == k
  {
    hide Accepts, AfterAll;
    if k > 0 {
      AllAccepted(s, arrivals, k - 1);
    }
  }

  // The loss of a valid source over arrivals inside the window, without a wrap:
  // the number of indices from the base to the highest less the packets
  // counted, those before the base included, and zero if that is negative.
  lemma LossCounted(p: Participant, base: nat, ns: seq<int>, sizes: seq<nat>, jitters: seq<u32>)
    requires Tracks(p.seqs, base) && p.seqs.baseSeq == base % SEQ_MOD && p.seqs.cycles == 0
    requires ns != [] && |ns| == |sizes| == |jitters| && InWindow(base, ns) && p.receivedPkts + |ns| < 0x7fff_0000
    requires Highest(base, ns, |ns|) / SEQ_MOD == base / SEQ_MOD
    ensures var q, high := NotedAll(p, Indexed(ns, sizes, jitters)), Highest(base, ns, |ns|);
            && q.seqs.maxSeq == high % SEQ_MOD && q.receivedPkts == p.receivedPkts + |ns|
            && q.droppedPkts == Max(0, high - base + 1 - (p.receivedPkts + |ns|)) && q.jitter == jitters[|ns| - 1]
  {
    hide UpdateSeq, AcceptedCount, AcceptedSize, Highest, InWindow, NotedAll, AfterAll, Noted, WrapCount, Accepts;
    var arrivals, n := Indexed(ns, sizes, jitters), |ns|;
    var high := Highest(base, ns, n);
    WindowCounted(p, base, ns, sizes, jitters);
    TracksRun(p.seqs, base, ns);
    ExpectedExactly(p.seqs, base, ns);
    var init := arrivals[..n - 1];
    LastOf(p, arrivals);
    LastCounted(NotedAll(p, init), arrivals[n - 1]);
    SameBlock(high, base);
  }

  lemma LastOf(p: Participant, arrivals: seq<Arrival>)
    requires arrivals != []
    ensures NotedAll(p, arrivals) == Noted(NotedAll(p, arrivals[..|arrivals| - 1]), arrivals[|arrivals| - 1])
  {
    hide Noted;
  }

  // Inside the window every packet is counted.
  lemma WindowCounted(p: Participant, base: int, ns: seq<int>, sizes: seq<nat>, jitters: seq<u32>)
    requires Tracks(p.seqs, base) && ns != [] && |ns| == |sizes| == |jitters| && InWindow(base, ns)
    ensures var arrivals, n := Indexed(ns, sizes, jitters), |ns|;
            && NotedAll(p, arrivals).seqs == AfterAll(p.seqs, Wire(ns))
            && NotedAll(p, arrivals).receivedPkts == (p.receivedPkts + n) % 0x1_0000_0000
            && Accepts(NotedAll(p, arrivals[..n - 1]).seqs, arrivals[n - 1].sn)
  {
    hide UpdateSeq, AcceptedCount, AcceptedSize, Highest, InWindow, NotedAll, AfterAll;
    var arrivals, n := Indexed(ns, sizes, jitters), |ns|;
    assert Numbers(arrivals) == Wire(ns);
    TracksRun(p.seqs, base, ns);
    forall i | 0 <= i < n
      ensures Accepts(AfterAll(p.seqs, Numbers(arrivals)[..i]), arrivals[i].sn)
    {
      assert arrivals[i].sn == Wire(ns)[i];
    }
    AllAccepted(p.seqs, arrivals, n);
    StatisticsExactly(p, arrivals);
    StatisticsExactly(p, arrivals[..n - 1]);
    NumbersPrefix(arrivals, n - 1);
  }

  // A source is valid from its third packet on, if its first three follow each
  // other, and the count starts there; but the first was counted already, so
  // the loss reported is one short.
  lemma LossIsOneShort(s: nat, firsts: seq<Arrival>, ns: seq<int>, sizes: seq<nat>, jitters: seq<u32>)
    requires |firsts| == 3 && firsts[0].sn == s && firsts[1].sn == s + 1 && firsts[2].sn == s + 2
    requires ns != [] && |ns| == |sizes| == |jitters| && InWindow(s + 2, ns) && |ns| < 0x7ffe_0000
    requires Highest(s + 2, ns, |ns|) < SEQ_MOD
    ensures var valid := NotedAll(First(firsts[0].sn, firsts[0].size, firsts[0].jitter), firsts[1..]);
            var q, high := NotedAll(valid, Indexed(ns, sizes, jitters)), Highest(s + 2, ns, |ns|);
            && q.receivedPkts == 2 + |ns|
            && q.droppedPkts == Max(0, high - (s + 2) - |ns| - 1)
  {
    hide NotedAll, Highest, InWindow, UpdateSeq, Counted, First, Noted, InitSeq, Indexed;
    var valid := NotedAll(First(firsts[0].sn, firsts[0].size, firsts[0].jitter), firsts[1..]);
    BecomesValid(s, firsts);
    HighestGrows(s + 2, ns, |ns|);
    LossCounted(valid, s + 2, ns, sizes, jitters);
  }

  lemma {:induction false} HighestGrows(start: int, ns: seq<int>, k: nat)
    requires k <= |ns|
    ensures Highest(start, ns, k) >= start
  {
    if k > 0 {
      HighestGrows(start, ns, k - 1);
    }
  }

  lemma BecomesValid(s: nat, firsts: seq<Arrival>)
    requires |firsts| == 3 && firsts[0].sn == s && firsts[1].sn == s + 1 && firsts[2].sn == s + 2
    ensures var valid := NotedAll(First(firsts[0].sn, firsts[0].size, firsts[0].jitter), firsts[1..]);
            && Tracks(valid.seqs, s + 2) && valid.seqs.baseSeq == (s + 2) % SEQ_MOD && valid.seqs.cycles == 0
            && valid.receivedPkts == 2
  {
    hide Noted, First, Tracks;
    var first, rest := First(firsts[0].sn, firsts[0].size, firsts[0].jitter), firsts[1..];
    LastOf(first, rest);
    LastOf(first, rest[..1]);
    assert rest[..1][..0] == [] && rest[..1][0] == firsts[1] && rest[1] == firsts[2];
    assert NotedAll(first, []) == first;
    FirstIs(firsts[0].sn, firsts[0].size, firsts[0].jitter);
    Probation(first, firsts[1]);
    OffProbation(Noted(first, firsts[1]), firsts[2]);
  }

  lemma FirstIs(sn: u16, size: nat, jitter: u32)
    ensures First(sn, size, jitter).seqs == NewParticipant(sn) && First(sn, size, jitter).receivedPkts == 1
  {
  }

  lemma Probation(p: Participant, a: Arrival)
    requires p.seqs.probation == 2 && a.sn as int == p.seqs.maxSeq as int + 1
    ensures Noted(p, a) == p.(seqs := p.seqs.(probation := 1, maxSeq := a.sn))
  {
    hide Counted;
  }

  lemma OffProbation(p: Participant, a: Arrival)
    requires p.seqs.probation == 1 && a.sn as int == p.seqs.maxSeq as int + 1
    ensures var q := Noted(p, a);
            && Tracks(q.seqs, a.sn) && q.seqs.baseSeq == a.sn && q.seqs.cycles == p.seqs.cycles
            && q.receivedPkts == (p.receivedPkts + 1) % 0x1_0000_0000
  {
    hide Counted;
    var seqs := p.seqs.(probation := 0, maxSeq := a.sn, baseSeq := a.sn, badSeq := 1);
    assert UpdateSeq(p.seqs, a.sn) == (seqs, true);
    CountedKeeps(p.(seqs := seqs), a.size, a.jitter);
  }

  lemma CountedKeeps(p: Participant, size: nat, jitter: u32)
    ensures var q := Counted(p, size, jitter);
            q.seqs == p.seqs && q.receivedPkts == (p.receivedPkts + 1) % 0x1_0000_0000
  {
  }

  lemma SameBlock(high: int, base: int)
    requires high / SEQ_MOD == base / SEQ_MOD
    ensures -SEQ_MOD < high - base < SEQ_MOD
  {
  }

  lemma LastCounted(p: Participant, a: Arrival)
    requires Accepts(p.seqs, a.sn)
    ensures var q := Noted(p, a);
            && q.jitter == a.jitter
            && q.droppedPkts == Max(0, Signed32(Expected(q.seqs) - q.receivedPkts))
  {
    hide UpdateSeq;
  }

  // ----- the report -----

  lemma {:induction false} BlockOfNth(m: Participants, delays: nat -> u32, keys: set<nat>, k: nat)
    requires keys <= m.Keys && k in keys
    ensures var below := set j | j in keys && j < k;
            |below| < |Blocks(m, delays, keys)| == |keys| && Blocks(m, delays, keys)[|below|] == BlockOf(k, m[k], delays(k))
    decreases |keys|
  {
    hide BlockOf;
    BlockCount(m, delays, keys);
    var below := set j | j in keys && j < k;
    var l := Least(keys);
    var rest := keys - {l};
    BlockCount(m, delays, rest);
    if k == l {
      assert below == {};
    } else {
      BlockOfNth(m, delays, rest, k);
      var fewer := set j | j in rest && j < k;
      assert below == fewer + {l};
    }
  }

  // What a reader makes of the bytes that generate_report writes for a table.
  ghost function Reported(m: Participants, delays: nat -> u32, kind: u8, count: nat, ssrc: u32, info: seq<u8>): Option<Report>
    requires |m| <= count && kind in {SR, RR} && |info| == InfoSize(kind)
  {
    OneBlockEach(m, delays);
    ReportReadsBack(kind, count, ssrc, info, Blocks(m, delays, m.Keys));
    Read(ReportBytes(kind, count, ssrc, info, Blocks(m, delays, m.Keys)))
  }

  // How many sources have a smaller SSRC.
  ghost function Rank(m: Participants, k: nat): nat {
    |set j | j in m && j < k|
  }

  // What a reader finds in a report about the sources of a table, if the
  // receiver count survives: the i-th block is for the source with the i-th
  // smallest SSRC, with its highest number, jitter and last Sender Report; in
  // the low 24 bits of the loss word its loss, in the top byte the bytes
  // received per packet lost, merged with what the loss exceeds 24 bits by; and
  // the delay exactly if a Sender Report has been received.
  lemma ReportShows(m: Participants, delays: nat -> u32, kind: u8, count: nat, ssrc: u32, info: seq<u8>, k: nat)
    requires |m| <= count && kind in {SR, RR} && |info| == InfoSize(kind) && Survives(kind, count)
    requires k in m && Rank(m, k) < count % 32
    ensures var r, p := Reported(m, delays, kind, count, ssrc, info), m[k];
            && r.Some? && Rank(m, k) < |r.value.blocks|
            && var b, perLoss := r.value.blocks[Rank(m, k)], if p.droppedPkts == 0 then 0 else p.receivedBytes / p.droppedPkts % 0x100;
               && b.ssrc == k && b.lastSeq == p.seqs.maxSeq && b.jitter == p.jitter && b.lsr == p.lsr
               && b.dlsr == (if p.lsr != 0 then delays(k) else 0)
               && b.lost % 0x100_0000 == p.droppedPkts % 0x100_0000
               && b.lost / 0x100_0000 == Or(perLoss, p.droppedPkts / 0x100_0000)
               && (p.droppedPkts < 0x100_0000 ==> b.lost / 0x100_0000 == perLoss)
  {
    hide Reported, Rank, Blocks, Or, BlockOf;
    ReportedAt(m, delays, kind, count, ssrc, info, k);
    BlockSays(k, m[k], delays(k));
  }

  lemma ReportedAt(m: Participants, delays: nat -> u32, kind: u8, count: nat, ssrc: u32, info: seq<u8>, k: nat)
    requires |m| <= count && kind in {SR, RR} && |info| == InfoSize(kind) && Survives(kind, count)
    requires k in m && Rank(m, k) < count % 32
    ensures var r := Reported(m, delays, kind, count, ssrc, info);
            r.Some? && Rank(m, k) < |r.value.blocks| && r.value.blocks[Rank(m, k)] == BlockOf(k, m[k], delays(k))
  {
    hide ReportBytes, Read, Blocks, BlockOf, Survives;
    var bs, keys := Blocks(m, delays, m.Keys), m.Keys;
    OneBlockEach(m, delays);
    BlockOfNth(m, delays, keys, k);
    assert (set j | j in keys && j < k) == (set j | j in m && j < k);
    ReportReadsBack(kind, count, ssrc, info, bs);
  }

  lemma BlockSays(k: u32, p: Participant, delay: u32)
    ensures var b, perLoss := BlockOf(k, p, delay), if p.droppedPkts == 0 then 0 else p.receivedBytes / p.droppedPkts % 0x100;
            && b.ssrc == k && b.lastSeq == p.seqs.maxSeq && b.jitter == p.jitter && b.lsr == p.lsr
            && b.dlsr == (if p.lsr != 0 then delay else 0)
            && b.lost % 0x100_0000 == p.droppedPkts % 0x100_0000
            && b.lost / 0x100_0000 == Or(perLoss, p.droppedPkts / 0x100_0000)
            && (p.droppedPkts < 0x100_0000 ==> b.lost / 0x100_0000 == perLoss)
  {
    hide Or;
    if p.droppedPkts < 0x100_0000 {
      LossExactly(p);
    }
  }

  // From packets to the report: for a source whose packets arrive inside the
  // window the block shows the highest index, modulo 2^16.
  lemma HighestShown(m: Participants, delays: nat -> u32, kind: u8, count: nat, ssrc: u32, info: seq<u8>, k: nat,
                     p: Participant, start: int, ns: seq<int>, sizes: seq<nat>, jitters: seq<u32>)
    requires |m| <= count && kind in {SR, RR} && |info| == InfoSize(kind) && Survives(kind, count)
    requires k in m && Rank(m, k) < count % 32
    requires |ns| == |sizes| == |jitters| && Tracks(p.seqs, start) && InWindow(start, ns)
    requires m[k] == NotedAll(p, Indexed(ns, sizes, jitters))
    ensures var r := Reported(m, delays, kind, count, ssrc, info);
            && r.Some? && Rank(m, k) < |r.value.blocks|
            && r.value.blocks[Rank(m, k)].ssrc == k
            && r.value.blocks[Rank(m, k)].lastSeq == Highest(start, ns, |ns|) % SEQ_MOD
  {
    hide Reported, Rank, NotedAll, UpdateSeq, Or;
    ReportShows(m, delays, kind, count, ssrc, info, k);
    var arrivals := Indexed(ns, sizes, jitters);
    assert Numbers(arrivals) == Wire(ns);
    TracksRun(p.seqs, start, ns);
    StatisticsExactly(p, arrivals);
  }
}
