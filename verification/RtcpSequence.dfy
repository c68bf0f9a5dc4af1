// Validation of a source's sequence numbers, after appendix A.1 of RFC 3550:
// probation, gaps, wraps, large jumps and re-synchronisation.
module RtcpSequence {
  import opened Common

  const SEQ_MOD := 0x1_0000
  const MIN_SEQUENTIAL: nat := 2
  const MAX_DROPOUT := 3000
  const MAX_MISORDER := 100

  // The sequence fields of a participant; cycles is sixteen bits wide.
  datatype Seq = Seq(probation: nat, maxSeq: u16, baseSeq: u16, badSeq: u16, cycles: u16)

  // init_participant_seq. The cast comes before the addition, so the value
  // meant to match no sequence number is 1.
  function InitSeq(p: Seq, sn: u16): Seq {
    p.(baseSeq := sn, maxSeq := sn, badSeq := SEQ_MOD % SEQ_MOD + 1)
  }

  // A participant after its first packet.
  function NewParticipant(sn: u16): Seq {
    InitSeq(Seq(MIN_SEQUENTIAL, 0, 0, 0, 0), sn)
  }

  function Delta(p: Seq, sn: u16): u16 {
    (sn - p.maxSeq) % SEQ_MOD
  }

  // The branch that counts a cycle.
  predicate WrapFires(p: Seq, sn: u16) {
    p.probation == 0 && Delta(p, sn) < MAX_DROPOUT && sn < p.maxSeq
  }

  // In sequence, in plain integers: nothing follows 0xffff.
  predicate Follows(a: u16, b: u16) {
    b as int == a as int + 1
  }

  // update_participant_seq: the new fields, and whether the packet is accepted.
  function UpdateSeq(p: Seq, sn: u16): (Seq, bool) {
    if p.probation > 0 then
      if Follows(p.maxSeq, sn) then
        var q := p.(probation := p.probation - 1, maxSeq := sn);
        if q.probation == 0 then (InitSeq(q, sn), true) else (q, false)
      else (p.(probation := MIN_SEQUENTIAL - 1, maxSeq := sn), false)
    else if Delta(p, sn) < MAX_DROPOUT then
      (p.(maxSeq := sn, cycles := if sn < p.maxSeq then (p.cycles + SEQ_MOD) % SEQ_MOD else p.cycles), true)
    else if Delta(p, sn) <= SEQ_MOD - MAX_MISORDER then
      if sn == p.badSeq then (InitSeq(p, sn), true)
      else (p.(badSeq := (sn + 1) % SEQ_MOD), false)
    else (p, true)
  }

  // The fields after a list of sequence numbers.
  function AfterAll(p: Seq, sns: seq<u16>): Seq {
    if sns == [] then p else UpdateSeq(AfterAll(p, sns[..|sns| - 1]), sns[|sns| - 1]).0
  }

  // ----- probation -----

  // Two neighbours that are consecutive without a wrap.
  ghost predicate Sequential(sns: seq<u16>) {
    exists i :: 0 < i < |sns| && Follows(sns[i - 1], sns[i])
  }

  // Probation, exactly: a source stays on probation until, from its third
  // packet on, one directly follows the packet before it; 0 after 0xffff does
  // not count as following.
  lemma {:induction false} ProbationExactly(first: u16, sns: seq<u16>)
    requires sns != []
    ensures var p := AfterAll(NewParticipant(first), sns);
            && (p.probation > 0 <==> !Sequential(sns))
            && (p.probation > 0 ==> p.maxSeq == sns[|sns| - 1] && p.probation == 1)
    decreases |sns|
  {
    var init, last := sns[..|sns| - 1], sns[|sns| - 1];
    if init == [] {
      assert AfterAll(NewParticipant(first), init) == NewParticipant(first);
    } else {
      ProbationExactly(first, init);
      if Sequential(init) {
        var i :| 0 < i < |init| && Follows(init[i - 1], init[i]);
        assert Follows(sns[i - 1], sns[i]);
      } else if Follows(sns[|sns| - 2], last) {
        assert Sequential(sns);
      } else {
        forall i | 0 < i < |sns|
          ensures !Follows(sns[i - 1], sns[i])
        {
          if i < |init| {
            assert !Follows(init[i - 1], init[i]);
          }
        }
      }
    }
  }

  // ----- tracking -----

  function Max(a: int, b: int): int {
    if a < b then b else a
  }

  // The highest of the first k arrivals, named by unbounded indices, and start.
  function Highest(start: int, ns: seq<int>, k: nat): int
    requires k <= |ns|
  {
    if k == 0 then start else Max(Highest(start, ns, k - 1), ns[k - 1])
  }

  // Every arrival is less than 100 behind and less than 3000 ahead.
  ghost predicate InWindow(start: int, ns: seq<int>) {
    forall k :: 0 <= k < |ns| ==> InWindowAt(start, ns, k)
  }

  predicate InWindowAt(start: int, ns: seq<int>, k: nat)
    requires k < |ns|
  {
    -MAX_MISORDER < ns[k] - Highest(start, ns, k) < MAX_DROPOUT
  }

  function Wire(ns: seq<int>): (sns: seq<u16>)
    ensures |sns| == |ns|
  {
    seq(|ns|, i requires 0 <= i < |ns| => ns[i] % SEQ_MOD)
  }

  // How often the wrap branch fires.
  function WrapCount(p: Seq, sns: seq<u16>): nat {
    if sns == [] then 0
    else
      var init, last := sns[..|sns| - 1], sns[|sns| - 1];
      WrapCount(p, init) + if WrapFires(AfterAll(p, init), last) then 1 else 0
  }

  predicate Tracks(p: Seq, high: int) {
    p.probation == 0 && p.maxSeq == high % SEQ_MOD
  }

  // One arrival inside the window.
  lemma TrackStep(p: Seq, high: int, n: int)
    requires Tracks(p, high) && -MAX_MISORDER < n - high < MAX_DROPOUT
    ensures var (q, ok) := UpdateSeq(p, n % SEQ_MOD);
            && ok && Tracks(q, Max(high, n)) && q.baseSeq == p.baseSeq && q.badSeq == p.badSeq
            && (if WrapFires(p, n % SEQ_MOD) then 1 else 0) == Max(high, n) / SEQ_MOD - high / SEQ_MOD
  {
    var d := n - high;
    var h := high % SEQ_MOD;
    assert (n % SEQ_MOD - h) % SEQ_MOD == d % SEQ_MOD by {
      ModDifference(n, high);
    }
    if d >= 0 {
      assert d % SEQ_MOD == d;
      Carry(high, d);
    } else {
      assert d % SEQ_MOD == d + SEQ_MOD;
    }
  }

  lemma ModDifference(a: int, b: int)
    ensures (a % SEQ_MOD - b % SEQ_MOD) % SEQ_MOD == (a - b) % SEQ_MOD
  {
  }

  lemma Carry(high: int, d: nat)
    requires d < MAX_DROPOUT
    ensures (high + d) / SEQ_MOD - high / SEQ_MOD == if (high + d) % SEQ_MOD < high % SEQ_MOD then 1 else 0
  {
  }

  // Over a whole run inside the window: every packet is accepted, the highest
  // number is tracked, and the wrap branch fires once for every multiple of
  // 2^16 the highest index crosses.
  lemma {:induction false} TracksRun(p: Seq, start: int, ns: seq<int>)
    requires Tracks(p, start) && InWindow(start, ns)
    ensures var high := Highest(start, ns, |ns|);
            && Tracks(AfterAll(p, Wire(ns)), high)
            && AfterAll(p, Wire(ns)).baseSeq == p.baseSeq && AfterAll(p, Wire(ns)).badSeq == p.badSeq
            && WrapCount(p, Wire(ns)) == high / SEQ_MOD - start / SEQ_MOD
    ensures forall k :: 0 <= k < |ns| ==> UpdateSeq(AfterAll(p, Wire(ns)[..k]), Wire(ns)[k]).1
    decreases |ns|
  {
    hide UpdateSeq, WrapFires;
    if ns != [] {
      var init, last := ns[..|ns| - 1], ns[|ns| - 1];
      HighestPrefix(start, ns, |init|);
      WindowPrefix(start, ns);
      TracksRun(p, start, init);
      assert InWindowAt(start, ns, |init|);
      assert Wire(ns)[..|init|] == Wire(init);
      TrackStep(AfterAll(p, Wire(init)), Highest(start, ns, |init|), last);
      forall k | 0 <= k < |ns|
        ensures UpdateSeq(AfterAll(p, Wire(ns)[..k]), Wire(ns)[k]).1
      {
        if k < |init| {
          assert Wire(ns)[..k] == Wire(init)[..k] && Wire(ns)[k] == Wire(init)[k];
        }
      }
    }
  }

  lemma {:induction false} HighestPrefix(start: int, ns: seq<int>, k: nat)
    requires k <= |ns| - 1
    ensures Highest(start, ns[..|ns| - 1], k) == Highest(start, ns, k)
  {
    if k > 0 {
      HighestPrefix(start, ns, k - 1);
    }
  }

  lemma WindowPrefix(start: int, ns: seq<int>)
    requires ns != [] && InWindow(start, ns)
    ensures InWindow(start, ns[..|ns| - 1])
  {
    var init := ns[..|ns| - 1];
    forall k | 0 <= k < |init|
      ensures InWindowAt(start, init, k)
    {
      assert InWindowAt(start, ns, k);
      HighestPrefix(start, ns, k);
    }
  }

  // ----- large jumps -----

  predicate Far(p: Seq, sn: u16) {
    MAX_DROPOUT <= Delta(p, sn) <= SEQ_MOD - MAX_MISORDER
  }

  // Far: at least 3000 ahead and at least 100 behind.
  lemma FarExactly(p: Seq, sn: u16)
    ensures Far(p, sn) <==> 3000 <= (sn - p.maxSeq) % 0x1_0000 <= 0x1_0000 - 100
  {
  }

  predicate Accepts(p: Seq, sn: u16) {
    UpdateSeq(p, sn).1
  }

  // The number last refused in a run; a far packet taken up makes a new start.
  function LastRefused(p: Seq, sns: seq<u16>): Option<u16> {
    if sns == [] then None
    else
      var init, last := sns[..|sns| - 1], sns[|sns| - 1];
      if !Accepts(AfterAll(p, init), last) then Some(last)
      else if Far(AfterAll(p, init), last) then None
      else LastRefused(p, init)
  }

  function Awaited(refused: Option<u16>): u16 {
    match refused
    case None => 1
    case Some(sn) => (sn + 1) % SEQ_MOD
  }

  // Refusal, exactly, in every run of a valid source: a packet is refused if
  // and only if it is far from the highest number and does not follow the one
  // last refused, or is not 1 if none was.
  lemma {:induction false} RefusedExactly(p: Seq, start: u16, sns: seq<u16>, sn: u16)
    requires p.probation == 0
    ensures var q := AfterAll(InitSeq(p, start), sns);
            && q.probation == 0
            && q.badSeq == Awaited(LastRefused(InitSeq(p, start), sns))
            && (Accepts(q, sn) <==> Far(q, sn) ==> sn == Awaited(LastRefused(InitSeq(p, start), sns)))
    decreases |sns|
  {
    if sns != [] {
      RefusedExactly(p, start, sns[..|sns| - 1], sns[|sns| - 1]);
    }
  }

  function RefusedCount(p: Seq, sns: seq<u16>): nat {
    if sns == [] then 0
    else
      var init, last := sns[..|sns| - 1], sns[|sns| - 1];
      RefusedCount(p, init) + if Accepts(AfterAll(p, init), last) then 0 else 1
  }

  lemma {:induction false} RunsAppend(p: Seq, x: seq<u16>, y: seq<u16>)
    ensures AfterAll(p, x + y) == AfterAll(AfterAll(p, x), y)
    ensures RefusedCount(p, x + y) == RefusedCount(p, x) + RefusedCount(AfterAll(p, x), y)
    decreases |y|
  {
    hide UpdateSeq;
    if y == [] {
      assert x + y == x;
    } else {
      assert (x + y)[..|x + y| - 1] == x + y[..|y| - 1];
      RunsAppend(p, x, y[..|y| - 1]);
    }
  }

  lemma {:induction false} NoneRefused(p: Seq, sns: seq<u16>)
    requires forall k :: 0 <= k < |sns| ==> Accepts(AfterAll(p, sns[..k]), sns[k])
    ensures RefusedCount(p, sns) == 0
    decreases |sns|
  {
    hide Accepts;
    if sns != [] {
      var init := sns[..|sns| - 1];
      forall k | 0 <= k < |init|
        ensures Accepts(AfterAll(p, init[..k]), init[k])
      {
        assert init[..k] == sns[..k] && Accepts(AfterAll(p, sns[..k]), sns[k]);
      }
      NoneRefused(p, init);
      assert Accepts(AfterAll(p, sns[..|init|]), sns[|init|]);
    }
  }

  lemma WindowRefusesNone(p: Seq, start: int, ns: seq<int>)
    requires Tracks(p, start) && InWindow(start, ns)
    ensures RefusedCount(p, Wire(ns)) == 0
  {
    hide UpdateSeq;
    TracksRun(p, start, ns);
    forall k | 0 <= k < |ns|
      ensures Accepts(AfterAll(p, Wire(ns)[..k]), Wire(ns)[k])
    {
    }
    NoneRefused(p, Wire(ns));
  }

  // A source that jumps far is refused once and, if its next packet follows,
  // taken up again there.
  lemma Resynchronises(p: Seq, sn: u16)
    requires p.probation == 0 && Far(p, sn) && Far(p, (sn + 1) % SEQ_MOD) && sn != p.badSeq
    ensures var (q, ok) := UpdateSeq(p, sn);
            var (r, again) := UpdateSeq(q, (sn + 1) % SEQ_MOD);
            && !ok && q.maxSeq == p.maxSeq
            && again && r == InitSeq(q, (sn + 1) % SEQ_MOD) && Tracks(r, sn + 1)
  {
  }

  lemma FarFrom(p: Seq, high: int, n: int)
    requires Tracks(p, high)
    ensures Delta(p, n % SEQ_MOD) == (n - high) % SEQ_MOD
  {
    ModDifference(n, high);
  }

  lemma NextModulo(m: int)
    ensures (m + 1) % SEQ_MOD == (m % SEQ_MOD + 1) % SEQ_MOD
  {
  }

  lemma TwoSteps(p: Seq, a: u16, b: u16)
    ensures AfterAll(p, [a, b]) == UpdateSeq(UpdateSeq(p, a).0, b).0
    ensures RefusedCount(p, [a, b]) == (if Accepts(p, a) then 0 else 1) + (if Accepts(UpdateSeq(p, a).0, b) then 0 else 1)
  {
    hide UpdateSeq;
    assert [a, b][..1] == [a] && [a][..0] == [];
    assert AfterAll(p, [a]) == UpdateSeq(AfterAll(p, []), a).0;
    assert RefusedCount(p, [a]) == RefusedCount(p, []) + if Accepts(AfterAll(p, []), a) then 0 else 1;
  }

  lemma TakenAtOnce(p: Seq)
    requires p.probation == 0 && p.badSeq == 1 && Far(p, 1)
    ensures UpdateSeq(p, 1) == (InitSeq(p, 1), true)
    ensures UpdateSeq(InitSeq(p, 1), 2).1 && Tracks(UpdateSeq(InitSeq(p, 1), 2).0, 2)
  {
  }

  // The jump itself: a is refused, unless it is taken up at once, and the
  // source continues from the number after it.
  lemma JumpStep(p: Seq, a: u16, b: u16)
    requires p.probation == 0 && p.badSeq == 1 && Far(p, a) && Far(p, b) && b == (a + 1) % SEQ_MOD
    ensures RefusedCount(p, [a, b]) == (if a == 1 then 0 else 1)
    ensures Tracks(AfterAll(p, [a, b]), a + 1)
  {
    hide UpdateSeq, Far;
    TwoSteps(p, a, b);
    if a == 1 {
      TakenAtOnce(p);
    } else {
      Resynchronises(p, a);
    }
  }

  lemma JumpFar(p: Seq, high: int, m: int)
    requires Tracks(p, high) && MAX_DROPOUT <= (m - high) % SEQ_MOD < SEQ_MOD - MAX_MISORDER
    ensures Far(p, m % SEQ_MOD) && Far(p, (m + 1) % SEQ_MOD)
    ensures Wire([m, m + 1]) == [m % SEQ_MOD, (m + 1) % SEQ_MOD]
    ensures (m + 1) % SEQ_MOD == (m % SEQ_MOD + 1) % SEQ_MOD
  {
    hide Delta;
    FarFrom(p, high, m);
    FarFrom(p, high, m + 1);
    NextModulo(m);
    NextModulo(m - high);
  }

  // A jump costs one packet: a source that jumps far and goes on from there
  // has exactly the first packet after the jump refused, or none if that is
  // numbered 1, and is tracked from then on.
  lemma JumpCostsOne(p: Seq, start: int, ns: seq<int>, m: int, ms: seq<int>)
    requires p.probation == 0 && InWindow(start, ns) && InWindow(m + 1, ms)
    requires MAX_DROPOUT <= (m - Highest(start, ns, |ns|)) % SEQ_MOD < SEQ_MOD - MAX_MISORDER
    ensures var first, sns := InitSeq(p, start % SEQ_MOD), Wire(ns) + Wire([m, m + 1]) + Wire(ms);
            && RefusedCount(first, sns) == (if m % SEQ_MOD == 1 then 0 else 1)
            && Tracks(AfterAll(first, sns), Highest(m + 1, ms, |ms|))
  {
    hide UpdateSeq, AfterAll, RefusedCount;
    var first := InitSeq(p, start % SEQ_MOD);
    TracksRun(first, start, ns);
    WindowRefusesNone(first, start, ns);
    var before := AfterAll(first, Wire(ns));
    JumpFar(before, Highest(start, ns, |ns|), m);
    JumpStep(before, m % SEQ_MOD, (m + 1) % SEQ_MOD);
    var after := AfterAll(before, Wire([m, m + 1]));
    TracksRun(after, m + 1, ms);
    WindowRefusesNone(after, m + 1, ms);
    RunsAppend(first, Wire(ns), Wire([m, m + 1]));
    RunsAppend(first, Wire(ns) + Wire([m, m + 1]), Wire(ms));
  }

  // The first far jump after a (re)start is taken up at once if it lands on
  // sequence number 1, and only then.
  lemma FirstJumpExactly(p: Seq, start: u16, sn: u16)
    requires p.probation == 0 && Far(InitSeq(p, start), sn)
    ensures UpdateSeq(InitSeq(p, start), sn).1 <==> sn == 1
  {
  }

  // ----- the cycle count -----

  lemma {:induction false} CyclesNeverCount(p: Seq, sns: seq<u16>)
    ensures AfterAll(p, sns).cycles == p.cycles
    decreases |sns|
  {
    if sns != [] {
      CyclesNeverCount(p, sns[..|sns| - 1]);
    }
  }

  // The packets the statistics expect, from the stored cycle count.
  function Expected(p: Seq): int {
    p.cycles + p.maxSeq - p.baseSeq + 1
  }

  // The expectation is right exactly as long as the sequence number has not
  // wrapped since the base.
  lemma ExpectedExactly(p: Seq, base: int, ns: seq<int>)
    requires Tracks(p, base) && p.baseSeq == base % SEQ_MOD && p.cycles == 0 && InWindow(base, ns)
    ensures var high := Highest(base, ns, |ns|);
            Expected(AfterAll(p, Wire(ns))) == high - base + 1 <==> WrapCount(p, Wire(ns)) == 0
  {
    TracksRun(p, base, ns);
    CyclesNeverCount(p, Wire(ns));
  }
}
