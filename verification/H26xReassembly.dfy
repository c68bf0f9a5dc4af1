// Reassembly of one fragmented NAL unit: the table entry after any subset of
// its fragments has arrived in any order, and the bytes merged at the end.
module H26xReassembly {
  import opened Common
  import opened H26xReceiver
  import opened H26xInvariants

  // fs are fragments numbered consecutively from s, modulo 2^16.
  ghost predicate Numbered(fs: seq<Frame>, s: u16) {
    2 <= |fs| <= 0x1_0000 && forall i :: 0 <= i < |fs| ==> fs[i].header.seqNo == (s + i) % 0x1_0000
  }

  function Kind(i: nat, n: nat): FragType {
    if i == 0 then FragStart else if i + 1 == n then FragEnd else FragMiddle
  }

  // The key under which fragment i ends up: the packet that opened the entry
  // keeps its raw number, every other one is corrected for the wrap.
  function KeyOf(c: Codec, s: u16, first: nat, i: nat): nat {
    SlotKey(c, if i == first then (s + i) % 0x1_0000 else s + i)
  }

  function IndexOf(s: u16, k: nat): nat {
    (k - s) % 0x1_0000
  }

  lemma KeyIndex(c: Codec, s: u16, first: nat, i: nat)
    requires i < 0x1_0000
    ensures IndexOf(s, KeyOf(c, s, first, i)) == i
  {
  }

  // The keys the handler computes from sequence numbers are these keys.
  lemma HandlerKeys(c: Codec, s: u16, first: nat, i: nat)
    requires i < 0x1_0000
    ensures i != first ==> Slot(c, s, (s + i) % 0x1_0000) == KeyOf(c, s, first, i)
    ensures i == first ==> SlotKey(c, (s + i) % 0x1_0000) == KeyOf(c, s, first, i)
    ensures i == 0 ==> SlotKey(c, s) == KeyOf(c, s, first, i)
  {
  }

  lemma ReceivedCounts(s: u16, n: nat)
    requires 2 <= n <= 0x1_0000
    ensures Received(s, (s + n - 1) % 0x1_0000) == n
  {
  }

  // m holds exactly the fragments whose indices are in a, at their keys.
  ghost predicate Filled(c: Codec, fs: seq<Frame>, s: u16, first: nat, a: set<nat>, m: map<nat, Frame>) {
    && (forall i :: i in a ==> i < |fs| && KeyOf(c, s, first, i) in m && m[KeyOf(c, s, first, i)] == fs[i])
    && (forall k :: k in m ==> IndexOf(s, k) in a && KeyOf(c, s, first, IndexOf(s, k)) == k)
  }

  lemma FilledInsert(c: Codec, fs: seq<Frame>, s: u16, first: nat, a: set<nat>, m: map<nat, Frame>, i: nat)
    requires Filled(c, fs, s, first, a, m) && i < |fs| <= 0x1_0000
    ensures Filled(c, fs, s, first, a + {i}, m[KeyOf(c, s, first, i) := fs[i]])
  {
    hide KeyOf, IndexOf;
    KeyIndex(c, s, first, i);
    forall j | j in a
      ensures KeyOf(c, s, first, j) == KeyOf(c, s, first, i) ==> j == i
    {
      KeyIndex(c, s, first, j);
    }
  }

  // The fragments with the given indices, in that order.
  ghost predicate Selects(fs: seq<Frame>, xs: seq<nat>, temps: seq<Frame>) {
    |temps| == |xs| && forall j :: 0 <= j < |xs| ==> xs[j] < |fs| && temps[j] == fs[xs[j]]
  }

  lemma {:induction false} PlaceFilled(c: Codec, fs: seq<Frame>, s: u16, first: nat, a: set<nat>, m: map<nat, Frame>,
                                       xs: seq<nat>, temps: seq<Frame>)
    requires Numbered(fs, s) && Filled(c, fs, s, first, a, m) && Selects(fs, xs, temps) && first !in xs
    ensures Filled(c, fs, s, first, a + Elements(xs), Place(c, m, temps, s))
    decreases |xs|
  {
    hide KeyOf, IndexOf, Slot, Filled;
    if xs == [] {
      assert a + Elements(xs) == a;
    } else {
      var n := |xs| - 1;
      var x := xs[n];
      PlaceFilled(c, fs, s, first, a, m, xs[..n], temps[..n]);
      HandlerKeys(c, s, first, x);
      FilledInsert(c, fs, s, first, a + Elements(xs[..n]), Place(c, m, temps[..n], s), x);
      assert Place(c, m, temps, s) == Place(c, m, temps[..n], s)[KeyOf(c, s, first, x) := fs[x]];
      assert xs == xs[..n] + [x];
      assert a + Elements(xs) == a + Elements(xs[..n]) + {x};
    }
  }

  // The entry after the fragments xs have arrived in that order.
  ghost predicate Matches(c: Codec, fs: seq<Frame>, s: u16, xs: seq<nat>, info: Info)
    requires xs != [] && fs != []
  {
    && info.pkts == |xs|
    && info.sSeq == (if 0 in xs then s else INVALID_SEQ)
    && info.eSeq == (if |fs| - 1 in xs then (s + |fs| - 1) % 0x1_0000 else INVALID_SEQ)
    && if 0 in xs then Filled(c, fs, s, xs[0], Elements(xs), info.fragments) && info.temporary == []
       else Filled(c, fs, s, xs[0], {xs[0]}, info.fragments) && Selects(fs, xs[1..], info.temporary)
  }

  lemma OpenMatches(c: Codec, fs: seq<Frame>, s: u16, x: nat)
    requires Numbered(fs, s) && x < |fs|
    ensures Matches(c, fs, s, [x], Open(c, fs[x], Kind(x, |fs|)))
  {
    hide KeyOf, IndexOf, Slot, SlotKey;
    FilledInsert(c, fs, s, x, {}, map[], x);
    HandlerKeys(c, s, x, x);
    assert {} + {x} == Elements([x]) == {x};
    assert map[][KeyOf(c, s, x, x) := fs[x]] == map[KeyOf(c, s, x, x) := fs[x]];
  }

  lemma StartMatches(c: Codec, fs: seq<Frame>, s: u16, xs: seq<nat>, info: Info)
    requires Numbered(fs, s) && xs != [] && 0 !in xs && Distinct(xs)
    requires Matches(c, fs, s, xs, info)
    ensures Matches(c, fs, s, xs + [0], AbsorbStart(c, info, fs[0]))
  {
    hide KeyOf, IndexOf, Slot, SlotKey, Filled, Body, Place;
    var first := xs[0];
    var m := info.fragments[SlotKey(c, s) := fs[0]];
    HandlerKeys(c, s, first, 0);
    FilledInsert(c, fs, s, first, {first}, info.fragments, 0);
    PlaceFilled(c, fs, s, first, {first} + {0}, m, xs[1..], info.temporary);
    assert xs == [first] + xs[1..];
    assert {first} + {0} + Elements(xs[1..]) == Elements(xs + [0]);
  }

  lemma OtherMatches(c: Codec, fs: seq<Frame>, s: u16, xs: seq<nat>, x: nat, info: Info)
    requires Numbered(fs, s) && xs != [] && 0 < x < |fs| && x !in xs
    requires Matches(c, fs, s, xs, info)
    ensures var seen := if x + 1 == |fs| then info.(eSeq := fs[x].header.seqNo) else info;
            Matches(c, fs, s, xs + [x], AbsorbOther(c, seen, fs[x]))
  {
    hide KeyOf, IndexOf, Slot, SlotKey, Filled, Body;
    HandlerKeys(c, s, xs[0], x);
    assert Elements(xs + [x]) == Elements(xs) + {x};
    if 0 in xs {
      FilledInsert(c, fs, s, xs[0], Elements(xs), info.fragments, x);
    } else {
      assert (xs + [x])[1..] == xs[1..] + [x];
    }
  }

  lemma AbsorbMatches(c: Codec, fs: seq<Frame>, s: u16, xs: seq<nat>, x: nat, info: Info)
    requires Numbered(fs, s) && xs != [] && x < |fs| && x !in xs && Distinct(xs)
    requires Matches(c, fs, s, xs, info)
    ensures Matches(c, fs, s, xs + [x], Absorb(c, info, fs[x], Kind(x, |fs|)))
  {
    hide Matches, AbsorbOther, AbsorbStart;
    if x == 0 {
      StartMatches(c, fs, s, xs, info);
    } else {
      OtherMatches(c, fs, s, xs, x, info);
    }
  }

  lemma NumbersDiffer(s: u16, i: nat, j: nat)
    requires i < 0x1_0000 && j < 0x1_0000 && i != j
    ensures (s + i) % 0x1_0000 != (s + j) % 0x1_0000
  {
  }

  lemma MatchesNew(c: Codec, fs: seq<Frame>, s: u16, xs: seq<nat>, x: nat, info: Info)
    requires Numbered(fs, s) && xs != [] && x < |fs| && x !in xs
    requires Matches(c, fs, s, xs, info)
    ensures New(info, fs[x].header.seqNo)
  {
    hide KeyOf, SlotKey, IndexOf;
    forall k | k in info.fragments
      ensures info.fragments[k].header.seqNo != fs[x].header.seqNo
    {
      var i := IndexOf(s, k);
      assert i in xs && info.fragments[k] == fs[i];
      NumbersDiffer(s, i, x);
    }
    forall j | 0 <= j < |info.temporary|
      ensures info.temporary[j].header.seqNo != fs[x].header.seqNo
    {
      assert 0 !in xs && info.temporary[j] == fs[xs[1..][j]] && xs[1..][j] == xs[j + 1];
      NumbersDiffer(s, xs[j + 1], x);
    }
  }

  // The frame counts as complete at the arrival of its last missing fragment,
  // and not before.
  lemma CompleteAtLast(c: Codec, fs: seq<Frame>, s: u16, xs: seq<nat>, info: Info)
    requires Numbered(fs, s) && xs != [] && Distinct(xs) && forall i :: 0 <= i < |xs| ==> xs[i] < |fs|
    requires Matches(c, fs, s, xs, info)
    ensures Complete(info) <==> |xs| == |fs|
  {
    hide Filled;
    ReceivedCounts(s, |fs|);
    if |xs| == |fs| {
      ArrivalOrderCovers(xs, |fs|);
      assert 0 in Elements(xs) && |fs| - 1 in Elements(xs);
    }
  }

  // The entry for the frame after the fragments xs have arrived.
  ghost predicate Progress(c: Codec, fs: seq<Frame>, s: u16, xs: seq<nat>, v: View)
    requires fs != []
  {
    !v.dropped &&
    if xs == [] then v.entry == None
    else v.entry.Some? && Matches(c, fs, s, xs, v.entry.value) && Exact(c, v.entry.value)
  }

  lemma ArrivalProgress(c: Codec, st: State, fs: seq<Frame>, s: u16, xs: seq<nat>, x: nat, drop: bool)
    requires Numbered(fs, s) && Distinct(xs + [x])
    requires x < |fs| && |xs| < |fs| && forall i :: 0 <= i < |xs| ==> xs[i] < |fs|
    requires Progress(c, fs, s, xs, ViewOf(st, fs[x].header.timestamp))
    requires 0 < |xs| < |fs| - 1 ==> !drop
    ensures var r := StepFragment(c, st, fs[x], Kind(x, |fs|), drop);
            if |xs| + 1 < |fs| then r.1 == Keep && Progress(c, fs, s, xs + [x], ViewOf(r.0, fs[x].header.timestamp))
            else r.1.Finish? && Matches(c, fs, s, xs + [x], r.1.info) && Exact(c, r.1.info) &&
                 ViewOf(r.0, fs[x].header.timestamp) == View(None, false)
  {
    hide Exact, Matches, Absorb, Open, Complete;
    if xs == [] {
      OpenMatches(c, fs, s, x);
      OpenExact(c, fs[x], Kind(x, |fs|));
      assert xs + [x] == [x];
    } else {
      var info := st.frames[fs[x].header.timestamp];
      assert (xs + [x])[|xs|] == x;
      forall i | 0 <= i < |xs| ensures xs[i] != x { assert (xs + [x])[i] == xs[i]; }
      forall i, j | 0 <= i < j < |xs| ensures xs[i] != xs[j] { assert (xs + [x])[i] == xs[i] && (xs + [x])[j] == xs[j]; }
      AbsorbMatches(c, fs, s, xs, x, info);
      MatchesNew(c, fs, s, xs, x, info);
      AbsorbExact(c, info, fs[x], Kind(x, |fs|));
      CompleteAtLast(c, fs, s, xs + [x], Absorb(c, info, fs[x], Kind(x, |fs|)));
    }
  }

  // ----- the order in which bodies are merged -----

  function Bodies(c: Codec, fs: seq<Frame>): seq<seq<u8>> {
    seq(|fs|, i requires 0 <= i < |fs| => Body(c, fs[i]))
  }

  // Ascending keys list the fragments in order. For H.264 this takes a run of
  // sequence numbers that does not wrap; for H.265 only the packet that opens
  // the entry must not lie behind the wrap.
  predicate InOrder(c: Codec, s: u16, n: nat, first: nat) {
    if c.H264? then s + n <= 0x1_0000 else s + first < 0x1_0000
  }

  lemma KeysInOrder(c: Codec, s: u16, n: nat, first: nat, i: nat)
    requires InOrder(c, s, n, first) && i < n <= 0x1_0000
    ensures KeyOf(c, s, first, i) == s + i
  {
  }

  ghost predicate Consecutive(fs: seq<Frame>, s: u16, m: map<nat, Frame>) {
    m.Keys == Range(s, s + |fs|) && forall k :: k in m ==> m[k] == fs[k - s]
  }

  lemma FilledAt(c: Codec, fs: seq<Frame>, s: u16, first: nat, m: map<nat, Frame>, k: nat)
    requires Filled(c, fs, s, first, Range(0, |fs|), m) && |fs| <= 0x1_0000 && InOrder(c, s, |fs|, first)
    ensures k in m <==> s <= k < s + |fs|
    ensures k in m ==> m[k] == fs[k - s]
  {
    hide KeyOf, IndexOf, InOrder, Range;
    if k in m {
      KeysInOrder(c, s, |fs|, first, IndexOf(s, k));
    }
    if s <= k < s + |fs| {
      assert k - s in Range(0, |fs|);
      KeysInOrder(c, s, |fs|, first, k - s);
    }
  }

  lemma FilledConsecutive(c: Codec, fs: seq<Frame>, s: u16, first: nat, m: map<nat, Frame>)
    requires Filled(c, fs, s, first, Range(0, |fs|), m) && |fs| <= 0x1_0000 && InOrder(c, s, |fs|, first)
    ensures Consecutive(fs, s, m)
  {
    hide Filled, InOrder;
    forall k: nat
      ensures (k in m <==> s <= k < s + |fs|) && (k in m ==> m[k] == fs[k - s])
    {
      FilledAt(c, fs, s, first, m, k);
    }
  }

  lemma OrderedStep(c: Codec, m: map<nat, Frame>, keys: set<nat>, k: nat)
    requires keys <= m.Keys && IsLeast(k, keys)
    ensures Ordered(c, m, keys) == Body(c, m[k]) + Ordered(c, m, keys - {k})
  {
    hide Body;
  }

  lemma BodiesStep(c: Codec, fs: seq<Frame>, i: nat)
    requires i < |fs|
    ensures Concat(Bodies(c, fs)[i..]) == Body(c, fs[i]) + Concat(Bodies(c, fs)[i + 1..])
  {
    hide Body;
    assert Bodies(c, fs)[i..] == [Body(c, fs[i])] + Bodies(c, fs)[i + 1..];
  }

  lemma OrderedEnd(c: Codec, fs: seq<Frame>, m: map<nat, Frame>)
    ensures |Bodies(c, fs)| == |fs| && Ordered(c, m, {}) == Concat(Bodies(c, fs)[|fs|..])
  {
    hide Body;
  }

  lemma {:induction false} OrderedTail(c: Codec, fs: seq<Frame>, s: u16, m: map<nat, Frame>, i: nat)
    requires i <= |fs| && Consecutive(fs, s, m) && Range(s + i, s + |fs|) <= m.Keys
    ensures Ordered(c, m, Range(s + i, s + |fs|)) == Concat(Bodies(c, fs)[i..])
    decreases |fs| - i
  {
    hide Body, Ordered, Bodies, Concat;
    var keys := Range(s + i, s + |fs|);
    if i == |fs| {
      assert keys == {};
      OrderedEnd(c, fs, m);
    } else {
      OrderedTail(c, fs, s, m, i + 1);
      assert IsLeast(s + i, keys);
      assert keys - {s + i} == Range(s + i + 1, s + |fs|);
      OrderedStep(c, m, keys, s + i);
      BodiesStep(c, fs, i);
    }
  }

  lemma MergedInOrder(c: Codec, fs: seq<Frame>, s: u16, first: nat, m: map<nat, Frame>)
    requires Filled(c, fs, s, first, Range(0, |fs|), m) && |fs| <= 0x1_0000 && InOrder(c, s, |fs|, first)
    ensures Ordered(c, m, m.Keys) == Concat(Bodies(c, fs))
  {
    hide Filled, InOrder, Ordered;
    FilledConsecutive(c, fs, s, first, m);
    OrderedTail(c, fs, s, m, 0);
    assert Bodies(c, fs)[0..] == Bodies(c, fs);
  }

  // Otherwise the merged bytes begin with a fragment other than the first.
  lemma MergedOutOfOrder(c: Codec, fs: seq<Frame>, s: u16, first: nat, m: map<nat, Frame>) returns (l: nat)
    requires Filled(c, fs, s, first, Range(0, |fs|), m) && 2 <= |fs| <= 0x1_0000 && first < |fs|
    requires !InOrder(c, s, |fs|, first)
    ensures 0 < l < |fs| && Body(c, fs[l]) <= Ordered(c, m, m.Keys)
  {
    var i := if c.H264? then |fs| - 1 else first;
    assert i in Range(0, |fs|);
    EarlyKey(c, s, |fs|, first);
    assert KeyOf(c, s, first, i) in m.Keys;
    var k := Least(m.Keys);
    l := IndexOf(s, k);
    HandlerKeys(c, s, first, 0);
  }

  lemma EarlyKey(c: Codec, s: u16, n: nat, first: nat)
    requires 2 <= n <= 0x1_0000 && first < n && !InOrder(c, s, n, first)
    ensures KeyOf(c, s, first, if c.H264? then n - 1 else first) < s
    ensures KeyOf(c, s, first, 0) == s
  {
  }

  // ----- a whole train of fragments -----

  // The fragments of one NAL unit: numbered, of timestamp ts, flagged as
  // start, middle or end by position.
  ghost predicate Train(c: Codec, fs: seq<Frame>, s: u16, ts: u32) {
    && Numbered(fs, s)
    && forall i :: 0 <= i < |fs| ==>
         && fs[i].header.timestamp == ts
         && |fs[i].payload| >= HeaderSize(c)
         && GetFrag(c, fs[i].payload) == Kind(i, |fs|)
  }

  // The events deliver the fragments in the given order.
  ghost predicate Delivers(fs: seq<Frame>, order: seq<nat>, evs: seq<Event>) {
    && ArrivalOrder(order, |fs|) && |evs| == |fs|
    && forall i :: 0 <= i < |evs| ==> evs[i].frame == fs[order[i]]
  }

  // No arrival between the first and the last one gets the frame dropped.
  ghost predicate OnTime(c: Codec, fl: Flags, evs: seq<Event>) {
    forall i :: 0 < i < |evs| - 1 && |evs[i].frame.payload| >= HeaderSize(c)
                ==> !DropsLate(c, fl, evs[i].frame.payload, evs[i].late)
  }

  lemma TrainStep(c: Codec, fl: Flags, st: State, fs: seq<Frame>, s: u16, ts: u32, x: nat, late: bool)
    requires Train(c, fs, s, ts) && x < |fs|
    ensures Readable(c, fs[x])
    ensures var r := StepFragment(c, st, fs[x], Kind(x, |fs|), DropsLate(c, fl, fs[x].payload, late));
            Step(c, fl, st, fs[x], late) == (r.0, Result(c, fl, fs[x], r.1))
  {
    hide StepFragment, Result, GetFrag, DropsLate;
  }

  lemma RunLast(c: Codec, fl: Flags, st: State, evs: seq<Event>, j: nat)
    requires AllReadable(c, evs) && 0 < j <= |evs|
    ensures AllReadable(c, evs[..j]) && AllReadable(c, evs[..j - 1])
    ensures var at, e := Run(c, fl, st, evs[..j - 1]), evs[j - 1];
            && Run(c, fl, st, evs[..j]) == Step(c, fl, at, e.frame, e.late).0
            && OutcomeAt(c, fl, st, evs, j - 1) == Step(c, fl, at, e.frame, e.late).1
  {
    hide Step, Readable;
    assert evs[..j][..j - 1] == evs[..j - 1] && evs[..j][j - 1] == evs[j - 1];
  }

  // The first j events are distinct fragments, and none but the first can get
  // the frame dropped.
  ghost predicate Begins(c: Codec, fl: Flags, fs: seq<Frame>, order: seq<nat>, evs: seq<Event>, j: nat) {
    && j <= |order| && j <= |evs| && Distinct(order[..j])
    && forall i :: 0 <= i < j ==>
         && order[i] < |fs| && evs[i].frame == fs[order[i]]
         && (0 < i && |evs[i].frame.payload| >= HeaderSize(c) ==> !DropsLate(c, fl, evs[i].frame.payload, evs[i].late))
  }

  lemma DeliversBegins(c: Codec, fl: Flags, fs: seq<Frame>, order: seq<nat>, evs: seq<Event>, j: nat)
    requires Delivers(fs, order, evs) && OnTime(c, fl, evs) && j < |fs|
    ensures Begins(c, fl, fs, order, evs, j)
  {
    hide DropsLate;
  }

  lemma {:induction false} TrainProgress(c: Codec, fl: Flags, st: State, fs: seq<Frame>, s: u16, ts: u32,
                                         order: seq<nat>, evs: seq<Event>, j: nat)
    requires Train(c, fs, s, ts) && Begins(c, fl, fs, order, evs, j) && AllReadable(c, evs)
    requires ts !in st.frames && ts !in st.dropped && j < |fs|
    ensures Progress(c, fs, s, order[..j], ViewOf(Run(c, fl, st, evs[..j]), ts))
    ensures forall i :: 0 <= i < j ==> OutcomeAt(c, fl, st, evs, i) == Held
  {
    hide Step, StepFragment, Matches, Exact, DropsLate, Readable, GetFrag, HeaderSize, NalHeader, Body;
    if j > 0 {
      assert order[..j - 1] + [order[j - 1]] == order[..j];
      assert order[..j][..j - 1] == order[..j - 1];
      FewerBegin(c, fl, fs, order, evs, j);
      TrainProgress(c, fl, st, fs, s, ts, order, evs, j - 1);
      var at := Run(c, fl, st, evs[..j - 1]);
      var x, e := order[j - 1], evs[j - 1];
      assert evs[..j][..j - 1] == evs[..j - 1] && evs[..j][j - 1] == e;
      TrainStep(c, fl, at, fs, s, ts, x, e.late);
      ArrivalProgress(c, at, fs, s, order[..j - 1], x, DropsLate(c, fl, e.frame.payload, e.late));
    }
  }

  lemma FewerBegin(c: Codec, fl: Flags, fs: seq<Frame>, order: seq<nat>, evs: seq<Event>, j: nat)
    requires Begins(c, fl, fs, order, evs, j) && j > 0
    ensures Begins(c, fl, fs, order, evs, j - 1)
  {
    hide DropsLate;
    assert forall i :: 0 <= i < j - 1 ==> order[..j - 1][i] == order[..j][i];
  }

  lemma MatchesFull(c: Codec, fs: seq<Frame>, s: u16, order: seq<nat>, info: Info)
    requires 2 <= |fs| && ArrivalOrder(order, |fs|) && Matches(c, fs, s, order, info)
    ensures Filled(c, fs, s, order[0], Range(0, |fs|), info.fragments) && info.temporary == []
  {
    hide Filled;
    ArrivalOrderCovers(order, |fs|);
    assert 0 in Elements(order);
  }

  ghost function MergedBytes(c: Codec, fl: Flags, m: map<nat, Frame>, p: seq<u8>): seq<u8>
    requires |p| >= HeaderSize(c)
  {
    ScPrefix(c, fl) + NalHeader(c, p) + Ordered(c, m, m.Keys)
  }

  lemma MergeExact(c: Codec, fl: Flags, info: Info, f: Frame)
    requires Exact(c, info) && info.temporary == [] && |f.payload| >= HeaderSize(c)
    ensures var written := MergedBytes(c, fl, info.fragments, f.payload);
            Merge(c, fl, info, f) == Rebuilt(f.header, written, |written|)
  {
  }

  // Every arrival but the last is held back; the last one returns the merged
  // frame, and nothing of the frame is left in the table.
  lemma TrainMerged(c: Codec, fl: Flags, st: State, fs: seq<Frame>, s: u16, ts: u32, order: seq<nat>, evs: seq<Event>)
    returns (m: map<nat, Frame>)
    requires Train(c, fs, s, ts) && Delivers(fs, order, evs) && AllReadable(c, evs) && OnTime(c, fl, evs)
    requires ts !in st.frames && ts !in st.dropped
    ensures forall i :: 0 <= i < |fs| - 1 ==> OutcomeAt(c, fl, st, evs, i) == Held
    ensures Filled(c, fs, s, order[0], Range(0, |fs|), m)
    ensures var last := fs[order[|fs| - 1]];
            var written := MergedBytes(c, fl, m, last.payload);
            OutcomeAt(c, fl, st, evs, |fs| - 1) == Rebuilt(last.header, written, |written|)
    ensures ViewOf(Run(c, fl, st, evs), ts) == View(None, false)
  {
    hide Step, StepFragment, DropsLate, Readable, Filled, MergedBytes, Range, Exact, Matches, Merge, OnTime, GetFrag, NalHeader, Body,
      Run, OutcomeAt;
    var n := |fs|;
    RunLast(c, fl, st, evs, n);
    assert evs[..n] == evs;
    DeliversBegins(c, fl, fs, order, evs, n - 1);
    TrainProgress(c, fl, st, fs, s, ts, order, evs, n - 1);
    var at := Run(c, fl, st, evs[..n - 1]);
    var x, e := order[n - 1], evs[n - 1];
    var drop := DropsLate(c, fl, e.frame.payload, e.late);
    assert order[..n - 1] + [x] == order;
    TrainStep(c, fl, at, fs, s, ts, x, e.late);
    ArrivalProgress(c, at, fs, s, order[..n - 1], x, drop);
    var info := StepFragment(c, at, e.frame, Kind(x, n), drop).1.info;
    MatchesFull(c, fs, s, order, info);
    MergeExact(c, fl, info, e.frame);
    m := info.fragments;
  }

  // ----- why duplicates are excluded -----

  ghost predicate Triple(c: Codec, fs: seq<Frame>, s: u16, ts: u32) {
    |fs| == 3 && Train(c, fs, s, ts) && s + 2 < 0x1_0000
  }

  function Twice(fs: seq<Frame>): seq<Event>
    requires |fs| == 3
  {
    [Event(fs[0], false), Event(fs[2], false), Event(fs[2], false)]
  }

  lemma TwoOrdered(c: Codec, f: Frame, g: Frame, j: nat, k: nat)
    requires j < k
    ensures var m := map[j := f, k := g]; Ordered(c, m, m.Keys) == Body(c, f) + Body(c, g)
  {
    hide Body;
    var m := map[j := f, k := g];
    assert m.Keys == {j, k} && m[j] == f && m[k] == g;
    assert IsLeast(j, {j, k}) && {j, k} - {j} == {k};
    assert IsLeast(k, {k}) && {k} - {k} == {};
    assert Ordered(c, m, {}) == [];
    assert Ordered(c, m, {k}) == Body(c, g) + [];
  }

  lemma GapSteps(c: Codec, fs: seq<Frame>, s: u16, ts: u32)
    requires Triple(c, fs, s, ts)
    ensures var first := StepFragment(c, State(map[], {}, []), fs[0], FragStart, false).0;
            var second := StepFragment(c, first, fs[2], FragEnd, false);
            var third := StepFragment(c, second.0, fs[2], FragEnd, false);
            && third.1.Finish?
            && third.1.info.total == |Body(c, fs[0])| + |Body(c, fs[2])| + |Body(c, fs[2])|
            && third.1.info.fragments == map[s as nat := fs[0], (s + 2) as nat := fs[2]]
  {
    hide Body, GetFrag;
    var empty := State(map[], {}, []);
    var k0: nat, k2: nat := s, s + 2;
    assert fs[0].header.seqNo as int == s && fs[2].header.seqNo as int == s + 2;
    var i0 := Info(k0, INVALID_SEQ, 1, |Body(c, fs[0])|, map[k0 := fs[0]], []);
    var first := StepFragment(c, empty, fs[0], FragStart, false).0;
    assert first.frames == map[ts := i0];
    var i1 := Info(k0, k2, 2, |Body(c, fs[0])| + |Body(c, fs[2])|, map[k0 := fs[0], k2 := fs[2]], []);
    var second := StepFragment(c, first, fs[2], FragEnd, false).0;
    assert second.frames[ts] == i1;
    var i2 := Absorb(c, i1, fs[2], FragEnd);
    assert i2.fragments == map[k0 := fs[0], k2 := fs[2]];
  }

  lemma RunOfTwo(c: Codec, fl: Flags, evs: seq<Event>)
    requires |evs| == 3 && AllReadable(c, evs)
    ensures var empty := State(map[], {}, []);
            var first := Step(c, fl, empty, evs[0].frame, evs[0].late).0;
            var second := Step(c, fl, first, evs[1].frame, evs[1].late).0;
            OutcomeAt(c, fl, empty, evs, 2) == Step(c, fl, second, evs[2].frame, evs[2].late).1
  {
    hide Step;
    var empty := State(map[], {}, []);
    assert evs[..2][..1] == evs[..1] && evs[..1][..0] == [];
    assert Run(c, fl, empty, evs[..1]) == Step(c, fl, empty, evs[0].frame, evs[0].late).0;
    assert Run(c, fl, empty, evs[..2]) == Step(c, fl, Run(c, fl, empty, evs[..1]), evs[1].frame, evs[1].late).0;
  }

  // Arrivals are counted, not fragments: the first of three fragments and the
  // last one twice complete the frame without the middle one, and as many
  // bytes as the repeated fragment carries are left unwritten.
  lemma DuplicateLeavesGap(c: Codec, fl: Flags, fs: seq<Frame>, s: u16, ts: u32)
    requires Triple(c, fs, s, ts)
    ensures AllReadable(c, Twice(fs))
    ensures var o := OutcomeAt(c, fl, State(map[], {}, []), Twice(fs), 2);
            && o.Rebuilt?
            && o.written == ScPrefix(c, fl) + NalHeader(c, fs[2].payload) + Body(c, fs[0]) + Body(c, fs[2])
            && o.size == |o.written| + |Body(c, fs[2])|
  {
    hide GetFrag, NalHeader, NalType, Body, Ordered, Step, StepFragment, ScPrefix;
    var evs, empty := Twice(fs), State(map[], {}, []);
    TrainStep(c, fl, empty, fs, s, ts, 0, false);
    var first := Step(c, fl, empty, fs[0], false).0;
    TrainStep(c, fl, first, fs, s, ts, 2, false);
    var second := Step(c, fl, first, fs[2], false).0;
    TrainStep(c, fl, second, fs, s, ts, 2, false);
    RunOfTwo(c, fl, evs);
    GapSteps(c, fs, s, ts);
    TwoOrdered(c, fs[0], fs[2], s, s + 2);
    HeaderLength(c, fs[2].payload);
  }

  lemma HeaderLength(c: Codec, p: seq<u8>)
    requires |p| >= HeaderSize(c)
    ensures |NalHeader(c, p)| == NalSize(c)
  {
  }
}
