// What every run of the H.26x handler keeps: bookkeeping of one frame, safety
// of the merge buffer, dropped timestamps, and independence of timestamps.
module H26xInvariants {
  import opened Common
  import opened H26xReceiver

  ghost function BodySum(c: Codec, fs: seq<Frame>): nat {
    if fs == [] then 0 else BodySum(c, fs[..|fs| - 1]) + |Body(c, fs[|fs| - 1])|
  }

  ghost function OrderedSize(c: Codec, m: map<nat, Frame>): nat {
    |Ordered(c, m, m.Keys)|
  }

  // ----- sizes of ordered bodies -----

  lemma {:induction false} OrderedRemove(c: Codec, m: map<nat, Frame>, keys: set<nat>, x: nat)
    requires keys <= m.Keys && x in keys
    ensures |Ordered(c, m, keys)| == |Ordered(c, m, keys - {x})| + |Body(c, m[x])|
    decreases |keys|
  {
    var k := Least(keys);
    if k != x {
      OrderedRemove(c, m, keys - {k}, x);
      assert IsLeast(k, keys - {x});
      assert keys - {x} - {k} == keys - {k} - {x};
    }
  }

  lemma {:induction false} OrderedFrame(c: Codec, m: map<nat, Frame>, n: map<nat, Frame>, keys: set<nat>)
    requires keys <= m.Keys && keys <= n.Keys && forall k :: k in keys ==> m[k] == n[k]
    ensures Ordered(c, m, keys) == Ordered(c, n, keys)
    decreases |keys|
  {
    if keys != {} {
      OrderedFrame(c, m, n, keys - {Least(keys)});
    }
  }

  lemma OrderedInsert(c: Codec, m: map<nat, Frame>, k: nat, f: Frame)
    ensures OrderedSize(c, m[k := f]) <= OrderedSize(c, m) + |Body(c, f)|
    ensures k !in m ==> OrderedSize(c, m[k := f]) == OrderedSize(c, m) + |Body(c, f)|
  {
    var n := m[k := f];
    OrderedRemove(c, n, n.Keys, k);
    OrderedFrame(c, n, m, m.Keys - {k});
    assert n.Keys - {k} == m.Keys - {k};
    if k in m {
      OrderedRemove(c, m, m.Keys, k);
    } else {
      assert m.Keys - {k} == m.Keys;
    }
  }

  // ----- the entry of one frame -----

  // Holds in every reachable state, duplicates included: the merge buffer is
  // large enough for what is copied into it.
  ghost predicate Sound(c: Codec, info: Info) {
    && OrderedSize(c, info.fragments) + BodySum(c, info.temporary) <= info.total
    && |info.fragments| + |info.temporary| <= info.pkts
    && (info.sSeq != INVALID_SEQ ==> info.temporary == [])
  }

  ghost predicate KeysAgree(frags: map<nat, Frame>) {
    forall k :: k in frags ==> frags[k].header.seqNo == k % 0x1_0000
  }

  // Stored packets have distinct sequence numbers.
  ghost predicate Separate(frags: map<nat, Frame>, temps: seq<Frame>) {
    && (forall j, k :: j in frags && k in frags && j != k ==> frags[j].header.seqNo != frags[k].header.seqNo)
    && (forall i, k :: 0 <= i < |temps| && k in frags ==> temps[i].header.seqNo != frags[k].header.seqNo)
    && (forall i, j :: 0 <= i < j < |temps| ==> temps[i].header.seqNo != temps[j].header.seqNo)
  }

  // Holds on runs without duplicates.
  ghost predicate Exact(c: Codec, info: Info) {
    && KeysAgree(info.fragments)
    && Separate(info.fragments, info.temporary)
    && info.pkts == |info.fragments| + |info.temporary|
    && info.total == OrderedSize(c, info.fragments) + BodySum(c, info.temporary)
    && (info.sSeq != INVALID_SEQ ==> info.temporary == [])
  }

  // No stored packet of the frame carries number q.
  ghost predicate New(info: Info, q: u16) {
    && (forall k :: k in info.fragments ==> info.fragments[k].header.seqNo != q)
    && (forall i :: 0 <= i < |info.temporary| ==> info.temporary[i].header.seqNo != q)
  }

  lemma SlotAgrees(c: Codec, start: nat, q: u16)
    ensures Slot(c, start, q) % 0x1_0000 == q && SlotKey(c, q) % 0x1_0000 == q
  {
  }

  lemma FreshKey(m: map<nat, Frame>, k: nat, q: u16)
    requires KeysAgree(m) && k % 0x1_0000 == q
    requires forall j :: j in m ==> m[j].header.seqNo != q
    ensures k !in m
  {
  }

  lemma {:induction false} PlaceSound(c: Codec, frags: map<nat, Frame>, temps: seq<Frame>, s: nat)
    ensures OrderedSize(c, Place(c, frags, temps, s)) <= OrderedSize(c, frags) + BodySum(c, temps)
    ensures |Place(c, frags, temps, s)| <= |frags| + |temps|
    decreases |temps|
  {
    if temps != [] {
      var init, last := temps[..|temps| - 1], temps[|temps| - 1];
      PlaceSound(c, frags, init, s);
      OrderedInsert(c, Place(c, frags, init, s), Slot(c, s, last.header.seqNo), last);
    }
  }

  lemma {:induction false} PlaceExact(c: Codec, frags: map<nat, Frame>, temps: seq<Frame>, s: nat)
    requires KeysAgree(frags) && Separate(frags, temps)
    ensures var m := Place(c, frags, temps, s);
            && KeysAgree(m) && Separate(m, [])
            && OrderedSize(c, m) == OrderedSize(c, frags) + BodySum(c, temps)
            && |m| == |frags| + |temps|
            && (forall k :: k in m ==> (k in frags && m[k] == frags[k]) || m[k] in temps)
    decreases |temps|
  {
    if temps != [] {
      var init, last := temps[..|temps| - 1], temps[|temps| - 1];
      var q := last.header.seqNo;
      PlaceExact(c, frags, init, s);
      var m, slot := Place(c, frags, init, s), Slot(c, s, q);
      SlotAgrees(c, s, q);
      forall k | k in m
        ensures m[k].header.seqNo != q
      {
        if m[k] in init {
          var i :| 0 <= i < |init| && init[i] == m[k];
          assert temps[i] == init[i];
        }
      }
      FreshKey(m, slot, q);
      OrderedInsert(c, m, slot, last);
      InsertKeeps(m, [], slot, last);
    }
  }

  lemma InsertKeeps(m: map<nat, Frame>, temps: seq<Frame>, k: nat, f: Frame)
    requires KeysAgree(m) && Separate(m, temps) && k % 0x1_0000 == f.header.seqNo && k !in m
    requires forall j :: j in m ==> m[j].header.seqNo != f.header.seqNo
    requires forall i :: 0 <= i < |temps| ==> temps[i].header.seqNo != f.header.seqNo
    ensures KeysAgree(m[k := f]) && Separate(m[k := f], temps) && |m[k := f]| == |m| + 1
  {
  }

  lemma OpenExact(c: Codec, f: Frame, t: FragType)
    ensures Exact(c, Open(c, f, t)) && Sound(c, Open(c, f, t))
  {
    OrderedInsert(c, map[], SlotKey(c, f.header.seqNo), f);
    SlotAgrees(c, 0, f.header.seqNo);
    assert map[][SlotKey(c, f.header.seqNo) := f] == Open(c, f, t).fragments;
  }

  lemma OtherSound(c: Codec, info: Info, f: Frame)
    requires Sound(c, info)
    ensures Sound(c, AbsorbOther(c, info, f))
  {
    if info.sSeq != INVALID_SEQ {
      OrderedInsert(c, info.fragments, Slot(c, info.sSeq, f.header.seqNo), f);
    } else {
      assert (info.temporary + [f])[..|info.temporary|] == info.temporary;
    }
  }

  lemma StartSound(c: Codec, info: Info, f: Frame)
    requires Sound(c, info)
    ensures Sound(c, AbsorbStart(c, info, f))
  {
    var q := f.header.seqNo;
    OrderedInsert(c, info.fragments, SlotKey(c, q), f);
    PlaceSound(c, info.fragments[SlotKey(c, q) := f], info.temporary, q);
  }

  lemma AbsorbSound(c: Codec, info: Info, f: Frame, t: FragType)
    requires Sound(c, info)
    ensures Sound(c, Absorb(c, info, f, t))
  {
    hide AbsorbStart, AbsorbOther;
    StartSound(c, info, f);
    OtherSound(c, info, f);
    OtherSound(c, info.(eSeq := f.header.seqNo), f);
  }

  lemma StartExact(c: Codec, info: Info, f: Frame)
    requires Exact(c, info) && New(info, f.header.seqNo)
    ensures Exact(c, AbsorbStart(c, info, f))
  {
    var q := f.header.seqNo;
    var key := SlotKey(c, q);
    SlotAgrees(c, 0, q);
    FreshKey(info.fragments, key, q);
    OrderedInsert(c, info.fragments, key, f);
    InsertKeeps(info.fragments, info.temporary, key, f);
    PlaceExact(c, info.fragments[key := f], info.temporary, q);
  }

  lemma OtherExact(c: Codec, info: Info, f: Frame)
    requires Exact(c, info) && New(info, f.header.seqNo)
    ensures Exact(c, AbsorbOther(c, info, f))
  {
    var q := f.header.seqNo;
    if info.sSeq != INVALID_SEQ {
      var key := Slot(c, info.sSeq, q);
      SlotAgrees(c, info.sSeq, q);
      FreshKey(info.fragments, key, q);
      OrderedInsert(c, info.fragments, key, f);
      InsertKeeps(info.fragments, [], key, f);
    } else {
      assert (info.temporary + [f])[..|info.temporary|] == info.temporary;
    }
  }

  lemma EndExact(c: Codec, info: Info, e: nat, q: u16)
    requires Exact(c, info) && New(info, q)
    ensures Exact(c, info.(eSeq := e)) && New(info.(eSeq := e), q)
  {
  }

  // A packet not seen before keeps the counters exact.
  lemma AbsorbExact(c: Codec, info: Info, f: Frame, t: FragType)
    requires Exact(c, info) && New(info, f.header.seqNo)
    ensures Exact(c, Absorb(c, info, f, t))
  {
    hide Exact, New, AbsorbStart, AbsorbOther;
    EndExact(c, info, f.header.seqNo, f.header.seqNo);
    StartExact(c, info, f);
    OtherExact(c, info, f);
    OtherExact(c, info.(eSeq := f.header.seqNo), f);
  }

  // A call either handles a fragment or leaves the frame table alone.
  lemma StepCases(c: Codec, fl: Flags, st: State, f: Frame, late: bool)
    requires Readable(c, f)
    ensures var r, t := Step(c, fl, st, f, late), GetFrag(c, f.payload);
            if IsPiece(t) then
              var q := StepFragment(c, st, f, t, DropsLate(c, fl, f.payload, late));
              r == (q.0, Result(c, fl, f, q.1))
            else
              r.0.frames == st.frames && r.0.dropped == st.dropped && !r.1.Rebuilt?
  {
    hide StepFragment, Result, GetFrag, DropsLate, SplitAp, WellFormedAp;
  }

  // ----- the frame table -----

  ghost predicate AllSound(c: Codec, st: State) {
    && (forall ts :: ts in st.frames ==> Sound(c, st.frames[ts]))
    && (forall ts :: ts in st.frames ==> ts !in st.dropped)
  }

  lemma StepFragmentSound(c: Codec, st: State, f: Frame, t: FragType, drop: bool)
    requires AllSound(c, st)
    ensures var r := StepFragment(c, st, f, t, drop);
            AllSound(c, r.0) && (r.1.Finish? ==> Sound(c, r.1.info))
  {
    hide Sound, Absorb, Open, Complete;
    OpenExact(c, f, t);
    if f.header.timestamp in st.frames {
      AbsorbSound(c, st.frames[f.header.timestamp], f, t);
    }
  }

  // In every reachable state, with duplicates and malformed sequences alike,
  // a merge never writes past the buffer it allocates, and a timestamp is
  // never both live and dropped.
  lemma {:induction false} RunSound(c: Codec, fl: Flags, st: State, evs: seq<Event>)
    requires AllSound(c, st) && AllReadable(c, evs)
    ensures AllSound(c, Run(c, fl, st, evs))
    ensures forall i :: 0 <= i < |evs| ==>
              var o := OutcomeAt(c, fl, st, evs, i); o.Rebuilt? ==> |o.written| <= o.size
    decreases |evs|
  {
    if evs != [] {
      var init, last := evs[..|evs| - 1], evs[|evs| - 1];
      RunSound(c, fl, st, init);
      StepSound(c, fl, Run(c, fl, st, init), last.frame, last.late);
      forall i | 0 <= i < |evs|
        ensures var o := OutcomeAt(c, fl, st, evs, i); o.Rebuilt? ==> |o.written| <= o.size
      {
        if i < |init| {
          assert init[..i] == evs[..i];
          assert OutcomeAt(c, fl, st, evs, i) == OutcomeAt(c, fl, st, init, i);
        }
      }
    }
  }

  lemma MergeFits(c: Codec, fl: Flags, f: Frame, info: Info)
    requires Sound(c, info) && |f.payload| >= HeaderSize(c)
    ensures var o := Merge(c, fl, info, f); |o.written| <= o.size
  {
  }

  lemma StepSound(c: Codec, fl: Flags, st: State, f: Frame, late: bool)
    requires AllSound(c, st) && Readable(c, f)
    ensures var (next, o) := Step(c, fl, st, f, late);
            AllSound(c, next) && (o.Rebuilt? ==> |o.written| <= o.size)
  {
    hide Step, StepFragment, GetFrag, DropsLate, Sound, Merge;
    var t, drop := GetFrag(c, f.payload), DropsLate(c, fl, f.payload, late);
    StepCases(c, fl, st, f, late);
    StepFragmentSound(c, st, f, t, drop);
    var a := StepFragment(c, st, f, t, drop).1;
    if a.Finish? {
      MergeFits(c, fl, f, a.info);
    }
  }

  // ----- runs without duplicates -----

  ghost predicate FragmentEvent(c: Codec, e: Event) {
    Readable(c, e.frame) && IsPiece(GetFrag(c, e.frame.payload))
  }

  // No two fragments of one frame carry the same number.
  ghost predicate DuplicateFree(c: Codec, evs: seq<Event>) {
    forall i, j :: 0 <= i < j < |evs| && FragmentEvent(c, evs[i]) && FragmentEvent(c, evs[j]) &&
                   evs[i].frame.header.timestamp == evs[j].frame.header.timestamp
                   ==> evs[i].frame.header.seqNo != evs[j].frame.header.seqNo
  }

  // The fragments among the events.
  ghost function Arrived(c: Codec, evs: seq<Event>): set<Frame> {
    set e | e in evs && FragmentEvent(c, e) :: e.frame
  }

  // Everything stored under ts belongs to ts and comes from the pool.
  ghost predicate Filed(info: Info, ts: u32, pool: set<Frame>) {
    && (forall k :: k in info.fragments ==> info.fragments[k] in pool && info.fragments[k].header.timestamp == ts)
    && (forall i :: 0 <= i < |info.temporary| ==> info.temporary[i] in pool && info.temporary[i].header.timestamp == ts)
  }

  lemma {:induction false} PlaceFiled(c: Codec, frags: map<nat, Frame>, temps: seq<Frame>, start: nat, ts: u32, pool: set<Frame>)
    requires forall k :: k in frags ==> frags[k] in pool && frags[k].header.timestamp == ts
    requires forall i :: 0 <= i < |temps| ==> temps[i] in pool && temps[i].header.timestamp == ts
    ensures var m := Place(c, frags, temps, start);
            forall k :: k in m ==> m[k] in pool && m[k].header.timestamp == ts
    decreases |temps|
  {
    if temps != [] {
      var init, last := temps[..|temps| - 1], temps[|temps| - 1];
      PlaceFiled(c, frags, init, start, ts, pool);
      assert Place(c, frags, temps, start) == Place(c, frags, init, start)[Slot(c, start, last.header.seqNo) := last];
    }
  }

  lemma StartFiled(c: Codec, info: Info, f: Frame, pool: set<Frame>)
    requires Filed(info, f.header.timestamp, pool) && f in pool
    ensures Filed(AbsorbStart(c, info, f), f.header.timestamp, pool)
  {
    hide SlotKey;
    var frags := info.fragments[SlotKey(c, f.header.seqNo) := f];
    PlaceFiled(c, frags, info.temporary, f.header.seqNo, f.header.timestamp, pool);
    assert AbsorbStart(c, info, f).fragments == Place(c, frags, info.temporary, f.header.seqNo);
  }

  lemma OtherFiled(c: Codec, info: Info, f: Frame, pool: set<Frame>)
    requires Filed(info, f.header.timestamp, pool) && f in pool
    ensures Filed(AbsorbOther(c, info, f), f.header.timestamp, pool)
  {
    hide Slot;
  }

  lemma AbsorbFiled(c: Codec, info: Info, f: Frame, t: FragType, pool: set<Frame>)
    requires Filed(info, f.header.timestamp, pool) && f in pool
    ensures Filed(Absorb(c, info, f, t), f.header.timestamp, pool)
  {
    hide AbsorbStart, AbsorbOther;
    StartFiled(c, info, f, pool);
    OtherFiled(c, info, f, pool);
    OtherFiled(c, info.(eSeq := f.header.seqNo), f, pool);
  }

  ghost predicate Filing(c: Codec, info: Info, ts: u32, pool: set<Frame>) {
    Exact(c, info) && Filed(info, ts, pool)
  }

  // Counters are exact, and everything stored under ts arrived for ts.
  ghost predicate AllExact(c: Codec, st: State, pool: set<Frame>) {
    && (forall ts :: ts in st.frames ==> Filing(c, st.frames[ts], ts, pool))
    && (forall ts :: ts in st.frames ==> ts !in st.dropped)
  }

  // No packet of the pool has f's timestamp and number.
  ghost predicate Fresh(f: Frame, pool: set<Frame>) {
    forall g :: g in pool && g.header.timestamp == f.header.timestamp ==> g.header.seqNo != f.header.seqNo
  }

  lemma AbsorbFiling(c: Codec, info: Info, f: Frame, t: FragType, pool: set<Frame>)
    requires Filing(c, info, f.header.timestamp, pool) && Fresh(f, pool)
    ensures Filing(c, Absorb(c, info, f, t), f.header.timestamp, pool + {f})
  {
    assert New(info, f.header.seqNo);
    AbsorbExact(c, info, f, t);
    AbsorbFiled(c, info, f, t, pool + {f});
  }

  lemma FilingGrows(c: Codec, info: Info, ts: u32, pool: set<Frame>, larger: set<Frame>)
    requires Filing(c, info, ts, pool) && pool <= larger
    ensures Filing(c, info, ts, larger)
  {
  }

  lemma OpenFiling(c: Codec, f: Frame, t: FragType, pool: set<Frame>)
    ensures Filing(c, Open(c, f, t), f.header.timestamp, pool + {f})
  {
    OpenExact(c, f, t);
  }

  lemma StepFragmentExact(c: Codec, st: State, f: Frame, t: FragType, drop: bool, pool: set<Frame>)
    requires AllExact(c, st, pool) && Fresh(f, pool)
    ensures var r := StepFragment(c, st, f, t, drop);
            AllExact(c, r.0, pool + {f}) && (r.1.Finish? ==> Filing(c, r.1.info, f.header.timestamp, pool + {f}))
  {
    hide Filing, Absorb, Fresh, Complete;
    var ts := f.header.timestamp;
    OpenFiling(c, f, t, pool);
    if ts in st.frames {
      AbsorbFiling(c, st.frames[ts], f, t, pool);
    }
    forall u | u in st.frames
      ensures Filing(c, st.frames[u], u, pool + {f})
    {
      FilingGrows(c, st.frames[u], u, pool, pool + {f});
    }
  }

  // A complete frame has its start fragment, so nothing is left aside and the
  // merged bytes fill the buffer.
  lemma MergeFills(c: Codec, fl: Flags, f: Frame, info: Info, pool: set<Frame>, st: State, t: FragType, drop: bool)
    requires Filing(c, info, f.header.timestamp, pool) && |f.payload| >= HeaderSize(c)
    requires StepFragment(c, st, f, t, drop).1 == Finish(info)
    ensures var o := Merge(c, fl, info, f); |o.written| == o.size
  {
    assert Complete(info);
  }

  lemma StepExact(c: Codec, fl: Flags, st: State, e: Event, pool: set<Frame>)
    requires AllExact(c, st, pool) && Readable(c, e.frame)
    requires FragmentEvent(c, e) ==> Fresh(e.frame, pool)
    ensures var (next, o) := Step(c, fl, st, e.frame, e.late);
            AllExact(c, next, if FragmentEvent(c, e) then pool + {e.frame} else pool) && (o.Rebuilt? ==> |o.written| == o.size)
  {
    hide Step, StepFragment, GetFrag, DropsLate, Filing, Fresh, Merge;
    var t, drop := GetFrag(c, e.frame.payload), DropsLate(c, fl, e.frame.payload, e.late);
    StepCases(c, fl, st, e.frame, e.late);
    if FragmentEvent(c, e) {
      StepFragmentExact(c, st, e.frame, t, drop, pool);
      var a := StepFragment(c, st, e.frame, t, drop).1;
      if a.Finish? {
        MergeFills(c, fl, e.frame, a.info, pool + {e.frame}, st, t, drop);
      }
    }
  }

  lemma LastIsFresh(c: Codec, evs: seq<Event>)
    requires evs != [] && DuplicateFree(c, evs)
    ensures var init, last := evs[..|evs| - 1], evs[|evs| - 1];
            && DuplicateFree(c, init)
            && Arrived(c, evs) == (if FragmentEvent(c, last) then Arrived(c, init) + {last.frame} else Arrived(c, init))
            && (FragmentEvent(c, last) ==> Fresh(last.frame, Arrived(c, init)))
  {
    var init, last := evs[..|evs| - 1], evs[|evs| - 1];
    assert evs == init + [last];
    forall g | FragmentEvent(c, last) && g in Arrived(c, init) && g.header.timestamp == last.frame.header.timestamp
      ensures g.header.seqNo != last.frame.header.seqNo
    {
      var e :| e in init && FragmentEvent(c, e) && e.frame == g;
      var i :| 0 <= i < |init| && init[i] == e;
      assert evs[i] == e;
    }
  }

  // Over every run without duplicates, started with no frame in progress:
  // pkts_received counts the packets stored, total_size is the sum of their
  // bodies, `temporary` is empty once the start fragment is known, and what a
  // merge writes fills the returned buffer exactly.
  lemma {:induction false} RunExact(c: Codec, fl: Flags, st: State, evs: seq<Event>)
    requires st.frames == map[] && AllReadable(c, evs) && DuplicateFree(c, evs)
    ensures AllExact(c, Run(c, fl, st, evs), Arrived(c, evs))
    ensures forall i :: 0 <= i < |evs| ==>
              var o := OutcomeAt(c, fl, st, evs, i); o.Rebuilt? ==> |o.written| == o.size
    decreases |evs|
  {
    if evs != [] {
      var init, last := evs[..|evs| - 1], evs[|evs| - 1];
      LastIsFresh(c, evs);
      RunExact(c, fl, st, init);
      StepExact(c, fl, Run(c, fl, st, init), last, Arrived(c, init));
      forall i | 0 <= i < |evs|
        ensures var o := OutcomeAt(c, fl, st, evs, i); o.Rebuilt? ==> |o.written| == o.size
      {
        if i < |init| {
          assert init[..i] == evs[..i];
          assert OutcomeAt(c, fl, st, evs, i) == OutcomeAt(c, fl, st, init, i);
        }
      }
    }
  }

  // ----- timestamps do not interfere -----

  // All the handler knows about timestamp ts.
  datatype View = View(entry: Option<Info>, dropped: bool)

  ghost function ViewOf(st: State, ts: u32): View {
    View(if ts in st.frames then Some(st.frames[ts]) else None, ts in st.dropped)
  }

  // One call depends on, and changes, only what is known about its timestamp.
  lemma StepLocal(c: Codec, fl: Flags, a: State, b: State, f: Frame, late: bool)
    requires Readable(c, f) && ViewOf(a, f.header.timestamp) == ViewOf(b, f.header.timestamp)
    ensures Step(c, fl, a, f, late).1 == Step(c, fl, b, f, late).1
    ensures ViewOf(Step(c, fl, a, f, late).0, f.header.timestamp) == ViewOf(Step(c, fl, b, f, late).0, f.header.timestamp)
    ensures forall u: u32 :: u != f.header.timestamp ==> ViewOf(Step(c, fl, a, f, late).0, u) == ViewOf(a, u)
  {
    StepFragmentLocal(c, a, b, f, GetFrag(c, f.payload), DropsLate(c, fl, f.payload, late));
  }

  lemma StepFragmentLocal(c: Codec, a: State, b: State, f: Frame, t: FragType, drop: bool)
    requires ViewOf(a, f.header.timestamp) == ViewOf(b, f.header.timestamp)
    ensures StepFragment(c, a, f, t, drop).1 == StepFragment(c, b, f, t, drop).1
    ensures ViewOf(StepFragment(c, a, f, t, drop).0, f.header.timestamp) == ViewOf(StepFragment(c, b, f, t, drop).0, f.header.timestamp)
    ensures forall u: u32 :: u != f.header.timestamp ==> ViewOf(StepFragment(c, a, f, t, drop).0, u) == ViewOf(a, u)
  {
  }

  // The events of timestamp ts, in order.
  ghost function Project(evs: seq<Event>, ts: u32): seq<Event>
    decreases |evs|
  {
    if evs == [] then []
    else
      var rest := Project(evs[..|evs| - 1], ts);
      if evs[|evs| - 1].frame.header.timestamp == ts then rest + [evs[|evs| - 1]] else rest
  }

  lemma {:induction false} ProjectPrefix(evs: seq<Event>, ts: u32, i: nat)
    requires i < |evs| && evs[i].frame.header.timestamp == ts
    ensures |Project(evs[..i], ts)| < |Project(evs, ts)|
    ensures Project(evs, ts)[..|Project(evs[..i], ts)|] == Project(evs[..i], ts)
    ensures Project(evs, ts)[|Project(evs[..i], ts)|] == evs[i]
    decreases |evs|
  {
    var init := evs[..|evs| - 1];
    if i < |init| {
      assert init[..i] == evs[..i];
      ProjectPrefix(init, ts, i);
    }
  }

  lemma {:induction false} ProjectReadable(c: Codec, evs: seq<Event>, ts: u32)
    requires AllReadable(c, evs)
    ensures AllReadable(c, Project(evs, ts))
    decreases |evs|
  {
    if evs != [] {
      ProjectReadable(c, evs[..|evs| - 1], ts);
    }
  }

  // Whatever packets of other frames are interleaved, the state kept for ts is
  // the one its own packets produce.
  lemma {:induction false} RunIsolated(c: Codec, fl: Flags, st: State, evs: seq<Event>, ts: u32)
    requires AllReadable(c, evs)
    ensures AllReadable(c, Project(evs, ts))
    ensures ViewOf(Run(c, fl, st, evs), ts) == ViewOf(Run(c, fl, st, Project(evs, ts)), ts)
    decreases |evs|
  {
    ProjectReadable(c, evs, ts);
    if evs != [] {
      var init, last := evs[..|evs| - 1], evs[|evs| - 1];
      RunIsolated(c, fl, st, init, ts);
      var own := Project(init, ts);
      if last.frame.header.timestamp == ts {
        assert Project(evs, ts) == own + [last];
        assert (own + [last])[..|own|] == own;
        StepLocal(c, fl, Run(c, fl, st, init), Run(c, fl, st, own), last.frame, last.late);
      } else {
        StepLocal(c, fl, Run(c, fl, st, init), Run(c, fl, st, init), last.frame, last.late);
      }
    }
  }

  // ... and so is everything returned for ts.
  lemma OutcomesIsolated(c: Codec, fl: Flags, st: State, evs: seq<Event>, i: nat)
    requires AllReadable(c, evs) && i < |evs|
    ensures var ts := evs[i].frame.header.timestamp;
            var own, at := Project(evs, ts), |Project(evs[..i], ts)|;
            && AllReadable(c, own) && at < |own|
            && OutcomeAt(c, fl, st, evs, i) == OutcomeAt(c, fl, st, own, at)
  {
    var ts := evs[i].frame.header.timestamp;
    ProjectReadable(c, evs, ts);
    ProjectPrefix(evs, ts, i);
    RunIsolated(c, fl, st, evs[..i], ts);
    StepLocal(c, fl, Run(c, fl, st, evs[..i]), Run(c, fl, st, Project(evs[..i], ts)), evs[i].frame, evs[i].late);
  }

  // ----- dropped frames stay dropped -----

  // Once a frame is dropped, no later packet of its timestamp is ever merged.
  lemma {:induction false} DroppedForever(c: Codec, fl: Flags, st: State, evs: seq<Event>, ts: u32)
    requires AllReadable(c, evs) && ts in st.dropped && ts !in st.frames
    ensures var end := Run(c, fl, st, evs); ts in end.dropped && ts !in end.frames
    ensures forall i :: 0 <= i < |evs| && evs[i].frame.header.timestamp == ts ==> !OutcomeAt(c, fl, st, evs, i).Rebuilt?
    decreases |evs|
  {
    if evs != [] {
      var init, last := evs[..|evs| - 1], evs[|evs| - 1];
      DroppedForever(c, fl, st, init, ts);
      StepDropped(c, fl, Run(c, fl, st, init), last.frame, last.late, ts);
      forall i | 0 <= i < |evs| && evs[i].frame.header.timestamp == ts
        ensures !OutcomeAt(c, fl, st, evs, i).Rebuilt?
      {
        if i < |init| {
          assert init[..i] == evs[..i];
          assert OutcomeAt(c, fl, st, evs, i) == OutcomeAt(c, fl, st, init, i);
        }
      }
    }
  }

  lemma StepDropped(c: Codec, fl: Flags, st: State, f: Frame, late: bool, ts: u32)
    requires Readable(c, f) && ts in st.dropped && ts !in st.frames
    ensures var (next, o) := Step(c, fl, st, f, late);
            ts in next.dropped && ts !in next.frames && (f.header.timestamp == ts ==> !o.Rebuilt?)
  {
  }
}
