// Fragments of one timestamp, of whatever units, arriving in any order: what the
// frames returned for them are made of.
module H26xInterleaved {
  import opened Common
  import opened H26xReceiver
  import opened H26xInvariants
  import opened H26xReassembly
  import opened H26xSender
  import opened H26xRoundTrip
  import opened H26xSameTimestamp

  // ----- nothing stored gets lost -----

  ghost predicate Holds(info: Info, pool: set<Frame>) {
    forall g :: g in pool ==> g in info.fragments.Values || g in info.temporary
  }

  lemma {:induction false} PlaceHolds(c: Codec, frags: map<nat, Frame>, temps: seq<Frame>, start: nat)
    requires KeysAgree(frags) && Separate(frags, temps)
    ensures frags.Values <= Place(c, frags, temps, start).Values
    ensures forall t :: t in temps ==> t in Place(c, frags, temps, start).Values
    decreases |temps|
  {
    hide KeysAgree, Separate, Slot;
    if temps != [] {
      var init, last := temps[..|temps| - 1], temps[|temps| - 1];
      SlotFree(c, frags, temps, start);
      PlaceHolds(c, frags, init, start);
      ValuesInsert(Place(c, frags, init, start), Slot(c, start, last.header.seqNo), last);
      assert temps == init + [last];
    }
  }

  lemma SlotFree(c: Codec, frags: map<nat, Frame>, temps: seq<Frame>, start: nat)
    requires KeysAgree(frags) && Separate(frags, temps) && temps != []
    ensures var init, last := temps[..|temps| - 1], temps[|temps| - 1];
            Separate(frags, init) && Slot(c, start, last.header.seqNo) !in Place(c, frags, init, start)
  {
    hide Slot;
    var init, last := temps[..|temps| - 1], temps[|temps| - 1];
    var q := last.header.seqNo;
    SeparatePrefix(frags, temps);
    PlaceExact(c, frags, init, start);
    var m := Place(c, frags, init, start);
    forall k | k in m
      ensures m[k].header.seqNo != q
    {
      if m[k] in init {
        var i :| 0 <= i < |init| && init[i] == m[k];
        assert temps[i] == init[i];
      }
    }
    SlotAgrees(c, start, q);
    FreshKey(m, Slot(c, start, q), q);
  }

  lemma SeparatePrefix(frags: map<nat, Frame>, temps: seq<Frame>)
    requires Separate(frags, temps) && temps != []
    ensures Separate(frags, temps[..|temps| - 1])
  {
  }

  lemma ValuesInsert(m: map<nat, Frame>, k: nat, f: Frame)
    requires k !in m
    ensures m[k := f].Values == m.Values + {f}
  {
    var n := m[k := f];
    assert n[k] == f;
    forall g | g in m.Values
      ensures g in n.Values
    {
      var j :| j in m && m[j] == g;
      assert n[j] == g;
    }
  }

  lemma StartHolds(c: Codec, info: Info, f: Frame, pool: set<Frame>)
    requires Exact(c, info) && New(info, f.header.seqNo) && Holds(info, pool)
    ensures Holds(AbsorbStart(c, info, f), pool + {f})
  {
    hide Place;
    var q := f.header.seqNo;
    var key := SlotKey(c, q);
    SlotAgrees(c, 0, q);
    FreshKey(info.fragments, key, q);
    ValuesInsert(info.fragments, key, f);
    InsertKeeps(info.fragments, info.temporary, key, f);
    var frags := info.fragments[key := f];
    PlaceHolds(c, frags, info.temporary, q);
  }

  lemma OtherHolds(c: Codec, info: Info, f: Frame, pool: set<Frame>)
    requires Exact(c, info) && New(info, f.header.seqNo) && Holds(info, pool)
    ensures Holds(AbsorbOther(c, info, f), pool + {f})
  {
    if info.sSeq != INVALID_SEQ {
      var key := Slot(c, info.sSeq, f.header.seqNo);
      SlotAgrees(c, info.sSeq, f.header.seqNo);
      FreshKey(info.fragments, key, f.header.seqNo);
      ValuesInsert(info.fragments, key, f);
    }
  }

  lemma AbsorbHolds(c: Codec, info: Info, f: Frame, t: FragType, pool: set<Frame>)
    requires Exact(c, info) && New(info, f.header.seqNo) && Holds(info, pool)
    ensures Holds(Absorb(c, info, f, t), pool + {f})
  {
    hide Exact, New, AbsorbStart, AbsorbOther;
    EndExact(c, info, f.header.seqNo, f.header.seqNo);
    StartHolds(c, info, f, pool);
    OtherHolds(c, info, f, pool);
    OtherHolds(c, info.(eSeq := f.header.seqNo), f, pool);
  }

  // ----- up to the first frame returned -----

  // Fragments of one timestamp with distinct numbers, on time.
  ghost predicate Stream(c: Codec, evs: seq<Event>, ts: u32) {
    && DuplicateFree(c, evs)
    && forall i :: 0 <= i < |evs| ==>
         evs[i].frame.header.timestamp == ts && FragmentEvent(c, evs[i]) && !evs[i].late
  }

  lemma StreamPrefix(c: Codec, evs: seq<Event>, ts: u32, k: nat)
    requires Stream(c, evs, ts) && k <= |evs|
    ensures Stream(c, evs[..k], ts)
  {
    hide FragmentEvent;
  }

  // Call k is the first that returns a frame.
  ghost predicate FirstAt(c: Codec, st: State, evs: seq<Event>, k: nat)
    requires AllReadable(c, evs)
  {
    && k < |evs| && OutcomeAt(c, PLAIN, st, evs, k).Rebuilt?
    && forall i :: 0 <= i < k ==> !OutcomeAt(c, PLAIN, st, evs, i).Rebuilt?
  }

  // The entry of a frame none of whose arrivals has completed it: everything
  // that arrived is in it.
  ghost predicate Gathered(c: Codec, st: State, ts: u32, evs: seq<Event>) {
    && ts !in st.dropped
    && if evs == [] then ts !in st.frames
       else ts in st.frames && Filing(c, st.frames[ts], ts, Arrived(c, evs)) && Holds(st.frames[ts], Arrived(c, evs))
  }

  // The entry after one more arrival.
  ghost function Grown(c: Codec, st: State, f: Frame): Info
    requires |f.payload| >= HeaderSize(c)
  {
    var t := GetFrag(c, f.payload);
    if f.header.timestamp in st.frames then Absorb(c, st.frames[f.header.timestamp], f, t) else Open(c, f, t)
  }

  lemma GrownHolds(c: Codec, st: State, ts: u32, evs: seq<Event>)
    requires Stream(c, evs, ts) && evs != [] && Gathered(c, st, ts, evs[..|evs| - 1])
    ensures var info := Grown(c, st, evs[|evs| - 1].frame);
            Filing(c, info, ts, Arrived(c, evs)) && Holds(info, Arrived(c, evs))
  {
    hide Exact, Filed, Absorb, GetFrag;
    var init, last := evs[..|evs| - 1], evs[|evs| - 1];
    var f, t := last.frame, GetFrag(c, last.frame.payload);
    var pool := Arrived(c, init);
    LastIsFresh(c, evs);
    if init == [] {
      assert pool == {};
      OpenFiling(c, f, t, pool);
      OpenHolds(c, f, t);
    } else {
      var info := st.frames[ts];
      NewToEntry(info, f, ts, pool);
      AbsorbFiling(c, info, f, t, pool);
      AbsorbHolds(c, info, f, t, pool);
    }
  }

  lemma OpenHolds(c: Codec, f: Frame, t: FragType)
    ensures Holds(Open(c, f, t), {f})
  {
    ValuesInsert(map[], SlotKey(c, f.header.seqNo), f);
    assert map[][SlotKey(c, f.header.seqNo) := f] == Open(c, f, t).fragments;
  }

  lemma NewToEntry(info: Info, f: Frame, ts: u32, pool: set<Frame>)
    requires Filed(info, ts, pool) && Fresh(f, pool) && f.header.timestamp == ts
    ensures New(info, f.header.seqNo)
  {
  }

  lemma {:induction false} AllGathered(c: Codec, st: State, evs: seq<Event>, ts: u32, k: nat)
    requires Stream(c, evs, ts) && AllReadable(c, evs) && k <= |evs| && ts !in st.frames && ts !in st.dropped
    requires forall i :: 0 <= i < k ==> !OutcomeAt(c, PLAIN, st, evs, i).Rebuilt?
    ensures Gathered(c, Run(c, PLAIN, st, evs[..k]), ts, evs[..k])
  {
    hide Step, Filing, Holds, Arrived, FragmentEvent, Readable, DuplicateFree, Grown, Complete;
    if k > 0 {
      AllGathered(c, st, evs, ts, k - 1);
      RunLast(c, PLAIN, st, evs, k);
      var at, f := Run(c, PLAIN, st, evs[..k - 1]), evs[k - 1].frame;
      StreamPrefix(c, evs, ts, k);
      assert evs[..k][..k - 1] == evs[..k - 1] && evs[..k][k - 1] == evs[k - 1];
      GrownHolds(c, at, ts, evs[..k]);
      PieceStep(c, at, evs[k - 1]);
    }
  }

  lemma PieceStep(c: Codec, st: State, e: Event)
    requires FragmentEvent(c, e) && !e.late && e.frame.header.timestamp !in st.dropped
    ensures |e.frame.payload| >= HeaderSize(c)
    ensures var ts, info := e.frame.header.timestamp, Grown(c, st, e.frame);
            var (next, o) := Step(c, PLAIN, st, e.frame, e.late);
            && ts !in next.dropped
            && if ts in st.frames && Complete(info) then o == Merge(c, PLAIN, info, e.frame)
               else o == Held && ts in next.frames && next.frames[ts] == info
  {
    hide Open, Absorb, Complete, Merge, GetFrag, NalType;
    StepCases(c, PLAIN, st, e.frame, e.late);
  }

  // The first frame returned is made of everything that has arrived.
  lemma FirstMerge(c: Codec, st: State, evs: seq<Event>, ts: u32, k: nat) returns (m: map<nat, Frame>)
    requires Stream(c, evs, ts) && AllReadable(c, evs) && ts !in st.frames && ts !in st.dropped && FirstAt(c, st, evs, k)
    ensures forall i :: 0 <= i <= k ==> evs[i].frame in m.Values
    ensures |evs[k].frame.payload| >= HeaderSize(c)
    ensures OutcomeAt(c, PLAIN, st, evs, k).written == NalHeader(c, evs[k].frame.payload) + Ordered(c, m, m.Keys)
  {
    hide Step, Filing, FragmentEvent, Readable, DuplicateFree, Grown, NalHeader, Arrived, Ordered;
    AllGathered(c, st, evs, ts, k);
    RunLast(c, PLAIN, st, evs, k + 1);
    var at := Run(c, PLAIN, st, evs[..k]);
    StreamPrefix(c, evs, ts, k + 1);
    assert evs[..k + 1][..k] == evs[..k] && evs[..k + 1][k] == evs[k];
    GrownHolds(c, at, ts, evs[..k + 1]);
    PieceStep(c, at, evs[k]);
    var info := Grown(c, at, evs[k].frame);
    NothingAside(c, info, ts, Arrived(c, evs[..k + 1]));
    m := info.fragments;
    forall i | 0 <= i <= k
      ensures evs[i].frame in m.Values
    {
      InArrived(c, evs, ts, k + 1, i);
    }
  }

  lemma InArrived(c: Codec, evs: seq<Event>, ts: u32, k: nat, i: nat)
    requires Stream(c, evs, ts) && i < k <= |evs|
    ensures evs[i].frame in Arrived(c, evs[..k])
  {
    hide FragmentEvent, DuplicateFree;
    assert evs[..k][i] == evs[i];
    assert evs[i] in evs[..k];
  }

  lemma NothingAside(c: Codec, info: Info, ts: u32, pool: set<Frame>)
    requires Filing(c, info, ts, pool) && Complete(info)
    ensures info.temporary == []
  {
  }

  // If all merged bytes are v, so are those of every body.
  lemma {:induction false} OrderedBytes(c: Codec, m: map<nat, Frame>, keys: set<nat>, v: u8, k: nat)
    requires keys <= m.Keys && k in keys && forall i :: 0 <= i < |Ordered(c, m, keys)| ==> Ordered(c, m, keys)[i] == v
    ensures forall i :: 0 <= i < |Body(c, m[k])| ==> Body(c, m[k])[i] == v
    decreases |keys|
  {
    hide Body;
    var l := Least(keys);
    var head, rest := Body(c, m[l]), Ordered(c, m, keys - {l});
    assert Ordered(c, m, keys) == head + rest;
    if k == l {
      assert forall i :: 0 <= i < |head| ==> head[i] == (head + rest)[i];
    } else {
      forall i | 0 <= i < |rest|
        ensures rest[i] == v
      {
        assert (head + rest)[|head| + i] == rest[i];
      }
      OrderedBytes(c, m, keys - {l}, v, k);
    }
  }

  // If the first frame returned carries nothing but bytes v, so does every
  // packet that has arrived.
  lemma FirstBytes(c: Codec, st: State, evs: seq<Event>, ts: u32, k: nat, data: seq<u8>, v: u8)
    requires Stream(c, evs, ts) && AllReadable(c, evs) && ts !in st.frames && ts !in st.dropped && FirstAt(c, st, evs, k)
    requires |data| >= NalSize(c) && OutcomeAt(c, PLAIN, st, evs, k).written == data
    requires forall i :: NalSize(c) <= i < |data| ==> data[i] == v
    ensures forall i, j :: 0 <= i <= k && 0 <= j < |Body(c, evs[i].frame)| ==> Body(c, evs[i].frame)[j] == v
  {
    hide Stream, OutcomeAt, Body, NalHeader, Readable;
    var m := FirstMerge(c, st, evs, ts, k);
    var p := evs[k].frame.payload;
    HeaderLength(c, p);
    var merged := Ordered(c, m, m.Keys);
    assert forall i :: 0 <= i < |merged| ==> merged[i] == data[NalSize(c) + i];
    forall i, j | 0 <= i <= k && 0 <= j < |Body(c, evs[i].frame)|
      ensures Body(c, evs[i].frame)[j] == v
    {
      var key :| key in m && m[key] == evs[i].frame;
      OrderedBytes(c, m, m.Keys, v, key);
    }
  }

  // ----- everything a run returns -----

  ghost function Yield(c: Codec, st: State, evs: seq<Event>): seq<seq<u8>>
    requires AllReadable(c, evs)
    decreases |evs|
  {
    if evs == [] then []
    else
      var o := OutcomeAt(c, PLAIN, st, evs, |evs| - 1);
      Yield(c, st, evs[..|evs| - 1]) + if o.Rebuilt? then [o.written] else []
  }

  lemma OutcomePrefix(c: Codec, st: State, evs: seq<Event>, k: nat, i: nat)
    requires AllReadable(c, evs) && i < k <= |evs|
    ensures AllReadable(c, evs[..k]) && OutcomeAt(c, PLAIN, st, evs[..k], i) == OutcomeAt(c, PLAIN, st, evs, i)
  {
    hide Readable, Step, Run;
    assert evs[..k][..i] == evs[..i];
  }

  lemma {:induction false} YieldNone(c: Codec, st: State, evs: seq<Event>, k: nat)
    requires AllReadable(c, evs) && k <= |evs|
    requires forall i :: 0 <= i < k ==> !OutcomeAt(c, PLAIN, st, evs, i).Rebuilt?
    ensures Yield(c, st, evs[..k]) == []
  {
    hide Readable, OutcomeAt;
    if k > 0 {
      YieldNone(c, st, evs, k - 1);
      OutcomePrefix(c, st, evs, k, k - 1);
      assert evs[..k][..k - 1] == evs[..k - 1];
    }
  }

  lemma YieldOne(c: Codec, st: State, evs: seq<Event>)
    requires AllReadable(c, evs) && evs != []
    requires forall i :: 0 <= i < |evs| - 1 ==> !OutcomeAt(c, PLAIN, st, evs, i).Rebuilt?
    requires OutcomeAt(c, PLAIN, st, evs, |evs| - 1).Rebuilt?
    ensures Yield(c, st, evs) == [OutcomeAt(c, PLAIN, st, evs, |evs| - 1).written]
  {
    hide Readable, OutcomeAt;
    YieldNone(c, st, evs, |evs| - 1);
  }

  lemma {:induction false} YieldAppend(c: Codec, st: State, x: seq<Event>, y: seq<Event>)
    requires AllReadable(c, x) && AllReadable(c, y)
    ensures AllReadable(c, x + y)
    ensures Yield(c, st, x + y) == Yield(c, st, x) + Yield(c, Run(c, PLAIN, st, x), y)
    decreases |y|
  {
    hide Readable, OutcomeAt, Run;
    if y == [] {
      assert x + y == x;
    } else {
      var init := y[..|y| - 1];
      assert (x + y)[..|x + y| - 1] == x + init;
      YieldAppend(c, st, x, init);
      OutcomeAppend(c, PLAIN, st, x, y, |y| - 1);
    }
  }

  // Where the first frame comes from.
  lemma {:induction false} YieldFirst(c: Codec, st: State, evs: seq<Event>) returns (k: nat)
    requires AllReadable(c, evs) && Yield(c, st, evs) != []
    ensures FirstAt(c, st, evs, k) && Yield(c, st, evs)[0] == OutcomeAt(c, PLAIN, st, evs, k).written
    decreases |evs|
  {
    hide Readable, OutcomeAt, FirstAt;
    var init := evs[..|evs| - 1];
    if Yield(c, st, init) != [] {
      k := YieldFirst(c, st, init);
      FirstLater(c, st, evs, k);
    } else {
      k := |evs| - 1;
      FirstLast(c, st, evs);
    }
  }

  lemma FirstLater(c: Codec, st: State, evs: seq<Event>, k: nat)
    requires AllReadable(c, evs) && evs != [] && AllReadable(c, evs[..|evs| - 1]) && FirstAt(c, st, evs[..|evs| - 1], k)
    ensures FirstAt(c, st, evs, k) && OutcomeAt(c, PLAIN, st, evs[..|evs| - 1], k) == OutcomeAt(c, PLAIN, st, evs, k)
  {
    hide Readable, OutcomeAt;
    forall i | 0 <= i <= k
      ensures OutcomeAt(c, PLAIN, st, evs[..|evs| - 1], i) == OutcomeAt(c, PLAIN, st, evs, i)
    {
      OutcomePrefix(c, st, evs, |evs| - 1, i);
    }
  }

  lemma FirstLast(c: Codec, st: State, evs: seq<Event>)
    requires AllReadable(c, evs) && Yield(c, st, evs) != [] && Yield(c, st, evs[..|evs| - 1]) == []
    ensures FirstAt(c, st, evs, |evs| - 1)
  {
    hide Readable, OutcomeAt;
    forall i | 0 <= i < |evs| - 1
      ensures !OutcomeAt(c, PLAIN, st, evs, i).Rebuilt?
    {
      YieldSome(c, st, evs[..|evs| - 1], i);
      OutcomePrefix(c, st, evs, |evs| - 1, i);
    }
  }

  lemma {:induction false} YieldSome(c: Codec, st: State, evs: seq<Event>, i: nat)
    requires AllReadable(c, evs) && i < |evs| && Yield(c, st, evs) == []
    ensures !OutcomeAt(c, PLAIN, st, evs, i).Rebuilt?
    decreases |evs|
  {
    hide Readable, OutcomeAt;
    if i < |evs| - 1 {
      YieldSome(c, st, evs[..|evs| - 1], i);
      OutcomePrefix(c, st, evs, |evs| - 1, i);
    }
  }
}
