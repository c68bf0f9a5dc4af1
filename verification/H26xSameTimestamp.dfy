// Several fragmented NAL units with one timestamp come back, under the headers
// their packets show, if they arrive one after the other.
module H26xSameTimestamp {
  import opened Common
  import opened H26xReceiver
  import opened H26xInvariants
  import opened H26xReassembly
  import opened H26xRoundTrip

  // ----- one after the other -----

  lemma {:induction false} RunAppend(c: Codec, fl: Flags, st: State, x: seq<Event>, y: seq<Event>)
    requires AllReadable(c, x) && AllReadable(c, y)
    ensures AllReadable(c, x + y)
    ensures Run(c, fl, st, x + y) == Run(c, fl, Run(c, fl, st, x), y)
    decreases |y|
  {
    hide Readable, Step;
    if y == [] {
      assert x + y == x;
    } else {
      var init := y[..|y| - 1];
      assert (x + y)[..|x + y| - 1] == x + init;
      RunAppend(c, fl, st, x, init);
    }
  }

  lemma OutcomeAppend(c: Codec, fl: Flags, st: State, x: seq<Event>, y: seq<Event>, i: nat)
    requires AllReadable(c, x) && AllReadable(c, y) && i < |y|
    ensures AllReadable(c, x + y)
    ensures OutcomeAt(c, fl, st, x + y, |x| + i) == OutcomeAt(c, fl, Run(c, fl, st, x), y, i)
  {
    hide Readable, Step, Run;
    assert (x + y)[..|x| + i] == x + y[..i];
    RunAppend(c, fl, st, x, y[..i]);
  }

  // A unit as packets carry it, and the stretch of traffic in which they arrive.
  datatype Unit = Unit(evs: seq<Event>, fs: seq<Frame>, first: u8, body: seq<u8>, size: nat, s: u16, order: seq<nat>)

  // Each fragment of the unit arrives once and on time, and no other packet of
  // the timestamp does.
  ghost predicate Whole(c: Codec, fl: Flags, ts: u32, u: Unit) {
    && AllReadable(c, u.evs) && CarriesUnit(c, u.fs, u.first, u.body, u.size, u.s, ts)
    && Delivers(u.fs, u.order, Project(u.evs, ts)) && OnTime(c, fl, Project(u.evs, ts))
  }

  ghost predicate InTurn(c: Codec, fl: Flags, ts: u32, us: seq<Unit>) {
    forall k :: 0 <= k < |us| ==> Whole(c, fl, ts, us[k])
  }

  function Traffic(us: seq<Unit>): seq<Event> {
    if us == [] then [] else Traffic(us[..|us| - 1]) + us[|us| - 1].evs
  }

  // One unit in a stretch of traffic: it is returned once, at its last
  // fragment, and nothing of it is left.
  lemma UnitBack(c: Codec, fl: Flags, st: State, ts: u32, u: Unit)
    requires Whole(c, fl, ts, u) && ViewOf(st, ts) == View(None, false)
    ensures |u.order| == |u.fs| >= 2
    ensures ViewOf(Run(c, fl, st, u.evs), ts) == View(None, false)
    ensures forall i :: 0 <= i < |u.evs| && u.evs[i].frame.header.timestamp == ts ==>
              var at, o := |Project(u.evs[..i], ts)|, OutcomeAt(c, fl, st, u.evs, i);
              && at < |u.fs|
              && (at < |u.fs| - 1 ==> o == Held)
              && (at == |u.fs| - 1 ==> o.Rebuilt? && o.header == u.evs[i].frame.header && o.size == |o.written|)
              && (at == |u.fs| - 1 && InOrder(c, u.s, |u.fs|, u.order[0]) ==>
                    o.written == ScPrefix(c, fl) + HeaderFrom(c, u.first) + u.body)
  {
    hide Readable, Run, OnTime, OutcomeAt, Delivers, Filled, InOrder, CarriesUnit, HeaderFrom, Ordered, ScPrefix;
    var own := Project(u.evs, ts);
    ProjectReadable(c, u.evs, ts);
    var m := UnitReturned(c, fl, st, own, u.fs, u.first, u.body, u.size, u.s, ts, u.order);
    RunIsolated(c, fl, st, u.evs, ts);
    forall i | 0 <= i < |u.evs| && u.evs[i].frame.header.timestamp == ts
      ensures |Project(u.evs[..i], ts)| < |own|
      ensures OutcomeAt(c, fl, st, u.evs, i) == OutcomeAt(c, fl, st, own, |Project(u.evs[..i], ts)|)
      ensures own[|Project(u.evs[..i], ts)|] == u.evs[i]
    {
      OutcomesIsolated(c, fl, st, u.evs, i);
      ProjectPrefix(u.evs, ts, i);
    }
  }

  // After each of them nothing is left of the timestamp.
  lemma {:induction false} NothingLeft(c: Codec, fl: Flags, st: State, ts: u32, us: seq<Unit>)
    requires InTurn(c, fl, ts, us) && ViewOf(st, ts) == View(None, false)
    ensures AllReadable(c, Traffic(us)) && ViewOf(Run(c, fl, st, Traffic(us)), ts) == View(None, false)
    decreases |us|
  {
    hide CarriesUnit, Delivers, OnTime, Readable, Run, Project, OutcomeAt;
    if us == [] {
      assert Run(c, fl, st, []) == st by {
        RunNone(c, fl, st);
      }
    } else {
      var init, u := us[..|us| - 1], us[|us| - 1];
      NothingLeft(c, fl, st, ts, init);
      assert Whole(c, fl, ts, u);
      RunAppend(c, fl, st, Traffic(init), u.evs);
      UnitBack(c, fl, Run(c, fl, st, Traffic(init)), ts, u);
    }
  }

  lemma RunNone(c: Codec, fl: Flags, st: State)
    ensures Run(c, fl, st, []) == st
  {
  }

  // Any number of units with one timestamp, arriving one after the other
  // among any packets of other timestamps: each comes back at its last
  // fragment, as if it were alone: its body under the header its packets show.
  lemma UnitsInTurn(c: Codec, fl: Flags, st: State, ts: u32, us: seq<Unit>, k: nat, i: nat)
    requires InTurn(c, fl, ts, us) && ViewOf(st, ts) == View(None, false)
    requires k < |us| && i < |us[k].evs| && us[k].evs[i].frame.header.timestamp == ts
    ensures |us[k].order| == |us[k].fs| >= 2
    ensures AllReadable(c, Traffic(us[..k + 1])) && |Traffic(us[..k])| + i < |Traffic(us[..k + 1])|
    ensures var u := us[k];
            var n, at, o := |u.fs|, |Project(u.evs[..i], ts)|, OutcomeAt(c, fl, st, Traffic(us[..k + 1]), |Traffic(us[..k])| + i);
            && at < n
            && (at < n - 1 ==> o == Held)
            && (at == n - 1 ==> o.Rebuilt? && o.header == u.evs[i].frame.header && o.size == |o.written|)
            && (at == n - 1 && InOrder(c, u.s, n, u.order[0]) ==>
                  o.written == ScPrefix(c, fl) + HeaderFrom(c, u.first) + u.body)
  {
    hide Readable, Run, OutcomeAt, InOrder, CarriesUnit, ViewOf, HeaderFrom, Delivers, OnTime;
    var u, before := us[k], us[..k];
    assert us[..k + 1][..k] == before && us[..k + 1][k] == u;
    assert Whole(c, fl, ts, u) && InTurn(c, fl, ts, before);
    NothingLeft(c, fl, st, ts, before);
    var between := Run(c, fl, st, Traffic(before));
    OutcomeAppend(c, fl, st, Traffic(before), u.evs, i);
    UnitBack(c, fl, between, ts, u);
  }

  lemma Absent(st: State, ts: u32)
    requires ViewOf(st, ts) == View(None, false)
    ensures ts !in st.frames && ts !in st.dropped
  {
  }
}
