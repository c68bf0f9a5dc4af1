// An H.265 unit sent over SRTP: fragmented, encrypted, delivered, decrypted and
// reassembled. What SRTP needs of the order of delivery is also all that the
// reassembly needs.
module SecureRoundTrip {
  import opened Common
  import opened H26xReceiver
  import opened H26xInvariants
  import opened H26xReassembly
  import opened H26xRoundTrip
  import opened SrtpIndex
  import opened SrtpKeys
  import opened Srtp

  function PlainStream(frames: nat -> Frame): nat -> Plain {
    (x: nat) => PlainOf(frames(x))
  }

  // What is passed on to the media handler.
  function Opened(f: Frame, v: Verdict): Frame {
    f.(payload := match v case Decrypted(p) => p case Untouched(p) => p case _ => [])
  }

  // The k-th delivery as the media handler sees it.
  function EventAt(suite: Suite, cfg: Config, keys: SessionKeys, frames: nat -> Frame, xs: seq<nat>, lates: nat -> bool, k: nat): Event
    requires k < |xs|
  {
    var ws := Delivered(suite, cfg, keys, PlainStream(frames), xs);
    Event(Opened(frames(xs[k]), VerdictOn(suite, cfg, keys, ws, k)), lates(k))
  }

  function Handled(suite: Suite, cfg: Config, keys: SessionKeys, frames: nat -> Frame, xs: seq<nat>, lates: nat -> bool)
    : (evs: seq<Event>)
    ensures |evs| == |xs|
  {
    seq(|xs|, k requires 0 <= k < |xs| => EventAt(suite, cfg, keys, frames, xs, lates, k))
  }

  // A stream of packets by position, protected without authentication.
  ghost predicate Protected(suite: Suite, cfg: Config, frames: nat -> Frame, xs: seq<nat>) {
    && suite.aes.Lawful() && !cfg.nullCipher && !cfg.authenticate
    && (forall x: nat :: frames(x).header.seqNo == x % CYCLE)
    && (forall x <- xs :: x < INDEX_LIMIT - 1)
    && CyclesInOrder(xs)
  }

  // Decryption hands on the packets as they were sent.
  lemma HandledAsSent(suite: Suite, cfg: Config, keys: SessionKeys, frames: nat -> Frame, xs: seq<nat>, lates: nat -> bool, k: nat)
    requires Protected(suite, cfg, frames, xs) && k < |xs|
    ensures Handled(suite, cfg, keys, frames, xs, lates)[k] == Event(frames(xs[k]), lates(k))
  {
    hide VerdictOn, Delivered, CyclesInOrder;
    var ps := PlainStream(frames);
    assert Stream(ps);
    PayloadReturns(suite, cfg, keys, ps, xs, k);
  }

  // ----- one unit in the stream -----

  // Indices of the unit's fragments in the order in which they are delivered,
  // when the unit takes positions x0 up to x0 + n.
  function OrderOf(xs: seq<nat>, x0: nat, n: nat): seq<nat> {
    if xs == [] then []
    else
      var rest, last := OrderOf(xs[..|xs| - 1], x0, n), xs[|xs| - 1];
      if x0 <= last < x0 + n then rest + [last - x0] else rest
  }

  // The unit's packets are in the stream from x0 on, and no other delivered
  // packet has their timestamp.
  ghost predicate InStream(frames: nat -> Frame, xs: seq<nat>, x0: nat, fs: seq<Frame>, ts: u32) {
    && (forall i :: 0 <= i < |fs| ==> fs[i].header.timestamp == ts && frames(x0 + i) == fs[i])
    && (forall x <- xs :: x < x0 || x0 + |fs| <= x ==> frames(x).header.timestamp != ts)
  }

  ghost predicate AsSent(evs: seq<Event>, frames: nat -> Frame, xs: seq<nat>) {
    |evs| == |xs| && forall k :: 0 <= k < |xs| ==> evs[k].frame == frames(xs[k])
  }

  lemma {:induction false} ProjectIsOrder(evs: seq<Event>, frames: nat -> Frame, xs: seq<nat>, x0: nat, fs: seq<Frame>, ts: u32)
    requires AsSent(evs, frames, xs) && InStream(frames, xs, x0, fs, ts)
    ensures var own, order := Project(evs, ts), OrderOf(xs, x0, |fs|);
            && |own| == |order|
            && forall j :: 0 <= j < |own| ==> order[j] < |fs| && own[j].frame == fs[order[j]]
    decreases |xs|
  {
    if xs != [] {
      var init, last := xs[..|xs| - 1], xs[|xs| - 1];
      ProjectIsOrder(evs[..|evs| - 1], frames, init, x0, fs, ts);
      assert last in xs;
      if x0 <= last < x0 + |fs| {
        assert frames(x0 + (last - x0)) == fs[last - x0];
      }
    }
  }

  lemma {:induction false} FirstOfOrder(xs: seq<nat>, x0: nat, n: nat) returns (a: nat)
    requires OrderOf(xs, x0, n) != []
    ensures a < |xs| && xs[a] == x0 + OrderOf(xs, x0, n)[0]
    ensures forall k :: 0 <= k < a ==> xs[k] < x0 || x0 + n <= xs[k]
    decreases |xs|
  {
    var init := xs[..|xs| - 1];
    if OrderOf(init, x0, n) == [] {
      a := |xs| - 1;
      NoneInside(init, x0, n);
    } else {
      a := FirstOfOrder(init, x0, n);
      assert OrderOf(xs, x0, n)[0] == OrderOf(init, x0, n)[0];
    }
  }

  lemma {:induction false} NoneInside(xs: seq<nat>, x0: nat, n: nat)
    requires OrderOf(xs, x0, n) == []
    ensures forall k :: 0 <= k < |xs| ==> xs[k] < x0 || x0 + n <= xs[k]
    decreases |xs|
  {
    if xs != [] {
      NoneInside(xs[..|xs| - 1], x0, n);
    }
  }

  lemma {:induction false} Member(xs: seq<nat>, x0: nat, n: nat, i: nat) returns (b: nat)
    requires i in OrderOf(xs, x0, n)
    ensures b < |xs| && xs[b] == x0 + i && i < n
    decreases |xs|
  {
    var init, last := xs[..|xs| - 1], xs[|xs| - 1];
    if i in OrderOf(init, x0, n) {
      b := Member(init, x0, n, i);
    } else {
      b := |xs| - 1;
    }
  }

  // Cycles in order keep the opening fragment before the wrap.
  lemma OpensBeforeWrap(xs: seq<nat>, x0: nat, n: nat)
    requires CyclesInOrder(xs) && 0 in OrderOf(xs, x0, n)
    ensures x0 % CYCLE + OrderOf(xs, x0, n)[0] < CYCLE
  {
    var order := OrderOf(xs, x0, n);
    var a := FirstOfOrder(xs, x0, n);
    var b := Member(xs, x0, n, 0);
    assert a <= b;
    assert xs[a] / CYCLE <= xs[b] / CYCLE;
    SameCycle(x0, order[0]);
  }

  lemma SameCycle(x: nat, d: nat)
    requires (x + d) / CYCLE <= x / CYCLE
    ensures x % CYCLE + d < CYCLE
  {
  }

  // The unit is sent from position x0 on, and of its fragments each arrives
  // exactly once and on time.
  ghost predicate UnitDelivered(frames: nat -> Frame, xs: seq<nat>, lates: nat -> bool, x0: nat, fl: Flags, data: seq<u8>,
                                size: nat, common: Header, evs: seq<Event>)
  {
    && Fragmented(data, size) && FragmentCount(H265, data, size) <= CYCLE
    && var fs := FuPackets(H265, data, size, common, x0 % CYCLE);
       && InStream(frames, xs, x0, fs, common.timestamp)
       && ArrivalOrder(OrderOf(xs, x0, |fs|), |fs|)
       && AllReadable(H265, evs)
       && OnTime(H265, fl, Project(evs, common.timestamp))
  }

  // End to end: with cycles delivered in order and authentication off, an
  // H.265 unit fragmented, encrypted and delivered among any other traffic is
  // returned exactly once, at its last fragment, and byte for byte if and only
  // if its header is one the format keeps, wherever its numbers wrap.
  lemma SecureUnitReturns(suite: Suite, cfg: Config, keys: SessionKeys, frames: nat -> Frame, xs: seq<nat>, lates: nat -> bool,
                          x0: nat, fl: Flags, data: seq<u8>, size: nat, common: Header, st: State, i: nat)
    requires Protected(suite, cfg, frames, xs)
    requires UnitDelivered(frames, xs, lates, x0, fl, data, size, common, Handled(suite, cfg, keys, frames, xs, lates))
    requires common.timestamp !in st.frames && common.timestamp !in st.dropped
    requires i < |xs| && x0 <= xs[i] < x0 + FragmentCount(H265, data, size)
    ensures var evs := Handled(suite, cfg, keys, frames, xs, lates);
            var n, at, o := FragmentCount(H265, data, size), |Project(evs[..i], common.timestamp)|, OutcomeAt(H265, fl, st, evs, i);
            && at < n
            && (at < n - 1 ==> o == Held)
            && (at == n - 1 ==> o.Rebuilt? && (o.written == ScPrefix(H265, fl) + data <==> HeaderKept(H265, data)))
  {
    hide FuPackets, HeaderKept, OutcomeAt, Readable, OnTime, Project, CyclesInOrder, EventAt, OrderOf, ScPrefix;
    var evs := Handled(suite, cfg, keys, frames, xs, lates);
    var s := x0 % CYCLE;
    var fs := FuPackets(H265, data, size, common, s);
    forall k | 0 <= k < |xs|
      ensures evs[k] == Event(frames(xs[k]), lates(k))
    {
      HandledAsSent(suite, cfg, keys, frames, xs, lates, k);
    }
    PacketsAreTrain(H265, data, size, common, s);
    AtLeastTwo(H265, data, size);
    ProjectIsOrder(evs, frames, xs, x0, fs, common.timestamp);
    var order := OrderOf(xs, x0, |fs|);
    var own := Project(evs, common.timestamp);
    ArrivalOrderCovers(order, |fs|);
    assert 0 in Elements(order);
    OpensBeforeWrap(xs, x0, |fs|);
    ProjectReadable(H265, evs, common.timestamp);
    assert frames(x0 + (xs[i] - x0)) == fs[xs[i] - x0];
    RoundTrip(H265, fl, st, evs, data, size, common, s, order, i);
  }
}
