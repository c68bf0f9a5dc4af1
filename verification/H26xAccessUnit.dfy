// Any number of large NAL units sent in one transaction, with one timestamp:
// exactly which of them come back, for every order in which their fragments
// arrive.
module H26xAccessUnit {
  import opened Common
  import opened FrameQueue
  import opened H26xReceiver
  import opened H26xInvariants
  import opened H26xReassembly
  import opened H26xSender
  import opened H26xRoundTrip
  import opened H26xSameTimestamp
  import opened H26xInterleaved
  import opened H26xTransaction

  // ----- whose fragment -----

  // The unit, among the first n, that packet x of the transaction belongs to.
  function Owner(ns: seq<nat>, n: nat, x: nat): (k: nat)
    requires n <= |ns| && x < Start(ns, n)
    ensures k < n && Start(ns, k) <= x < Start(ns, k) + ns[k]
  {
    if x >= Start(ns, n - 1) then n - 1 else Owner(ns, n - 1, x)
  }

  ghost predicate Within(ns: seq<nat>, order: seq<nat>) {
    forall i :: 0 <= i < |order| ==> order[i] < Start(ns, |ns|)
  }

  lemma UnitsApart(ns: seq<nat>, j: nat, k: nat)
    requires j < k <= |ns|
    ensures Start(ns, j) + ns[j] <= Start(ns, k)
  {
    hide Start;
    StartStep(ns, j);
    StartGrows(ns, j + 1, k);
  }

  lemma OwnerOnly(ns: seq<nat>, x: nat, k: nat)
    requires k < |ns| && Start(ns, k) <= x < Start(ns, k) + ns[k]
    ensures x < Start(ns, |ns|) && Owner(ns, |ns|, x) == k
  {
    hide Start;
    UnitsApart(ns, k, |ns|);
    var j := Owner(ns, |ns|, x);
    if j < k {
      UnitsApart(ns, j, k);
    } else if k < j {
      UnitsApart(ns, k, j);
    }
  }

  // The first n arrivals are those from lo up to hi.
  predicate First(order: seq<nat>, n: nat, lo: nat, hi: nat)
    requires n <= |order|
  {
    forall i :: 0 <= i < n ==> lo <= order[i] < hi
  }

  // What may be wrong with an order of arrival: the fragments of a unit are
  // broken off by another's, or those of a unit are not put in order.
  datatype Fault = Fine | Misplaced | Broken(k: nat)

  // Unit after unit, all of its fragments before the next one's.
  ghost function FaultOf(c: Codec, ns: seq<nat>, s: u16, order: seq<nat>): Fault
    requires Within(ns, order)
    decreases |order|
  {
    if order == [] then Fine
    else
      var k := Owner(ns, |ns|, order[0]);
      var n, from := ns[k], Start(ns, k);
      if !(n <= |order| && First(order, n, from, from + n)) then Broken(k)
      else if !InOrder(c, Number(s, from), n, order[0] - from) then Misplaced
      else FaultOf(c, ns, s, order[n..])
  }

  ghost predicate UnitByUnit(c: Codec, ns: seq<nat>, s: u16, order: seq<nat>)
    requires Within(ns, order)
  {
    FaultOf(c, ns, s, order).Fine?
  }

  // The units, in the order in which their first fragments arrive.
  ghost function UnitsOf(ns: seq<nat>, order: seq<nat>): seq<nat>
    requires Within(ns, order)
    decreases |order|
  {
    if order == [] then []
    else
      var k := Owner(ns, |ns|, order[0]);
      [k] + UnitsOf(ns, if ns[k] <= |order| then order[ns[k]..] else [])
  }

  // The arrivals from i up to j, counted from d.
  function Part(order: seq<nat>, i: nat, j: nat, d: nat): (part: seq<nat>)
    requires i <= j <= |order|
    ensures |part| == j - i
  {
    seq(j - i, k requires 0 <= k < j - i => if order[i + k] >= d then order[i + k] - d else 0)
  }

  // An arrival among the first n when those are all from d up to d + n.
  lemma AmongFirst(order: seq<nat>, n: nat, d: nat, x: nat) returns (i: nat)
    requires n <= |order| && Distinct(order) && First(order, n, d, d + n) && d <= x < d + n
    ensures i < n && order[i] == x
  {
    var part := Part(order, 0, n, d);
    assert forall j :: 0 <= j < n ==> part[j] == order[j] - d;
    ArrivalOrderCovers(part, n);
    assert x - d in Elements(part);
    i :| i < n && part[i] == x - d;
  }

  // Once a unit's fragments have all arrived, none is left.
  lemma NoneLeft(ns: seq<nat>, order: seq<nat>, k: nat)
    requires Within(ns, order) && Distinct(order) && k < |ns| && ns[k] <= |order|
    requires First(order, ns[k], Start(ns, k), Start(ns, k) + ns[k])
    ensures forall i :: ns[k] <= i < |order| ==> Owner(ns, |ns|, order[i]) != k
  {
    forall i | ns[k] <= i < |order|
      ensures Owner(ns, |ns|, order[i]) != k
    {
      if Owner(ns, |ns|, order[i]) == k {
        var j := AmongFirst(order, ns[k], Start(ns, k), order[i]);
        assert false;
      }
    }
  }

  // ----- the packets -----

  // Packets of several units: their counts, the first bytes whose headers they
  // show, and the bodies they carry.
  datatype Load = Load(fs: seq<Frame>, ns: seq<nat>, firsts: seq<u8>, bodies: seq<seq<u8>>, size: nat, s: u16, ts: u32)

  function Own(w: Load, k: nat): seq<Frame>
    requires k < |w.ns| && Start(w.ns, k) + w.ns[k] <= |w.fs|
  {
    w.fs[Start(w.ns, k)..Start(w.ns, k) + w.ns[k]]
  }

  ghost predicate CarriesAt(c: Codec, w: Load, k: nat)
    requires k < |w.ns| == |w.firsts| == |w.bodies|
  {
    && 2 <= w.ns[k] && Start(w.ns, k) + w.ns[k] <= |w.fs|
    && CarriesUnit(c, Own(w, k), w.firsts[k], w.bodies[k], w.size, Number(w.s, Start(w.ns, k)), w.ts)
  }

  ghost predicate Loaded(c: Codec, w: Load) {
    && |w.ns| == |w.firsts| == |w.bodies| && |w.fs| == Start(w.ns, |w.ns|) <= 0x1_0000
    && forall k :: 0 <= k < |w.ns| ==> CarriesAt(c, w, k)
  }

  // Packet x is a fragment with number x.
  lemma LoadedAt(c: Codec, w: Load, x: nat)
    requires Loaded(c, w) && x < |w.fs|
    ensures var f := w.fs[x];
            && f.header.timestamp == w.ts && f.header.seqNo == Number(w.s, x)
            && Readable(c, f) && IsPiece(GetFrag(c, f.payload))
  {
    hide GetFrag, WellFormedAp, Bodies, NalType, NalHeader, HeaderFrom;
    var k := Owner(w.ns, |w.ns|, x);
    var from := Start(w.ns, k);
    assert CarriesAt(c, w, k);
    assert Own(w, k)[x - from] == w.fs[x];
    NumberSum(w.s, from, x - from);
  }

  lemma LoadedStream(c: Codec, w: Load, order: seq<nat>)
    requires Loaded(c, w) && Within(w.ns, order) && Distinct(order)
    ensures Stream(c, Arrivals(w.fs, order), w.ts) && AllReadable(c, Arrivals(w.fs, order))
  {
    hide Loaded, Readable, IsPiece, GetFrag, Owner;
    LoadedSize(c, w);
    var evs := Arrivals(w.fs, order);
    forall i | 0 <= i < |evs|
      ensures FragmentEvent(c, evs[i]) && evs[i].frame.header.timestamp == w.ts
      ensures evs[i].frame.header.seqNo == Number(w.s, order[i])
    {
      LoadedAt(c, w, order[i]);
    }
    forall i, j | 0 <= i < j < |evs|
      ensures evs[i].frame.header.seqNo != evs[j].frame.header.seqNo
    {
      NumbersDiffer(w.s, order[i], order[j]);
    }
  }

  lemma LoadedSize(c: Codec, w: Load)
    requires Loaded(c, w)
    ensures |w.fs| == Start(w.ns, |w.ns|) <= 0x1_0000 && |w.ns| == |w.firsts| == |w.bodies|
  {
  }

  // ----- one unit at a time -----

  // What is returned for a unit: its body under the header shown, if its
  // fragments are put in order; otherwise something else, if its body is the
  // probe's.
  ghost predicate ReturnedAs(c: Codec, first: u8, body: seq<u8>, ordered: bool, x: seq<u8>) {
    && (ordered ==> x == HeaderFrom(c, first) + body)
    && (!ordered && body != [] && body == ProbeBody(|body|) ==> |x| > NalSize(c) && x[NalSize(c)] == 0)
  }

  lemma UnitYields(c: Codec, st: State, fs: seq<Frame>, first: u8, body: seq<u8>, size: nat, s: u16, ts: u32, order: seq<nat>)
    returns (x: seq<u8>)
    requires CarriesUnit(c, fs, first, body, size, s, ts) && ArrivalOrder(order, |fs|) && ts !in st.frames && ts !in st.dropped
    requires AllReadable(c, Arrivals(fs, order)) && |order| > 0
    ensures Yield(c, st, Arrivals(fs, order)) == [x] && ReturnedAs(c, first, body, InOrder(c, s, |fs|, order[0]), x)
    ensures ViewOf(Run(c, PLAIN, st, Arrivals(fs, order)), ts) == View(None, false)
  {
    hide CarriesUnit, InOrder, Filled, Range, HeaderFrom, OutcomeAt, Run, Readable, Yield, Ordered, OnTime;
    var evs := Arrivals(fs, order);
    NeverLate(c, evs);
    var m := UnitReturned(c, PLAIN, st, evs, fs, first, body, size, s, ts, order);
    var header, merged := HeaderFrom(c, first), Ordered(c, m, m.Keys);
    HeaderSized(c, first);
    assert ScPrefix(c, PLAIN) + header + merged == header + merged;
    x := header + merged;
    YieldOne(c, st, evs);
    if !InOrder(c, s, |fs|, order[0]) && body != [] && body == ProbeBody(|body|) {
      ProbeMerged(c, fs, first, |body|, size, s, ts, order[0], m);
      assert (header + merged)[|header|] == merged[0];
    }
  }

  // All fragments of one unit, then the rest.
  lemma BlockYields(c: Codec, w: Load, st: State, order: seq<nat>, k: nat) returns (x: seq<u8>, between: State)
    requires Loaded(c, w) && Within(w.ns, order) && Distinct(order) && w.ts !in st.frames && w.ts !in st.dropped
    requires k < |w.ns| && 0 < w.ns[k] <= |order| && First(order, w.ns[k], Start(w.ns, k), Start(w.ns, k) + w.ns[k])
    ensures AllReadable(c, Arrivals(w.fs, order)) && AllReadable(c, Arrivals(w.fs, order[w.ns[k]..]))
    ensures Yield(c, st, Arrivals(w.fs, order)) == [x] + Yield(c, between, Arrivals(w.fs, order[w.ns[k]..]))
    ensures w.ts !in between.frames && w.ts !in between.dropped
    ensures |w.firsts| == |w.bodies| == |w.ns|
    ensures var from := Start(w.ns, k);
            ReturnedAs(c, w.firsts[k], w.bodies[k], InOrder(c, Number(w.s, from), w.ns[k], order[0] - from), x)
  {
    hide Loaded, CarriesUnit, InOrder, Run, Readable, Yield, ReturnedAs, Stream, Arrivals, Number;
    LoadedSize(c, w);
    LoadedStream(c, w, order);
    var n, from := w.ns[k], Start(w.ns, k);
    LoadedOwn(c, w, k);
    var part, rest := Part(order, 0, n, from), order[n..];
    ArrivalsSplit(w.fs, order, from, n);
    LoadedStream(c, w, rest);
    LoadedStream(c, w, order[..n]);
    var own := Arrivals(Own(w, k), part);
    x := UnitYields(c, st, Own(w, k), w.firsts[k], w.bodies[k], w.size, Number(w.s, from), w.ts, part);
    between := Run(c, PLAIN, st, own);
    Absent(between, w.ts);
    YieldAppend(c, st, own, Arrivals(w.fs, rest));
  }

  lemma LoadedOwn(c: Codec, w: Load, k: nat)
    requires Loaded(c, w) && k < |w.ns|
    ensures Start(w.ns, k) + w.ns[k] <= |w.fs| && |Own(w, k)| == w.ns[k] >= 2
    ensures CarriesUnit(c, Own(w, k), w.firsts[k], w.bodies[k], w.size, Number(w.s, Start(w.ns, k)), w.ts)
  {
    hide CarriesUnit;
    assert CarriesAt(c, w, k);
  }

  lemma ArrivalsSplit(fs: seq<Frame>, order: seq<nat>, from: nat, n: nat)
    requires (forall i :: 0 <= i < |order| ==> order[i] < |fs|) && Distinct(order)
    requires 0 < n <= |order| && from + n <= |fs| && First(order, n, from, from + n)
    ensures ArrivalOrder(Part(order, 0, n, from), n) && Part(order, 0, n, from)[0] == order[0] - from
    ensures Arrivals(fs[from..from + n], Part(order, 0, n, from)) == Arrivals(fs, order[..n])
    ensures Arrivals(fs, order) == Arrivals(fs, order[..n]) + Arrivals(fs, order[n..])
  {
    var part := Part(order, 0, n, from);
    assert forall i :: 0 <= i < n ==> part[i] == order[i] - from && fs[from..from + n][part[i]] == fs[order[i]];
  }

  // ----- orders without fault -----

  // A step of the recursion over an order without fault so far.
  lemma FirstBlock(c: Codec, ns: seq<nat>, s: u16, order: seq<nat>)
    requires Within(ns, order) && order != [] && !FaultOf(c, ns, s, order).Broken?
    ensures var k := Owner(ns, |ns|, order[0]);
            && 0 < ns[k] <= |order| && First(order, ns[k], Start(ns, k), Start(ns, k) + ns[k])
            && UnitsOf(ns, order) == [k] + UnitsOf(ns, order[ns[k]..])
  {
  }

  function Shown(c: Codec, w: Load, k: nat): seq<u8> {
    if k < |w.firsts| && k < |w.bodies| then HeaderFrom(c, w.firsts[k]) + w.bodies[k] else []
  }

  function AllShown(c: Codec, w: Load, ks: seq<nat>): (xs: seq<seq<u8>>)
    ensures |xs| == |ks|
  {
    seq(|ks|, i requires 0 <= i < |ks| => Shown(c, w, ks[i]))
  }

  lemma AllShownFirst(c: Codec, w: Load, k: nat, ks: seq<nat>)
    ensures AllShown(c, w, [k] + ks) == [Shown(c, w, k)] + AllShown(c, w, ks)
  {
    hide Shown;
  }

  // Without fault every unit is returned, its body under the header shown.
  lemma {:induction false} FineYields(c: Codec, w: Load, st: State, order: seq<nat>)
    requires Loaded(c, w) && Within(w.ns, order) && Distinct(order) && w.ts !in st.frames && w.ts !in st.dropped
    requires UnitByUnit(c, w.ns, w.s, order)
    ensures AllReadable(c, Arrivals(w.fs, order))
    ensures Yield(c, st, Arrivals(w.fs, order)) == AllShown(c, w, UnitsOf(w.ns, order))
    decreases |order|
  {
    hide Loaded, InOrder, Readable, Yield, Arrivals, Number, First, Start, AllShown, HeaderFrom;
    LoadedSize(c, w);
    LoadedStream(c, w, order);
    if order == [] {
      NoArrivals(c, w, st);
    } else {
      FirstBlock(c, w.ns, w.s, order);
      var k := Owner(w.ns, |w.ns|, order[0]);
      var x, between := BlockYields(c, w, st, order, k);
      FineYields(c, w, between, order[w.ns[k]..]);
      AllShownFirst(c, w, k, UnitsOf(w.ns, order[w.ns[k]..]));
    }
  }

  lemma NoArrivals(c: Codec, w: Load, st: State)
    ensures Arrivals(w.fs, []) == [] && AllReadable(c, []) && Yield(c, st, []) == [] && AllShown(c, w, []) == []
  {
  }

  ghost predicate Owned(ns: seq<nat>, order: seq<nat>, k: nat)
    requires Within(ns, order)
  {
    exists i :: 0 <= i < |order| && Owner(ns, |ns|, order[i]) == k
  }

  // In an order of all fragments without fault, every unit has its turn once.
  lemma {:induction false} UnitsDistinct(c: Codec, ns: seq<nat>, s: u16, order: seq<nat>)
    requires Within(ns, order) && Distinct(order) && UnitByUnit(c, ns, s, order)
    ensures Distinct(UnitsOf(ns, order)) && forall k :: k in UnitsOf(ns, order) <==> Owned(ns, order, k)
    decreases |order|
  {
    hide InOrder, Number, First, Start, Owned, UnitsOf;
    if order == [] {
      NoUnits(ns);
    } else {
      FirstBlock(c, ns, s, order);
      var k := Owner(ns, |ns|, order[0]);
      var rest := order[ns[k]..];
      UnitsDistinct(c, ns, s, rest);
      forall j: nat
        ensures Owned(ns, order, j) <==> j == k || Owned(ns, rest, j)
      {
        OwnersSplit(ns, order, k, j);
      }
      OwnersSplit(ns, order, k, k);
      assert k !in UnitsOf(ns, rest);
    }
  }

  lemma NoUnits(ns: seq<nat>)
    ensures UnitsOf(ns, []) == [] && forall k :: !Owned(ns, [], k)
  {
  }

  // The owners of an order are the first unit and the owners of the rest.
  lemma OwnersSplit(ns: seq<nat>, order: seq<nat>, k: nat, j: nat)
    requires Within(ns, order) && Distinct(order) && k < |ns| && 0 < ns[k] <= |order|
    requires First(order, ns[k], Start(ns, k), Start(ns, k) + ns[k])
    ensures !Owned(ns, order[ns[k]..], k) && (Owned(ns, order, j) <==> j == k || Owned(ns, order[ns[k]..], j))
  {
    hide Start, Owner, First;
    var rest := order[ns[k]..];
    NoneLeft(ns, order, k);
    FirstOwned(ns, order, k);
    assert forall i :: 0 <= i < |rest| ==> rest[i] == order[ns[k] + i];
    assert Owner(ns, |ns|, order[0]) == k;
    if Owned(ns, order, j) && j != k {
      var i :| 0 <= i < |order| && Owner(ns, |ns|, order[i]) == j;
      assert rest[i - ns[k]] == order[i];
    }
  }

  lemma FirstOwned(ns: seq<nat>, order: seq<nat>, k: nat)
    requires Within(ns, order) && k < |ns| && ns[k] <= |order|
    requires First(order, ns[k], Start(ns, k), Start(ns, k) + ns[k])
    ensures forall i :: 0 <= i < ns[k] ==> Owner(ns, |ns|, order[i]) == k
  {
    hide Owner, Start;
    forall i | 0 <= i < ns[k]
      ensures Owner(ns, |ns|, order[i]) == k
    {
      OwnerOnly(ns, order[i], k);
    }
  }

  lemma UnitsOnce(c: Codec, ns: seq<nat>, s: u16, order: seq<nat>)
    requires ArrivalOrder(order, Start(ns, |ns|)) && UnitByUnit(c, ns, s, order) && forall k :: 0 <= k < |ns| ==> ns[k] > 0
    ensures ArrivalOrder(UnitsOf(ns, order), |ns|)
  {
    hide Owner, UnitByUnit, Start, UnitsOf;
    var ks := UnitsOf(ns, order);
    UnitsDistinct(c, ns, s, order);
    ArrivalOrderCovers(order, Start(ns, |ns|));
    forall k | 0 <= k < |ns|
      ensures k in ks
    {
      OwnerOnly(ns, Start(ns, k), k);
      assert Start(ns, k) in Elements(order);
      var i :| 0 <= i < |order| && order[i] == Start(ns, k);
      assert Owned(ns, order, k);
    }
    forall i | 0 <= i < |ks|
      ensures ks[i] < |ns|
    {
      OwnedBelow(ns, order, ks[i]);
    }
    assert Elements(ks) == Range(0, |ns|);
    RangeSize(0, |ns|);
    DistinctSize(ks);
  }

  lemma OwnedBelow(ns: seq<nat>, order: seq<nat>, k: nat)
    requires Within(ns, order) && Owned(ns, order, k)
    ensures k < |ns|
  {
  }

  // ----- orders with a fault -----

  // Units with these bodies.
  ghost predicate Bodied(c: Codec, w: Load, us: seq<seq<u8>>) {
    && |us| == |w.ns| == |w.bodies|
    && forall l :: 0 <= l < |us| ==> |us[l]| > NalSize(c) && us[l][NalSize(c)..] == w.bodies[l]
  }

  ghost predicate AllBytes(body: seq<u8>, v: u8) {
    body != [] && forall i :: 0 <= i < |body| ==> body[i] == v
  }

  // Bodies that tell the fault: zeros for the unit broken off and ones for the
  // others, or the probe's.
  ghost predicate Tells(w: Load, f: Fault, l: nat)
    requires l < |w.bodies|
  {
    match f
    case Fine => true
    case Misplaced => w.bodies[l] != [] && w.bodies[l] == ProbeBody(|w.bodies[l]|)
    case Broken(j) => AllBytes(w.bodies[l], if l == j then 0 else 1)
  }

  ghost predicate AllTell(w: Load, f: Fault) {
    forall l :: 0 <= l < |w.bodies| ==> Tells(w, f, l)
  }

  // No fragment of these units is left in the order.
  ghost predicate Clear(ns: seq<nat>, order: seq<nat>, done: set<nat>)
    requires Within(ns, order)
  {
    done <= Range(0, |ns|) && forall i :: 0 <= i < |order| ==> Owner(ns, |ns|, order[i]) !in done
  }

  lemma ClearFirst(ns: seq<nat>, order: seq<nat>, done: set<nat>)
    requires Within(ns, order) && order != [] && Clear(ns, order, done)
    ensures var k := Owner(ns, |ns|, order[0]); |done| < |ns| && |done + {k}| == |done| + 1
  {
    StillMissing(done, Owner(ns, |ns|, order[0]), |ns|);
  }

  lemma ClearRest(ns: seq<nat>, order: seq<nat>, done: set<nat>)
    requires Within(ns, order) && Distinct(order) && order != [] && Clear(ns, order, done)
    requires var k := Owner(ns, |ns|, order[0]); ns[k] <= |order| && First(order, ns[k], Start(ns, k), Start(ns, k) + ns[k])
    ensures var k := Owner(ns, |ns|, order[0]); Within(ns, order[ns[k]..]) && Clear(ns, order[ns[k]..], done + {k})
  {
    hide Start, First;
    var k := Owner(ns, |ns|, order[0]);
    assert k < |ns|;
    hide Owner;
    StillMissing(done, k, |ns|);
    NoneLeft(ns, order, k);
    assert forall i :: 0 <= i < |order[ns[k]..]| ==> order[ns[k]..][i] == order[ns[k] + i];
  }

  // Too few frames, or one that is none of the units.
  ghost predicate Lost(got: seq<seq<u8>>, us: seq<seq<u8>>, had: nat) {
    |got| + had < |us| || exists i :: 0 <= i < |got| && got[i] !in us
  }

  // The body of packet x, by the unit it belongs to.
  lemma LoadedBody(c: Codec, w: Load, x: nat, v: u8)
    requires Loaded(c, w) && x < |w.fs| && AllBytes(w.bodies[Owner(w.ns, |w.ns|, x)], v)
    ensures Body(c, w.fs[x]) != [] && Body(c, w.fs[x])[0] == v
  {
    hide Body, Train, Pieces, NalType, NalHeader, HeaderFrom;
    var k := Owner(w.ns, |w.ns|, x);
    LoadedOwn(c, w, k);
    var i := x - Start(w.ns, k);
    assert Own(w, k)[i] == w.fs[x];
    UniformPieces(w.bodies[k], w.size, v);
    BodyIsPiece(c, Own(w, k), Pieces(w.bodies[k], w.size), i);
  }

  // A frame returned from arrivals of one unit alone takes all its fragments.
  lemma WholeUnit(c: Codec, w: Load, st: State, order: seq<nat>, k: nat, last: nat)
    requires Loaded(c, w) && Within(w.ns, order) && Distinct(order) && w.ts !in st.frames && w.ts !in st.dropped
    requires k < |w.ns| && last < |order| && First(order, last + 1, Start(w.ns, k), Start(w.ns, k) + w.ns[k])
    requires AllReadable(c, Arrivals(w.fs, order)) && OutcomeAt(c, PLAIN, st, Arrivals(w.fs, order), last).Rebuilt?
    ensures w.ns[k] <= last + 1
  {
    hide OutcomeAt, Run, Train, Readable, DropsLate, Progress, Loaded, Bodies, NalType, NalHeader, HeaderFrom, Start;
    LoadedSize(c, w);
    LoadedOwn(c, w, k);
    if last + 1 < w.ns[k] {
      var evs, us, from := Arrivals(w.fs, order), Own(w, k), Start(w.ns, k);
      var own := Part(order, 0, last + 1, from);
      forall i | 0 <= i < last + 1
        ensures own[i] < |us| && evs[i].frame == us[own[i]] && !evs[i].late
      {
        assert us[order[i] - from] == w.fs[order[i]];
      }
      BeginsPlain(c, us, own, evs);
      TrainProgress(c, PLAIN, st, us, Number(w.s, from), w.ts, own, evs, last + 1);
      assert false;
    }
  }

  lemma BeginsPlain(c: Codec, us: seq<Frame>, own: seq<nat>, evs: seq<Event>)
    requires |own| <= |evs| && Distinct(own)
    requires forall i :: 0 <= i < |own| ==> own[i] < |us| && evs[i].frame == us[own[i]] && !evs[i].late
    ensures Begins(c, PLAIN, us, own, evs, |own|)
  {
    hide NalType;
    assert own[..|own|] == own;
  }

  // The first unit is broken off: nothing is returned, or first a frame that
  // is none of the units.
  lemma BrokenLost(c: Codec, w: Load, st: State, order: seq<nat>, us: seq<seq<u8>>)
    requires Loaded(c, w) && Within(w.ns, order) && Distinct(order) && w.ts !in st.frames && w.ts !in st.dropped
    requires order != [] && Bodied(c, w, us)
    requires var k := Owner(w.ns, |w.ns|, order[0]);
             && AllTell(w, Broken(k))
             && !(w.ns[k] <= |order| && First(order, w.ns[k], Start(w.ns, k), Start(w.ns, k) + w.ns[k]))
    ensures AllReadable(c, Arrivals(w.fs, order))
    ensures Yield(c, st, Arrivals(w.fs, order)) == [] || Yield(c, st, Arrivals(w.fs, order))[0] !in us
  {
    hide Loaded, OutcomeAt, Yield, Stream, Readable, Body, Start, FirstAt, Bodied;
    LoadedSize(c, w);
    LoadedStream(c, w, order);
    var evs := Arrivals(w.fs, order);
    if Yield(c, st, evs) != [] && Yield(c, st, evs)[0] in us {
      var l :| 0 <= l < |us| && us[l] == Yield(c, st, evs)[0];
      var last := YieldFirst(c, st, evs);
      BrokenOff(c, w, st, order, us, l, last);
      assert false;
    }
  }

  lemma BrokenOff(c: Codec, w: Load, st: State, order: seq<nat>, us: seq<seq<u8>>, l: nat, last: nat)
    requires Loaded(c, w) && Within(w.ns, order) && Distinct(order) && w.ts !in st.frames && w.ts !in st.dropped
    requires order != [] && Bodied(c, w, us) && l < |us|
    requires AllReadable(c, Arrivals(w.fs, order)) && Stream(c, Arrivals(w.fs, order), w.ts)
    requires FirstAt(c, st, Arrivals(w.fs, order), last) && OutcomeAt(c, PLAIN, st, Arrivals(w.fs, order), last).written == us[l]
    requires AllTell(w, Broken(Owner(w.ns, |w.ns|, order[0])))
    ensures var k := Owner(w.ns, |w.ns|, order[0]);
            w.ns[k] <= |order| && First(order, w.ns[k], Start(w.ns, k), Start(w.ns, k) + w.ns[k])
  {
    hide Loaded, OutcomeAt, Yield, Stream, Readable, Body, Start;
    LoadedSize(c, w);
    var evs, k := Arrivals(w.fs, order), Owner(w.ns, |w.ns|, order[0]);
    var v: u8 := if l == k then 0 else 1;
    assert Tells(w, Broken(k), l);
    assert forall i :: NalSize(c) <= i < |us[l]| ==> us[l][i] == w.bodies[l][i - NalSize(c)];
    FirstBytes(c, st, evs, w.ts, last, us[l], v);
    forall i | 0 <= i < last + 1
      ensures Owner(w.ns, |w.ns|, order[i]) == k <==> v == 0
    {
      var o := Owner(w.ns, |w.ns|, order[i]);
      assert Tells(w, Broken(k), o);
      LoadedBody(c, w, order[i], if o == k then 0 else 1);
      assert evs[i].frame == w.fs[order[i]];
      assert Body(c, evs[i].frame)[0] == v;
    }
    assert v == 0;
    WholeUnit(c, w, st, order, k, last);
  }

  // With a fault, bodies that tell it are not all returned.
  lemma {:induction false} FaultLost(c: Codec, w: Load, st: State, order: seq<nat>, us: seq<seq<u8>>, done: set<nat>)
    requires Loaded(c, w) && Within(w.ns, order) && Distinct(order) && w.ts !in st.frames && w.ts !in st.dropped
    requires Bodied(c, w, us) && !UnitByUnit(c, w.ns, w.s, order)
    requires AllTell(w, FaultOf(c, w.ns, w.s, order)) && Clear(w.ns, order, done)
    ensures AllReadable(c, Arrivals(w.fs, order)) && Lost(Yield(c, st, Arrivals(w.fs, order)), us, |done|)
    decreases |order|
  {
    hide Loaded, InOrder, Readable, Yield, Arrivals, Number, First, Start, ReturnedAs, Bodied, AllTell, Clear, Lost, FaultOf,
      UnitByUnit, Distinct;
    LoadedSize(c, w);
    LoadedStream(c, w, order);
    FaultStep(c, w.ns, w.s, order);
    var k := Owner(w.ns, |w.ns|, order[0]);
    var n, from := w.ns[k], Start(w.ns, k);
    ClearFirst(w.ns, order, done);
    SizeOf(c, w, us);
    if !(n <= |order| && First(order, n, from, from + n)) {
      BrokenLost(c, w, st, order, us);
      LostAtOnce(Yield(c, st, Arrivals(w.fs, order)), us, |done|);
    } else {
      LoadedOwn(c, w, k);
      var x, between := BlockYields(c, w, st, order, k);
      var rest := order[n..];
      if !InOrder(c, Number(w.s, from), n, order[0] - from) {
        MisplacedLost(c, w, us, k, x);
        LostFirst(x, Yield(c, between, Arrivals(w.fs, rest)), us, |done|);
      } else {
        ClearRest(w.ns, order, done);
        DistinctRest(order, n);
        FaultLost(c, w, between, rest, us, done + {k});
        LostAfter(x, Yield(c, between, Arrivals(w.fs, rest)), us, |done|);
      }
    }
  }

  lemma FaultStep(c: Codec, ns: seq<nat>, s: u16, order: seq<nat>)
    requires Within(ns, order) && !UnitByUnit(c, ns, s, order)
    ensures order != []
    ensures var k := Owner(ns, |ns|, order[0]);
            var n, from := ns[k], Start(ns, k);
            if !(n <= |order| && First(order, n, from, from + n)) then FaultOf(c, ns, s, order) == Broken(k)
            else if !InOrder(c, Number(s, from), n, order[0] - from) then FaultOf(c, ns, s, order) == Misplaced
            else && !UnitByUnit(c, ns, s, order[n..]) && FaultOf(c, ns, s, order) == FaultOf(c, ns, s, order[n..])
  {
    hide InOrder, Start, First, Number;
  }

  lemma LostAtOnce(got: seq<seq<u8>>, us: seq<seq<u8>>, had: nat)
    requires had < |us| && (got == [] || got[0] !in us)
    ensures Lost(got, us, had)
  {
  }

  lemma LostFirst(x: seq<u8>, got: seq<seq<u8>>, us: seq<seq<u8>>, had: nat)
    requires x !in us
    ensures Lost([x] + got, us, had)
  {
    assert ([x] + got)[0] == x;
  }

  lemma DistinctRest(order: seq<nat>, n: nat)
    requires Distinct(order) && n <= |order|
    ensures Distinct(order[n..])
  {
  }

  lemma SizeOf(c: Codec, w: Load, us: seq<seq<u8>>)
    requires Bodied(c, w, us)
    ensures |us| == |w.ns| == |w.bodies|
  {
  }

  lemma StillMissing(done: set<nat>, k: nat, n: nat)
    requires done <= Range(0, n) && k !in done && k < n
    ensures |done| < n && |done + {k}| == |done| + 1 && done + {k} <= Range(0, n)
  {
    SubsetSize(done + {k}, Range(0, n));
    RangeSize(0, n);
  }

  lemma LostAfter(x: seq<u8>, got: seq<seq<u8>>, us: seq<seq<u8>>, had: nat)
    requires Lost(got, us, had + 1)
    ensures Lost([x] + got, us, had)
  {
    if i :| 0 <= i < |got| && got[i] !in us {
      assert ([x] + got)[i + 1] == got[i];
    }
  }

  lemma MisplacedLost(c: Codec, w: Load, us: seq<seq<u8>>, k: nat, x: seq<u8>)
    requires Bodied(c, w, us) && k < |w.bodies| == |w.firsts| && AllTell(w, Misplaced)
    requires ReturnedAs(c, w.firsts[k], w.bodies[k], false, x)
    ensures x !in us
  {
    hide HeaderFrom;
    assert Tells(w, Misplaced, k);
    forall l | 0 <= l < |us|
      ensures us[l] != x
    {
      assert Tells(w, Misplaced, l);
      assert us[l][NalSize(c)] == w.bodies[l][0];
    }
  }

  // ----- one transaction -----

  function CountsOf(c: Codec, size: nat, lens: seq<nat>): (ns: seq<nat>)
    requires size > 0
    ensures |ns| == |lens|
  {
    seq(|lens|, k requires 0 <= k < |lens| => PieceCount(if lens[k] > NalSize(c) then lens[k] - NalSize(c) else 0, size))
  }

  function Lengths(us: seq<seq<u8>>): (lens: seq<nat>)
    ensures |lens| == |us|
  {
    seq(|us|, k requires 0 <= k < |us| => |us[k]|)
  }

  // Lengths of large units, and an order in which all their fragments arrive.
  ghost predicate Orders(c: Codec, size: nat, lens: seq<nat>, order: seq<nat>) {
    && size > 0 && lens != [] && (forall k :: 0 <= k < |lens| ==> lens[k] > size + 3)
    && Start(CountsOf(c, size, lens), |lens|) <= 0x1_0000
    && ArrivalOrder(order, Start(CountsOf(c, size, lens), |lens|))
  }

  lemma CountsAre(c: Codec, size: nat, us: seq<seq<u8>>)
    requires AllLarge(size, us)
    ensures Counts(c, size, us) == CountsOf(c, size, Lengths(us))
  {
    hide Pieces, PieceCount;
    forall k | 0 <= k < |us|
      ensures Counts(c, size, us)[k] == CountsOf(c, size, Lengths(us))[k]
    {
      PiecesCounted(us[k][NalSize(c)..], size);
    }
  }

  function LoadOf(c: Codec, size: nat, copies: bool, common: Header, s: u16, us: seq<seq<u8>>): Load
    requires AllLarge(size, us)
  {
    Load(WireOf(c, size, copies, common, s, us), Counts(c, size, us),
         seq(|us|, k requires 0 <= k < |us| => ShownFirst(copies, us, k)),
         seq(|us|, k requires 0 <= k < |us| => us[k][NalSize(c)..]), size, s, common.timestamp)
  }

  lemma WireLoaded(c: Codec, size: nat, copies: bool, common: Header, s: u16, us: seq<seq<u8>>, order: seq<nat>)
    requires AllLarge(size, us) && Orders(c, size, Lengths(us), order)
    ensures var w := LoadOf(c, size, copies, common, s, us);
            && Loaded(c, w) && Within(w.ns, order) && Distinct(order) && Bodied(c, w, us)
            && ArrivalOrder(order, Start(w.ns, |w.ns|)) && w.ns == CountsOf(c, size, Lengths(us))
            && (forall k :: 0 <= k < |w.ns| ==> w.ns[k] > 0)
            && (forall i :: 0 <= i < |order| ==> order[i] < |w.fs|) && AllReadable(c, Arrivals(w.fs, order))
  {
    hide WireOf, CarriesUnit, CountsOf, Pieces, Start, ShownFirst, Readable;
    CountsAre(c, size, us);
    var w := LoadOf(c, size, copies, common, s, us);
    WireSize(c, size, copies, common, s, us);
    forall k | 0 <= k < |w.ns|
      ensures CarriesAt(c, w, k)
    {
      WireCarries(c, size, copies, common, s, us, k);
      UnitInside(c, size, us, k);
    }
    LoadedStream(c, w, order);
  }

  // What a receiver that knows nothing of the timestamp returns.
  ghost function Returned(c: Codec, size: nat, copies: bool, common: Header, s: u16, us: seq<seq<u8>>, order: seq<nat>): seq<seq<u8>>
    requires AllLarge(size, us) && Orders(c, size, Lengths(us), order)
  {
    WireLoaded(c, size, copies, common, s, us, order);
    Yield(c, EMPTY, Arrivals(WireOf(c, size, copies, common, s, us), order))
  }

  function Permuted(us: seq<seq<u8>>, p: seq<nat>): (xs: seq<seq<u8>>)
    ensures |xs| == |p|
  {
    seq(|p|, i requires 0 <= i < |p| => if p[i] < |us| then us[p[i]] else [])
  }

  // Every unit comes back once, and nothing else.
  ghost predicate AllBack(us: seq<seq<u8>>, got: seq<seq<u8>>) {
    exists p :: ArrivalOrder(p, |us|) && got == Permuted(us, p)
  }

  // Headers that the fragments of a unit carry.
  predicate SameHeader(c: Codec, x: u8, y: u8) {
    if c.H264? then x == y else UnitType(c, x) == UnitType(c, y)
  }

  // The format keeps the unit's header, and its fragments show it: they are
  // copied, or the last unit of the transaction has the same.
  predicate Intact(c: Codec, copies: bool, us: seq<seq<u8>>, k: nat)
    requires k < |us| && forall i :: 0 <= i < |us| ==> |us[i]| >= 2
  {
    HeaderKept(c, us[k]) && (copies || SameHeader(c, us[k][0], Last(us)[0]))
  }

  lemma ShownExactly(c: Codec, copies: bool, us: seq<seq<u8>>, k: nat)
    requires k < |us| && forall i :: 0 <= i < |us| ==> |us[i]| > 3
    ensures HeaderFrom(c, ShownFirst(copies, us, k)) == us[k][..NalSize(c)] <==> Intact(c, copies, us, k)
    ensures HeaderFrom(c, ShownFirst(copies, us, k)) + us[k][NalSize(c)..] == us[k] <==> Intact(c, copies, us, k)
  {
    var u, shown := us[k], HeaderFrom(c, ShownFirst(copies, us, k));
    HeaderSized(c, ShownFirst(copies, us, k));
    assert u == u[..NalSize(c)] + u[NalSize(c)..];
    assert (shown + u[NalSize(c)..])[..NalSize(c)] == shown;
    RebuiltHeader(c, u);
  }

  // What comes back of a transaction whose units arrive one by one: of each
  // unit its body, under the header that its fragments show.
  lemma ReturnedInTurn(c: Codec, size: nat, copies: bool, common: Header, s: u16, us: seq<seq<u8>>, order: seq<nat>)
    requires AllLarge(size, us) && Orders(c, size, Lengths(us), order)
    requires Within(CountsOf(c, size, Lengths(us)), order) && UnitByUnit(c, CountsOf(c, size, Lengths(us)), s, order)
    ensures var p := UnitsOf(CountsOf(c, size, Lengths(us)), order);
            var got := Returned(c, size, copies, common, s, us, order);
            && ArrivalOrder(p, |us|) && |got| == |us|
            && forall i :: 0 <= i < |us| ==>
                 got[i] == HeaderFrom(c, ShownFirst(copies, us, p[i])) + us[p[i]][NalSize(c)..]
  {
    hide CountsOf, Loaded, WireOf, Counts, Yield, HeaderFrom, ShownFirst, UnitByUnit, UnitsOf, Readable, Start, Bodied;
    WireLoaded(c, size, copies, common, s, us, order);
    var w := LoadOf(c, size, copies, common, s, us);
    UnitsOnce(c, w.ns, s, order);
    FineYields(c, w, EMPTY, order);
  }

  // For every transaction whose units arrive one by one: all units come back
  // if and only if each is intact, and a unit comes back in its turn if and
  // only if it is.
  lemma IntactExactly(c: Codec, size: nat, copies: bool, common: Header, s: u16, us: seq<seq<u8>>, order: seq<nat>)
    requires AllLarge(size, us) && Orders(c, size, Lengths(us), order)
    requires Within(CountsOf(c, size, Lengths(us)), order) && UnitByUnit(c, CountsOf(c, size, Lengths(us)), s, order)
    ensures var p := UnitsOf(CountsOf(c, size, Lengths(us)), order);
            var got := Returned(c, size, copies, common, s, us, order);
            && ArrivalOrder(p, |us|) && |got| == |us|
            && (forall i :: 0 <= i < |us| ==> (got[i] == us[p[i]] <==> Intact(c, copies, us, p[i])))
            && (AllBack(us, got) <==> forall k :: 0 <= k < |us| ==> Intact(c, copies, us, k))
  {
    hide CountsOf, Returned, HeaderFrom, ShownFirst, UnitByUnit, UnitsOf, Intact, Orders, AllBack;
    var p := UnitsOf(CountsOf(c, size, Lengths(us)), order);
    var got := Returned(c, size, copies, common, s, us, order);
    ReturnedInTurn(c, size, copies, common, s, us, order);
    forall i | 0 <= i < |us|
      ensures got[i] == us[p[i]] <==> Intact(c, copies, us, p[i])
    {
      ShownExactly(c, copies, us, p[i]);
    }
    if AllBack(us, got) {
      forall k | 0 <= k < |us|
        ensures Intact(c, copies, us, k)
      {
        BackIsIntact(c, copies, us, got, p, k);
      }
    } else {
      BackIfIntact(c, copies, us, got, p);
    }
  }

  // A unit among the frames returned has the header that some unit's fragments
  // show, so its own are intact.
  lemma BackIsIntact(c: Codec, copies: bool, us: seq<seq<u8>>, got: seq<seq<u8>>, p: seq<nat>, k: nat)
    requires (forall i :: 0 <= i < |us| ==> |us[i]| > 3) && k < |us| == |got| && AllBack(us, got) && ArrivalOrder(p, |us|)
    requires forall i :: 0 <= i < |us| ==> got[i] == HeaderFrom(c, ShownFirst(copies, us, p[i])) + us[p[i]][NalSize(c)..]
    ensures Intact(c, copies, us, k)
  {
    hide HeaderFrom, ShownFirst, Intact;
    var q :| ArrivalOrder(q, |us|) && got == Permuted(us, q);
    ArrivalOrderCovers(q, |us|);
    assert k in Elements(q);
    var i :| 0 <= i < |us| && q[i] == k;
    assert got[i] == us[k];
    HeaderSized(c, ShownFirst(copies, us, p[i]));
    assert us[k][..NalSize(c)] == HeaderFrom(c, ShownFirst(copies, us, p[i]));
    HeaderShared(c, copies, us, p[i], k);
  }

  lemma HeaderShared(c: Codec, copies: bool, us: seq<seq<u8>>, j: nat, k: nat)
    requires (forall i :: 0 <= i < |us| ==> |us[i]| > 3) && j < |us| && k < |us|
    requires us[k][..NalSize(c)] == HeaderFrom(c, ShownFirst(copies, us, j))
    ensures Intact(c, copies, us, k)
  {
    var u, first := us[k], ShownFirst(copies, us, j);
    assert u[0] == u[..NalSize(c)][0];
    if c.H265? {
      assert u[1] == u[..NalSize(c)][1];
      assert UnitType(c, u[0]) == UnitType(c, first);
    }
  }

  lemma BackIfIntact(c: Codec, copies: bool, us: seq<seq<u8>>, got: seq<seq<u8>>, p: seq<nat>)
    requires (forall i :: 0 <= i < |us| ==> |us[i]| > 3) && |us| == |got| && ArrivalOrder(p, |us|)
    requires forall i :: 0 <= i < |us| ==> (got[i] == us[p[i]] <==> Intact(c, copies, us, p[i]))
    ensures (forall k :: 0 <= k < |us| ==> Intact(c, copies, us, k)) ==> AllBack(us, got)
  {
    hide Intact;
    if forall k :: 0 <= k < |us| ==> Intact(c, copies, us, k) {
      assert got == Permuted(us, p);
    }
  }

  // ----- every order of arrival -----

  // A unit all of whose payload bytes are v.
  function Uniform(c: Codec, len: nat, v: u8): (data: seq<u8>)
    requires len > 3
    ensures |data| == len
  {
    (if c.H264? then [2] else [2, 1]) + seq(len - NalSize(c), i => v)
  }

  // Units that tell the fault.
  function Witness(c: Codec, lens: seq<nat>, f: Fault): (us: seq<seq<u8>>)
    requires forall k :: 0 <= k < |lens| ==> lens[k] > 3
    ensures |us| == |lens|
  {
    seq(|lens|, k requires 0 <= k < |lens| =>
      if f.Broken? then Uniform(c, lens[k], if k == f.k then 0 else 1) else Probe(c, lens[k]))
  }

  lemma WitnessAt(c: Codec, lens: seq<nat>, f: Fault, k: nat)
    requires k < |lens| && forall k :: 0 <= k < |lens| ==> lens[k] > 3
    ensures var u := Witness(c, lens, f)[k];
            && |u| == lens[k] && HeaderKept(c, u) && u[0] == 2
            && (f.Broken? ==> AllBytes(u[NalSize(c)..], if k == f.k then 0 else 1))
            && (!f.Broken? ==> u[NalSize(c)..] == ProbeBody(|u[NalSize(c)..]|))
  {
  }

  ghost predicate AllIntact(c: Codec, size: nat, copies: bool, us: seq<seq<u8>>) {
    AllLarge(size, us) && forall k :: 0 <= k < |us| ==> Intact(c, copies, us, k)
  }

  lemma WitnessIntact(c: Codec, size: nat, copies: bool, lens: seq<nat>, f: Fault)
    requires size > 0 && lens != [] && forall k :: 0 <= k < |lens| ==> lens[k] > size + 3
    ensures Lengths(Witness(c, lens, f)) == lens && AllIntact(c, size, copies, Witness(c, lens, f))
  {
    hide Witness, HeaderKept;
    var us := Witness(c, lens, f);
    WitnessSize(c, lens, f);
    WitnessAt(c, lens, f, |lens| - 1);
    forall k | 0 <= k < |lens|
      ensures |us[k]| == lens[k] && Intact(c, copies, us, k)
    {
      WitnessAt(c, lens, f, k);
    }
  }

  lemma WitnessSize(c: Codec, lens: seq<nat>, f: Fault)
    requires forall k :: 0 <= k < |lens| ==> lens[k] > 3
    ensures |Witness(c, lens, f)| == |lens| && forall k :: 0 <= k < |lens| ==> |Witness(c, lens, f)[k]| == lens[k]
  {
  }

  // Any number of large units in one transaction, each fragment arriving once
  // and on time in any order: for given lengths and numbering, all units of
  // every transaction whose units are intact come back if and only if the
  // fragments of each unit arrive without another's in between and are put in
  // order.
  lemma OrderExactly(c: Codec, size: nat, copies: bool, common: Header, s: u16, lens: seq<nat>, order: seq<nat>)
    requires Orders(c, size, lens, order)
    ensures Within(CountsOf(c, size, lens), order)
    ensures (forall us | Lengths(us) == lens && AllIntact(c, size, copies, us) ::
               AllBack(us, Returned(c, size, copies, common, s, us, order)))
            <==> UnitByUnit(c, CountsOf(c, size, lens), s, order)
  {
    hide CountsOf, Returned, UnitByUnit, AllBack, Start, Intact, UnitsOf, Witness;
    if UnitByUnit(c, CountsOf(c, size, lens), s, order) {
      forall us | Lengths(us) == lens && AllIntact(c, size, copies, us)
        ensures AllBack(us, Returned(c, size, copies, common, s, us, order))
      {
        IntactExactly(c, size, copies, common, s, us, order);
      }
    } else {
      var us := Witness(c, lens, FaultOf(c, CountsOf(c, size, lens), s, order));
      WitnessIntact(c, size, copies, lens, FaultOf(c, CountsOf(c, size, lens), s, order));
      WitnessLost(c, size, copies, common, s, lens, order);
    }
  }

  lemma WitnessLost(c: Codec, size: nat, copies: bool, common: Header, s: u16, lens: seq<nat>, order: seq<nat>)
    requires Orders(c, size, lens, order) && Within(CountsOf(c, size, lens), order)
    requires !UnitByUnit(c, CountsOf(c, size, lens), s, order)
    ensures var us := Witness(c, lens, FaultOf(c, CountsOf(c, size, lens), s, order));
            && Lengths(us) == lens && AllLarge(size, us)
            && !AllBack(us, Returned(c, size, copies, common, s, us, order))
  {
    hide CountsOf, FaultOf, AllBack, Start, Witness, Loaded, WireOf, Counts, Yield, Readable, Intact;
    var f := FaultOf(c, CountsOf(c, size, lens), s, order);
    var us := Witness(c, lens, f);
    WitnessIntact(c, size, copies, lens, f);
    WireLoaded(c, size, copies, common, s, us, order);
    var w := LoadOf(c, size, copies, common, s, us);
    forall l | 0 <= l < |w.bodies|
      ensures Tells(w, f, l)
    {
      WitnessAt(c, lens, f, l);
    }
    FaultLost(c, w, EMPTY, order, us, {});
    LostNotBack(us, Returned(c, size, copies, common, s, us, order));
  }

  lemma LostNotBack(us: seq<seq<u8>>, got: seq<seq<u8>>)
    requires Lost(got, us, 0)
    ensures !AllBack(us, got)
  {
  }

  // ----- a header overwritten -----

  function Identity(n: nat): (order: seq<nat>)
    ensures |order| == n
  {
    seq(n, i => i)
  }

  // Two H.265 units of types 1 and 19 in one transaction without copying, all
  // packets arriving as they were sent: the first comes back as type 19.
  lemma TypeOverwritten(size: nat, common: Header, s: u16, a: seq<u8>, b: seq<u8>)
    requires size > 0 && |a| > size + 1 && |b| > size + 1
    requires Start(CountsOf(H265, size, [|a| + 2, |b| + 2]), 2) <= 0x1_0000
    ensures var us, order := [[2, 1] + a, [38, 1] + b], Identity(Start(CountsOf(H265, size, [|a| + 2, |b| + 2]), 2));
            && AllLarge(size, us) && Orders(H265, size, Lengths(us), order)
            && Returned(H265, size, false, common, s, us, order) == [[38, 1] + a, [38, 1] + b]
            && Returned(H265, size, true, common, s, us, order) == us
  {
    hide CountsOf, Start, Returned, UnitByUnit, UnitsOf, InOrder;
    var us := [[2, 1] + a, [38, 1] + b];
    var lens := [|a| + 2, |b| + 2];
    assert Lengths(us) == lens;
    var ns := CountsOf(H265, size, lens);
    var order := Identity(Start(ns, 2));
    TwoCounts(size, |a| + 2, |b| + 2);
    SentOrder(ns, s, order);
    ReturnedInTurn(H265, size, false, common, s, us, order);
    ReturnedInTurn(H265, size, true, common, s, us, order);
    assert us[0][2..] == a && us[1][2..] == b;
  }

  lemma TwoCounts(size: nat, m: nat, n: nat)
    requires size > 0
    ensures var ns := CountsOf(H265, size, [m, n]); |ns| == 2 && ns[0] > 0 && ns[1] > 0
  {
  }

  // Packets that arrive as they were sent are without fault in H.265.
  lemma SentOrder(ns: seq<nat>, s: u16, order: seq<nat>)
    requires |ns| == 2 && ns[0] > 0 && ns[1] > 0 && order == Identity(Start(ns, 2))
    ensures Within(ns, order) && UnitByUnit(H265, ns, s, order) && UnitsOf(ns, order) == [0, 1]
  {
    assert Start(ns, 1) == ns[0] && Start(ns, 2) == ns[0] + ns[1];
    OwnerOnly(ns, order[0], 0);
    var rest := order[ns[0]..];
    OwnerOnly(ns, rest[0], 1);
    assert rest[ns[1]..] == [];
    assert UnitsOf(ns, rest) == [1];
    assert UnitByUnit(H265, ns, s, rest);
  }
}
