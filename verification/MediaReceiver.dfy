// Reassembly of generic media frames: packets are kept by timestamp and
// sequence number until as many have arrived as the marked ones span.
module MediaReceiver {
  import opened Common
  import H26xReceiver

  // media_info_t; the end is unknown until a second marked packet arrives.
  datatype Info = Info(sSeq: u16, eSeq: Option<u16>, npkts: nat, size: nat, fragments: map<nat, Frame>)

  datatype Outcome = Held | Returned(frame: Frame) | Merged(header: Header, payload: seq<u8>, size: nat)

  // Payloads in ascending order of sequence number.
  ghost function Listed(m: map<nat, Frame>, keys: set<nat>): seq<u8>
    requires keys <= m.Keys
    decreases |keys|
  {
    if keys == {} then []
    else
      var k := Least(keys);
      m[k].payload + Listed(m, keys - {k})
  }

  function Added(info: Info, f: Frame): Info {
    info.(npkts := info.npkts + 1, size := info.size + |f.payload|,
          fragments := info.fragments[f.header.seqNo as nat := f],
          eSeq := if f.header.marker then Some(f.header.seqNo) else info.eSeq)
  }

  predicate Complete(info: Info) {
    info.eSeq.Some? && H26xReceiver.Received(info.sSeq, info.eSeq.value) == info.npkts
  }

  // What a packet does to the entry of its timestamp.
  ghost function EntryStep(e: Option<Info>, f: Frame): (Option<Info>, Outcome) {
    match e
    case Some(info) =>
      var next := Added(info, f);
      if Complete(next) then (None, Merged(f.header, Listed(next.fragments, next.fragments.Keys), next.size))
      else (Some(next), Held)
    case None =>
      if f.header.marker then
        (Some(Info(f.header.seqNo, None, 1, |f.payload|, map[f.header.seqNo as nat := f])), Held)
      else (None, Returned(f))
  }

  type Frames = map<u32, Info>

  function Lookup(st: Frames, ts: u32): Option<Info> {
    if ts in st then Some(st[ts]) else None
  }

  function Store(st: Frames, ts: u32, e: Option<Info>): Frames {
    match e
    case None => st - {ts}
    case Some(info) => st[ts := info]
  }

  // media::packet_handler with generic fragmentation enabled.
  ghost function Step(st: Frames, f: Frame): (Frames, Outcome) {
    var ts := f.header.timestamp;
    var (e, o) := EntryStep(Lookup(st, ts), f);
    (Store(st, ts, e), o)
  }

  ghost function Run(st: Frames, fs: seq<Frame>): Frames {
    if fs == [] then st else Step(Run(st, fs[..|fs| - 1]), fs[|fs| - 1]).0
  }

  ghost function OutcomeAt(st: Frames, fs: seq<Frame>, k: nat): Outcome
    requires k < |fs|
  {
    Step(Run(st, fs[..k]), fs[k]).1
  }

  // ----- isolation -----

  function Only(fs: seq<Frame>, ts: u32): seq<Frame> {
    if fs == [] then []
    else
      var init, last := Only(fs[..|fs| - 1], ts), fs[|fs| - 1];
      if last.header.timestamp == ts then init + [last] else init
  }

  ghost function EntryRun(e: Option<Info>, fs: seq<Frame>): Option<Info> {
    if fs == [] then e else EntryStep(EntryRun(e, fs[..|fs| - 1]), fs[|fs| - 1]).0
  }

  // The entry of a timestamp is what its own packets make of it.
  lemma {:induction false} RunIsolated(st: Frames, fs: seq<Frame>, ts: u32)
    ensures Lookup(Run(st, fs), ts) == EntryRun(Lookup(st, ts), Only(fs, ts))
  {
    hide EntryStep;
    if fs != [] {
      var init, last := fs[..|fs| - 1], fs[|fs| - 1];
      RunIsolated(st, init, ts);
      if last.header.timestamp == ts {
        assert Only(fs, ts)[..|Only(fs, ts)| - 1] == Only(init, ts);
      }
    }
  }

  lemma OutcomeIsolated(st: Frames, fs: seq<Frame>, k: nat)
    requires k < |fs|
    ensures var ts := fs[k].header.timestamp;
            OutcomeAt(st, fs, k) == EntryStep(EntryRun(Lookup(st, ts), Only(fs[..k], ts)), fs[k]).1
  {
    hide EntryStep, EntryRun;
    RunIsolated(st, fs[..k], fs[k].header.timestamp);
  }

  // ----- sizes -----

  ghost function Total(m: map<nat, Frame>, keys: set<nat>): nat
    requires keys <= m.Keys
  {
    |Listed(m, keys)|
  }

  lemma ListedNext(m: map<nat, Frame>, keys: set<nat>, k: nat)
    requires keys <= m.Keys && IsLeast(k, keys)
    ensures Listed(m, keys) == m[k].payload + Listed(m, keys - {k})
  {
  }

  lemma TotalNext(m: map<nat, Frame>, keys: set<nat>, k: nat)
    requires keys <= m.Keys && IsLeast(k, keys)
    ensures Total(m, keys) == |m[k].payload| + Total(m, keys - {k})
  {
    hide Listed;
    ListedNext(m, keys, k);
  }

  lemma TotalNone(m: map<nat, Frame>)
    ensures Total(m, {}) == 0
  {
  }

  // Inserting or replacing a fragment adds at most its payload.
  lemma {:induction false} TotalInsert(m: map<nat, Frame>, keys: set<nat>, k: nat, f: Frame)
    requires keys <= m.Keys
    ensures Total(m[k := f], keys + {k}) <= Total(m, keys) + |f.payload|
    ensures k !in keys ==> Total(m[k := f], keys + {k}) == Total(m, keys) + |f.payload|
    decreases |keys|
  {
    hide Total;
    var n := m[k := f];
    if keys == {} {
      assert keys + {k} == {k} && {k} - {k} == {};
      assert IsLeast(k, {k});
      TotalNext(n, {k}, k);
      TotalNone(n);
      TotalNone(m);
    } else {
      LeastExists(keys);
      var l :| IsLeast(l, keys);
      TotalNext(m, keys, l);
      if k < l {
        assert IsLeast(k, keys + {k});
        TotalNext(n, keys + {k}, k);
        assert keys + {k} - {k} == keys;
        TotalSame(m, n, keys);
      } else if k == l {
        assert keys + {k} == keys;
        TotalNext(n, keys, k);
        TotalSame(m, n, keys - {k});
      } else {
        assert IsLeast(l, keys + {k});
        TotalNext(n, keys + {k}, l);
        assert (keys + {k}) - {l} == (keys - {l}) + {k};
        TotalInsert(m, keys - {l}, k, f);
      }
    }
  }

  lemma TotalSame(m: map<nat, Frame>, n: map<nat, Frame>, keys: set<nat>)
    requires keys <= m.Keys && keys <= n.Keys && forall k :: k in keys ==> m[k] == n[k]
    ensures Total(m, keys) == Total(n, keys)
  {
    hide Listed;
    ListedSame(m, n, keys);
  }

  lemma {:induction false} ListedSame(m: map<nat, Frame>, n: map<nat, Frame>, keys: set<nat>)
    requires keys <= m.Keys && keys <= n.Keys && forall k :: k in keys ==> m[k] == n[k]
    ensures Listed(m, keys) == Listed(n, keys)
    decreases |keys|
  {
    if keys != {} {
      ListedSame(m, n, keys - {Least(keys)});
    }
  }

  lemma FirstCounted(f: Frame)
    ensures var m := map[f.header.seqNo as nat := f]; Total(m, m.Keys) == |f.payload|
  {
    hide Total;
    var k: nat := f.header.seqNo;
    var m := map[k := f];
    assert IsLeast(k, {k});
    TotalNext(m, {k}, k);
    assert {k} - {k} == {} && m.Keys == {k};
    TotalNone(m);
  }

  lemma SizeOf(m: map<nat, Frame>)
    ensures Total(m, m.Keys) == |Listed(m, m.Keys)|
  {
  }

  // ----- a fragmented frame -----

  // fs are the packets of one frame, numbered consecutively from s.
  ghost predicate Train(fs: seq<Frame>, s: u16, ts: u32) {
    && 2 <= |fs| <= 0x8000
    && forall i :: 0 <= i < |fs| ==>
         && fs[i].header.seqNo == (s + i) % 0x1_0000
         && fs[i].header.timestamp == ts
         && (fs[i].header.marker <==> i == 0 || i + 1 == |fs|)
  }

  ghost predicate Below(order: seq<nat>, n: nat) {
    forall j :: 0 <= j < |order| ==> order[j] < n
  }

  ghost function Arrived(fs: seq<Frame>, order: seq<nat>): seq<Frame>
    requires Below(order, |fs|)
  {
    seq(|order|, j requires 0 <= j < |order| => fs[order[j]])
  }

  function KeyFor(s: u16, i: nat): nat {
    (s + i) % 0x1_0000
  }

  function IndexFor(s: u16, k: nat): nat {
    (k - s) % 0x1_0000
  }

  lemma KeyIndex(s: u16, i: nat)
    requires i < 0x1_0000
    ensures IndexFor(s, KeyFor(s, i)) == i
  {
  }

  // m holds exactly the fragments in a.
  ghost predicate Filled(fs: seq<Frame>, s: u16, a: set<nat>, m: map<nat, Frame>) {
    && (forall i :: i in a ==> i < |fs| && KeyFor(s, i) in m && m[KeyFor(s, i)] == fs[i])
    && (forall k :: k in m ==> IndexFor(s, k) in a && KeyFor(s, IndexFor(s, k)) == k)
  }

  lemma FilledInsert(fs: seq<Frame>, s: u16, a: set<nat>, m: map<nat, Frame>, i: nat)
    requires Filled(fs, s, a, m) && i < |fs| <= 0x1_0000
    ensures Filled(fs, s, a + {i}, m[KeyFor(s, i) := fs[i]])
  {
    hide KeyFor, IndexFor;
    KeyIndex(s, i);
    forall j | j in a
      ensures j == i || KeyFor(s, j) != KeyFor(s, i)
    {
      KeyIndex(s, j);
    }
  }

  // The entry after the packets in order, the first fragment among them first.
  ghost predicate Filling(fs: seq<Frame>, s: u16, order: seq<nat>, info: Info) {
    && info.sSeq == s
    && info.npkts == |order|
    && info.eSeq == (if |fs| - 1 in order then Some((s + |fs| - 1) % 0x1_0000) else None)
    && info.size == Total(info.fragments, info.fragments.Keys)
    && Filled(fs, s, Elements(order), info.fragments)
  }

  lemma FirstFills(fs: seq<Frame>, s: u16, ts: u32)
    requires Train(fs, s, ts)
    ensures EntryStep(None, fs[0]).0.Some? && Filling(fs, s, [0], EntryStep(None, fs[0]).0.value)
  {
    assert Elements([0]) == {0};
    assert KeyFor(s, 0) == s && IndexFor(s, s) == 0;
    FirstCounted(fs[0]);
  }

  lemma Spans(s: u16, n: nat)
    requires 2 <= n <= 0x8000
    ensures H26xReceiver.Received(s, (s + n - 1) % 0x1_0000) == n
    ensures H26xReceiver.Received((s + n - 1) % 0x1_0000, s) == 0x1_0002 - n
    ensures (s + n - 1) % 0x1_0000 != s
  {
  }

  lemma AddedFills(fs: seq<Frame>, s: u16, ts: u32, order: seq<nat>, x: nat, info: Info)
    requires Train(fs, s, ts) && Filling(fs, s, order, info) && 0 < x < |fs| && x !in order
    ensures Filling(fs, s, order + [x], Added(info, fs[x]))
  {
    hide KeyFor, IndexFor, Total;
    assert Elements(order + [x]) == Elements(order) + {x};
    var k: nat := fs[x].header.seqNo;
    KeyIs(s, x);
    KeyIndex(s, x);
    assert k !in info.fragments;
    TotalInsert(info.fragments, info.fragments.Keys, k, fs[x]);
    assert info.fragments[k := fs[x]].Keys == info.fragments.Keys + {k};
    FilledInsert(fs, s, Elements(order), info.fragments, x);
  }

  lemma KeyIs(s: u16, i: nat)
    ensures KeyFor(s, i) == (s + i) % 0x1_0000
  {
  }

  // The count matches the span only when everything has arrived.
  lemma CompleteAtLast(fs: seq<Frame>, s: u16, ts: u32, order: seq<nat>, info: Info)
    requires Train(fs, s, ts) && Filling(fs, s, order, info)
    requires Distinct(order) && |order| <= |fs| && Below(order, |fs|)
    ensures Complete(info) <==> |order| == |fs|
  {
    hide Filled, H26xReceiver.Received;
    Spans(s, |fs|);
    if |order| == |fs| {
      ArrivalOrderCovers(order, |fs|);
      assert |fs| - 1 in Elements(order);
    }
  }

  // Every proper beginning of an arrival order that starts with the first
  // fragment leaves an open entry.
  lemma {:induction false} OpensAndFills(fs: seq<Frame>, s: u16, ts: u32, order: seq<nat>)
    requires Train(fs, s, ts) && order != [] && order[0] == 0 && |order| < |fs|
    requires Distinct(order) && Below(order, |fs|)
    ensures var e := EntryRun(None, Arrived(fs, order)); e.Some? && Filling(fs, s, order, e.value)
    decreases |order|
  {
    hide Filling, Complete, Added;
    var init, x := order[..|order| - 1], order[|order| - 1];
    var packets := Arrived(fs, order);
    assert packets[..|packets| - 1] == Arrived(fs, init);
    if init == [] {
      assert order == [0] && Arrived(fs, init) == [];
      FirstFills(fs, s, ts);
    } else {
      OpensAndFills(fs, s, ts, init);
      var info := EntryRun(None, Arrived(fs, init)).value;
      AddedFills(fs, s, ts, init, x, info);
      assert init + [x] == order;
      CompleteAtLast(fs, s, ts, order, Added(info, fs[x]));
    }
  }

  // ----- the merged bytes -----

  function Payloads(fs: seq<Frame>): (ps: seq<seq<u8>>)
    ensures |ps| == |fs|
  {
    seq(|fs|, i requires 0 <= i < |fs| => fs[i].payload)
  }

  // How many fragments come before the sequence number wraps.
  function Unwrapped(s: u16, n: nat): (w: nat)
    ensures w <= n
  {
    if s + n <= 0x1_0000 then n else 0x1_0000 - s
  }

  // Ascending sequence numbers list the fragments behind the wrap first.
  function Rotated(s: u16, parts: seq<seq<u8>>): seq<u8> {
    var w := Unwrapped(s, |parts|);
    Concat(parts[w..]) + Concat(parts[..w])
  }

  // Keys lo up to hi hold the fragments from index i on.
  ghost predicate Stretch(fs: seq<Frame>, m: map<nat, Frame>, lo: nat, hi: nat, i: nat) {
    && lo <= hi && i + (hi - lo) <= |fs|
    && forall k :: lo <= k < hi ==> k in m && m[k] == fs[i + (k - lo)]
  }

  lemma PayloadsNext(fs: seq<Frame>, i: nat, j: nat)
    requires i < j <= |fs|
    ensures Concat(Payloads(fs)[i..j]) == fs[i].payload + Concat(Payloads(fs)[i + 1..j])
  {
    var parts := Payloads(fs)[i..j];
    assert parts[0] == fs[i].payload && parts[1..] == Payloads(fs)[i + 1..j];
  }

  lemma {:induction false} ListedStretch(fs: seq<Frame>, m: map<nat, Frame>, lo: nat, hi: nat, i: nat, rest: set<nat>)
    requires Stretch(fs, m, lo, hi, i) && rest <= m.Keys && forall k :: k in rest ==> hi <= k
    ensures Range(lo, hi) + rest <= m.Keys
    ensures |Payloads(fs)| == |fs|
    ensures Listed(m, Range(lo, hi) + rest) == Concat(Payloads(fs)[i..i + (hi - lo)]) + Listed(m, rest)
    decreases hi - lo
  {
    hide Listed;
    var keys := Range(lo, hi) + rest;
    if lo == hi {
      assert keys == rest && Payloads(fs)[i..i] == [];
    } else {
      ListedStretch(fs, m, lo + 1, hi, i + 1, rest);
      assert IsLeast(lo, keys);
      ListedNext(m, keys, lo);
      assert keys - {lo} == Range(lo + 1, hi) + rest;
      PayloadsNext(fs, i, i + (hi - lo));
    }
  }

  lemma FullKeys(fs: seq<Frame>, s: u16, m: map<nat, Frame>)
    requires Filled(fs, s, Range(0, |fs|), m) && |fs| <= 0x8000
    ensures var n, w := |fs|, Unwrapped(s, |fs|);
            && m.Keys == Range(0, n - w) + Range(s, s + w)
            && Stretch(fs, m, 0, n - w, w) && Stretch(fs, m, s, s + w, 0)
  {
    hide Filled, KeyFor, IndexFor, Unwrapped;
    var n, w := |fs|, Unwrapped(s, |fs|);
    forall k: nat
      ensures k in m <==> k < n - w || s <= k < s + w
      ensures k < n - w ==> k in m && m[k] == fs[w + k]
      ensures s <= k < s + w ==> k in m && m[k] == fs[k - s]
    {
      FullAt(fs, s, m, k);
    }
  }

  lemma FullAt(fs: seq<Frame>, s: u16, m: map<nat, Frame>, k: nat)
    requires Filled(fs, s, Range(0, |fs|), m) && |fs| <= 0x8000
    ensures var n, w := |fs|, Unwrapped(s, |fs|);
            && (k in m <==> k < n - w || s <= k < s + w)
            && (k < n - w ==> k in m && m[k] == fs[w + k])
            && (s <= k < s + w ==> k in m && m[k] == fs[k - s])
  {
    hide KeyFor, IndexFor, Range;
    var n, w := |fs|, Unwrapped(s, |fs|);
    KeyOfIndex(s, n, k);
    if k < n - w {
      assert w + k in Range(0, n);
    } else if s <= k < s + w {
      assert k - s in Range(0, n);
    } else if k in m {
      var i := IndexFor(s, k);
      assert i in Range(0, n);
      KeyOfIndex(s, n, KeyFor(s, i));
      IndexSpan(s, n, i);
    }
  }

  lemma KeyOfIndex(s: u16, n: nat, k: nat)
    requires n <= 0x8000
    ensures var w := Unwrapped(s, n);
            && (k < n - w ==> KeyFor(s, w + k) == k)
            && (s <= k < s + w ==> KeyFor(s, k - s) == k)
  {
  }

  lemma IndexSpan(s: u16, n: nat, i: nat)
    requires i < n <= 0x8000
    ensures var k, w := KeyFor(s, i), Unwrapped(s, n); k < n - w || s <= k < s + w
  {
  }

  lemma ListedFull(fs: seq<Frame>, s: u16, m: map<nat, Frame>)
    requires Filled(fs, s, Range(0, |fs|), m) && 2 <= |fs| <= 0x8000
    ensures Listed(m, m.Keys) == Rotated(s, Payloads(fs))
  {
    hide Filled, Listed, Stretch, Unwrapped, Concat;
    FullKeys(fs, s, m);
    UnwrappedFits(s, |fs|);
    ListedTwice(fs, m, s, |fs| - Unwrapped(s, |fs|), Unwrapped(s, |fs|));
  }

  lemma UnwrappedFits(s: u16, n: nat)
    requires n <= 0x8000
    ensures var w := Unwrapped(s, n); w <= n && n - w <= s
  {
  }

  // Two stretches, the one with the lower keys first.
  lemma ListedTwice(fs: seq<Frame>, m: map<nat, Frame>, s: nat, v: nat, w: nat)
    requires v + w == |fs| && v <= s && m.Keys == Range(0, v) + Range(s, s + w)
    requires Stretch(fs, m, 0, v, w) && Stretch(fs, m, s, s + w, 0)
    ensures |Payloads(fs)| == |fs|
    ensures Listed(m, m.Keys) == Concat(Payloads(fs)[w..]) + Concat(Payloads(fs)[..w])
  {
    hide Listed, Stretch, Concat;
    ListedStretch(fs, m, s, s + w, 0, {});
    assert Range(s, s + w) + {} == Range(s, s + w);
    ListedStretch(fs, m, 0, v, w, Range(s, s + w));
    ListedNone(m);
    assert Payloads(fs)[w..w + v] == Payloads(fs)[w..] && Payloads(fs)[0..w] == Payloads(fs)[..w];
  }

  lemma ListedNone(m: map<nat, Frame>)
    ensures Listed(m, {}) == []
  {
  }

  // ----- what the receiver returns -----

  // The packets of this timestamp among the first k + 1 are the train's in
  // this order.
  ghost predicate ArrivesAs(evs: seq<Frame>, k: nat, ts: u32, fs: seq<Frame>, order: seq<nat>)
    requires k < |evs| && Below(order, |fs|)
  {
    evs[k].header.timestamp == ts && Only(evs[..k + 1], ts) == Arrived(fs, order)
  }

  lemma ArrivesLast(evs: seq<Frame>, k: nat, ts: u32, fs: seq<Frame>, order: seq<nat>)
    requires k < |evs| && Below(order, |fs|) && ArrivesAs(evs, k, ts, fs, order)
    ensures order != [] && evs[k] == fs[order[|order| - 1]]
    ensures Below(order[..|order| - 1], |fs|) && Only(evs[..k], ts) == Arrived(fs, order[..|order| - 1])
  {
    var upTo := evs[..k + 1];
    assert upTo[..|upTo| - 1] == evs[..k];
    assert Only(upTo, ts) == Only(evs[..k], ts) + [evs[k]];
    var packets := Arrived(fs, order);
    assert packets[|packets| - 1] == evs[k] && packets[..|packets| - 1] == Only(evs[..k], ts);
    assert packets[..|packets| - 1] == Arrived(fs, order[..|order| - 1]);
  }

  // In any traffic: if the first fragment comes first, the packets are held
  // until the last one, and that returns the payloads in ascending order of
  // sequence number.
  lemma Reassembles(st: Frames, evs: seq<Frame>, k: nat, fs: seq<Frame>, s: u16, ts: u32, order: seq<nat>)
    requires Train(fs, s, ts) && Distinct(order) && Below(order, |fs|) && order != [] && order[0] == 0 && |order| <= |fs|
    requires ts !in st && k < |evs| && ArrivesAs(evs, k, ts, fs, order)
    ensures var o := OutcomeAt(st, evs, k);
            if |order| < |fs| then o == Held
            else o.Merged? && o.header == evs[k].header && o.payload == Rotated(s, Payloads(fs)) && o.size == |o.payload|
  {
    hide Filling, Rotated, Payloads, Arrived, Only, OutcomeAt, EntryRun;
    ArrivesLast(evs, k, ts, fs, order);
    OutcomeIsolated(st, evs, k);
    var init, x := order[..|order| - 1], order[|order| - 1];
    if init == [] {
      ArrivedNone(fs, init);
      FirstFills(fs, s, ts);
    } else {
      OpensAndFills(fs, s, ts, init);
      var info := EntryRun(None, Arrived(fs, init)).value;
      AddedFills(fs, s, ts, init, x, info);
      assert init + [x] == order;
      var next := Added(info, fs[x]);
      CompleteAtLast(fs, s, ts, order, next);
      if |order| == |fs| {
        ArrivalOrderCovers(order, |fs|);
        FilledOf(fs, s, order, next);
        ListedFull(fs, s, next.fragments);
      }
    }
  }

  lemma FilledOf(fs: seq<Frame>, s: u16, order: seq<nat>, info: Info)
    requires Filling(fs, s, order, info)
    ensures Filled(fs, s, Elements(order), info.fragments)
    ensures info.size == |Listed(info.fragments, info.fragments.Keys)|
  {
  }

  lemma ArrivedNone(fs: seq<Frame>, order: seq<nat>)
    requires Below(order, |fs|) && order == []
    ensures Arrived(fs, order) == [] && EntryRun(None, Arrived(fs, order)) == None
  {
  }

  // How an entry that was not opened by the first fragment can look after j
  // packets: one short, or waiting for a number of packets that never comes.
  ghost predicate Stuck(fs: seq<Frame>, s: u16, order: seq<nat>, e: Option<Info>)
    requires |fs| >= 2
  {
    var last := (s + |fs| - 1) % 0x1_0000;
    match e
    case None => true
    case Some(info) =>
      || (info.sSeq == s && 0 in order && info.npkts < |order| && info.eSeq in {None, Some(last)})
      || (info.sSeq == last && |fs| - 1 in order && info.npkts <= |order| && info.eSeq in {None, Some(s)})
  }

  lemma StuckStays(fs: seq<Frame>, s: u16, ts: u32, order: seq<nat>, x: nat, e: Option<Info>)
    requires Train(fs, s, ts) && |order| < |fs| && x < |fs| && x !in order
    requires Stuck(fs, s, order, e) && (order == [] ==> e == None && x != 0)
    ensures var (next, o) := EntryStep(e, fs[x]); Stuck(fs, s, order + [x], next) && !o.Merged?
  {
    hide Listed, H26xReceiver.Received;
    Spans(s, |fs|);
    if e.Some? {
      assert !Complete(Added(e.value, fs[x]));
    }
  }

  lemma {:induction false} StuckRun(fs: seq<Frame>, s: u16, ts: u32, order: seq<nat>)
    requires Train(fs, s, ts) && Distinct(order) && Below(order, |fs|) && |order| <= |fs|
    requires order != [] ==> order[0] != 0
    ensures Stuck(fs, s, order, EntryRun(None, Arrived(fs, order)))
    ensures order == [] ==> EntryRun(None, Arrived(fs, order)) == None
    decreases |order|
  {
    hide EntryStep, Stuck, Train;
    if order == [] {
      StuckNone(fs, s, ts);
    } else {
      var init, x := order[..|order| - 1], order[|order| - 1];
      var packets := Arrived(fs, order);
      assert packets[..|packets| - 1] == Arrived(fs, init);
      StuckRun(fs, s, ts, init);
      StuckStays(fs, s, ts, init, x, EntryRun(None, Arrived(fs, init)));
      assert init + [x] == order;
    }
  }

  lemma StuckNone(fs: seq<Frame>, s: u16, ts: u32)
    requires Train(fs, s, ts)
    ensures |fs| >= 2 && Stuck(fs, s, [], None)
  {
  }

  // If any other fragment comes first, the frame is never put together.
  lemma NeverReassembled(st: Frames, evs: seq<Frame>, k: nat, fs: seq<Frame>, s: u16, ts: u32, order: seq<nat>)
    requires Train(fs, s, ts) && Distinct(order) && Below(order, |fs|) && order != [] && order[0] != 0 && |order| <= |fs|
    requires ts !in st && k < |evs| && ArrivesAs(evs, k, ts, fs, order)
    ensures !OutcomeAt(st, evs, k).Merged?
  {
    hide Stuck, Arrived, Only, OutcomeAt, EntryRun, EntryStep;
    ArrivesLast(evs, k, ts, fs, order);
    OutcomeIsolated(st, evs, k);
    var init, x := order[..|order| - 1], order[|order| - 1];
    StuckRun(fs, s, ts, init);
    StuckStays(fs, s, ts, init, x, EntryRun(None, Arrived(fs, init)));
  }
}
