// SRTP packet protection: both handlers, with and without the cipher,
// authentication and replay protection, and what comes out of them end to end.
module Srtp {
  import opened Bitwise
  import opened Common
  import opened ZrtpMessages
  import opened RtpHeader
  import opened SrtpKeys
  import opened SrtpIndex

  type Tag = s: seq<u8> | |s| == 10 witness seq(10, i => 0)

  datatype Suite = Suite(aes: Aes, mac: (seq<u8>, seq<u8>) -> Tag)

  datatype Config = Config(nullCipher: bool, authenticate: bool, replayProtection: bool)

  // A packet as its header bytes, the header fields used here, and its payload.
  datatype Plain = Plain(head: seq<u8>, ssrc: u32, sn: u16, ts: u32, payload: seq<u8>)

  function PlainOf(f: Frame): Plain {
    Plain(HeaderBytes(f.header), f.header.ssrc, f.header.seqNo, f.header.timestamp, f.payload)
  }

  datatype Wire = Wire(packet: Plain, tag: seq<u8>)

  // ----- the sender -----

  function PacketIv(keys: SessionKeys, ssrc: u32, index: nat): Block {
    IvFor(ssrc, index, keys.salt)
  }

  function Encrypted(suite: Suite, keys: SessionKeys, roc: u32, p: Plain): Plain {
    p.(payload := suite.aes.ctr(keys.enc, PacketIv(keys, p.ssrc, SenderIndex(roc, p.sn)), p.payload))
  }

  // The tag covers header, payload and a counter.
  function TagOf(suite: Suite, keys: SessionKeys, roc: u32, p: Plain): Tag {
    suite.mac(keys.auth, p.head + p.payload + LowFirst(roc, 4))
  }

  // The counter is advanced before the tag is computed.
  function SendRoc(cfg: Config, roc: u32, p: Plain): u32 {
    if cfg.nullCipher then roc else NextRoc(roc, p.sn)
  }

  function SendPacket(suite: Suite, cfg: Config, keys: SessionKeys, roc: u32, p: Plain): Wire {
    var q := if cfg.nullCipher then p else Encrypted(suite, keys, roc, p);
    Wire(q, if cfg.authenticate then TagOf(suite, keys, SendRoc(cfg, roc, p), q) else [])
  }

  // ----- the receiver -----

  datatype Receiver = Receiver(roc: u32, rts: u32, replayList: set<seq<u8>>)

  datatype Verdict = TagMismatch | Replayed | Untouched(payload: seq<u8>) | Decrypted(payload: seq<u8>)

  // The checks made before decryption; the replay list holds tags cut to 64 bits.
  function Checked(suite: Suite, cfg: Config, keys: SessionKeys, r: Receiver, w: Wire): (Receiver, Option<Verdict>) {
    if !cfg.authenticate then (r, None)
    else
      var digest := TagOf(suite, keys, r.roc, w.packet);
      if digest != w.tag then (r, Some(TagMismatch))
      else if !cfg.replayProtection then (r, None)
      else if digest[..8] in r.replayList then (r, Some(Replayed))
      else (r.(replayList := r.replayList + {digest[..8]}), None)
  }

  function ReceivePacket(suite: Suite, cfg: Config, keys: SessionKeys, r: Receiver, w: Wire): (Receiver, Verdict) {
    var (checked, refused) := Checked(suite, cfg, keys, r, w);
    if refused.Some? then (checked, refused.value)
    else if cfg.nullCipher then (checked, Untouched(w.packet.payload))
    else
      var p := w.packet;
      LateBranchDead(r.roc, r.rts, p.sn, p.ts);
      var index := ReceiverIndex(r.roc, r.rts, p.sn, p.ts);
      (checked.(roc := NextRoc(r.roc, p.sn), rts := if p.sn == 0xffff then p.ts else r.rts),
       Decrypted(suite.aes.ctr(keys.enc, PacketIv(keys, p.ssrc, index), p.payload)))
  }

  // The receiver after the first k of the packets delivered to it.
  function ReceiverAfter(suite: Suite, cfg: Config, keys: SessionKeys, ws: seq<Wire>, k: nat): Receiver
    requires k <= |ws|
  {
    if k == 0 then Receiver(0, 0, {})
    else ReceivePacket(suite, cfg, keys, ReceiverAfter(suite, cfg, keys, ws, k - 1), ws[k - 1]).0
  }

  function VerdictOn(suite: Suite, cfg: Config, keys: SessionKeys, ws: seq<Wire>, k: nat): Verdict
    requires k < |ws|
  {
    ReceivePacket(suite, cfg, keys, ReceiverAfter(suite, cfg, keys, ws, k), ws[k]).1
  }

  // ----- a stream -----

  // A sender's packets by their position in its numbering: position x has
  // sequence number x modulo 2^16 and meets the counter x / 2^16.
  ghost predicate Stream(ps: nat -> Plain) {
    forall x: nat :: ps(x).sn == x % CYCLE
  }

  function OnWire(suite: Suite, cfg: Config, keys: SessionKeys, ps: nat -> Plain, x: nat): Wire {
    SendPacket(suite, cfg, keys, if cfg.nullCipher then 0 else x / CYCLE % ROC_LIMIT, ps(x))
  }

  function Delivered(suite: Suite, cfg: Config, keys: SessionKeys, ps: nat -> Plain, xs: seq<nat>): (ws: seq<Wire>)
    ensures |ws| == |xs|
  {
    seq(|xs|, i requires 0 <= i < |xs| => OnWire(suite, cfg, keys, ps, xs[i]))
  }

  // The counter a sender has when it reaches position x, starting with
  // sequence number seq0.
  lemma SenderReaches(seq0: u16, n: nat)
    ensures RocAfter(seq0, n) == (seq0 + n) / CYCLE % ROC_LIMIT
    ensures SenderIndex(RocAfter(seq0, n), (seq0 + n) % CYCLE) == (seq0 + n) % INDEX_LIMIT
  {
    RocCounts(seq0, n);
    SenderCounts(seq0, n);
  }

  lemma PowerEight()
    ensures INDEX_LIMIT <= Power(8)
  {
  }

  lemma ResiduesDiffer(x: nat, d: nat)
    requires 0 < d < INDEX_LIMIT
    ensures (x + d) % INDEX_LIMIT != x % INDEX_LIMIT
  {
  }

  // Freshness, exactly: two packets of a stream are encrypted with the same
  // vector if and only if their positions are equal modulo 2^48.
  lemma IvRepeatsExactly(keys: SessionKeys, ssrc: u32, seq0: u16, m: nat, n: nat)
    ensures var i, j := SenderIndex(RocAfter(seq0, m), (seq0 + m) % CYCLE), SenderIndex(RocAfter(seq0, n), (seq0 + n) % CYCLE);
            && (PacketIv(keys, ssrc, i) == PacketIv(keys, ssrc, j) <==> (seq0 + m) % INDEX_LIMIT == (seq0 + n) % INDEX_LIMIT)
            && (m < n < m + INDEX_LIMIT ==> PacketIv(keys, ssrc, i) != PacketIv(keys, ssrc, j))
  {
    hide IvFor, SenderIndex, RocAfter, Power;
    SenderReaches(seq0, m);
    SenderReaches(seq0, n);
    PowerEight();
    if m < n < m + INDEX_LIMIT {
      ResiduesDiffer(seq0 + m, n - m);
    }
    IvInjective(ssrc, (seq0 + m) % INDEX_LIMIT, (seq0 + n) % INDEX_LIMIT, keys.salt);
  }

  // ----- without authentication -----

  lemma {:induction false} CounterFollows(suite: Suite, cfg: Config, keys: SessionKeys, ps: nat -> Plain, xs: seq<nat>, k: nat)
    requires Stream(ps) && !cfg.nullCipher && !cfg.authenticate && k <= |xs|
    ensures ReceiverAfter(suite, cfg, keys, Delivered(suite, cfg, keys, ps, xs), k).roc == ReceiverRoc(xs, k)
  {
    hide TagOf, NextRoc;
    if k > 0 {
      CounterFollows(suite, cfg, keys, ps, xs, k - 1);
    }
  }

  // The payload comes back in clear, whatever is lost, repeated or reordered
  // inside a cycle, as long as cycles arrive in order.
  lemma PayloadReturns(suite: Suite, cfg: Config, keys: SessionKeys, ps: nat -> Plain, xs: seq<nat>, k: nat)
    requires suite.aes.Lawful() && Stream(ps) && !cfg.nullCipher && !cfg.authenticate
    requires k < |xs| && (forall x <- xs :: x < INDEX_LIMIT - 1) && CyclesInOrder(xs)
    ensures VerdictOn(suite, cfg, keys, Delivered(suite, cfg, keys, ps, xs), k) == Decrypted(ps(xs[k]).payload)
  {
    hide ReceiverAfter, CyclesInOrder, PacketIv, ReceiverRoc;
    AgreeExactly(xs);
    CounterFollows(suite, cfg, keys, ps, xs, k);
    assert xs[k] in xs;
    RocIsCycle(xs[k], ReceiverRoc(xs, k));
    var w := Delivered(suite, cfg, keys, ps, xs)[k];
    assert w == OnWire(suite, cfg, keys, ps, xs[k]);
    assert w.packet.sn == xs[k] % CYCLE;
  }

  lemma RocIsCycle(x: nat, roc: u32)
    requires x < INDEX_LIMIT && roc * CYCLE + x % CYCLE == x
    ensures roc == x / CYCLE % ROC_LIMIT
  {
  }

  // ----- what a packet is protected by -----

  // The vector that a packet meets at this counter.
  function VectorOf(keys: SessionKeys, roc: u32, p: Plain): Block {
    PacketIv(keys, p.ssrc, SenderIndex(roc, p.sn))
  }

  // Two packets of any two streams that share a key meet the same vector
  // exactly when their SSRCs agree in the low half, their counters agree, and
  // the high half of the SSRC and the sequence number, byte by byte, have the
  // same exclusive or.
  lemma VectorsMeetExactly(keys: SessionKeys, roc: u32, p: Plain, roc': u32, q: Plain)
    ensures VectorOf(keys, roc, p) == VectorOf(keys, roc', q) <==>
            && p.ssrc % 0x1_0000 == q.ssrc % 0x1_0000 && roc == roc'
            && Xor(p.ssrc / 0x1_0000 % 0x100, p.sn % 0x100) == Xor(q.ssrc / 0x1_0000 % 0x100, q.sn % 0x100)
            && Xor(p.ssrc / 0x100_0000, p.sn / 0x100) == Xor(q.ssrc / 0x100_0000, q.sn / 0x100)
  {
    hide Xor, IvFor;
    PowerEight();
    IndexHalves(roc, p.sn);
    IndexHalves(roc', q.sn);
    IvMeetExactly(p.ssrc, q.ssrc, SenderIndex(roc, p.sn), SenderIndex(roc', q.sn), keys.salt);
  }

  lemma IndexHalves(roc: u32, sn: u16)
    ensures var i := SenderIndex(roc, sn);
            i < INDEX_LIMIT && i / 0x1_0000 == roc && i % 0x100 == sn % 0x100 && i / 0x100 % 0x100 == sn / 0x100
  {
    var i := SenderIndex(roc, sn);
    assert i == roc * 0x1_0000 + sn;
    assert i / 0x100 == roc * 0x100 + sn / 0x100;
    assert i == (roc * 0x100 + sn / 0x100) * 0x100 + sn % 0x100;
  }

  // The payload sent is the payload under the encryption key and that vector.
  lemma PayloadSent(suite: Suite, cfg: Config, keys: SessionKeys, roc: u32, p: Plain)
    ensures SendPacket(suite, cfg, keys, roc, p).packet
         == p.(payload := if cfg.nullCipher then p.payload else suite.aes.ctr(keys.enc, VectorOf(keys, roc, p), p.payload))
  {
  }

  // Two different texts with one tag.
  predicate Collide(suite: Suite, key: seq<u8>, x: seq<u8>, y: seq<u8>) {
    x != y && suite.mac(key, x) == suite.mac(key, y)
  }

  function TagText(roc: u32, p: Plain): seq<u8> {
    p.head + p.payload + LowFirst(roc, 4)
  }

  lemma TextDetermines(roc: u32, p: Plain, roc': u32, q: Plain)
    requires |p.head| == |q.head|
    ensures TagText(roc, p) == TagText(roc', q) <==> p.head == q.head && p.payload == q.payload && roc == roc'
  {
    hide LowFirst, Power;
    LowFirstLength(roc, 4);
    LowFirstLength(roc', 4);
    var x, y := TagText(roc, p), TagText(roc', q);
    if x == y {
      var n := |x| - 4;
      assert x[..|p.head|] == p.head && y[..|p.head|] == q.head;
      assert x[|p.head|..n] == p.payload && y[|p.head|..n] == q.payload;
      assert x[n..] == LowFirst(roc, 4) && y[n..] == LowFirst(roc', 4);
      PowerFour();
      LowFirstInjective(roc, roc', 4);
    }
  }

  // A packet that arrives with the tag of one that was sent passes exactly if
  // its header, its payload and the receiver's counter are those the tag was
  // made with, or its text and theirs collide under the authentication key.
  lemma PassesExactly(suite: Suite, cfg: Config, keys: SessionKeys, roc: u32, p: Plain, r: Receiver, w: Wire)
    requires cfg.authenticate && |w.packet.head| == |p.head| && w.tag == SendPacket(suite, cfg, keys, roc, p).tag
    ensures var sent, counter := SendPacket(suite, cfg, keys, roc, p), SendRoc(cfg, roc, p);
            ReceivePacket(suite, cfg, keys, r, w).1 != TagMismatch <==>
              || (w.packet.head == p.head && w.packet.payload == sent.packet.payload && r.roc == counter)
              || Collide(suite, keys.auth, TagText(r.roc, w.packet), TagText(counter, sent.packet))
  {
    hide SendRoc, PacketIv, LowFirst;
    var sent, counter := SendPacket(suite, cfg, keys, roc, p), SendRoc(cfg, roc, p);
    assert sent.packet.head == p.head;
    TextDetermines(r.roc, w.packet, counter, sent.packet);
  }

  // ----- with authentication -----

  // Tags of one text with different counters at its end differ.
  ghost predicate SeparatesCounters(suite: Suite) {
    forall k, text, r: u32, t: u32 ::
      suite.mac(k, text + LowFirst(r, 4)) == suite.mac(k, text + LowFirst(t, 4)) ==> r == t
  }

  lemma TagsDiffer(suite: Suite, keys: SessionKeys, p: Plain, r: u32, t: u32)
    requires SeparatesCounters(suite)
    ensures TagOf(suite, keys, r, p) == TagOf(suite, keys, t, p) <==> r == t
  {
    hide LowFirst;
  }

  // Such suites exist: a tag that shows the last four bytes of its text.
  function LastFour(text: seq<u8>): Tag {
    (if |text| >= 4 then text[|text| - 4..] else [0, 0, 0, 0]) + [0, 0, 0, 0, 0, 0]
  }

  lemma LastFourSeparates(text: seq<u8>, r: u32, t: u32)
    requires LastFour(text + LowFirst(r, 4)) == LastFour(text + LowFirst(t, 4))
    ensures r == t
  {
    hide LowFirst, Power;
    LowFirstLength(r, 4);
    LowFirstLength(t, 4);
    assert LastFour(text + LowFirst(r, 4))[..4] == LowFirst(r, 4);
    assert LastFour(text + LowFirst(t, 4))[..4] == LowFirst(t, 4);
    PowerFour();
    LowFirstInjective(r, t, 4);
  }

  lemma SuiteExists()
    ensures exists suite: Suite :: suite.aes.Lawful() && SeparatesCounters(suite)
  {
    hide LastFour, LowFirst;
    var aes := Aes((k, x) => x, (k, iv, d) => d);
    var suite := Suite(aes, (k, text) => LastFour(text));
    forall k, text, r: u32, t: u32 | suite.mac(k, text + LowFirst(r, 4)) == suite.mac(k, text + LowFirst(t, 4))
      ensures r == t
    {
      LastFourSeparates(text, r, t);
    }
    assert suite.aes.Lawful() && SeparatesCounters(suite);
  }

  lemma PowerFour()
    ensures Power(4) == ROC_LIMIT
  {
  }

  // The counter in the tag of position x is that of the packet after it.
  lemma SendRocIs(cfg: Config, p: Plain, x: nat)
    requires !cfg.nullCipher && p.sn == x % CYCLE
    ensures SendRoc(cfg, x / CYCLE % ROC_LIMIT, p) == (x + 1) / CYCLE % ROC_LIMIT
  {
    StepOver(x);
    BumpCounts(x / CYCLE);
  }

  lemma TaggedAhead(x: nat)
    requires x < INDEX_LIMIT - 1
    ensures (x + 1) / CYCLE % ROC_LIMIT == 0 <==> x < 0xffff
    ensures x < 0xffff ==> x / CYCLE % ROC_LIMIT == 0 && x % CYCLE == x
  {
  }

  // The verdict of a receiver still at counter zero; seen: its replay list
  // holds the packet's tag.
  function VerdictAtZero(ps: nat -> Plain, x: nat, seen: bool): Verdict {
    if x >= 0xffff then TagMismatch else if seen then Replayed else Decrypted(ps(x).payload)
  }

  // What the replay list keeps of the tag at a position.
  function Mark(suite: Suite, cfg: Config, keys: SessionKeys, ps: nat -> Plain, x: nat): seq<u8> {
    var tag := OnWire(suite, cfg, keys, ps, x).tag;
    if |tag| >= 8 then tag[..8] else tag
  }

  lemma ZeroStays(suite: Suite, cfg: Config, keys: SessionKeys, ps: nat -> Plain, x: nat, r: Receiver)
    requires suite.aes.Lawful() && SeparatesCounters(suite) && Stream(ps)
    requires cfg.authenticate && !cfg.nullCipher && x < INDEX_LIMIT - 1 && r.roc == 0
    ensures var (next, verdict) := ReceivePacket(suite, cfg, keys, r, OnWire(suite, cfg, keys, ps, x));
            var mark := Mark(suite, cfg, keys, ps, x);
            && next.roc == 0 && verdict == VerdictAtZero(ps, x, cfg.replayProtection && mark in r.replayList)
            && next.replayList == r.replayList + if cfg.replayProtection && x < 0xffff then {mark} else {}
  {
    hide TagOf, PacketIv, SendRoc;
    var w := OnWire(suite, cfg, keys, ps, x);
    assert ps(x).sn == x % CYCLE;
    SendRocIs(cfg, ps(x), x);
    TaggedAhead(x);
    TagsDiffer(suite, keys, w.packet, 0, (x + 1) / CYCLE % ROC_LIMIT);
  }

  // An earlier delivery from before position 0xffff had the same mark.
  ghost predicate SeenBefore(suite: Suite, cfg: Config, keys: SessionKeys, ps: nat -> Plain, xs: seq<nat>, k: nat, mark: seq<u8>)
    requires k <= |xs|
  {
    cfg.replayProtection && exists i :: 0 <= i < k && xs[i] < 0xffff && Mark(suite, cfg, keys, ps, xs[i]) == mark
  }

  lemma SeenStep(suite: Suite, cfg: Config, keys: SessionKeys, ps: nat -> Plain, xs: seq<nat>, k: nat, mark: seq<u8>)
    requires 0 < k <= |xs|
    ensures SeenBefore(suite, cfg, keys, ps, xs, k, mark) <==>
            || SeenBefore(suite, cfg, keys, ps, xs, k - 1, mark)
            || (cfg.replayProtection && xs[k - 1] < 0xffff && Mark(suite, cfg, keys, ps, xs[k - 1]) == mark)
  {
    hide Mark;
  }

  // Authentication, exactly: over any deliveries, lost, repeated or reordered,
  // every packet before the first with sequence number 0xffff is accepted and
  // decrypted, except that with replay protection one whose mark was seen is
  // refused, and the packet numbered 0xffff and every later one is refused.
  lemma {:induction false} AuthenticatedExactly(suite: Suite, cfg: Config, keys: SessionKeys, ps: nat -> Plain, xs: seq<nat>, k: nat)
    requires suite.aes.Lawful() && SeparatesCounters(suite) && Stream(ps) && cfg.authenticate && !cfg.nullCipher
    requires k < |xs| && forall x <- xs :: x < INDEX_LIMIT - 1
    ensures var ws := Delivered(suite, cfg, keys, ps, xs);
            && ReceiverAfter(suite, cfg, keys, ws, k).roc == 0
            && VerdictOn(suite, cfg, keys, ws, k)
               == VerdictAtZero(ps, xs[k], SeenBefore(suite, cfg, keys, ps, xs, k, Mark(suite, cfg, keys, ps, xs[k])))
  {
    hide ReceivePacket, SeparatesCounters, OnWire, VerdictAtZero, Mark, SeenBefore;
    var ws := Delivered(suite, cfg, keys, ps, xs);
    assert xs[k] in xs;
    ZeroAfter(suite, cfg, keys, ps, xs, k);
    ZeroStays(suite, cfg, keys, ps, xs[k], ReceiverAfter(suite, cfg, keys, ws, k));
    SeenNeedsProtection(suite, cfg, keys, ps, xs, k, Mark(suite, cfg, keys, ps, xs[k]));
  }

  lemma SeenNeedsProtection(suite: Suite, cfg: Config, keys: SessionKeys, ps: nat -> Plain, xs: seq<nat>, k: nat, mark: seq<u8>)
    requires k <= |xs|
    ensures SeenBefore(suite, cfg, keys, ps, xs, k, mark) ==> cfg.replayProtection
  {
    hide Mark;
  }

  // The receiver never leaves counter zero and remembers what it accepted.
  lemma {:induction false} ZeroAfter(suite: Suite, cfg: Config, keys: SessionKeys, ps: nat -> Plain, xs: seq<nat>, k: nat)
    requires suite.aes.Lawful() && SeparatesCounters(suite) && Stream(ps) && cfg.authenticate && !cfg.nullCipher
    requires k <= |xs| && forall x <- xs :: x < INDEX_LIMIT - 1
    ensures var r := ReceiverAfter(suite, cfg, keys, Delivered(suite, cfg, keys, ps, xs), k);
            r.roc == 0 && forall mark :: mark in r.replayList <==> SeenBefore(suite, cfg, keys, ps, xs, k, mark)
  {
    hide ReceivePacket, SeparatesCounters, OnWire, VerdictAtZero, Mark, SeenBefore;
    var ws := Delivered(suite, cfg, keys, ps, xs);
    if k == 0 {
      forall mark
        ensures !SeenBefore(suite, cfg, keys, ps, xs, 0, mark)
      {
        NoneSeen(suite, cfg, keys, ps, xs, mark);
      }
    } else {
      assert xs[k - 1] in xs;
      ZeroAfter(suite, cfg, keys, ps, xs, k - 1);
      ZeroStays(suite, cfg, keys, ps, xs[k - 1], ReceiverAfter(suite, cfg, keys, ws, k - 1));
      forall mark
        ensures SeenBefore(suite, cfg, keys, ps, xs, k, mark) <==>
                || SeenBefore(suite, cfg, keys, ps, xs, k - 1, mark)
                || (cfg.replayProtection && xs[k - 1] < 0xffff && Mark(suite, cfg, keys, ps, xs[k - 1]) == mark)
      {
        SeenStep(suite, cfg, keys, ps, xs, k, mark);
      }
    }
  }

  lemma NoneSeen(suite: Suite, cfg: Config, keys: SessionKeys, ps: nat -> Plain, xs: seq<nat>, mark: seq<u8>)
    ensures !SeenBefore(suite, cfg, keys, ps, xs, 0, mark)
  {
  }

  // ----- without a cipher -----

  // Some earlier delivery had this mark.
  ghost predicate MarkedBefore(suite: Suite, cfg: Config, keys: SessionKeys, ps: nat -> Plain, xs: seq<nat>, k: nat, mark: seq<u8>)
    requires k <= |xs|
  {
    exists i :: 0 <= i < k && Mark(suite, cfg, keys, ps, xs[i]) == mark
  }

  // With the null cipher no counter moves: every delivery, in any order, hands
  // over the payload untouched, except that replay protection refuses one whose
  // mark was seen.
  lemma NullCipherExactly(suite: Suite, cfg: Config, keys: SessionKeys, ps: nat -> Plain, xs: seq<nat>, k: nat)
    requires cfg.nullCipher && k < |xs|
    ensures var seen := cfg.authenticate && cfg.replayProtection
                        && MarkedBefore(suite, cfg, keys, ps, xs, k, Mark(suite, cfg, keys, ps, xs[k]));
            VerdictOn(suite, cfg, keys, Delivered(suite, cfg, keys, ps, xs), k)
            == if seen then Replayed else Untouched(ps(xs[k]).payload)
  {
    hide ReceivePacket, Mark, MarkedBefore, OnWire;
    var ws := Delivered(suite, cfg, keys, ps, xs);
    NullAfter(suite, cfg, keys, ps, xs, k);
    NullStep(suite, cfg, keys, ps, xs[k], ReceiverAfter(suite, cfg, keys, ws, k));
  }

  lemma NullStep(suite: Suite, cfg: Config, keys: SessionKeys, ps: nat -> Plain, x: nat, r: Receiver)
    requires cfg.nullCipher && r.roc == 0
    ensures var (next, verdict) := ReceivePacket(suite, cfg, keys, r, OnWire(suite, cfg, keys, ps, x));
            var mark, keeps := Mark(suite, cfg, keys, ps, x), cfg.authenticate && cfg.replayProtection;
            && next.roc == 0 && verdict == (if keeps && mark in r.replayList then Replayed else Untouched(ps(x).payload))
            && next.replayList == r.replayList + if keeps then {mark} else {}
  {
    hide TagOf;
  }

  lemma {:induction false} NullAfter(suite: Suite, cfg: Config, keys: SessionKeys, ps: nat -> Plain, xs: seq<nat>, k: nat)
    requires cfg.nullCipher && k <= |xs|
    ensures var r := ReceiverAfter(suite, cfg, keys, Delivered(suite, cfg, keys, ps, xs), k);
            && r.roc == 0
            && forall mark :: mark in r.replayList <==>
                 cfg.authenticate && cfg.replayProtection && MarkedBefore(suite, cfg, keys, ps, xs, k, mark)
  {
    hide ReceivePacket, Mark, OnWire;
    if k > 0 {
      NullAfter(suite, cfg, keys, ps, xs, k - 1);
      NullStep(suite, cfg, keys, ps, xs[k - 1],
               ReceiverAfter(suite, cfg, keys, Delivered(suite, cfg, keys, ps, xs), k - 1));
    }
  }

  // ----- replay protection -----

  predicate Accepted(v: Verdict) {
    v.Untouched? || v.Decrypted?
  }

  lemma {:induction false} RememberedTags(suite: Suite, cfg: Config, keys: SessionKeys, ws: seq<Wire>, i: nat, k: nat)
    requires cfg.authenticate && cfg.replayProtection && i < k <= |ws| && Accepted(VerdictOn(suite, cfg, keys, ws, i))
    ensures |ws[i].tag| == 10 && ws[i].tag[..8] in ReceiverAfter(suite, cfg, keys, ws, k).replayList
    decreases k
  {
    hide TagOf, PacketIv, NextRoc;
    if i < k - 1 {
      RememberedTags(suite, cfg, keys, ws, i, k - 1);
    }
  }

  // Whatever arrives, no tag, and so no packet, is accepted twice.
  lemma NeverTwice(suite: Suite, cfg: Config, keys: SessionKeys, ws: seq<Wire>, i: nat, j: nat)
    requires cfg.authenticate && cfg.replayProtection && i < j < |ws| && ws[i].tag == ws[j].tag
    ensures !(Accepted(VerdictOn(suite, cfg, keys, ws, i)) && Accepted(VerdictOn(suite, cfg, keys, ws, j)))
  {
    hide TagOf, PacketIv, NextRoc, ReceiverAfter;
    if Accepted(VerdictOn(suite, cfg, keys, ws, i)) {
      RememberedTags(suite, cfg, keys, ws, i, j);
    }
  }
}
