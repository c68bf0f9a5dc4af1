// The SRTP packet index: what sender and receiver take the roll-over counter to
// be, when they agree, and what becomes of authentication.
module SrtpIndex {
  import opened Common

  const CYCLE := 0x1_0000
  const ROC_LIMIT := 0x1_0000_0000
  const INDEX_LIMIT := 0x1_0000_0000_0000
  const MAX_OFF := 10000

  // roc++, a 32-bit counter.
  function Bump(roc: u32): u32 {
    (roc + 1) % ROC_LIMIT
  }

  function SenderIndex(roc: u32, sn: u16): nat {
    roc * CYCLE + sn
  }

  function NextRoc(roc: u32, sn: u16): u32 {
    if sn == 0xffff then Bump(roc) else roc
  }

  function Unsigned64(x: int): nat {
    x % 0x1_0000_0000_0000_0000
  }

  // The receiver's choice; the subtraction is on unsigned 64-bit integers.
  function ReceiverIndex(roc: u32, rts: u32, sn: u16, ts: u32): int {
    if ts == rts && sn + MAX_OFF < MAX_OFF then Unsigned64((roc - 1) * CYCLE + sn)
    else roc * CYCLE + sn
  }

  // The branch for late packets is never taken: the sum is not truncated to
  // sixteen bits.
  lemma LateBranchDead(roc: u32, rts: u32, sn: u16, ts: u32)
    ensures ReceiverIndex(roc, rts, sn, ts) == roc * CYCLE + sn
  {
  }

  // ----- the sender -----

  // The counter after n packets with consecutive sequence numbers from seq0 on.
  function RocAfter(seq0: u16, n: nat): u32 {
    if n == 0 then 0 else NextRoc(RocAfter(seq0, n - 1), (seq0 + n - 1) % CYCLE)
  }

  lemma {:induction false} RocCounts(seq0: u16, n: nat)
    ensures RocAfter(seq0, n) == (seq0 + n) / CYCLE % ROC_LIMIT
  {
    if n > 0 {
      RocCounts(seq0, n - 1);
      var x: nat := seq0 + n - 1;
      StepOver(x);
      BumpCounts(x / CYCLE);
    }
  }

  lemma StepOver(x: nat)
    ensures (x + 1) / CYCLE == x / CYCLE + if x % CYCLE == 0xffff then 1 else 0
  {
  }

  lemma BumpCounts(x: nat)
    ensures Bump(x % ROC_LIMIT) == (x + 1) % ROC_LIMIT
  {
  }

  // The n-th packet is encrypted with index seq0 + n, modulo 2^48.
  lemma SenderCounts(seq0: u16, n: nat)
    ensures SenderIndex(RocAfter(seq0, n), (seq0 + n) % CYCLE) == (seq0 + n) % INDEX_LIMIT
  {
    RocCounts(seq0, n);
    var x: nat := seq0 + n;
    FoldIndex(x / CYCLE, x % CYCLE);
    assert x == x / CYCLE * CYCLE + x % CYCLE;
  }

  lemma FoldIndex(q: nat, r: nat)
    requires r < CYCLE
    ensures (q * CYCLE + r) % INDEX_LIMIT == q % ROC_LIMIT * CYCLE + r
  {
    var d, e := q / ROC_LIMIT, q % ROC_LIMIT;
    assert q * CYCLE + r == d * INDEX_LIMIT + (e * CYCLE + r);
    Remainder(d, e * CYCLE + r);
  }

  lemma Remainder(d: nat, t: nat)
    requires t < INDEX_LIMIT
    ensures (d * INDEX_LIMIT + t) % INDEX_LIMIT == t
  {
  }

  // ----- the receiver -----

  // How many of the first k deliveries carry sequence number 0xffff; what is
  // delivered is named by its position in the sender's unbounded numbering.
  function Rollovers(xs: seq<nat>, k: nat): nat
    requires k <= |xs|
  {
    if k == 0 then 0 else Rollovers(xs, k - 1) + if xs[k - 1] % CYCLE == 0xffff then 1 else 0
  }

  // The receiver's counter before the k-th delivery.
  function ReceiverRoc(xs: seq<nat>, k: nat): u32
    requires k <= |xs|
  {
    if k == 0 then 0 else NextRoc(ReceiverRoc(xs, k - 1), xs[k - 1] % CYCLE)
  }

  lemma {:induction false} ReceiverRocCounts(xs: seq<nat>, k: nat)
    requires k <= |xs|
    ensures ReceiverRoc(xs, k) == Rollovers(xs, k) % ROC_LIMIT
  {
    if k > 0 {
      ReceiverRocCounts(xs, k - 1);
      BumpCounts(Rollovers(xs, k - 1));
    }
  }

  // The receiver decrypts every delivery with the index it was encrypted with.
  ghost predicate IndicesAgree(xs: seq<nat>, upTo: nat)
    requires upTo <= |xs|
  {
    forall k :: 0 <= k < upTo ==> ReceiverRoc(xs, k) * CYCLE + xs[k] % CYCLE == xs[k]
  }

  // Cycles arrive one after the other, the packet numbered 0xffff closes its
  // cycle, and none of these closing packets is missing.
  ghost predicate CyclesInOrder(xs: seq<nat>) {
    && (forall i, j :: 0 <= i < j < |xs| ==> xs[i] / CYCLE <= xs[j] / CYCLE)
    && (forall i, j :: 0 <= i < j < |xs| && xs[i] % CYCLE == 0xffff ==> xs[i] / CYCLE < xs[j] / CYCLE)
    && (forall k, c: nat :: 0 <= k < |xs| && c < xs[k] / CYCLE ==> ClosedBefore(xs, k, c))
  }

  ghost predicate ClosedBefore(xs: seq<nat>, k: nat, c: nat)
    requires k <= |xs|
  {
    exists i :: 0 <= i < k && xs[i] == c * CYCLE + 0xffff
  }

  lemma {:induction false} RolloversGrow(xs: seq<nat>, i: nat, j: nat)
    requires i <= j <= |xs|
    ensures Rollovers(xs, i) <= Rollovers(xs, j)
    ensures i < j && xs[i] % CYCLE == 0xffff ==> Rollovers(xs, i) < Rollovers(xs, j)
    decreases j
  {
    if i < j {
      RolloversGrow(xs, i, j - 1);
    }
  }

  // Every value the count passes through was left by a packet numbered 0xffff.
  lemma {:induction false} RolloversPass(xs: seq<nat>, k: nat, c: nat) returns (i: nat)
    requires k <= |xs| && c < Rollovers(xs, k)
    ensures i < k && Rollovers(xs, i) == c && xs[i] % CYCLE == 0xffff
  {
    if Rollovers(xs, k - 1) <= c {
      i := k - 1;
    } else {
      i := RolloversPass(xs, k - 1, c);
    }
  }

  // The count before each delivery is that delivery's cycle.
  ghost predicate Counted(xs: seq<nat>) {
    forall k :: 0 <= k < |xs| ==> Rollovers(xs, k) == xs[k] / CYCLE
  }

  lemma CountedInOrder(xs: seq<nat>)
    requires Counted(xs)
    ensures CyclesInOrder(xs)
  {
    forall i, j | 0 <= i < j < |xs|
      ensures xs[i] / CYCLE <= xs[j] / CYCLE && (xs[i] % CYCLE == 0xffff ==> xs[i] / CYCLE < xs[j] / CYCLE)
    {
      RolloversGrow(xs, i, j);
    }
    forall k, c: nat | 0 <= k < |xs| && c < xs[k] / CYCLE
      ensures ClosedBefore(xs, k, c)
    {
      var i := RolloversPass(xs, k, c);
      assert xs[i] == c * CYCLE + 0xffff;
    }
  }

  lemma {:induction false} InOrderCounted(xs: seq<nat>, k: nat)
    requires CyclesInOrder(xs) && k < |xs|
    ensures Rollovers(xs, k) == xs[k] / CYCLE
  {
    var r := Rollovers(xs, k);
    if k > 0 {
      InOrderCounted(xs, k - 1);
      assert r <= xs[k] / CYCLE;
    }
    if r < xs[k] / CYCLE {
      assert ClosedBefore(xs, k, r);
      var i :| 0 <= i < k && xs[i] == r * CYCLE + 0xffff;
      InOrderCounted(xs, i);
      RolloversGrow(xs, i, k);
    }
  }

  lemma {:induction false} CountsBounded(xs: seq<nat>, k: nat)
    requires k <= |xs| && IndicesAgree(xs, k) && forall x <- xs :: x < INDEX_LIMIT - 1
    ensures Rollovers(xs, k) < ROC_LIMIT
  {
    hide ReceiverRoc;
    if k > 0 {
      CountsBounded(xs, k - 1);
      ReceiverRocCounts(xs, k - 1);
      assert xs[k - 1] in xs;
      BelowLast(Rollovers(xs, k - 1), xs[k - 1]);
    }
  }

  lemma BelowLast(roc: nat, x: nat)
    requires roc < ROC_LIMIT && x < INDEX_LIMIT - 1 && (roc % ROC_LIMIT) * CYCLE + x % CYCLE == x
    ensures roc + (if x % CYCLE == 0xffff then 1 else 0) < ROC_LIMIT
  {
    assert roc % ROC_LIMIT == roc;
  }

  lemma SplitIndex(x: nat)
    ensures x == x / CYCLE * CYCLE + x % CYCLE
  {
  }

  // Index agreement, exactly: below the counter's limit the receiver uses the
  // sender's index for every delivery if and only if cycles arrive in order,
  // each closed by its packet 0xffff, delivered once and last.
  lemma AgreeExactly(xs: seq<nat>)
    requires forall x <- xs :: x < INDEX_LIMIT - 1
    ensures IndicesAgree(xs, |xs|) <==> CyclesInOrder(xs)
  {
    hide CyclesInOrder, ReceiverRoc;
    if IndicesAgree(xs, |xs|) {
      forall k | 0 <= k < |xs|
        ensures Rollovers(xs, k) == xs[k] / CYCLE
      {
        CountsBounded(xs, k);
        ReceiverRocCounts(xs, k);
        SplitIndex(xs[k]);
      }
      CountedInOrder(xs);
    }
    if CyclesInOrder(xs) {
      forall k | 0 <= k < |xs|
        ensures ReceiverRoc(xs, k) * CYCLE + xs[k] % CYCLE == xs[k]
      {
        InOrderCounted(xs, k);
        ReceiverRocCounts(xs, k);
        assert xs[k] in xs;
        SplitIndex(xs[k]);
      }
    }
  }
}
