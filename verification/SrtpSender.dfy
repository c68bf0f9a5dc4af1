// What a sender hands to the socket, protected packet by packet: the counter
// along the way, and when two packets meet the same initialisation vector.
module SrtpSender {
  import opened Common
  import opened FrameQueue
  import opened SrtpIndex
  import opened SrtpKeys
  import opened Srtp
  import opened SrtpContext

  // The counter before the k-th of the packets sent.
  function CounterAt(cfg: Config, roc: u32, fs: seq<Frame>, k: nat): u32
    requires k <= |fs|
  {
    if k == 0 then roc else SendRoc(cfg, CounterAt(cfg, roc, fs, k - 1), PlainOf(fs[k - 1]))
  }

  // The vector the k-th packet is encrypted with by a fresh context.
  function IvAt(cfg: Config, keys: SessionKeys, fs: seq<Frame>, k: nat): Block
    requires k < |fs|
  {
    PacketIv(keys, fs[k].header.ssrc, SenderIndex(CounterAt(cfg, 0, fs, k), fs[k].header.seqNo))
  }

  // How many of the first k packets are numbered 0xffff.
  function LastNumbers(fs: seq<Frame>, k: nat): nat
    requires k <= |fs|
  {
    if k == 0 then 0 else LastNumbers(fs, k - 1) + if fs[k - 1].header.seqNo == 0xffff then 1 else 0
  }

  lemma {:induction false} CounterCounts(cfg: Config, fs: seq<Frame>, k: nat)
    requires !cfg.nullCipher && k <= |fs|
    ensures CounterAt(cfg, 0, fs, k) == LastNumbers(fs, k) % ROC_LIMIT
  {
    if k > 0 {
      CounterCounts(cfg, fs, k - 1);
      BumpCounts(LastNumbers(fs, k - 1));
    }
  }

  // Whatever packets of one source are sent, two are encrypted with the same
  // vector if and only if they have the same number and the packets numbered
  // 0xffff sent from the first up to the second are a multiple of 2^32.
  lemma VectorsRepeatExactly(cfg: Config, keys: SessionKeys, fs: seq<Frame>, i: nat, j: nat)
    requires !cfg.nullCipher && i <= j < |fs| && fs[i].header.ssrc == fs[j].header.ssrc
    ensures IvAt(cfg, keys, fs, i) == IvAt(cfg, keys, fs, j) <==>
            fs[i].header.seqNo == fs[j].header.seqNo && LastNumbers(fs, i) % ROC_LIMIT == LastNumbers(fs, j) % ROC_LIMIT
  {
    hide IvFor, LastNumbers, CounterAt, Power;
    CounterCounts(cfg, fs, i);
    CounterCounts(cfg, fs, j);
    PowerEight();
    IvInjective(fs[i].header.ssrc, SenderIndex(CounterAt(cfg, 0, fs, i), fs[i].header.seqNo),
                SenderIndex(CounterAt(cfg, 0, fs, j), fs[j].header.seqNo), keys.salt);
  }

  lemma {:induction false} CounterOfRun(cfg: Config, s: u16, ssrc: u32, fs: seq<Frame>, k: nat)
    requires !cfg.nullCipher && Numbered(s, ssrc, fs) && k <= |fs|
    ensures CounterAt(cfg, 0, fs, k) == RocAfter(s, k)
  {
    if k > 0 {
      CounterOfRun(cfg, s, ssrc, fs, k - 1);
      assert fs[k - 1].header.seqNo == Number(s, k - 1);
    }
  }

  // Freshness on the wire: of the packets a queue has handed to the socket,
  // two meet the same vector exactly when their places are equal modulo 2^48.
  lemma WireFreshExactly(cfg: Config, keys: SessionKeys, queue: Queue, i: nat, j: nat)
    requires queue.Valid() && !cfg.nullCipher && i < j < |queue.wire|
    ensures IvAt(cfg, keys, queue.wire, i) == IvAt(cfg, keys, queue.wire, j) <==> (j - i) % INDEX_LIMIT == 0
  {
    hide PacketIv, SenderIndex, RocAfter, CounterAt;
    var fs, s, ssrc := queue.wire, queue.first, queue.common.ssrc;
    CounterOfRun(cfg, s, ssrc, fs, i);
    CounterOfRun(cfg, s, ssrc, fs, j);
    IvRepeatsExactly(keys, ssrc, s, i, j);
    SameResidue(s + i, s + j);
  }

  lemma SameResidue(x: nat, y: nat)
    requires x <= y
    ensures x % INDEX_LIMIT == y % INDEX_LIMIT <==> (y - x) % INDEX_LIMIT == 0
  {
  }

  // The k-th packet as it goes out.
  function SentAt(suite: Suite, cfg: Config, keys: SessionKeys, roc: u32, fs: seq<Frame>, k: nat): Wire
    requires k < |fs|
  {
    SendPacket(suite, cfg, keys, CounterAt(cfg, roc, fs, k), PlainOf(fs[k]))
  }

  method SendOne(context: Context, p: Plain) returns (wire: Wire)
    requires context.suite.aes.Lawful()
    modifies context`roc
    ensures wire == SendPacket(context.suite, context.cfg, context.local, old(context.roc), p)
    ensures context.roc == SendRoc(context.cfg, old(context.roc), p)
  {
    hide SendPacket, SendRoc;
    var payload := new u8[|p.payload|](j requires 0 <= j < |p.payload| => p.payload[j]);
    assert payload[..] == p.payload;
    var tag := context.SendPacketHandler(p.head, p.ssrc, p.sn, p.ts, payload);
    wire := Wire(p.(payload := payload[..]), tag);
  }

  // socket::sendto with the SRTP handler installed.
  method SendAll(context: Context, fs: seq<Frame>) returns (wires: seq<Wire>)
    requires context.suite.aes.Lawful()
    modifies context`roc
    ensures context.roc == CounterAt(context.cfg, old(context.roc), fs, |fs|)
    ensures |wires| == |fs|
    ensures forall k :: 0 <= k < |fs| ==>
              wires[k] == SentAt(context.suite, context.cfg, context.local, old(context.roc), fs, k)
  {
    hide SendPacket, SendRoc, PlainOf;
    wires := [];
    for i := 0 to |fs|
      invariant |wires| == i && context.roc == CounterAt(context.cfg, old(context.roc), fs, i)
      invariant forall k :: 0 <= k < i ==>
                  wires[k] == SentAt(context.suite, context.cfg, context.local, old(context.roc), fs, k)
    {
      var wire := SendOne(context, PlainOf(fs[i]));
      assert wire == SentAt(context.suite, context.cfg, context.local, old(context.roc), fs, i);
      wires := wires + [wire];
    }
  }
}
