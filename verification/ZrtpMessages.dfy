// ZRTP messages as the bytes on the wire: how each is built from what an
// endpoint knows, and what a receiver reads out of it.
module ZrtpMessages {
  import opened Common

  type Digest = s: seq<u8> | |s| == 32 witness seq(32, i => 0)
  type Zid = s: seq<u8> | |s| == 12 witness seq(12, i => 0)
  type PublicKey = s: seq<u8> | |s| == 384 witness seq(384, i => 0)
  type Iv = s: seq<u8> | |s| == 16 witness seq(16, i => 0)
  type Crc = s: seq<u8> | |s| == 4 witness seq(4, i => 0)

  // The cryptographic primitives. Nothing is assumed of hash, hmac and crc.
  datatype Crypto = Crypto(
    hash: seq<u8> -> Digest,
    hmac: (seq<u8>, seq<u8>) -> Digest,
    encrypt: (seq<u8>, seq<u8>, seq<u8>) -> seq<u8>,
    decrypt: (seq<u8>, seq<u8>, seq<u8>) -> seq<u8>,
    publicKey: seq<u8> -> PublicKey,
    shared: (seq<u8>, seq<u8>) -> PublicKey,
    crc: seq<u8> -> Crc)
  {
    // Decryption undoes encryption, and Diffie-Hellman commutes.
    ghost predicate Lawful() {
      && (forall k, iv, d :: decrypt(k, iv, encrypt(k, iv, d)) == d)
      && (forall k, iv, d :: |encrypt(k, iv, d)| == |d| && |decrypt(k, iv, d)| == |d|)
      && (forall a, b :: shared(a, publicKey(b)) == shared(b, publicKey(a)))
    }

    // A hash or MAC truncated to 64 bits.
    function Mac(key: seq<u8>, text: seq<u8>): (r: seq<u8>)
      ensures |r| == 8
    {
      hmac(key, text)[..8]
    }
  }

  // Such primitives exist, with a hash that collides as well.
  lemma LawfulExists()
    ensures exists c: Crypto :: c.Lawful() && forall x, y :: c.hash(x) == c.hash(y)
  {
    var zero: Digest, key: PublicKey, crc: Crc := seq(32, i => 0), seq(384, i => 0), [0, 0, 0, 0];
    var c := Crypto(text => zero, (k, text) => zero, (k, iv, d) => d, (k, iv, d) => d, s => key, (a, b) => key, text => crc);
    assert c.Lawful();
  }

  // What an endpoint draws at random, and its SSRC.
  datatype Local = Local(ssrc: u32, zid: Zid, h0: Digest, secret: seq<u8>,
                         rs1: Digest, rs2: Digest, raux: Digest, rpbx: Digest, iv: Iv)

  // The hash chain of section 9 of RFC 6189: H0 hashed i times.
  function Chain(c: Crypto, h0: Digest, i: nat): Digest {
    if i == 0 then h0 else c.hash(Chain(c, h0, i - 1))
  }

  // ----- the start of every message -----

  datatype Kind = Hello | HelloAck | Commit | DhPart1 | DhPart2 | Confirm1 | Confirm2 | Conf2Ack

  // The message type block, eight ASCII characters.
  function Block(k: Kind): (b: seq<u8>)
    ensures |b| == 8
  {
    match k
    case Hello => [0x48, 0x65, 0x6c, 0x6c, 0x6f, 0x20, 0x20, 0x20]
    case HelloAck => [0x48, 0x65, 0x6c, 0x6c, 0x6f, 0x41, 0x43, 0x4b]
    case Commit => [0x43, 0x6f, 0x6d, 0x6d, 0x69, 0x74, 0x20, 0x20]
    case DhPart1 => [0x44, 0x48, 0x50, 0x61, 0x72, 0x74, 0x31, 0x20]
    case DhPart2 => [0x44, 0x48, 0x50, 0x61, 0x72, 0x74, 0x32, 0x20]
    case Confirm1 => [0x43, 0x6f, 0x6e, 0x66, 0x69, 0x72, 0x6d, 0x31]
    case Confirm2 => [0x43, 0x6f, 0x6e, 0x66, 0x69, 0x72, 0x6d, 0x32]
    case Conf2Ack => [0x43, 0x6f, 0x6e, 0x66, 0x32, 0x41, 0x43, 0x4b]
  }

  lemma BlocksDiffer(j: Kind, k: Kind)
    requires Block(j) == Block(k)
    ensures j == k
  {
    assert Block(j)[0] == Block(k)[0] && Block(j)[5] == Block(k)[5] && Block(j)[6] == Block(k)[6] && Block(j)[7] == Block(k)[7];
  }

  function Le16(x: u16): seq<u8> {
    [x % 0x100, x / 0x100]
  }

  function Le32(x: u32): seq<u8> {
    [x % 0x100, x / 0x100 % 0x100, x / 0x1_0000 % 0x100, x / 0x100_0000]
  }

  // Header and message preamble: version and unused bits, sequence number,
  // "PTRZ", SSRC, "ZP", length, type block; the fields in host byte order.
  function Start(k: Kind, ssrc: u32, sn: u16, length: u16): (s: seq<u8>)
    ensures |s| == 24
  {
    [0, 0] + Le16(sn) + [0x50, 0x54, 0x52, 0x5a] + Le32(ssrc) + [0x5a, 0x50] + Le16(length) + Block(k)
  }

  predicate WellStarted(m: seq<u8>) {
    && |m| >= 24
    && m[0] % 16 == 0
    && m[4..8] == [0x50, 0x54, 0x52, 0x5a]
    && m[12..14] == [0x5a, 0x50]
  }

  // What recv_msg takes a message to be; None for what it does not know.
  function KindOf(m: seq<u8>): Option<Kind> {
    if !WellStarted(m) then None
    else
      var b := m[16..24];
      if b == Block(Hello) then Some(Hello)
      else if b == Block(HelloAck) then Some(HelloAck)
      else if b == Block(Commit) then Some(Commit)
      else if b == Block(DhPart1) then Some(DhPart1)
      else if b == Block(DhPart2) then Some(DhPart2)
      else if b == Block(Confirm1) then Some(Confirm1)
      else if b == Block(Confirm2) then Some(Confirm2)
      else if b == Block(Conf2Ack) then Some(Conf2Ack)
      else None
  }

  lemma KindOfStart(k: Kind, ssrc: u32, sn: u16, length: u16, rest: seq<u8>)
    ensures KindOf(Start(k, ssrc, sn, length) + rest) == Some(k)
  {
    hide Block;
    var m := Start(k, ssrc, sn, length) + rest;
    assert m[4..8] == [0x50, 0x54, 0x52, 0x5a];
    assert m[12..14] == [0x5a, 0x50];
    assert m[16..24] == Block(k);
    forall j | Block(j) == Block(k)
      ensures j == k
    {
      BlocksDiffer(j, k);
    }
  }

  // ----- the messages -----

  function Sealed(c: Crypto, front: seq<u8>): seq<u8> {
    front + c.crc(front)
  }

  // "1.10", "uvgRTP,UVG,TUNI " and, in Commit, S256 AES1 HS32 DH3k B32.
  const VERSION: seq<u8> := [0x31, 0x2e, 0x31, 0x30]
  const CLIENT: seq<u8> := [0x75, 0x76, 0x67, 0x52, 0x54, 0x50, 0x2c, 0x55, 0x56, 0x47, 0x2c, 0x54, 0x55, 0x4e, 0x49, 0x20]
  const ALGORITHMS: seq<u8> := [0x53, 0x32, 0x35, 0x36, 0x41, 0x45, 0x53, 0x31, 0x48, 0x53, 0x33, 0x32,
                                0x44, 0x48, 0x33, 0x6b, 0x42, 0x33, 0x32, 0x20]
  const RESPONDER: seq<u8> := [0x52, 0x65, 0x73, 0x70, 0x6f, 0x6e, 0x64, 0x65, 0x72]
  const INITIATOR: seq<u8> := [0x49, 0x6e, 0x69, 0x74, 0x69, 0x61, 0x74, 0x6f, 0x72]

  function HelloFront(c: Crypto, l: Local, sn: u16): (m: seq<u8>)
    ensures |m| == 93
  {
    Start(Hello, l.ssrc, sn, 92) + VERSION + CLIENT + Chain(c, l.h0, 3) + l.zid + [0, 0, 0, 0, 0]
  }

  // The MAC covers the first 81 bytes.
  function HelloMsg(c: Crypto, l: Local, sn: u16): (m: seq<u8>)
    ensures |m| == 105
  {
    var front := HelloFront(c, l, sn);
    Sealed(c, front + c.Mac(Chain(c, l.h0, 2), front[..81]))
  }

  function HelloAckMsg(c: Crypto): seq<u8> {
    Sealed(c, Start(HelloAck, 0, 0, 3))
  }

  function CommitFront(c: Crypto, l: Local, hvi: Digest, sn: u16): (m: seq<u8>)
    ensures |m| == 120
  {
    Start(Commit, l.ssrc, sn, 120) + Chain(c, l.h0, 2) + l.zid + ALGORITHMS + hvi
  }

  function CommitMsg(c: Crypto, l: Local, hvi: Digest, sn: u16): (m: seq<u8>)
    ensures |m| == 132
  {
    var front := CommitFront(c, l, hvi, sn);
    Sealed(c, front + c.Mac(Chain(c, l.h0, 1), front))
  }

  datatype Role = Initiator | Responder

  // The responder sends DHPart1, the initiator DHPart2.
  function DhFront(c: Crypto, l: Local, role: Role, sn: u16): (m: seq<u8>)
    ensures |m| == 472
  {
    var name := if role == Responder then RESPONDER else INITIATOR;
    Start(if role == Responder then DhPart1 else DhPart2, l.ssrc, sn, 472) + Chain(c, l.h0, 1)
    + c.Mac(l.rs1, name) + c.Mac(l.rs2, name) + c.Mac(l.raux, Chain(c, l.h0, 3)) + c.Mac(l.rpbx, name)
    + c.publicKey(l.secret)
  }

  function DhMsg(c: Crypto, l: Local, role: Role, sn: u16): (m: seq<u8>)
    ensures |m| == 484
  {
    var front := DhFront(c, l, role, sn);
    Sealed(c, front + c.Mac(l.h0, front))
  }

  // H0 and eight zero bytes are encrypted; the MAC is over the cipher text.
  function ConfirmMsg(c: Crypto, l: Local, role: Role, key: seq<u8>, macKey: seq<u8>, sn: u16): seq<u8> {
    var cipher := c.encrypt(key, l.iv, l.h0 + [0, 0, 0, 0, 0, 0, 0, 0]);
    Sealed(c, Start(if role == Responder then Confirm1 else Confirm2, l.ssrc, sn, 80)
              + c.Mac(macKey, cipher) + l.iv + cipher)
  }

  function Conf2AckMsg(c: Crypto, l: Local, sn: u16): seq<u8> {
    Sealed(c, Start(Conf2Ack, l.ssrc, sn, 16))
  }

  // ----- what a receiver reads -----

  // A received message copied into a zeroed buffer of n bytes, as the parsers
  // read their fields from one.
  function Copied(m: seq<u8>, n: nat): (r: seq<u8>)
    ensures |r| == n
  {
    if |m| >= n then m[..n] else m + seq(n - |m|, i => 0)
  }

  datatype HelloFields = HelloFields(version: seq<u8>, hash: seq<u8>, zid: seq<u8>, mac: seq<u8>)

  function ParseHello(m: seq<u8>): HelloFields {
    var f := Copied(m, 145);
    HelloFields(f[24..28], f[44..76], f[76..88], f[93..101])
  }

  datatype CommitFields = CommitFields(hash: seq<u8>, hvi: Digest, mac: seq<u8>)

  function ParseCommit(m: seq<u8>): CommitFields {
    var f := Copied(m, 132);
    CommitFields(f[24..56], f[88..120], f[120..128])
  }

  datatype DhFields = DhFields(hash: seq<u8>, pk: seq<u8>, mac: seq<u8>)

  function ParseDh(m: seq<u8>): DhFields {
    var f := Copied(m, 484);
    DhFields(f[24..56], f[88..472], f[472..480])
  }

  datatype ConfirmFields = ConfirmFields(first: bool, mac: seq<u8>, iv: seq<u8>, cipher: seq<u8>)

  function ParseConfirm(m: seq<u8>): ConfirmFields {
    var f := Copied(m, 92);
    ConfirmFields(f[16..24] == Block(Confirm1), f[24..32], f[32..48], f[48..88])
  }

  // The first 24 bytes, field by field, the numbers with the low byte first.
  lemma StartLayout(k: Kind, ssrc: u32, sn: u16, length: u16)
    ensures var m: seq<int> := Start(k, ssrc, sn, length);
            && m[0] == 0 && m[1] == 0 && m[2] + m[3] * 0x100 == sn as int
            && m[8] + m[9] * 0x100 + m[10] * 0x1_0000 + m[11] * 0x100_0000 == ssrc as int
            && m[14] + m[15] * 0x100 == length as int
  {
    LowBytes(ssrc);
  }

  lemma LowBytes(x: u32)
    ensures x % 0x100 + x / 0x100 % 0x100 * 0x100 + x / 0x1_0000 % 0x100 * 0x1_0000 + x / 0x100_0000 * 0x100_0000 == x
  {
    var q := x / 0x100;
    var r := q / 0x100;
    assert x == 0x100 * q + x % 0x100 && q == 0x100 * r + q % 0x100 && r == 0x100 * (r / 0x100) + r % 0x100;
    assert r == x / 0x1_0000 && r / 0x100 == x / 0x100_0000;
  }

  // The four retained-secret identifiers of a DHPart message: those of the
  // responder in DHPart1, of the initiator in DHPart2.
  lemma RetainedSecrets(c: Crypto, l: Local, role: Role, sn: u16)
    ensures var m, name := DhMsg(c, l, role, sn), if role == Initiator then INITIATOR else RESPONDER;
            && m[56..64] == c.Mac(l.rs1, name) && m[64..72] == c.Mac(l.rs2, name)
            && m[72..80] == c.Mac(l.raux, Chain(c, l.h0, 3)) && m[80..88] == c.Mac(l.rpbx, name)
  {
    hide Start, Chain;
  }

  // ----- reading back what was written -----

  lemma HelloLayout(c: Crypto, l: Local, sn: u16)
    ensures var m := HelloMsg(c, l, sn);
            && m[..24] == Start(Hello, l.ssrc, sn, 92) && m[24..28] == VERSION && m[28..44] == CLIENT
            && m[44..76] == Chain(c, l.h0, 3) && m[76..88] == l.zid && m[93..101] == c.Mac(Chain(c, l.h0, 2), m[..81])
            && m[101..] == c.crc(m[..101])
  {
    hide Start, Chain;
    var front := HelloFront(c, l, sn);
    var mac := c.Mac(Chain(c, l.h0, 2), front[..81]);
    var m := HelloMsg(c, l, sn);
    assert m[..101] == front + mac;
    assert m[..81] == front[..81];
    assert m[93..101] == mac;
  }

  lemma HelloReadsBack(c: Crypto, l: Local, sn: u16)
    ensures var m := HelloMsg(c, l, sn);
            && KindOf(m) == Some(Hello)
            && ParseHello(m) == HelloFields(VERSION, Chain(c, l.h0, 3), l.zid, c.Mac(Chain(c, l.h0, 2), m[..81]))
  {
    hide Start, KindOf, Chain, HelloMsg;
    var m := HelloMsg(c, l, sn);
    HelloLayout(c, l, sn);
    KindOfStart(Hello, l.ssrc, sn, 92, m[24..]);
    assert m == Start(Hello, l.ssrc, sn, 92) + m[24..];
    assert Copied(m, 145)[..105] == m;
  }

  lemma HelloAckReadsBack(c: Crypto)
    ensures KindOf(HelloAckMsg(c)) == Some(HelloAck)
  {
    hide Start, KindOf;
    KindOfStart(HelloAck, 0, 0, 3, c.crc(Start(HelloAck, 0, 0, 3)));
  }

  lemma CommitLayout(c: Crypto, l: Local, hvi: Digest, sn: u16)
    ensures var m := CommitMsg(c, l, hvi, sn);
            && m[..24] == Start(Commit, l.ssrc, sn, 120) && m[24..56] == Chain(c, l.h0, 2) && m[56..68] == l.zid
            && m[68..88] == ALGORITHMS && m[88..120] == hvi && m[120..128] == c.Mac(Chain(c, l.h0, 1), m[..120])
            && m[128..] == c.crc(m[..128])
  {
    hide Start, Chain;
    var front := CommitFront(c, l, hvi, sn);
    var mac := c.Mac(Chain(c, l.h0, 1), front);
    var m := CommitMsg(c, l, hvi, sn);
    assert m[..120] == front;
    assert m[..128] == front + mac;
    assert m[120..128] == mac;
  }

  lemma CommitReadsBack(c: Crypto, l: Local, hvi: Digest, sn: u16)
    ensures var m := CommitMsg(c, l, hvi, sn);
            && KindOf(m) == Some(Commit)
            && ParseCommit(m) == CommitFields(Chain(c, l.h0, 2), hvi, c.Mac(Chain(c, l.h0, 1), m[..120]))
  {
    hide Start, KindOf, Chain, CommitMsg;
    var m := CommitMsg(c, l, hvi, sn);
    CommitLayout(c, l, hvi, sn);
    KindOfStart(Commit, l.ssrc, sn, 120, m[24..]);
    assert m == Start(Commit, l.ssrc, sn, 120) + m[24..];
    assert Copied(m, 132) == m;
  }

  lemma DhLayout(c: Crypto, l: Local, role: Role, sn: u16)
    ensures var m := DhMsg(c, l, role, sn);
            && m[..24] == Start(if role == Responder then DhPart1 else DhPart2, l.ssrc, sn, 472) && m[24..56] == Chain(c, l.h0, 1)
            && m[88..472] == c.publicKey(l.secret) && m[472..480] == c.Mac(l.h0, m[..472]) && m[480..] == c.crc(m[..480])
  {
    hide Start, Chain;
    var front := DhFront(c, l, role, sn);
    var mac := c.Mac(l.h0, front);
    var m := DhMsg(c, l, role, sn);
    assert m[..472] == front;
    assert m[..480] == front + mac;
    assert m[472..480] == mac;
  }

  lemma DhReadsBack(c: Crypto, l: Local, role: Role, sn: u16)
    ensures var m := DhMsg(c, l, role, sn);
            && KindOf(m) == Some(if role == Responder then DhPart1 else DhPart2)
            && ParseDh(m) == DhFields(Chain(c, l.h0, 1), c.publicKey(l.secret), c.Mac(l.h0, m[..472]))
  {
    hide Start, KindOf, Chain, DhMsg;
    var kind := if role == Responder then DhPart1 else DhPart2;
    var m := DhMsg(c, l, role, sn);
    DhLayout(c, l, role, sn);
    KindOfStart(kind, l.ssrc, sn, 472, m[24..]);
    assert m == Start(kind, l.ssrc, sn, 472) + m[24..];
    assert Copied(m, 484) == m;
  }

  lemma ConfirmReadsBack(c: Crypto, l: Local, role: Role, key: seq<u8>, macKey: seq<u8>, sn: u16)
    requires c.Lawful()
    ensures var m := ConfirmMsg(c, l, role, key, macKey, sn);
            var f := ParseConfirm(m);
            && KindOf(m) == Some(if role == Responder then Confirm1 else Confirm2)
            && f.first == (role == Responder)
            && f.mac == c.Mac(macKey, f.cipher)
            && c.decrypt(key, f.iv, f.cipher)[..32] == l.h0
  {
    hide Start, KindOf, Block;
    var kind := if role == Responder then Confirm1 else Confirm2;
    var plain := l.h0 + [0, 0, 0, 0, 0, 0, 0, 0];
    var cipher := c.encrypt(key, l.iv, plain);
    var m := ConfirmMsg(c, l, role, key, macKey, sn);
    KindOfStart(kind, l.ssrc, sn, 80, m[24..]);
    assert m == Start(kind, l.ssrc, sn, 80) + m[24..];
    StartBlock(kind, l.ssrc, sn, 80);
    assert m[16..24] == Start(kind, l.ssrc, sn, 80)[16..24];
    if Block(kind) == Block(Confirm1) {
      BlocksDiffer(kind, Confirm1);
    }
    assert Copied(m, 92) == m;
    assert m[24..32] == c.Mac(macKey, cipher);
    assert m[32..48] == l.iv;
    assert m[48..88] == cipher;
    assert plain[..32] == l.h0;
  }

  lemma ConfirmLayout(c: Crypto, l: Local, role: Role, key: seq<u8>, macKey: seq<u8>, sn: u16)
    requires c.Lawful()
    ensures var m := ConfirmMsg(c, l, role, key, macKey, sn);
            && |m| == 92 && m[32..48] == l.iv && m[48..88] == c.encrypt(key, l.iv, l.h0 + [0, 0, 0, 0, 0, 0, 0, 0])
            && m[24..32] == c.hmac(macKey, m[48..88])[..8] && m[88..] == c.crc(m[..88])
  {
    hide Start, Block;
    var cipher := c.encrypt(key, l.iv, l.h0 + [0, 0, 0, 0, 0, 0, 0, 0]);
    var m := ConfirmMsg(c, l, role, key, macKey, sn);
    var front := Start(if role == Responder then Confirm1 else Confirm2, l.ssrc, sn, 80) + c.Mac(macKey, cipher) + l.iv + cipher;
    assert m == front + c.crc(front) && m[..88] == front;
    assert m[48..88] == cipher && m[24..32] == c.Mac(macKey, cipher);
  }

  lemma StartBlock(k: Kind, ssrc: u32, sn: u16, length: u16)
    ensures Start(k, ssrc, sn, length)[16..24] == Block(k)
  {
    hide Block;
  }

  lemma Conf2AckReadsBack(c: Crypto, l: Local, sn: u16)
    ensures KindOf(Conf2AckMsg(c, l, sn)) == Some(Conf2Ack)
  {
    hide Start, KindOf;
    KindOfStart(Conf2Ack, l.ssrc, sn, 16, c.crc(Start(Conf2Ack, l.ssrc, sn, 16)));
  }
}
