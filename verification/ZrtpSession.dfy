// One endpoint of a ZRTP handshake in Diffie-Hellman mode: the session record
// and what every retry loop does with a received message.
module ZrtpSession {
  import opened Common
  import opened ZrtpMessages

  // The retry loops, in order; a failed handshake keeps the loop it failed in.
  datatype Stage = Greeting | Probing | Committing | SendingDh1 | SendingDh2 | Confirming1 | Confirming2

  datatype Phase = At(stage: Stage) | Done | TimedOut(stage: Stage) | Rejected(stage: Stage)

  datatype Keys = Keys(totalHash: seq<u8>, s0: seq<u8>, keyI: seq<u8>, keyR: seq<u8>, macI: seq<u8>, macR: seq<u8>)

  // zrtp_session_t: stored local and remote messages, hashes, MACs and keys.
  // Messages not stored yet are empty.
  datatype Session = Session(
    phase: Phase, role: Role, sn: u16,
    oHvi: Digest, rHvi: Digest, rHash0: seq<u8>, rMac1: seq<u8>, rMac2: seq<u8>, rMac3: seq<u8>, rZid: seq<u8>,
    lHello: seq<u8>, lCommit: seq<u8>, lDh: seq<u8>, rHello: seq<u8>, rCommit: seq<u8>, rDh: seq<u8>,
    remotePublic: seq<u8>, keys: Keys, confirm: seq<u8>, confAck: seq<u8>)

  // session.seq++
  function Inc(sn: u16): u16 {
    (sn + 1) % 0x1_0000
  }

  // init_dhm up to the first loop.
  function Begin(c: Crypto, l: Local): Session {
    Session(At(Greeting), Initiator, 1, seq(32, i => 0), seq(32, i => 0), [], [], [], [], [],
            HelloMsg(c, l, 0), [], [], [], [], [], [], Keys([], [], [], [], [], []), [], [])
  }

  // ----- commit contention -----

  // are_we_initiator on the first n bytes: the highest differing byte decides,
  // and equal values make both sides initiator.
  function AreWeInitiator(our: seq<u8>, their: seq<u8>, n: nat): bool
    requires n <= |our| && n <= |their|
  {
    if n == 0 then true
    else if our[n - 1] > their[n - 1] then true
    else if our[n - 1] < their[n - 1] then false
    else AreWeInitiator(our, their, n - 1)
  }

  // At least one side takes itself for the initiator; both do only when their
  // values are equal.
  lemma {:induction false} ContentionDecides(a: seq<u8>, b: seq<u8>, n: nat)
    requires n <= |a| && n <= |b|
    ensures AreWeInitiator(a, b, n) || AreWeInitiator(b, a, n)
    ensures AreWeInitiator(a, b, n) && AreWeInitiator(b, a, n) <==> a[..n] == b[..n]
  {
    if n > 0 {
      ContentionDecides(a, b, n - 1);
      assert a[..n] == a[..n - 1] + [a[n - 1]] && b[..n] == b[..n - 1] + [b[n - 1]];
      if a[n - 1] != b[n - 1] {
        assert a[..n][n - 1] != b[..n][n - 1];
      }
    }
  }

  // A byte string as a number, its first byte the lowest.
  function LowFirstValue(s: seq<u8>): nat {
    if s == [] then 0 else s[0] + 0x100 * LowFirstValue(s[1..])
  }

  lemma {:induction false} ValueIsHighest(a: seq<u8>, b: seq<u8>, k: nat)
    requires k < |a| == |b| && a[k] > b[k] && forall j :: k < j < |a| ==> a[j] == b[j]
    ensures LowFirstValue(a) > LowFirstValue(b)
  {
    if k > 0 {
      ValueIsHighest(a[1..], b[1..], k - 1);
    } else {
      assert a[1..] == b[1..];
    }
  }

  lemma {:induction false} HighestDiffers(a: seq<u8>, b: seq<u8>, n: nat) returns (k: nat)
    requires n <= |a| == |b| && AreWeInitiator(a, b, n) && a[..n] != b[..n]
    ensures k < n && a[k] > b[k] && forall j :: k < j < n ==> a[j] == b[j]
  {
    if a[n - 1] == b[n - 1] {
      assert a[..n] == a[..n - 1] + [a[n - 1]] && b[..n] == b[..n - 1] + [b[n - 1]];
      k := HighestDiffers(a, b, n - 1);
    } else {
      k := n - 1;
    }
  }

  // The greater value makes the initiator, read with the low byte first; equal
  // ones make two.
  lemma GreaterInitiates(a: seq<u8>, b: seq<u8>)
    requires |a| == |b|
    ensures AreWeInitiator(a, b, |a|) <==> LowFirstValue(a) >= LowFirstValue(b)
    ensures LowFirstValue(a) == LowFirstValue(b) <==> a == b
  {
    var n := |a|;
    assert a[..n] == a && b[..n] == b;
    ContentionDecides(a, b, n);
    if a != b {
      if AreWeInitiator(a, b, n) {
        var k := HighestDiffers(a, b, n);
        ValueIsHighest(a, b, k);
      } else {
        var k := HighestDiffers(b, a, n);
        ValueIsHighest(b, a, k);
      }
    }
  }

  // ----- secrets and keys -----

  function Ascii(s: string): seq<u8> {
    seq(|s|, i requires 0 <= i < |s| => s[i] as int % 0x100)
  }

  // The key derivation function of section 4.5.2 of RFC 6189, with the
  // initiator's ZID first on both sides.
  function DeriveKey(c: Crypto, s0: seq<u8>, zids: seq<u8>, totalHash: seq<u8>, purpose: string, bits: u32): (key: seq<u8>)
    requires bits <= 256
    ensures |key| == bits / 8
  {
    c.hmac(s0, Le32(1) + Ascii(purpose) + zids + totalHash + [0] + Be32(bits))[..bits / 8]
  }

  function Zids(role: Role, o: seq<u8>, r: seq<u8>): seq<u8> {
    if role == Initiator then o + r else r + o
  }

  // generate_shared_secrets_dh: the total hash is over the responder's Hello,
  // the Commit, DHPart1 and DHPart2, in that order.
  function SharedKeys(c: Crypto, dhResult: seq<u8>, zids: seq<u8>, messages: seq<u8>): Keys {
    var totalHash := c.hash(messages);
    var s0 := c.hash(Be32(1) + dhResult + Ascii("ZRTP-HMAC-KDF") + zids + totalHash + [0, 0, 0, 0, 0, 0, 0, 0, 0, 0, 0, 0]);
    Keys(totalHash, s0,
         DeriveKey(c, s0, zids, totalHash, "Initiator ZRTP key", 128),
         DeriveKey(c, s0, zids, totalHash, "Responder ZRTP key", 128),
         DeriveKey(c, s0, zids, totalHash, "Initiator HMAC key", 256),
         DeriveKey(c, s0, zids, totalHash, "Responder HMAC key", 256))
  }

  function GenerateSharedSecrets(c: Crypto, l: Local, s: Session): Session {
    var messages := if s.role == Initiator then s.rHello + s.lCommit + s.rDh + s.lDh
                    else s.lHello + s.rCommit + s.lDh + s.rDh;
    s.(keys := SharedKeys(c, c.shared(l.secret, s.remotePublic), Zids(s.role, l.zid, s.rZid), messages))
  }

  // ----- validation -----

  // All but the trailing MAC and CRC.
  function Covered(m: seq<u8>): seq<u8> {
    if |m| < 12 then [] else m[..|m| - 12]
  }

  // validate_session: every stored message is checked with the hash that a
  // later message released.
  function Validates(c: Crypto, s: Session): bool {
    var h1 := c.hash(s.rHash0);
    var h2 := c.hash(h1);
    && c.Mac(h2, Copied(s.rHello, 81)) == s.rMac3
    && (s.role == Responder ==> c.Mac(h1, Covered(s.rCommit)) == s.rMac2)
    && c.Mac(s.rHash0, Covered(s.rDh)) == s.rMac1
  }

  // ----- one received message -----

  function StoreHello(s: Session, m: seq<u8>): Session {
    var f := ParseHello(m);
    s.(rMac3 := f.mac, rZid := f.zid, rHello := m)
  }

  function StoreCommit(s: Session, m: seq<u8>): Session {
    var f := ParseCommit(m);
    s.(rHvi := f.hvi, rMac2 := f.mac, rCommit := m)
  }

  function StoreDh(s: Session, m: seq<u8>): Session {
    var f := ParseDh(m);
    s.(remotePublic := f.pk, rMac1 := f.mac, rDh := m)
  }

  // begin_session is over: DHPart2 is made for its hash, then the Commit.
  function EnterProbing(c: Crypto, l: Local, s: Session): Session {
    var dh := DhMsg(c, l, Initiator, s.sn);
    var hvi := c.hash(dh + s.rHello);
    s.(phase := At(Probing), lDh := dh, oHvi := hvi, lCommit := CommitMsg(c, l, hvi, Inc(s.sn)), sn := Inc(Inc(s.sn)))
  }

  // The session as responder, sending DHPart1.
  function EnterDh1(c: Crypto, l: Local, s: Session): Session {
    s.(phase := At(SendingDh1), role := Responder, lDh := DhMsg(c, l, Responder, s.sn), sn := Inc(s.sn))
  }

  // The session as initiator: DHPart2 is made a second time, then the message
  // that ended the Commit loop is read as DHPart1.
  function EnterDh2(c: Crypto, l: Local, s: Session, m: seq<u8>): Session {
    var sending := s.(phase := At(SendingDh2), lDh := DhMsg(c, l, Initiator, s.sn), sn := Inc(s.sn));
    GenerateSharedSecrets(c, l, StoreDh(sending, m))
  }

  function EnterConfirming1(c: Crypto, l: Local, s: Session, m: seq<u8>): Session {
    var shared := GenerateSharedSecrets(c, l, StoreDh(s, m));
    shared.(phase := At(Confirming1),
            confirm := ConfirmMsg(c, l, Responder, shared.keys.keyR, shared.keys.macR, s.sn),
            confAck := Conf2AckMsg(c, l, Inc(s.sn)), sn := Inc(Inc(s.sn)))
  }

  // confirm::parse_msg: H0 of the other side, or None if the MAC is wrong.
  function OpenConfirm(c: Crypto, s: Session, m: seq<u8>): Option<seq<u8>> {
    var f := ParseConfirm(m);
    var key := if f.first then s.keys.keyR else s.keys.keyI;
    var macKey := if f.first then s.keys.macR else s.keys.macI;
    if c.Mac(macKey, f.cipher) != f.mac then None
    else Some(Copied(c.decrypt(key, f.iv, f.cipher), 32))
  }

  // Reading a Confirm message and validating the session: the tail of both
  // finalize functions.
  function Finalize(c: Crypto, s: Session, m: seq<u8>, next: Phase, onBadMac: Phase): Session
    requires s.phase.At?
  {
    match OpenConfirm(c, s, m)
    case None => s.(phase := onBadMac)
    case Some(h0) =>
      var known := s.(rHash0 := h0);
      if Validates(c, known) then known.(phase := next) else known.(phase := Rejected(s.phase.stage))
  }

  function EnterConfirming2(c: Crypto, l: Local, s: Session, m: seq<u8>): Session
    requires s.phase.At?
  {
    var sending := s.(confirm := ConfirmMsg(c, l, Initiator, s.keys.keyI, s.keys.macI, s.sn), sn := Inc(s.sn));
    Finalize(c, sending, m, At(Confirming2), Rejected(s.phase.stage))
  }

  // What the loop that waits in this stage does with a received message.
  function Receive(c: Crypto, l: Local, s: Session, m: seq<u8>): Session
    requires s.phase.At?
  {
    var k := KindOf(m);
    match s.phase.stage
    case Greeting =>
      if k == Some(Hello) && s.rHello == [] then
        if ParseHello(m).version == VERSION then StoreHello(s, m) else StoreHello(s, m).(phase := Rejected(Greeting))
      else if k == Some(HelloAck) && s.rHello != [] then EnterProbing(c, l, s)
      else s
    case Probing =>
      if k == Some(Commit) then EnterDh1(c, l, StoreCommit(s, m)) else s
    case Committing =>
      if k == Some(Commit) then
        var stored := StoreCommit(s, m);
        if !AreWeInitiator(s.oHvi, stored.rHvi, 32) then EnterDh1(c, l, stored) else stored
      else if k == Some(DhPart1) || k == Some(Confirm1) then EnterDh2(c, l, s, m)
      else s
    case SendingDh1 =>
      if k == Some(DhPart2) then EnterConfirming1(c, l, s, m) else s
    case SendingDh2 =>
      if k == Some(Confirm1) then EnterConfirming2(c, l, s, m) else s
    case Confirming1 =>
      if k == Some(Confirm2) then Finalize(c, s, m, Done, s.phase) else s
    case Confirming2 =>
      if k == Some(Conf2Ack) then s.(phase := Done) else s
  }

  // What it sends in reply, at once.
  function Reply(c: Crypto, s: Session, m: seq<u8>, next: Session): set<seq<u8>>
    requires s.phase.At?
  {
    match s.phase.stage
    case Greeting => if KindOf(m) == Some(Hello) then {HelloAckMsg(c)} else {}
    case Confirming1 => if next.phase == Done then {s.confAck} else {}
    case _ => {}
  }

  // What it sends every time round the loop.
  function Current(s: Session): set<seq<u8>>
    requires s.phase.At?
  {
    match s.phase.stage
    case Greeting => {s.lHello}
    case Probing => {}
    case Committing => {s.lCommit}
    case SendingDh1 => {s.lDh}
    case SendingDh2 => {s.lDh}
    case Confirming1 => {s.confirm}
    case Confirming2 => {s.confirm}
  }

  // Nothing is waiting: the endpoint takes itself for the initiator.
  function TakeInitiative(s: Session): Session
    requires s.phase.At?
  {
    if s.phase.stage == Probing then s.(phase := At(Committing), role := Initiator) else s
  }

  // The retries are used up. Probing waits for nothing and cannot time out.
  function Abandon(s: Session): Session
    requires s.phase.At?
  {
    if s.phase.stage == Probing then s else s.(phase := TimedOut(s.phase.stage))
  }

  // ----- the keys handed to SRTP -----

  datatype SrtpKeys = SrtpKeys(ourKey: seq<u8>, theirKey: seq<u8>, ourSalt: seq<u8>, theirSalt: seq<u8>)

  // get_srtp_keys; lengths in bits. The responder's own salt is cut to the
  // length asked for its peer's.
  function GetSrtpKeys(c: Crypto, l: Local, s: Session, oKey: u32, tKey: u32, oSalt: u32, tSalt: u32): Option<SrtpKeys>
    requires oKey <= 256 && tKey <= 256 && oSalt <= 256 && tSalt <= 256
  {
    if oKey == 0 || tKey == 0 || oSalt == 0 || tSalt == 0 || s.phase != Done then None
    else
      var zids := Zids(s.role, l.zid, s.rZid);
      var s0, th := s.keys.s0, s.keys.totalHash;
      if s.role == Initiator then
        Some(SrtpKeys(DeriveKey(c, s0, zids, th, "Initiator SRTP master key", oKey),
                      DeriveKey(c, s0, zids, th, "Responder SRTP master key", tKey),
                      DeriveKey(c, s0, zids, th, "Initiator SRTP master salt", oSalt),
                      DeriveKey(c, s0, zids, th, "Responder SRTP master salt", tSalt)))
      else
        Some(SrtpKeys(DeriveKey(c, s0, zids, th, "Responder SRTP master key", oKey),
                      DeriveKey(c, s0, zids, th, "Initiator SRTP master key", tKey),
                      DeriveKey(c, s0, zids, th, "Responder SRTP master salt", tSalt),
                      DeriveKey(c, s0, zids, th, "Initiator SRTP master salt", tSalt)))
  }
}
