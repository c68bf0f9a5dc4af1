// SRTP session keys and initialisation vectors: which inputs give the same
// vector, and the keys two endpoints derive for each other.
module SrtpKeys {
  import opened Bitwise
  import opened Common
  import opened ZrtpMessages
  import opened ZrtpSession
  import opened ZrtpProtocol
  import opened ZrtpKeys

  const AES_KEY_LENGTH := 16
  const SALT_LENGTH := 14

  // ----- bytes -----

  // An integer as n bytes, low byte first.
  function LowFirst(x: nat, n: nat): (r: seq<u8>)
    ensures |r| == n
  {
    if n == 0 then [] else [x % 0x100] + LowFirst(x / 0x100, n - 1)
  }

  function Power(n: nat): nat {
    if n == 0 then 1 else 0x100 * Power(n - 1)
  }

  lemma {:induction false} LowFirstInjective(x: nat, y: nat, n: nat)
    requires x < Power(n) && y < Power(n) && LowFirst(x, n) == LowFirst(y, n)
    ensures x == y
  {
    if n > 0 {
      assert LowFirst(x, n)[0] == LowFirst(y, n)[0];
      assert LowFirst(x, n)[1..] == LowFirst(x / 0x100, n - 1) && LowFirst(y, n)[1..] == LowFirst(y / 0x100, n - 1);
      LowFirstInjective(x / 0x100, y / 0x100, n - 1);
    }
  }

  // ----- create_iv -----

  // The SSRC in bytes 4 to 7, the index XORed in from byte 6 on, the salt over
  // the first fourteen.
  function IvFor(ssrc: u32, index: nat, salt: seq<u8>): (iv: seq<u8>)
    requires |salt| >= SALT_LENGTH
    ensures |iv| == AES_KEY_LENGTH
  {
    var placed := [0, 0, 0, 0] + Le32(ssrc) + [0, 0, 0, 0, 0, 0, 0, 0];
    var buf := LowFirst(index, 8);
    seq(AES_KEY_LENGTH, k requires 0 <= k < AES_KEY_LENGTH =>
      var indexed := if 6 <= k < 14 then Xor(placed[k], buf[k - 6]) else placed[k];
      if k < SALT_LENGTH then Xor(indexed, salt[k]) else indexed)
  }

  // For one SSRC and salt the vector determines the index.
  lemma IvInjective(ssrc: u32, i: nat, j: nat, salt: seq<u8>)
    requires |salt| >= SALT_LENGTH && i < Power(8) && j < Power(8)
    ensures IvFor(ssrc, i, salt) == IvFor(ssrc, j, salt) <==> i == j
  {
    hide Xor, LowFirst, Power;
    var x, y := LowFirst(i, 8), LowFirst(j, 8);
    if IvFor(ssrc, i, salt) == IvFor(ssrc, j, salt) {
      assert |x| == 8 && |y| == 8 by {
        LowFirstLength(i, 8);
        LowFirstLength(j, 8);
      }
      var placed := [0, 0, 0, 0] + Le32(ssrc) + [0, 0, 0, 0, 0, 0, 0, 0];
      forall b | 0 <= b < 8
        ensures x[b] == y[b]
      {
        assert IvFor(ssrc, i, salt)[b + 6] == IvFor(ssrc, j, salt)[b + 6];
        XorInjective(Xor(placed[b + 6], x[b]), Xor(placed[b + 6], y[b]), salt[b + 6]);
        XorCommutes(placed[b + 6], x[b]);
        XorCommutes(placed[b + 6], y[b]);
        XorInjective(x[b], y[b], placed[b + 6]);
      }
      assert x == y;
      LowFirstInjective(i, j, 8);
    }
  }

  lemma Le32Injective(x: u32, y: u32)
    requires Le32(x) == Le32(y)
    ensures x == y
  {
    HighFirst(x);
    HighFirst(y);
    hide Le32, Be32, Word32;
    Word32RoundTrip(x);
    Word32RoundTrip(y);
  }

  lemma HighFirst(x: u32)
    ensures |Le32(x)| == 4 && Be32(x) == [Le32(x)[3], Le32(x)[2], Le32(x)[1], Le32(x)[0]]
  {
  }

  // For one index the vector determines the SSRC; for one SSRC and index it
  // determines the salt.
  lemma IvSeparates(a: u32, b: u32, index: nat, salt: seq<u8>, other: seq<u8>)
    requires |salt| >= SALT_LENGTH && |other| >= SALT_LENGTH
    ensures IvFor(a, index, salt) == IvFor(b, index, salt) <==> a == b
    ensures IvFor(a, index, salt) == IvFor(a, index, other) <==> salt[..SALT_LENGTH] == other[..SALT_LENGTH]
  {
    hide Xor, LowFirst, Le32;
    LowFirstLength(index, 8);
    var buf := LowFirst(index, 8);
    Le32Length(a);
    Le32Length(b);
    var x, y := Le32(a), Le32(b);
    if IvFor(a, index, salt) == IvFor(b, index, salt) {
      forall k | 0 <= k < 4
        ensures x[k] == y[k]
      {
        assert IvFor(a, index, salt)[k + 4] == IvFor(b, index, salt)[k + 4];
        XorInjective(if k < 2 then x[k] else Xor(x[k], buf[k - 2]), if k < 2 then y[k] else Xor(y[k], buf[k - 2]), salt[k + 4]);
        if k >= 2 {
          XorInjective(x[k], y[k], buf[k - 2]);
        }
      }
      assert x == y;
      Le32Injective(a, b);
    }
    if IvFor(a, index, salt) == IvFor(a, index, other) {
      forall k | 0 <= k < SALT_LENGTH
        ensures salt[k] == other[k]
      {
        SaltAt(a, index, salt, other, k);
      }
    } else if salt[..SALT_LENGTH] == other[..SALT_LENGTH] {
      forall k | 0 <= k < AES_KEY_LENGTH
        ensures IvFor(a, index, salt)[k] == IvFor(a, index, other)[k]
      {
        if k < SALT_LENGTH {
          assert salt[k] == salt[..SALT_LENGTH][k] && other[k] == other[..SALT_LENGTH][k];
        }
      }
    }
  }

  lemma SaltAt(ssrc: u32, index: nat, salt: seq<u8>, other: seq<u8>, k: nat)
    requires |salt| >= SALT_LENGTH && |other| >= SALT_LENGTH && k < SALT_LENGTH
    requires IvFor(ssrc, index, salt)[k] == IvFor(ssrc, index, other)[k]
    ensures salt[k] == other[k]
  {
    hide Xor, LowFirst;
    LowFirstLength(index, 8);
    var placed := [0, 0, 0, 0] + Le32(ssrc) + [0, 0, 0, 0, 0, 0, 0, 0];
    var buf := LowFirst(index, 8);
    var indexed := if 6 <= k then Xor(placed[k], buf[k - 6]) else placed[k];
    XorCommutes(indexed, salt[k]);
    XorCommutes(indexed, other[k]);
    XorInjective(salt[k], other[k], indexed);
  }

  // The bytes of a vector before the salt is put over them.
  lemma IvAt(ssrc: u32, index: nat, salt: seq<u8>, k: nat)
    requires |salt| >= SALT_LENGTH && k < 14
    ensures |LowFirst(index, 8)| == 8 && |Le32(ssrc)| == 4
    ensures var buf, id := LowFirst(index, 8), Le32(ssrc);
            IvFor(ssrc, index, salt)[k]
            == Xor(if k < 4 then 0 else if k < 6 then id[k - 4] else if k < 8 then Xor(id[k - 4], buf[k - 6]) else Xor(0, buf[k - 6]), salt[k])
  {
    hide Xor, LowFirst, Le32;
    LowFirstLength(index, 8);
    Le32Length(ssrc);
  }

  lemma LowTwo(index: nat)
    ensures var b := LowFirst(index, 8);
            && b[0] == index % 0x100 && b[1] == index / 0x100 % 0x100
            && b[2..] == LowFirst(index / 0x100 / 0x100, 6)
  {
  }

  lemma LowPart(i: nat, j: nat)
    ensures i / 0x100 / 0x100 == i / 0x1_0000 && (i < Power(8) ==> i / 0x1_0000 < Power(6))
  {
    assert Power(8) == 0x100 * (0x100 * Power(6));
  }

  // The SSRC and the index overlap in two bytes of the vector, so that streams
  // of different SSRC can meet: exactly when their SSRCs agree in the low half,
  // their indices above the low half, and the exclusive or of the two bytes
  // that overlap is the same.
  lemma IvMeetExactly(a: u32, b: u32, i: nat, j: nat, salt: seq<u8>)
    requires |salt| >= SALT_LENGTH && i < Power(8) && j < Power(8)
    ensures IvFor(a, i, salt) == IvFor(b, j, salt) <==>
            && a % 0x1_0000 == b % 0x1_0000 && i / 0x1_0000 == j / 0x1_0000
            && Xor(a / 0x1_0000 % 0x100, i % 0x100) == Xor(b / 0x1_0000 % 0x100, j % 0x100)
            && Xor(a / 0x100_0000, i / 0x100 % 0x100) == Xor(b / 0x100_0000, j / 0x100 % 0x100)
  {
    hide Xor, LowFirst, Power, IvFor;
    LowTwo(i);
    LowTwo(j);
    LowPart(i, j);
    LowPart(j, i);
    var x, y := LowFirst(i, 8), LowFirst(j, 8);
    Overlaps(a, b, i, j, salt);
    assert Le32(a)[2] == a / 0x1_0000 % 0x100 && Le32(b)[2] == b / 0x1_0000 % 0x100;
    if x[2..] == y[2..] {
      LowFirstInjective(i / 0x1_0000, j / 0x1_0000, 6);
    }
    LowHalf(a, b);
  }

  lemma LowHalf(a: u32, b: u32)
    ensures a % 0x1_0000 == b % 0x1_0000 <==> a % 0x100 == b % 0x100 && a / 0x100 % 0x100 == b / 0x100 % 0x100
  {
    LowHalfOf(a);
    LowHalfOf(b);
  }

  lemma LowHalfOf(a: u32)
    ensures a % 0x1_0000 == a / 0x100 % 0x100 * 0x100 + a % 0x100
  {
    var q, r := a / 0x100, a % 0x100;
    var h, l := q / 0x100, q % 0x100;
    assert a == 0x1_0000 * h + (0x100 * l + r);
  }

  lemma Overlaps(a: u32, b: u32, i: nat, j: nat, salt: seq<u8>)
    requires |salt| >= SALT_LENGTH
    ensures var x, y, p, q := LowFirst(i, 8), LowFirst(j, 8), Le32(a), Le32(b);
            && |x| == |y| == 8 && |p| == |q| == 4
            && (IvFor(a, i, salt) == IvFor(b, j, salt) <==>
                  p[0] == q[0] && p[1] == q[1] && Xor(p[2], x[0]) == Xor(q[2], y[0]) && Xor(p[3], x[1]) == Xor(q[3], y[1])
                  && x[2..] == y[2..])
  {
    hide Xor, LowFirst, Le32, IvFor;
    var u, v := IvFor(a, i, salt), IvFor(b, j, salt);
    forall k: nat | k < 14
      ensures u[k] == v[k] <==> SameByte(a, b, i, j, k)
    {
      ByteMeets(a, b, i, j, salt, k);
    }
    IvTail(a, i, salt);
    IvTail(b, j, salt);
    var x, y := LowFirst(i, 8), LowFirst(j, 8);
    LowFirstLength(i, 8);
    LowFirstLength(j, 8);
    Le32Length(a);
    Le32Length(b);
    if u == v {
      assert forall k: nat :: k < 14 ==> u[k] == v[k];
      assert forall k: nat :: k < 14 ==> SameByte(a, b, i, j, k);
      assert SameByte(a, b, i, j, 4) && SameByte(a, b, i, j, 5) && SameByte(a, b, i, j, 6) && SameByte(a, b, i, j, 7);
      forall k | 2 <= k < 8 ensures x[k] == y[k] {
        assert SameByte(a, b, i, j, k + 6);
      }
      assert x[2..] == y[2..];
    } else if x[2..] == y[2..] {
      forall k | 2 <= k < 8 ensures x[k] == y[k] {
        assert x[k] == x[2..][k - 2] && y[k] == y[2..][k - 2];
      }
    }
  }

  // The bytes at place k agree before the salt.
  predicate SameByte(a: u32, b: u32, i: nat, j: nat, k: nat)
    requires k < 14
  {
    var x, y, p, q := LowFirst(i, 8), LowFirst(j, 8), Le32(a), Le32(b);
    if k < 4 then true
    else if k < 6 then p[k - 4] == q[k - 4]
    else if k < 8 then Xor(p[k - 4], x[k - 6]) == Xor(q[k - 4], y[k - 6])
    else x[k - 6] == y[k - 6]
  }

  lemma IvTail(ssrc: u32, index: nat, salt: seq<u8>)
    requires |salt| >= SALT_LENGTH
    ensures |IvFor(ssrc, index, salt)| == 16 && IvFor(ssrc, index, salt)[14] == 0 && IvFor(ssrc, index, salt)[15] == 0
  {
    hide Xor, LowFirst, Le32;
    Le32Length(ssrc);
  }

  lemma ByteMeets(a: u32, b: u32, i: nat, j: nat, salt: seq<u8>, k: nat)
    requires |salt| >= SALT_LENGTH && k < 14
    ensures IvFor(a, i, salt)[k] == IvFor(b, j, salt)[k] <==> SameByte(a, b, i, j, k)
  {
    hide Xor, LowFirst, Le32, IvFor;
    IvAt(a, i, salt, k);
    IvAt(b, j, salt, k);
    var x, y, p, q := LowFirst(i, 8), LowFirst(j, 8), Le32(a), Le32(b);
    if 4 <= k < 6 {
      XorInjective(p[k - 4], q[k - 4], salt[k]);
    } else if 6 <= k < 8 {
      XorInjective(Xor(p[k - 4], x[k - 6]), Xor(q[k - 4], y[k - 6]), salt[k]);
    } else if k >= 8 {
      XorInjective(Xor(0, x[k - 6]), Xor(0, y[k - 6]), salt[k]);
      XorCommutes(0, x[k - 6]);
      XorCommutes(0, y[k - 6]);
      XorInjective(x[k - 6], y[k - 6], 0);
    }
  }

  // The second packet of one stream and the first of another, both of counter
  // zero, meet in one vector.
  lemma IvShared(salt: seq<u8>)
    requires |salt| >= SALT_LENGTH
    ensures IvFor(0, 1, salt) == IvFor(0x1_0000, 0, salt)
  {
    hide Xor, IvFor;
    XorCommutes(0, 1);
    IvMeetExactly(0, 0x1_0000, 1, 0, salt);
  }

  lemma Le32Length(x: u32)
    ensures |Le32(x)| == 4
  {
  }

  lemma LowFirstLength(x: nat, n: nat)
    ensures |LowFirst(x, n)| == n
  {
  }

  method CreateIv(out: array<u8>, ssrc: u32, index: nat, salt: seq<u8>)
    requires out.Length == AES_KEY_LENGTH && |salt| >= SALT_LENGTH
    modifies out
    ensures out[..] == IvFor(ssrc, index, salt)
  {
    hide Xor, LowFirst;
    for k := 0 to 16
      invariant forall j :: 0 <= j < k ==> out[j] == 0
    {
      out[k] := 0;
    }
    var id := Le32(ssrc);
    for k := 0 to 4
      invariant forall j :: 0 <= j < 16 ==> out[j] == if 4 <= j < 4 + k then id[j - 4] else 0
    {
      out[4 + k] := id[k];
    }
    ghost var placed := out[..];
    assert placed == [0, 0, 0, 0] + Le32(ssrc) + [0, 0, 0, 0, 0, 0, 0, 0];
    LowFirstLength(index, 8);
    var buf := LowFirst(index, 8);
    for i := 0 to 8
      invariant forall j :: 0 <= j < 16 ==> out[j] == if 6 <= j < 6 + i then Xor(placed[j], buf[j - 6]) else placed[j]
    {
      out[6 + i] := Xor(out[6 + i], buf[i]);
    }
    ghost var indexed := out[..];
    for i := 0 to 14
      invariant forall j :: 0 <= j < 16 ==> out[j] == if j < i then Xor(indexed[j], salt[j]) else indexed[j]
    {
      out[i] := Xor(out[i], salt[i]);
    }
  }

  // ----- session keys -----

  type Block = s: seq<u8> | |s| == 16 witness seq(16, i => 0)

  // AES-128 on one block, and in counter mode.
  datatype Aes = Aes(ecb: (seq<u8>, Block) -> Block, ctr: (seq<u8>, Block, seq<u8>) -> seq<u8>) {
    // Each key permutes the blocks, and counter mode undoes itself.
    ghost predicate Lawful() {
      && (forall k, x, y :: ecb(k, x) == ecb(k, y) ==> x == y)
      && (forall k, iv, d :: |ctr(k, iv, d)| == |d| && ctr(k, iv, ctr(k, iv, d)) == d)
    }
  }

  // base_srtp::derive_key
  function DeriveInput(salt: seq<u8>, keyLabel: u8): Block
    requires |salt| == SALT_LENGTH
  {
    (salt + [0, 0])[7 := Xor(salt[7], keyLabel)]
  }

  function Derive(aes: Aes, keyLabel: u8, key: seq<u8>, salt: seq<u8>): Block
    requires |salt| == SALT_LENGTH
  {
    aes.ecb(key, DeriveInput(salt, keyLabel))
  }

  datatype SessionKeys = SessionKeys(enc: Block, auth: Block, salt: Block)

  datatype Master = Master(localKey: seq<u8>, localSalt: seq<u8>, remoteKey: seq<u8>, remoteSalt: seq<u8>)

  function KeysFrom(aes: Aes, rtcp: bool, key: seq<u8>, salt: seq<u8>): SessionKeys
    requires |salt| == SALT_LENGTH
  {
    var first: u8 := if rtcp then 3 else 0;
    SessionKeys(Derive(aes, first, key, salt), Derive(aes, first + 1, key, salt), Derive(aes, first + 2, key, salt))
  }

  // Under one master key, blocks made with different labels differ.
  lemma LabelsSeparate(aes: Aes, key: seq<u8>, salt: seq<u8>, i: u8, j: u8)
    requires aes.Lawful() && |salt| == SALT_LENGTH && i != j
    ensures Derive(aes, i, key, salt) != Derive(aes, j, key, salt)
  {
    hide Xor;
    XorCommutes(salt[7], i);
    XorCommutes(salt[7], j);
    XorInjective(i, j, salt[7]);
    assert DeriveInput(salt, i)[7] == Xor(salt[7], i) && DeriveInput(salt, j)[7] == Xor(salt[7], j);
  }

  // The six session keys of one master key: for RTP the encryption,
  // authentication and salting key are made with labels 0, 1 and 2, for RTCP
  // with 3, 4 and 5, and no two are equal.
  lemma SessionKeysAre(aes: Aes, key: seq<u8>, salt: seq<u8>)
    requires aes.Lawful() && |salt| == SALT_LENGTH
    ensures var rtp, rtcp := KeysFrom(aes, false, key, salt), KeysFrom(aes, true, key, salt);
            var ks := [rtp.enc, rtp.auth, rtp.salt, rtcp.enc, rtcp.auth, rtcp.salt];
            && (forall i: u8 :: 0 <= i < 6 ==> ks[i] == aes.ecb(key, salt[..7] + [Xor(salt[7], i)] + salt[8..] + [0, 0]))
            && (forall i, j :: 0 <= i < j < 6 ==> ks[i] != ks[j])
  {
    hide Xor, KeysFrom;
    var rtp, rtcp := KeysFrom(aes, false, key, salt), KeysFrom(aes, true, key, salt);
    var ks := [rtp.enc, rtp.auth, rtp.salt, rtcp.enc, rtcp.auth, rtcp.salt];
    LabelsInOrder(aes, key, salt);
    forall i: u8 | 0 <= i < 6
      ensures ks[i] == aes.ecb(key, salt[..7] + [Xor(salt[7], i)] + salt[8..] + [0, 0])
    {
      assert DeriveInput(salt, i) == salt[..7] + [Xor(salt[7], i)] + salt[8..] + [0, 0];
    }
    forall i: nat, j: nat | i < j < 6
      ensures ks[i] != ks[j]
    {
      LabelsSeparate(aes, key, salt, i, j);
    }
  }

  lemma LabelsInOrder(aes: Aes, key: seq<u8>, salt: seq<u8>)
    requires |salt| == SALT_LENGTH
    ensures var rtp, rtcp := KeysFrom(aes, false, key, salt), KeysFrom(aes, true, key, salt);
            var ks := [rtp.enc, rtp.auth, rtp.salt, rtcp.enc, rtcp.auth, rtcp.salt];
            forall i: u8 :: 0 <= i < 6 ==> ks[i] == Derive(aes, i, key, salt)
  {
    hide DeriveInput;
  }

  // init_zrtp
  function ZrtpMaster(c: Crypto, l: Local, s: Session): Option<Master> {
    match GetSrtpKeys(c, l, s, 128, 128, 112, 112)
    case None => None
    case Some(k) => Some(Master(k.ourKey, k.ourSalt, k.theirKey, k.theirSalt))
  }

  // The initiator encrypts with the initiator's key and salt, the responder
  // with the responder's.
  lemma MastersAre(c: Crypto, la: Local, lb: Local, events: seq<Event>, atA: bool)
    requires c.Lawful()
    ensures var me, s := Own(la, lb, atA), Mine(After(c, la, lb, events), atA).s;
            var texts := MasterTexts(s.role == Initiator, ZidPair(me, s), s.keys.totalHash, [128, 128, 112, 112]);
            s.phase == Done ==>
              ZrtpMaster(c, me, s) == Some(Master(KeyFor(c, s.keys.s0, texts[0], 128), KeyFor(c, s.keys.s0, texts[2], 112),
                                                  KeyFor(c, s.keys.s0, texts[1], 128), KeyFor(c, s.keys.s0, texts[3], 112)))
  {
    hide After, GetSrtpKeys, KeyFor, MasterTexts, ZidPair;
    var me, s := Own(la, lb, atA), Mine(After(c, la, lb, events), atA).s;
    if s.phase == Done {
      MasterKeys(c, me, s, 128, 128, 112, 112);
    }
  }

  // After a handshake each side encrypts with what the other decrypts with,
  // for RTP and for RTCP.
  lemma DirectionsMeet(aes: Aes, c: Crypto, la: Local, lb: Local, events: seq<Event>, atA: bool, rtcp: bool)
    requires c.Lawful()
    ensures var w := After(c, la, lb, events);
            w.a.s.phase == Done && w.b.s.phase == Done ==>
              var x, y := ZrtpMaster(c, Own(la, lb, atA), Mine(w, atA).s), ZrtpMaster(c, Own(la, lb, !atA), Mine(w, !atA).s);
              && x.Some? && y.Some? && |x.value.localSalt| == SALT_LENGTH && |y.value.remoteSalt| == SALT_LENGTH
              && KeysFrom(aes, rtcp, x.value.localKey, x.value.localSalt)
                 == KeysFrom(aes, rtcp, y.value.remoteKey, y.value.remoteSalt)
  {
    hide After, KeysFrom;
    KeyAgreement(c, la, lb, events);
    SrtpKeysAgree(c, la, lb, events, Mine(After(c, la, lb, events), atA).s.role == Initiator <==> atA,
                  128, 128, 112, 112, 128, 128, 112, 112);
  }
}
