// What the keys of a handshake are made of: equal keys mean an equal
// Diffie-Hellman secret, equal identifiers and an equal transcript, and no two
// keys come from one text.
module ZrtpKeys {
  import opened Common
  import opened ZrtpMessages
  import opened ZrtpSession
  import opened ZrtpProtocol

  // ----- s0 -----

  // Section 4.4.1.4 of RFC 6189: the counter 1, the Diffie-Hellman result, a
  // label, both identifiers, the total hash, and three secrets of no length.
  function SecretText(dh: seq<u8>, zids: seq<u8>, totalHash: seq<u8>): seq<u8> {
    [0, 0, 0, 1] + dh + Ascii("ZRTP-HMAC-KDF") + zids + totalHash + [0, 0, 0, 0, 0, 0, 0, 0, 0, 0, 0, 0]
  }

  lemma SecretTextDetermines(dh: seq<u8>, zids: seq<u8>, th: seq<u8>, dh': seq<u8>, zids': seq<u8>, th': seq<u8>)
    requires |dh| == |dh'| && |zids| == |zids'| && |th| == |th'|
    ensures SecretText(dh, zids, th) == SecretText(dh', zids', th') <==> dh == dh' && zids == zids' && th == th'
  {
    var x, y := SecretText(dh, zids, th), SecretText(dh', zids', th');
    var a := 4 + |dh|;
    assert x[4..a] == dh && y[4..a] == dh';
    assert x[a + 13..a + 13 + |zids|] == zids && y[a + 13..a + 13 + |zids|] == zids';
    assert x[a + 13 + |zids|..a + 13 + |zids| + |th|] == th && y[a + 13 + |zids|..a + 13 + |zids| + |th|] == th';
  }

  lemma SharedSecret(c: Crypto, dh: seq<u8>, zids: seq<u8>, messages: seq<u8>)
    ensures var k := SharedKeys(c, dh, zids, messages);
            k.totalHash == c.hash(messages) && k.s0 == c.hash(SecretText(dh, zids, k.totalHash))
  {
    hide DeriveKey, Ascii;
    assert Be32(1) == [0, 0, 0, 1];
  }

  // What an endpoint computes from its peer's public key.
  function DhResult(c: Crypto, me: Local, peer: Local): PublicKey {
    c.shared(me.secret, c.publicKey(peer.secret))
  }

  // The initiator's identifier, then the responder's.
  function ZidPair(me: Local, s: Session): seq<u8> {
    if s.role == Initiator then me.zid + s.rZid else s.rZid + me.zid
  }

  // The responder's Hello, the Commit, DHPart1 and DHPart2, as stored.
  function Transcript(s: Session): seq<seq<u8>> {
    if s.role == Initiator then [s.rHello, s.lCommit, s.rDh, s.lDh] else [s.lHello, s.rCommit, s.lDh, s.rDh]
  }

  lemma ConcatCons(x: seq<u8>, rest: seq<seq<u8>>)
    ensures Concat([x] + rest) == x + Concat(rest)
  {
    assert ([x] + rest)[1..] == rest;
  }

  lemma Four(a: seq<u8>, b: seq<u8>, c: seq<u8>, d: seq<u8>)
    ensures Concat([a, b, c, d]) == a + b + c + d
  {
    assert Concat([]) == [];
    hide Concat;
    ConcatCons(d, []);
    ConcatCons(c, [d]);
    ConcatCons(b, [c, d]);
    ConcatCons(a, [b, c, d]);
    assert [d] + [] == [d] && [c] + [d] == [c, d] && [b] + [c, d] == [b, c, d] && [a] + [b, c, d] == [a, b, c, d];
    assert a + (b + (c + (d + []))) == a + b + c + d;
  }

  lemma TranscriptDetermines(x: seq<seq<u8>>, y: seq<seq<u8>>)
    requires |x| == |y| && forall i :: 0 <= i < |x| ==> |x[i]| == |y[i]|
    ensures Concat(x) == Concat(y) <==> x == y
  {
    if x != [] {
      TranscriptDetermines(x[1..], y[1..]);
      if Concat(x) == Concat(y) {
        assert x[0] == Concat(x)[..|x[0]|] && y[0] == Concat(y)[..|x[0]|];
        assert Concat(x[1..]) == Concat(x)[|x[0]|..] && Concat(y[1..]) == Concat(y)[|x[0]|..];
        assert x == [x[0]] + x[1..] && y == [y[0]] + y[1..];
      }
    }
  }

  // Whoever holds keys holds these, in every run.
  lemma KeysMadeOf(c: Crypto, la: Local, lb: Local, events: seq<Event>, atA: bool)
    requires c.Lawful()
    ensures var me, s := Own(la, lb, atA), Mine(After(c, la, lb, events), atA).s;
            HasKeys(s) ==>
              && |Transcript(s)[0]| == 105 && |Transcript(s)[1]| == 132 && |Transcript(s)[2]| == 484 && |Transcript(s)[3]| == 484
              && |ZidPair(me, s)| == 24
              && s.keys.totalHash == c.hash(Concat(Transcript(s)))
              && s.keys.s0 == c.hash(SecretText(DhResult(c, me, Own(la, lb, !atA)), ZidPair(me, s), s.keys.totalHash))
  {
    hide After, SessionOk, HasKeys, LeftAs, StageOf, Paired, SentOk;
    RunKeeps(c, la, lb, events);
    var me, peer, s := Own(la, lb, atA), Own(la, lb, !atA), Mine(After(c, la, lb, events), atA).s;
    if HasKeys(s) {
      KeysAre(c, me, peer, s);
      OwnMessages(c, me, peer, s);
      HeldBy(c, me, peer, s);
    }
  }

  lemma HeldBy(c: Crypto, me: Local, peer: Local, s: Session)
    requires c.Lawful()
    requires s.keys == (if s.role == Initiator then KeysOf(c, me, peer) else KeysOf(c, peer, me))
    requires s.rZid == peer.zid && s.lHello == HelloOf(c, me) && s.rHello == HelloOf(c, peer)
    requires s.lDh == DhOf(c, me, s.role) && s.rDh == DhOf(c, peer, if s.role == Initiator then Responder else Initiator)
    requires s.lCommit == CommitOf(c, me, peer) && (s.role == Responder ==> s.rCommit == CommitOf(c, peer, me))
    ensures |Transcript(s)[0]| == 105 && |Transcript(s)[1]| == 132 && |Transcript(s)[2]| == 484 && |Transcript(s)[3]| == 484
    ensures |ZidPair(me, s)| == 24
    ensures s.keys.totalHash == c.hash(Concat(Transcript(s)))
    ensures s.keys.s0 == c.hash(SecretText(DhResult(c, me, peer), ZidPair(me, s), s.keys.totalHash))
  {
    hide HelloMsg, CommitMsg, DhMsg, SharedKeys, HviOf, SecretText, Concat;
    var t := Transcript(s);
    Four(t[0], t[1], t[2], t[3]);
    SharedSecret(c, DhResult(c, me, peer), ZidPair(me, s), Concat(t));
  }

  // Two holders of keys, of one handshake or of different ones: with equal s0
  // they share the Diffie-Hellman secret, the identifiers in their roles and
  // the total hash, or the texts hashed for s0 collide; with equal total hash
  // they share every message hashed, or the transcripts collide.
  lemma KeysDetermine(c: Crypto, la: Local, lb: Local, events: seq<Event>, atA: bool,
                      la': Local, lb': Local, events': seq<Event>, atA': bool)
    requires c.Lawful()
    ensures var me, peer, s := Own(la, lb, atA), Own(la, lb, !atA), Mine(After(c, la, lb, events), atA).s;
            var me', peer', s' := Own(la', lb', atA'), Own(la', lb', !atA'), Mine(After(c, la', lb', events'), atA').s;
            HasKeys(s) && HasKeys(s') ==>
              && (s.keys.s0 == s'.keys.s0 ==>
                    || Collide(c, SecretText(DhResult(c, me, peer), ZidPair(me, s), s.keys.totalHash),
                               SecretText(DhResult(c, me', peer'), ZidPair(me', s'), s'.keys.totalHash))
                    || (DhResult(c, me, peer) == DhResult(c, me', peer') && ZidPair(me, s) == ZidPair(me', s')
                        && s.keys.totalHash == s'.keys.totalHash))
              && (s.keys.totalHash == s'.keys.totalHash ==>
                    Collide(c, Concat(Transcript(s)), Concat(Transcript(s'))) || Transcript(s) == Transcript(s'))
  {
    hide After, HasKeys, SecretText, Concat, ZidPair;
    KeysMadeOf(c, la, lb, events, atA);
    KeysMadeOf(c, la', lb', events', atA');
    var me, peer, s := Own(la, lb, atA), Own(la, lb, !atA), Mine(After(c, la, lb, events), atA).s;
    var me', peer', s' := Own(la', lb', atA'), Own(la', lb', !atA'), Mine(After(c, la', lb', events'), atA').s;
    if HasKeys(s) && HasKeys(s') {
      SecretTextDetermines(DhResult(c, me, peer), ZidPair(me, s), s.keys.totalHash,
                           DhResult(c, me', peer'), ZidPair(me', s'), s'.keys.totalHash);
      TranscriptDetermines(Transcript(s), Transcript(s'));
    }
  }

  // ----- derived keys -----

  // Section 4.5.1 of RFC 6189: a counter, the purpose, the context and the
  // length; the code puts the zero byte behind the context.
  function KdfText(purpose: string, zids: seq<u8>, totalHash: seq<u8>, bits: u32): seq<u8> {
    [1, 0, 0, 0] + Ascii(purpose) + zids + totalHash + [0] + Be32(bits)
  }

  const PURPOSES: seq<string> := [
    "Initiator ZRTP key", "Responder ZRTP key", "Initiator HMAC key", "Responder HMAC key",
    "Initiator SRTP master key", "Responder SRTP master key", "Initiator SRTP master salt", "Responder SRTP master salt"]

  lemma PurposesDiffer(i: nat, j: nat)
    requires i < j < 8
    ensures Ascii(PURPOSES[i]) != Ascii(PURPOSES[j])
  {
    var a, b := PURPOSES[i], PURPOSES[j];
    if |a| == |b| {
      if i % 2 != j % 2 {
        assert Ascii(a)[0] == a[0] as int && Ascii(b)[0] == b[0] as int;
      } else {
        assert i < 2 && j in {2, 3};
        assert Ascii(a)[10] == a[10] as int && Ascii(b)[10] == b[10] as int;
      }
    }
  }

  // The text of a key determines what it is for, the identifiers, the total
  // hash and the length.
  lemma TextDetermines(p: string, zids: seq<u8>, th: seq<u8>, m: u32, q: string, zids': seq<u8>, th': seq<u8>, n: u32)
    requires |zids| == |zids'| && |th| == |th'|
    ensures KdfText(p, zids, th, m) == KdfText(q, zids', th', n)
            <==> Ascii(p) == Ascii(q) && zids == zids' && th == th' && m == n
  {
    hide Ascii, Be32, Word32;
    var x, y := KdfText(p, zids, th, m), KdfText(q, zids', th', n);
    var a, b := Ascii(p), Ascii(q);
    Four32(m);
    Four32(n);
    Word32RoundTrip(m);
    Word32RoundTrip(n);
    if x == y {
      var at := 4 + |a|;
      assert |a| == |b| && x[4..at] == a && y[4..at] == b;
      assert x[at..at + |zids|] == zids && y[at..at + |zids|] == zids';
      at := at + |zids|;
      assert x[at..at + |th|] == th && y[at..at + |th|] == th';
      assert x[at + |th| + 1..] == Be32(m) && y[at + |th| + 1..] == Be32(n);
    }
  }

  lemma Four32(x: u32)
    ensures |Be32(x)| == 4
  {
  }

  // The texts of the four keys of the Confirm messages.
  function ConfirmTexts(zids: seq<u8>, th: seq<u8>): (texts: seq<seq<u8>>)
    ensures |texts| == 4
  {
    [KdfText("Initiator ZRTP key", zids, th, 128), KdfText("Responder ZRTP key", zids, th, 128),
     KdfText("Initiator HMAC key", zids, th, 256), KdfText("Responder HMAC key", zids, th, 256)]
  }

  // Those of the own and the other key and salt handed to SRTP.
  function MasterTexts(initiator: bool, zids: seq<u8>, th: seq<u8>, bits: seq<u32>): (texts: seq<seq<u8>>)
    requires |bits| == 4
    ensures |texts| == 4
  {
    if initiator then
      [KdfText("Initiator SRTP master key", zids, th, bits[0]), KdfText("Responder SRTP master key", zids, th, bits[1]),
       KdfText("Initiator SRTP master salt", zids, th, bits[2]), KdfText("Responder SRTP master salt", zids, th, bits[3])]
    else
      [KdfText("Responder SRTP master key", zids, th, bits[0]), KdfText("Initiator SRTP master key", zids, th, bits[1]),
       KdfText("Responder SRTP master salt", zids, th, bits[2]), KdfText("Initiator SRTP master salt", zids, th, bits[3])]
  }

  lemma AllTextsDiffer(initiator: bool, zids: seq<u8>, th: seq<u8>, bits: seq<u32>, i: nat, j: nat)
    requires |bits| == 4 && i < j < 8
    ensures var texts := ConfirmTexts(zids, th) + MasterTexts(initiator, zids, th, bits); texts[i] != texts[j]
  {
    hide KdfText, Ascii;
    var at := if initiator then [0, 1, 2, 3, 4, 5, 6, 7] else [0, 1, 2, 3, 5, 4, 7, 6];
    var sizes := [128, 128, 256, 256] + bits;
    var texts := ConfirmTexts(zids, th) + MasterTexts(initiator, zids, th, bits);
    assert forall k :: 0 <= k < 8 ==> texts[k] == KdfText(PURPOSES[at[k]], zids, th, sizes[k]);
    assert at[i] != at[j];
    if at[i] < at[j] {
      PurposesDiffer(at[i], at[j]);
    } else {
      PurposesDiffer(at[j], at[i]);
    }
    TextDetermines(PURPOSES[at[i]], zids, th, sizes[i], PURPOSES[at[j]], zids, th, sizes[j]);
  }

  // A derived key: s0 applied to a text.
  function KeyFor(c: Crypto, s0: seq<u8>, text: seq<u8>, bits: u32): seq<u8>
    requires bits <= 256
  {
    c.hmac(s0, text)[..bits / 8]
  }

  // The keys of the Confirm messages and those handed to SRTP, held at the end
  // of any run: s0 applied to eight different texts.
  lemma KeysSeparate(c: Crypto, la: Local, lb: Local, events: seq<Event>, atA: bool, oKey: u32, tKey: u32, oSalt: u32, tSalt: u32)
    requires c.Lawful() && 0 < oKey <= 256 && 0 < tKey <= 256 && 0 < oSalt <= 256 && 0 < tSalt <= 256
    ensures var me, s := Own(la, lb, atA), Mine(After(c, la, lb, events), atA).s;
            var s0, ownSalt := s.keys.s0, if s.role == Initiator then oSalt else tSalt;
            var texts := ConfirmTexts(ZidPair(me, s), s.keys.totalHash)
                         + MasterTexts(s.role == Initiator, ZidPair(me, s), s.keys.totalHash, [oKey, tKey, ownSalt, tSalt]);
            && (forall i, j :: 0 <= i < j < 8 ==> texts[i] != texts[j])
            && (HasKeys(s) ==>
                  && s.keys.keyI == KeyFor(c, s0, texts[0], 128) && s.keys.keyR == KeyFor(c, s0, texts[1], 128)
                  && s.keys.macI == KeyFor(c, s0, texts[2], 256) && s.keys.macR == KeyFor(c, s0, texts[3], 256))
            && (s.phase == Done ==>
                  GetSrtpKeys(c, me, s, oKey, tKey, oSalt, tSalt)
                  == Some(SrtpKeys(KeyFor(c, s0, texts[4], oKey), KeyFor(c, s0, texts[5], tKey),
                                   KeyFor(c, s0, texts[6], ownSalt), KeyFor(c, s0, texts[7], tSalt))))
  {
    hide After, HasKeys, SessionOk, KdfText, ZidPair, KeysOf, HelloOf, CommitOf, DhOf, GetSrtpKeys, ConfirmTexts, MasterTexts, KeyFor;
    var me, peer, s := Own(la, lb, atA), Own(la, lb, !atA), Mine(After(c, la, lb, events), atA).s;
    var zids, th, initiator := ZidPair(me, s), s.keys.totalHash, s.role == Initiator;
    var bits: seq<u32> := [oKey, tKey, if initiator then oSalt else tSalt, tSalt];
    forall i, j | 0 <= i < j < 8
      ensures (ConfirmTexts(zids, th) + MasterTexts(initiator, zids, th, bits))[i]
           != (ConfirmTexts(zids, th) + MasterTexts(initiator, zids, th, bits))[j]
    {
      AllTextsDiffer(initiator, zids, th, bits, i, j);
    }
    RunKeeps(c, la, lb, events);
    if HasKeys(s) {
      KeysAre(c, me, peer, s);
      ConfirmKeys(c, me, peer, s);
    }
    if s.phase == Done {
      MasterKeys(c, me, s, oKey, tKey, oSalt, tSalt);
    }
  }

  lemma ConfirmKeys(c: Crypto, me: Local, peer: Local, s: Session)
    requires s.keys == (if s.role == Initiator then KeysOf(c, me, peer) else KeysOf(c, peer, me)) && s.rZid == peer.zid
    ensures var texts, s0 := ConfirmTexts(ZidPair(me, s), s.keys.totalHash), s.keys.s0;
            && s.keys.keyI == KeyFor(c, s0, texts[0], 128) && s.keys.keyR == KeyFor(c, s0, texts[1], 128)
            && s.keys.macI == KeyFor(c, s0, texts[2], 256) && s.keys.macR == KeyFor(c, s0, texts[3], 256)
  {
    hide HelloOf, CommitOf, DhOf, Ascii;
    assert Le32(1) == [1, 0, 0, 0];
  }

  lemma MasterKeys(c: Crypto, me: Local, s: Session, oKey: u32, tKey: u32, oSalt: u32, tSalt: u32)
    requires s.phase == Done && 0 < oKey <= 256 && 0 < tKey <= 256 && 0 < oSalt <= 256 && 0 < tSalt <= 256
    ensures var s0, ownSalt := s.keys.s0, if s.role == Initiator then oSalt else tSalt;
            var texts := MasterTexts(s.role == Initiator, ZidPair(me, s), s.keys.totalHash, [oKey, tKey, ownSalt, tSalt]);
            GetSrtpKeys(c, me, s, oKey, tKey, oSalt, tSalt)
            == Some(SrtpKeys(KeyFor(c, s0, texts[0], oKey), KeyFor(c, s0, texts[1], tKey),
                             KeyFor(c, s0, texts[2], ownSalt), KeyFor(c, s0, texts[3], tSalt)))
  {
    hide Ascii, Be32;
    assert Le32(1) == [1, 0, 0, 0];
  }

  // A Confirm message on the network is its sender's H0 encrypted under the key
  // of its role, with the MAC of that under the MAC key of its role.
  lemma ConfirmsSent(c: Crypto, la: Local, lb: Local, events: seq<Event>, atA: bool, m: seq<u8>)
    requires c.Lawful() && KindOf(m) in {Some(Confirm1), Some(Confirm2)}
    ensures var me, mine := Own(la, lb, atA), Mine(After(c, la, lb, events), atA);
            var k, first := mine.s.keys, KindOf(m) == Some(Confirm1);
            m in mine.sent ==>
              && mine.s.role == (if first then Responder else Initiator)
              && |m| == 92 && m[32..48] == me.iv
              && m[48..88] == c.encrypt(if first then k.keyR else k.keyI, me.iv, me.h0 + [0, 0, 0, 0, 0, 0, 0, 0])
              && m[24..32] == c.hmac(if first then k.macR else k.macI, m[48..88])[..8]
  {
    hide After, KindOf, SessionOk, SentOk, Paired;
    RunKeeps(c, la, lb, events);
    var me, peer, mine := Own(la, lb, atA), Own(la, lb, !atA), Mine(After(c, la, lb, events), atA);
    if m in mine.sent {
      ConfirmIs(c, me, peer, mine.s, m);
    }
  }

  lemma ConfirmIs(c: Crypto, me: Local, peer: Local, s: Session, m: seq<u8>)
    requires c.Lawful() && SessionOk(c, me, peer, s) && SentOk(c, me, peer, s, m) && KindOf(m) in {Some(Confirm1), Some(Confirm2)}
    ensures var k, first := s.keys, KindOf(m) == Some(Confirm1);
            && s.role == (if first then Responder else Initiator)
            && |m| == 92 && m[32..48] == me.iv
            && m[48..88] == c.encrypt(if first then k.keyR else k.keyI, me.iv, me.h0 + [0, 0, 0, 0, 0, 0, 0, 0])
            && m[24..32] == c.hmac(if first then k.macR else k.macI, m[48..88])[..8]
  {
    hide KindOf, KeysOf, HelloOf, CommitOf, DhOf, HviOf, ConfirmMsg, Conf2AckMsg;
    if KindOf(m) == Some(Confirm1) {
      ConfirmLayout(c, me, Responder, s.keys.keyR, s.keys.macR, 4);
    } else {
      ConfirmLayout(c, me, Initiator, s.keys.keyI, s.keys.macI, 4);
    }
  }

  // Keys are handed out exactly by a session that is done, for lengths that are
  // not zero.
  lemma KeysOnlyWhenDone(c: Crypto, l: Local, s: Session, oKey: u32, tKey: u32, oSalt: u32, tSalt: u32)
    requires oKey <= 256 && tKey <= 256 && oSalt <= 256 && tSalt <= 256
    ensures GetSrtpKeys(c, l, s, oKey, tKey, oSalt, tSalt).Some?
            <==> s.phase == Done && oKey > 0 && tKey > 0 && oSalt > 0 && tSalt > 0
  {
    hide DeriveKey;
  }
}
