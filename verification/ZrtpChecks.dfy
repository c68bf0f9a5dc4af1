// What an endpoint has checked when it finishes, whatever the network brought
// it: nothing here assumes that messages are honest or even well formed.
module ZrtpChecks {
  import opened Common
  import opened ZrtpMessages
  import opened ZrtpSession
  import opened ZrtpProtocol

  // One action; a message that is taken may be any bytes.
  function Moved(c: Crypto, l: Local, s: Session, action: Action): Session {
    if !s.phase.At? then s
    else
      match action
      case Send => s
      case Take(m) => Receive(c, l, s, m)
      case Proceed => TakeInitiative(s)
      case GiveUp => Abandon(s)
  }

  function Driven(c: Crypto, l: Local, actions: seq<Action>): Session {
    if actions == [] then Begin(c, l) else Moved(c, l, Driven(c, l, actions[..|actions| - 1]), actions[|actions| - 1])
  }

  // The eight bytes at the given place of a message are the MAC of a text
  // under this key.
  predicate Carries(c: Crypto, m: seq<u8>, at: nat, key: seq<u8>, text: seq<u8>) {
    Copied(m, at + 8)[at..] == c.hmac(key, text)[..8]
  }

  // The Hello is authentic under H2, a responder's Commit under H1, the DHPart
  // message under H0 (section 9 of RFC 6189), H1 and H2 being hashed from H0.
  predicate Authentic(c: Crypto, s: Session, h0: seq<u8>) {
    && Carries(c, s.rHello, 93, c.hash(c.hash(h0)), Copied(s.rHello, 81))
    && (s.role == Responder ==> Carries(c, s.rCommit, 120, c.hash(h0), Covered(s.rCommit)))
    && Carries(c, s.rDh, 472, h0, Covered(s.rDh))
  }

  // A Confirm message is opened with the keys of its sender.
  predicate ConfirmAuthentic(c: Crypto, m: seq<u8>, macKey: seq<u8>) {
    Carries(c, m, 24, macKey, Copied(m, 88)[48..])
  }

  // The MACs kept apart are those in the messages stored.
  predicate Stored(s: Session) {
    && ((StageOf(s) == Greeting && s.rHello == []) || s.rMac3 == Copied(s.rHello, 101)[93..])
    && (LeftAs(s, Responder) ==> s.rMac2 == Copied(s.rCommit, 128)[120..])
    && (HasKeys(s) ==> s.rMac1 == Copied(s.rDh, 480)[472..])
    && (StageOf(s) in {SendingDh1, Confirming1} ==> s.role == Responder)
    && (StageOf(s) in {Committing, SendingDh2, Confirming2} ==> s.role == Initiator)
  }

  lemma CopiedPart(m: seq<u8>, n: nat, i: nat, j: nat)
    requires i <= j <= n
    ensures Copied(m, n)[i..j] == Copied(m, j)[i..]
  {
  }

  lemma StoredByReceive(c: Crypto, l: Local, s: Session, m: seq<u8>)
    requires s.phase.At? && Stored(s)
    ensures Stored(Receive(c, l, s, m))
  {
    hide KindOf, Copied, HelloMsg, CommitMsg, DhMsg, ConfirmMsg, Conf2AckMsg, SharedKeys, AreWeInitiator, OpenConfirm, Validates;
    CopiedPart(m, 145, 93, 101);
    CopiedPart(m, 132, 120, 128);
    CopiedPart(m, 484, 472, 480);
  }

  lemma {:induction false} AlwaysStored(c: Crypto, l: Local, actions: seq<Action>)
    ensures Stored(Driven(c, l, actions))
    decreases |actions|
  {
    hide Receive, Copied, HelloMsg;
    if actions != [] {
      var init := actions[..|actions| - 1];
      AlwaysStored(c, l, init);
      var s, action := Driven(c, l, init), actions[|actions| - 1];
      if s.phase.At? && action.Take? {
        StoredByReceive(c, l, s, action.m);
      }
    }
  }

  // Which messages move a session on, in any state: a Hello of another version
  // than 1.10 rejects it; HelloACK counts once a Hello is stored; a Commit ends
  // the Commit loop only if its hash value is greater than the own one; a
  // Confirm1 that comes before DHPart1 is taken for it.
  lemma MovesExactly(c: Crypto, l: Local, s: Session, m: seq<u8>)
    requires s.phase.At?
    ensures Receive(c, l, s, m).phase != s.phase <==>
            match s.phase.stage
            case Greeting =>
              || (KindOf(m) == Some(Hello) && s.rHello == [] && Copied(m, 28)[24..] != [0x31, 0x2e, 0x31, 0x30])
              || (KindOf(m) == Some(HelloAck) && s.rHello != [])
            case Probing => KindOf(m) == Some(Commit)
            case Committing =>
              || (KindOf(m) == Some(Commit) && LowFirstValue(s.oHvi) < LowFirstValue(Copied(m, 120)[88..]))
              || KindOf(m) in {Some(DhPart1), Some(Confirm1)}
            case SendingDh1 => KindOf(m) == Some(DhPart2)
            case SendingDh2 => KindOf(m) == Some(Confirm1)
            case Confirming1 => KindOf(m) == Some(Confirm2) && ConfirmAuthentic(c, m, s.keys.macI)
            case Confirming2 => KindOf(m) == Some(Conf2Ack)
  {
    hide KindOf, Copied, LowFirstValue, AreWeInitiator, HelloMsg, CommitMsg, DhMsg, ConfirmMsg, Conf2AckMsg, SharedKeys,
      OpenConfirm, Validates, ConfirmAuthentic;
    CopiedPart(m, 145, 24, 28);
    CopiedPart(m, 132, 88, 120);
    match s.phase.stage {
      case Committing =>
        GreaterInitiates(s.oHvi, ParseCommit(m).hvi);
      case Confirming1 =>
        if KindOf(m) == Some(Confirm2) {
          OpensExactly(c, s, m);
        }
      case _ =>
    }
  }

  // What validation compares is in the messages.
  lemma ValidatesIs(c: Crypto, s: Session)
    requires Stored(s) && HasKeys(s)
    ensures Validates(c, s) <==> Authentic(c, s, s.rHash0)
  {
    hide Copied, Covered;
    assert |c.hmac(s.rHash0, Covered(s.rDh))| == 32;
  }

  lemma OpensExactly(c: Crypto, s: Session, m: seq<u8>)
    requires KindOf(m) == Some(Confirm1) || KindOf(m) == Some(Confirm2)
    ensures var first := KindOf(m) == Some(Confirm1);
            OpenConfirm(c, s, m).Some? <==> ConfirmAuthentic(c, m, if first then s.keys.macR else s.keys.macI)
    ensures OpenConfirm(c, s, m).Some? ==> |OpenConfirm(c, s, m).value| == 32
  {
    hide Block;
    CopiedPart(m, 92, 24, 32);
    CopiedPart(m, 92, 48, 88);
    assert m[16..24] == Copied(m, 92)[16..24];
    BlocksApart();
  }

  lemma BlocksApart()
    ensures Block(Confirm1) != Block(Confirm2)
  {
    if Block(Confirm1) == Block(Confirm2) {
      BlocksDiffer(Confirm1, Confirm2);
    }
  }

  // What a Confirm message does, exactly. A responder takes Confirm2 only with
  // the right MAC and is then done if all stored messages are authentic under
  // the H0 released, and rejected if one is not; an initiator likewise goes on
  // to Confirm2, and is rejected by a wrong MAC as well.
  lemma ConfirmDecides(c: Crypto, l: Local, actions: seq<Action>, m: seq<u8>)
    ensures var s := Driven(c, l, actions);
            && (s.phase == At(Confirming1) && KindOf(m) == Some(Confirm2) ==>
                  var next := Receive(c, l, s, m);
                  && (next == s <==> !ConfirmAuthentic(c, m, s.keys.macI))
                  && (next.phase == Done <==> ConfirmAuthentic(c, m, s.keys.macI) && Authentic(c, s, next.rHash0))
                  && (next.phase == Rejected(Confirming1) <==> ConfirmAuthentic(c, m, s.keys.macI) && !Authentic(c, s, next.rHash0)))
            && (s.phase == At(SendingDh2) && KindOf(m) == Some(Confirm1) ==>
                  var next := Receive(c, l, s, m);
                  && (next.phase == At(Confirming2) <==> ConfirmAuthentic(c, m, s.keys.macR) && Authentic(c, s, next.rHash0))
                  && (next.phase == Rejected(SendingDh2) <==> !ConfirmAuthentic(c, m, s.keys.macR) || !Authentic(c, s, next.rHash0)))
  {
    hide Driven, KindOf, Validates, OpenConfirm, ConfirmMsg, ConfirmAuthentic, Authentic;
    AlwaysStored(c, l, actions);
    var s := Driven(c, l, actions);
    if (s.phase == At(Confirming1) && KindOf(m) == Some(Confirm2)) || (s.phase == At(SendingDh2) && KindOf(m) == Some(Confirm1)) {
      OpensExactly(c, s, m);
      Decided(c, l, s, m);
    }
  }

  lemma Decided(c: Crypto, l: Local, s: Session, m: seq<u8>)
    requires Stored(s)
    requires (s.phase == At(Confirming1) && KindOf(m) == Some(Confirm2)) || (s.phase == At(SendingDh2) && KindOf(m) == Some(Confirm1))
    ensures var next := Receive(c, l, s, m);
            match OpenConfirm(c, s, m)
            case None => next.phase == (if s.phase == At(Confirming1) then s.phase else Rejected(SendingDh2))
                         && (s.phase == At(Confirming1) ==> next == s)
            case Some(h0) => next.rHash0 == h0
                             && next.phase == if !Authentic(c, s, h0) then Rejected(s.phase.stage)
                                              else if s.phase == At(Confirming1) then Done else At(Confirming2)
  {
    hide KindOf, Validates, Authentic, ConfirmMsg, Copied;
    if OpenConfirm(c, s, m).Some? {
      Judged(c, s.(rHash0 := OpenConfirm(c, s, m).value));
      SameMessages(c, s, s.(rHash0 := OpenConfirm(c, s, m).value));
      if s.phase == At(SendingDh2) {
        var sending := s.(confirm := ConfirmMsg(c, l, Initiator, s.keys.keyI, s.keys.macI, s.sn), sn := Inc(s.sn));
        SameOpening(c, s, sending, m);
        Judged(c, sending.(rHash0 := OpenConfirm(c, s, m).value));
        SameMessages(c, s, sending.(rHash0 := OpenConfirm(c, s, m).value));
      }
    } else if s.phase == At(SendingDh2) {
      SameOpening(c, s, s.(confirm := ConfirmMsg(c, l, Initiator, s.keys.keyI, s.keys.macI, s.sn), sn := Inc(s.sn)), m);
    }
  }

  lemma Judged(c: Crypto, s: Session)
    requires Stored(s) && HasKeys(s)
    ensures Validates(c, s) <==> Authentic(c, s, s.rHash0)
  {
    hide Validates, Authentic, Stored, HasKeys;
    ValidatesIs(c, s);
  }

  lemma SameMessages(c: Crypto, s: Session, t: Session)
    requires s.rHello == t.rHello && s.rCommit == t.rCommit && s.rDh == t.rDh && s.role == t.role
    ensures forall h0 :: Authentic(c, s, h0) == Authentic(c, t, h0)
  {
    hide Carries, Copied, Covered;
  }

  lemma SameOpening(c: Crypto, s: Session, t: Session, m: seq<u8>)
    requires s.keys == t.keys
    ensures OpenConfirm(c, s, m) == OpenConfirm(c, t, m)
  {
  }

  // Against any network: a session that is done, or waits for Conf2ACK, holds
  // authentic messages only.
  lemma {:induction false} FinishedIsChecked(c: Crypto, l: Local, actions: seq<Action>)
    ensures var s := Driven(c, l, actions);
            s.phase == Done || StageOf(s) == Confirming2 ==> Authentic(c, s, s.rHash0)
    decreases |actions|
  {
    hide Receive, KindOf, Authentic, HelloMsg;
    if actions != [] {
      var init := actions[..|actions| - 1];
      FinishedIsChecked(c, l, init);
      var s, action := Driven(c, l, init), actions[|actions| - 1];
      AlwaysStored(c, l, init);
      if s.phase.At? {
        match action
        case Take(m) => TakenChecked(c, l, s, m);
        case _ =>
          if StageOf(s) == Confirming2 {
            SameMessages(c, s, Moved(c, l, s, action));
          }
      }
    }
  }

  lemma TakenChecked(c: Crypto, l: Local, s: Session, m: seq<u8>)
    requires s.phase.At? && Stored(s) && (StageOf(s) == Confirming2 ==> Authentic(c, s, s.rHash0))
    ensures var next := Receive(c, l, s, m);
            next.phase == Done || StageOf(next) == Confirming2 ==> Authentic(c, next, next.rHash0)
  {
    hide KindOf, Authentic, Stored, HelloMsg, CommitMsg, DhMsg, ConfirmMsg, Conf2AckMsg, SharedKeys, AreWeInitiator, OpenConfirm,
      Validates, ParseHello, ParseCommit, ParseDh;
    var next := Receive(c, l, s, m);
    if (s.phase == At(Confirming1) && KindOf(m) == Some(Confirm2)) || (s.phase == At(SendingDh2) && KindOf(m) == Some(Confirm1)) {
      Decided(c, l, s, m);
      SameMessages(c, s, next);
    } else if s.phase == At(Confirming2) {
      SameMessages(c, s, next);
    }
  }
}
