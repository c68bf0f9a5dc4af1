// Two endpoints over a network that may lose, duplicate, delay and reorder
// messages but neither alters nor invents them: who becomes initiator, which
// keys come out, and who finishes first.
module ZrtpProtocol {
  import opened Common
  import opened ZrtpMessages
  import opened ZrtpSession

  // ----- runs -----

  // A session and everything it has ever sent.
  datatype Side = Side(s: Session, sent: set<seq<u8>>)

  datatype World = World(a: Side, b: Side)

  datatype Action = Send | Take(m: seq<u8>) | Proceed | GiveUp

  // atA tells which side acts.
  datatype Event = Event(atA: bool, action: Action)

  // A side acts on its own state and on what the other side has sent. Events
  // that cannot happen change nothing, so every list of events is a run.
  function Act(c: Crypto, l: Local, mine: Side, theirs: Side, action: Action): Side {
    if !mine.s.phase.At? then mine
    else
      match action
      case Send => Side(mine.s, mine.sent + Current(mine.s))
      case Take(m) =>
        if m !in theirs.sent then mine
        else
          var next := Receive(c, l, mine.s, m);
          Side(next, mine.sent + Reply(c, mine.s, m, next))
      case Proceed => Side(TakeInitiative(mine.s), mine.sent)
      case GiveUp => Side(Abandon(mine.s), mine.sent)
  }

  function Happens(c: Crypto, la: Local, lb: Local, w: World, e: Event): World {
    if e.atA then w.(a := Act(c, la, w.a, w.b, e.action)) else w.(b := Act(c, lb, w.b, w.a, e.action))
  }

  function After(c: Crypto, la: Local, lb: Local, events: seq<Event>): World {
    if events == [] then World(Side(Begin(c, la), {}), Side(Begin(c, lb), {}))
    else Happens(c, la, lb, After(c, la, lb, events[..|events| - 1]), events[|events| - 1])
  }

  function Mine(w: World, atA: bool): Side {
    if atA then w.a else w.b
  }

  function Own(la: Local, lb: Local, atA: bool): Local {
    if atA then la else lb
  }

  lemma AfterOne(c: Crypto, la: Local, lb: Local, events: seq<Event>, e: Event)
    ensures var w, next := After(c, la, lb, events), After(c, la, lb, events + [e]);
            && Mine(next, e.atA) == Act(c, if e.atA then la else lb, Mine(w, e.atA), Mine(w, !e.atA), e.action)
            && Mine(next, !e.atA) == Mine(w, !e.atA)
  {
    hide Act;
    assert (events + [e])[..|events|] == events;
  }

  // ----- the messages and keys of a pair of endpoints -----

  function HelloOf(c: Crypto, l: Local): seq<u8> {
    HelloMsg(c, l, 0)
  }

  // The hash commits to a DHPart2 that is never sent: the one sent later
  // carries another sequence number.
  function HviOf(c: Crypto, me: Local, peer: Local): Digest {
    c.hash(DhMsg(c, me, Initiator, 1) + HelloOf(c, peer))
  }

  function CommitOf(c: Crypto, me: Local, peer: Local): seq<u8> {
    CommitMsg(c, me, HviOf(c, me, peer), 2)
  }

  function DhOf(c: Crypto, l: Local, role: Role): seq<u8> {
    DhMsg(c, l, role, 3)
  }

  function KeysOf(c: Crypto, i: Local, r: Local): Keys {
    SharedKeys(c, c.shared(i.secret, c.publicKey(r.secret)), i.zid + r.zid,
               HelloOf(c, r) + CommitOf(c, i, r) + DhOf(c, r, Responder) + DhOf(c, i, Initiator))
  }

  function Confirm1Of(c: Crypto, i: Local, r: Local): seq<u8> {
    ConfirmMsg(c, r, Responder, KeysOf(c, i, r).keyR, KeysOf(c, i, r).macR, 4)
  }

  function Confirm2Of(c: Crypto, i: Local, r: Local): seq<u8> {
    ConfirmMsg(c, i, Initiator, KeysOf(c, i, r).keyI, KeysOf(c, i, r).macI, 4)
  }

  // ----- the invariant -----

  // How far a session got, finished or not.
  function StageOf(s: Session): Stage {
    match s.phase
    case At(stage) => stage
    case TimedOut(stage) => stage
    case Rejected(stage) => stage
    case Done => if s.role == Responder then Confirming1 else Confirming2
  }

  // init_session was left in this role.
  predicate LeftAs(s: Session, role: Role) {
    if role == Responder then StageOf(s) in {SendingDh1, Confirming1} else StageOf(s) in {SendingDh2, Confirming2}
  }

  predicate HasHello(c: Crypto, peer: Local, s: Session) {
    && s.rHello == HelloOf(c, peer)
    && s.rZid == peer.zid
    && s.rMac3 == c.Mac(Chain(c, peer.h0, 2), s.rHello[..81])
  }

  predicate HasCommit(c: Crypto, me: Local, peer: Local, s: Session) {
    && s.rCommit == CommitOf(c, peer, me)
    && s.rHvi == HviOf(c, peer, me)
    && s.rMac2 == c.Mac(Chain(c, peer.h0, 1), s.rCommit[..120])
  }

  predicate HasDh(c: Crypto, peer: Local, s: Session, role: Role) {
    s.rDh == DhOf(c, peer, role) && s.rMac1 == c.Mac(peer.h0, s.rDh[..472])
  }

  predicate Prepared(c: Crypto, me: Local, peer: Local, s: Session) {
    HasHello(c, peer, s) && s.oHvi == HviOf(c, me, peer) && s.lCommit == CommitOf(c, me, peer)
  }

  // Everything stored is what the peer really sent, stage by stage.
  predicate SessionOk(c: Crypto, me: Local, peer: Local, s: Session) {
    && s.lHello == HelloOf(c, me)
    && (s.rHello != [] ==> HasHello(c, peer, s))
    && (s.rCommit != [] ==> HasCommit(c, me, peer, s))
    && !s.phase.Rejected?
    && (s.phase == Done || StageOf(s) == Confirming2 ==> s.rHash0 == peer.h0)
    && match StageOf(s)
       case Greeting => s.sn == 1 && s.rCommit == []
       case Probing => s.sn == 3 && Prepared(c, me, peer, s)
       case Committing => s.sn == 3 && Prepared(c, me, peer, s) && s.role == Initiator
       case SendingDh1 =>
         && s.sn == 4 && Prepared(c, me, peer, s) && s.role == Responder && HasCommit(c, me, peer, s) && s.rCommit != []
         && s.lDh == DhOf(c, me, Responder)
       case SendingDh2 =>
         && s.sn == 4 && Prepared(c, me, peer, s) && s.role == Initiator
         && s.lDh == DhOf(c, me, Initiator) && HasDh(c, peer, s, Responder) && s.keys == KeysOf(c, me, peer)
       case Confirming1 =>
         && Prepared(c, me, peer, s) && s.role == Responder && HasCommit(c, me, peer, s) && s.rCommit != []
         && s.lDh == DhOf(c, me, Responder) && HasDh(c, peer, s, Initiator) && s.keys == KeysOf(c, peer, me)
         && s.confirm == Confirm1Of(c, peer, me) && s.confAck == Conf2AckMsg(c, me, 5)
       case Confirming2 =>
         && Prepared(c, me, peer, s) && s.role == Initiator
         && s.lDh == DhOf(c, me, Initiator) && HasDh(c, peer, s, Responder) && s.keys == KeysOf(c, me, peer)
         && s.confirm == Confirm2Of(c, me, peer)
  }

  // A Commit may be out: it was sent only by a side that took itself for the
  // initiator, and gave that up only for a greater hvi.
  predicate CommitOut(c: Crypto, me: Local, peer: Local, s: Session) {
    || StageOf(s) in {Committing, SendingDh2, Confirming2}
    || (LeftAs(s, Responder) && !AreWeInitiator(HviOf(c, me, peer), HviOf(c, peer, me), 32))
  }

  // What a message of each kind on the network says about its sender.
  predicate SentOk(c: Crypto, me: Local, peer: Local, s: Session, m: seq<u8>) {
    match KindOf(m)
    case None => false
    case Some(k) =>
      match k
      case Hello => m == HelloOf(c, me)
      case HelloAck => true
      case Commit => m == CommitOf(c, me, peer) && CommitOut(c, me, peer, s)
      case DhPart1 => m == DhOf(c, me, Responder) && LeftAs(s, Responder)
      case DhPart2 => m == DhOf(c, me, Initiator) && LeftAs(s, Initiator)
      case Confirm1 => m == Confirm1Of(c, peer, me) && StageOf(s) == Confirming1
      case Confirm2 => m == Confirm2Of(c, me, peer) && StageOf(s) == Confirming2
      case Conf2Ack => s.phase == Done && s.role == Responder
  }

  // What the stage of s says about t.
  predicate Paired(c: Crypto, me: Local, peer: Local, s: Session, t: Session) {
    && (s.rCommit != [] ==> CommitOut(c, peer, me, t))
    && (LeftAs(s, Initiator) ==> LeftAs(t, Responder))
    && (StageOf(s) == Confirming1 ==> LeftAs(t, Initiator))
    && (StageOf(s) == Confirming2 ==> StageOf(t) == Confirming1)
    && (s.phase == Done && s.role == Initiator ==> t.phase == Done && t.role == Responder)
  }

  ghost predicate Good(c: Crypto, me: Local, peer: Local, mine: Side, theirs: Side) {
    && SessionOk(c, me, peer, mine.s)
    && Paired(c, me, peer, mine.s, theirs.s)
    && forall m <- mine.sent :: SentOk(c, me, peer, mine.s, m)
  }

  // Nothing a message vouches for is taken back.
  predicate Advances(c: Crypto, me: Local, peer: Local, s: Session, t: Session) {
    && (CommitOut(c, me, peer, s) ==> CommitOut(c, me, peer, t))
    && (LeftAs(s, Responder) ==> LeftAs(t, Responder))
    && (LeftAs(s, Initiator) ==> LeftAs(t, Initiator))
    && (StageOf(s) == Confirming1 ==> StageOf(t) == Confirming1)
    && (StageOf(s) == Confirming2 ==> StageOf(t) == Confirming2)
    && (s.phase == Done ==> t.phase == Done && t.role == s.role)
  }

  // The two sides never leave init_session as responders both.
  lemma OneResponder(c: Crypto, me: Local, peer: Local, s: Session, t: Session)
    requires SessionOk(c, me, peer, s) && SessionOk(c, peer, me, t)
    requires Paired(c, me, peer, s, t) && Paired(c, peer, me, t, s)
    ensures !(LeftAs(s, Responder) && LeftAs(t, Responder))
  {
    hide HviOf, CommitOf, HelloOf, DhOf, KeysOf, Confirm1Of, Confirm2Of, AreWeInitiator;
    ContentionDecides(HviOf(c, me, peer), HviOf(c, peer, me), 32);
  }

  // ----- one message received -----

  predicate Steps(c: Crypto, me: Local, peer: Local, s: Session, t: Session, next: Session) {
    && SessionOk(c, me, peer, next)
    && Paired(c, me, peer, next, t)
    && Paired(c, peer, me, t, next)
    && Advances(c, me, peer, s, next)
  }

  predicate Meet(c: Crypto, me: Local, peer: Local, s: Session, t: Session, m: seq<u8>) {
    && s.phase.At?
    && SessionOk(c, me, peer, s) && SessionOk(c, peer, me, t)
    && Paired(c, me, peer, s, t) && Paired(c, peer, me, t, s)
    && SentOk(c, peer, me, t, m)
  }

  lemma GreetingKeeps(c: Crypto, me: Local, peer: Local, s: Session, t: Session, m: seq<u8>)
    requires Meet(c, me, peer, s, t, m) && s.phase.stage == Greeting
    ensures Steps(c, me, peer, s, t, Receive(c, me, s, m))
  {
    hide HelloMsg, CommitMsg, DhMsg, KindOf, ParseHello, KeysOf, Confirm1Of, Confirm2Of, AreWeInitiator;
    HelloReadsBack(c, peer, 0);
  }

  lemma ProbingKeeps(c: Crypto, me: Local, peer: Local, s: Session, t: Session, m: seq<u8>)
    requires Meet(c, me, peer, s, t, m) && s.phase.stage == Probing
    ensures Steps(c, me, peer, s, t, Receive(c, me, s, m))
  {
    hide HelloMsg, CommitMsg, DhMsg, KindOf, ParseCommit, KeysOf, Confirm1Of, Confirm2Of, AreWeInitiator, HviOf;
    CommitReadsBack(c, peer, HviOf(c, peer, me), 2);
  }

  // Both sides compute the keys of the pair.
  lemma InitiatorSecrets(c: Crypto, me: Local, peer: Local, s: Session)
    requires s.role == Initiator && Prepared(c, me, peer, s)
    requires s.lDh == DhOf(c, me, Initiator) && HasDh(c, peer, s, Responder) && s.remotePublic == c.publicKey(peer.secret)
    ensures GenerateSharedSecrets(c, me, s) == s.(keys := KeysOf(c, me, peer))
  {
    hide HelloMsg, CommitMsg, DhMsg, SharedKeys, HviOf;
  }

  lemma ResponderSecrets(c: Crypto, me: Local, peer: Local, s: Session)
    requires c.Lawful() && s.role == Responder && HasHello(c, peer, s) && HasCommit(c, me, peer, s)
    requires s.lHello == HelloOf(c, me) && s.lDh == DhOf(c, me, Responder) && HasDh(c, peer, s, Initiator)
    requires s.remotePublic == c.publicKey(peer.secret)
    ensures GenerateSharedSecrets(c, me, s) == s.(keys := KeysOf(c, peer, me))
  {
    hide HelloMsg, CommitMsg, DhMsg, SharedKeys, HviOf;
  }

  lemma CommittingKeeps(c: Crypto, me: Local, peer: Local, s: Session, t: Session, m: seq<u8>)
    requires Meet(c, me, peer, s, t, m) && s.phase.stage == Committing
    ensures Steps(c, me, peer, s, t, Receive(c, me, s, m))
  {
    hide SessionOk, SentOk, Paired, Advances, Steps, KindOf, EnterDh1, EnterDh2, StoreCommit, AreWeInitiator;
    if KindOf(m) == Some(Commit) {
      CommitKeeps(c, me, peer, s, t, m);
    } else if KindOf(m) == Some(DhPart1) || KindOf(m) == Some(Confirm1) {
      DhPart1Keeps(c, me, peer, s, t, m);
    } else {
      QuietKeeps(c, me, peer, s, t);
    }
  }

  lemma CommitKeeps(c: Crypto, me: Local, peer: Local, s: Session, t: Session, m: seq<u8>)
    requires Meet(c, me, peer, s, t, m) && s.phase.stage == Committing && KindOf(m) == Some(Commit)
    ensures Steps(c, me, peer, s, t, Receive(c, me, s, m))
  {
    hide HelloOf, CommitMsg, DhMsg, KindOf, ParseCommit, KeysOf, Confirm1Of, Confirm2Of, EnterDh2, AreWeInitiator, HviOf;
    CommitReadsBack(c, peer, HviOf(c, peer, me), 2);
  }

  lemma DhPart1Keeps(c: Crypto, me: Local, peer: Local, s: Session, t: Session, m: seq<u8>)
    requires Meet(c, me, peer, s, t, m) && s.phase.stage == Committing && (KindOf(m) == Some(DhPart1) || KindOf(m) == Some(Confirm1))
    ensures Steps(c, me, peer, s, t, Receive(c, me, s, m))
  {
    hide HelloMsg, CommitMsg, DhMsg, KindOf, ParseDh, KeysOf, GenerateSharedSecrets, Confirm1Of, Confirm2Of, AreWeInitiator, HviOf;
    DhReadsBack(c, peer, Responder, 3);
    if KindOf(m) == Some(DhPart1) {
      var sending := s.(phase := At(SendingDh2), lDh := DhMsg(c, me, Initiator, s.sn), sn := Inc(s.sn));
      InitiatorSecrets(c, me, peer, StoreDh(sending, m));
    }
  }

  lemma SendingDh1Keeps(c: Crypto, me: Local, peer: Local, s: Session, t: Session, m: seq<u8>)
    requires c.Lawful() && Meet(c, me, peer, s, t, m) && s.phase.stage == SendingDh1
    ensures Steps(c, me, peer, s, t, Receive(c, me, s, m))
  {
    hide HelloMsg, CommitMsg, DhMsg, ConfirmMsg, Conf2AckMsg, KindOf, ParseDh, KeysOf, GenerateSharedSecrets,
      AreWeInitiator, HviOf;
    DhReadsBack(c, peer, Initiator, 3);
    if KindOf(m) == Some(DhPart2) {
      ResponderSecrets(c, me, peer, StoreDh(s, m));
    }
  }

  // An honest peer's stored messages always pass validation.
  lemma HonestValidates(c: Crypto, me: Local, peer: Local, s: Session)
    requires HasHello(c, peer, s) && s.rHash0 == peer.h0
    requires HasDh(c, peer, s, if s.role == Responder then Initiator else Responder)
    requires s.role == Responder ==> HasCommit(c, me, peer, s)
    ensures Validates(c, s)
  {
    hide HelloMsg, CommitMsg, DhMsg;
    assert Chain(c, peer.h0, 1) == c.hash(peer.h0);
    assert Chain(c, peer.h0, 2) == c.hash(c.hash(peer.h0));
    assert Copied(s.rHello, 81) == s.rHello[..81] by {
      assert |HelloMsg(c, peer, 0)| == 105;
    }
    assert Covered(s.rDh) == s.rDh[..472];
  }

  // A Confirm made with the keys of this session gives up its sender's H0.
  lemma ConfirmOpens(c: Crypto, l: Local, role: Role, s: Session, sn: u16)
    requires c.Lawful()
    ensures var key, macKey := if role == Responder then s.keys.keyR else s.keys.keyI,
                               if role == Responder then s.keys.macR else s.keys.macI;
            var m := ConfirmMsg(c, l, role, key, macKey, sn);
            KindOf(m) == Some(if role == Responder then Confirm1 else Confirm2) && OpenConfirm(c, s, m) == Some(l.h0)
  {
    hide ConfirmMsg, KindOf;
    var key := if role == Responder then s.keys.keyR else s.keys.keyI;
    var macKey := if role == Responder then s.keys.macR else s.keys.macI;
    var m := ConfirmMsg(c, l, role, key, macKey, sn);
    ConfirmReadsBack(c, l, role, key, macKey, sn);
    var f := ParseConfirm(m);
    assert |c.decrypt(key, f.iv, f.cipher)| == 40;
  }

  lemma SendingDh2Keeps(c: Crypto, me: Local, peer: Local, s: Session, t: Session, m: seq<u8>)
    requires c.Lawful() && Meet(c, me, peer, s, t, m) && s.phase.stage == SendingDh2
    ensures Steps(c, me, peer, s, t, Receive(c, me, s, m))
  {
    hide HelloOf, CommitOf, DhOf, ConfirmMsg, Conf2AckMsg, KindOf, OpenConfirm, KeysOf, AreWeInitiator, HviOf, Validates,
      EnterConfirming2;
    if KindOf(m) == Some(Confirm1) {
      Confirm1Taken(c, me, peer, s, t, m);
    }
  }

  lemma Confirm1Taken(c: Crypto, me: Local, peer: Local, s: Session, t: Session, m: seq<u8>)
    requires c.Lawful() && Meet(c, me, peer, s, t, m) && s.phase.stage == SendingDh2 && KindOf(m) == Some(Confirm1)
    ensures Receive(c, me, s, m)
         == s.(confirm := ConfirmMsg(c, me, Initiator, s.keys.keyI, s.keys.macI, s.sn), sn := Inc(s.sn), rHash0 := peer.h0,
               phase := At(Confirming2))
  {
    hide HelloMsg, CommitMsg, DhMsg, ConfirmMsg, Conf2AckMsg, KindOf, OpenConfirm, KeysOf, AreWeInitiator, HviOf, Validates;
    var sending := s.(confirm := ConfirmMsg(c, me, Initiator, s.keys.keyI, s.keys.macI, s.sn), sn := Inc(s.sn));
    assert OpenConfirm(c, sending, m) == Some(peer.h0) by {
      ConfirmOpens(c, peer, Responder, sending, 4);
    }
    HonestValidates(c, me, peer, sending.(rHash0 := peer.h0));
  }

  lemma Confirming1Keeps(c: Crypto, me: Local, peer: Local, s: Session, t: Session, m: seq<u8>)
    requires c.Lawful() && Meet(c, me, peer, s, t, m) && s.phase.stage == Confirming1
    ensures Steps(c, me, peer, s, t, Receive(c, me, s, m))
  {
    hide HelloOf, CommitOf, DhOf, ConfirmMsg, Conf2AckMsg, KindOf, OpenConfirm, KeysOf, AreWeInitiator, HviOf, Validates, Finalize;
    if KindOf(m) == Some(Confirm2) {
      Confirm2Taken(c, me, peer, s, t, m);
    }
  }

  lemma Confirm2Taken(c: Crypto, me: Local, peer: Local, s: Session, t: Session, m: seq<u8>)
    requires c.Lawful() && Meet(c, me, peer, s, t, m) && s.phase.stage == Confirming1 && KindOf(m) == Some(Confirm2)
    ensures Receive(c, me, s, m) == s.(rHash0 := peer.h0, phase := Done)
  {
    hide HelloMsg, CommitMsg, DhMsg, ConfirmMsg, Conf2AckMsg, KindOf, OpenConfirm, KeysOf, AreWeInitiator, HviOf, Validates;
    ConfirmOpens(c, peer, Initiator, s, 4);
    HonestValidates(c, me, peer, s.(rHash0 := peer.h0));
  }

  lemma ReceiveKeeps(c: Crypto, me: Local, peer: Local, s: Session, t: Session, m: seq<u8>)
    requires c.Lawful() && Meet(c, me, peer, s, t, m)
    ensures Steps(c, me, peer, s, t, Receive(c, me, s, m))
  {
    hide Steps, Receive, SessionOk, SentOk, Paired;
    match s.phase.stage
    case Greeting => GreetingKeeps(c, me, peer, s, t, m);
    case Probing => ProbingKeeps(c, me, peer, s, t, m);
    case Committing => CommittingKeeps(c, me, peer, s, t, m);
    case SendingDh1 => SendingDh1Keeps(c, me, peer, s, t, m);
    case SendingDh2 => SendingDh2Keeps(c, me, peer, s, t, m);
    case Confirming1 => Confirming1Keeps(c, me, peer, s, t, m);
    case Confirming2 => Confirming2Keeps(c, me, peer, s, t, m);
  }

  lemma Confirming2Keeps(c: Crypto, me: Local, peer: Local, s: Session, t: Session, m: seq<u8>)
    requires Meet(c, me, peer, s, t, m) && s.phase.stage == Confirming2
    ensures Steps(c, me, peer, s, t, Receive(c, me, s, m))
  {
    hide HelloMsg, CommitMsg, DhMsg, ConfirmMsg, Conf2AckMsg, KindOf, KeysOf, AreWeInitiator, HviOf;
  }

  // ----- every run -----

  lemma SentStays(c: Crypto, me: Local, peer: Local, s: Session, t: Session, m: seq<u8>)
    requires SentOk(c, me, peer, s, m) && Advances(c, me, peer, s, t)
    ensures SentOk(c, me, peer, t, m)
  {
    hide KindOf, HelloOf, CommitOf, DhOf, Confirm1Of, Confirm2Of, CommitOut, LeftAs, StageOf;
  }

  lemma ReplyOk(c: Crypto, me: Local, peer: Local, s: Session, t: Session, m: seq<u8>, r: seq<u8>)
    requires Meet(c, me, peer, s, t, m) && r in Reply(c, s, m, Receive(c, me, s, m))
    requires Steps(c, me, peer, s, t, Receive(c, me, s, m))
    ensures SentOk(c, me, peer, Receive(c, me, s, m), r)
  {
    hide HelloMsg, CommitMsg, DhMsg, ConfirmMsg, Conf2AckMsg, HelloAckMsg, KindOf, KeysOf, AreWeInitiator, HviOf, Validates,
      OpenConfirm, Receive;
    HelloAckReadsBack(c);
    Conf2AckReadsBack(c, me, 5);
  }

  lemma CurrentOk(c: Crypto, me: Local, peer: Local, s: Session, r: seq<u8>)
    requires c.Lawful() && SessionOk(c, me, peer, s) && s.phase.At? && r in Current(s)
    ensures SentOk(c, me, peer, s, r)
  {
    hide HelloMsg, CommitMsg, DhMsg, ConfirmMsg, Conf2AckMsg, KindOf, KeysOf, AreWeInitiator, HviOf, ParseHello, ParseCommit,
      ParseDh, ParseConfirm;
    match s.phase.stage
    case Greeting => HelloReadsBack(c, me, 0);
    case Probing =>
    case Committing => CommitReadsBack(c, me, HviOf(c, me, peer), 2);
    case SendingDh1 => DhReadsBack(c, me, Responder, 3);
    case SendingDh2 => DhReadsBack(c, me, Initiator, 3);
    case Confirming1 => ConfirmReadsBack(c, me, Responder, s.keys.keyR, s.keys.macR, 4);
    case Confirming2 => ConfirmReadsBack(c, me, Initiator, s.keys.keyI, s.keys.macI, 4);
  }

  lemma QuietKeeps(c: Crypto, me: Local, peer: Local, s: Session, t: Session)
    requires s.phase.At? && SessionOk(c, me, peer, s) && Paired(c, me, peer, s, t) && Paired(c, peer, me, t, s)
    ensures Steps(c, me, peer, s, t, s)
  {
    hide SessionOk, Paired;
  }

  lemma ProceedKeeps(c: Crypto, me: Local, peer: Local, s: Session, t: Session)
    requires s.phase.At? && SessionOk(c, me, peer, s) && Paired(c, me, peer, s, t) && Paired(c, peer, me, t, s)
    ensures Steps(c, me, peer, s, t, TakeInitiative(s))
  {
    hide HelloOf, CommitOf, DhOf, KeysOf, Confirm1Of, Confirm2Of, HviOf, AreWeInitiator;
  }

  lemma GiveUpKeeps(c: Crypto, me: Local, peer: Local, s: Session, t: Session)
    requires s.phase.At? && SessionOk(c, me, peer, s) && Paired(c, me, peer, s, t) && Paired(c, peer, me, t, s)
    ensures Steps(c, me, peer, s, t, Abandon(s))
  {
    hide HelloOf, CommitOf, DhOf, KeysOf, Confirm1Of, Confirm2Of, HviOf, AreWeInitiator;
  }

  lemma ActKeeps(c: Crypto, me: Local, peer: Local, mine: Side, theirs: Side, action: Action)
    requires c.Lawful() && Good(c, me, peer, mine, theirs) && Good(c, peer, me, theirs, mine)
    ensures var next := Act(c, me, mine, theirs, action);
            Good(c, me, peer, next, theirs) && Good(c, peer, me, theirs, next)
  {
    hide SessionOk, Paired, SentOk, Advances, Receive, Reply, Current;
    var next := Act(c, me, mine, theirs, action);
    if mine.s.phase.At? {
      QuietKeeps(c, me, peer, mine.s, theirs.s);
      ProceedKeeps(c, me, peer, mine.s, theirs.s);
      GiveUpKeeps(c, me, peer, mine.s, theirs.s);
      if action.Take? && action.m in theirs.sent {
        ReceiveKeeps(c, me, peer, mine.s, theirs.s, action.m);
      }
      assert Steps(c, me, peer, mine.s, theirs.s, next.s);
      forall m <- next.sent
        ensures SentOk(c, me, peer, next.s, m)
      {
        if m in mine.sent {
          SentStays(c, me, peer, mine.s, next.s, m);
        } else if action.Send? {
          CurrentOk(c, me, peer, mine.s, m);
        } else {
          ReplyOk(c, me, peer, mine.s, theirs.s, action.m, m);
        }
      }
    }
  }

  ghost predicate Inv(c: Crypto, la: Local, lb: Local, w: World) {
    Good(c, la, lb, w.a, w.b) && Good(c, lb, la, w.b, w.a)
  }

  lemma {:induction false} RunKeeps(c: Crypto, la: Local, lb: Local, events: seq<Event>)
    requires c.Lawful()
    ensures Inv(c, la, lb, After(c, la, lb, events))
    decreases |events|
  {
    hide Good, Act;
    if events == [] {
      BeginGood(c, la, lb);
      BeginGood(c, lb, la);
    } else {
      var w := After(c, la, lb, events[..|events| - 1]);
      var e := events[|events| - 1];
      RunKeeps(c, la, lb, events[..|events| - 1]);
      if e.atA {
        ActKeeps(c, la, lb, w.a, w.b, e.action);
      } else {
        ActKeeps(c, lb, la, w.b, w.a, e.action);
      }
    }
  }

  lemma BeginGood(c: Crypto, me: Local, peer: Local)
    ensures Good(c, me, peer, Side(Begin(c, me), {}), Side(Begin(c, peer), {}))
  {
    hide HelloMsg, HviOf, CommitOf, DhOf, KeysOf;
  }

  // ----- what holds of every run -----

  // Role exclusivity: the two sides never leave init_session in the same role,
  // and one that leaves as initiator does so after the other left as responder.
  lemma RolesExclusive(c: Crypto, la: Local, lb: Local, events: seq<Event>)
    requires c.Lawful()
    ensures var w := After(c, la, lb, events);
            && !(LeftAs(w.a.s, Responder) && LeftAs(w.b.s, Responder))
            && (LeftAs(w.a.s, Initiator) ==> LeftAs(w.b.s, Responder))
            && (LeftAs(w.b.s, Initiator) ==> LeftAs(w.a.s, Responder))
  {
    hide SessionOk, Paired, LeftAs, After;
    RunKeeps(c, la, lb, events);
    var w := After(c, la, lb, events);
    OneResponder(c, la, lb, w.a.s, w.b.s);
    assert Paired(c, la, lb, w.a.s, w.b.s) && Paired(c, lb, la, w.b.s, w.a.s);
    PairedRoles(c, la, lb, w.a.s, w.b.s);
    PairedRoles(c, lb, la, w.b.s, w.a.s);
  }

  lemma PairedRoles(c: Crypto, me: Local, peer: Local, s: Session, t: Session)
    requires Paired(c, me, peer, s, t)
    ensures LeftAs(s, Initiator) ==> LeftAs(t, Responder)
    ensures s.phase == Done && s.role == Initiator ==> t.phase == Done && t.role == Responder
  {
  }

  // A side whose Commit is on the network gave way only to a greater hvi, read
  // with the low byte first.
  lemma ContentionWinner(c: Crypto, la: Local, lb: Local, events: seq<Event>, atA: bool, m: seq<u8>)
    requires c.Lawful()
    ensures var mine := Mine(After(c, la, lb, events), atA);
            var x, y := HviOf(c, Own(la, lb, atA), Own(la, lb, !atA)), HviOf(c, Own(la, lb, !atA), Own(la, lb, atA));
            m in mine.sent && KindOf(m) == Some(Commit) && LeftAs(mine.s, Responder) ==>
              LowFirstValue(x) < LowFirstValue(y)
  {
    hide SessionOk, Paired, After, HviOf, CommitOf, AreWeInitiator, LowFirstValue;
    RunKeeps(c, la, lb, events);
    var x, y := HviOf(c, Own(la, lb, atA), Own(la, lb, !atA)), HviOf(c, Own(la, lb, !atA), Own(la, lb, atA));
    GreaterInitiates(x, y);
  }

  predicate HasKeys(s: Session) {
    StageOf(s) in {SendingDh2, Confirming1, Confirming2}
  }

  lemma KeysAre(c: Crypto, me: Local, peer: Local, s: Session)
    requires SessionOk(c, me, peer, s) && HasKeys(s)
    ensures s.keys == (if s.role == Initiator then KeysOf(c, me, peer) else KeysOf(c, peer, me))
    ensures LeftAs(s, s.role) && s.rZid == peer.zid
    ensures s.rHello == HelloOf(c, peer) && s.rDh == DhOf(c, peer, if s.role == Initiator then Responder else Initiator)
    ensures s.role == Responder ==> s.rCommit == CommitOf(c, peer, me)
  {
    hide HelloOf, CommitOf, DhOf, KeysOf, HviOf, Confirm1Of, Confirm2Of;
  }

  // Key agreement: from the moment both sides have keys they have the same
  // total hash, s0 and Confirm keys, and opposite roles.
  lemma KeyAgreement(c: Crypto, la: Local, lb: Local, events: seq<Event>)
    requires c.Lawful()
    ensures var w := After(c, la, lb, events);
            HasKeys(w.a.s) && HasKeys(w.b.s) ==>
              && w.a.s.keys == w.b.s.keys
              && w.a.s.role != w.b.s.role
              && w.a.s.rZid == lb.zid && w.b.s.rZid == la.zid
  {
    hide SessionOk, Paired, After, KeysOf, LeftAs, HasKeys, HelloOf, CommitOf, DhOf;
    RunKeeps(c, la, lb, events);
    RolesExclusive(c, la, lb, events);
    var w := After(c, la, lb, events);
    if HasKeys(w.a.s) && HasKeys(w.b.s) {
      KeysAre(c, la, lb, w.a.s);
      KeysAre(c, lb, la, w.b.s);
      NotBoth(w.a.s);
      NotBoth(w.b.s);
    }
  }

  lemma NotBoth(s: Session)
    ensures !(LeftAs(s, Initiator) && LeftAs(s, Responder))
  {
  }

  // The messages each side has stored are those the other hashed.
  lemma SameTranscript(c: Crypto, la: Local, lb: Local, events: seq<Event>, atA: bool)
    requires c.Lawful()
    ensures var w := After(c, la, lb, events);
            var i, r := Mine(w, atA).s, Mine(w, !atA).s;
            HasKeys(i) && HasKeys(r) && i.role == Initiator ==>
              i.rHello == r.lHello && i.lCommit == r.rCommit && i.rDh == r.lDh && i.lDh == r.rDh
  {
    hide SessionOk, Paired, After, KeysOf, LeftAs, HasKeys, HelloOf, CommitOf, DhOf;
    RunKeeps(c, la, lb, events);
    KeyAgreement(c, la, lb, events);
    var i, r := Mine(After(c, la, lb, events), atA).s, Mine(After(c, la, lb, events), !atA).s;
    var me, peer := Own(la, lb, atA), Own(la, lb, !atA);
    if HasKeys(i) && HasKeys(r) && i.role == Initiator {
      KeysAre(c, me, peer, i);
      KeysAre(c, peer, me, r);
      OwnMessages(c, me, peer, i);
      OwnMessages(c, peer, me, r);
    }
  }

  lemma OwnMessages(c: Crypto, me: Local, peer: Local, s: Session)
    requires SessionOk(c, me, peer, s) && HasKeys(s)
    ensures s.lHello == HelloOf(c, me) && s.lCommit == CommitOf(c, me, peer) && s.lDh == DhOf(c, me, s.role)
  {
    hide HelloOf, CommitOf, DhOf, KeysOf, HviOf, Confirm1Of, Confirm2Of;
  }

  // Completion order: no honest session is ever rejected, the initiator
  // finishes only after the responder, and what is on the network tells how
  // far its sender has got.
  lemma CompletionOrder(c: Crypto, la: Local, lb: Local, events: seq<Event>, atA: bool)
    requires c.Lawful()
    ensures var mine, theirs := Mine(After(c, la, lb, events), atA), Mine(After(c, la, lb, events), !atA);
            && !mine.s.phase.Rejected?
            && (mine.s.phase == Done ==> Validates(c, mine.s))
            && (mine.s.phase == Done && mine.s.role == Initiator ==> theirs.s.phase == Done && theirs.s.role == Responder)
            && (forall m <- mine.sent :: KindOf(m) == Some(Confirm1) ==>
                  mine.s.rDh == DhOf(c, Own(la, lb, !atA), Initiator) && LeftAs(theirs.s, Initiator))
            && (forall m <- mine.sent :: KindOf(m) == Some(Confirm2) ==> StageOf(theirs.s) == Confirming1)
            && (forall m <- mine.sent :: KindOf(m) == Some(Conf2Ack) ==> mine.s.phase == Done && mine.s.role == Responder)
  {
    hide After, HelloOf, CommitOf, DhOf, KeysOf, HviOf, Confirm1Of, Confirm2Of, KindOf, AreWeInitiator, Validates;
    RunKeeps(c, la, lb, events);
    var s := Mine(After(c, la, lb, events), atA).s;
    if s.phase == Done {
      HonestValidates(c, Own(la, lb, atA), Own(la, lb, !atA), s);
    }
  }

  // SRTP keys come out crosswise exactly when the lengths asked for match;
  // for the responder's own salt that is the length it asks for its peer's.
  // The lengths are those asked for by the initiator and by the responder.
  lemma SrtpKeysAgree(c: Crypto, la: Local, lb: Local, events: seq<Event>, atA: bool,
                      oKeyI: u32, tKeyI: u32, oSaltI: u32, tSaltI: u32, oKeyR: u32, tKeyR: u32, oSaltR: u32, tSaltR: u32)
    requires c.Lawful()
    requires 0 < oKeyI <= 256 && 0 < tKeyI <= 256 && 0 < oSaltI <= 256 && 0 < tSaltI <= 256
    requires 0 < oKeyR <= 256 && 0 < tKeyR <= 256 && 0 < oSaltR <= 256 && 0 < tSaltR <= 256
    requires oKeyI % 8 == 0 && tKeyI % 8 == 0 && oSaltI % 8 == 0 && tSaltI % 8 == 0
    requires oKeyR % 8 == 0 && tKeyR % 8 == 0 && oSaltR % 8 == 0 && tSaltR % 8 == 0
    ensures var i, r := Mine(After(c, la, lb, events), atA).s, Mine(After(c, la, lb, events), !atA).s;
            i.phase == Done && r.phase == Done && i.role == Initiator ==>
              var ki := GetSrtpKeys(c, Own(la, lb, atA), i, oKeyI, tKeyI, oSaltI, tSaltI);
              var kr := GetSrtpKeys(c, Own(la, lb, !atA), r, oKeyR, tKeyR, oSaltR, tSaltR);
              && ki.Some? && kr.Some?
              && (ki.value.ourKey == kr.value.theirKey <==> oKeyI == tKeyR)
              && (ki.value.theirKey == kr.value.ourKey <==> tKeyI == oKeyR)
              && (ki.value.ourSalt == kr.value.theirSalt <==> oSaltI == tSaltR)
              && (ki.value.theirSalt == kr.value.ourSalt <==> tSaltI == tSaltR)
  {
    hide After, KeysOf;
    KeyAgreement(c, la, lb, events);
    var i, r := Mine(After(c, la, lb, events), atA).s, Mine(After(c, la, lb, events), !atA).s;
    if i.phase == Done && r.phase == Done && i.role == Initiator {
      var own: seq<u8>, other: seq<u8> := Own(la, lb, atA).zid, Own(la, lb, !atA).zid;
      var zids: seq<u8> := own + other;
      assert Zids(i.role, own, i.rZid) == zids && Zids(r.role, other, r.rZid) == zids;
      KeyLengthDecides(c, i.keys.s0, zids, i.keys.totalHash, "Initiator SRTP master key", oKeyI, tKeyR);
      KeyLengthDecides(c, i.keys.s0, zids, i.keys.totalHash, "Responder SRTP master key", tKeyI, oKeyR);
      KeyLengthDecides(c, i.keys.s0, zids, i.keys.totalHash, "Initiator SRTP master salt", oSaltI, tSaltR);
      KeyLengthDecides(c, i.keys.s0, zids, i.keys.totalHash, "Responder SRTP master salt", tSaltI, tSaltR);
    }
  }

  lemma KeyLengthDecides(c: Crypto, s0: seq<u8>, zids: seq<u8>, totalHash: seq<u8>, purpose: string, m: u32, n: u32)
    requires m <= 256 && n <= 256 && m % 8 == 0 && n % 8 == 0
    ensures DeriveKey(c, s0, zids, totalHash, purpose, m) == DeriveKey(c, s0, zids, totalHash, purpose, n) <==> m == n
  {
    assert |DeriveKey(c, s0, zids, totalHash, purpose, m)| == m / 8;
    assert |DeriveKey(c, s0, zids, totalHash, purpose, n)| == n / 8;
  }

  // Both sides send Commit, with equal hash values.
  predicate Tied(c: Crypto, la: Local, lb: Local, w: World) {
    && HviOf(c, la, lb) == HviOf(c, lb, la)
    && StageOf(w.a.s) == Committing
    && StageOf(w.b.s) == Committing
  }

  // Equal hash values are never resolved: once both sides send Commit, neither
  // leaves init_session whatever happens.
  lemma {:induction false} TieNeverResolved(c: Crypto, la: Local, lb: Local, events: seq<Event>, more: seq<Event>)
    requires c.Lawful() && Tied(c, la, lb, After(c, la, lb, events))
    ensures Tied(c, la, lb, After(c, la, lb, events + more))
    decreases |more|
  {
    hide After, Act, HviOf, StageOf;
    if more == [] {
      assert events + more == events;
    } else {
      var init, e := more[..|more| - 1], more[|more| - 1];
      TieNeverResolved(c, la, lb, events, init);
      assert events + more == (events + init) + [e];
      RunKeeps(c, la, lb, events + init);
      AfterOne(c, la, lb, events + init, e);
      var w := After(c, la, lb, events + init);
      if e.atA {
        TieStays(c, la, lb, w.a, w.b, e.action);
      } else {
        TieStays(c, lb, la, w.b, w.a, e.action);
      }
    }
  }

  lemma TieStays(c: Crypto, me: Local, peer: Local, mine: Side, theirs: Side, action: Action)
    requires c.Lawful() && Good(c, me, peer, mine, theirs) && Good(c, peer, me, theirs, mine)
    requires HviOf(c, me, peer) == HviOf(c, peer, me)
    requires StageOf(mine.s) == Committing && StageOf(theirs.s) == Committing
    ensures StageOf(Act(c, me, mine, theirs, action).s) == Committing
  {
    hide SessionOk, Paired, SentOk, HviOf, Receive, Reply, Current;
    if mine.s.phase.At? && action.Take? && action.m in theirs.sent {
      TieOnTake(c, me, peer, mine.s, theirs.s, action.m);
    }
  }

  lemma TieOnTake(c: Crypto, me: Local, peer: Local, s: Session, t: Session, m: seq<u8>)
    requires Meet(c, me, peer, s, t, m) && HviOf(c, me, peer) == HviOf(c, peer, me)
    requires s.phase.stage == Committing && StageOf(t) == Committing
    ensures StageOf(Receive(c, me, s, m)) == Committing
  {
    hide HelloOf, CommitMsg, DhMsg, KeysOf, HviOf, Confirm1Of, Confirm2Of, KindOf, ParseCommit, AreWeInitiator, Paired, EnterDh1,
      EnterDh2;
    ContentionDecides(HviOf(c, me, peer), HviOf(c, me, peer), 32);
    CommitReadsBack(c, peer, HviOf(c, peer, me), 2);
  }

  // The DHPart2 whose hash the Commit carries differs from the one sent later,
  // and is itself never sent.
  lemma HashedNeverSent(c: Crypto, la: Local, lb: Local, events: seq<Event>, atA: bool)
    requires c.Lawful()
    ensures DhMsg(c, Own(la, lb, atA), Initiator, 1) !in Mine(After(c, la, lb, events), atA).sent
    ensures DhMsg(c, Own(la, lb, atA), Initiator, 1) != DhOf(c, Own(la, lb, atA), Initiator)
  {
    hide After, DhMsg, DhOf, SessionOk, Paired, SentOk;
    RunKeeps(c, la, lb, events);
    var me, mine := Own(la, lb, atA), Mine(After(c, la, lb, events), atA);
    HashedDiffers(c, me);
    if DhMsg(c, me, Initiator, 1) in mine.sent {
      SentIsNumbered(c, me, Own(la, lb, !atA), mine.s, DhMsg(c, me, Initiator, 1));
    }
  }

  lemma HashedDiffers(c: Crypto, l: Local)
    ensures DhMsg(c, l, Initiator, 1) != DhOf(c, l, Initiator)
  {
    DhNumbered(c, l, 1);
    DhNumbered(c, l, 3);
    hide DhMsg;
  }

  lemma DhNumbered(c: Crypto, l: Local, sn: u16)
    ensures |DhMsg(c, l, Initiator, sn)| == 484 && DhMsg(c, l, Initiator, sn)[2] == sn % 0x100
  {
    hide Chain;
    assert Start(DhPart2, l.ssrc, sn, 472)[2] == sn % 0x100;
  }

  lemma SentIsNumbered(c: Crypto, me: Local, peer: Local, s: Session, m: seq<u8>)
    requires SentOk(c, me, peer, s, m)
    ensures m != DhMsg(c, me, Initiator, 1)
  {
    hide DhMsg, KindOf, ParseDh, HelloOf, CommitOf, DhOf, Confirm1Of, Confirm2Of, CommitOut, LeftAs, StageOf;
    DhReadsBack(c, me, Initiator, 1);
    HashedDiffers(c, me);
  }

  // Two different texts with one hash.
  predicate Collide(c: Crypto, x: seq<u8>, y: seq<u8>) {
    x != y && c.hash(x) == c.hash(y)
  }

  // So a responder that checked the hash against the DHPart2 it received, as
  // section 4.4.1.1 of RFC 6189 asks, would accept it only if the two collide.
  lemma HashCheckCollides(c: Crypto, la: Local, lb: Local, events: seq<Event>, atA: bool)
    requires c.Lawful()
    ensures var s := Mine(After(c, la, lb, events), atA).s;
            StageOf(s) == Confirming1 && s.rHvi == c.hash(s.rDh + s.lHello) ==>
              Collide(c, DhMsg(c, Own(la, lb, !atA), Initiator, 1) + s.lHello, s.rDh + s.lHello)
  {
    hide After, SessionOk, Paired, SentOk, StageOf;
    RunKeeps(c, la, lb, events);
    var s := Mine(After(c, la, lb, events), atA).s;
    if StageOf(s) == Confirming1 && s.rHvi == c.hash(s.rDh + s.lHello) {
      HashAccepted(c, Own(la, lb, atA), Own(la, lb, !atA), s);
    }
  }

  lemma HashAccepted(c: Crypto, me: Local, peer: Local, s: Session)
    requires SessionOk(c, me, peer, s) && StageOf(s) == Confirming1 && s.rHvi == c.hash(s.rDh + s.lHello)
    ensures Collide(c, DhMsg(c, peer, Initiator, 1) + s.lHello, s.rDh + s.lHello)
  {
    hide DhMsg, HelloOf, DhOf, CommitOf, KeysOf, Confirm1Of, Confirm2Of, Conf2AckMsg;
    var hello, hashed, dh := HelloOf(c, me), DhMsg(c, peer, Initiator, 1), DhOf(c, peer, Initiator);
    HashedDiffers(c, peer);
    Appended(hashed, dh, hello);
  }

  lemma Appended(x: seq<u8>, y: seq<u8>, tail: seq<u8>)
    ensures x + tail == y + tail ==> x == y
  {
    assert (x + tail)[..|x + tail| - |tail|] == x;
    assert (y + tail)[..|y + tail| - |tail|] == y;
  }

  // ----- a run that succeeds -----

  // The stage a message of the awaited kind leads to.
  function Awaited(stage: Stage): Kind {
    match stage
    case Greeting => HelloAck
    case Probing => Commit
    case Committing => DhPart1
    case SendingDh1 => DhPart2
    case SendingDh2 => Confirm1
    case Confirming1 => Confirm2
    case Confirming2 => Conf2Ack
  }

  function Reached(stage: Stage): Phase {
    match stage
    case Greeting => At(Probing)
    case Probing => At(SendingDh1)
    case Committing => At(SendingDh2)
    case SendingDh1 => At(Confirming1)
    case SendingDh2 => At(Confirming2)
    case Confirming1 => Done
    case Confirming2 => Done
  }

  // A session that is given the message it waits for moves on.
  lemma MovesOn(c: Crypto, me: Local, peer: Local, s: Session, t: Session, m: seq<u8>)
    requires c.Lawful() && Meet(c, me, peer, s, t, m) && KindOf(m) == Some(Awaited(s.phase.stage))
    requires s.phase.stage == Greeting ==> s.rHello != []
    ensures Receive(c, me, s, m).phase == Reached(s.phase.stage)
  {
    hide SessionOk, Paired, SentOk, Advances, HelloMsg, CommitMsg, DhMsg, ConfirmMsg, Conf2AckMsg, SharedKeys, KindOf,
      OpenConfirm, AreWeInitiator, Validates;
    if s.phase.stage == Confirming1 {
      Confirm2Opens(c, me, peer, s, t, m);
    }
    ReceiveKeeps(c, me, peer, s, t, m);
    NotRejected(c, me, peer, Receive(c, me, s, m));
  }

  lemma Confirm2Opens(c: Crypto, me: Local, peer: Local, s: Session, t: Session, m: seq<u8>)
    requires c.Lawful() && Meet(c, me, peer, s, t, m) && s.phase.stage == Confirming1 && KindOf(m) == Some(Confirm2)
    ensures OpenConfirm(c, s, m).Some?
  {
    hide HelloOf, CommitOf, DhOf, HviOf, ConfirmMsg, Conf2AckMsg, KindOf, OpenConfirm, KeysOf, AreWeInitiator, Paired;
    ConfirmOpens(c, peer, Initiator, s, 4);
  }

  lemma NotRejected(c: Crypto, me: Local, peer: Local, s: Session)
    requires SessionOk(c, me, peer, s)
    ensures !s.phase.Rejected?
  {
  }

  // The peer's Hello is accepted and answered.
  lemma GreetsBack(c: Crypto, me: Local, peer: Local, s: Session, t: Session, m: seq<u8>)
    requires Meet(c, me, peer, s, t, m) && KindOf(m) == Some(Hello) && s.phase == At(Greeting) && s.rHello == []
    ensures var next := Receive(c, me, s, m); next.phase == At(Greeting) && next.rHello != []
    ensures Reply(c, s, m, Receive(c, me, s, m)) == {HelloAckMsg(c)}
  {
    hide HelloMsg, KindOf, ParseHello, HelloAckMsg;
    HelloReadsBack(c, peer, 0);
  }

  // The message the loop of this stage sends.
  function Sends(stage: Stage): Option<Kind> {
    match stage
    case Greeting => Some(Hello)
    case Probing => None
    case Committing => Some(Commit)
    case SendingDh1 => Some(DhPart1)
    case SendingDh2 => Some(DhPart2)
    case Confirming1 => Some(Confirm1)
    case Confirming2 => Some(Confirm2)
  }

  lemma SendsItsKind(c: Crypto, me: Local, peer: Local, s: Session)
    requires c.Lawful() && SessionOk(c, me, peer, s) && s.phase.At? && s.phase.stage != Probing
    ensures exists m :: Current(s) == {m} && KindOf(m) == Sends(s.phase.stage)
  {
    hide HelloMsg, CommitMsg, DhMsg, ConfirmMsg, Conf2AckMsg, KindOf, KeysOf, HviOf, ParseHello, ParseCommit, ParseDh,
      ParseConfirm;
    match s.phase.stage
    case Greeting => HelloReadsBack(c, me, 0); assert Current(s) == {s.lHello};
    case Committing => CommitReadsBack(c, me, HviOf(c, me, peer), 2); assert Current(s) == {s.lCommit};
    case SendingDh1 => DhReadsBack(c, me, Responder, 3); assert Current(s) == {s.lDh};
    case SendingDh2 => DhReadsBack(c, me, Initiator, 3); assert Current(s) == {s.lDh};
    case Confirming1 => ConfirmReadsBack(c, me, Responder, s.keys.keyR, s.keys.macR, 4); assert Current(s) == {s.confirm};
    case Confirming2 => ConfirmReadsBack(c, me, Initiator, s.keys.keyI, s.keys.macI, 4); assert Current(s) == {s.confirm};
  }
}
