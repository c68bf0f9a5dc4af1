// The handshake as an endpoint carries it out: retry loops that send, wait and
// update the session in place, each proved to follow the protocol's steps.
module ZrtpEndpoint {
  import opened Common
  import opened ZrtpMessages
  import opened ZrtpSession
  import opened ZrtpProtocol

  // init_session_hashes, and the loop at the head of validate_session.
  method HashChain(c: Crypto, h0: Digest) returns (hashes: array<Digest>)
    ensures fresh(hashes) && hashes.Length == 4
    ensures forall j :: 0 <= j < 4 ==> hashes[j] == Chain(c, h0, j)
  {
    hashes := new Digest[4](_ => h0);
    for i := 1 to 4
      invariant forall j :: 0 <= j < i ==> hashes[j] == Chain(c, h0, j)
    {
      hashes[i] := c.hash(hashes[i - 1]);
    }
  }

  // are_we_initiator in DH mode, from the last byte down.
  method CompareHvi(our: Digest, their: Digest) returns (initiator: bool)
    ensures initiator == AreWeInitiator(our, their, 32)
    ensures initiator <==> LowFirstValue(our) >= LowFirstValue(their)
  {
    hide LowFirstValue;
    GreaterInitiates(our, their);
    var i := 31;
    while i >= 0
      invariant -1 <= i < 32
      invariant AreWeInitiator(our, their, 32) == AreWeInitiator(our, their, i + 1)
    {
      if our[i] > their[i] {
        return true;
      } else if our[i] < their[i] {
        return false;
      }
      i := i - 1;
    }
    return true;
  }

  // ----- the retry loops, as steps of the protocol -----

  // What the i-th blocking receive of a loop brings; None when it times out.
  type Socket = nat -> Option<seq<u8>>

  // Once round a loop: send, then take what arrives.
  function Turn(c: Crypto, l: Local, side: Side, arrival: Option<seq<u8>>): Side
    requires side.s.phase.At?
  {
    var out := side.sent + Current(side.s);
    match arrival
    case None => Side(side.s, out)
    case Some(m) =>
      var next := Receive(c, l, side.s, m);
      Side(next, out + Reply(c, side.s, m, next))
  }

  // The turns left from the i-th on: until the stage changes or the tries are
  // used up.
  function Loop(c: Crypto, l: Local, side: Side, recv: Socket, i: nat, tries: nat): Side
    requires side.s.phase.At? && i <= tries
    decreases tries - i
  {
    if i == tries then Side(Abandon(side.s), side.sent)
    else
      var next := Turn(c, l, side, recv(i));
      if next.s.phase != side.s.phase then next else Loop(c, l, next, recv, i + 1, tries)
  }

  lemma LoopEnd(c: Crypto, l: Local, side: Side, recv: Socket, tries: nat)
    requires side.s.phase.At?
    ensures Loop(c, l, side, recv, tries, tries) == Side(Abandon(side.s), side.sent)
  {
  }

  lemma LoopStep(c: Crypto, l: Local, side: Side, recv: Socket, i: nat, tries: nat)
    requires side.s.phase.At? && i < tries
    ensures var next := Turn(c, l, side, recv(i));
            Loop(c, l, side, recv, i, tries) ==
            if next.s.phase != side.s.phase then next else Loop(c, l, next, recv, i + 1, tries)
  {
    hide Turn;
  }

  // The messages already waiting when init_session starts.
  function Drain(c: Crypto, l: Local, side: Side, waiting: seq<seq<u8>>): Side
    requires side.s.phase == At(Probing)
  {
    if waiting == [] then Side(TakeInitiative(side.s), side.sent)
    else
      var next := Receive(c, l, side.s, waiting[0]);
      if next.phase != side.s.phase then Side(next, side.sent) else Drain(c, l, Side(next, side.sent), waiting[1..])
  }

  // What reaches one endpoint: the receives of each loop, and what is waiting
  // when the Hello exchange is over.
  datatype Network = Network(hello: Socket, waiting: seq<seq<u8>>, commit: Socket, dh: Socket, confirm: Socket)

  predicate Finished(side: Side) {
    !side.s.phase.At?
  }

  // init_dhm, loop after loop; a loop that fails ends the handshake.
  function Handshake(c: Crypto, l: Local, net: Network): Side {
    Greeted(c, l, Loop(c, l, Side(Begin(c, l), {}), net.hello, 0, 20), net)
  }

  function Greeted(c: Crypto, l: Local, greeted: Side, net: Network): Side {
    if greeted.s.phase != At(Probing) then greeted else Drained(c, l, Drain(c, l, greeted, net.waiting), net)
  }

  function Drained(c: Crypto, l: Local, drained: Side, net: Network): Side {
    Agreed(c, l, if drained.s.phase == At(Committing) then Loop(c, l, drained, net.commit, 0, 10) else drained, net)
  }

  function Agreed(c: Crypto, l: Local, agreed: Side, net: Network): Side {
    if Finished(agreed) then agreed else Exchanged(c, l, Loop(c, l, agreed, net.dh, 0, 10), net)
  }

  function Exchanged(c: Crypto, l: Local, exchanged: Side, net: Network): Side {
    if Finished(exchanged) then exchanged else Loop(c, l, exchanged, net.confirm, 0, 10)
  }

  lemma BeginAt(c: Crypto, l: Local)
    ensures Begin(c, l).phase == At(Greeting) && Begin(c, l).rHello == []
  {
  }

  // Where each loop can lead.
  predicate Leads(stage: Stage, s: Session) {
    match stage
    case Greeting => s.phase in {At(Probing), TimedOut(Greeting), Rejected(Greeting)}
    case Probing => s.phase in {At(Committing), At(SendingDh1)} && (s.phase.stage == SendingDh1 <==> s.role == Responder)
    case Committing =>
      || s.phase == TimedOut(Committing)
      || (s.phase in {At(SendingDh1), At(SendingDh2)} && (s.phase.stage == SendingDh1 <==> s.role == Responder))
    case SendingDh1 => s.phase in {At(Confirming1), TimedOut(SendingDh1)}
    case SendingDh2 => s.phase in {At(Confirming2), TimedOut(SendingDh2), Rejected(SendingDh2)}
    case Confirming1 => s.phase in {Done, TimedOut(Confirming1), Rejected(Confirming1)}
    case Confirming2 => s.phase in {Done, TimedOut(Confirming2)}
  }

  lemma ReceiveLeads(c: Crypto, l: Local, s: Session, m: seq<u8>)
    requires s.phase.At? && (s.phase.stage == Committing ==> s.role == Initiator)
    ensures var next := Receive(c, l, s, m);
            Leads(s.phase.stage, next) || (next.phase == s.phase && next.role == s.role)
  {
    hide KindOf, DhMsg, CommitMsg, ConfirmMsg, Conf2AckMsg, SharedKeys, ParseHello, ParseCommit, ParseDh, OpenConfirm, Validates,
      AreWeInitiator;
  }

  lemma {:induction false} LoopLeads(c: Crypto, l: Local, side: Side, recv: Socket, i: nat, tries: nat)
    requires side.s.phase.At? && side.s.phase.stage != Probing && i <= tries
    requires side.s.phase.stage == Committing ==> side.s.role == Initiator
    ensures Leads(side.s.phase.stage, Loop(c, l, side, recv, i, tries).s)
    decreases tries - i
  {
    hide Receive, Reply, Current;
    if i < tries {
      if recv(i).Some? {
        ReceiveLeads(c, l, side.s, recv(i).value);
      }
      var next := Turn(c, l, side, recv(i));
      if next.s.phase == side.s.phase {
        LoopLeads(c, l, next, recv, i + 1, tries);
      }
    }
  }

  lemma {:induction false} DrainLeads(c: Crypto, l: Local, side: Side, waiting: seq<seq<u8>>)
    requires side.s.phase == At(Probing)
    ensures Leads(Probing, Drain(c, l, side, waiting).s)
    decreases |waiting|
  {
    hide Receive;
    if waiting != [] {
      ReceiveLeads(c, l, side.s, waiting[0]);
      var next := Side(Receive(c, l, side.s, waiting[0]), side.sent);
      if next.s.phase == side.s.phase {
        DrainLeads(c, l, next, waiting[1..]);
      }
    }
  }

  // ----- the endpoint -----

  class Zrtp {
    const c: Crypto
    const l: Local
    var s: Session
    var sent: set<seq<u8>>

    constructor (c: Crypto, l: Local)
      ensures this.c == c && this.l == l && s == Begin(c, l) && sent == {}
    {
      this.c, this.l := c, l;
      s, sent := Begin(c, l), {};
    }

    function State(): Side
      reads this
    {
      Side(s, sent)
    }

    method SendMsg(m: seq<u8>)
      modifies this`sent
      ensures sent == old(sent) + {m}
    {
      sent := sent + {m};
    }

    method ValidateSession() returns (valid: bool)
      requires |s.rHash0| == 32
      ensures valid == Validates(c, s)
    {
      var hashes := HashChain(c, s.rHash0);
      assert hashes[1] == c.hash(s.rHash0) && hashes[2] == c.hash(c.hash(s.rHash0)) by {
        assert Chain(c, s.rHash0, 1) == c.hash(Chain(c, s.rHash0, 0));
        assert Chain(c, s.rHash0, 2) == c.hash(Chain(c, s.rHash0, 1));
      }
      if c.Mac(hashes[2], Copied(s.rHello, 81)) != s.rMac3 {
        return false;
      }
      if s.role == Responder {
        if c.Mac(hashes[1], Covered(s.rCommit)) != s.rMac2 {
          return false;
        }
      }
      if c.Mac(hashes[0], Covered(s.rDh)) != s.rMac1 {
        return false;
      }
      return true;
    }

    // init_dhm
    method InitDhm(net: Network) returns (ok: bool)
      requires State() == Side(Begin(c, l), {})
      modifies this
      ensures State() == Handshake(c, l, net)
      ensures ok <==> s.phase == Done
    {
      hide Begin, Loop, Drain;
      BeginAt(c, l);
      LoopLeads(c, l, State(), net.hello, 0, 20);
      ok := BeginSession(net.hello);
      if !ok {
        return;
      }
      DrainLeads(c, l, State(), net.waiting);
      ghost var drained := Drain(c, l, State(), net.waiting);
      if drained.s.phase == At(Committing) {
        LoopLeads(c, l, drained, net.commit, 0, 10);
      }
      InitSession(net.waiting, net.commit);
      if s.phase == TimedOut(Committing) {
        return false;
      }
      LoopLeads(c, l, State(), net.dh, 0, 10);
      if s.role == Initiator {
        DhPart2Loop(net.dh);
        if !s.phase.At? {
          return false;
        }
        LoopLeads(c, l, State(), net.confirm, 0, 10);
        InitiatorFinalize(net.confirm);
      } else {
        DhPart1Loop(net.dh);
        if !s.phase.At? {
          return false;
        }
        LoopLeads(c, l, State(), net.confirm, 0, 10);
        ResponderFinalize(net.confirm);
      }
      ok := s.phase == Done;
    }

    // begin_session, and the preparation of the Commit that follows it.
    method BeginSession(recv: Socket) returns (ok: bool)
      requires s.phase == At(Greeting) && s.rHello == []
      modifies this
      ensures State() == Loop(c, l, old(State()), recv, 0, 20)
      ensures ok == (s.phase == At(Probing))
    {
      hide HelloMsg, HelloAckMsg, KindOf, EnterProbing, ParseHello, Loop;

      var helloRecv := false;
      for i := 0 to 20
        invariant s.phase == At(Greeting) && helloRecv == (s.rHello != [])
        invariant Loop(c, l, State(), recv, i, 20) == Loop(c, l, old(State()), recv, 0, 20)
      {
        LoopStep(c, l, State(), recv, i, 20);
        ghost var turned := Turn(c, l, State(), recv(i));
        SendMsg(s.lHello);
        match recv(i)
        case None =>
        case Some(m) =>
          var kind := KindOf(m);
          if kind == Some(Hello) {
            SendMsg(HelloAckMsg(c));
            if !helloRecv {
              HasBytes(m);
              helloRecv := true;
              s := StoreHello(s, m);
              if ParseHello(m).version != VERSION {
                s := s.(phase := Rejected(Greeting));
                return false;
              }
            }
          } else if kind == Some(HelloAck) {
            if helloRecv {
              PrepareCommit();
              assert sent == turned.sent;
              return true;
            }
          }
        assert s == turned.s && sent == turned.sent;
      }
      LoopEnd(c, l, State(), recv, 20);
      s := s.(phase := TimedOut(Greeting));
      return false;
    }

    method PrepareCommit()
      modifies this`s
      ensures s == EnterProbing(c, l, old(s)) && s.phase == At(Probing)
    {
      hide DhMsg, CommitMsg;
      s := s.(lDh := DhMsg(c, l, Initiator, s.sn), sn := Inc(s.sn));
      s := s.(oHvi := c.hash(s.lDh + s.rHello));
      s := s.(phase := At(Probing), lCommit := CommitMsg(c, l, s.oHvi, s.sn), sn := Inc(s.sn));
    }

    // init_session: first the messages already waiting, then the Commit loop.
    // The DHPart message that the next loop needs is made on leaving.
    method InitSession(waiting: seq<seq<u8>>, recv: Socket)
      requires s.phase == At(Probing)
      modifies this
      ensures State() == var drained := Drain(c, l, old(State()), waiting);
                         if drained.s.phase == At(Committing) then Loop(c, l, drained, recv, 0, 10) else drained
    {
      hide CommitMsg, DhMsg, KindOf, EnterDh1, EnterDh2, ParseCommit, Loop, AreWeInitiator;
      for i := 0 to |waiting|
        invariant s.phase == At(Probing)
        invariant Drain(c, l, State(), waiting[i..]) == Drain(c, l, old(State()), waiting)
      {
        assert waiting[i..][0] == waiting[i] && waiting[i..][1..] == waiting[i + 1..];
        if KindOf(waiting[i]) == Some(Commit) {
          s := StoreCommit(s, waiting[i]);
          BecomeResponder();
          return;
        }
      }
      s := s.(phase := At(Committing), role := Initiator);
      ghost var drained := State();
      for i := 0 to 10
        invariant s.phase == At(Committing)
        invariant Loop(c, l, State(), recv, i, 10) == Loop(c, l, drained, recv, 0, 10)
      {
        LoopStep(c, l, State(), recv, i, 10);
        ghost var turned := Turn(c, l, State(), recv(i));
        SendMsg(s.lCommit);
        match recv(i)
        case None =>
        case Some(m) =>
          var kind := KindOf(m);
          if kind == Some(Commit) {
            s := StoreCommit(s, m);
            var initiator := CompareHvi(s.oHvi, s.rHvi);
            if !initiator {
              BecomeResponder();
              assert sent == turned.sent;
              return;
            }
          } else if kind == Some(DhPart1) || kind == Some(Confirm1) {
            AnswerDhPart1(m);
            assert sent == turned.sent;
            return;
          }
          assert s == turned.s && sent == turned.sent;
      }
      LoopEnd(c, l, State(), recv, 10);
      s := s.(phase := TimedOut(Committing));
    }

    method BecomeResponder()
      modifies this`s
      ensures s == EnterDh1(c, l, old(s)) && s.phase == At(SendingDh1)
    {
      s := s.(role := Responder);
      s := s.(phase := At(SendingDh1), lDh := DhMsg(c, l, Responder, s.sn), sn := Inc(s.sn));
    }

    // The head of dh_part2: DHPart2 is made again, then DHPart1 is read.
    method AnswerDhPart1(m: seq<u8>)
      modifies this`s
      ensures s == EnterDh2(c, l, old(s), m) && s.phase == At(SendingDh2)
    {
      hide DhMsg, ParseDh, SharedKeys;
      s := s.(phase := At(SendingDh2), lDh := DhMsg(c, l, Initiator, s.sn), sn := Inc(s.sn));
      s := StoreDh(s, m);
      GenerateSecrets();
    }

    // generate_shared_secrets_dh
    method GenerateSecrets()
      modifies this`s
      ensures s == GenerateSharedSecrets(c, l, old(s))
    {
      hide SharedKeys;
      var messages: seq<u8>;
      if s.role == Initiator {
        messages := s.rHello + s.lCommit + s.rDh + s.lDh;
      } else {
        messages := s.lHello + s.rCommit + s.lDh + s.rDh;
      }
      s := s.(keys := SharedKeys(c, c.shared(l.secret, s.remotePublic), Zids(s.role, l.zid, s.rZid), messages));
    }

    // dh_part1, and the Confirm1 and Conf2ACK made after it.
    method DhPart1Loop(recv: Socket)
      requires s.phase == At(SendingDh1)
      modifies this
      ensures State() == Loop(c, l, old(State()), recv, 0, 10)
    {
      hide DhMsg, KindOf, ParseDh, SharedKeys, ConfirmMsg, Conf2AckMsg, GenerateSharedSecrets, Loop;
      for i := 0 to 10
        invariant s.phase == At(SendingDh1)
        invariant Loop(c, l, State(), recv, i, 10) == Loop(c, l, old(State()), recv, 0, 10)
      {
        LoopStep(c, l, State(), recv, i, 10);
        ghost var turned := Turn(c, l, State(), recv(i));
        SendMsg(s.lDh);
        match recv(i)
        case None =>
        case Some(m) =>
          if KindOf(m) == Some(DhPart2) {
            s := StoreDh(s, m);
            SecretsKeepSn(c, l, s);
            GenerateSecrets();
            s := s.(phase := At(Confirming1), confirm := ConfirmMsg(c, l, Responder, s.keys.keyR, s.keys.macR, s.sn),
                    confAck := Conf2AckMsg(c, l, Inc(s.sn)), sn := Inc(Inc(s.sn)));
            assert s == turned.s && sent == turned.sent;
            return;
          }
          assert s == turned.s && sent == turned.sent;
      }
      LoopEnd(c, l, State(), recv, 10);
      s := s.(phase := TimedOut(SendingDh1));
    }

    // confirm::parse_msg
    method ReadConfirm(m: seq<u8>) returns (ok: bool)
      modifies this`s
      ensures match OpenConfirm(c, old(s), m)
              case None => !ok && s == old(s)
              case Some(h0) => ok && |h0| == 32 && s == old(s).(rHash0 := h0)
    {
      hide ParseConfirm;
      var f := ParseConfirm(m);
      var key, macKey;
      if f.first {
        key, macKey := s.keys.keyR, s.keys.macR;
      } else {
        key, macKey := s.keys.keyI, s.keys.macI;
      }
      if c.Mac(macKey, f.cipher) != f.mac {
        return false;
      }
      s := s.(rHash0 := Copied(c.decrypt(key, f.iv, f.cipher), 32));
      return true;
    }

    // dh_part2's loop, and the head of initiator_finalize_session.
    method DhPart2Loop(recv: Socket)
      requires s.phase == At(SendingDh2)
      modifies this
      ensures State() == Loop(c, l, old(State()), recv, 0, 10)
    {
      hide KindOf, OpenConfirm, ConfirmMsg, Validates, Loop;
      for i := 0 to 10
        invariant s.phase == At(SendingDh2)
        invariant Loop(c, l, State(), recv, i, 10) == Loop(c, l, old(State()), recv, 0, 10)
      {
        LoopStep(c, l, State(), recv, i, 10);
        ghost var turned := Turn(c, l, State(), recv(i));
        SendMsg(s.lDh);
        match recv(i)
        case None =>
        case Some(m) =>
          if KindOf(m) == Some(Confirm1) {
            s := s.(confirm := ConfirmMsg(c, l, Initiator, s.keys.keyI, s.keys.macI, s.sn), sn := Inc(s.sn));
            var valid := ReadConfirm(m);
            if valid {
              valid := ValidateSession();
            }
            s := s.(phase := if valid then At(Confirming2) else Rejected(SendingDh2));
            assert s == turned.s && sent == turned.sent;
            return;
          }
          assert s == turned.s && sent == turned.sent;
      }
      LoopEnd(c, l, State(), recv, 10);
      s := s.(phase := TimedOut(SendingDh2));
    }

    // responder_finalize_session
    method ResponderFinalize(recv: Socket)
      requires s.phase == At(Confirming1)
      modifies this
      ensures State() == Loop(c, l, old(State()), recv, 0, 10)
    {
      hide KindOf, OpenConfirm, Validates, Loop;
      for i := 0 to 10
        invariant s.phase == At(Confirming1)
        invariant Loop(c, l, State(), recv, i, 10) == Loop(c, l, old(State()), recv, 0, 10)
      {
        LoopStep(c, l, State(), recv, i, 10);
        ghost var turned := Turn(c, l, State(), recv(i));
        SendMsg(s.confirm);
        match recv(i)
        case None =>
        case Some(m) =>
          if KindOf(m) == Some(Confirm2) {
            var read := ReadConfirm(m);
            if read {
              var valid := ValidateSession();
              if valid {
                SendMsg(s.confAck);
                s := s.(phase := Done);
              } else {
                s := s.(phase := Rejected(Confirming1));
              }
              assert s == turned.s && sent == turned.sent;
              return;
            }
          }
          assert s == turned.s && sent == turned.sent;
      }
      LoopEnd(c, l, State(), recv, 10);
      s := s.(phase := TimedOut(Confirming1));
    }

    // The loop of initiator_finalize_session.
    method InitiatorFinalize(recv: Socket)
      requires s.phase == At(Confirming2)
      modifies this
      ensures State() == Loop(c, l, old(State()), recv, 0, 10)
    {
      hide KindOf, Loop;
      for i := 0 to 10
        invariant s.phase == At(Confirming2)
        invariant Loop(c, l, State(), recv, i, 10) == Loop(c, l, old(State()), recv, 0, 10)
      {
        LoopStep(c, l, State(), recv, i, 10);
        ghost var turned := Turn(c, l, State(), recv(i));
        SendMsg(s.confirm);
        match recv(i)
        case None =>
        case Some(m) =>
          if KindOf(m) == Some(Conf2Ack) {
            s := s.(phase := Done);
            assert sent == turned.sent;
            return;
          }
          assert s == turned.s && sent == turned.sent;
      }
      LoopEnd(c, l, State(), recv, 10);
      s := s.(phase := TimedOut(Confirming2));
    }
  }

  lemma SecretsKeepSn(c: Crypto, l: Local, s: Session)
    ensures GenerateSharedSecrets(c, l, s).sn == s.sn
  {
  }

  lemma HasBytes(m: seq<u8>)
    requires KindOf(m).Some?
    ensures m != []
  {
  }
}
