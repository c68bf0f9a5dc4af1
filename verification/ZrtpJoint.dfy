// Two endpoints side by side: their sends and receives interleave in any way
// in which nothing is received before the other side has sent it.
module ZrtpJoint {
  import opened Common
  import opened ZrtpMessages
  import opened ZrtpSession
  import opened ZrtpProtocol
  import opened ZrtpEndpoint

  // An endpoint between two of its socket calls: the try it is at, and whether
  // this try's message is out.
  datatype Thread = Thread(side: Side, tries: nat, out: bool)

  function Limit(stage: Stage): nat {
    if stage == Greeting then 20 else 10
  }

  function Start(c: Crypto, l: Local): Thread {
    Thread(Side(Begin(c, l), {}), 0, false)
  }

  // The receives of the loop for this stage.
  function Source(net: Network, stage: Stage): Socket
    requires stage != Probing
  {
    match stage
    case Greeting => net.hello
    case Committing => net.commit
    case SendingDh1 => net.dh
    case SendingDh2 => net.dh
    case Confirming1 => net.confirm
    case Confirming2 => net.confirm
  }

  // What the receive the endpoint is at brings.
  function Arrival(net: Network, t: Thread): Option<seq<u8>>
    requires t.side.s.phase.At?
  {
    if t.side.s.phase.stage != Probing then Source(net, t.side.s.phase.stage)(t.tries)
    else if t.tries < |net.waiting| then Some(net.waiting[t.tries])
    else None
  }

  predicate Receives(t: Thread) {
    t.side.s.phase.At? && (t.side.s.phase.stage == Probing || t.out)
  }

  function Sent(t: Thread): Thread
    requires t.side.s.phase.At?
  {
    if t.tries >= Limit(t.side.s.phase.stage) then t.(side := Side(Abandon(t.side.s), t.side.sent))
    else t.(side := Side(t.side.s, t.side.sent + Current(t.side.s)), out := true)
  }

  function Received(c: Crypto, l: Local, t: Thread, arrival: Option<seq<u8>>): Thread
    requires t.side.s.phase.At?
  {
    match arrival
    case None => Thread(Side(TakeInitiative(t.side.s), t.side.sent), if t.side.s.phase.stage == Probing then 0 else t.tries + 1, false)
    case Some(m) =>
      var next := Receive(c, l, t.side.s, m);
      Thread(Side(next, t.side.sent + Reply(c, t.side.s, m, next)), if next.phase == t.side.s.phase then t.tries + 1 else 0, false)
  }

  // One socket call.
  function Step(c: Crypto, l: Local, net: Network, t: Thread): Thread {
    if Receives(t) then Received(c, l, t, Arrival(net, t))
    else if t.side.s.phase.At? then Sent(t)
    else t
  }

  // ----- one endpoint -----

  // The rest of the handshake, from the try a thread is at.
  function Rest(c: Crypto, l: Local, net: Network, side: Side, i: nat): Side {
    match side.s.phase
    case At(Probing) => if i > |net.waiting| then side else Drained(c, l, Drain(c, l, side, net.waiting[i..]), net)
    case At(stage) =>
      if i > Limit(stage) then side
      else Follows(c, l, net, stage, Loop(c, l, side, Source(net, stage), i, Limit(stage)))
    case _ => side
  }

  // What comes after the loop of a stage.
  function Follows(c: Crypto, l: Local, net: Network, stage: Stage, side: Side): Side {
    match stage
    case Greeting => Greeted(c, l, side, net)
    case Probing => Drained(c, l, side, net)
    case Committing => Agreed(c, l, side, net)
    case SendingDh1 => Exchanged(c, l, side, net)
    case SendingDh2 => Exchanged(c, l, side, net)
    case Confirming1 => side
    case Confirming2 => side
  }

  // The loop that follows starts at its first try.
  lemma FollowsIsRest(c: Crypto, l: Local, net: Network, stage: Stage, side: Side)
    requires Leads(stage, side.s)
    ensures Follows(c, l, net, stage, side) == Rest(c, l, net, side, 0)
  {
    hide Loop, Drain;
    assert net.waiting[0..] == net.waiting;
  }

  predicate Sound(net: Network, t: Thread) {
    t.side.s.phase.At? ==>
      && (t.side.s.phase.stage == Committing ==> t.side.s.role == Initiator)
      && (t.out ==> t.side.s.phase.stage != Probing && t.tries < Limit(t.side.s.phase.stage) && Current(t.side.s) <= t.side.sent)
      && t.tries <= (if t.side.s.phase.stage == Probing then |net.waiting| else Limit(t.side.s.phase.stage))
  }

  // Sending first and receiving later is one turn of the loop.
  lemma SentStep(c: Crypto, l: Local, net: Network, t: Thread)
    requires Sound(net, t) && t.side.s.phase.At? && !Receives(t)
    ensures Sound(net, Sent(t)) && Rest(c, l, net, Sent(t).side, Sent(t).tries) == Rest(c, l, net, t.side, t.tries)
  {
    hide Current, Receive, Reply, Loop, Greeted, Drained, Agreed, Exchanged;
    var stage := t.side.s.phase.stage;
    var recv := Source(net, stage);
    if t.tries == Limit(stage) {
      LoopEnd(c, l, t.side, recv, t.tries);
      FollowsIsRest(c, l, net, stage, Sent(t).side);
    } else {
      LoopStep(c, l, t.side, recv, t.tries, Limit(stage));
      LoopStep(c, l, Sent(t).side, recv, t.tries, Limit(stage));
      assert Sent(t).side.sent + Current(t.side.s) == Sent(t).side.sent;
    }
  }

  lemma ReceivedStep(c: Crypto, l: Local, net: Network, t: Thread)
    requires Sound(net, t) && Receives(t) && t.side.s.phase.stage != Probing
    ensures var next := Received(c, l, t, Arrival(net, t));
            Sound(net, next) && Rest(c, l, net, next.side, next.tries) == Rest(c, l, net, t.side, t.tries)
  {
    hide Current, Receive, Reply, Loop, Greeted, Drained, Agreed, Exchanged;
    var stage := t.side.s.phase.stage;
    var next := Received(c, l, t, Arrival(net, t));
    LoopStep(c, l, t.side, Source(net, stage), t.tries, Limit(stage));
    assert t.side.sent + Current(t.side.s) == t.side.sent;
    assert Turn(c, l, t.side, Arrival(net, t)) == next.side;
    if Arrival(net, t).Some? {
      ReceiveLeads(c, l, t.side.s, Arrival(net, t).value);
    }
    if next.side.s.phase != t.side.s.phase {
      FollowsIsRest(c, l, net, stage, next.side);
    }
  }

  lemma DrainedStep(c: Crypto, l: Local, net: Network, t: Thread)
    requires Sound(net, t) && t.side.s.phase == At(Probing)
    ensures var next := Received(c, l, t, Arrival(net, t));
            Sound(net, next) && Rest(c, l, net, next.side, next.tries) == Rest(c, l, net, t.side, t.tries)
  {
    hide Receive, Loop, Drained;
    var next := Received(c, l, t, Arrival(net, t));
    var waiting := net.waiting[t.tries..];
    assert next.side.sent == t.side.sent;
    if t.tries < |net.waiting| {
      assert waiting[0] == net.waiting[t.tries] && waiting[1..] == net.waiting[t.tries + 1..];
      ReceiveLeads(c, l, t.side.s, waiting[0]);
    }
    if next.side.s.phase != t.side.s.phase {
      FollowsIsRest(c, l, net, Probing, next.side);
    }
  }

  lemma StepKeepsRest(c: Crypto, l: Local, net: Network, t: Thread)
    requires Sound(net, t)
    ensures var next := Step(c, l, net, t);
            Sound(net, next) && Rest(c, l, net, next.side, next.tries) == Rest(c, l, net, t.side, t.tries)
  {
    hide Sound, Rest, Received, Sent, Arrival;
    if Receives(t) {
      if t.side.s.phase.stage == Probing {
        DrainedStep(c, l, net, t);
      } else {
        ReceivedStep(c, l, net, t);
      }
    } else if t.side.s.phase.At? {
      SentStep(c, l, net, t);
    }
  }

  lemma StartSound(c: Crypto, l: Local, net: Network)
    ensures Sound(net, Start(c, l)) && Rest(c, l, net, Start(c, l).side, 0) == Handshake(c, l, net)
  {
    hide Begin, Loop, Greeted;
    BeginAt(c, l);
  }

  // ----- two endpoints -----

  datatype Joint = Joint(a: Thread, b: Thread)

  function Of(j: Joint, atA: bool): Thread {
    if atA then j.a else j.b
  }

  function Sides(j: Joint): World {
    World(j.a.side, j.b.side)
  }

  function Net(na: Network, nb: Network, atA: bool): Network {
    if atA then na else nb
  }

  // Both endpoints after some socket calls; the schedule says whose turn it is.
  function JointAfter(c: Crypto, la: Local, lb: Local, na: Network, nb: Network, turns: seq<bool>): Joint {
    if turns == [] then Joint(Start(c, la), Start(c, lb))
    else
      var j := JointAfter(c, la, lb, na, nb, turns[..|turns| - 1]);
      if turns[|turns| - 1] then j.(a := Step(c, la, na, j.a)) else j.(b := Step(c, lb, nb, j.b))
  }

  // What is about to be received has been sent by the other side.
  predicate Heard(net: Network, t: Thread, theirs: Side) {
    Receives(t) && Arrival(net, t).Some? ==> Arrival(net, t).value in theirs.sent
  }

  // Nothing is received before it was sent.
  predicate Causal(c: Crypto, la: Local, lb: Local, na: Network, nb: Network, turns: seq<bool>) {
    turns != [] ==>
      var init, atA := turns[..|turns| - 1], turns[|turns| - 1];
      var j := JointAfter(c, la, lb, na, nb, init);
      Causal(c, la, lb, na, nb, init) && Heard(Net(na, nb, atA), Of(j, atA), Of(j, !atA).side)
  }

  lemma {:induction false} CausalPrefix(c: Crypto, la: Local, lb: Local, na: Network, nb: Network, turns: seq<bool>, more: seq<bool>)
    requires Causal(c, la, lb, na, nb, turns + more)
    ensures Causal(c, la, lb, na, nb, turns)
    decreases |more|
  {
    hide JointAfter, Heard;
    if more == [] {
      assert turns + more == turns;
    } else {
      assert (turns + more)[..|turns + more| - 1] == turns + more[..|more| - 1];
      CausalPrefix(c, la, lb, na, nb, turns, more[..|more| - 1]);
    }
  }

  // Each socket call is an event of the protocol, or none.
  lemma StepIsEvent(c: Crypto, la: Local, lb: Local, events: seq<Event>, atA: bool, net: Network, t: Thread)
    returns (rest: seq<Event>)
    requires Mine(After(c, la, lb, events), atA) == t.side && Heard(net, t, Mine(After(c, la, lb, events), !atA))
    ensures Mine(After(c, la, lb, events + rest), atA) == Step(c, Own(la, lb, atA), net, t).side
    ensures Mine(After(c, la, lb, events + rest), !atA) == Mine(After(c, la, lb, events), !atA)
  {
    hide After, Receive, Reply, Current, Arrival;
    if !t.side.s.phase.At? {
      rest := [];
      assert events + rest == events;
    } else {
      var action :=
        if Receives(t) then
          match Arrival(net, t)
          case None => Proceed
          case Some(m) => Take(m)
        else if t.tries >= Limit(t.side.s.phase.stage) then GiveUp
        else Send;
      AfterOne(c, la, lb, events, Event(atA, action));
      rest := [Event(atA, action)];
    }
  }

  // Every state two endpoints reach together is a state of the protocol, and
  // what they do from there on continues its run.
  lemma {:induction false} JointExtends(c: Crypto, la: Local, lb: Local, na: Network, nb: Network,
                                        turns: seq<bool>, events: seq<Event>, more: seq<bool>)
    returns (rest: seq<Event>)
    requires Causal(c, la, lb, na, nb, turns + more)
    requires After(c, la, lb, events) == Sides(JointAfter(c, la, lb, na, nb, turns))
    ensures After(c, la, lb, events + rest) == Sides(JointAfter(c, la, lb, na, nb, turns + more))
    decreases |more|
  {
    hide After, Step, Heard, Begin;
    if more == [] {
      rest := [];
      assert events + rest == events && turns + more == turns;
    } else {
      var init, atA := more[..|more| - 1], more[|more| - 1];
      assert (turns + more)[..|turns + more| - 1] == turns + init;
      var before := JointExtends(c, la, lb, na, nb, turns, events, init);
      var j := JointAfter(c, la, lb, na, nb, turns + init);
      var last := StepIsEvent(c, la, lb, events + before, atA, Net(na, nb, atA), Of(j, atA));
      rest := before + last;
      assert events + rest == (events + before) + last;
    }
  }

  lemma JointIsRun(c: Crypto, la: Local, lb: Local, na: Network, nb: Network, turns: seq<bool>) returns (events: seq<Event>)
    requires Causal(c, la, lb, na, nb, turns)
    ensures After(c, la, lb, events) == Sides(JointAfter(c, la, lb, na, nb, turns))
  {
    hide After, Begin;
    NothingHappened(c, la, lb);
    assert [] + turns == turns;
    events := JointExtends(c, la, lb, na, nb, [], [], turns);
    assert [] + events == events;
  }

  lemma NothingHappened(c: Crypto, la: Local, lb: Local)
    ensures After(c, la, lb, []) == World(Side(Begin(c, la), {}), Side(Begin(c, lb), {}))
  {
  }

  // What is left to each side leads to what init_dhm returns.
  lemma {:induction false} JointEndsAsHandshake(c: Crypto, la: Local, lb: Local, na: Network, nb: Network, turns: seq<bool>)
    ensures var j := JointAfter(c, la, lb, na, nb, turns);
            && Sound(na, j.a) && Rest(c, la, na, j.a.side, j.a.tries) == Handshake(c, la, na)
            && Sound(nb, j.b) && Rest(c, lb, nb, j.b.side, j.b.tries) == Handshake(c, lb, nb)
    decreases |turns|
  {
    hide Step, Sound, Rest, Handshake, Start;
    if turns == [] {
      StartSound(c, la, na);
      StartSound(c, lb, nb);
      NoTries(c, la);
      NoTries(c, lb);
    } else {
      var init := turns[..|turns| - 1];
      JointEndsAsHandshake(c, la, lb, na, nb, init);
      var j := JointAfter(c, la, lb, na, nb, init);
      StepKeepsRest(c, la, na, j.a);
      StepKeepsRest(c, lb, nb, j.b);
    }
  }

  lemma NoTries(c: Crypto, l: Local)
    ensures Start(c, l).tries == 0
  {
  }

  // Once an endpoint has finished, its init_dhm has returned this state.
  lemma FinishedIsHandshake(c: Crypto, la: Local, lb: Local, na: Network, nb: Network, turns: seq<bool>, atA: bool)
    requires Finished(Of(JointAfter(c, la, lb, na, nb, turns), atA).side)
    ensures Of(JointAfter(c, la, lb, na, nb, turns), atA).side == Handshake(c, Own(la, lb, atA), Net(na, nb, atA))
  {
    hide JointAfter, Handshake, Sound;
    JointEndsAsHandshake(c, la, lb, na, nb, turns);
  }

  // Neither side is rejected, the roles exclude each other, and if the
  // initiator has succeeded so has the responder, with the same keys.
  predicate EndWell(la: Local, lb: Local, x: Session, y: Session) {
    && !x.phase.Rejected? && !y.phase.Rejected?
    && !(LeftAs(x, Responder) && LeftAs(y, Responder)) && !(LeftAs(x, Initiator) && LeftAs(y, Initiator))
    && (x.phase == Done && x.role == Initiator ==> y.phase == Done)
    && (y.phase == Done && y.role == Initiator ==> x.phase == Done)
    && (x.phase == Done && y.phase == Done ==>
          x.keys == y.keys && x.role != y.role && x.rZid == lb.zid && y.rZid == la.zid)
  }

  // Two calls of init_dhm whose sends and receives interleave in any way: once
  // both have returned, they end well, and what they return is a state of the
  // protocol.
  lemma EndpointsAgree(c: Crypto, la: Local, lb: Local, na: Network, nb: Network, turns: seq<bool>)
    requires c.Lawful() && Causal(c, la, lb, na, nb, turns)
    ensures var j := JointAfter(c, la, lb, na, nb, turns);
            Finished(j.a.side) && Finished(j.b.side) ==>
              && EndWell(la, lb, Handshake(c, la, na).s, Handshake(c, lb, nb).s)
              && exists events :: After(c, la, lb, events) == World(Handshake(c, la, na), Handshake(c, lb, nb))
  {
    hide After, Handshake, JointAfter, Causal, LeftAs, Validates, DhOf, KindOf;
    var j := JointAfter(c, la, lb, na, nb, turns);
    if Finished(j.a.side) && Finished(j.b.side) {
      FinishedIsHandshake(c, la, lb, na, nb, turns, true);
      FinishedIsHandshake(c, la, lb, na, nb, turns, false);
      var events := JointIsRun(c, la, lb, na, nb, turns);
      CompletionOrder(c, la, lb, events, true);
      CompletionOrder(c, la, lb, events, false);
      RolesExclusive(c, la, lb, events);
      NotBoth(Handshake(c, la, na).s);
      NotBoth(Handshake(c, lb, nb).s);
      KeyAgreement(c, la, lb, events);
    }
  }

  // The initiator succeeds last: once its init_dhm has returned success, so
  // has the responder's, with the same keys.
  lemma InitiatorSucceedsLast(c: Crypto, la: Local, lb: Local, na: Network, nb: Network, turns: seq<bool>, atA: bool)
    requires c.Lawful() && Causal(c, la, lb, na, nb, turns)
    requires Finished(Of(JointAfter(c, la, lb, na, nb, turns), atA).side)
    ensures var i, r := Handshake(c, Own(la, lb, atA), Net(na, nb, atA)).s, Handshake(c, Own(la, lb, !atA), Net(na, nb, !atA)).s;
            i.phase == Done && i.role == Initiator ==> r.phase == Done && r.role == Responder && r.keys == i.keys
  {
    hide After, Handshake, JointAfter, Causal, LeftAs, Validates, DhOf, KindOf;
    FinishedIsHandshake(c, la, lb, na, nb, turns, atA);
    var events := JointIsRun(c, la, lb, na, nb, turns);
    CompletionOrder(c, la, lb, events, atA);
    KeyAgreement(c, la, lb, events);
    var i := Handshake(c, Own(la, lb, atA), Net(na, nb, atA)).s;
    if i.phase == Done && i.role == Initiator {
      FinishedIsHandshake(c, la, lb, na, nb, turns, !atA);
    }
  }

  // Equal hash values: once both endpoints send Commit, both init_dhm time out
  // in that loop, whatever arrives.
  lemma TieTimesOut(c: Crypto, la: Local, lb: Local, na: Network, nb: Network, turns: seq<bool>, more: seq<bool>)
    requires c.Lawful() && Causal(c, la, lb, na, nb, turns + more)
    requires Tied(c, la, lb, Sides(JointAfter(c, la, lb, na, nb, turns)))
    requires var j := JointAfter(c, la, lb, na, nb, turns + more); Finished(j.a.side) && Finished(j.b.side)
    ensures Handshake(c, la, na).s.phase == Handshake(c, lb, nb).s.phase == TimedOut(Committing)
  {
    hide After, Handshake, JointAfter, Causal, HviOf;
    CausalPrefix(c, la, lb, na, nb, turns, more);
    var events := JointIsRun(c, la, lb, na, nb, turns);
    var rest := JointExtends(c, la, lb, na, nb, turns, events, more);
    TieNeverResolved(c, la, lb, events, rest);
    EndpointsAgree(c, la, lb, na, nb, turns + more);
    FinishedIsHandshake(c, la, lb, na, nb, turns + more, true);
    FinishedIsHandshake(c, la, lb, na, nb, turns + more, false);
  }

  // ----- two endpoints that succeed -----

  // What a session at this stage sends.
  function Spoken(c: Crypto, me: Local, peer: Local, stage: Stage): seq<u8>
    requires stage != Probing
  {
    match stage
    case Greeting => HelloOf(c, me)
    case Committing => CommitOf(c, me, peer)
    case SendingDh1 => DhOf(c, me, Responder)
    case SendingDh2 => DhOf(c, me, Initiator)
    case Confirming1 => Confirm1Of(c, peer, me)
    case Confirming2 => Confirm2Of(c, me, peer)
  }

  lemma CurrentIsSpoken(c: Crypto, me: Local, peer: Local, s: Session)
    requires SessionOk(c, me, peer, s) && s.phase.At? && s.phase.stage != Probing
    ensures Current(s) == {Spoken(c, me, peer, s.phase.stage)}
  {
    hide HelloOf, CommitOf, DhOf, HviOf, KeysOf, Confirm1Of, Confirm2Of, AreWeInitiator;
  }

  lemma SpokenKind(c: Crypto, me: Local, peer: Local, s: Session)
    requires c.Lawful() && SessionOk(c, me, peer, s) && s.phase.At? && s.phase.stage != Probing
    ensures KindOf(Spoken(c, me, peer, s.phase.stage)) == Sends(s.phase.stage)
  {
    hide SessionOk, Current, Spoken, KindOf;
    SendsItsKind(c, me, peer, s);
    CurrentIsSpoken(c, me, peer, s);
    var m :| Current(s) == {m} && KindOf(m) == Sends(s.phase.stage);
    assert Spoken(c, me, peer, s.phase.stage) in {m};
  }

  // An endpoint at the start of the tries of a stage.
  predicate Ready(t: Thread, stage: Stage) {
    t.side.s.phase == At(stage) && !t.out && t.tries <= 1
  }

  // It sends its message.
  lemma Speaks(c: Crypto, la: Local, lb: Local, na: Network, nb: Network, turns: seq<bool>, atA: bool, stage: Stage)
    requires c.Lawful() && Causal(c, la, lb, na, nb, turns) && stage != Probing
    requires Ready(Of(JointAfter(c, la, lb, na, nb, turns), atA), stage)
    ensures Causal(c, la, lb, na, nb, turns + [atA])
    ensures var j, k := JointAfter(c, la, lb, na, nb, turns), JointAfter(c, la, lb, na, nb, turns + [atA]);
            var m := Spoken(c, Own(la, lb, atA), Own(la, lb, !atA), stage);
            && Of(k, !atA) == Of(j, !atA)
            && Of(k, atA) == Of(j, atA).(side := Side(Of(j, atA).side.s, Of(j, atA).side.sent + {m}), out := true)
            && KindOf(m) == Sends(stage)
  {
    hide SessionOk, Paired, SentOk, After, Current, Spoken;
    var events := JointIsRun(c, la, lb, na, nb, turns);
    RunKeeps(c, la, lb, events);
    assert (turns + [atA])[..|turns|] == turns;
    var t := Of(JointAfter(c, la, lb, na, nb, turns), atA);
    CurrentIsSpoken(c, Own(la, lb, atA), Own(la, lb, !atA), t.side.s);
    SpokenKind(c, Own(la, lb, atA), Own(la, lb, !atA), t.side.s);
  }

  // It receives the message the loop waits for.
  lemma Hears(c: Crypto, la: Local, lb: Local, na: Network, nb: Network, turns: seq<bool>, atA: bool, m: seq<u8>)
    requires c.Lawful() && Causal(c, la, lb, na, nb, turns)
    requires var j := JointAfter(c, la, lb, na, nb, turns);
             var t := Of(j, atA);
             && Receives(t) && m in Of(j, !atA).side.sent && Arrival(Net(na, nb, atA), t) == Some(m)
             && KindOf(m) == Some(Awaited(t.side.s.phase.stage)) && (t.side.s.phase.stage == Greeting ==> t.side.s.rHello != [])
    ensures Causal(c, la, lb, na, nb, turns + [atA])
    ensures var j, k := JointAfter(c, la, lb, na, nb, turns), JointAfter(c, la, lb, na, nb, turns + [atA]);
            var s, t := Of(j, atA).side.s, Of(k, atA);
            && Of(k, !atA) == Of(j, !atA)
            && t.side.s.phase == Reached(s.phase.stage) && t.tries == 0 && !t.out
            && Of(j, atA).side.sent <= t.side.sent
            && (s.phase.stage == Confirming1 ==> s.confAck in t.side.sent)
  {
    hide SessionOk, Paired, SentOk, After, Current, Receive, KindOf, Arrival;
    var events := JointIsRun(c, la, lb, na, nb, turns);
    RunKeeps(c, la, lb, events);
    assert (turns + [atA])[..|turns|] == turns;
    var j := JointAfter(c, la, lb, na, nb, turns);
    var me, peer := Own(la, lb, atA), Own(la, lb, !atA);
    MovesOn(c, me, peer, Of(j, atA).side.s, Of(j, !atA).side.s, m);
  }

  // It receives the peer's Hello and answers it.
  lemma Greets(c: Crypto, la: Local, lb: Local, na: Network, nb: Network, turns: seq<bool>, atA: bool, m: seq<u8>)
    requires c.Lawful() && Causal(c, la, lb, na, nb, turns)
    requires var j := JointAfter(c, la, lb, na, nb, turns);
             var t := Of(j, atA);
             && Receives(t) && t.side.s.phase == At(Greeting) && t.side.s.rHello == [] && t.tries == 0
             && m in Of(j, !atA).side.sent && Arrival(Net(na, nb, atA), t) == Some(m) && KindOf(m) == Some(Hello)
    ensures Causal(c, la, lb, na, nb, turns + [atA])
    ensures var j, k := JointAfter(c, la, lb, na, nb, turns), JointAfter(c, la, lb, na, nb, turns + [atA]);
            var t := Of(k, atA);
            && Of(k, !atA) == Of(j, !atA)
            && Ready(t, Greeting) && t.side.s.rHello != [] && t.tries == 1 && HelloAckMsg(c) in t.side.sent
  {
    hide SessionOk, Paired, SentOk, After, Current, Receive, KindOf, Arrival, HelloAckMsg, Reply;
    var events := JointIsRun(c, la, lb, na, nb, turns);
    RunKeeps(c, la, lb, events);
    assert (turns + [atA])[..|turns|] == turns;
    var j := JointAfter(c, la, lb, na, nb, turns);
    GreetsBack(c, Own(la, lb, atA), Own(la, lb, !atA), Of(j, atA).side.s, Of(j, !atA).side.s, m);
  }

  // Nothing is waiting, and it takes the initiative.
  lemma Initiates(c: Crypto, la: Local, lb: Local, na: Network, nb: Network, turns: seq<bool>, atA: bool)
    requires Causal(c, la, lb, na, nb, turns) && Net(na, nb, atA).waiting == []
    requires Of(JointAfter(c, la, lb, na, nb, turns), atA).side.s.phase == At(Probing)
    ensures Causal(c, la, lb, na, nb, turns + [atA])
    ensures var j, k := JointAfter(c, la, lb, na, nb, turns), JointAfter(c, la, lb, na, nb, turns + [atA]);
            && Of(k, !atA) == Of(j, !atA)
            && Ready(Of(k, atA), Committing)
  {
    hide Current;
    assert (turns + [atA])[..|turns|] == turns;
  }

  // Networks that lose nothing.
  function ToInitiator(c: Crypto, la: Local, lb: Local): Network {
    Network(i => Some(if i == 0 then HelloOf(c, lb) else HelloAckMsg(c)), [],
            i => Some(DhOf(c, lb, Responder)), i => Some(Confirm1Of(c, la, lb)), i => Some(Conf2AckMsg(c, lb, 5)))
  }

  function ToResponder(c: Crypto, la: Local, lb: Local): Network {
    Network(i => Some(if i == 0 then HelloOf(c, la) else HelloAckMsg(c)), [CommitOf(c, la, lb)],
            i => None, i => Some(DhOf(c, la, Initiator)), i => Some(Confirm2Of(c, la, lb)))
  }

  // The peer's Hello arrives first, then its HelloACK.
  predicate GreetsFirst(c: Crypto, peer: Local, net: Network) {
    net.hello(0) == Some(HelloOf(c, peer)) && net.hello(1) == Some(HelloAckMsg(c))
  }

  lemma JointGreetings(c: Crypto, la: Local, lb: Local, na: Network, nb: Network) returns (turns: seq<bool>)
    requires c.Lawful() && GreetsFirst(c, lb, na) && GreetsFirst(c, la, nb)
    ensures var j := JointAfter(c, la, lb, na, nb, turns);
            Causal(c, la, lb, na, nb, turns) && Ready(j.a, Probing) && Ready(j.b, Probing) && j.a.tries == j.b.tries == 0
  {
    hide HelloMsg, HelloAckMsg, KindOf, CommitOf, DhOf, Confirm1Of, Confirm2Of, Conf2AckMsg, Begin;
    BeginAt(c, la);
    BeginAt(c, lb);
    HelloAckReadsBack(c);
    assert Causal(c, la, lb, na, nb, []);
    assert JointAfter(c, la, lb, na, nb, []) == Joint(Start(c, la), Start(c, lb));
    hide JointAfter, Causal;
    turns := [];
    Speaks(c, la, lb, na, nb, turns, true, Greeting);
    turns := turns + [true];
    Speaks(c, la, lb, na, nb, turns, false, Greeting);
    turns := turns + [false];
    Greets(c, la, lb, na, nb, turns, true, HelloOf(c, lb));
    turns := turns + [true];
    Greets(c, la, lb, na, nb, turns, false, HelloOf(c, la));
    turns := turns + [false];
    Speaks(c, la, lb, na, nb, turns, true, Greeting);
    turns := turns + [true];
    Speaks(c, la, lb, na, nb, turns, false, Greeting);
    turns := turns + [false];
    Hears(c, la, lb, na, nb, turns, true, HelloAckMsg(c));
    turns := turns + [true];
    Hears(c, la, lb, na, nb, turns, false, HelloAckMsg(c));
    turns := turns + [false];
  }

  lemma JointAgreement(c: Crypto, la: Local, lb: Local) returns (turns: seq<bool>)
    requires c.Lawful()
    ensures var na, nb := ToInitiator(c, la, lb), ToResponder(c, la, lb);
            var j := JointAfter(c, la, lb, na, nb, turns);
            Causal(c, la, lb, na, nb, turns) && Ready(j.a, SendingDh2) && j.b.side.s.phase == At(SendingDh1) && j.b.out
  {
    hide JointAfter, Causal, HelloOf, KindOf, CommitOf, DhOf, Confirm1Of, Confirm2Of, Conf2AckMsg, HelloAckMsg;
    var na, nb := ToInitiator(c, la, lb), ToResponder(c, la, lb);
    turns := JointGreetings(c, la, lb, na, nb);
    Initiates(c, la, lb, na, nb, turns, true);
    turns := turns + [true];
    Speaks(c, la, lb, na, nb, turns, true, Committing);
    turns := turns + [true];
    Hears(c, la, lb, na, nb, turns, false, CommitOf(c, la, lb));
    turns := turns + [false];
    Speaks(c, la, lb, na, nb, turns, false, SendingDh1);
    turns := turns + [false];
    Hears(c, la, lb, na, nb, turns, true, DhOf(c, lb, Responder));
    turns := turns + [true];
  }

  // Both calls of init_dhm can succeed.
  lemma BothSucceed(c: Crypto, la: Local, lb: Local)
    requires c.Lawful()
    ensures exists na, nb, turns :: Causal(c, la, lb, na, nb, turns)
                                    && Of(JointAfter(c, la, lb, na, nb, turns), true).side.s.phase == Done
                                    && Of(JointAfter(c, la, lb, na, nb, turns), false).side.s.phase == Done
                                    && Handshake(c, la, na).s.phase == Done && Handshake(c, lb, nb).s.phase == Done
  {
    hide JointAfter, Causal, HelloOf, KindOf, CommitOf, DhOf, Confirm1Of, Confirm2Of, Conf2AckMsg, HelloAckMsg, Handshake;
    var na, nb := ToInitiator(c, la, lb), ToResponder(c, la, lb);
    var turns := JointAgreement(c, la, lb);
    Speaks(c, la, lb, na, nb, turns, true, SendingDh2);
    turns := turns + [true];
    Hears(c, la, lb, na, nb, turns, false, DhOf(c, la, Initiator));
    turns := turns + [false];
    Speaks(c, la, lb, na, nb, turns, false, Confirming1);
    turns := turns + [false];
    Hears(c, la, lb, na, nb, turns, true, Confirm1Of(c, la, lb));
    turns := turns + [true];
    Speaks(c, la, lb, na, nb, turns, true, Confirming2);
    turns := turns + [true];
    AckWaits(c, la, lb, na, nb, turns);
    Hears(c, la, lb, na, nb, turns, false, Confirm2Of(c, la, lb));
    turns := turns + [false];
    Hears(c, la, lb, na, nb, turns, true, Conf2AckMsg(c, lb, 5));
    turns := turns + [true];
    FinishedIsHandshake(c, la, lb, na, nb, turns, true);
    FinishedIsHandshake(c, la, lb, na, nb, turns, false);
  }

  // Both sides can come to send Commit.
  lemma BothCommit(c: Crypto, la: Local, lb: Local) returns (turns: seq<bool>)
    requires c.Lawful()
    ensures var na, nb := ToInitiator(c, la, lb), ToInitiator(c, lb, la);
            var j := JointAfter(c, la, lb, na, nb, turns);
            Causal(c, la, lb, na, nb, turns) && Ready(j.a, Committing) && Ready(j.b, Committing)
  {
    hide JointAfter, Causal, HelloOf, KindOf, DhOf, Confirm1Of, Conf2AckMsg, HelloAckMsg;
    var na, nb := ToInitiator(c, la, lb), ToInitiator(c, lb, la);
    turns := JointGreetings(c, la, lb, na, nb);
    Initiates(c, la, lb, na, nb, turns, true);
    turns := turns + [true];
    Initiates(c, la, lb, na, nb, turns, false);
    turns := turns + [false];
  }

  // A tie of hash values is reachable, whatever the endpoints have drawn.
  lemma TieReachable(la: Local, lb: Local)
    ensures exists c: Crypto, na, nb, turns ::
              c.Lawful() && Causal(c, la, lb, na, nb, turns) && Tied(c, la, lb, Sides(JointAfter(c, la, lb, na, nb, turns)))
  {
    hide JointAfter, Causal, ToInitiator, HelloOf, DhMsg;
    LawfulExists();
    var c: Crypto :| c.Lawful() && forall x, y :: c.hash(x) == c.hash(y);
    var turns := BothCommit(c, la, lb);
    var na, nb := ToInitiator(c, la, lb), ToInitiator(c, lb, la);
    assert Tied(c, la, lb, Sides(JointAfter(c, la, lb, na, nb, turns)));
  }

  lemma AckWaits(c: Crypto, la: Local, lb: Local, na: Network, nb: Network, turns: seq<bool>)
    requires c.Lawful() && Causal(c, la, lb, na, nb, turns)
    requires JointAfter(c, la, lb, na, nb, turns).b.side.s.phase == At(Confirming1)
    ensures JointAfter(c, la, lb, na, nb, turns).b.side.s.confAck == Conf2AckMsg(c, lb, 5)
    ensures KindOf(Conf2AckMsg(c, lb, 5)) == Some(Conf2Ack)
  {
    hide After, JointAfter, Causal, HelloOf, KindOf, CommitOf, DhOf, KeysOf, HviOf, Confirm1Of, Confirm2Of, Conf2AckMsg;
    var events := JointIsRun(c, la, lb, na, nb, turns);
    RunKeeps(c, la, lb, events);
    Conf2AckReadsBack(c, lb, 5);
  }
}
