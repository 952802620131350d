/** Whole runs with inbound messages: what every acknowledgement and reset on the wire is due to. */
module ExchangeRuns {
  import opened Pdu
  import opened Reliability
  import opened ReliabilityRuns
  import opened Exchange

  /** A message arrives, a timer fires, or this endpoint sends something of its own. */
  datatype Input =
    | Arrival(message: Inbound, world: World)
    | Timeout(slot: nat, env: Env)
    | Request(packet: Packet, content: Content, reliable: bool, wait: Env)

  /** What can happen: timers fire only while armed, and random draws keep to their range. */
  ghost predicate InputOk(c: Config, s: State, i: Input) {
    match i
    case Arrival(m, w) => HeaderOk(m.header) && WorldOk(w) && forall k :: 0 <= k < 4 ==> Allowed(c, 0, w.env[k].wait)
    case Timeout(slot, env) => Enabled(c, s, Expiring(slot, env))
    case Request(p, m, reliable, env) => PacketOk(p) && Allowed(c, 0, env.wait)
  }

  ghost function Handle(c: Config, s: State, i: Input): Processed
    requires InputOk(c, s, i)
  {
    match i
    case Arrival(m, w) => Process(c, s, m, w)
    case Timeout(slot, env) => Processed(Expire(s, slot, env), Resent(s, slot, env), Done)
    case Request(p, m, reliable, env) => var r := Send(c, s, p, m, reliable, env); Processed(r.state, r.outs, r.outcome)
  }

  ghost predicate History(c: Config, states: seq<State>, inputs: seq<Input>) {
    && |states| == |inputs| + 1
    && forall n :: 0 <= n < |inputs| ==> InputOk(c, states[n], inputs[n]) && !Stopped(Handle(c, states[n], inputs[n]).outcome)
                                         && states[n + 1] == Handle(c, states[n], inputs[n]).state
  }

  /**
   * Which acknowledgements and resets an input can cause. One that arrives causes none or, if confirmable, at most one that
   * answers it, unless an answer is misformatted. A timeout causes none. A packet that this endpoint sends on its own account
   * is an acknowledgement exactly when it still answers a confirmable one.
   */
  ghost predicate Answers(c: Config, s: State, i: Input, outs: seq<Datagram>)
    requires InputOk(c, s, i)
  {
    match i
    case Arrival(m, w) =>
      && (m.header.kind == CON && !Misanswered(c, s, m, w) ==> AtMostOneTerminal(outs, m.remote, m.header.id))
      && (m.header.kind != CON ==> ((exists d <- outs :: Terminal(d)) <==> Misanswered(c, s, m, w)))
      && (Misanswered(c, s, m, w) ==>
            exists d <- outs :: Terminal(d) && (IdOf(d.bytes) == s.nextId % ID_COUNT || IdOf(d.bytes) == (s.nextId + 1) % ID_COUNT))
    case Timeout(_, _) => forall d <- outs :: !Terminal(d)
    case Request(p, m, _, env) =>
      && ((exists d <- outs :: Terminal(d)) <==> Piggybacks(p, m.code) && Delivered(c, p, env))
      && (forall d <- outs :: Terminal(d) ==> d.remote == p.remote && IdOf(d.bytes) == p.id)
  }

  lemma HandleOk(c: Config, s: State, i: Input)
    requires ConfigOk(c) && Inv(c, s) && InputOk(c, s, i)
    ensures Inv(c, Handle(c, s, i).state) && Answers(c, s, i, Handle(c, s, i).outs)
  {
    hide Inv;
    hide Process;
    hide Send;
    hide Misanswered;
    hide AtMostOneTerminal;
    hide Allowed;
    match i
    case Arrival(m, w) =>
      ProcessKeepsInv(c, s, m, w);
      ReplyDiscipline(c, s, m, w);
    case Timeout(slot, env) =>
      ExpireKeepsInv(c, s, slot, env);
      LiveOk(c, s, slot);
    case Request(p, m, reliable, env) =>
      hide Terminal;
      hide IdOf;
      hide KindOf;
      SendKeepsInv(c, s, p, m, reliable, env);
      SendOuts(c, s, p, m, reliable, env);
      SendTerminals(c, s, p, m, reliable, env);
  }

  /**
   * Over any history of arrivals, timeouts and own messages from initialisation on, pools stay consistent, and at every
   * step the acknowledgements and resets sent are exactly those that the input accounts for.
   */
  lemma {:induction false} WireDiscipline(c: Config, states: seq<State>, inputs: seq<Input>, n: nat)
    requires ConfigOk(c) && History(c, states, inputs) && Initial(states[0]) && n <= |inputs|
    ensures Inv(c, states[n])
    ensures forall k :: 0 <= k < n ==> InputOk(c, states[k], inputs[k]) && Answers(c, states[k], inputs[k], Handle(c, states[k], inputs[k]).outs)
    decreases n
  {
    hide Inv;
    hide Handle;
    hide InputOk;
    hide Answers;
    if n == 0 {
      InitialInv(c, states[0]);
    } else {
      WireDiscipline(c, states, inputs, n - 1);
      HandleOk(c, states[n - 1], inputs[n - 1]);
    }
  }

  /** What an application can see to: disciplined handlers, and no response of its own to a confirmable packet. */
  ghost predicate Careful(i: Input) {
    match i
    case Arrival(m, w) => if m.header.kind == CON then Disciplined(w) else Unreliable(w)
    case Timeout(_, _) => true
    case Request(p, m, _, _) => !Piggybacks(p, m.code)
  }

  /** With a careful application, each acknowledgement or reset ever sent answers the confirmable message that has just arrived. */
  lemma CarefulDiscipline(c: Config, states: seq<State>, inputs: seq<Input>, k: nat)
    requires ConfigOk(c) && History(c, states, inputs) && Initial(states[0]) && k < |inputs| && Careful(inputs[k])
    ensures InputOk(c, states[k], inputs[k])
    ensures var i, outs := inputs[k], Handle(c, states[k], inputs[k]).outs;
            if i.Arrival? && i.message.header.kind == CON then AtMostOneTerminal(outs, i.message.remote, i.message.header.id)
            else forall d <- outs :: !Terminal(d)
  {
    hide Inv;
    hide Handle;
    hide Misanswered;
    hide AtMostOneTerminal;
    hide Terminal;
    hide Disciplined;
    hide Unreliable;
    WireDiscipline(c, states, inputs, k + 1);
    if inputs[k].Arrival? { DisciplinedAnswers(c, states[k], inputs[k].message, inputs[k].world); }
  }

  // ---------------------------------------------------------------- what timeouts can send

  /** A live transmission holds the PDU that one of these datagrams brought to its remote. */
  ghost predicate SentBefore(l: Slot, outs: seq<Datagram>)
    requires l.Live?
  {
    Datagram(l.remote, l.pdu) in outs
  }

  /** Whatever is live in `s'` holds a PDU as in `s`, or one that was sent on the way. */
  ghost predicate Accounted(s: State, s': State, outs: seq<Datagram>) {
    && |s.slots| == |s'.slots|
    && forall i :: 0 <= i < |s'.slots| && s'.slots[i].Live? ==>
         || SentBefore(s'.slots[i], outs)
         || (s.slots[i].Live? && s.slots[i].remote == s'.slots[i].remote && s.slots[i].pdu == s'.slots[i].pdu)
  }

  lemma AccountedJoin(s: State, mid: State, s': State, a: seq<Datagram>, b: seq<Datagram>)
    requires Accounted(s, mid, a) && Accounted(mid, s', b)
    ensures Accounted(s, s', a + b)
  {
    forall i | 0 <= i < |s'.slots| && s'.slots[i].Live?
      ensures SentBefore(s'.slots[i], a + b)
              || (s.slots[i].Live? && s.slots[i].remote == s'.slots[i].remote && s.slots[i].pdu == s'.slots[i].pdu)
    {
      var d := Datagram(s'.slots[i].remote, s'.slots[i].pdu);
      if d in b || d in a { assert d in a + b; }
    }
  }

  lemma SendAccounted(c: Config, s: State, p: Packet, m: Content, reliable: bool, env: Env)
    requires PacketOk(p)
    ensures var r := Send(c, s, p, m, reliable, env); Accounted(s, r.state, r.outs)
  {
    hide Wire;
  }

  lemma BodyAccounted(c: Config, s: State, p: Packet, m: Content, reliable: bool, env: Env, retry: Env)
    requires PacketOk(p)
    ensures var r := SendBody(c, s, p, m, reliable, env, retry); Accounted(s, r.state, r.outs)
  {
    hide Send;
    hide Accounted;
    SendAccounted(c, s, p, m, reliable, env);
    SendOuts(c, s, p, m, reliable, env);
    var first, sorry := Send(c, s, p, m, reliable, env), Content(INTERNAL_ERROR, [], []);
    if first.outcome.Failed? {
      var second := Send(c, first.state, first.packet, sorry, false, retry);
      SendAccounted(c, first.state, first.packet, sorry, false, retry);
      AccountedJoin(s, first.state, second.state, first.outs, second.outs);
    }
  }

  lemma SameAccounted(s: State, remote: Endpoint, id: nat, outs: seq<Datagram>)
    ensures Accounted(s, s, outs) && Accounted(s, End(s, remote, id), outs)
  {
  }

  lemma ServeAccounted(c: Config, s: State, p: Packet, service: Service, w: World)
    requires PacketOk(p) && WorldOk(w)
    ensures var r := Serve(c, s, p, service, w); Accounted(s, r.state, r.outs)
  {
    hide SendBody;
    hide Accounted;
    hide Closing;
    SameAccounted(s, p.remote, p.id, []);
    ReplyPacketOk(c, s, p, service, w.env);
    var a, closing := SendReply(c, s, p, service, w.env), Closing(service, w);
    if service.reply.Reply? { BodyAccounted(c, s, p, service.reply.content, service.reliable, w.env[0], w.env[1]); }
    if closing.Reply? {
      BodyAccounted(c, a.state, a.packet, closing.content, service.reliable, w.env[2], w.env[3]);
      var b := SendBody(c, a.state, a.packet, closing.content, service.reliable, w.env[2], w.env[3]);
      AccountedJoin(s, a.state, b.state, a.outs, b.outs);
    }
  }

  lemma HandleAccounted(c: Config, s: State, i: Input)
    requires InputOk(c, s, i)
    ensures Accounted(s, Handle(c, s, i).state, Handle(c, s, i).outs)
  {
    hide Send;
    hide Serve;
    hide End;
    hide Allowed;
    match i
    case Arrival(m, w) =>
      hide Accounted;
      SameAccounted(s, m.remote, m.header.id, Handle(c, s, i).outs);
      var p := PacketOf(m);
      SendAccounted(c, s, p, Content(TOO_LARGE, Size1Bytes(w.blockSize), []), false, w.env[0]);
      if w.resolution.Refused? {
        SendAccounted(c, s, p, Content(w.resolution.code, [], []), false, w.env[0]);
      } else {
        ServeAccounted(c, s, p, w.resolution.service, w);
      }
    case Timeout(slot, env) =>
    case Request(p, m, reliable, env) =>
      SendAccounted(c, s, p, m, reliable, env);
  }

  /** Everything that the first `n` inputs put on the wire. */
  ghost function Wired(c: Config, states: seq<State>, inputs: seq<Input>, n: nat): seq<Datagram>
    requires History(c, states, inputs) && n <= |inputs|
  {
    if n == 0 then [] else Wired(c, states, inputs, n - 1) + Handle(c, states[n - 1], inputs[n - 1]).outs
  }

  lemma {:induction false} LiveWereSent(c: Config, states: seq<State>, inputs: seq<Input>, n: nat)
    requires History(c, states, inputs) && Initial(states[0]) && n <= |inputs|
    ensures forall i :: 0 <= i < |states[n].slots| && states[n].slots[i].Live? ==> SentBefore(states[n].slots[i], Wired(c, states, inputs, n))
    decreases n
  {
    hide Handle;
    hide InputOk;
    if n > 0 {
      LiveWereSent(c, states, inputs, n - 1);
      HandleAccounted(c, states[n - 1], inputs[n - 1]);
    }
  }

  /**
   * Over any history from initialisation on, a timeout puts nothing new on the wire: at most one datagram, which some earlier
   * input has brought to the same remote, byte for byte.
   */
  lemma TimeoutsRepeat(c: Config, states: seq<State>, inputs: seq<Input>, k: nat)
    requires History(c, states, inputs) && Initial(states[0]) && k < |inputs| && inputs[k].Timeout?
    ensures InputOk(c, states[k], inputs[k]) && |Handle(c, states[k], inputs[k]).outs| <= 1
    ensures forall d <- Handle(c, states[k], inputs[k]).outs :: d in Wired(c, states, inputs, k)
  {
    hide Wired;
    hide Allowed;
    LiveWereSent(c, states, inputs, k);
    hide History;
    assert SentBefore(states[k].slots[inputs[k].slot], Wired(c, states, inputs, k));
  }
}
