/**
 * Inbound messages: the message layer's reaction, request preprocessing and the server's replies, as functions on the
 * state of the message layer; and which acknowledgements and resets they can cause (sections 4.2 and 4.3 of RFC 7252).
 */
module Exchange {
  import opened Codec
  import opened Pdu
  import opened OptionUints
  import opened Reliability
  import opened ReliabilityRuns

  const INTERNAL_ERROR: Byte := 0xa0
  const TOO_LARGE: Byte := 0x8d
  const SIZE1 := 60
  const SIZE1_ROOM := 5

  datatype Reply = NoReply | Reply(content: Content)

  /** How a handler returns: with a status to send, ignoring the request, or with anything else. */
  datatype Verdict = Status(code: Byte) | Ignoring | Neither

  /** A resource's RELIABLE flag and what its handler does: at most one reply through the context, then a return value. */
  datatype Service = Service(reliable: bool, reply: Reply, verdict: Verdict)

  datatype Resolution = Found(service: Service) | Refused(code: Byte)

  /** Everything outside the message layer that processing depends on; `suppressed` means an optional response is held back. */
  datatype World = World(resolution: Resolution, assist: bool, suppressed: bool, blockSize: nat, env: seq<Env>)

  datatype Inbound = Inbound(remote: Endpoint, header: Header, payload: seq<Byte>, truncated: bool)

  /** `Passed` goes on to the next layer. */
  datatype Layer = Passed | Ignored | Protocol

  datatype Processed = Processed(state: State, outs: seq<Datagram>, outcome: Outcome)

  predicate WorldOk(w: World) {
    |w.env| == 4 && w.blockSize < UINT32
  }

  function PacketOf(m: Inbound): Packet {
    Packet(m.remote, m.header.kind, m.header.id, m.header.token, false)
  }

  predicate Stopped(o: Outcome) {
    o == Crash || o == Overrun
  }

  /** `_process_messaging_layer`. */
  function MessageLayer(s: State, m: Inbound, env: Env): (State, seq<Datagram>, Layer)
    requires HeaderOk(m.header)
  {
    var h := m.header;
    if h.code == 0 && m.payload != [] then (s, [], Protocol)
    else if h.kind == ACK then
      (End(s, m.remote, h.id), [], if h.code == 0 then Ignored else if IsResponse(h.code) then Passed else Protocol)
    else if h.kind == RST then
      (End(s, m.remote, h.id), [], if h.code == 0 then Ignored else Protocol)
    else if h.code == 0 then
      (s, if h.kind == CON then EmptyMessage(m.remote, RST, h.id, env) else [], Ignored)
    else
      (s, [], Passed)
  }

  /** `unicoap_server_send_response_body`: a failing send is followed by an attempt at an empty 5.00 without RELIABLE. */
  function SendBody(c: Config, s: State, p: Packet, m: Content, reliable: bool, env: Env, retry: Env): Sent
    requires PacketOk(p)
  {
    FormatOk(p, m.code, reliable, s.nextId);
    var first := Send(c, s, p, m, reliable, env);
    if !first.outcome.Failed? then first
    else
      var second := Send(c, first.state, first.packet, Content(INTERNAL_ERROR, [], []), false, retry);
      Sent(second.state, second.packet, first.outs + second.outs, if Stopped(second.outcome) then second.outcome else first.outcome)
  }

  lemma SendBodyOk(c: Config, s: State, p: Packet, m: Content, reliable: bool, env: Env, retry: Env)
    requires PacketOk(p)
    ensures PacketOk(SendBody(c, s, p, m, reliable, env, retry).packet)
  {
    FormatOk(p, m.code, reliable, s.nextId);
    var first := Send(c, s, p, m, reliable, env);
    if first.outcome.Failed? { FormatOk(first.packet, INTERNAL_ERROR, false, first.state.nextId); }
  }

  /** The text that a handler that did not respond is reported with. */
  const APPLICATION: seq<Byte> := [0x61, 0x70, 0x70, 0x6c, 0x69, 0x63, 0x61, 0x74, 0x69, 0x6f, 0x6e]

  /** What the handler sends through its context. */
  function SendReply(c: Config, s: State, p: Packet, service: Service, env: seq<Env>): Sent
    requires PacketOk(p) && |env| == 4
  {
    if service.reply.Reply? then SendBody(c, s, p, service.reply.content, service.reliable, env[0], env[1]) else Sent(s, p, [], Done)
  }

  /** What the server sends for the handler's return value, if anything. */
  function Closing(service: Service, w: World): Reply {
    match service.verdict
    case Status(code) => if w.suppressed then NoReply else Reply(Content(code, [], []))
    case Ignoring => NoReply
    case Neither => if service.reply.NoReply? && w.assist then Reply(Content(INTERNAL_ERROR, [], APPLICATION)) else NoReply
  }

  /** `unicoap_server_process_request`. */
  function Serve(c: Config, s: State, p: Packet, service: Service, w: World): Sent
    requires PacketOk(p) && WorldOk(w)
  {
    var a := SendReply(c, s, p, service, w.env);
    var closing := Closing(service, w);
    if Stopped(a.outcome) || closing.NoReply? then a
    else
      ReplyPacketOk(c, s, p, service, w.env);
      var b := SendBody(c, a.state, a.packet, closing.content, service.reliable, w.env[2], w.env[3]);
      Sent(b.state, b.packet, a.outs + b.outs, b.outcome)
  }

  lemma ReplyPacketOk(c: Config, s: State, p: Packet, service: Service, env: seq<Env>)
    requires PacketOk(p) && |env| == 4
    ensures PacketOk(SendReply(c, s, p, service, env).packet)
  {
    if service.reply.Reply? { SendBodyOk(c, s, p, service.reply.content, service.reliable, env[0], env[1]); }
  }

  /** The Size1 option of the answer to a truncated request, in five bytes of storage. */
  function Size1Bytes(blockSize: nat): seq<Byte>
    requires blockSize < UINT32
  {
    ShortestWidth(blockSize);
    var value := Shortest(blockSize);
    if OptionSize(SIZE1, |value|) > SIZE1_ROOM then [] else EncodeOption(SIZE1, value)
  }

  /** `unicoap_exchange_preprocess` and `unicoap_exchange_process`, with what the message layer does about their results. */
  function Exchanged(c: Config, s: State, m: Inbound, w: World): Processed
    requires HeaderOk(m.header) && WorldOk(w)
  {
    var p := PacketOf(m);
    if m.header.code / 32 == 0 then
      var r := if m.truncated then Send(c, s, p, Content(TOO_LARGE, Size1Bytes(w.blockSize), []), false, w.env[0])
               else match w.resolution
                    case Refused(code) => Send(c, s, p, Content(code, [], []), false, w.env[0])
                    case Found(service) => Serve(c, s, p, service, w);
      Processed(r.state, r.outs, r.outcome)
    else if IsResponse(m.header.code) && m.header.kind == CON then
      Processed(s, EmptyMessage(m.remote, RST, m.header.id, w.env[0]), Done)
    else
      Processed(s, [], Done)
  }

  /** `unicoap_messaging_process_rfc7252` on a parsed message. */
  function Process(c: Config, s: State, m: Inbound, w: World): Processed
    requires HeaderOk(m.header) && WorldOk(w)
  {
    var (s', outs, layer) := MessageLayer(s, m, w.env[0]);
    if layer == Passed then Exchanged(c, s', m, w) else Processed(s', outs, Done)
  }

  // ---------------------------------------------------------------- which replies are possible

  /** An acknowledgement or reset on the wire. */
  predicate Terminal(d: Datagram) {
    |d.bytes| >= HEADER_SIZE && (KindOf(d.bytes) == ACK || KindOf(d.bytes) == RST)
  }

  predicate Carries(d: Datagram, p: Packet) {
    d.remote == p.remote && |d.bytes| >= HEADER_SIZE && KindOf(d.bytes) == p.kind && IdOf(d.bytes) == p.id
  }

  /** One send puts at most one datagram on the wire: to the packet's remote, with the type and ID that were chosen. */
  lemma SendOuts(c: Config, s: State, p: Packet, m: Content, reliable: bool, env: Env)
    requires PacketOk(p)
    ensures var r := Send(c, s, p, m, reliable, env);
            && PacketOk(r.packet) && r.packet == Format(p, m.code, reliable, s.nextId).0 && r.packet.remote == p.remote
            && |r.outs| == (if r.outcome == Done then 1 else 0) && forall d <- r.outs :: Carries(d, r.packet)
  {
    FormatOk(p, m.code, reliable, s.nextId);
    var p' := Format(p, m.code, reliable, s.nextId).0;
    WireFacts(p', m);
    hide Wire;
    hide KindOf;
    hide IdOf;
  }

  /** Acknowledgements and resets cause nothing to be sent. */
  lemma AckAndResetStaySilent(c: Config, s: State, m: Inbound, w: World)
    requires HeaderOk(m.header) && WorldOk(w) && (m.header.kind == ACK || m.header.kind == RST)
    ensures Process(c, s, m, w).outs == []
    ensures Process(c, s, m, w).state == if m.header.code == 0 && m.payload != [] then s else End(s, m.remote, m.header.id)
  {
  }

  ghost predicate Unreliable(w: World) {
    w.resolution.Found? ==> !w.resolution.service.reliable
  }

  /** The handler answers in one way only. */
  ghost predicate OneWay(w: World) {
    w.resolution.Found? ==> w.resolution.service.reply.NoReply? || Closing(w.resolution.service, w).NoReply?
  }

  /** At most one of these datagrams is terminal, and it carries this ID to this remote. */
  ghost predicate AtMostOneTerminal(outs: seq<Datagram>, remote: Endpoint, id: nat) {
    && (forall d <- outs :: Terminal(d) ==> d.remote == remote && IdOf(d.bytes) == id)
    && (forall i, j :: 0 <= i < j < |outs| ==> !(Terminal(outs[i]) && Terminal(outs[j])))
  }

  /** Every code that the handler gives is a response code. */
  ghost predicate ResponseCodes(w: World) {
    w.resolution.Found? ==>
      && (w.resolution.service.reply.Reply? ==> IsResponse(w.resolution.service.reply.content.code))
      && (w.resolution.service.verdict.Status? ==> IsResponse(w.resolution.service.verdict.code))
  }

  /** When the server's replies to a confirmable request keep to one acknowledgement. */
  ghost predicate Disciplined(w: World) {
    Unreliable(w) || (OneWay(w) && ResponseCodes(w))
  }

  /** An attempt without buffer that reaches the wire. */
  predicate Delivered(c: Config, p: Packet, env: Env) {
    HEADER_SIZE + |p.token| <= c.headerMax && env.transport >= 0
  }

  /** A response to the confirmable packet itself: it goes out as the acknowledgement. */
  predicate Piggybacks(p: Packet, code: Byte) {
    !p.notification && IsResponse(code) && p.kind == CON
  }

  /** The fallback of a failed confirmable attempt: it goes out as an acknowledgement with the message ID of that attempt. */
  ghost predicate FallsBack(c: Config, s: State, p: Packet, m: Content, reliable: bool, env: Env, retry: Env)
    requires PacketOk(p)
  {
    && reliable && !p.notification && !Piggybacks(p, m.code)
    && Send(c, s, p, m, true, env).outcome.Failed? && Delivered(c, p, retry)
  }

  /** What is on the wire after one send, by the packet that was formatted. */
  lemma SendTerminals(c: Config, s: State, p: Packet, m: Content, reliable: bool, env: Env)
    requires PacketOk(p)
    ensures var r, own := Send(c, s, p, m, reliable, env), Piggybacks(p, m.code);
            && PacketOk(r.packet) && r.packet.token == p.token && r.packet.notification == p.notification && r.packet.remote == p.remote
            && r.packet.kind == (if own then ACK else if reliable then CON else NON)
            && r.packet.id == (if own then p.id else s.nextId % ID_COUNT) && r.state.nextId == s.nextId + (if own then 0 else 1)
            && ((exists d <- r.outs :: Terminal(d)) <==> own && r.outcome == Done)
            && (forall d <- r.outs :: Terminal(d) ==> KindOf(d.bytes) == ACK && IdOf(d.bytes) == p.id)
            && (own || !reliable ==> !Stopped(r.outcome) && (r.outcome == Done <==> Delivered(c, p, env)))
  {
    hide Wire;
    hide KindOf;
    hide IdOf;
    SendOuts(c, s, p, m, reliable, env);
    var r, own := Send(c, s, p, m, reliable, env), Piggybacks(p, m.code);
    if r.outcome == Done {
      assert Carries(r.outs[0], r.packet);
      if own { assert Terminal(r.outs[0]); }
    }
  }

  /** Exactly when a reply puts an acknowledgement or reset on the wire, which it is, and what it leaves behind. */
  lemma BodyTerminals(c: Config, s: State, p: Packet, m: Content, reliable: bool, env: Env, retry: Env)
    requires PacketOk(p) && !p.notification
    ensures var r, own := SendBody(c, s, p, m, reliable, env, retry), Piggybacks(p, m.code);
            && PacketOk(r.packet) && |r.outs| <= 1 && (forall d <- r.outs :: d.remote == p.remote)
            && ((exists d <- r.outs :: Terminal(d)) <==> if own then Delivered(c, p, env) else FallsBack(c, s, p, m, reliable, env, retry))
            && (forall d <- r.outs :: Terminal(d) ==> IdOf(d.bytes) == if own then p.id else s.nextId % ID_COUNT)
            && r.packet.token == p.token && !r.packet.notification && r.packet.remote == p.remote
            && s.nextId <= r.state.nextId && (reliable ==> r.state.nextId <= s.nextId + 1)
            && (r.packet.kind == CON ==> reliable && !own && r.packet.id == s.nextId % ID_COUNT)
  {
    hide Send;
    hide Terminal;
    hide KindOf;
    hide IdOf;
    SendOuts(c, s, p, m, reliable, env);
    SendTerminals(c, s, p, m, reliable, env);
    var first := Send(c, s, p, m, reliable, env);
    if first.outcome.Failed? {
      var sorry := Content(INTERNAL_ERROR, [], []);
      SendOuts(c, first.state, first.packet, sorry, false, retry);
      SendTerminals(c, first.state, first.packet, sorry, false, retry);
      assert first.outs == [];
      assert first.outs + Send(c, first.state, first.packet, sorry, false, retry).outs
          == Send(c, first.state, first.packet, sorry, false, retry).outs;
    }
  }

  /** A request that is handed to a resource. */
  predicate Served(m: Inbound, w: World) {
    (m.header.kind == CON || m.header.kind == NON) && 0 < m.header.code < 32 && !m.truncated && w.resolution.Found?
  }

  /**
   * Some answer to the request is formatted as an acknowledgement of a message that this endpoint itself has sent: as the
   * fallback of a confirmable attempt, or as the response to a confirmable reply that came before it.
   */
  ghost predicate Misanswered(c: Config, s: State, m: Inbound, w: World)
    requires HeaderOk(m.header) && WorldOk(w)
  {
    && Served(m, w)
    && var service, p := w.resolution.service, PacketOf(m);
    var a, closing := SendReply(c, s, p, service, w.env), Closing(service, w);
    ReplyPacketOk(c, s, p, service, w.env);
    || (service.reply.Reply? && FallsBack(c, s, p, service.reply.content, service.reliable, w.env[0], w.env[1]))
    || (closing.Reply? && !Stopped(a.outcome)
        && (|| FallsBack(c, a.state, a.packet, closing.content, service.reliable, w.env[2], w.env[3])
            || (service.reply.Reply? && Piggybacks(a.packet, closing.content.code) && Delivered(c, a.packet, w.env[2]))))
  }

  lemma {:induction false} Either(a: seq<Datagram>, b: seq<Datagram>)
    ensures (exists d <- a + b :: Terminal(d)) <==> (exists d <- a :: Terminal(d)) || (exists d <- b :: Terminal(d))
  {
    hide Terminal;
    forall d | d in a + b ensures d in a || d in b {}
    forall d | d in a || d in b ensures d in a + b {}
  }

  /** The server's answers, one behind the other, and exactly which of them are terminal. */
  lemma ServeTerminals(c: Config, s: State, m: Inbound, w: World)
    requires HeaderOk(m.header) && WorldOk(w) && Served(m, w)
    ensures var service, p, outs := w.resolution.service, PacketOf(m), Serve(c, s, PacketOf(m), w.resolution.service, w).outs;
            && (m.header.kind == CON && !Misanswered(c, s, m, w) ==> AtMostOneTerminal(outs, m.remote, m.header.id))
            && (m.header.kind == NON ==> ((exists d <- outs :: Terminal(d)) <==> Misanswered(c, s, m, w)))
            && (Misanswered(c, s, m, w) ==>
                  exists d <- outs :: Terminal(d) && (IdOf(d.bytes) == s.nextId % ID_COUNT || IdOf(d.bytes) == (s.nextId + 1) % ID_COUNT))
  {
    hide SendBody;
    hide Terminal;
    hide KindOf;
    hide IdOf;
    hide Closing;
    hide Send;
    hide Delivered;
    var service, p := w.resolution.service, PacketOf(m);
    var a, closing := SendReply(c, s, p, service, w.env), Closing(service, w);
    ReplyPacketOk(c, s, p, service, w.env);
    if service.reply.Reply? { BodyTerminals(c, s, p, service.reply.content, service.reliable, w.env[0], w.env[1]); }
    if Stopped(a.outcome) || closing.NoReply? {
      if Misanswered(c, s, m, w) {
        var d :| d in a.outs && Terminal(d);
        assert d in Serve(c, s, p, service, w).outs;
      }
    } else {
      BodyTerminals(c, a.state, a.packet, closing.content, service.reliable, w.env[2], w.env[3]);
      var b := SendBody(c, a.state, a.packet, closing.content, service.reliable, w.env[2], w.env[3]);
      Either(a.outs, b.outs);
      assert Serve(c, s, p, service, w).outs == a.outs + b.outs;
      if service.reply.Reply? && FallsBack(c, s, p, service.reply.content, service.reliable, w.env[0], w.env[1]) {
        var d :| d in a.outs && Terminal(d);
        assert d in a.outs + b.outs;
      } else if Misanswered(c, s, m, w) {
        var d :| d in b.outs && Terminal(d);
        assert d in a.outs + b.outs;
      }
    }
  }

  /**
   * A confirmable message causes at most one acknowledgement or reset, to its sender and with its ID, and any other message
   * causes none, except where an answer is misformatted; there an acknowledgement with an ID of this endpoint goes out.
   */
  lemma ReplyDiscipline(c: Config, s: State, m: Inbound, w: World)
    requires HeaderOk(m.header) && WorldOk(w)
    ensures var outs := Process(c, s, m, w).outs;
            && (m.header.kind == CON && !Misanswered(c, s, m, w) ==> AtMostOneTerminal(outs, m.remote, m.header.id))
            && (m.header.kind != CON ==> ((exists d <- outs :: Terminal(d)) <==> Misanswered(c, s, m, w)))
            && (Misanswered(c, s, m, w) ==>
                  exists d <- outs :: Terminal(d) && (IdOf(d.bytes) == s.nextId % ID_COUNT || IdOf(d.bytes) == (s.nextId + 1) % ID_COUNT))
  {
    hide KindOf;
    hide IdOf;
    hide Misanswered;
    hide Serve;
    hide Send;
    hide End;
    EmptyFacts(RST, m.header.id);
    OnlyServed(c, s, m, w);
    var p := PacketOf(m);
    if MessageLayer(s, m, w.env[0]).2 == Passed && m.header.code / 32 == 0 {
      if Served(m, w) {
        ServeTerminals(c, s, m, w);
      } else {
        var code := if m.truncated then TOO_LARGE else w.resolution.code;
        var reply := Content(code, if m.truncated then Size1Bytes(w.blockSize) else [], []);
        SendOuts(c, s, p, reply, false, w.env[0]);
        SendTerminals(c, s, p, reply, false, w.env[0]);
      }
    }
  }

  lemma OnlyServed(c: Config, s: State, m: Inbound, w: World)
    requires HeaderOk(m.header) && WorldOk(w)
    ensures Misanswered(c, s, m, w) ==> Served(m, w)
  {
  }

  /**
   * What a caller can see to it that no answer is misformatted: a resource without RELIABLE, or, for confirmable requests,
   * one answer with a response code.
   */
  lemma DisciplinedAnswers(c: Config, s: State, m: Inbound, w: World)
    requires HeaderOk(m.header) && WorldOk(w)
    ensures (if m.header.kind == CON then Disciplined(w) else Unreliable(w)) ==> !Misanswered(c, s, m, w)
  {
    hide Send;
    hide SendBody;
    hide Delivered;
    if Served(m, w) && w.resolution.service.reply.Reply? {
      BodyTerminals(c, s, PacketOf(m), w.resolution.service.reply.content, w.resolution.service.reliable, w.env[0], w.env[1]);
    }
  }

  /**
   * A non-confirmable request to a resource with RELIABLE set, answered once: by its handler's reply or by the server.
   * It is answered with an acknowledgement exactly when the confirmable response cannot be sent and the fallback can.
   */
  lemma NonConfirmableAcknowledged(c: Config, s: State, m: Inbound, w: World)
    requires HeaderOk(m.header) && WorldOk(w) && m.header.kind == NON && Served(m, w)
    requires w.resolution.service.reliable && OneWay(w)
    ensures var service := w.resolution.service;
            var early := service.reply.Reply?;
            var answer := if early then service.reply else Closing(service, w);
            (exists d <- Process(c, s, m, w).outs :: Terminal(d))
            <==> (answer.Reply? && Delivered(c, PacketOf(m), w.env[if early then 1 else 3])
                  && Send(c, s, PacketOf(m), answer.content, true, w.env[if early then 0 else 2]).outcome.Failed?)
  {
    hide Send;
    hide SendBody;
    hide Process;
    hide Terminal;
    hide Closing;
    ReplyDiscipline(c, s, m, w);
  }

  /**
   * A request of either type answered twice at a resource with RELIABLE set. An answer beside the acknowledgement that a
   * confirmable request gets is one more acknowledgement, with an ID of this endpoint, in exactly these cases.
   */
  lemma SecondAcknowledgement(c: Config, s: State, m: Inbound, w: World)
    requires HeaderOk(m.header) && WorldOk(w) && Served(m, w) && w.resolution.service.reliable && !OneWay(w)
    ensures var service, p := w.resolution.service, PacketOf(m);
            var a, closing := SendReply(c, s, p, service, w.env), Closing(service, w).content;
            && PacketOk(a.packet)
            && var outs, second := Process(c, s, m, w).outs, Send(c, a.state, a.packet, closing, true, w.env[2]).outcome;
            && a.outs <= outs
            && ((exists d <- outs[|a.outs|..] :: Terminal(d))
                <==> !Stopped(a.outcome) && if Piggybacks(a.packet, closing.code) then Delivered(c, p, w.env[2])
                                            else second.Failed? && Delivered(c, p, w.env[3]))
            && (Piggybacks(a.packet, closing.code) ==> a.packet.id == s.nextId % ID_COUNT)
            && (forall d <- outs[|a.outs|..] :: Terminal(d) ==>
                  IdOf(d.bytes) == if Piggybacks(a.packet, closing.code) then a.packet.id else a.state.nextId % ID_COUNT)
  {
    hide Send;
    hide SendBody;
    hide Terminal;
    hide IdOf;
    hide Closing;
    var service, p := w.resolution.service, PacketOf(m);
    var a, closing := SendReply(c, s, p, service, w.env), Closing(service, w).content;
    ReplyPacketOk(c, s, p, service, w.env);
    BodyTerminals(c, s, p, service.reply.content, true, w.env[0], w.env[1]);
    BodyTerminals(c, a.state, a.packet, closing, true, w.env[2], w.env[3]);
    var b := SendBody(c, a.state, a.packet, closing, true, w.env[2], w.env[3]);
    if Stopped(a.outcome) {
      assert Process(c, s, m, w).outs == a.outs && a.outs[|a.outs|..] == [];
    } else {
      assert Process(c, s, m, w).outs == a.outs + b.outs;
      assert (a.outs + b.outs)[|a.outs|..] == b.outs;
    }
  }

  // ---------------------------------------------------------------- pools

  lemma BodyKeepsInv(c: Config, s: State, p: Packet, m: Content, reliable: bool, env: Env, retry: Env)
    requires ConfigOk(c) && Inv(c, s) && PacketOk(p) && Allowed(c, 0, env.wait) && Allowed(c, 0, retry.wait)
    ensures Inv(c, SendBody(c, s, p, m, reliable, env, retry).state)
  {
    hide Inv;
    hide Send;
    SendOuts(c, s, p, m, reliable, env);
    SendKeepsInv(c, s, p, m, reliable, env);
    var first := Send(c, s, p, m, reliable, env);
    if first.outcome.Failed? { SendKeepsInv(c, first.state, first.packet, Content(INTERNAL_ERROR, [], []), false, retry); }
  }

  /** Processing an inbound message, with all the replies it causes, keeps the pools consistent. */
  lemma ProcessKeepsInv(c: Config, s: State, m: Inbound, w: World)
    requires ConfigOk(c) && Inv(c, s) && HeaderOk(m.header) && WorldOk(w) && forall k :: 0 <= k < 4 ==> Allowed(c, 0, w.env[k].wait)
    ensures Inv(c, Process(c, s, m, w).state)
  {
    hide Inv;
    hide Send;
    hide SendBody;
    hide Allowed;
    hide End;
    EndKeepsInv(c, s, m.remote, m.header.id);
    var s', p := MessageLayer(s, m, w.env[0]).0, PacketOf(m);
    SendKeepsInv(c, s', p, Content(TOO_LARGE, Size1Bytes(w.blockSize), []), false, w.env[0]);
    match w.resolution
    case Refused(code) => SendKeepsInv(c, s', p, Content(code, [], []), false, w.env[0]);
    case Found(service) =>
      if service.reply.Reply? { BodyKeepsInv(c, s', p, service.reply.content, service.reliable, w.env[0], w.env[1]); }
      ReplyPacketOk(c, s', p, service, w.env);
      var a := SendReply(c, s', p, service, w.env);
      if Closing(service, w).Reply? {
        BodyKeepsInv(c, a.state, a.packet, Closing(service, w).content, service.reliable, w.env[2], w.env[3]);
      }
  }
}
