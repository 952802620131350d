/** What a peer gets to read: sent datagrams through its parser, and the answer to every kind of inbound message. */
module Answers {
  import opened Codec
  import opened OptionEdits
  import opened OptionParsing
  import opened OptionUints
  import opened Pdu
  import opened Reliability
  import opened ReliabilityRuns
  import opened Exchange

  ghost predicate ParsesTo(r: ParsedPdu, h: Header, opts: seq<Option>, payload: seq<Byte>) {
    && r.Accepted? && r.header == h && PayloadOf(r.tail) == payload
    && RawsOk(r.raws) && NoOverflow(0, r.raws) && Decode(0, r.raws) == opts
  }

  /** Every receiver with room for so many options and such a token reads this message. */
  ghost predicate Reads(bytes: seq<Byte>, h: Header, opts: seq<Option>, payload: seq<Byte>) {
    forall room: nat, tokenMax: nat :: |opts| <= room && |h.token| <= tokenMax ==>
      ParsesTo(ParseMessage(bytes, room, tokenMax), h, opts, payload)
  }

  /** A message with code 0.00 ends with its header. */
  predicate Legible(h: Header, opts: seq<Option>, payload: seq<Byte>) {
    h.code == 0 ==> h.token == [] && opts == [] && payload == []
  }

  /** A message is read back exactly if it is not one with code 0.00 and something behind the header. */
  lemma MessageReads(h: Header, opts: seq<Option>, payload: seq<Byte>)
    requires HeaderOk(h) && Sorted(0, opts)
    ensures Reads(MessageBytes(h, Encode(0, opts), payload), h, opts, payload) <==> Legible(h, opts, payload)
  {
    hide Encode;
    hide Parse;
    hide Decode;
    hide NoOverflow;
    hide Sorted;
    var bytes := MessageBytes(h, Encode(0, opts), payload);
    if Legible(h, opts, payload) {
      forall room: nat, tokenMax: nat | |opts| <= room && |h.token| <= tokenMax
        ensures ParsesTo(ParseMessage(bytes, room, tokenMax), h, opts, payload)
      {
        SerialiseThenParse(h, opts, payload, room, tokenMax);
        AcceptedParts(bytes, room, tokenMax);
      }
    } else {
      if opts != [] { NonemptyEncode(opts); }
      assert bytes[1] == 0 && |bytes| > HEADER_SIZE;
      assert ParseMessage(bytes, |opts|, |h.token|).Rejected?;
    }
  }

  lemma NonemptyEncode(opts: seq<Option>)
    requires Sorted(0, opts) && opts != []
    ensures Encode(0, opts) != []
  {
    Unfold(0, 0, opts[0], opts[1..]);
    assert opts == [opts[0]] + opts[1..];
  }

  // ---------------------------------------------------------------- one send

  /** The header that a message goes out with: a response to a confirmable packet acknowledges it, anything else is on its own. */
  function SentHeader(p: Packet, nextId: nat, code: Byte, reliable: bool): Header {
    var response := 64 <= code < 96 || 128 <= code < 192;
    if p.kind == CON && response && !p.notification then Header(ACK, code, p.id, p.token)
    else Header(if reliable then CON else NON, code, nextId % ID_COUNT, p.token)
  }

  /** The number of bytes of a PDU. */
  function PduSize(p: Packet, m: Content): nat {
    HEADER_SIZE + |p.token| + |m.options| + if m.payload == [] then 0 else 1 + |m.payload|
  }

  /** The message can be sent: a confirmable one needs a slot and a copy that it fits into, any other room for its header. */
  ghost predicate Goes(c: Config, s: State, p: Packet, m: Content, reliable: bool, env: Env) {
    && env.transport >= 0
    && if SentHeader(p, s.nextId, m.code, reliable).kind == CON then
         (exists i :: 0 <= i < |s.slots| && s.slots[i] == Idle) && (exists k :: 0 <= k < |s.held| && !s.held[k]) && PduSize(p, m) <= c.copySize
       else
         HEADER_SIZE + |p.token| <= c.headerMax
  }

  /** The send neither succeeds nor fails: no slot goes with the free copy, or the copy ends where the payload marker is written. */
  ghost predicate Derails(c: Config, s: State, p: Packet, m: Content, reliable: bool) {
    && SentHeader(p, s.nextId, m.code, reliable).kind == CON && (exists k :: 0 <= k < |s.held| && !s.held[k])
    && ((forall i :: 0 <= i < |s.slots| ==> s.slots[i] != Idle)
        || (m.payload != [] && c.copySize == HEADER_SIZE + |p.token| + |m.options|))
  }

  /** One datagram, from which the peer reads this header, the options that are packed in `options`, and this payload. */
  ghost predicate One(outs: seq<Datagram>, remote: Endpoint, h: Header, options: seq<Byte>, payload: seq<Byte>) {
    && |outs| == 1 && outs[0].remote == remote
    && forall opts :: Sorted(0, opts) && options == Encode(0, opts) ==> (Reads(outs[0].bytes, h, opts, payload) <==> Legible(h, opts, payload))
  }

  lemma WireReads(p: Packet, m: Content, remote: Endpoint)
    requires PacketOk(p)
    ensures One([Datagram(remote, Wire(p, m))], remote, HeaderOf(p, m.code), m.options, m.payload) && |Wire(p, m)| == PduSize(p, m)
  {
    hide Reads;
    hide Legible;
    hide Sorted;
    forall opts | Sorted(0, opts) && m.options == Encode(0, opts)
      ensures Reads(Wire(p, m), HeaderOf(p, m.code), opts, m.payload) <==> Legible(HeaderOf(p, m.code), opts, m.payload)
    {
      MessageReads(HeaderOf(p, m.code), opts, m.payload);
    }
  }

  /** Exactly when a send puts its message on the wire, and that the peer reads it; no other send puts anything there. */
  lemma SendReads(c: Config, s: State, p: Packet, m: Content, reliable: bool, env: Env)
    requires PacketOk(p)
    ensures var r, h := Send(c, s, p, m, reliable, env), SentHeader(p, s.nextId, m.code, reliable);
            && (r.outcome == Done <==> Goes(c, s, p, m, reliable, env)) && (Stopped(r.outcome) <==> Derails(c, s, p, m, reliable))
            && (if r.outcome == Done then One(r.outs, p.remote, h, m.options, m.payload) else r.outs == [])
            && r.packet == Packet(p.remote, h.kind, h.id, p.token, p.notification)
            && r.state.nextId == s.nextId + (if h.kind == ACK then 0 else 1)
  {
    hide Wire;
    hide One;
    FormatOk(p, m.code, reliable, s.nextId);
    var p' := Format(p, m.code, reliable, s.nextId).0;
    WireReads(p', m, p.remote);
    var j, k := FirstIdle(s.slots), FirstVacant(s.held);
    assert HeaderOf(p', m.code) == SentHeader(p, s.nextId, m.code, reliable);
  }

  // ---------------------------------------------------------------- one answer

  /** The packet that a send with header `h` leaves behind. */
  function After(p: Packet, h: Header): Packet {
    p.(kind := h.kind, id := h.id)
  }

  /**
   * An answer `m` on the wire: the message itself if it can be sent; if that fails, an empty 5.00 if that can be sent; else
   * nothing.
   */
  ghost predicate Told(c: Config, s: State, p: Packet, m: Content, reliable: bool, env: Env, retry: Env, outs: seq<Datagram>) {
    var h := SentHeader(p, s.nextId, m.code, reliable);
    if Goes(c, s, p, m, reliable, env) then
      One(outs, p.remote, h, m.options, m.payload)
    else if !Derails(c, s, p, m, reliable) && retry.transport >= 0 && HEADER_SIZE + |p.token| <= c.headerMax then
      One(outs, p.remote, SentHeader(After(p, h), s.nextId + (if h.kind == ACK then 0 else 1), 0xa0, false), [], [])
    else
      outs == []
  }

  lemma BodyReads(c: Config, s: State, p: Packet, m: Content, reliable: bool, env: Env, retry: Env)
    requires PacketOk(p)
    ensures var r := SendBody(c, s, p, m, reliable, env, retry);
            && PacketOk(r.packet) && Told(c, s, p, m, reliable, env, retry, r.outs)
            && (r.outcome == Done <==> Goes(c, s, p, m, reliable, env)) && (Stopped(r.outcome) <==> Derails(c, s, p, m, reliable))
            && var h := SentHeader(p, s.nextId, m.code, reliable);
            var h' := if r.outcome.Failed? then SentHeader(After(p, h), s.nextId + (if h.kind == ACK then 0 else 1), 0xa0, false) else h;
            r.packet == After(p, h')
  {
    hide Send;
    hide One;
    SendBodyOk(c, s, p, m, reliable, env, retry);
    SendReads(c, s, p, m, reliable, env);
    FormatOk(p, m.code, reliable, s.nextId);
    SendOuts(c, s, p, m, reliable, env);
    var first, sorry := Send(c, s, p, m, reliable, env), Content(0xa0, [], []);
    if first.outcome.Failed? {
      SendReads(c, first.state, first.packet, sorry, false, retry);
      assert first.outs + Send(c, first.state, first.packet, sorry, false, retry).outs
          == Send(c, first.state, first.packet, sorry, false, retry).outs;
    }
  }

  // ---------------------------------------------------------------- a request that reaches a handler

  /** The bytes of a text of ASCII characters. */
  function Ascii(text: string): seq<Byte> {
    seq(|text|, k requires 0 <= k < |text| => text[k] as int % 128)
  }

  /**
   * What a handler's client gets to read. One that replies through its context: that reply. One that returns a status: that
   * status, without options and payload, behind the reply if there is one, unless it is suppressed. One that does neither and
   * does not ask to ignore the request: 5.00 with the text if assistance is on. Any other: nothing.
   */
  ghost predicate Answered(c: Config, s: State, p: Packet, service: Service, w: World, r: Processed)
    requires PacketOk(p) && WorldOk(w)
  {
    var spoken := service.verdict.Status? && !w.suppressed;
    match service.reply
    case NoReply =>
      if spoken then Told(c, s, p, Content(service.verdict.code, [], []), service.reliable, w.env[2], w.env[3], r.outs)
      else if service.verdict.Neither? && w.assist then
        Told(c, s, p, Content(0xa0, [], Ascii("application")), service.reliable, w.env[2], w.env[3], r.outs)
      else r == Processed(s, [], Done)
    case Reply(m) =>
      var first := SendBody(c, s, p, m, service.reliable, w.env[0], w.env[1]);
      if spoken && !Derails(c, s, p, m, service.reliable) then
        && first.outs <= r.outs && Told(c, s, p, m, service.reliable, w.env[0], w.env[1], first.outs)
        && Told(c, first.state, first.packet, Content(service.verdict.code, [], []), service.reliable, w.env[2], w.env[3],
                r.outs[|first.outs|..])
      else Told(c, s, p, m, service.reliable, w.env[0], w.env[1], r.outs)
  }

  /** A request that reaches a resource is answered as its handler says. */
  lemma HandlerAnswers(c: Config, s: State, m: Inbound, w: World)
    requires HeaderOk(m.header) && WorldOk(w) && Served(m, w)
    ensures Answered(c, s, PacketOf(m), w.resolution.service, w, Process(c, s, m, w))
  {
    hide Told;
    hide Goes;
    hide Derails;
    hide SendBody;
    assert Ascii("application") == APPLICATION;
    var p, service := PacketOf(m), w.resolution.service;
    var closing := Closing(service, w);
    if service.reply.Reply? {
      BodyReads(c, s, p, service.reply.content, service.reliable, w.env[0], w.env[1]);
      var a := SendBody(c, s, p, service.reply.content, service.reliable, w.env[0], w.env[1]);
      if closing.Reply? && !Stopped(a.outcome) {
        BodyReads(c, a.state, a.packet, closing.content, service.reliable, w.env[2], w.env[3]);
        var b := SendBody(c, a.state, a.packet, closing.content, service.reliable, w.env[2], w.env[3]);
        assert (a.outs + b.outs)[|a.outs|..] == b.outs;
      }
    } else if closing.Reply? {
      BodyReads(c, s, p, closing.content, service.reliable, w.env[2], w.env[3]);
      assert [] + SendBody(c, s, p, closing.content, service.reliable, w.env[2], w.env[3]).outs
          == SendBody(c, s, p, closing.content, service.reliable, w.env[2], w.env[3]).outs;
    }
  }

  // ---------------------------------------------------------------- a request that does not

  /** A request that is refused, by the search or because it was cut off, is answered once, never confirmably, and without a fallback. */
  lemma RefusalReads(c: Config, s: State, m: Inbound, w: World)
    requires HeaderOk(m.header) && WorldOk(w) && 0 < m.header.code < 32 && (m.header.kind == CON || m.header.kind == NON)
    requires m.truncated || w.resolution.Refused?
    ensures var o := Option(60, Shortest(w.blockSize)); Sorted(0, [o]) && Big(o.value) == w.blockSize
    ensures var outs := Process(c, s, m, w).outs;
            var code: Byte := if m.truncated then 0x8d else w.resolution.code;
            var size1 := if m.truncated && w.blockSize < 0x100_0000 then Encode(0, [Option(60, Shortest(w.blockSize))]) else [];
            if w.env[0].transport >= 0 && HEADER_SIZE + |m.header.token| <= c.headerMax then
              One(outs, m.remote, SentHeader(PacketOf(m), s.nextId, code, false), size1, [])
            else outs == []
  {
    hide Send;
    hide One;
    hide Sorted;
    hide Encode;
    hide Shortest;
    hide Big;
    hide EncodeOption;
    hide OptionSize;
    hide SentHeader;
    hide Goes;
    BigShortest(w.blockSize);
    Size1Encodes(w.blockSize);
    var p := PacketOf(m);
    if m.truncated {
      PlainReads(c, s, p, Content(0x8d, Size1Bytes(w.blockSize), []), w.env[0]);
    } else {
      PlainReads(c, s, p, Content(w.resolution.code, [], []), w.env[0]);
    }
  }

  /** A send that is not to be confirmed. */
  lemma PlainReads(c: Config, s: State, p: Packet, m: Content, env: Env)
    requires PacketOk(p)
    ensures var outs, h := Send(c, s, p, m, false, env).outs, SentHeader(p, s.nextId, m.code, false);
            if env.transport >= 0 && HEADER_SIZE + |p.token| <= c.headerMax then One(outs, p.remote, h, m.options, m.payload) else outs == []
  {
    hide Send;
    hide One;
    SendReads(c, s, p, m, false, env);
  }

  lemma Size1Encodes(blockSize: nat)
    requires blockSize < UINT32
    ensures var o := Option(60, Shortest(blockSize));
            && Sorted(0, [o]) && Encode(0, [o]) == EncodeOption(60, o.value)
            && (OptionSize(60, |o.value|) <= SIZE1_ROOM <==> blockSize < 0x100_0000)
  {
    hide Shortest;
    ShortestWidth(blockSize);
    var o := Option(60, Shortest(blockSize));
    assert [o] == [o] + [];
    UnfoldNil(60, 0);
    Unfold(0, 0, o, []);
  }

  // ---------------------------------------------------------------- what is not a request

  /**
   * Anything but a request: an empty confirmable message and a confirmable response are answered with a reset, four bytes with
   * the message ID, to their sender; anything else is not answered. Only acknowledgements and resets change the state.
   */
  lemma OthersAnswered(c: Config, s: State, m: Inbound, w: World)
    requires HeaderOk(m.header) && WorldOk(w) && (m.header.code == 0 ==> m.payload == [])
    requires m.header.code == 0 || m.header.code >= 32 || m.header.kind == ACK || m.header.kind == RST
    ensures var h, r := m.header, Process(c, s, m, w);
            var rejected := h.kind == CON && (h.code == 0 || 64 <= h.code < 96 || 128 <= h.code < 192) && w.env[0].transport >= 0;
            && r.outs == (if rejected then [Datagram(m.remote, [0x70, 0, h.id / 256, h.id % 256])] else [])
            && r.state == (if h.kind == ACK || h.kind == RST then End(s, m.remote, h.id) else s)
            && r.outcome == Done
  {
    hide End;
    assert HeaderBytes(Header(RST, 0, m.header.id, [])) == [0x70, 0, m.header.id / 256, m.header.id % 256];
  }

  /** These four bytes are read as a reset with that ID. */
  lemma ResetReads(id: nat)
    requires id < ID_COUNT
    ensures Reads([0x70, 0, id / 256, id % 256], Header(RST, 0, id, []), [], [])
  {
    hide Reads;
    hide Encode;
    var h := Header(RST, 0, id, []);
    EmptyEncode();
    MessageReads(h, [], []);
    assert MessageBytes(h, [], []) == [0x70, 0, id / 256, id % 256];
  }
}
