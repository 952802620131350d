/** The layers above the message layer: replies of the server, preprocessing, and reception of a PDU. */
module Server {
  import opened Codec
  import opened OptionLists
  import opened OptionEdits
  import opened OptionStores
  import opened OptionParsing
  import opened OptionUints
  import opened Iolists
  import opened Pdu
  import opened PduBuild
  import opened Reliability
  import Exchange
  import Paths
  import Routing
  import opened Messaging

  /** The surroundings behave: random waits keep to their range. */
  ghost predicate WaitsOk(c: Config, w: Exchange.World) {
    Exchange.WorldOk(w) && forall k :: 0 <= k < 4 ==> Allowed(c, 0, w.env[k].wait)
  }

  /** `unicoap_server_send_response_body`. */
  method SendBody(msgr: Messenger, p: Packet, code: Byte, store: OptionStore?, body: Body, reliable: bool, env: Env, retry: Env,
                  ghost links: seq<Chunk>, ghost m: Content)
      returns (p': Packet, outcome: Outcome)
    requires msgr.Valid() && PacketOk(p) && Sendable(code, store, body, links, m) && (store != null ==> store.buf !in msgr.copies)
    requires Allowed(msgr.config, 0, env.wait) && Allowed(msgr.config, 0, retry.wait)
    modifies msgr, msgr.transmissions, msgr.copies
    ensures var r := Exchange.SendBody(msgr.config, old(msgr.state), p, m, reliable, env, retry);
            && p' == r.packet && outcome == r.outcome && PacketOk(p')
            && (!Exchange.Stopped(outcome) ==> msgr.Valid() && msgr.state == r.state && msgr.sent == old(msgr.sent) + r.outs)
  {
    hide Messenger.Valid;
    hide Allowed;
    hide Reliability.Send;
    hide Sendable;
    p', outcome := msgr.Send(p, code, store, body, reliable, env, links, m);
    if !outcome.Failed? {
      return;
    }
    var error;
    EmptySendable(Exchange.INTERNAL_ERROR);
    p', error := msgr.Send(p', Exchange.INTERNAL_ERROR, null, Contiguous([]), false, retry, [], Content(Exchange.INTERNAL_ERROR, [], []));
    if Exchange.Stopped(error) {
      outcome := error;
    }
  }

  lemma EmptySendable(code: Byte)
    ensures Sendable(code, null, Contiguous([]), [], Content(code, [], []))
  {
  }

  /** The handler's reply, if it makes one, lies in `store` and `body`. */
  ghost predicate ReplySendable(service: Exchange.Service, store: OptionStore?, body: Body, links: seq<Chunk>)
    reads (if store == null then {} else {store, store.entries, store.buf}), links
  {
    service.reply.Reply? ==> Sendable(service.reply.content.code, store, body, links, service.reply.content)
  }

  /** `unicoap_server_process_request`. */
  method ProcessRequest(msgr: Messenger, p: Packet, service: Exchange.Service, w: Exchange.World,
                        store: OptionStore?, body: Body, ghost links: seq<Chunk>)
      returns (outcome: Outcome)
    requires msgr.Valid() && PacketOk(p) && WaitsOk(msgr.config, w) && ReplySendable(service, store, body, links)
    requires store != null ==> store.buf !in msgr.copies
    modifies msgr, msgr.transmissions, msgr.copies
    ensures var r := Exchange.Serve(msgr.config, old(msgr.state), p, service, w);
            && outcome == r.outcome
            && (!Exchange.Stopped(outcome) ==> msgr.Valid() && msgr.state == r.state && msgr.sent == old(msgr.sent) + r.outs)
  {
    hide Messenger.Valid;
    hide Allowed;
    hide Sendable;
    hide Exchange.SendBody;
    outcome := Done;
    var p' := p;
    if service.reply.Reply? {
      p', outcome := SendBody(msgr, p, service.reply.content.code, store, body, service.reliable, w.env[0], w.env[1], links, service.reply.content);
      if Exchange.Stopped(outcome) {
        return;
      }
    }
    match service.verdict
    case Status(code) =>
      if !w.suppressed {
        EmptySendable(code);
        p', outcome := SendBody(msgr, p', code, null, Contiguous([]), service.reliable, w.env[2], w.env[3], [], Content(code, [], []));
      }
    case Ignoring =>
    case Neither =>
      if service.reply.NoReply? && w.assist {
        TextSendable();
        p', outcome := SendBody(msgr, p', Exchange.INTERNAL_ERROR, null, Contiguous(Exchange.APPLICATION), service.reliable, w.env[2], w.env[3], [],
                                Content(Exchange.INTERNAL_ERROR, [], Exchange.APPLICATION));
      }
  }

  lemma TextSendable()
    ensures Sendable(Exchange.INTERNAL_ERROR, null, Contiguous(Exchange.APPLICATION), [],
                     Content(Exchange.INTERNAL_ERROR, [], Exchange.APPLICATION))
  {
  }

  /** The option store of the answer to a truncated request; a Size1 value that does not fit is left out silently. */
  method Size1Store(blockSize: nat) returns (store: OptionStore)
    requires blockSize < UINT32
    ensures fresh(store) && fresh(store.buf) && fresh(store.entries) && store.Valid() && store.Packed() == Exchange.Size1Bytes(blockSize)
  {
    hide SameOutside;
    var storage := new Byte[Exchange.SIZE1_ROOM];
    store := new OptionStore(false, 1, storage, 0, Exchange.SIZE1_ROOM);
    var value := EncodeUint(blockSize);
    FirstOfOne(value);
    var r := store.Set(Exchange.SIZE1, value);
    if store.opts == [] {
      EmptyPacked(store);
    } else {
      OnePacked(store, value);
    }
  }

  lemma FirstOfOne(value: seq<Byte>)
    requires |value| <= UINT20_MAX
    ensures var o := Option(Exchange.SIZE1, value);
            && Update([], o) == [o] && FindFirst([], Exchange.SIZE1) == -1 && Sorted(0, [o])
            && Encode(0, [o]) == EncodeOption(Exchange.SIZE1, value)
  {
    var o := Option(Exchange.SIZE1, value);
    assert [o] == [o] + [];
    UnfoldNil(Exchange.SIZE1, 0);
    Unfold(0, 0, o, []);
  }

  lemma EmptyPacked(store: OptionStore)
    requires store.Valid() && store.opts == []
    ensures store.Packed() == []
  {
    UnfoldNil(0, store.Base());
  }

  lemma OnePacked(store: OptionStore, value: seq<Byte>)
    requires store.Valid() && |value| <= UINT20_MAX && store.opts == [Option(Exchange.SIZE1, value)]
    ensures store.Packed() == EncodeOption(Exchange.SIZE1, value)
  {
    FirstOfOne(value);
  }

  /** The answer to a truncated request. */
  method AnswerTruncated(msgr: Messenger, p: Packet, blockSize: nat, env: Env) returns (outcome: Outcome)
    requires msgr.Valid() && PacketOk(p) && blockSize < UINT32 && Allowed(msgr.config, 0, env.wait)
    modifies msgr, msgr.transmissions, msgr.copies
    ensures var r := Reliability.Send(msgr.config, old(msgr.state), p, Content(Exchange.TOO_LARGE, Exchange.Size1Bytes(blockSize), []), false, env);
            && outcome == r.outcome
            && (!Exchange.Stopped(outcome) ==> msgr.Valid() && msgr.state == r.state && msgr.sent == old(msgr.sent) + r.outs)
  {
    hide Messenger.Valid;
    hide OptionStore.Valid;
    hide Allowed;
    hide Reliability.Send;
    hide Exchange.Size1Bytes;
    var store := Size1Store(blockSize);
    assert msgr.Valid();
    ghost var m := Content(Exchange.TOO_LARGE, Exchange.Size1Bytes(blockSize), []);
    StoreSendable(store, Exchange.TOO_LARGE, m);
    var p';
    p', outcome := msgr.Send(p, Exchange.TOO_LARGE, store, Contiguous([]), false, env, [], m);
  }

  lemma StoreSendable(store: OptionStore, code: Byte, m: Content)
    requires store.Valid() && m == Content(code, store.Packed(), [])
    ensures Sendable(code, store, Contiguous([]), [], m)
  {
  }

  /** `unicoap_exchange_preprocess`, `unicoap_exchange_process`, and the message layer's reaction to what they return. */
  method HandOver(msgr: Messenger, m: Exchange.Inbound, w: Exchange.World, store: OptionStore?, body: Body, ghost links: seq<Chunk>)
      returns (outcome: Outcome)
    requires msgr.Valid() && HeaderOk(m.header) && WaitsOk(msgr.config, w) && (store != null ==> store.buf !in msgr.copies)
    requires w.resolution.Found? ==> ReplySendable(w.resolution.service, store, body, links)
    modifies msgr, msgr.transmissions, msgr.copies
    ensures var r := Exchange.Exchanged(msgr.config, old(msgr.state), m, w);
            && outcome == r.outcome
            && (!Exchange.Stopped(outcome) ==> msgr.Valid() && msgr.state == r.state && msgr.sent == old(msgr.sent) + r.outs)
  {
    hide Messenger.Valid;
    hide Allowed;
    hide Reliability.Send;
    hide Exchange.Serve;
    hide Exchange.Size1Bytes;
    hide ReplySendable;
    hide EmptyMessage;
    var p := Exchange.PacketOf(m);
    if m.header.code / 32 == 0 {
      if m.truncated {
        outcome := AnswerTruncated(msgr, p, w.blockSize, w.env[0]);
        return;
      }
      match w.resolution
      case Refused(code) =>
        EmptySendable(code);
        var p';
        p', outcome := msgr.Send(p, code, null, Contiguous([]), false, w.env[0], [], Content(code, [], []));
      case Found(service) =>
        outcome := ProcessRequest(msgr, p, service, w, store, body, links);
    } else {
      outcome := Done;
      if IsResponse(m.header.code) && m.header.kind == CON {
        msgr.SendEmpty(m.remote, RST, m.header.id, w.env[0]);
      }
    }
  }

  /** `unicoap_messaging_process_rfc7252` behind the parser. */
  method Process(msgr: Messenger, m: Exchange.Inbound, w: Exchange.World, store: OptionStore?, body: Body, ghost links: seq<Chunk>)
      returns (outcome: Outcome)
    requires msgr.Valid() && HeaderOk(m.header) && WaitsOk(msgr.config, w) && (store != null ==> store.buf !in msgr.copies)
    requires w.resolution.Found? ==> ReplySendable(w.resolution.service, store, body, links)
    modifies msgr, msgr.transmissions, msgr.copies
    ensures var r := Exchange.Process(msgr.config, old(msgr.state), m, w);
            && outcome == r.outcome
            && (!Exchange.Stopped(outcome) ==> msgr.Valid() && msgr.state == r.state && msgr.sent == old(msgr.sent) + r.outs)
  {
    hide Messenger.Valid;
    hide WaitsOk;
    hide ReplySendable;
    hide Exchange.MessageLayer;
    hide Exchange.Exchanged;
    assert Exchange.WorldOk(w) by { WorldFacts(msgr.config, w); }
    ghost var before := msgr.state;
    var layer := msgr.ProcessMessagingLayer(m, w.env[0]);
    OnlyPassed(before, m, w.env[0]);
    outcome := Done;
    if layer == Exchange.Passed {
      outcome := HandOver(msgr, m, w, store, body, links);
    }
  }

  lemma WorldFacts(c: Config, w: Exchange.World)
    requires WaitsOk(c, w)
    ensures Exchange.WorldOk(w)
  {
  }

  lemma OnlyPassed(s: State, m: Exchange.Inbound, env: Env)
    requires HeaderOk(m.header)
    ensures Exchange.MessageLayer(s, m, env).2 == Exchange.Passed ==> Exchange.MessageLayer(s, m, env).1 == []
  {
  }

  // ---------------------------------------------------------------- from the bytes of a PDU to its answer

  /** What the handler of a resource does: part of the surroundings. */
  type Services = (Routing.Listener, nat) -> Exchange.Service

  /** The listener that ends the search. */
  ghost function Deciding(links: seq<Routing.Listener>, q: Routing.Request): (at: nat)
    requires !Routing.NoneEnds(links, q, |links|)
    ensures at < |links| && Routing.Ends(links, q, at) && Routing.NoneEnds(links, q, at)
    reads links
  {
    FirstEnds(links, q, |links|);
    var at :| 0 <= at < |links| && Routing.Ends(links, q, at) && Routing.NoneEnds(links, q, at);
    at
  }

  lemma {:induction false} FirstEnds(links: seq<Routing.Listener>, q: Routing.Request, n: nat)
    requires n <= |links| && !Routing.NoneEnds(links, q, n)
    ensures exists at: nat :: at < n && Routing.Ends(links, q, at) && Routing.NoneEnds(links, q, at)
    decreases n
  {
    hide Routing.Ends;
    if n > 0 {
      Routing.NextListener(links, q, n - 1);
      if Routing.NoneEnds(links, q, n - 1) {
        assert Routing.Ends(links, q, n - 1);
      } else {
        FirstEnds(links, q, n - 1);
      }
    }
  }

  lemma DecidingIs(links: seq<Routing.Listener>, q: Routing.Request, at: nat)
    requires at < |links| && Routing.Ends(links, q, at) && Routing.NoneEnds(links, q, at)
    ensures !Routing.NoneEnds(links, q, |links|) && Deciding(links, q) == at
  {
    hide Routing.Ends;
    var d := Deciding(links, q);
  }

  /** What preprocessing makes of the search: the resource found, or the status that the request is refused with. */
  ghost function Lookup(links: seq<Routing.Listener>, q: Routing.Request, copied: int, services: Services): Exchange.Resolution
    reads links
  {
    if copied <= 0 then Exchange.Refused(Routing.PATH_NOT_FOUND)
    else if Routing.NoneEnds(links, q, |links|) then
      Exchange.Refused(if Routing.SomeRefuses(links, q, |links|) then Routing.METHOD_NOT_ALLOWED else Routing.PATH_NOT_FOUND)
    else
      var l := links[Deciding(links, q)];
      Resolved(l.Verdict(q), l, l.Choice(q), services)
  }

  function Resolved(status: int, listener: Routing.Listener, index: nat, services: Services): Exchange.Resolution {
    if status == Routing.FOUND then Exchange.Found(services(listener, index))
    else Exchange.Refused(if status < 0 then Exchange.INTERNAL_ERROR else status % 256)
  }

  /** The request part of `unicoap_exchange_preprocess` that looks for the resource. */
  method Resolve(head: Routing.Listener?, q: Routing.Request, copied: int, services: Services, ghost links: seq<Routing.Listener>)
      returns (resolution: Exchange.Resolution)
    requires Routing.Chain(head, links) && forall l <- links :: forall r <- l.resources :: Routing.ResourceOk(r)
    ensures resolution == Lookup(links, q, copied, services)
  {
    hide Routing.NoneEnds;
    hide Routing.SomeRefuses;
    hide Routing.Listener.Verdict;
    hide Routing.Listener.Choice;
    hide Routing.Chain;
    hide Routing.ResourceOk;
    var status, listener, index, at := Routing.FindResource(head, q, copied, links);
    if copied > 0 && listener != null && status != Routing.METHOD_NOT_ALLOWED && status != Routing.PATH_NOT_FOUND {
      DecidingIs(links, q, at);
      return Resolved(status, listener, index, services);
    }
    resolution := Exchange.Refused(if status == Routing.METHOD_NOT_ALLOWED then Routing.METHOD_NOT_ALLOWED else Routing.PATH_NOT_FOUND);
  }

  /**
   * `unicoap_messaging_process_rfc7252` on a received PDU: whatever the parser rejects has no effect at all. The search for
   * the resource changes nothing, so it is made ahead of the message layer; `path` and `copied` are what copying the Uri-Path
   * options yields.
   */
  method Receive(msgr: Messenger, pdu: array<Byte>, size: nat, options: OptionStore, tokenMax: nat, remote: Endpoint, truncated: bool,
                 w: Exchange.World, head: Routing.Listener?, path: seq<Byte>, copied: int, services: Services,
                 store: OptionStore?, body: Body, ghost links: seq<Chunk>, ghost listeners: seq<Routing.Listener>)
      returns (code: int, outcome: Outcome)
    requires msgr.Valid() && WaitsOk(msgr.config, w)
    requires store != null ==> store.buf !in msgr.copies && store != options && store.entries != options.entries
    requires size <= pdu.Length && options.entries.Length > 0
    requires Routing.Chain(head, listeners) && forall l <- listeners :: forall r <- l.resources :: Routing.ResourceOk(r)
    requires match ParseMessage(pdu[..size], options.entries.Length, tokenMax)
             case Rejected(_) => true
             case Accepted(h, _, _) =>
               var resolution := Lookup(listeners, Routing.Request(remote.proto, h.code, path), copied, services);
               resolution.Found? ==> ReplySendable(resolution.service, store, body, links)
    modifies msgr, msgr.transmissions, msgr.copies, options, options.entries
    ensures match ParseMessage(old(pdu[..size]), options.entries.Length, tokenMax)
            case Rejected(error) =>
              code == error && outcome == Done && msgr.Valid() && msgr.state == old(msgr.state) && msgr.sent == old(msgr.sent)
            case Accepted(h, raws, tail) =>
              var m := Exchange.Inbound(remote, h, PayloadOf(tail), truncated);
              var resolution := Lookup(listeners, Routing.Request(remote.proto, h.code, path), copied, services);
              && HeaderOk(m.header)
              && var r := Exchange.Process(msgr.config, old(msgr.state), m, w.(resolution := resolution));
              && outcome == r.outcome
              && (!Exchange.Stopped(outcome) ==> msgr.Valid() && msgr.state == r.state && msgr.sent == old(msgr.sent) + r.outs)
  {
    hide Messenger.Valid;
    hide OptionStore.Valid;
    hide WaitsOk;
    hide ReplySendable;
    hide ParseMessage;
    hide Exchange.Process;
    hide Lookup;
    hide Routing.Chain;
    hide Routing.ResourceOk;
    ghost var s := pdu[..size];
    outcome := Done;
    var header, payloadAt, payloadSize;
    code, header, payloadAt, payloadSize := ParseRfc7252(pdu, size, options, tokenMax);
    ParsedFacts(s, options.entries.Length, tokenMax);
    if code < 0 {
      return;
    }
    var m := Exchange.Inbound(remote, header, pdu[payloadAt..payloadAt + payloadSize], truncated);
    var resolution := Resolve(head, Routing.Request(remote.proto, header.code, path), copied, services, listeners);
    ResolvedWaits(msgr.config, w, resolution);
    outcome := Process(msgr, m, w.(resolution := resolution), store, body, links);
  }

  lemma ResolvedWaits(c: Config, w: Exchange.World, resolution: Exchange.Resolution)
    requires WaitsOk(c, w)
    ensures WaitsOk(c, w.(resolution := resolution))
  {
  }

  lemma ParsedFacts(s: seq<Byte>, room: nat, tokenMax: nat)
    ensures var p := ParseMessage(s, room, tokenMax);
            if p.Rejected? then p.error < 0 else HeaderOk(p.header)
  {
    if ParseMessage(s, room, tokenMax).Accepted? { AcceptedParts(s, room, tokenMax); }
  }
}
