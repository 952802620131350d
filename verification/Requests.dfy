/** What a received request is answered with: from its bytes over the path to the resource. */
module Requests {
  import opened Codec
  import opened Pdu
  import opened Reliability
  import opened Exchange
  import opened Paths
  import opened Routing
  import opened Server
  import opened Answers

  /** Resource `i` of listener `l` serves the request. */
  ghost predicate Serving(links: seq<Listener>, q: Request, l: nat, i: nat) {
    l < |links| && i < |links[l].resources| && ServedAt(links, q, l, i)
  }

  /** It can be reached, by protocol and path. */
  ghost predicate Reaching(links: seq<Listener>, q: Request, l: nat, i: nat) {
    l < |links| && i < |links[l].resources| && ReachedAt(links, q, l, i)
  }

  /** It is the first that serves, in the order of listeners and resources. */
  ghost predicate ServingFirst(links: seq<Listener>, q: Request, l: nat, i: nat) {
    && Serving(links, q, l, i)
    && forall l', i' :: 0 <= l' && 0 <= i' && Serving(links, q, l', i') ==> l < l' || (l == l' && i <= i')
  }

  // ---------------------------------------------------------------- the search

  /** Default matchers find the first resource that serves the request, else refuse or pass. */
  lemma LookupDecides(links: seq<Listener>, q: Request, copied: int, services: Services)
    requires (forall l <- links :: !l.requestMatcher.Custom?) && copied > 0
    ensures if exists l: nat, i: nat :: Serving(links, q, l, i) then
              exists l: nat, i: nat :: ServingFirst(links, q, l, i) && Lookup(links, q, copied, services) == Exchange.Found(services(links[l], i))
            else
              Lookup(links, q, copied, services)
              == Exchange.Refused(if exists l: nat, i: nat :: Reaching(links, q, l, i) then METHOD_NOT_ALLOWED else PATH_NOT_FOUND)
  {
    hide ServedAt;
    hide ReachedAt;
    DefaultsFind(links, q);
    if NoneEnds(links, q, |links|) {
      NoneServed(links, q);
    } else {
      var at := Deciding(links, q);
      ChosenFirst(links, q, at);
    }
  }

  /**
   * A listener with a matcher of its own that ends the search decides: status 0 hands the request to the resource that it
   * names, a negative one is answered with 5.00, any other is the answer's code.
   */
  lemma CustomDecides(links: seq<Listener>, q: Request, copied: int, services: Services, at: nat)
    requires at < |links| && links[at].requestMatcher.Custom? && q.protocol in links[at].protocols && copied > 0
    requires links[at].requestMatcher.decide(q).0 != 0x84 && links[at].requestMatcher.decide(q).0 != 0x85 && NoneEnds(links, q, at)
    ensures var (status, index) := links[at].requestMatcher.decide(q);
            Lookup(links, q, copied, services)
            == if status == 0 then Exchange.Found(services(links[at], index))
               else Exchange.Refused(if status < 0 then 0xa0 else status % 256)
  {
    DecidingIs(links, q, at);
  }

  lemma NoneServed(links: seq<Listener>, q: Request)
    requires forall l, i :: 0 <= l < |links| && 0 <= i < |links[l].resources| ==> !ServedAt(links, q, l, i)
    requires SomeRefuses(links, q, |links|) <==>
               exists l, i :: 0 <= l < |links| && 0 <= i < |links[l].resources| && ReachedAt(links, q, l, i)
    ensures !exists l: nat, i: nat :: Serving(links, q, l, i)
    ensures SomeRefuses(links, q, |links|) <==> exists l: nat, i: nat :: Reaching(links, q, l, i)
  {
    hide ServedAt;
    hide ReachedAt;
    hide SomeRefuses;
    if SomeRefuses(links, q, |links|) {
      var l, i :| 0 <= l < |links| && 0 <= i < |links[l].resources| && ReachedAt(links, q, l, i);
      assert Reaching(links, q, l, i);
    }
  }

  /** The resource that the deciding listener chooses is the first of all. */
  lemma ChosenFirst(links: seq<Listener>, q: Request, at: nat)
    requires at < |links| && Ends(links, q, at) && NoneEnds(links, q, at) && forall l <- links :: !l.requestMatcher.Custom?
    ensures links[at].Verdict(q) == FOUND && ServingFirst(links, q, at, links[at].Choice(q))
  {
    hide Reaches;
    hide FirstIndex;
    var i := links[at].Choice(q);
    assert FirstServing(links[at].resources, q, i);
    assert Serving(links, q, at, i);
    forall l', i' | 0 <= l' && 0 <= i' && Serving(links, q, l', i')
      ensures at < l' || (at == l' && i <= i')
    {
      assert Ends(links, q, l');
    }
  }

  // ---------------------------------------------------------------- the answer

  /**
   * A request that the parser accepts, confirmable or not, is answered by the first resource that serves it; if there is
   * none, with 4.05 if one can be reached, else with 4.04. A path that cannot be copied is answered with 4.04.
   */
  lemma RequestAnswered(c: Config, s: State, bytes: seq<Byte>, room: nat, tokenMax: nat, remote: Endpoint, w: World,
                        links: seq<Listener>, path: seq<Byte>, copied: int, services: Services)
    requires ParseMessage(bytes, room, tokenMax).Accepted? && WorldOk(w) && forall l <- links :: !l.requestMatcher.Custom?
    requires var h := ParseMessage(bytes, room, tokenMax).header; 0 < h.code < 32 && (h.kind == CON || h.kind == NON)
    ensures var p := ParseMessage(bytes, room, tokenMax);
            var m, q := Inbound(remote, p.header, PayloadOf(p.tail), false), Request(remote.proto, p.header.code, path);
            && HeaderOk(p.header)
            && var r := Exchange.Process(c, s, m, w.(resolution := Lookup(links, q, copied, services)));
            if copied > 0 && exists l: nat, i: nat :: Serving(links, q, l, i) then
              exists l: nat, i: nat ::
                && ServingFirst(links, q, l, i)
                && var answer := Serve(c, s, PacketOf(m), services(links[l], i), w.(resolution := Exchange.Found(services(links[l], i))));
                r == Processed(answer.state, answer.outs, answer.outcome)
            else
              var refused := if copied > 0 && exists l: nat, i: nat :: Reaching(links, q, l, i) then METHOD_NOT_ALLOWED else PATH_NOT_FOUND;
              var answer := Send(c, s, PacketOf(m), Content(refused, [], []), false, w.env[0]);
              r == Processed(answer.state, answer.outs, answer.outcome)
  {
    hide ParseMessage;
    hide Serving;
    hide Reaching;
    hide ServingFirst;
    hide Serve;
    hide Reliability.Send;
    var p := ParseMessage(bytes, room, tokenMax);
    ParsedFacts(bytes, room, tokenMax);
    var q := Request(remote.proto, p.header.code, path);
    if copied > 0 { LookupDecides(links, q, copied, services); }
    var m, resolution := Inbound(remote, p.header, PayloadOf(p.tail), false), Lookup(links, q, copied, services);
    assert copied <= 0 ==> resolution == Exchange.Refused(PATH_NOT_FOUND);
    hide Lookup;
    AnsweredBy(c, s, m, w.(resolution := resolution));
  }

  /**
   * The same from bytes to bytes. The handler of the first resource that serves the request decides what its client reads
   * from the answer; with no such resource that is 4.05 or 4.04 alone, if it can be sent.
   */
  lemma RequestReadBack(c: Config, s: State, bytes: seq<Byte>, room: nat, tokenMax: nat, remote: Endpoint, w: World,
                        links: seq<Listener>, path: seq<Byte>, copied: int, services: Services)
    requires ParseMessage(bytes, room, tokenMax).Accepted? && WorldOk(w) && forall l <- links :: !l.requestMatcher.Custom?
    requires var h := ParseMessage(bytes, room, tokenMax).header; 0 < h.code < 32 && (h.kind == CON || h.kind == NON)
    ensures var p := ParseMessage(bytes, room, tokenMax);
            var m, q := Inbound(remote, p.header, PayloadOf(p.tail), false), Request(remote.proto, p.header.code, path);
            && HeaderOk(p.header)
            && var r := Exchange.Process(c, s, m, w.(resolution := Lookup(links, q, copied, services)));
            if copied > 0 && exists l: nat, i: nat :: Serving(links, q, l, i) then
              exists l: nat, i: nat :: ServingFirst(links, q, l, i) && Answered(c, s, PacketOf(m), services(links[l], i), w, r)
            else
              var code: Byte := if copied > 0 && exists l: nat, i: nat :: Reaching(links, q, l, i) then 0x85 else 0x84;
              if w.env[0].transport >= 0 && HEADER_SIZE + |p.header.token| <= c.headerMax then
                One(r.outs, remote, if p.header.kind == CON then Header(ACK, code, p.header.id, p.header.token)
                                    else Header(NON, code, s.nextId % ID_COUNT, p.header.token), [], [])
              else r.outs == []
  {
    hide ParseMessage;
    hide Serving;
    hide Reaching;
    hide ServingFirst;
    hide Answered;
    hide Exchange.Process;
    hide One;
    var p := ParseMessage(bytes, room, tokenMax);
    ParsedFacts(bytes, room, tokenMax);
    var q := Request(remote.proto, p.header.code, path);
    if copied > 0 { LookupDecides(links, q, copied, services); }
    var m, resolution := Inbound(remote, p.header, PayloadOf(p.tail), false), Lookup(links, q, copied, services);
    assert copied <= 0 ==> resolution == Exchange.Refused(PATH_NOT_FOUND);
    hide Lookup;
    var w' := w.(resolution := resolution);
    match resolution
    case Found(service) =>
      HandlerAnswers(c, s, m, w');
      SameWorld(c, s, PacketOf(m), service, w, w', Exchange.Process(c, s, m, w'));
    case Refused(_) =>
      RefusalReads(c, s, m, w');
  }

  /** What a handler's client reads does not depend on the search. */
  lemma SameWorld(c: Config, s: State, p: Packet, service: Service, w: World, w': World, r: Processed)
    requires PacketOk(p) && WorldOk(w) && w' == w.(resolution := w'.resolution) && Answered(c, s, p, service, w', r)
    ensures Answered(c, s, p, service, w, r)
  {
    hide Told;
    hide Exchange.SendBody;
    hide Derails;
  }

  /** A complete request is answered as the search says. */
  lemma AnsweredBy(c: Config, s: State, m: Inbound, w: World)
    requires HeaderOk(m.header) && WorldOk(w) && 0 < m.header.code < 32 && (m.header.kind == CON || m.header.kind == NON) && !m.truncated
    ensures var answer := match w.resolution
                          case Refused(code) => Send(c, s, PacketOf(m), Content(code, [], []), false, w.env[0])
                          case Found(service) => Serve(c, s, PacketOf(m), service, w);
            Exchange.Process(c, s, m, w) == Processed(answer.state, answer.outs, answer.outcome)
  {
    hide Serve;
    hide Reliability.Send;
  }

  // ---------------------------------------------------------------- in components

  /** A nonempty path with one leading slash, single slashes between and none behind its components. */
  ghost predicate InSlashedForm(r: Resource) {
    r.path != [] && r.path == Slashed(Parts(r.path))
  }

  /**
   * For a request whose path was joined from proper components, a resource in slashed form serves it exactly if protocols
   * and method are its own and its components are those of the request, or begin them if it is a subtree.
   */
  lemma ServingByComponents(links: seq<Listener>, q: Request, components: seq<seq<Byte>>, l: nat, i: nat)
    requires l < |links| && i < |links[l].resources| && InSlashedForm(links[l].resources[i])
    requires Proper(components) && q.path == Slashed(components)
    ensures var r := links[l].resources[i];
            && (Reaching(links, q, l, i) <==>
                  q.protocol in links[l].protocols && q.protocol in r.protocols && Covers(r.subtree, Parts(r.path), components))
            && (Serving(links, q, l, i) <==> Reaching(links, q, l, i) && q.method' in r.methods)
  {
    hide Parts;
    hide Slashed;
    hide StringMatch;
    hide Proper;
    var r := links[l].resources[i];
    MatchersAgreeIff(r.subtree, r.path);
  }
}
