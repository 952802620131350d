/** Request routing: the default matcher over the resources of a listener, and the search over all listeners. */
module Routing {
  import opened Codec
  import opened Paths

  const FOUND := 0
  const PATH_NOT_FOUND := 0x84
  const METHOD_NOT_ALLOWED := 0x85

  /** Which protocols and methods a resource takes is a set; the accessors of these sets are not part of this model. */
  datatype Resource = Resource(path: seq<Byte>, subtree: bool, protocols: set<nat>, methods: set<nat>)

  datatype Request = Request(protocol: nat, method': nat, path: seq<Byte>)

  ghost predicate ResourceOk(r: Resource) {
    r.path != [] && Text(r.path)
  }

  /** Protocol and path match. */
  predicate Reaches(r: Resource, q: Request) {
    q.protocol in r.protocols && StringMatch(r.subtree, r.path, Trimmed(q.path))
  }

  /** So does the method. */
  predicate Serves(r: Resource, q: Request) {
    Reaches(r, q) && q.method' in r.methods
  }

  /** How a listener chooses a resource; a custom matcher answers with a status and the index of a resource. */
  datatype Matcher = Unset | Default | Custom(decide: Request -> (int, nat))

  /** How a listener describes its resources to a client; encoders themselves are not part of this model. */
  datatype Encoder = NoEncoder | DefaultEncoder | CustomEncoder(id: nat)

  ghost predicate SomeServes(resources: seq<Resource>, q: Request) {
    exists i :: 0 <= i < |resources| && Serves(resources[i], q)
  }

  ghost predicate SomeReached(resources: seq<Resource>, q: Request) {
    exists i :: 0 <= i < |resources| && Reaches(resources[i], q)
  }

  /** Resource `index` is the first that serves the request. */
  predicate FirstServing(resources: seq<Resource>, q: Request, index: nat) {
    index < |resources| && Serves(resources[index], q) && forall i :: 0 <= i < index ==> !Serves(resources[i], q)
  }

  ghost function FirstIndex(resources: seq<Resource>, q: Request): (i: nat)
    requires SomeServes(resources, q)
    ensures FirstServing(resources, q, i)
  {
    if Serves(resources[0], q) then 0
    else
      assert SomeServes(resources[1..], q) by {
        var k :| 0 <= k < |resources| && Serves(resources[k], q);
        assert resources[1..][k - 1] == resources[k];
      }
      1 + FirstIndex(resources[1..], q)
  }

  class Listener {
    const protocols: set<nat>
    const resources: seq<Resource>
    var requestMatcher: Matcher
    var linkEncoder: Encoder
    var next: Listener?

    constructor (protocols: set<nat>, resources: seq<Resource>, requestMatcher: Matcher, linkEncoder: Encoder)
      ensures this.protocols == protocols && this.resources == resources && next == null
      ensures this.requestMatcher == requestMatcher && this.linkEncoder == linkEncoder
    {
      this.protocols, this.resources, this.next := protocols, resources, null;
      this.requestMatcher, this.linkEncoder := requestMatcher, linkEncoder;
    }

    /** `unicoap_resource_match_request_default`; `index` is the resource the out-pointer is left at. */
    method MatchRequest(q: Request) returns (status: int, index: nat)
      requires forall r <- resources :: ResourceOk(r)
      ensures status == if SomeServes(resources, q) then FOUND else if SomeReached(resources, q) then METHOD_NOT_ALLOWED else PATH_NOT_FOUND
      ensures status == FOUND ==> FirstServing(resources, q, index)
      ensures status != FOUND && resources != [] ==> index == |resources| - 1
    {
      status, index := PATH_NOT_FOUND, 0;
      for i := 0 to |resources|
        invariant (status == PATH_NOT_FOUND || status == METHOD_NOT_ALLOWED) && index == (if i == 0 then 0 else i - 1)
        invariant forall k :: 0 <= k < i ==> !Serves(resources[k], q)
        invariant status == METHOD_NOT_ALLOWED <==> exists k :: 0 <= k < i && Reaches(resources[k], q)
      {
        index := i;
        var r := resources[i];
        if q.protocol !in r.protocols {
          continue;
        }
        assert ResourceOk(resources[i]);
        var matches := MatchPathString(r.path, r.subtree, q.path);
        if !matches {
          continue;
        }
        assert Reaches(resources[i], q);
        if q.method' !in r.methods {
          status := METHOD_NOT_ALLOWED;
          continue;
        } else {
          assert Serves(resources[i], q);
          return FOUND, index;
        }
      }
    }

    /** The status that the listener's matcher gives a request. */
    ghost function Verdict(q: Request): int
      reads this
    {
      if requestMatcher.Custom? then requestMatcher.decide(q).0
      else if SomeServes(resources, q) then FOUND
      else if SomeReached(resources, q) then METHOD_NOT_ALLOWED
      else PATH_NOT_FOUND
    }

    /** The resource that comes with a final status. */
    ghost function Choice(q: Request): nat
      reads this
    {
      if requestMatcher.Custom? then requestMatcher.decide(q).1
      else if SomeServes(resources, q) then FirstIndex(resources, q)
      else 0
    }

    /** The call through the matcher's pointer. */
    method CallMatcher(q: Request) returns (status: int, index: nat)
      requires requestMatcher != Unset && forall r <- resources :: ResourceOk(r)
      ensures status == Verdict(q) && (status != PATH_NOT_FOUND && status != METHOD_NOT_ALLOWED ==> index == Choice(q))
    {
      if requestMatcher.Custom? {
        var answer := requestMatcher.decide(q);
        status, index := answer.0, answer.1;
      } else {
        status, index := MatchRequest(q);
      }
    }
  }

  /** `links` are the listeners from `head` on; each has a matcher. */
  ghost predicate Chain(head: Listener?, links: seq<Listener>)
    reads links
  {
    && head == (if links == [] then null else links[0])
    && forall i :: 0 <= i < |links| ==> links[i].next == Behind(links, i) && links[i].requestMatcher != Unset
  }

  ghost function Behind(links: seq<Listener>, i: nat): Listener?
    requires i < |links|
  {
    if i + 1 < |links| then links[i + 1] else null
  }

  /** `unicoap_listener_register`: the newest listener comes first, and what it left unset is set to the defaults. */
  method Register(head: Listener?, listener: Listener, ghost links: seq<Listener>) returns (head': Listener)
    requires Chain(head, links) && listener !in links && listener.next == null
    modifies listener
    ensures head' == listener && Chain(head', [listener] + links)
    ensures listener.requestMatcher == if old(listener.requestMatcher) == Unset then Default else old(listener.requestMatcher)
    ensures listener.linkEncoder == if old(listener.linkEncoder) == NoEncoder then DefaultEncoder else old(listener.linkEncoder)
  {
    listener.next := head;
    head' := listener;
    if listener.linkEncoder == NoEncoder {
      listener.linkEncoder := DefaultEncoder;
    }
    if listener.requestMatcher.Unset? {
      listener.requestMatcher := Default;
    }
    Linked(head, listener, links);
  }

  lemma Linked(head: Listener?, listener: Listener, links: seq<Listener>)
    requires Chain(head, links) && listener.next == head && listener.requestMatcher != Unset
    ensures Chain(listener, [listener] + links)
  {
    var all := [listener] + links;
    forall i | 0 <= i < |all| ensures all[i].next == Behind(all, i) && all[i].requestMatcher != Unset {
      if i > 0 { assert all[i] == links[i - 1] && links[i - 1].next == Behind(links, i - 1); }
    }
  }

  /** Listener `l` takes the protocol and ends the search. */
  ghost predicate Ends(links: seq<Listener>, q: Request, l: nat)
    requires l < |links|
    reads links
  {
    q.protocol in links[l].protocols && links[l].Verdict(q) != PATH_NOT_FOUND && links[l].Verdict(q) != METHOD_NOT_ALLOWED
  }

  /** Listener `l` takes the protocol and has the path, but not the method. */
  ghost predicate Refuses(links: seq<Listener>, q: Request, l: nat)
    requires l < |links|
    reads links
  {
    q.protocol in links[l].protocols && links[l].Verdict(q) == METHOD_NOT_ALLOWED
  }

  /** None of the first `n` listeners ends the search. */
  ghost predicate NoneEnds(links: seq<Listener>, q: Request, n: nat)
    requires n <= |links|
    reads links
  {
    forall l :: 0 <= l < n ==> !Ends(links, q, l)
  }

  ghost predicate SomeRefuses(links: seq<Listener>, q: Request, n: nat)
    requires n <= |links|
    reads links
  {
    exists l :: 0 <= l < n && Refuses(links, q, l)
  }

  /** One listener more. */
  lemma NextListener(links: seq<Listener>, q: Request, n: nat)
    requires n < |links|
    ensures NoneEnds(links, q, n + 1) <==> NoneEnds(links, q, n) && !Ends(links, q, n)
    ensures SomeRefuses(links, q, n + 1) <==> SomeRefuses(links, q, n) || Refuses(links, q, n)
  {
    hide Ends;
    hide Refuses;
    if SomeRefuses(links, q, n) || Refuses(links, q, n) {
      var l :| 0 <= l <= n && Refuses(links, q, l);
      assert l < n + 1;
    }
  }

  lemma EndsHere(links: seq<Listener>, q: Request, n: nat)
    requires n < |links| && Ends(links, q, n)
    ensures !NoneEnds(links, q, |links|)
  {
    hide Ends;
  }

  /**
   * `unicoap_resource_find` behind the copying of the path, of which `copied` is the return value: the first listener
   * whose matcher neither passes nor refuses decides; else 4.05 if some listener refused, else 4.04.
   */
  method FindResource(head: Listener?, q: Request, copied: int, ghost links: seq<Listener>)
      returns (status: int, listener: Listener?, index: nat, ghost at: nat)
    requires Chain(head, links) && forall l <- links :: forall r <- l.resources :: ResourceOk(r)
    ensures copied <= 0 ==> status == PATH_NOT_FOUND
    ensures copied > 0 && NoneEnds(links, q, |links|) ==>
              status == if SomeRefuses(links, q, |links|) then METHOD_NOT_ALLOWED else PATH_NOT_FOUND
    ensures copied > 0 && !NoneEnds(links, q, |links|) ==>
              && at < |links| && Ends(links, q, at) && NoneEnds(links, q, at)
              && listener == links[at] && status == links[at].Verdict(q) && index == links[at].Choice(q)
  {
    hide NoneEnds;
    hide SomeRefuses;
    hide Listener.Verdict;
    hide Listener.Choice;
    hide ResourceOk;
    status, listener, index, at := PATH_NOT_FOUND, null, 0, 0;
    if copied <= 0 {
      return;
    }
    var cursor := head;
    NothingSeen(links, q);
    while cursor != null
      invariant at <= |links| && cursor == (if at == |links| then null else links[at])
      invariant NoneEnds(links, q, at) && status == if SomeRefuses(links, q, at) then METHOD_NOT_ALLOWED else PATH_NOT_FOUND
      decreases |links| - at
    {
      NextListener(links, q, at);
      assert cursor.next == Behind(links, at);
      if q.protocol !in cursor.protocols {
        cursor, at := cursor.next, at + 1;
        continue;
      }
      var result, i := cursor.CallMatcher(q);
      if result == PATH_NOT_FOUND {
        cursor, at := cursor.next, at + 1;
        continue;
      } else if result == METHOD_NOT_ALLOWED {
        status, listener, index := result, cursor, i;
        cursor, at := cursor.next, at + 1;
        continue;
      } else {
        EndsHere(links, q, at);
        return result, cursor, i, at;
      }
    }
  }

  lemma NothingSeen(links: seq<Listener>, q: Request)
    ensures NoneEnds(links, q, 0) && !SomeRefuses(links, q, 0)
  {
  }

  /** With default matchers, the search ends exactly if a resource serves the request, and is refused exactly if one is only reached. */
  lemma DefaultsFind(links: seq<Listener>, q: Request)
    requires forall l <- links :: !l.requestMatcher.Custom?
    ensures NoneEnds(links, q, |links|) <==>
              forall l, i :: 0 <= l < |links| && 0 <= i < |links[l].resources| ==> !ServedAt(links, q, l, i)
    ensures NoneEnds(links, q, |links|) ==>
              (SomeRefuses(links, q, |links|) <==>
               exists l, i :: 0 <= l < |links| && 0 <= i < |links[l].resources| && ReachedAt(links, q, l, i))
  {
    hide Serves;
    hide Reaches;
    forall l | 0 <= l < |links|
      ensures Ends(links, q, l) <==> exists i :: 0 <= i < |links[l].resources| && ServedAt(links, q, l, i)
      ensures !Ends(links, q, l) ==>
                (Refuses(links, q, l) <==> exists i :: 0 <= i < |links[l].resources| && ReachedAt(links, q, l, i))
    {
      DefaultAt(links, q, l);
    }
    hide Ends;
    hide Refuses;
    hide ServedAt;
    hide ReachedAt;
  }

  lemma DefaultAt(links: seq<Listener>, q: Request, l: nat)
    requires l < |links| && !links[l].requestMatcher.Custom?
    ensures Ends(links, q, l) <==> exists i :: 0 <= i < |links[l].resources| && ServedAt(links, q, l, i)
    ensures !Ends(links, q, l) ==>
              (Refuses(links, q, l) <==> exists i :: 0 <= i < |links[l].resources| && ReachedAt(links, q, l, i))
  {
    hide Serves;
    hide Reaches;
    if Ends(links, q, l) {
      var i :| 0 <= i < |links[l].resources| && Serves(links[l].resources[i], q);
      assert ServedAt(links, q, l, i);
    } else if Refuses(links, q, l) {
      var i :| 0 <= i < |links[l].resources| && Reaches(links[l].resources[i], q);
      assert ReachedAt(links, q, l, i);
    }
  }

  /** Resource `i` of listener `l` can be reached, or can serve the request. */
  ghost predicate ReachedAt(links: seq<Listener>, q: Request, l: nat, i: nat)
    requires l < |links| && i < |links[l].resources|
  {
    q.protocol in links[l].protocols && Reaches(links[l].resources[i], q)
  }

  ghost predicate ServedAt(links: seq<Listener>, q: Request, l: nat, i: nat)
    requires l < |links| && i < |links[l].resources|
  {
    q.protocol in links[l].protocols && Serves(links[l].resources[i], q)
  }

  /** For proper paths, reaching a resource means that its components are those of the request, or begin them. */
  lemma ReachesComponents(r: Resource, protocol: nat, method': nat, resource: seq<seq<Byte>>, request: seq<seq<Byte>>)
    requires Proper(resource) && Proper(request) && r.path == Slashed(resource)
    ensures Reaches(r, Request(protocol, method', Slashed(request))) <==> protocol in r.protocols && Covers(r.subtree, resource, request)
  {
    StringMatchDecides(r.subtree, resource, request);
  }
}
