/** Whole runs of the message layer: buffer ownership, identical retransmissions, back-off, and what is never given back. */
module ReliabilityRuns {
  import opened Codec
  import opened Pdu
  import opened Reliability

  /** Type and ID can be read off the wire, and the first byte is never the zero that marks a free copy. */
  lemma WireFacts(p: Packet, m: Content)
    requires PacketOk(p)
    ensures 64 <= Wire(p, m)[0] < 128 && KindOf(Wire(p, m)) == p.kind && IdOf(Wire(p, m)) == p.id
  {
    var h := HeaderOf(p, m.code);
    HeaderBits(h, m.options + PayloadBytes(m.payload));
    assert Wire(p, m) == HeaderBytes(h) + (m.options + PayloadBytes(m.payload));
    FirstByte(h, m.options, m.payload);
  }

  lemma EmptyFacts(kind: nat, id: nat)
    requires kind <= 3 && id < ID_COUNT
    ensures |EmptyWire(kind, id)| == HEADER_SIZE && KindOf(EmptyWire(kind, id)) == kind && IdOf(EmptyWire(kind, id)) == id
  {
    HeaderBits(Header(kind, 0, id, []), []);
    assert HeaderBytes(Header(kind, 0, id, [])) + [] == HeaderBytes(Header(kind, 0, id, []));
  }

  // ---------------------------------------------------------------- one step

  /** A slot stays fine when other copies are claimed or freed and the counter moves on. */
  lemma SlotStays(c: Config, s: State, s': State, l: Slot)
    requires l.Live? && SlotOk(c, s, l) && s.nextId <= s'.nextId && |s'.held| == |s.held| && s'.held[l.copy]
    ensures SlotOk(c, s', l)
  {
  }

  /** If some slot has copy `k`, the search for its owner succeeds. */
  lemma OwnerFound(slots: seq<Slot>, i: nat)
    requires i < |slots| && slots[i].Live?
    ensures Owner(slots, slots[i].copy) <= i
  {
  }

  /** Claiming a vacant copy for an idle slot. */
  lemma ClaimKeepsInv(c: Config, s: State, j: nat, l: Slot)
    requires Inv(c, s) && j < |s.slots| && s.slots[j].Idle? && l.Live? && l.copy < |s.held| && !s.held[l.copy]
    requires var s' := State(s.nextId + 1, s.slots[j := l], s.held[l.copy := true]); l.birth == s.nextId && SlotOk(c, s', l)
    ensures Inv(c, State(s.nextId + 1, s.slots[j := l], s.held[l.copy := true]))
  {
    var s' := State(s.nextId + 1, s.slots[j := l], s.held[l.copy := true]);
    forall i | 0 <= i < |s'.slots| && s'.slots[i].Live? ensures SlotOk(c, s', s'.slots[i]) {
      if i != j { SlotStays(c, s, s', s.slots[i]); }
    }
    forall k | 0 <= k < |s'.held| && s'.held[k] ensures Owner(s'.slots, k) < |s'.slots| {
      if k == l.copy {
        OwnerFound(s'.slots, j);
      } else {
        var i := Owner(s.slots, k);
        assert i != j;
        OwnerFound(s'.slots, i);
      }
    }
  }

  /** Only the counter moves. */
  lemma CountKeepsInv(c: Config, s: State, nextId: nat)
    requires Inv(c, s) && s.nextId <= nextId
    ensures Inv(c, s.(nextId := nextId))
  {
    var s' := s.(nextId := nextId);
    forall i | 0 <= i < |s'.slots| && s'.slots[i].Live? ensures SlotOk(c, s', s'.slots[i]) {
      SlotStays(c, s, s', s.slots[i]);
    }
  }

  /** Giving back a slot and its copy. */
  lemma ReleaseKeepsInv(c: Config, s: State, i: nat)
    requires Inv(c, s) && i < |s.slots| && s.slots[i].Live?
    ensures s.slots[i].copy < |s.held| && Inv(c, Release(s, i))
  {
    assert SlotOk(c, s, s.slots[i]);
    var s' := Release(s, i);
    forall j | 0 <= j < |s'.slots| && s'.slots[j].Live? ensures SlotOk(c, s', s'.slots[j]) {
      SlotStays(c, s, s', s.slots[j]);
    }
    forall k | 0 <= k < |s'.held| && s'.held[k] ensures Owner(s'.slots, k) < |s'.slots| {
      var j := Owner(s.slots, k);
      assert j != i;
      OwnerFound(s'.slots, j);
    }
  }

  /** A slot that keeps its copy and birth is replaced. */
  lemma RetimeKeepsInv(c: Config, s: State, i: nat, l: Slot)
    requires Inv(c, s) && i < |s.slots| && s.slots[i].Live? && l.Live? && SlotOk(c, s, l)
    requires l.copy == s.slots[i].copy && l.birth == s.slots[i].birth
    ensures Inv(c, s.(slots := s.slots[i := l]))
  {
    var s' := s.(slots := s.slots[i := l]);
    forall j | 0 <= j < |s'.slots| && s'.slots[j].Live? ensures SlotOk(c, s', s'.slots[j]) {
      SlotStays(c, s, s', s'.slots[j]);
    }
    forall k | 0 <= k < |s'.held| && s'.held[k] ensures Owner(s'.slots, k) < |s'.slots| {
      OwnerFound(s'.slots, Owner(s.slots, k));
    }
  }

  /** Sending keeps the pools consistent, and a failing send leaves both exactly as they were. */
  lemma SendKeepsInv(c: Config, s: State, p: Packet, m: Content, reliable: bool, env: Env)
    requires ConfigOk(c) && Inv(c, s) && PacketOk(p) && Allowed(c, 0, env.wait)
    ensures Inv(c, Send(c, s, p, m, reliable, env).state)
    ensures Send(c, s, p, m, reliable, env).outcome != Done ==>
              var s' := Send(c, s, p, m, reliable, env).state; s'.slots == s.slots && s'.held == s.held
  {
    hide Inv;
    hide Allowed;
    FormatOk(p, m.code, reliable, s.nextId);
    var (p', nextId) := Format(p, m.code, reliable, s.nextId);
    CountKeepsInv(c, s, nextId);
    var r := Send(c, s, p, m, reliable, env);
    if p'.kind == CON && r.outcome == Done {
      WireFacts(p', m);
      var j, k := FirstIdle(s.slots), FirstVacant(s.held);
      var l := r.state.slots[j];
      assert SlotOk(c, r.state, l);
      ClaimKeepsInv(c, s, j, l);
    }
  }

  lemma EndKeepsInv(c: Config, s: State, remote: Endpoint, id: nat)
    requires Inv(c, s)
    ensures Inv(c, End(s, remote, id))
  {
    var i := Find(s.slots, remote, id);
    if i < |s.slots| { ReleaseKeepsInv(c, s, i); }
  }

  /** The index that the timeout handler computes is the number of waits so far. */
  lemma ExpireKeepsInv(c: Config, s: State, i: nat, env: Env)
    requires ConfigOk(c) && Inv(c, s) && Enabled(c, s, Expiring(i, env))
    ensures Inv(c, Expire(s, i, env))
    ensures s.slots[i].remaining > 0 ==> WaitIndex(c, s.slots[i]) == |s.slots[i].waits| <= c.retransmissions < 32
  {
    hide Allowed;
    hide Inv;
    hide KindOf;
    hide IdOf;
    var l := s.slots[i];
    LiveOk(c, s, i);
    var l' := Expire(s, i, env).slots[i];
    if l.remaining > 0 && env.transport >= 0 {
      assert forall k :: 0 <= k < |l'.waits| ==> l'.waits[k] == if k < |l.waits| then l.waits[k] else env.wait;
    }
    RetimeKeepsInv(c, s, i, l');
  }

  lemma NextKeepsInv(c: Config, s: State, e: Event)
    requires ConfigOk(c) && Inv(c, s) && Enabled(c, s, e)
    ensures Inv(c, Next(c, s, e))
  {
    match e
    case Sending(p, m, reliable, env) => SendKeepsInv(c, s, p, m, reliable, env);
    case Ending(remote, id) => EndKeepsInv(c, s, remote, id);
    case Expiring(i, env) => ExpireKeepsInv(c, s, i, env);
  }

  // ---------------------------------------------------------------- whole runs

  /** Over any interleaving of sends, acknowledgements, resets and timeouts the copies in use belong one to one to live slots. */
  lemma {:induction false} OwnershipOverRuns(c: Config, states: seq<State>, events: seq<Event>, n: nat)
    requires ConfigOk(c) && Run(c, states, events) && Inv(c, states[0]) && n <= |events|
    ensures Inv(c, states[n])
    decreases n
  {
    if n > 0 {
      OwnershipOverRuns(c, states, events, n - 1);
      NextKeepsInv(c, states[n - 1], events[n - 1]);
    }
  }

  lemma InitialInv(c: Config, s: State)
    requires Initial(s)
    ensures Inv(c, s)
  {
  }

  // ---------------------------------------------------------------- one transmission over a run

  /** The event is an acknowledgement or reset that reaches the transmission in slot `i`. */
  predicate Ends(s: State, e: Event, i: nat) {
    e.Ending? && i < |s.slots| && Find(s.slots, e.remote, e.id) == i
  }

  /** The same transmission: nothing but attempts, timer and the record of waits may have changed. */
  ghost predicate SameTransmission(l: Slot, l': Slot) {
    && l.Live? && l'.Live? && l.remote == l'.remote && l.id == l'.id && l.copy == l'.copy && l.pdu == l'.pdu && l.birth == l'.birth
    && l.waits <= l'.waits && (l.timer == Off ==> l'.timer == Off && l'.waits == l.waits)
  }

  /** A live transmission survives every step but the acknowledgement or reset that reaches it; timeouts never end it. */
  lemma StepKeepsTransmission(c: Config, s: State, e: Event, i: nat)
    requires Inv(c, s) && Enabled(c, s, e) && i < |s.slots| && s.slots[i].Live?
    ensures |Next(c, s, e).slots| == |s.slots| && |Next(c, s, e).held| == |s.held|
    ensures if Ends(s, e, i) then Next(c, s, e).slots[i] == Idle && !Next(c, s, e).held[s.slots[i].copy]
            else SameTransmission(s.slots[i], Next(c, s, e).slots[i])
    ensures !Ends(s, e, i) ==> |Next(c, s, e).slots[i].waits| == |s.slots[i].waits| + if e.Expiring? && e.slot == i then |Output(c, s, e)| else 0
    ensures e.Expiring? && e.slot == i ==> |Output(c, s, e)| <= 1 && forall d <- Output(c, s, e) :: d == Datagram(s.slots[i].remote, s.slots[i].pdu)
  {
    hide Send;
    hide End;
    hide Inv;
    hide SlotOk;
    hide Allowed;
    match e
    case Sending(p, m, reliable, env) => SendingKeepsLive(c, s, p, m, reliable, env, i);
    case Ending(remote, id) => EndsOnlyMatching(c, s, remote, id);
    case Expiring(j, env) =>
  }

  lemma SendingKeepsLive(c: Config, s: State, p: Packet, m: Content, reliable: bool, env: Env, i: nat)
    requires PacketOk(p) && i < |s.slots| && s.slots[i].Live?
    ensures var s' := Send(c, s, p, m, reliable, env).state;
            |s'.slots| == |s.slots| && |s'.held| == |s.held| && s'.slots[i] == s.slots[i]
  {
    hide Wire;
  }

  /** How often the events from `start` on and before `n` retransmit the PDU in slot `i`. */
  ghost function Resends(c: Config, states: seq<State>, events: seq<Event>, i: nat, start: nat, n: nat): nat
    requires Run(c, states, events) && start <= n <= |events|
    decreases n
  {
    if n == start then 0
    else
      var now := if events[n - 1].Expiring? && events[n - 1].slot == i then |Output(c, states[n - 1], events[n - 1])| else 0;
      Resends(c, states, events, i, start, n - 1) + now
  }

  ghost predicate NeverEnded(states: seq<State>, events: seq<Event>, i: nat) {
    forall n :: 0 <= n < |events| && n < |states| ==> !Ends(states[n], events[n], i)
  }

  /**
   * Until it is acknowledged or reset, a transmission keeps its remote, message ID, copy and bytes; each
   * retransmission sends those bytes, and each begins one more wait. Over a whole life there are at most as many as configured.
   */
  lemma {:induction false} TransmissionOverRuns(c: Config, states: seq<State>, events: seq<Event>, i: nat, n: nat)
    requires ConfigOk(c) && Run(c, states, events) && Inv(c, states[0]) && n <= |events|
    requires i < |states[0].slots| && states[0].slots[i].Live? && NeverEnded(states, events, i)
    ensures i < |states[n].slots| && SameTransmission(states[0].slots[i], states[n].slots[i])
    ensures |states[n].slots[i].waits| == |states[0].slots[i].waits| + Resends(c, states, events, i, 0, n)
    ensures |states[0].slots[i].waits| + Resends(c, states, events, i, 0, n) + states[n].slots[i].remaining <= 1 + c.retransmissions % 32
    ensures forall k :: 0 <= k < n && events[k].Expiring? && events[k].slot == i ==>
              forall d <- Output(c, states[k], events[k]) :: d == Datagram(states[0].slots[i].remote, states[0].slots[i].pdu)
    decreases n
  {
    hide Inv;
    hide Next;
    hide Output;
    hide SlotOk;
    OwnershipOverRuns(c, states, events, n);
    LiveOk(c, states[0], i);
    if n > 0 {
      TransmissionOverRuns(c, states, events, i, n - 1);
      OwnershipOverRuns(c, states, events, n - 1);
      StepKeepsTransmission(c, states[n - 1], events[n - 1], i);
      LiveOk(c, states[n], i);
    }
  }

  lemma LiveOk(c: Config, s: State, i: nat)
    requires Inv(c, s) && i < |s.slots| && s.slots[i].Live?
    ensures SlotOk(c, s, s.slots[i])
    ensures |s.slots[i].waits| + s.slots[i].remaining <= 1 + c.retransmissions % 32
  {
  }

  /** With the largest setting the 5-bit counter of remaining attempts is zero from the start: nothing is ever retransmitted. */
  lemma ThirtyTwoMeansNone(c: Config, states: seq<State>, events: seq<Event>, i: nat, n: nat)
    requires ConfigOk(c) && Run(c, states, events) && Inv(c, states[0]) && n <= |events|
    requires i < |states[0].slots| && states[0].slots[i].Live? && NeverEnded(states, events, i) && c.retransmissions == 32
    ensures Resends(c, states, events, i, 0, n) == 0
  {
    LiveOk(c, states[0], i);
    TransmissionOverRuns(c, states, events, i, n);
  }

  // ---------------------------------------------------------------- waiting times

  /** The bounds of the wait number `k` survive 32-bit arithmetic. */
  predicate Fits32(c: Config, k: nat) {
    c.ackTimeout * Pow2(k) < WORD && (c.randomised ==> c.ackTimeout * Pow2(k) < c.upper * Pow2(k) % WORD)
  }

  /** The retransmissions that are made at most: the setting, cut to five bits. */
  function Attempts(c: Config): nat {
    c.retransmissions % 32
  }

  /** Whatever is drawn lies between the bounds exactly when 32-bit arithmetic keeps them apart. */
  lemma DrawnIff(randomised: bool, t: nat, u: nat)
    requires 0 < t <= u
    ensures (forall wait: nat :: Drawn(randomised, t, u, wait) ==> t <= wait <= u)
            <==> t < WORD && (randomised ==> t < u % WORD)
  {
    var w := if randomised then if t % WORD < u % WORD then t % WORD else 0 else t % WORD;
    assert Drawn(randomised, t, u, w);
  }

  /** Every wait number `k` that can be drawn lies between T * 2^k and U * 2^k exactly when the bounds fit. */
  lemma BackOffIff(c: Config, k: nat)
    requires ConfigOk(c)
    ensures (forall wait: nat :: Allowed(c, k, wait) ==> c.ackTimeout * Pow2(k) <= wait <= c.upper * Pow2(k)) <==> Fits32(c, k)
  {
    hide Pow2;
    hide Drawn;
    var t, u := c.ackTimeout * Pow2(k), c.upper * Pow2(k);
    MulOrder(c.ackTimeout, c.upper, Pow2(k));
    DrawnIff(c.randomised, t, u);
    forall wait: nat ensures Allowed(c, k, wait) <==> Drawn(c.randomised, t, u, wait) {}
  }

  /** Where the upper bound fits too, every wait between the bounds can be drawn, and without randomisation the lower one only. */
  lemma DrawnFrom(c: Config, k: nat, wait: nat)
    requires ConfigOk(c) && Fits32(c, k) && c.upper * Pow2(k) < WORD
    ensures Allowed(c, k, wait) <==>
              if c.randomised then c.ackTimeout * Pow2(k) <= wait < c.upper * Pow2(k) else wait == c.ackTimeout * Pow2(k)
  {
    hide Pow2;
    MulOrder(c.ackTimeout, c.upper, Pow2(k));
  }

  lemma MulOrder(a: nat, b: nat, p: nat)
    requires a <= b && p > 0
    ensures a * p <= b * p && p * a <= p * b && (a > 0 ==> a * p > 0)
  {
  }

  function Sum(waits: seq<nat>): nat {
    if waits == [] then 0 else Sum(waits[..|waits| - 1]) + waits[|waits| - 1]
  }

  lemma Double(u: nat, p: nat)
    ensures u * (2 * p - 1) == u * (p - 1) + u * p
  {
  }

  /** Waits that stay below doubling bounds add up to less than the next doubling. */
  lemma {:induction false} SumBound(waits: seq<nat>, u: nat)
    requires forall k :: 0 <= k < |waits| ==> waits[k] <= u * Pow2(k)
    ensures Sum(waits) <= u * (Pow2(|waits|) - 1)
    decreases |waits|
  {
    if waits != [] {
      var n := |waits| - 1;
      SumBound(waits[..n], u);
      assert Pow2(|waits|) == 2 * Pow2(n);
      Double(u, Pow2(n));
    }
  }

  lemma {:induction false} Pow2Order(a: nat, b: nat)
    requires a <= b
    ensures Pow2(a) <= Pow2(b)
    decreases b
  {
    if a < b { Pow2Order(a, b - 1); }
  }

  /** A range whose last upper bound fits into 32 bits fits throughout. */
  lemma FitsThroughout(c: Config, k: nat)
    requires ConfigOk(c) && k <= Attempts(c) && c.upper * Pow2(Attempts(c)) < WORD && (c.randomised ==> c.ackTimeout < c.upper)
    ensures Fits32(c, k)
  {
    Pow2Order(k, Attempts(c));
    var p, q := Pow2(k), Pow2(Attempts(c));
    assert c.upper * p <= c.upper * q by { MulOrder(p, q, c.upper); }
    MulOrder(c.ackTimeout, c.upper, p);
    if c.randomised { MulStrict(c.ackTimeout, c.upper, p); }
  }

  lemma MulStrict(a: nat, b: nat, p: nat)
    requires a < b && p > 0
    ensures a * p < b * p
  {
  }

  /**
   * Back-off over runs: at any point of any run, the waits of a live transmission so far lie in doubling ranges, and
   * together they stay within MAX_TRANSMIT_WAIT of section 4.8.2 of RFC 7252.
   */
  lemma WaitsOverRuns(c: Config, states: seq<State>, events: seq<Event>, n: nat, i: nat)
    requires ConfigOk(c) && Run(c, states, events) && Initial(states[0]) && n <= |events|
    requires i < |states[n].slots| && states[n].slots[i].Live?
    requires forall k: nat :: k <= Attempts(c) ==> Fits32(c, k)
    ensures var waits := states[n].slots[i].waits;
            && |waits| <= 1 + Attempts(c)
            && (forall k :: 0 <= k < |waits| ==> c.ackTimeout * Pow2(k) <= waits[k] <= c.upper * Pow2(k))
            && Sum(waits) <= c.upper * (Pow2(1 + Attempts(c)) - 1)
  {
    InitialInv(c, states[0]);
    OwnershipOverRuns(c, states, events, n);
    LiveOk(c, states[n], i);
    var waits := states[n].slots[i].waits;
    hide Inv;
    hide Run;
    hide Pow2;
    WaitsBound(c, waits);
  }

  lemma WaitsBound(c: Config, waits: seq<nat>)
    requires ConfigOk(c) && |waits| <= 1 + Attempts(c) && forall k :: 0 <= k < |waits| ==> Allowed(c, k, waits[k])
    requires forall k: nat :: k <= Attempts(c) ==> Fits32(c, k)
    ensures forall k :: 0 <= k < |waits| ==> c.ackTimeout * Pow2(k) <= waits[k] <= c.upper * Pow2(k)
    ensures Sum(waits) <= c.upper * (Pow2(1 + Attempts(c)) - 1)
  {
    hide Pow2;
    hide Allowed;
    hide Fits32;
    hide Sum;
    forall k | 0 <= k < |waits| ensures c.ackTimeout * Pow2(k) <= waits[k] <= c.upper * Pow2(k) {
      BackOffIff(c, k);
    }
    SumBound(waits, c.upper);
    Pow2Order(|waits|, 1 + Attempts(c));
    MulOrder(Pow2(|waits|) - 1, Pow2(1 + Attempts(c)) - 1, c.upper);
  }

  // ---------------------------------------------------------------- message IDs

  /** Remote and message ID both name the transmission. */
  ghost predicate Named(l: Slot, remote: Endpoint, id: nat) {
    l.Live? && l.remote == remote && l.id == id
  }

  /** An acknowledgement or reset ends the first transmission with that remote and ID, and touches no other. */
  lemma EndsOnlyMatching(c: Config, s: State, remote: Endpoint, id: nat)
    requires Inv(c, s)
    ensures var i, s' := Find(s.slots, remote, id), End(s, remote, id);
            && |s'.slots| == |s.slots| && |s'.held| == |s.held|
            && (i == |s.slots| ==> s' == s)
            && (i < |s.slots| ==> s'.slots[i] == Idle && s.slots[i].copy < |s.held| && !s'.held[s.slots[i].copy])
            && (forall j :: 0 <= j < |s.slots| && j != i ==> s'.slots[j] == s.slots[j])
            && (forall j :: 0 <= j < |s.slots| ==>
                  (s'.slots[j] != s.slots[j]
                   <==> Named(s.slots[j], remote, id) && forall k :: 0 <= k < j ==> !Named(s.slots[k], remote, id)))
            && (forall j :: 0 <= j < |s.slots| && j != i && s.slots[j].Live? ==> s'.held[s.slots[j].copy] == s.held[s.slots[j].copy])
  {
    var i := Find(s.slots, remote, id);
    if i < |s.slots| { assert SlotOk(c, s, s.slots[i]); }
    forall j | 0 <= j < |s.slots| && j != i && s.slots[j].Live?
      ensures s.slots[j].copy < |s.held| && (i < |s.slots| ==> s.slots[j].copy != s.slots[i].copy)
    {
      assert SlotOk(c, s, s.slots[j]);
    }
  }

  /** Two live transmissions carry the same message ID exactly when a multiple of 65536 IDs lies between their births. */
  lemma IdsCollide(c: Config, s: State, i: nat, j: nat)
    requires Inv(c, s) && i < |s.slots| && j < |s.slots| && s.slots[i].Live? && s.slots[j].Live?
    ensures s.slots[i].id == s.slots[j].id <==> (s.slots[i].birth - s.slots[j].birth) % ID_COUNT == 0
    ensures i != j ==> s.slots[i].birth != s.slots[j].birth
  {
    assert SlotOk(c, s, s.slots[i]) && SlotOk(c, s, s.slots[j]);
    Congruent(s.slots[i].birth, s.slots[j].birth);
  }

  lemma Congruent(a: nat, b: nat)
    ensures a % ID_COUNT == b % ID_COUNT <==> (a - b) % ID_COUNT == 0
  {
  }

  /** While no live transmission has seen more than 65536 IDs drawn since its own, remote and ID name at most one. */
  lemma UniqueWhileYoung(c: Config, s: State, remote: Endpoint, id: nat, i: nat, j: nat)
    requires Inv(c, s) && forall k :: 0 <= k < |s.slots| && s.slots[k].Live? ==> s.nextId - s.slots[k].birth <= ID_COUNT
    requires i < |s.slots| && j < |s.slots| && Matches(s.slots[i], remote, id) && Matches(s.slots[j], remote, id)
    ensures i == j
  {
    assert SlotOk(c, s, s.slots[i]) && SlotOk(c, s, s.slots[j]);
    IdsCollide(c, s, i, j);
    Multiples(s.slots[i].birth - s.slots[j].birth);
  }

  lemma Multiples(d: int)
    requires d % ID_COUNT == 0 && -ID_COUNT < d < ID_COUNT
    ensures d == 0
  {
  }

  // ---------------------------------------------------------------- what is never given back

  /** Without acknowledgements and resets no copy is ever given back, however many timeouts pass. */
  lemma {:induction false} NothingGivenBack(c: Config, states: seq<State>, events: seq<Event>, n: nat, k: nat)
    requires Run(c, states, events) && n <= |events| && forall m :: 0 <= m < |events| ==> !events[m].Ending?
    requires k < |states[0].held| && states[0].held[k]
    ensures |states[n].held| == |states[0].held| && states[n].held[k]
    decreases n
  {
    if n > 0 {
      NothingGivenBack(c, states, events, n - 1, k);
      hide Run;
      NoneFreed(c, states[n - 1], events[n - 1], k);
      assert states[n] == Next(c, states[n - 1], events[n - 1]) by { RunStep(c, states, events, n - 1); }
    }
  }

  lemma RunStep(c: Config, states: seq<State>, events: seq<Event>, n: nat)
    requires Run(c, states, events) && n < |events|
    ensures Enabled(c, states[n], events[n]) && !Stops(c, states[n], events[n]) && states[n + 1] == Next(c, states[n], events[n])
  {
  }

  lemma NoneFreed(c: Config, s: State, e: Event, k: nat)
    requires Enabled(c, s, e) && !e.Ending? && k < |s.held| && s.held[k]
    ensures |Next(c, s, e).held| == |s.held| && Next(c, s, e).held[k]
  {
    hide Wire;
    hide Allowed;
  }

  /** Once every copy is taken by transmissions whose peers stay silent, every later confirmable send fails. */
  lemma PoolExhausted(c: Config, states: seq<State>, events: seq<Event>, n: nat)
    requires Run(c, states, events) && n < |events| && forall m :: 0 <= m < |events| ==> !events[m].Ending?
    requires forall k :: 0 <= k < |states[0].held| ==> states[0].held[k]
    requires events[n].Sending?
    requires Format(events[n].packet, events[n].content.code, events[n].reliable, states[n].nextId).0.kind == CON
    ensures PacketOk(events[n].packet)
    ensures var e := events[n]; Send(c, states[n], e.packet, e.content, e.reliable, e.env).outcome == Failed(ENOBUFS)
  {
    forall k | 0 <= k < |states[0].held| ensures k < |states[n].held| && states[n].held[k] {
      NothingGivenBack(c, states, events, n, k);
    }
    HeldLength(c, states, events, n);
    RunStep(c, states, events, n);
    assert FirstVacant(states[n].held) == |states[n].held|;
  }

  lemma {:induction false} HeldLength(c: Config, states: seq<State>, events: seq<Event>, n: nat)
    requires Run(c, states, events) && n <= |events|
    ensures |states[n].held| == |states[0].held| && |states[n].slots| == |states[0].slots|
    decreases n
  {
    if n > 0 {
      HeldLength(c, states, events, n - 1);
      RunStep(c, states, events, n - 1);
      hide Run;
      hide Enabled;
      hide Wire;
      hide Stops;
      assert Enabled(c, states[n - 1], events[n - 1]);
      LengthsStay(c, states[n - 1], events[n - 1]);
    }
  }

  lemma LengthsStay(c: Config, s: State, e: Event)
    requires Enabled(c, s, e)
    ensures |Next(c, s, e).held| == |s.held| && |Next(c, s, e).slots| == |s.slots|
  {
    hide Wire;
    hide Allowed;
  }

  /** A transmission whose timer has gone off for good, after the last attempt or a failing send, blocks its slot silently. */
  lemma GivenUp(c: Config, states: seq<State>, events: seq<Event>, i: nat, n: nat)
    requires ConfigOk(c) && Run(c, states, events) && Inv(c, states[0]) && n <= |events|
    requires i < |states[0].slots| && states[0].slots[i].Live? && states[0].slots[i].timer == Off && NeverEnded(states, events, i)
    ensures i < |states[n].slots| && states[n].slots[i].Live? && states[n].slots[i].timer == Off
    ensures Resends(c, states, events, i, 0, n) == 0
  {
    TransmissionOverRuns(c, states, events, i, n);
  }

  // ---------------------------------------------------------------- the unchecked allocation

  /** The copies of the first `n` slots. */
  ghost function Copies(slots: seq<Slot>, n: nat): set<nat>
    requires n <= |slots| && forall i :: 0 <= i < n ==> slots[i].Live?
  {
    if n == 0 then {} else Copies(slots, n - 1) + {slots[n - 1].copy}
  }

  lemma CopyFound(c: Config, s: State, i: nat)
    requires Inv(c, s) && i < |s.slots| && s.slots[i].Live?
    ensures var k := s.slots[i].copy; k < |s.held| && s.held[k] && Owner(s.slots, k) == i
  {
    assert SlotOk(c, s, s.slots[i]);
    OwnerFound(s.slots, i);
  }

  lemma {:induction false} CopyOwned(c: Config, s: State, n: nat, k: nat)
    requires Inv(c, s) && n <= |s.slots| && (forall i :: 0 <= i < n ==> s.slots[i].Live?) && k in Copies(s.slots, n)
    ensures k < |s.held| && s.held[k] && Owner(s.slots, k) < n
    decreases n
  {
    hide Inv;
    hide Owner;
    if k == s.slots[n - 1].copy {
      CopyFound(c, s, n - 1);
    } else {
      CopyOwned(c, s, n - 1, k);
    }
  }

  /** Live slots have different copies. */
  lemma {:induction false} DistinctCopies(c: Config, s: State, n: nat)
    requires Inv(c, s) && n <= |s.slots| && forall i :: 0 <= i < n ==> s.slots[i].Live?
    ensures |Copies(s.slots, n)| == n
    decreases n
  {
    hide Inv;
    hide Owner;
    if n > 0 {
      DistinctCopies(c, s, n - 1);
      CopyFound(c, s, n - 1);
      var k := s.slots[n - 1].copy;
      if k in Copies(s.slots, n - 1) { CopyOwned(c, s, n - 1, k); }
    }
  }

  ghost function Below(n: nat): (r: set<nat>)
    ensures |r| == n && forall k: nat :: k in r <==> k < n
  {
    if n == 0 then {} else Below(n - 1) + {n - 1}
  }

  lemma SubsetSize<T>(a: set<T>, b: set<T>)
    requires a <= b
    ensures |a| <= |b|
    decreases |a|
  {
    if x :| x in a {
      SubsetSize(a - {x}, b - {x});
    }
  }

  /** The null dereference needs a free copy with no free slot, so there must be more copies than slots. */
  lemma CrashNeedsCopies(c: Config, s: State, p: Packet, m: Content, reliable: bool, env: Env)
    requires Inv(c, s) && PacketOk(p) && Send(c, s, p, m, reliable, env).outcome == Crash
    ensures |s.slots| < |s.held|
  {
    hide Wire;
    assert FirstIdle(s.slots) == |s.slots| && FirstVacant(s.held) < |s.held|;
    var free := FirstVacant(s.held);
    DistinctCopies(c, s, |s.slots|);
    forall k | k in Copies(s.slots, |s.slots|) ensures k in Below(|s.held|) - {free} {
      CopyOwned(c, s, |s.slots|, k);
    }
    SubsetSize(Copies(s.slots, |s.slots|), Below(|s.held|) - {free});
  }

  /** The run reaches a send that dereferences null. */
  ghost predicate Crashes(c: Config, s: State, states: seq<State>, events: seq<Event>, e: Event) {
    && Run(c, states, events) && states[0] == s && e.Sending? && Enabled(c, states[|events|], e)
    && Send(c, states[|events|], e.packet, e.content, e.reliable, e.env).outcome == Crash
  }

  /** A confirmable request without options and payload. */
  function Probe(wait: nat): Event {
    Sending(Packet(Endpoint(0, [], 0), NON, 0, [], false), Content(1, [], []), true, Env(wait, 0))
  }

  function FirstWait(c: Config): nat {
    if c.randomised then if c.ackTimeout % WORD < c.upper % WORD then c.ackTimeout % WORD else 0 else c.ackTimeout % WORD
  }

  lemma ProbeStep(c: Config, s: State, n: nat)
    requires ConfigOk(c) && c.copySize >= HEADER_SIZE && n < |s.slots| && n < |s.held|
    requires forall i :: 0 <= i < |s.slots| ==> (s.slots[i].Live? <==> i < n)
    requires forall k :: 0 <= k < |s.held| ==> (s.held[k] <==> k < n)
    ensures var e := Probe(FirstWait(c));
            && Enabled(c, s, e) && !Stops(c, s, e) && var s' := Next(c, s, e);
            && |s'.slots| == |s.slots| && |s'.held| == |s.held|
            && (forall i :: 0 <= i < |s.slots| ==> (s'.slots[i].Live? <==> i < n + 1))
            && (forall k :: 0 <= k < |s.held| ==> (s'.held[k] <==> k < n + 1))
  {
    var i, k := FirstIdle(s.slots), FirstVacant(s.held);
    assert s.slots[n].Idle? && !s.held[n];
    assert i == n && k == n;
    assert Allowed(c, 0, FirstWait(c)) by { assert Pow2(0) == 1; }
    hide Allowed;
    var e := Probe(FirstWait(c));
    var p := Format(e.packet, 1, true, s.nextId).0;
    assert |Wire(p, e.content)| == HEADER_SIZE;
  }

  /** As many probes as there are slots claim all of them. */
  lemma {:induction false} FillUp(c: Config, s: State, n: nat) returns (states: seq<State>, events: seq<Event>)
    requires ConfigOk(c) && c.copySize >= HEADER_SIZE && Initial(s) && n <= |s.slots| < |s.held|
    ensures Run(c, states, events) && |events| == n && states[0] == s
    ensures |states[n].slots| == |s.slots| && |states[n].held| == |s.held|
    ensures forall i :: 0 <= i < |s.slots| ==> (states[n].slots[i].Live? <==> i < n)
    ensures forall k :: 0 <= k < |s.held| ==> (states[n].held[k] <==> k < n)
    decreases n
  {
    if n == 0 {
      states, events := [s], [];
    } else {
      states, events := FillUp(c, s, n - 1);
      ProbeStep(c, states[n - 1], n - 1);
      var e := Probe(FirstWait(c));
      hide Enabled;
      hide Stops;
      hide Next;
      var states', events' := states + [Next(c, states[n - 1], e)], events + [e];
      forall k | 0 <= k < |events'|
        ensures Enabled(c, states'[k], events'[k]) && !Stops(c, states'[k], events'[k]) && states'[k + 1] == Next(c, states'[k], events'[k])
      {
        if k < n - 1 { assert events'[k] == events[k] && states'[k] == states[k] && states'[k + 1] == states[k + 1]; }
      }
      states, events := states', events';
    }
  }

  /** From initialisation on, the null dereference can be reached exactly when there are more copies than slots. */
  lemma CrashIff(c: Config, s: State)
    requires ConfigOk(c) && c.copySize >= HEADER_SIZE && Initial(s)
    ensures (exists states, events, e :: Crashes(c, s, states, events, e)) <==> |s.slots| < |s.held|
  {
    InitialInv(c, s);
    forall states, events, e | Crashes(c, s, states, events, e) ensures |s.slots| < |s.held| {
      var n := |events|;
      OwnershipOverRuns(c, states, events, n);
      HeldLength(c, states, events, n);
      CrashNeedsCopies(c, states[n], e.packet, e.content, e.reliable, e.env);
    }
    if |s.slots| < |s.held| {
      var n := |s.slots|;
      var states, events := FillUp(c, s, n);
      var e := Probe(FirstWait(c));
      CrashStep(c, states[n]);
      assert Crashes(c, s, states, events, e);
    }
  }

  lemma CrashStep(c: Config, s: State)
    requires ConfigOk(c) && |s.slots| < |s.held|
    requires forall i :: 0 <= i < |s.slots| ==> s.slots[i].Live?
    requires forall k :: 0 <= k < |s.held| ==> (s.held[k] <==> k < |s.slots|)
    ensures var e := Probe(FirstWait(c)); Enabled(c, s, e) && Send(c, s, e.packet, e.content, e.reliable, e.env).outcome == Crash
  {
    var k := FirstVacant(s.held);
    assert !s.held[|s.slots|] && k == |s.slots| && FirstIdle(s.slots) == |s.slots|;
    assert Allowed(c, 0, FirstWait(c)) by { assert Pow2(0) == 1; }
  }
}
