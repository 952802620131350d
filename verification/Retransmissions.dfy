/** One transmission over a run, from the send that begins it: what each of its timeouts puts on the wire, and when they stop. */
module Retransmissions {
  import opened Codec
  import opened Pdu
  import opened Reliability
  import opened ReliabilityRuns

  /** Slot `i` is claimed by this step. */
  ghost predicate Begins(s: State, s': State, i: nat) {
    i < |s.slots| && i < |s'.slots| && s.slots[i].Idle? && s'.slots[i].Live?
  }

  /** One datagram, of type CON. */
  predicate Confirmable(outs: seq<Datagram>) {
    |outs| == 1 && |outs[0].bytes| >= HEADER_SIZE && KindOf(outs[0].bytes) == CON
  }

  /** A slot as the send that puts these datagrams on the wire leaves it. */
  ghost predicate Fresh(c: Config, l: Slot, e: Event, outs: seq<Datagram>) {
    && l.Live? && e.Sending? && outs == [Datagram(e.packet.remote, l.pdu)] && l.remote == e.packet.remote
    && l.remaining == Attempts(c) && l.timer == Armed(e.env.wait)
  }

  /**
   * Exactly the sends that put a confirmable datagram on the wire begin a transmission, each of them one. What is kept for
   * retransmission is what was sent.
   */
  lemma BeginsIff(c: Config, s: State, e: Event)
    requires Enabled(c, s, e) && !Stops(c, s, e)
    ensures (exists i: nat :: Begins(s, Next(c, s, e), i)) <==> e.Sending? && Confirmable(Output(c, s, e))
    ensures forall i: nat, j: nat :: Begins(s, Next(c, s, e), i) && Begins(s, Next(c, s, e), j) ==> i == j
    ensures forall i: nat :: Begins(s, Next(c, s, e), i) ==> Fresh(c, Next(c, s, e).slots[i], e, Output(c, s, e))
  {
    hide Allowed;
    hide Wire;
    hide KindOf;
    match e
    case Sending(p, m, reliable, env) =>
      FormatOk(p, m.code, reliable, s.nextId);
      WireFacts(Format(p, m.code, reliable, s.nextId).0, m);
      var s' := Next(c, s, e);
      if s'.slots != s.slots { assert Begins(s, s', FirstIdle(s.slots)); }
    case Ending(_, _) =>
    case Expiring(_, _) =>
  }

  // ---------------------------------------------------------------- timeouts

  predicate TimesOut(e: Event, i: nat) {
    e.Expiring? && e.slot == i
  }

  /** How often slot `i` times out in the events from `start` on and before `n`. */
  function Timeouts(events: seq<Event>, i: nat, start: nat, n: nat): nat
    requires start <= n <= |events|
    decreases n
  {
    if n == start then 0 else Timeouts(events, i, start, n - 1) + if TimesOut(events[n - 1], i) then 1 else 0
  }

  /** The transport takes whatever these timeouts send. */
  ghost predicate AllTaken(events: seq<Event>, i: nat, start: nat, n: nat)
    requires start <= n <= |events|
  {
    forall k :: start <= k < n && TimesOut(events[k], i) ==> events[k].env.transport >= 0
  }

  /** No acknowledgement or reset reaches slot `i`. */
  ghost predicate Unanswered(states: seq<State>, events: seq<Event>, i: nat, start: nat, n: nat)
    requires start <= n <= |events| <= |states|
  {
    forall k :: start <= k < n ==> !Ends(states[k], events[k], i)
  }

  /** A slot after `t` timeouts of a transmission that had `remaining` attempts; `taken` if the transport took all of them. */
  ghost predicate Progress(l: Slot, remote: Endpoint, pdu: seq<Byte>, remaining: nat, t: nat, taken: bool) {
    && l.Live? && l.remote == remote && l.pdu == pdu && t <= remaining + 1
    && (l.timer.Armed? <==> t <= remaining && taken)
    && (l.timer.Armed? ==> l.remaining == remaining - t)
  }

  lemma StepProgress(c: Config, s: State, e: Event, i: nat, remote: Endpoint, pdu: seq<Byte>, remaining: nat, t: nat, taken: bool)
    requires Enabled(c, s, e) && i < |s.slots| && Progress(s.slots[i], remote, pdu, remaining, t, taken) && !Ends(s, e, i)
    ensures |Next(c, s, e).slots| == |s.slots|
    ensures var now := TimesOut(e, i);
            && Progress(Next(c, s, e).slots[i], remote, pdu, remaining, t + (if now then 1 else 0), taken && (now ==> e.env.transport >= 0))
            && (now ==>
                  && taken && t <= remaining
                  && Output(c, s, e) == (if t < remaining && e.env.transport >= 0 then [Datagram(remote, pdu)] else [])
                  && Next(c, s, e).slots[i].timer == (if t < remaining && e.env.transport >= 0 then Armed(e.env.wait) else Off))
  {
    hide Send;
    hide Allowed;
    match e
    case Sending(p, m, reliable, env) => SendingKeepsLive(c, s, p, m, reliable, env, i);
    case Ending(_, _) =>
    case Expiring(_, _) =>
  }

  /** What the timeouts of slot `i` did up to event `n`. */
  ghost predicate Timed(c: Config, states: seq<State>, events: seq<Event>, i: nat, start: nat, n: nat,
                        remote: Endpoint, pdu: seq<Byte>, remaining: nat)
    requires Run(c, states, events) && start <= n <= |events|
  {
    && i < |states[n].slots|
    && Progress(states[n].slots[i], remote, pdu, remaining, Timeouts(events, i, start, n), AllTaken(events, i, start, n))
  }

  lemma {:induction false} TimeoutsOverRuns(c: Config, states: seq<State>, events: seq<Event>, i: nat, start: nat, n: nat)
    requires Run(c, states, events) && start <= n <= |events| && i < |states[start].slots|
    requires states[start].slots[i].Live? && states[start].slots[i].timer.Armed? && Unanswered(states, events, i, start, n)
    ensures var l := states[start].slots[i]; Timed(c, states, events, i, start, n, l.remote, l.pdu, l.remaining)
    ensures AllTaken(events, i, start, n) ==>
              var t, most := Timeouts(events, i, start, n), states[start].slots[i].remaining;
              Resends(c, states, events, i, start, n) == if t < most then t else most
    decreases n
  {
    hide Next;
    hide Output;
    hide Ends;
    hide Stops;
    if n > start {
      TimeoutsOverRuns(c, states, events, i, start, n - 1);
      var l := states[start].slots[i];
      RunStep(c, states, events, n - 1);
      StepProgress(c, states[n - 1], events[n - 1], i, l.remote, l.pdu, l.remaining,
                   Timeouts(events, i, start, n - 1), AllTaken(events, i, start, n - 1));
    }
  }

  /** The timeout `e` of slot `i` puts `first` on the wire again and arms the timer, or does neither. */
  ghost predicate Repeats(c: Config, s: State, s': State, e: Event, i: nat, first: seq<Datagram>, more: bool) {
    && TimesOut(e, i) && i < |s.slots| && s.slots[i].Live? && i < |s'.slots| && s'.slots[i].Live?
    && Output(c, s, e) == (if more then first else [])
    && s'.slots[i].timer == (if more then Armed(e.env.wait) else Off)
  }

  lemma RepeatsAt(c: Config, states: seq<State>, events: seq<Event>, start: nat, i: nat, j: nat)
    requires Run(c, states, events) && start <= j < |events| && i < |states[start].slots| && TimesOut(events[j], i)
    requires states[start].slots[i].Live? && states[start].slots[i].timer.Armed? && Unanswered(states, events, i, start, j + 1)
    ensures var l, e := states[start].slots[i], events[j];
            Repeats(c, states[j], states[j + 1], e, i, [Datagram(l.remote, l.pdu)],
                    Timeouts(events, i, start, j) < l.remaining && e.env.transport >= 0)
  {
    hide Ends;
    hide Stops;
    hide Next;
    hide Output;
    var l := states[start].slots[i];
    RunStep(c, states, events, j);
    TimeoutsOverRuns(c, states, events, i, start, j);
    StepProgress(c, states[j], events[j], i, l.remote, l.pdu, l.remaining, Timeouts(events, i, start, j), AllTaken(events, i, start, j));
  }

  /**
   * A transmission from the send that begins it, as long as nothing ends it. Each of its timeouts puts on the wire exactly
   * the datagram that the send did, or nothing: nothing once all attempts are used up, and nothing where the transport
   * fails. The timer goes off for good with the timeout behind the last attempt or with a failing one, and not before.
   */
  lemma RetransmissionsOverRuns(c: Config, states: seq<State>, events: seq<Event>, n: nat, i: nat, k: nat)
    requires Run(c, states, events) && n < k <= |events| && Begins(states[n], states[n + 1], i) && Unanswered(states, events, i, n + 1, k)
    ensures events[n].Sending? && PacketOk(events[n].packet) && Confirmable(Output(c, states[n], events[n]))
    ensures forall j :: n < j < k && TimesOut(events[j], i) ==>
              Repeats(c, states[j], states[j + 1], events[j], i, Output(c, states[n], events[n]),
                      Timeouts(events, i, n + 1, j) < Attempts(c) && events[j].env.transport >= 0)
    ensures var t := Timeouts(events, i, n + 1, k);
            && t <= Attempts(c) + 1 && i < |states[k].slots| && states[k].slots[i].Live?
            && (states[k].slots[i].timer.Armed? <==> t <= Attempts(c) && AllTaken(events, i, n + 1, k))
            && (states[k].slots[i].timer.Armed? ==> states[k].slots[i].remaining == Attempts(c) - t)
            && (AllTaken(events, i, n + 1, k) ==> Resends(c, states, events, i, n + 1, k) == if t < Attempts(c) then t else Attempts(c))
  {
    hide Next;
    hide Output;
    hide Ends;
    hide Stops;
    hide Enabled;
    hide Resends;
    hide Attempts;
    hide Repeats;
    RunStep(c, states, events, n);
    BeginsIff(c, states[n], events[n]);
    TimeoutsOverRuns(c, states, events, i, n + 1, k);
    forall j | n < j < k && TimesOut(events[j], i)
      ensures Repeats(c, states[j], states[j + 1], events[j], i, Output(c, states[n], events[n]),
                      Timeouts(events, i, n + 1, j) < Attempts(c) && events[j].env.transport >= 0)
    {
      RepeatsAt(c, states, events, n + 1, i, j);
    }
  }
}
