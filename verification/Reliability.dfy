/**
 * Message layer of section 4 of RFC 7252 as a machine on values: the transmission pool, the pool of PDU copies,
 * message IDs, retransmission timers. `unicoap/drivers/rfc7252/common/messaging/messaging.c` is the source.
 */
module Reliability {
  import opened Codec
  import opened Pdu

  const CON := 0
  const NON := 1
  const ACK := 2
  const RST := 3

  const ID_COUNT := 0x1_0000
  const WORD := 0x1_0000_0000

  datatype Endpoint = Endpoint(proto: nat, address: seq<Byte>, port: nat)

  /** The build-time settings; `randomised` is RANDOM_FACTOR_1000 > 1000, `upper` the range's upper end. */
  datatype Config = Config(ackTimeout: nat, upper: nat, randomised: bool, retransmissions: nat, copySize: nat, headerMax: nat)

  ghost predicate ConfigOk(c: Config) {
    && 0 < c.ackTimeout <= c.upper && 1 <= c.retransmissions <= 32
    && c.copySize > 0 && HEADER_SIZE <= c.headerMax
  }

  function Pow2(k: nat): (r: nat)
    ensures r > 0
  {
    if k == 0 then 1 else 2 * Pow2(k - 1)
  }

  /** What may be drawn between two bounds in 32-bit arithmetic; an empty range yields anything. */
  predicate Drawn(randomised: bool, low: nat, high: nat, wait: nat) {
    wait < WORD && if randomised then low % WORD < high % WORD ==> low % WORD <= wait < high % WORD else wait == low % WORD
  }

  /** The durations that may be drawn for the wait number `k`. */
  predicate Allowed(c: Config, k: nat, wait: nat) {
    Drawn(c.randomised, c.ackTimeout * Pow2(k), c.upper * Pow2(k), wait)
  }

  datatype Timer = Off | Armed(wait: nat)

  /**
   * A transmission slot. `birth` is the counter value that gave the message ID, `waits` lists every wait begun
   * so far; both are history only.
   */
  datatype Slot =
    | Idle
    | Live(remote: Endpoint, id: nat, remaining: nat, copy: nat, pdu: seq<Byte>, timer: Timer, birth: nat, waits: seq<nat>)

  datatype State = State(nextId: nat, slots: seq<Slot>, held: seq<bool>)

  datatype Datagram = Datagram(remote: Endpoint, bytes: seq<Byte>)

  /** `Crash` is a null dereference, `Overrun` a write behind the end of a buffer. */
  datatype Outcome = Done | Failed(error: int) | Crash | Overrun

  datatype Packet = Packet(remote: Endpoint, kind: nat, id: nat, token: seq<Byte>, notification: bool)

  datatype Content = Content(code: Byte, options: seq<Byte>, payload: seq<Byte>)

  /** What the surroundings decide about one send: the random wait, and the transport's return value. */
  datatype Env = Env(wait: nat, transport: int)

  datatype Sent = Sent(state: State, packet: Packet, outs: seq<Datagram>, outcome: Outcome)

  predicate PacketOk(p: Packet) {
    p.kind <= 3 && p.id < ID_COUNT && |p.token| <= 15
  }

  predicate IsResponse(code: Byte) {
    code / 32 == 2 || code / 32 == 4 || code / 32 == 5
  }

  function HeaderOf(p: Packet, code: Byte): Header {
    Header(p.kind, code, p.id, p.token)
  }

  function Wire(p: Packet, m: Content): (r: seq<Byte>)
    requires PacketOk(p)
    ensures |r| >= HEADER_SIZE
  {
    MessageBytes(HeaderOf(p, m.code), m.options, m.payload)
  }

  /** The bytes of an empty message. */
  function EmptyWire(kind: nat, id: nat): seq<Byte>
    requires kind <= 3 && id < ID_COUNT
  {
    HeaderBytes(Header(kind, 0, id, []))
  }

  // ---------------------------------------------------------------- pools

  function FirstIdle(slots: seq<Slot>): (i: nat)
    ensures i <= |slots| && (i < |slots| ==> slots[i].Idle?)
    ensures forall k :: 0 <= k < i ==> slots[k].Live?
  {
    if slots == [] || slots[0].Idle? then 0 else 1 + FirstIdle(slots[1..])
  }

  function FirstVacant(held: seq<bool>): (k: nat)
    ensures k <= |held| && (k < |held| ==> !held[k])
    ensures forall i :: 0 <= i < k ==> held[i]
  {
    if held == [] || !held[0] then 0 else 1 + FirstVacant(held[1..])
  }

  predicate Matches(l: Slot, remote: Endpoint, id: nat) {
    l.Live? && l.id == id && l.remote == remote
  }

  /** The first live transmission with this remote and ID. */
  function Find(slots: seq<Slot>, remote: Endpoint, id: nat): (i: nat)
    ensures i <= |slots| && (i < |slots| ==> Matches(slots[i], remote, id))
    ensures forall k :: 0 <= k < i ==> !Matches(slots[k], remote, id)
  {
    if slots == [] || Matches(slots[0], remote, id) then 0 else 1 + Find(slots[1..], remote, id)
  }

  /** The slot whose copy is `k`. */
  function Owner(slots: seq<Slot>, k: nat): (i: nat)
    ensures i <= |slots| && (i < |slots| ==> slots[i].Live? && slots[i].copy == k)
    ensures forall j :: 0 <= j < i ==> !(slots[j].Live? && slots[j].copy == k)
  {
    if slots == [] || (slots[0].Live? && slots[0].copy == k) then 0 else 1 + Owner(slots[1..], k)
  }

  // ---------------------------------------------------------------- steps

  /** Ends the transmission in slot `i`. */
  function Release(s: State, i: nat): State
    requires i < |s.slots| && s.slots[i].Live? && s.slots[i].copy < |s.held|
  {
    State(s.nextId, s.slots[i := Idle], s.held[s.slots[i].copy := false])
  }

  /** `_handle_ack` and `_handle_reset`. */
  function End(s: State, remote: Endpoint, id: nat): State {
    var i := Find(s.slots, remote, id);
    if i < |s.slots| && s.slots[i].copy < |s.held| then Release(s, i) else s
  }

  /** The message type and ID that a message is sent with; a new ID is used up unless the response is piggybacked. */
  function Format(p: Packet, code: Byte, reliable: bool, nextId: nat): (Packet, nat) {
    if !p.notification && IsResponse(code) && p.kind == CON then (p.(kind := ACK), nextId)
    else (p.(kind := if reliable then CON else NON, id := nextId % ID_COUNT), nextId + 1)
  }

  lemma FormatOk(p: Packet, code: Byte, reliable: bool, nextId: nat)
    requires PacketOk(p)
    ensures PacketOk(Format(p, code, reliable, nextId).0) && Format(p, code, reliable, nextId).0.kind != RST
  {
  }

  /** Does the contiguous builder run over the end of a copy? */
  predicate RunsOver(c: Config, p: Packet, m: Content) {
    m.payload != [] && c.copySize == HEADER_SIZE + |p.token| + |m.options|
  }

  /** How building a message into a copy and handing it to the transport turns out. */
  function Delivery(c: Config, p: Packet, m: Content, env: Env): Outcome
    requires PacketOk(p)
  {
    if RunsOver(c, p, m) then Overrun
    else if |Wire(p, m)| > c.copySize then Failed(ENOBUFS)
    else if env.transport < 0 then Failed(env.transport)
    else Done
  }

  /** A transmission that has just begun. */
  function NewSlot(c: Config, p: Packet, m: Content, k: nat, env: Env, birth: nat): Slot
    requires PacketOk(p)
  {
    Live(p.remote, p.id, c.retransmissions % 32, k, Wire(p, m), Armed(env.wait), birth, [env.wait])
  }

  /** A confirmable message: claims a slot and a copy, builds into the copy, sends. */
  function SendConfirmable(c: Config, s: State, p: Packet, m: Content, env: Env): Sent
    requires PacketOk(p) && s.nextId > 0
  {
    var j, k := FirstIdle(s.slots), FirstVacant(s.held);
    if k == |s.held| then Sent(s, p, [], Failed(ENOBUFS))
    else if j == |s.slots| then Sent(s, p, [], Crash)
    else if Delivery(c, p, m, env) != Done then Sent(s, p, [], Delivery(c, p, m, env))
    else
      var l := NewSlot(c, p, m, k, env, s.nextId - 1);
      Sent(State(s.nextId, s.slots[j := l], s.held[k := true]), p, [Datagram(p.remote, Wire(p, m))], Done)
  }

  /** Any other message goes out as a chain of chunks and leaves nothing behind. */
  function SendPlain(c: Config, s: State, p: Packet, m: Content, env: Env): Sent
    requires PacketOk(p)
  {
    if HEADER_SIZE + |p.token| > c.headerMax then Sent(s, p, [], Failed(ENOBUFS))
    else if env.transport < 0 then Sent(s, p, [], Failed(env.transport))
    else Sent(s, p, [Datagram(p.remote, Wire(p, m))], Done)
  }

  /** `unicoap_messaging_send_rfc7252`. */
  function Send(c: Config, s: State, p: Packet, m: Content, reliable: bool, env: Env): Sent
    requires PacketOk(p)
  {
    FormatOk(p, m.code, reliable, s.nextId);
    var (p', nextId) := Format(p, m.code, reliable, s.nextId);
    var s' := s.(nextId := nextId);
    if p'.kind == CON then SendConfirmable(c, s', p', m, env) else SendPlain(c, s', p', m, env)
  }

  /** `_on_ack_timeout` for slot `i`: the index of the wait it begins is computed from the remaining attempts. */
  function WaitIndex(c: Config, l: Slot): int
    requires l.Live?
  {
    c.retransmissions - (l.remaining - 1)
  }

  function Expire(s: State, i: nat, env: Env): State
    requires i < |s.slots| && s.slots[i].Live?
  {
    var l := s.slots[i];
    var l' := if l.remaining == 0 then l.(timer := Off)
              else if env.transport < 0 then l.(remaining := l.remaining - 1, timer := Off)
              else l.(remaining := l.remaining - 1, timer := Armed(env.wait), waits := l.waits + [env.wait]);
    s.(slots := s.slots[i := l'])
  }

  function Resent(s: State, i: nat, env: Env): seq<Datagram>
    requires i < |s.slots| && s.slots[i].Live?
  {
    if s.slots[i].remaining == 0 || env.transport < 0 then [] else [Datagram(s.slots[i].remote, s.slots[i].pdu)]
  }

  /** `_send_empty_message`. */
  function EmptyMessage(remote: Endpoint, kind: nat, id: nat, env: Env): seq<Datagram>
    requires kind <= 3 && id < ID_COUNT
  {
    if env.transport < 0 then [] else [Datagram(remote, EmptyWire(kind, id))]
  }

  // ---------------------------------------------------------------- runs

  datatype Event =
    | Sending(packet: Packet, content: Content, reliable: bool, env: Env)
    | Ending(remote: Endpoint, id: nat)
    | Expiring(slot: nat, env: Env)

  /** An event that can happen: a timer fires only while armed, and random draws keep to their range. */
  ghost predicate Enabled(c: Config, s: State, e: Event) {
    match e
    case Sending(p, m, reliable, env) => PacketOk(p) && Allowed(c, 0, env.wait)
    case Ending(_, _) => true
    case Expiring(i, env) =>
      && i < |s.slots| && s.slots[i].Live? && s.slots[i].timer.Armed?
      && (s.slots[i].remaining > 0 && WaitIndex(c, s.slots[i]) >= 0 ==> Allowed(c, WaitIndex(c, s.slots[i]), env.wait))
  }

  function Next(c: Config, s: State, e: Event): State
    requires e.Sending? ==> PacketOk(e.packet)
    requires e.Expiring? ==> e.slot < |s.slots| && s.slots[e.slot].Live?
  {
    match e
    case Sending(p, m, reliable, env) => Send(c, s, p, m, reliable, env).state
    case Ending(remote, id) => End(s, remote, id)
    case Expiring(i, env) => Expire(s, i, env)
  }

  /** Null dereference or buffer overrun: nothing is said about what follows. */
  predicate Stops(c: Config, s: State, e: Event)
    requires e.Sending? ==> PacketOk(e.packet)
  {
    e.Sending? && var o := Send(c, s, e.packet, e.content, e.reliable, e.env).outcome; o == Crash || o == Overrun
  }

  /** What the event puts on the wire. */
  function Output(c: Config, s: State, e: Event): seq<Datagram>
    requires e.Sending? ==> PacketOk(e.packet)
    requires e.Expiring? ==> e.slot < |s.slots| && s.slots[e.slot].Live?
  {
    match e
    case Sending(p, m, reliable, env) => Send(c, s, p, m, reliable, env).outs
    case Ending(_, _) => []
    case Expiring(i, env) => Resent(s, i, env)
  }

  /** `states` are the states of a run over `events`; the run goes on as long as nothing stops it. */
  ghost predicate Run(c: Config, states: seq<State>, events: seq<Event>) {
    && |states| == |events| + 1
    && forall n :: 0 <= n < |events| ==> Enabled(c, states[n], events[n]) && !Stops(c, states[n], events[n])
                                         && states[n + 1] == Next(c, states[n], events[n])
  }

  /** After initialisation all slots and copies are free and the ID counter is random. */
  ghost predicate Initial(s: State) {
    (forall i :: 0 <= i < |s.slots| ==> s.slots[i] == Idle) && (forall k :: 0 <= k < |s.held| ==> !s.held[k])
  }

  // ---------------------------------------------------------------- the invariant

  function KindOf(bytes: seq<Byte>): nat
    requires |bytes| >= HEADER_SIZE
  {
    bytes[0] / 16 % 4
  }

  function IdOf(bytes: seq<Byte>): nat
    requires |bytes| >= HEADER_SIZE
  {
    256 * (bytes[2] as int) + bytes[3] as int
  }

  /** What holds of a live slot by itself. */
  ghost predicate SlotOk(c: Config, s: State, l: Slot)
    requires l.Live?
  {
    && l.copy < |s.held| && s.held[l.copy]
    && l.birth < s.nextId && l.id == l.birth % ID_COUNT
    && HEADER_SIZE <= |l.pdu| <= c.copySize && 64 <= l.pdu[0] < 128 && KindOf(l.pdu) == CON && IdOf(l.pdu) == l.id
    && 1 <= |l.waits| && |l.waits| + l.remaining <= 1 + c.retransmissions % 32
    && (forall k :: 0 <= k < |l.waits| ==> Allowed(c, k, l.waits[k]))
    && (l.timer.Armed? ==> |l.waits| + l.remaining == 1 + c.retransmissions % 32 && l.timer.wait == l.waits[|l.waits| - 1])
  }

  /** Copies in use are exactly the copies of live slots, no two slots share one, and no two were born at once. */
  ghost predicate Inv(c: Config, s: State) {
    && (forall i :: 0 <= i < |s.slots| && s.slots[i].Live? ==> SlotOk(c, s, s.slots[i]))
    && (forall i, j :: 0 <= i < j < |s.slots| && s.slots[i].Live? && s.slots[j].Live? ==>
          s.slots[i].copy != s.slots[j].copy && s.slots[i].birth != s.slots[j].birth)
    && (forall k :: 0 <= k < |s.held| && s.held[k] ==> Owner(s.slots, k) < |s.slots|)
  }
}
