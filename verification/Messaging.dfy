/** `messaging.c` in its own form: arrays of transmissions and PDU copies, claimed and cleared in place. */
module Messaging {
  import opened Codec
  import opened Buffers
  import opened OptionStores
  import opened Iolists
  import opened Pdu
  import opened PduBuild
  import opened Reliability
  import opened ReliabilityRuns
  import opened Exchange

  /** `_transmission_t`; `pdu` is the number of a copy, or -1 for NULL. */
  datatype Transmission = Transmission(used: bool, endpoint: Endpoint, id: nat, remaining: nat, pdu: int, size: nat, timer: Timer)

  /** All bytes zero. */
  const UNUSED := Transmission(false, Endpoint(0, [], 0), 0, 0, -1, 0, Off)

  ghost predicate Mirrors(t: Transmission, l: Slot) {
    if l.Idle? then t == UNUSED else t == Transmission(true, l.remote, l.id, l.remaining, l.copy, |l.pdu|, l.timer)
  }

  /** The arrays show the state `s`: a copy is free when its first byte is zero, and a live slot's copy begins with its PDU. */
  ghost predicate Shown(c: Config, s: State, ts: seq<Transmission>, rows: seq<seq<Byte>>) {
    && |ts| == |s.slots| && |rows| == |s.held|
    && c.copySize > 0 && (forall k :: 0 <= k < |rows| ==> |rows[k]| == c.copySize)
    && (forall k :: 0 <= k < |rows| ==> (s.held[k] <==> rows[k][0] != 0))
    && (forall i :: 0 <= i < |ts| ==> Mirrors(ts[i], s.slots[i]))
    && (forall i :: 0 <= i < |ts| && s.slots[i].Live? ==> Holds(rows, s.slots[i]))
  }

  ghost predicate Holds(rows: seq<seq<Byte>>, l: Slot)
    requires l.Live?
  {
    l.copy < |rows| && |l.pdu| <= |rows[l.copy]| && rows[l.copy][..|l.pdu|] == l.pdu
  }

  /** A vacant copy's contents do not matter as long as they begin with zero. */
  lemma VacantShown(c: Config, s: State, ts: seq<Transmission>, rows: seq<seq<Byte>>, k: nat, row: seq<Byte>)
    requires Shown(c, s, ts, rows) && Inv(c, s) && k < |rows| && !s.held[k] && |row| == c.copySize && row[0] == 0
    ensures Shown(c, s, ts, rows[k := row])
  {
    forall i | 0 <= i < |ts| && s.slots[i].Live? ensures Holds(rows[k := row], s.slots[i]) {
      assert SlotOk(c, s, s.slots[i]) && Holds(rows, s.slots[i]);
    }
  }

  lemma ClaimShown(c: Config, s: State, ts: seq<Transmission>, rows: seq<seq<Byte>>, j: nat, l: Slot, t: Transmission, row: seq<Byte>, nextId: nat)
    requires Shown(c, s, ts, rows) && Inv(c, s) && j < |ts| && s.slots[j].Idle? && l.Live? && Mirrors(t, l)
    requires l.copy < |rows| && !s.held[l.copy] && |row| == c.copySize && row[0] != 0 && |l.pdu| <= |row| && row[..|l.pdu|] == l.pdu
    ensures Shown(c, State(nextId, s.slots[j := l], s.held[l.copy := true]), ts[j := t], rows[l.copy := row])
  {
    var s', rows' := State(nextId, s.slots[j := l], s.held[l.copy := true]), rows[l.copy := row];
    forall i | 0 <= i < |ts| && s'.slots[i].Live? ensures Holds(rows', s'.slots[i]) {
      if i != j { assert SlotOk(c, s, s.slots[i]) && Holds(rows, s.slots[i]); }
    }
  }

  lemma ReleaseShown(c: Config, s: State, ts: seq<Transmission>, rows: seq<seq<Byte>>, i: nat)
    requires Shown(c, s, ts, rows) && Inv(c, s) && i < |ts| && s.slots[i].Live?
    ensures s.slots[i].copy < |rows|
    ensures Shown(c, Release(s, i), ts[i := UNUSED], rows[s.slots[i].copy := rows[s.slots[i].copy][0 := 0]])
  {
    assert SlotOk(c, s, s.slots[i]);
    var k := s.slots[i].copy;
    var s', rows' := Release(s, i), rows[k := rows[k][0 := 0]];
    forall j | 0 <= j < |ts| && s'.slots[j].Live? ensures Holds(rows', s'.slots[j]) {
      assert SlotOk(c, s, s.slots[j]) && Holds(rows, s.slots[j]) && s.slots[j].copy != k;
    }
  }

  /** The code, options and payload that a message to be sent has in memory. */
  ghost predicate Sendable(code: Byte, store: OptionStore?, body: Body, links: seq<Chunk>, m: Content)
    reads (if store == null then {} else {store, store.entries, store.buf}), links
  {
    StoreOk(store) && BodyOk(body, links) && m == Content(code, MessageOptions(store), BodyBytes(body, links))
  }

  class Messenger {
    const config: Config
    const transmissions: array<Transmission>
    const copies: seq<array<Byte>>
    var nextId: nat
    ghost var state: State
    /** Everything put on the wire so far. */
    ghost var sent: seq<Datagram>

    ghost function Rows(): (r: seq<seq<Byte>>)
      reads copies
    {
      seq(|copies|, k requires 0 <= k < |copies| reads copies => copies[k][..])
    }

    ghost predicate Valid()
      reads this, transmissions, copies
    {
      && ConfigOk(config) && nextId == state.nextId
      && (forall j, k :: 0 <= j < k < |copies| ==> copies[j] != copies[k])
      && Inv(config, state) && Shown(config, state, transmissions[..], Rows())
    }

    constructor (config: Config, slots: nat, copies: seq<array<Byte>>, seed: nat)
      requires ConfigOk(config) && (forall j, k :: 0 <= j < k < |copies| ==> copies[j] != copies[k])
      requires forall k :: 0 <= k < |copies| ==> copies[k].Length == config.copySize && copies[k][0] == 0
      ensures Valid() && Initial(state) && |state.slots| == slots && |state.held| == |copies| && state.nextId == seed && sent == []
      ensures this.config == config && this.copies == copies && fresh(transmissions)
    {
      this.config := config;
      this.transmissions := new Transmission[slots](_ => UNUSED);
      this.copies := copies;
      this.nextId := seed;
      this.state := State(seed, seq(slots, _ => Idle), seq(|copies|, _ => false));
      this.sent := [];
      new;
      InitialInv(config, state);
    }

    // ---------------------------------------------------------------- pools

    /** `_generate_message_id`. */
    method GenerateId() returns (id: nat)
      modifies this`nextId
      ensures id == old(nextId) % ID_COUNT && nextId == old(nextId) + 1
    {
      id := nextId % ID_COUNT;
      nextId := nextId + 1;
    }

    /** `_carbon_copy_alloc`: claims the first free copy by overwriting its first byte. */
    method CopyAlloc() returns (k: nat)
      requires |state.held| == |copies| && forall i, j :: 0 <= i < j < |copies| ==> copies[i] != copies[j]
      requires forall i :: 0 <= i < |copies| ==> copies[i].Length > 0 && (state.held[i] <==> copies[i][0] != 0)
      modifies copies
      ensures k == FirstVacant(state.held)
      ensures Rows() == if k == |copies| then old(Rows()) else old(Rows())[k := old(Rows())[k][0 := 0xff]]
    {
      ghost var rows := Rows();
      k := 0;
      while k < |copies|
        invariant k <= |copies| && Rows() == rows && forall i :: 0 <= i < k ==> state.held[i]
      {
        assert rows[k] == copies[k][..];
        if copies[k][0] == 0 {
          copies[k][0] := 0xff;
          assert Rows() == rows[k := rows[k][0 := 0xff]];
          VacantIs(state.held, k);
          return;
        }
        k := k + 1;
      }
      VacantIs(state.held, k);
    }

    static lemma VacantIs(held: seq<bool>, k: nat)
      requires k <= |held| && (forall i :: 0 <= i < k ==> held[i]) && (k < |held| ==> !held[k])
      ensures FirstVacant(held) == k
      decreases k
    {
      if k > 0 { VacantIs(held[1..], k - 1); }
    }

    /** `_carbon_copy_free`. */
    method CopyFree(k: nat)
      requires k < |copies| && copies[k].Length > 0 && forall i, j :: 0 <= i < j < |copies| ==> copies[i] != copies[j]
      modifies copies[k]
      ensures Rows() == old(Rows())[k := old(Rows())[k][0 := 0]]
    {
      ghost var rows := Rows();
      copies[k][0] := 0;
      assert Rows() == rows[k := rows[k][0 := 0]];
    }

    /** `_transmission_alloc_unsafe` and `_transmission_create`: the first unused slot, or the length of the array for NULL. */
    method TransmissionCreate(remote: Endpoint, id: nat) returns (j: nat)
      requires Valid()
      modifies transmissions
      ensures j == FirstIdle(state.slots)
      ensures transmissions[..] == if j == transmissions.Length then old(transmissions[..])
                                   else old(transmissions[..])[j := UNUSED.(used := true, id := id, endpoint := remote)]
    {
      ghost var ts := transmissions[..];
      j := 0;
      while j < transmissions.Length
        invariant j <= transmissions.Length && transmissions[..] == ts && forall i :: 0 <= i < j ==> state.slots[i].Live?
      {
        assert ts[j] == transmissions[j] && Mirrors(ts[j], state.slots[j]);
        if !transmissions[j].used {
          transmissions[j] := transmissions[j].(used := true);
          transmissions[j] := transmissions[j].(id := id);
          transmissions[j] := transmissions[j].(endpoint := remote);
          IdleIs(state.slots, j);
          return;
        }
        j := j + 1;
      }
      IdleIs(state.slots, j);
    }

    static lemma IdleIs(slots: seq<Slot>, j: nat)
      requires j <= |slots| && (forall i :: 0 <= i < j ==> slots[i].Live?) && (j < |slots| ==> slots[j].Idle?)
      ensures FirstIdle(slots) == j
      decreases j
    {
      if j > 0 { IdleIs(slots[1..], j - 1); }
    }

    /** `_transmission_find`. */
    method TransmissionFind(remote: Endpoint, id: nat) returns (i: nat)
      requires Valid()
      ensures i == Find(state.slots, remote, id)
    {
      i := 0;
      while i < transmissions.Length
        invariant i <= transmissions.Length && forall k :: 0 <= k < i ==> !Matches(state.slots[k], remote, id)
      {
        assert Mirrors(transmissions[..][i], state.slots[i]);
        if transmissions[i].used && transmissions[i].id == id && transmissions[i].endpoint == remote {
          break;
        }
        i := i + 1;
      }
      FindIs(state.slots, remote, id, i);
    }

    static lemma FindIs(slots: seq<Slot>, remote: Endpoint, id: nat, i: nat)
      requires i <= |slots| && (forall k :: 0 <= k < i ==> !Matches(slots[k], remote, id)) && (i < |slots| ==> Matches(slots[i], remote, id))
      ensures Find(slots, remote, id) == i
      decreases i
    {
      if i > 0 { FindIs(slots[1..], remote, id, i - 1); }
    }

    /** `_transmission_free`: frees the copy if there is one, cancels the timer, clears the slot. */
    method TransmissionFree(i: nat)
      requires i < transmissions.Length && transmissions[i].pdu < |copies|
      requires forall k :: 0 <= k < |copies| ==> copies[k].Length > 0
      requires forall j, k :: 0 <= j < k < |copies| ==> copies[j] != copies[k]
      modifies transmissions, if transmissions[i].pdu >= 0 then {copies[transmissions[i].pdu]} else {}
      ensures transmissions[..] == old(transmissions[..])[i := UNUSED]
      ensures var k := old(transmissions[i].pdu);
              Rows() == if k < 0 then old(Rows()) else old(Rows())[k := old(Rows())[k][0 := 0]]
    {
      ghost var ts := transmissions[..];
      if transmissions[i].pdu >= 0 {
        CopyFree(transmissions[i].pdu);
      }
      transmissions[i] := transmissions[i].(timer := Off);
      transmissions[i] := UNUSED;
      assert transmissions[..] == ts[i := UNUSED];
    }

    /** `_handle_ack` and `_handle_reset` do the same: they end the transmission that matches, if any. */
    method EndMatching(remote: Endpoint, id: nat)
      requires Valid()
      modifies this`state, transmissions, copies
      ensures Valid() && state == End(old(state), remote, id)
    {
      hide Shown;
      hide Inv;
      var i := TransmissionFind(remote, id);
      ShownSizes(config, state, transmissions[..], Rows());
      if i < transmissions.Length {
        ReleaseKeepsInv(config, state, i);
        ReleaseShown(config, state, transmissions[..], Rows(), i);
        SlotShown(config, state, transmissions[..], Rows(), i);
        CopyFacts();
        TransmissionFree(i);
        state := Release(state, i);
      }
    }

    static lemma ShownSizes(c: Config, s: State, ts: seq<Transmission>, rows: seq<seq<Byte>>)
      requires Shown(c, s, ts, rows)
      ensures |ts| == |s.slots| && |rows| == |s.held| && c.copySize > 0 && forall k :: 0 <= k < |rows| ==> |rows[k]| == c.copySize
    {
    }

    static lemma SlotShown(c: Config, s: State, ts: seq<Transmission>, rows: seq<seq<Byte>>, i: nat)
      requires Shown(c, s, ts, rows) && i < |ts| && s.slots[i].Live?
      ensures Mirrors(ts[i], s.slots[i]) && Holds(rows, s.slots[i])
    {
    }

    // ---------------------------------------------------------------- sending

    /** `_sendv`: hands a chain of chunks to the transport. */
    method Transmit(remote: Endpoint, head: Chunk, transport: int, ghost vector: seq<Chunk>)
      requires Chain(head, vector)
      modifies this`sent
      ensures sent == if transport < 0 then old(sent) else old(sent) + [Datagram(remote, Flat(vector))]
    {
      if transport >= 0 {
        sent := sent + [Datagram(remote, Flat(vector))];
      }
    }

    /** Slot `j` and copy `k` are claimed for a message; all other slots and copies show the state. */
    ghost predicate Claimed(j: nat, k: nat, ts: seq<Transmission>, rows: seq<seq<Byte>>, t: Transmission, row: seq<Byte>)
      reads this, transmissions, copies
    {
      && Inv(config, state) && Shown(config, state, ts, rows) && j < |ts| && k < |copies| == |rows|
      && j == FirstIdle(state.slots) && k == FirstVacant(state.held) && t.pdu == k && |row| == config.copySize
      && (forall i, j :: 0 <= i < j < |copies| ==> copies[i] != copies[j])
      && transmissions[..] == ts[j := t] && Rows() == rows[k := row]
    }

    /** The failing exit of a send: both pools are as they were. */
    method Abandon(j: nat, k: nat, ghost ts: seq<Transmission>, ghost rows: seq<seq<Byte>>, ghost t: Transmission, ghost row: seq<Byte>)
      requires Claimed(j, k, ts, rows, t, row)
      modifies transmissions, copies
      ensures Shown(config, state, transmissions[..], Rows())
    {
      hide Shown;
      hide Inv;
      hide Mirrors;
      hide FirstIdle;
      hide FirstVacant;
      ShownSizes(config, state, ts, rows);
      IdleUnused(config, state, ts, rows, j);
      VacantShown(config, state, ts, rows, k, row[0 := 0]);
      assert transmissions[..][j] == t;
      assert forall i :: 0 <= i < |copies| ==> copies[i].Length == |Rows()[i]|;
      TransmissionFree(j);
      assert transmissions[..] == ts;
      assert Rows() == rows[k := row[0 := 0]];
    }

    /** Slot and copy for a confirmable message, in the source's order: the slot is used before it is known to exist. */
    method Claim(p: Packet, env: Env, ghost ts: seq<Transmission>, ghost rows: seq<seq<Byte>>) returns (j: nat, k: nat, outcome: Outcome)
      requires Valid() && ts == transmissions[..] && rows == Rows()
      modifies transmissions, copies
      ensures j == FirstIdle(state.slots) && k == FirstVacant(state.held)
      ensures outcome == if k == |copies| then Failed(ENOBUFS) else if j == transmissions.Length then Crash else Done
      ensures outcome.Failed? ==> transmissions[..] == ts && Rows() == rows
      ensures outcome == Done ==>
                && transmissions[..] == ts[j := Transmission(true, p.remote, p.id, config.retransmissions % 32, k, 0, Armed(env.wait))]
                && Rows() == rows[k := rows[k][0 := 0xff]]
    {
      hide Valid;
      hide Rows;
      hide Inv;
      hide Shown;
      hide Mirrors;
      hide FirstIdle;
      hide FirstVacant;
      CopyFacts();
      j := TransmissionCreate(p.remote, p.id);
      assert Rows() == rows;
      k := CopyAlloc();
      ghost var claimed := Rows();
      if k == |copies| {
        if j < transmissions.Length {
          Unclaim(j, ts, rows);
        }
        return j, k, Failed(ENOBUFS);
      }
      if j == transmissions.Length {
        return j, k, Crash;
      }
      SetUp(j, k, env, ts, UNUSED.(used := true, id := p.id, endpoint := p.remote));
      assert Rows() == claimed;
      outcome := Done;
    }

    /** Gives back a slot for which no copy was left. */
    method Unclaim(j: nat, ghost ts: seq<Transmission>, ghost rows: seq<seq<Byte>>)
      requires Shown(config, state, ts, rows) && j < |ts| == transmissions.Length && state.slots[j].Idle?
      requires transmissions[..] == ts[j := transmissions[j]] && transmissions[j].pdu == -1
      requires forall k :: 0 <= k < |copies| ==> copies[k].Length > 0
      requires forall i, k :: 0 <= i < k < |copies| ==> copies[i] != copies[k]
      modifies transmissions
      ensures transmissions[..] == ts
    {
      hide Inv;
      hide Shown;
      hide Mirrors;
      IdleUnused(config, state, ts, rows, j);
      TransmissionFree(j);
      assert transmissions[..] == ts;
    }

    /** Builds the PDU into copy `k`. */
    method BuildInto(k: nat, p: Packet, code: Byte, store: OptionStore?, body: Body, ghost links: seq<Chunk>, ghost m: Content)
        returns (built: BuildResult, ghost row: seq<Byte>)
      requires k < |copies| && copies[k].Length == config.copySize && PacketOk(p)
      requires forall i, j :: 0 <= i < j < |copies| ==> copies[i] != copies[j]
      requires Sendable(code, store, body, links, m) && (store != null ==> store.buf !in copies)
      modifies copies[k]
      ensures Rows() == old(Rows())[k := row] && |row| == config.copySize
      ensures built.Overrun? <==> RunsOver(config, p, m)
      ensures built.Built? <==> !RunsOver(config, p, m) && |Wire(p, m)| <= config.copySize
      ensures built.Built? ==> built.size == |Wire(p, m)| && row[..built.size] == Wire(p, m)
    {
      hide Splice;
      hide MessageBytes;
      ghost var rows := Rows();
      ghost var was := copies[k][..];
      built := BuildPdu(copies[k], 0, config.copySize, HeaderOf(p, code), store, body, links);
      row := copies[k][..];
      assert Rows() == rows[k := row];
      if built.Built? { SpliceFront(was, Wire(p, m)); }
    }

    /** Hands the PDU in copy `k` to the transport. */
    method TransmitCopy(k: nat, size: nat, remote: Endpoint, transport: int, ghost pdu: seq<Byte>)
      requires k < |copies| && size <= copies[k].Length && pdu == copies[k][..size]
      modifies this`sent
      ensures sent == if transport < 0 then old(sent) else old(sent) + [Datagram(remote, pdu)]
    {
      var chunk := new Chunk(copies[k][..size], null);
      FlatOne(chunk);
      Transmit(remote, chunk, transport, [chunk]);
    }

    /** The fields that are set once slot and copy are there. */
    method SetUp(j: nat, k: nat, env: Env, ghost ts: seq<Transmission>, ghost t: Transmission)
      requires j < transmissions.Length == |ts| && transmissions[..] == ts[j := t]
      modifies transmissions
      ensures transmissions[..] == ts[j := t.(remaining := config.retransmissions % 32, pdu := k, timer := Armed(env.wait))]
    {
      assert transmissions[..][j] == t;
      transmissions[j] := transmissions[j].(remaining := config.retransmissions % 32);
      transmissions[j] := transmissions[j].(pdu := k);
      transmissions[j] := transmissions[j].(timer := Armed(env.wait));
    }

    /** The confirmable branch of `unicoap_messaging_send_rfc7252`. */
    method SendConfirmable(p: Packet, code: Byte, store: OptionStore?, body: Body, env: Env, ghost links: seq<Chunk>, ghost m: Content)
        returns (outcome: Outcome)
      requires Valid() && PacketOk(p) && state.nextId > 0
      requires Sendable(code, store, body, links, m) && (store != null ==> store.buf !in copies)
      modifies this`state, this`sent, transmissions, copies
      ensures var r := Reliability.SendConfirmable(config, old(state), p, m, env);
              && outcome == r.outcome
              && (outcome == Done || outcome.Failed? ==>
                    state == r.state && sent == old(sent) + r.outs && Shown(config, state, transmissions[..], Rows()))
    {
      hide Valid;
      hide Claimed;
      hide Shown;
      hide FirstIdle;
      hide FirstVacant;
      hide Delivery;
      hide NewSlot;
      hide Wire;
      hide Sendable;
      hide Rows;
      hide Reliability.SendConfirmable;
      hide Inv;
      ghost var ts, rows := transmissions[..], Rows();
      var j, k;
      CopyFacts();
      ShownSizes(config, state, ts, rows);
      ConfirmableCases(config, state, p, m, env);
      j, k, outcome := Claim(p, env, ts, rows);
      if outcome == Done {
        NowClaimed(j, k, ts, rows, Transmission(true, p.remote, p.id, config.retransmissions % 32, k, 0, Armed(env.wait)), rows[k][0 := 0xff]);
        outcome := Deliver(j, k, p, code, store, body, env, links, m, ts, rows);
      }
    }

    lemma NowClaimed(j: nat, k: nat, ts: seq<Transmission>, rows: seq<seq<Byte>>, t: Transmission, row: seq<Byte>)
      requires Inv(config, state) && Shown(config, state, ts, rows) && j < |ts| && k < |copies| == |rows|
      requires j == FirstIdle(state.slots) && k == FirstVacant(state.held) && t.pdu == k && |row| == config.copySize
      requires forall i, j :: 0 <= i < j < |copies| ==> copies[i] != copies[j]
      requires transmissions[..] == ts[j := t] && Rows() == rows[k := row]
      ensures Claimed(j, k, ts, rows, t, row)
    {
    }

    /** Builds and sends a message for which slot `j` and copy `k` are claimed; a failure gives both back. */
    method Deliver(j: nat, k: nat, p: Packet, code: Byte, store: OptionStore?, body: Body, env: Env,
                   ghost links: seq<Chunk>, ghost m: Content, ghost ts: seq<Transmission>, ghost rows: seq<seq<Byte>>)
        returns (outcome: Outcome)
      requires PacketOk(p) && state.nextId > 0 && k < |rows| && |rows[k]| > 0
      requires Claimed(j, k, ts, rows, Transmission(true, p.remote, p.id, config.retransmissions % 32, k, 0, Armed(env.wait)), rows[k][0 := 0xff])
      requires Sendable(code, store, body, links, m) && (store != null ==> store.buf !in copies)
      modifies this`state, this`sent, transmissions, copies
      ensures outcome == Delivery(config, p, m, env)
      ensures outcome == Done || outcome.Failed? ==> Shown(config, state, transmissions[..], Rows())
      ensures outcome == Done ==>
                && sent == old(sent) + [Datagram(p.remote, Wire(p, m))]
                && state == State(old(state.nextId), old(state.slots)[j := NewSlot(config, p, m, k, env, old(state.nextId) - 1)],
                                  old(state.held)[k := true])
      ensures outcome != Done ==> state == old(state) && sent == old(sent)
    {
      hide Shown;
      hide Inv;
      hide FirstIdle;
      hide FirstVacant;
      hide NewSlot;
      hide Wire;
      hide RunsOver;
      ghost var t := Transmission(true, p.remote, p.id, config.retransmissions % 32, k, 0, Armed(env.wait));
      ghost var row;
      var built;
      assert copies[k].Length == config.copySize by { assert |Rows()[k]| == copies[k].Length; }
      built, row := BuildInto(k, p, code, store, body, links, m);
      assert Rows() == rows[k := row];
      if built.Overrun? {
        return Outcome.Overrun;
      }
      if built == NoRoom {
        Abandon(j, k, ts, rows, t, row);
        return Failed(ENOBUFS);
      }
      assert copies[k][..] == Rows()[k];
      TransmitCopy(k, built.size, p.remote, env.transport, Wire(p, m));
      if env.transport < 0 {
        Abandon(j, k, ts, rows, t, row);
        return Failed(env.transport);
      }
      Complete(j, k, built.size, p, m, env, ts, rows, t, row);
      outcome := Done;
    }

    /** The size is recorded last; slot and copy now show the transmission. */
    method Complete(j: nat, k: nat, size: nat, p: Packet, ghost m: Content, ghost env: Env,
                    ghost ts: seq<Transmission>, ghost rows: seq<seq<Byte>>, ghost t: Transmission, ghost row: seq<Byte>)
      requires Claimed(j, k, ts, rows, t, row) && PacketOk(p) && state.nextId > 0
      requires t == Transmission(true, p.remote, p.id, config.retransmissions % 32, k, 0, Armed(env.wait))
      requires size == |Wire(p, m)| <= |row| && row[..size] == Wire(p, m)
      modifies this`state, transmissions
      ensures state == State(old(state.nextId), old(state.slots)[j := NewSlot(config, p, m, k, env, old(state.nextId) - 1)],
                             old(state.held)[k := true])
      ensures Shown(config, state, transmissions[..], Rows())
    {
      assert transmissions[..][j] == t;
      ghost var l := NewSlot(config, p, m, k, env, state.nextId - 1);
      transmissions[j] := transmissions[j].(size := size);
      assert transmissions[..] == ts[j := t.(size := size)];
      WireFacts(p, m);
      assert row[0] == row[..size][0];
      ClaimShown(config, state, ts, rows, j, l, t.(size := size), row, state.nextId);
      state := State(state.nextId, state.slots[j := l], state.held[k := true]);
    }

    /** A message without retransmission, as a chain of chunks: `_build_and_send_pdu` without a copy. */
    method SendPlain(p: Packet, code: Byte, store: OptionStore?, body: Body, env: Env, ghost links: seq<Chunk>, ghost m: Content)
        returns (outcome: Outcome)
      requires PacketOk(p) && Sendable(code, store, body, links, m)
      modifies this`sent
      ensures var r := Reliability.SendPlain(config, old(state), p, m, env); outcome == r.outcome && sent == old(sent) + r.outs
    {
      hide HeaderBytes;
      hide Splice;
      hide Valid;
      hide Wire;
      hide Sendable;
      var header := new Byte[config.headerMax];
      ghost var was := header[..];
      var built := BuildHeader(header, 0, config.headerMax, HeaderOf(p, code));
      if built == NoRoom {
        return Failed(ENOBUFS);
      }
      SpliceFront(was, HeaderBytes(HeaderOf(p, code)));
      outcome := SendChain(header[..built.size], p, code, store, body, env, links, m);
    }

    /** Links header, options and payload and hands them to the transport. */
    method SendChain(header: seq<Byte>, p: Packet, code: Byte, store: OptionStore?, body: Body, env: Env, ghost links: seq<Chunk>, ghost m: Content)
        returns (outcome: Outcome)
      requires PacketOk(p) && Sendable(code, store, body, links, m) && header == HeaderBytes(HeaderOf(p, code))
      modifies this`sent
      ensures outcome == if env.transport < 0 then Failed(env.transport) else Done
      ensures sent == old(sent) + if outcome == Done then [Datagram(p.remote, Wire(p, m))] else []
    {
      hide HeaderBytes;
      hide PayloadBytes;
      hide Valid;
      hide Wire;
      hide Chain;
      hide Flat;
      hide StoreOk;
      hide BodyOk;
      hide BodyBytes;
      hide MessageOptions;
      var a := new Chunk([], null);
      var b := new Chunk([], null);
      var c := new Chunk([], null);
      var d := new Chunk([], null);
      var chunks := [a, b, c, d];
      ghost var vector := BuildVector(header, store, body, chunks, links);
      WireParts(p, m);
      Transmit(p.remote, chunks[0], env.transport, vector);
      if env.transport < 0 {
        return Failed(env.transport);
      }
      outcome := Done;
    }

    /** `unicoap_messaging_send_rfc7252`. */
    method Send(p: Packet, code: Byte, store: OptionStore?, body: Body, reliable: bool, env: Env, ghost links: seq<Chunk>, ghost m: Content)
        returns (p': Packet, outcome: Outcome)
      requires Valid() && PacketOk(p) && Sendable(code, store, body, links, m) && (store != null ==> store.buf !in copies)
      requires Allowed(config, 0, env.wait)
      modifies this, transmissions, copies
      ensures var r := Reliability.Send(config, old(state), p, m, reliable, env);
              && p' == r.packet && outcome == r.outcome && PacketOk(p')
              && (outcome == Done || outcome.Failed? ==> Valid() && state == r.state && sent == old(sent) + r.outs)
    {
      hide Shown;
      hide Inv;
      hide Allowed;
      hide Wire;
      hide Rows;
      hide Sendable;
      FormatOk(p, code, reliable, state.nextId);
      SendKeepsInv(config, state, p, m, reliable, env);
      SendableCode(code, store, body, links, m);
      p' := p;
      if p'.notification {
        p' := FormatSeparate(p', reliable);
      } else if IsResponse(code) && p'.kind == CON {
        p' := p'.(kind := ACK);
      } else {
        p' := FormatSeparate(p', reliable);
      }
      if p'.kind == CON {
        outcome := SendConfirmable(p', code, store, body, env, links, m);
      } else {
        outcome := SendPlain(p', code, store, body, env, links, m);
      }
    }

    lemma SendableCode(code: Byte, store: OptionStore?, body: Body, links: seq<Chunk>, m: Content)
      requires Sendable(code, store, body, links, m)
      ensures m.code == code
    {
    }

    /** `_format_separate`. */
    method FormatSeparate(p: Packet, reliable: bool) returns (p': Packet)
      requires Valid()
      modifies this`nextId, this`state
      ensures Valid() && state == old(state).(nextId := old(state.nextId) + 1)
      ensures p' == p.(kind := if reliable then CON else NON, id := old(state.nextId) % ID_COUNT)
    {
      hide Shown;
      hide Inv;
      CountKeepsInv(config, state, state.nextId + 1);
      CountShown(config, state, transmissions[..], Rows(), state.nextId + 1);
      var id := GenerateId();
      state := state.(nextId := state.nextId + 1);
      p' := p.(id := id, kind := if reliable then CON else NON);
    }

    static lemma CountShown(c: Config, s: State, ts: seq<Transmission>, rows: seq<seq<Byte>>, nextId: nat)
      requires Shown(c, s, ts, rows)
      ensures Shown(c, s.(nextId := nextId), ts, rows)
    {
    }

    // ---------------------------------------------------------------- timeouts

    /** `_on_ack_timeout`: the timer of slot `i` has fired. */
    method OnAckTimeout(i: nat, env: Env)
      requires Valid() && Enabled(config, state, Expiring(i, env))
      modifies this`state, this`sent, transmissions
      ensures Valid() && i < |old(state.slots)| && old(state.slots)[i].Live?
      ensures state == Expire(old(state), i, env) && sent == old(sent) + Resent(old(state), i, env)
    {
      hide Inv;
      hide Allowed;
      hide Shown;
      hide Rows;
      hide SlotOk;
      ghost var s, ts, rows, l := state, transmissions[..], Rows(), state.slots[i];
      ExpireKeepsInv(config, state, i, env);
      SlotFacts(i);
      transmissions[i] := transmissions[i].(timer := Off);
      assert transmissions[i].pdu >= 0 && transmissions[i].size > 0;
      if transmissions[i].remaining != 0 {
        transmissions[i] := transmissions[i].(remaining := transmissions[i].remaining - 1);
        TransmitCopy(transmissions[i].pdu, transmissions[i].size, transmissions[i].endpoint, env.transport, l.pdu);
        if env.transport >= 0 {
          transmissions[i] := transmissions[i].(timer := Armed(env.wait));
        }
      }
      state := Expire(state, i, env);
      assert transmissions[..] == ts[i := transmissions[i]];
      RetimeShown(config, s, ts, rows, i, state.slots[i], transmissions[i]);
    }

    /** A live slot as it is stored. */
    lemma SlotFacts(i: nat)
      requires Valid() && i < |state.slots| && state.slots[i].Live?
      ensures var l := state.slots[i];
              && i < transmissions.Length
              && transmissions[i] == Transmission(true, l.remote, l.id, l.remaining, l.copy, |l.pdu|, l.timer)
              && l.copy < |copies| && 0 < |l.pdu| <= copies[l.copy].Length && copies[l.copy][..|l.pdu|] == l.pdu
    {
      LiveOk(config, state, i);
      SlotShown(config, state, transmissions[..], Rows(), i);
      assert transmissions[..][i] == transmissions[i] && Rows()[state.slots[i].copy] == copies[state.slots[i].copy][..];
    }

    static lemma RetimeShown(c: Config, s: State, ts: seq<Transmission>, rows: seq<seq<Byte>>, i: nat, l: Slot, t: Transmission)
      requires Shown(c, s, ts, rows) && i < |ts| && s.slots[i].Live? && Mirrors(t, l) && l.Live?
      requires l.copy == s.slots[i].copy && l.pdu == s.slots[i].pdu
      ensures Shown(c, s.(slots := s.slots[i := l]), ts[i := t], rows)
    {
      assert Holds(rows, s.slots[i]);
      forall j | 0 <= j < |ts| && s.slots[j].Live? ensures Holds(rows, s.slots[i := l][j]) {
        assert Holds(rows, s.slots[j]);
      }
    }

    // ---------------------------------------------------------------- inbound

    /** `_send_empty_message`. */
    method SendEmpty(remote: Endpoint, kind: nat, id: nat, env: Env)
      requires Valid() && kind <= 3 && id < ID_COUNT
      modifies this`sent
      ensures Valid() && sent == old(sent) + EmptyMessage(remote, kind, id, env)
    {
      hide Shown;
      hide Inv;
      ghost var m := Content(0, [], []);
      var p := Packet(remote, kind, id, [], false);
      assert Wire(p, m) == EmptyWire(kind, id) by { assert HeaderBytes(HeaderOf(p, 0)) + [] + [] == HeaderBytes(HeaderOf(p, 0)); }
      var _ := SendPlain(p, 0, null, Contiguous([]), env, [], m);
    }

    /** `_process_messaging_layer`. */
    method ProcessMessagingLayer(m: Inbound, env: Env) returns (layer: Layer)
      requires Valid() && HeaderOk(m.header)
      modifies this`state, this`sent, transmissions, copies
      ensures Valid()
      ensures var (s', outs, l) := MessageLayer(old(state), m, env); state == s' && sent == old(sent) + outs && layer == l
    {
      hide Valid;
      hide End;
      hide EmptyMessage;
      var h := m.header;
      if h.code == 0 && m.payload != [] {
        return Protocol;
      }
      if h.kind == ACK {
        EndMatching(m.remote, h.id);
        if h.code == 0 {
          return Ignored;
        } else if !IsResponse(h.code) {
          return Protocol;
        }
      } else if h.kind == RST {
        EndMatching(m.remote, h.id);
        if h.code != 0 {
          return Protocol;
        }
        return Ignored;
      } else if h.kind == CON {
        if h.code == 0 {
          SendEmpty(m.remote, RST, h.id, env);
          return Ignored;
        }
      } else if h.code == 0 {
        return Ignored;
      }
      layer := Passed;
    }

    lemma CopyFacts()
      requires Valid()
      ensures |state.held| == |copies| && |state.slots| == transmissions.Length
      ensures Inv(config, state) && Shown(config, state, transmissions[..], Rows())
      ensures forall j, k :: 0 <= j < k < |copies| ==> copies[j] != copies[k]
      ensures forall i :: 0 <= i < |copies| ==> copies[i].Length == config.copySize > 0 && (state.held[i] <==> copies[i][0] != 0)
    {
      hide Inv;
      var rows := Rows();
      forall i | 0 <= i < |copies| ensures copies[i].Length == config.copySize > 0 && (state.held[i] <==> copies[i][0] != 0) {
        assert rows[i] == copies[i][..];
      }
    }
  }

  lemma IdleUnused(c: Config, s: State, ts: seq<Transmission>, rows: seq<seq<Byte>>, j: nat)
    requires Shown(c, s, ts, rows) && j < |ts| && s.slots[j].Idle?
    ensures ts[j] == UNUSED
  {
    assert Mirrors(ts[j], s.slots[j]);
  }

  lemma WireParts(p: Packet, m: Content)
    requires PacketOk(p)
    ensures Wire(p, m) == HeaderBytes(HeaderOf(p, m.code)) + m.options + PayloadBytes(m.payload)
  {
  }

  lemma SpliceFront(s: seq<Byte>, x: seq<Byte>)
    requires |x| <= |s|
    ensures Splice(s, 0, x)[..|x|] == x
  {
    assert Splice(s, 0, x)[0..|x|] == x;
  }

  lemma ConfirmableCases(c: Config, s: State, p: Packet, m: Content, env: Env)
    requires PacketOk(p) && s.nextId > 0
    ensures var r, j, k := Reliability.SendConfirmable(c, s, p, m, env), FirstIdle(s.slots), FirstVacant(s.held);
            && (k == |s.held| ==> r == Sent(s, p, [], Failed(ENOBUFS)))
            && (k < |s.held| && j == |s.slots| ==> r.outcome == Crash)
            && (k < |s.held| && j < |s.slots| ==>
                  && r.outcome == Delivery(c, p, m, env)
                  && (r.outcome != Done ==> r.state == s && r.outs == [])
                  && (r.outcome == Done ==>
                        && r.state == State(s.nextId, s.slots[j := NewSlot(c, p, m, k, env, s.nextId - 1)], s.held[k := true])
                        && r.outs == [Datagram(p.remote, Wire(p, m))]))
  {
    hide FirstIdle;
    hide FirstVacant;
    hide Wire;
    hide NewSlot;
  }
}
