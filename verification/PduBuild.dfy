/** Building PDUs: into one buffer, and as a chain of chunks; both give the same bytes. */
module PduBuild {
  import opened Codec
  import opened Buffers
  import opened Iolists
  import opened OptionEdits
  import opened OptionStores
  import opened Pdu

  /** `Overrun`: the source writes behind the capacity it was given; the model stops there. */
  datatype BuildResult = Built(size: nat) | NoRoom | Overrun

  /** A payload in one piece or in chunks. */
  datatype Body = Contiguous(bytes: seq<Byte>) | Chunked(chunks: Chunk?)

  ghost predicate BodyOk(p: Body, links: seq<Chunk>)
    reads links
  {
    p.Chunked? ==> Chain(p.chunks, links)
  }

  ghost function BodyBytes(p: Body, links: seq<Chunk>): seq<Byte>
    reads links
  {
    match p
    case Contiguous(bytes) => bytes
    case Chunked(_) => Flat(links)
  }

  /** `unicoap_message_payload_get_size`. */
  method BodySize(p: Body, ghost links: seq<Chunk>) returns (size: nat)
    requires BodyOk(p, links)
    ensures size == |BodyBytes(p, links)|
  {
    match p
    case Contiguous(bytes) => size := |bytes|;
    case Chunked(chunks) => size := Size(chunks, links);
  }

  /** The options of a message; it may have none at all. */
  ghost predicate StoreOk(store: OptionStore?)
    reads if store == null then {} else {store, store.entries, store.buf}
  {
    store != null ==> store.Valid()
  }

  ghost function MessageOptions(store: OptionStore?): seq<Byte>
    requires StoreOk(store)
    reads if store == null then {} else {store, store.entries, store.buf}
  {
    if store == null then [] else store.Packed()
  }

  // ---------------------------------------------------------------- into one buffer

  /** The four fixed bytes of a header. */
  function FixedBytes(h: Header): (r: seq<Byte>)
    requires HeaderOk(h)
    ensures |r| == HEADER_SIZE && r + h.token == HeaderBytes(h)
  {
    [64 * VERSION_1 + 16 * h.kind + |h.token|, h.code, h.id / 256, h.id % 256]
  }

  /** The setters of `unicoap_pdu_build_header_rfc7252`; or-ing a field into bits that are still clear is adding it. */
  method SetFields(buf: array<Byte>, at: nat, h: Header)
    requires at + HEADER_SIZE <= buf.Length && HeaderOk(h)
    modifies buf
    ensures buf[..] == Splice(old(buf[..]), at, FixedBytes(h))
  {
    ghost var was := buf[..];
    buf[at] := 0;
    buf[at] := buf[at] + 64 * VERSION_1;
    buf[at] := buf[at] + 16 * h.kind;
    buf[at + 2] := h.id / 256;
    buf[at + 3] := h.id % 256;
    buf[at + 1] := h.code;
    buf[at] := buf[at] + |h.token|;
    assert buf[..] == Splice(was, at, FixedBytes(h));
  }

  /** `unicoap_pdu_build_header_rfc7252`. */
  method BuildHeader(buf: array<Byte>, at: nat, capacity: nat, h: Header) returns (r: BuildResult)
    requires at + capacity <= buf.Length && HeaderOk(h)
    modifies buf
    ensures r == if capacity < HEADER_SIZE + |h.token| then NoRoom else Built(HEADER_SIZE + |h.token|)
    ensures buf[..] == if r == NoRoom then old(buf[..]) else Splice(old(buf[..]), at, HeaderBytes(h))
  {
    hide Splice;
    hide FixedBytes;
    hide HeaderBytes;
    if capacity < HEADER_SIZE + |h.token| {
      return NoRoom;
    }
    ghost var was := buf[..];
    SetFields(buf, at, h);
    MemCpy(buf, at + HEADER_SIZE, h.token);
    SpliceTwice(was, at, FixedBytes(h), h.token);
    r := Built(HEADER_SIZE + |h.token|);
  }

  /** `unicoap_message_payload_copy`. */
  method CopyPayload(buf: array<Byte>, at: nat, capacity: nat, p: Body, ghost links: seq<Chunk>) returns (r: BuildResult)
    requires at + capacity <= buf.Length && BodyOk(p, links)
    modifies buf
    ensures r == if |BodyBytes(p, links)| > capacity then NoRoom else Built(|BodyBytes(p, links)|)
    ensures r.Built? ==> buf[..] == Splice(old(buf[..]), at, BodyBytes(p, links))
    ensures SameOutside(old(buf[..]), buf[..], at, capacity)
  {
    hide Splice;
    ghost var was := buf[..];
    NothingChanged(was, at, capacity);
    match p
    case Contiguous(bytes) =>
      if |bytes| > capacity {
        return NoRoom;
      }
      MemCpy(buf, at, bytes);
      SpliceInside(was, at, bytes, at, capacity);
      r := Built(|bytes|);
    case Chunked(chunks) =>
      var fits, size := ToBuffer(chunks, buf, at, capacity, links);
      r := if fits then Built(size) else NoRoom;
  }

  method WriteMarker(buf: array<Byte>, at: nat, cursor: nat, ghost was: seq<Byte>, ghost done: seq<Byte>)
    requires cursor == at + |done| < buf.Length == |was| && buf[..] == Splice(was, at, done)
    modifies buf
    ensures at + |done + [PAYLOAD_MARKER]| <= |was| && buf[..] == Splice(was, at, done + [PAYLOAD_MARKER])
  {
    hide Splice;
    buf[cursor] := PAYLOAD_MARKER;
    MarkerByte(was, buf[..], at, done);
  }

  lemma MarkerLength(payload: seq<Byte>)
    ensures |PayloadBytes(payload)| == if payload == [] then 0 else 1 + |payload|
  {
  }

  /** Marker and payload behind `done`, which the buffer already holds. */
  method BuildPayload(buf: array<Byte>, at: nat, cursor: nat, room: nat, p: Body,
                      ghost links: seq<Chunk>, ghost was: seq<Byte>, ghost done: seq<Byte>) returns (r: BuildResult)
    requires BodyOk(p, links) && cursor == at + |done| && cursor + room <= buf.Length == |was| && room > 0
    requires buf[..] == Splice(was, at, done) && BodyBytes(p, links) != []
    modifies buf
    ensures r == if 1 + |BodyBytes(p, links)| > room then NoRoom else Built(1 + |BodyBytes(p, links)|)
    ensures r.Built? ==> buf[..] == Splice(was, at, done + PayloadBytes(BodyBytes(p, links)))
    ensures SameOutside(was, buf[..], at, |done| + room)
  {
    hide Splice;
    hide SameOutside;
    hide PayloadBytes;
    MarkerLength(BodyBytes(p, links));
    WriteMarker(buf, at, cursor, was, done);
    ghost var marked := buf[..];
    r := CopyPayload(buf, cursor + 1, room - 1, p, links);
    MarkedInside(was, marked, buf[..], at, |done| + room, done + [PAYLOAD_MARKER], cursor + 1);
    if r.Built? {
      SpliceTwice(was, at, done + [PAYLOAD_MARKER], BodyBytes(p, links));
      MarkerBefore(done, BodyBytes(p, links));
      r := Built(1 + r.size);
    }
  }

  lemma MarkerBefore(done: seq<Byte>, payload: seq<Byte>)
    requires payload != []
    ensures done + [PAYLOAD_MARKER] + payload == done + PayloadBytes(payload)
  {
  }

  lemma MarkerByte(was: seq<Byte>, now: seq<Byte>, at: nat, x: seq<Byte>)
    requires at + |x| < |was| && now == Splice(was, at, x)[at + |x| := PAYLOAD_MARKER]
    ensures now == Splice(was, at, x + [PAYLOAD_MARKER])
  {
  }

  lemma MarkedInside(was: seq<Byte>, mid: seq<Byte>, now: seq<Byte>, at: nat, capacity: nat, x: seq<Byte>, cursor: nat)
    requires at + |x| <= |was| && mid == Splice(was, at, x) && cursor == at + |x| && |x| <= capacity && at + capacity <= |was|
    requires SameOutside(mid, now, cursor, capacity - |x|)
    ensures SameOutside(was, now, at, capacity)
  {
    SpliceInside(was, at, x, at, capacity);
  }

  /** The copying of the packed options. */
  method CopyOptions(buf: array<Byte>, at: nat, capacity: nat, store: OptionStore?) returns (fits: bool)
    requires StoreOk(store) && (store != null ==> store.buf != buf) && at + capacity <= buf.Length
    modifies buf
    ensures StoreOk(store) && MessageOptions(store) == old(MessageOptions(store))
    ensures fits <==> |MessageOptions(store)| <= capacity
    ensures buf[..] == if fits then Splice(old(buf[..]), at, MessageOptions(store)) else old(buf[..])
  {
    hide Represents;
    hide Splice;
    StoreBytes(store);
    if store != null && store.count > 0 {
      if capacity < store.storageSize {
        return false;
      }
      var base := store.entries[0].data;
      assert store.buf[base..base + store.storageSize] == MessageOptions(store);
      MemCpy(buf, at, store.buf[base..base + store.storageSize]);
    } else {
      SpliceNothing(buf[..], at);
    }
    fits := true;
  }

  /** `unicoap_pdu_build_options_and_payload`: nothing checks that the marker fits. */
  method BuildOptionsAndPayload(buf: array<Byte>, at: nat, capacity: nat, store: OptionStore?, p: Body, ghost links: seq<Chunk>)
      returns (r: BuildResult)
    requires StoreOk(store) && (store != null ==> store.buf != buf) && at + capacity <= buf.Length && BodyOk(p, links)
    modifies buf
    ensures StoreOk(store) && MessageOptions(store) == old(MessageOptions(store))
    ensures var options, payload := MessageOptions(store), BodyBytes(p, links);
            && (r == Overrun <==> payload != [] && capacity == |options|)
            && (r.Built? <==> r != Overrun && |options + PayloadBytes(payload)| <= capacity)
            && (r.Built? ==> r.size == |options + PayloadBytes(payload)| && buf[..] == Splice(old(buf[..]), at, options + PayloadBytes(payload)))
    ensures SameOutside(old(buf[..]), buf[..], at, capacity)
  {
    hide Splice;
    hide SameOutside;
    hide PayloadBytes;
    hide BodyBytes;
    hide MessageOptions;
    hide StoreOk;
    ghost var was, options := buf[..], MessageOptions(store);
    MarkerLength(BodyBytes(p, links));
    StoreBytes(store);
    NothingChanged(was, at, capacity);
    var fits := CopyOptions(buf, at, capacity, store);
    if !fits {
      return NoRoom;
    }
    SpliceInside(was, at, options, at, capacity);
    var size := OptionsSize(store);
    var payloadSize := BodySize(p, links);
    if payloadSize == 0 {
      assert options + PayloadBytes(BodyBytes(p, links)) == options;
      return Built(size);
    }
    if capacity == size {
      return Overrun;
    }
    r := BuildPayload(buf, at, at + size, capacity - size, p, links, was, options);
    if r.Built? {
      r := Built(size + r.size);
    }
  }

  /** `unicoap_message_options_size`; a message without an option structure has none. */
  function OptionsSize(store: OptionStore?): nat
    reads store
  {
    if store == null then 0 else store.storageSize
  }

  lemma StoreBytes(store: OptionStore?)
    requires StoreOk(store)
    ensures |MessageOptions(store)| == OptionsSize(store)
    ensures store == null || store.count == 0 ==> MessageOptions(store) == []
    ensures store != null ==> MessageOptions(store) == store.buf[..][store.Base()..store.Base() + store.storageSize]
  {
  }

  lemma MessageParts(h: Header, options: seq<Byte>, payload: seq<Byte>)
    requires HeaderOk(h)
    ensures MessageBytes(h, options, payload) == HeaderBytes(h) + (options + PayloadBytes(payload))
  {
  }

  /** `unicoap_pdu_build_rfc7252`: header, then options and payload behind it. */
  method BuildPdu(buf: array<Byte>, at: nat, capacity: nat, h: Header, store: OptionStore?, p: Body, ghost links: seq<Chunk>)
      returns (r: BuildResult)
    requires HeaderOk(h) && StoreOk(store) && (store != null ==> store.buf != buf) && at + capacity <= buf.Length && BodyOk(p, links)
    modifies buf
    ensures StoreOk(store) && MessageOptions(store) == old(MessageOptions(store))
    ensures var pdu := MessageBytes(h, MessageOptions(store), BodyBytes(p, links));
            && (r == Overrun <==> BodyBytes(p, links) != [] && capacity == |HeaderBytes(h)| + |MessageOptions(store)|)
            && (r.Built? <==> r != Overrun && |pdu| <= capacity)
            && (r.Built? ==> r.size == |pdu| && buf[..] == Splice(old(buf[..]), at, pdu))
    ensures SameOutside(old(buf[..]), buf[..], at, capacity)
  {
    hide BodyBytes;
    hide MessageOptions;
    hide StoreOk;
    hide Splice;
    hide SameOutside;
    hide HeaderBytes;
    hide PayloadBytes;
    hide MessageBytes;
    ghost var was, options, payload := buf[..], MessageOptions(store), BodyBytes(p, links);
    MessageParts(h, options, payload);
    r := BuildHeader(buf, at, capacity, h);
    if r == NoRoom {
      NothingChanged(was, at, capacity);
      return NoRoom;
    }
    var n := r.size;
    ghost var headed := buf[..];
    r := BuildOptionsAndPayload(buf, at + n, capacity - n, store, p, links);
    MarkedInside(was, headed, buf[..], at, capacity, HeaderBytes(h), at + n);
    if r.Built? {
      SpliceTwice(was, at, HeaderBytes(h), options + PayloadBytes(payload));
      r := Built(n + r.size);
    }
  }

  // ---------------------------------------------------------------- as a chain of chunks

  /** Header and options, in the first chunk or the first two. */
  method LinkOptions(header: seq<Byte>, store: OptionStore?, chunks: seq<Chunk>) returns (element: nat)
    requires StoreOk(store) && |chunks| == 4
    requires forall i, j :: 0 <= i < j < 4 ==> chunks[i] != chunks[j]
    modifies chunks[0], chunks[1]
    ensures element <= 1 && Chain(chunks[0], chunks[..element + 1])
    ensures Flat(chunks[..element + 1]) == header + old(MessageOptions(store))
  {
    hide Represents;
    ghost var options := MessageOptions(store);
    StoreBytes(store);
    chunks[0].Init(header, null);
    element := 0;
    FlatOne(chunks[0]);
    if store != null && store.count > 0 {
      chunks[element].next := chunks[element + 1];
      element := element + 1;
      var base := store.entries[0].data;
      assert store.buf[base..base + store.storageSize] == options;
      chunks[element].Init(store.buf[base..base + store.storageSize], null);
      FlatTwo(chunks[0], chunks[1]);
      assert chunks[..element + 1] == [chunks[0], chunks[1]];
    } else {
      assert chunks[..element + 1] == [chunks[0]];
    }
  }

  lemma FlatOne(x: Chunk)
    ensures Flat([x]) == x.data
  {
  }

  lemma FlatTwo(x: Chunk, y: Chunk)
    ensures Flat([x, y]) == x.data + y.data
  {
    FlatConcat([x], [y]);
    assert [x] + [y] == [x, y];
  }

  /** The separator and the payload, linked behind the chunk in use. */
  method LinkPayload(ghost front: seq<Byte>, p: Body, chunks: seq<Chunk>, element: nat, ghost links: seq<Chunk>)
      returns (ghost vector: seq<Chunk>)
    requires BodyOk(p, links) && element + 2 < |chunks|
    requires forall i, j :: 0 <= i < j < |chunks| ==> chunks[i] != chunks[j]
    requires forall i :: 0 <= i < |chunks| ==> chunks[i] !in links
    requires Chain(chunks[0], chunks[..element + 1]) && Flat(chunks[..element + 1]) == front
    modifies chunks[element], chunks[element + 1], chunks[element + 2]
    ensures Chain(chunks[0], vector) && Flat(vector) == front + [PAYLOAD_MARKER] + old(BodyBytes(p, links))
  {
    ghost var used := chunks[..element + 1];
    chunks[element].next := chunks[element + 1];
    chunks[element + 1].Init([PAYLOAD_MARKER], chunks[element + 2]);
    ghost var behind := links;
    match p {
      case Contiguous(bytes) =>
        chunks[element + 2].Init(bytes, null);
        chunks[element + 1].next := chunks[element + 2];
        behind := [chunks[element + 2]];
        FlatOne(chunks[element + 2]);
      case Chunked(head) =>
        chunks[element + 1].next := head;
        SameData(links);
    }
    SameData(used);
    vector := used + ([chunks[element + 1]] + behind);
    ChainConcat(chunks[element + 1], [chunks[element + 1]], chunks[element + 1].next, behind);
    assert forall i :: 0 <= i < element ==> used[i].next == Behind(used, i);
    ChainConcat(chunks[0], used, chunks[element + 1], [chunks[element + 1]] + behind);
    FlatOne(chunks[element + 1]);
    FlatConcat([chunks[element + 1]], behind);
    FlatConcat(used, [chunks[element + 1]] + behind);
    Regroup(front, [PAYLOAD_MARKER], Flat(behind));
  }

  /** `unicoap_pdu_buildv_options_and_payload`: up to four chunks of its own, then the chunks of the payload. */
  method BuildVector(header: seq<Byte>, store: OptionStore?, p: Body, chunks: seq<Chunk>, ghost links: seq<Chunk>)
      returns (ghost vector: seq<Chunk>)
    requires StoreOk(store) && BodyOk(p, links) && |chunks| == 4
    requires forall i, j :: 0 <= i < j < 4 ==> chunks[i] != chunks[j]
    requires forall i :: 0 <= i < 4 ==> chunks[i] !in links
    modifies chunks
    ensures Chain(chunks[0], vector)
    ensures Flat(vector) == header + old(MessageOptions(store)) + PayloadBytes(old(BodyBytes(p, links)))
  {
    ghost var options, payload := MessageOptions(store), BodyBytes(p, links);
    var element := LinkOptions(header, store, chunks);
    SameData(links);
    assert BodyOk(p, links);
    hide Chain;
    hide Flat;
    var payloadSize := BodySize(p, links);
    if payloadSize > 0 {
      vector := LinkPayload(header + options, p, chunks, element, links);
      MarkerBefore(header + options, payload);
    } else {
      vector := chunks[..element + 1];
      assert header + options + PayloadBytes(payload) == header + options;
    }
  }
}
