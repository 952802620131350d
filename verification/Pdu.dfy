/** PDUs of section 3 of RFC 7252: header, token, options, payload; parsing, serialising, and how they undo each other. */
module Pdu {
  import opened Codec
  import opened OptionEdits
  import opened OptionParsing
  import opened OptionStores

  const EBADMSG := -10
  const HEADER_SIZE := 4
  const VERSION_1 := 1

  /** Header fields and token. */
  datatype Header = Header(kind: nat, code: Byte, id: nat, token: seq<Byte>)

  predicate HeaderOk(h: Header) {
    h.kind <= 3 && h.id < 0x1_0000 && |h.token| <= 15
  }

  function HeaderBytes(h: Header): (r: seq<Byte>)
    requires HeaderOk(h)
    ensures |r| == HEADER_SIZE + |h.token|
  {
    [64 * VERSION_1 + 16 * h.kind + |h.token|, h.code, h.id / 256, h.id % 256] + h.token
  }

  datatype ParsedPdu = Rejected(error: int) | Accepted(header: Header, raws: seq<Raw>, tail: Tail)

  /** What `unicoap_pdu_parse_rfc7252` accepts, and what it reads. */
  function ParseMessage(s: seq<Byte>, room: nat, tokenMax: nat): ParsedPdu {
    if |s| < HEADER_SIZE then Rejected(EBADMSG)
    else if s[0] / 64 != VERSION_1 then Rejected(EBADMSG)
    else if s[1] == 0 && |s| > HEADER_SIZE then Rejected(EBADMSG)
    else
      var tokenLength := s[0] % 16;
      if tokenLength > tokenMax then Rejected(EBADMSG)
      else if HEADER_SIZE + tokenLength > |s| then Rejected(EBADMSG)
      else
        var header := Header(s[0] / 16 % 4, s[1], 256 * (s[2] as int) + s[3] as int, s[HEADER_SIZE..HEADER_SIZE + tokenLength]);
        match Parse(s[HEADER_SIZE + tokenLength..], room)
        case BadBytes => Rejected(EBADOPT)
        case TooMany => Rejected(ENOBUFS)
        case Parsed(raws, tail) => Accepted(header, raws, tail)
  }

  /** Marker and payload, or nothing for an empty payload. */
  function PayloadBytes(payload: seq<Byte>): seq<Byte> {
    if payload == [] then [] else [PAYLOAD_MARKER] + payload
  }

  function PayloadOf(tail: Tail): seq<Byte> {
    match tail
    case NoMarker => []
    case Payload(bytes) => bytes
  }

  /** The PDU of a message whose options are packed in `options`. */
  function MessageBytes(h: Header, options: seq<Byte>, payload: seq<Byte>): seq<Byte>
    requires HeaderOk(h)
  {
    HeaderBytes(h) + options + PayloadBytes(payload)
  }

  /** A built PDU never begins with a zero byte, whatever the message. */
  lemma FirstByte(h: Header, options: seq<Byte>, payload: seq<Byte>)
    requires HeaderOk(h)
    ensures 64 <= MessageBytes(h, options, payload)[0] < 128
  {
    assert MessageBytes(h, options, payload)[0] == HeaderBytes(h)[0];
  }

  /** The header fields are read back from their bits. */
  lemma HeaderBits(h: Header, rest: seq<Byte>)
    requires HeaderOk(h)
    ensures var s := HeaderBytes(h) + rest;
            && s[0] / 64 == VERSION_1 && s[0] % 16 == |h.token| && s[0] / 16 % 4 == h.kind && s[1] == h.code
            && 256 * (s[2] as int) + s[3] as int == h.id
            && s[HEADER_SIZE..HEADER_SIZE + |h.token|] == h.token && s[HEADER_SIZE + |h.token|..] == rest
  {
    var s := HeaderBytes(h) + rest;
    var b: Byte := 64 * VERSION_1 + 16 * h.kind + |h.token|;
    assert s[0] == b && b / 64 == 1 && b % 16 == |h.token| && b / 16 == 4 + h.kind;
    assert 256 * (h.id / 256) + h.id % 256 == h.id;
  }

  lemma BitsHeader(s: seq<Byte>, tokenLength: nat)
    requires |s| >= HEADER_SIZE + tokenLength && s[0] / 64 == VERSION_1 && tokenLength == s[0] % 16
    ensures var h := Header(s[0] / 16 % 4, s[1], 256 * (s[2] as int) + s[3] as int, s[HEADER_SIZE..HEADER_SIZE + tokenLength]);
            HeaderOk(h) && HeaderBytes(h) == s[..HEADER_SIZE + tokenLength]
  {
    var id := 256 * (s[2] as int) + s[3] as int;
    assert id / 256 == s[2] && id % 256 == s[3];
    assert s[0] == 64 * (s[0] / 64) + 16 * (s[0] / 16 % 4) + s[0] % 16;
    var h := Header(s[0] / 16 % 4, s[1], id, s[HEADER_SIZE..HEADER_SIZE + tokenLength]);
    assert HeaderBytes(h) == [s[0], s[1], s[2], s[3]] + h.token;
  }

  /** A message that section 3 of RFC 7252 allows, with a token short enough for the receiver. */
  ghost predicate MessageOk(h: Header, opts: seq<Option>, payload: seq<Byte>, room: nat, tokenMax: nat) {
    && HeaderOk(h) && |h.token| <= tokenMax && Sorted(0, opts) && |opts| <= room
    && (h.code == 0 ==> h.token == [] && opts == [] && payload == [])
  }

  /** Serialising and parsing back gives the same header, token, options and payload. */
  lemma SerialiseThenParse(h: Header, opts: seq<Option>, payload: seq<Byte>, room: nat, tokenMax: nat)
    requires MessageOk(h, opts, payload, room, tokenMax)
    ensures var p := ParseMessage(MessageBytes(h, Encode(0, opts), payload), room, tokenMax);
            && p.Accepted? && p.header == h && PayloadOf(p.tail) == payload && p.tail != Payload([])
            && NoOverflow(0, p.raws) && Decode(0, p.raws) == opts
  {
    hide Encode;
    hide EncodeRaws;
    hide Parse;
    hide HeaderBytes;
    hide Decode;
    hide NoOverflow;
    hide Sorted;
    var raws := Deltas(0, opts);
    DeltasEncode(0, 0, opts);
    DeltasDecode(0, opts);
    var tail := if payload == [] then NoMarker else Payload(payload);
    assert PayloadBytes(payload) == TailBytes(tail);
    ParseEncoded(raws, tail, room);
    var rest := Encode(0, opts) + PayloadBytes(payload);
    assert MessageBytes(h, Encode(0, opts), payload) == HeaderBytes(h) + rest;
    HeaderBits(h, rest);
    if h.code == 0 { EmptyEncode(); }
  }

  lemma EmptyEncode()
    ensures Sorted(0, []) && Encode(0, []) == []
  {
  }

  /** An accepted PDU is its header, its options and its tail, one behind the other. */
  lemma AcceptedParts(s: seq<Byte>, room: nat, tokenMax: nat)
    requires ParseMessage(s, room, tokenMax).Accepted?
    ensures var p := ParseMessage(s, room, tokenMax);
            && HeaderOk(p.header) && RawsOk(p.raws) && |p.header.token| <= tokenMax && |p.raws| <= room
            && (p.header.code == 0 ==> |s| == HEADER_SIZE)
            && s == HeaderBytes(p.header) + (EncodeRaws(p.raws) + TailBytes(p.tail))
  {
    hide EncodeRaws;
    hide TailBytes;
    hide Parse;
    var n := HEADER_SIZE + s[0] % 16;
    BitsHeader(s, s[0] % 16);
    ParseUnique(s[n..], room);
    assert s == s[..n] + s[n..];
  }

  /** The bytes that a header, options and a tail stand for. */
  ghost predicate StandsFor(s: seq<Byte>, h: Header, raws: seq<Raw>, tail: Tail) {
    && HeaderOk(h) && RawsOk(raws) && (h.code == 0 ==> h.token == [] && raws == [] && tail == NoMarker)
    && s == HeaderBytes(h) + (EncodeRaws(raws) + TailBytes(tail))
  }

  /** Exactly what is accepted: any bytes that stand for a message for which there is room, and read as that message. */
  lemma AcceptedIff(s: seq<Byte>, room: nat, tokenMax: nat, h: Header, raws: seq<Raw>, tail: Tail)
    ensures ParseMessage(s, room, tokenMax) == Accepted(h, raws, tail)
            <==> StandsFor(s, h, raws, tail) && |raws| <= room && |h.token| <= tokenMax
  {
    hide EncodeRaws;
    hide TailBytes;
    hide Parse;
    hide HeaderBytes;
    if ParseMessage(s, room, tokenMax) == Accepted(h, raws, tail) {
      AcceptedParts(s, room, tokenMax);
      if h.code == 0 { EmptyParts(raws, tail); }
    }
    if StandsFor(s, h, raws, tail) && |raws| <= room {
      ParseEncoded(raws, tail, room);
      HeaderBits(h, EncodeRaws(raws) + TailBytes(tail));
      if h.code == 0 { NoParts(); }
    }
  }

  lemma EmptyParts(raws: seq<Raw>, tail: Tail)
    requires RawsOk(raws)
    ensures EncodeRaws(raws) + TailBytes(tail) == [] ==> raws == [] && tail == NoMarker
  {
    hide EncodeOption;
  }

  lemma NoParts()
    ensures RawsOk([]) && EncodeRaws([]) + TailBytes(NoMarker) == []
  {
  }

  /** The bytes begin with a header that the receiver takes, and end with it if the code is 0.00. */
  ghost predicate HeadedBy(s: seq<Byte>, tokenMax: nat, h: Header, rest: seq<Byte>) {
    HeaderOk(h) && |h.token| <= tokenMax && (h.code == 0 ==> h.token == [] && rest == []) && s == HeaderBytes(h) + rest
  }

  /** Which error anything else is rejected with: one for the header, one for too many options, one for what is no option. */
  lemma RejectedIff(s: seq<Byte>, room: nat, tokenMax: nat)
    ensures ParseMessage(s, room, tokenMax) == Rejected(EBADMSG) <==> !exists h, rest :: HeadedBy(s, tokenMax, h, rest)
    ensures ParseMessage(s, room, tokenMax) == Rejected(ENOBUFS)
            <==> exists h, rest :: HeadedBy(s, tokenMax, h, rest) && BeginsWith(rest, room + 1)
    ensures var p := ParseMessage(s, room, tokenMax); p.Accepted? || p.error in {EBADMSG, ENOBUFS, EBADOPT}
  {
    hide Parse;
    hide BeginsWith;
    hide HeaderBytes;
    var p := ParseMessage(s, room, tokenMax);
    forall h, rest | HeadedBy(s, tokenMax, h, rest)
      ensures p == match Parse(rest, room)
                   case BadBytes => Rejected(EBADOPT)
                   case TooMany => Rejected(ENOBUFS)
                   case Parsed(raws, tail) => Accepted(h, raws, tail)
      ensures Parse(rest, room) == TooMany <==> BeginsWith(rest, room + 1)
    {
      HeaderBits(h, rest);
      TooManyIff(rest, room);
    }
    if p != Rejected(EBADMSG) {
      var n := HEADER_SIZE + s[0] % 16;
      BitsHeader(s, s[0] % 16);
      var h := Header(s[0] / 16 % 4, s[1], 256 * (s[2] as int) + s[3] as int, s[HEADER_SIZE..n]);
      assert s == s[..n] + s[n..];
      assert HeadedBy(s, tokenMax, h, s[n..]);
    }
  }

  /** Parsing and serialising back restores the PDU exactly unless it ends in a marker without payload. */
  lemma ParseThenSerialise(s: seq<Byte>, room: nat, tokenMax: nat)
    requires ParseMessage(s, room, tokenMax).Accepted?
    ensures var p := ParseMessage(s, room, tokenMax);
            && HeaderOk(p.header) && RawsOk(p.raws) && |p.header.token| <= tokenMax && |p.raws| <= room
            && ((MessageBytes(p.header, EncodeRaws(p.raws), PayloadOf(p.tail)) == s) <==> p.tail != Payload([]))
            && (p.tail == Payload([]) ==> MessageBytes(p.header, EncodeRaws(p.raws), PayloadOf(p.tail)) + [PAYLOAD_MARKER] == s)
  {
    hide EncodeRaws;
    hide HeaderBytes;
    hide ParseMessage;
    AcceptedParts(s, room, tokenMax);
    var p := ParseMessage(s, room, tokenMax);
    var h, o := HeaderBytes(p.header), EncodeRaws(p.raws);
    assert h + o + PayloadBytes(PayloadOf(p.tail)) == h + (o + PayloadBytes(PayloadOf(p.tail)));
    if p.tail == Payload([]) {
      var built := MessageBytes(p.header, o, []);
      assert built == h + o && s == h + (o + [PAYLOAD_MARKER]) == built + [PAYLOAD_MARKER];
      assert |built| + 1 == |s|;
    } else {
      assert PayloadBytes(PayloadOf(p.tail)) == TailBytes(p.tail);
    }
  }

  /** Version 1, confirmable, GET, message ID 1, then a bare marker: accepted, and rebuilt one byte shorter. */
  lemma BareMarkerExample()
    ensures var s: seq<Byte> := [64, 1, 0, 1, 255];
            var p := ParseMessage(s, 16, 8);
            p == Accepted(Header(0, 1, 1, []), [], Payload([])) && MessageBytes(p.header, [], []) == [64, 1, 0, 1]
  {
    var s: seq<Byte> := [64, 1, 0, 1, 255];
    assert s[4..] == [255] && s[4..4] == [];
    TakeMarker(s[4..], 16);
    assert s[4..][1..] == [];
  }

  // ---------------------------------------------------------------- parsing in place

  /** `unicoap_pdu_parse_rfc7252` on a PDU held in a buffer, into an option store. */
  method ParseRfc7252(pdu: array<Byte>, size: nat, store: OptionStore, tokenMax: nat)
      returns (code: int, header: Header, payloadAt: nat, payloadSize: nat)
    requires size <= pdu.Length && store.entries.Length > 0
    modifies store, store.entries
    ensures match ParseMessage(pdu[..size], store.entries.Length, tokenMax)
            case Rejected(error) => code == error
            case Accepted(h, raws, tail) =>
              && code == 0 && header == h && payloadAt + payloadSize <= pdu.Length
              && pdu[payloadAt..payloadAt + payloadSize] == PayloadOf(tail)
              && RawsOk(raws) && store.opts == Decode(0, raws) && store.buf == pdu && store.storageSize == |EncodeRaws(raws)|
              && (store.Valid() <==> NoOverflow(0, raws))
  {
    hide Parse;
    hide EncodeRaws;
    hide NoOverflow;
    hide Decode;
    hide RawIndex;
    hide RawsOk;
    hide Represents;
    header, payloadAt, payloadSize := Header(0, 0, 0, []), 0, 0;
    ghost var s := pdu[..size];
    if size < HEADER_SIZE {
      return EBADMSG, header, 0, 0;
    }
    if pdu[0] / 64 != VERSION_1 {
      return EBADMSG, header, 0, 0;
    }
    if pdu[1] == 0 && size > HEADER_SIZE {
      return EBADMSG, header, 0, 0;
    }
    var tokenLength := pdu[0] % 16;
    if tokenLength > tokenMax {
      return EBADMSG, header, 0, 0;
    }
    var cursor := HEADER_SIZE + tokenLength;
    if cursor > size {
      return EBADMSG, header, 0, 0;
    }
    header := Header(pdu[0] / 16 % 4, pdu[1], 256 * (pdu[2] as int) + pdu[3] as int, pdu[HEADER_SIZE..cursor]);
    assert s[HEADER_SIZE..cursor] == pdu[HEADER_SIZE..cursor] && s[cursor..] == pdu[cursor..size];
    code, payloadAt, payloadSize := store.ParsePdu(pdu, cursor, size);
  }
}
