/** Parsing a byte string into options and payload, as one function and its exact inverse. */
module OptionParsing {
  import opened Codec
  import opened OptionEdits

  /** What stands behind the options: nothing, or a marker and the bytes after it. */
  datatype Tail = NoMarker | Payload(bytes: seq<Byte>)

  datatype ParseResult = BadBytes | TooMany | Parsed(raws: seq<Raw>, tail: Tail)

  /** `unicoap_pdu_parse_options_and_payload` on the bytes still to be read, with room for `room` more options. */
  function Parse(s: seq<Byte>, room: nat): ParseResult
    decreases |s|
  {
    if s == [] then Parsed([], NoMarker)
    else match ReadOption(s)
      case BadOption => BadBytes
      case Marker => Parsed([], Payload(s[1..]))
      case Got(delta, value, used) =>
        if room == 0 then TooMany else
        ReadUnique(s);
        match Parse(s[used..], room - 1)
        case Parsed(raws, tail) => Parsed([Raw(delta, value)] + raws, tail)
        case failure => failure
  }

  ghost predicate RawsOk(raws: seq<Raw>) {
    forall k :: 0 <= k < |raws| ==> RawOk(raws[k])
  }

  /** The bytes of a list of options that are given by their deltas. */
  ghost function EncodeRaws(raws: seq<Raw>): seq<Byte>
    requires RawsOk(raws)
  {
    if raws == [] then [] else EncodeOption(raws[0].delta, raws[0].value) + EncodeRaws(raws[1..])
  }

  ghost function TailBytes(tail: Tail): seq<Byte> {
    match tail
    case NoMarker => []
    case Payload(bytes) => [PAYLOAD_MARKER] + bytes
  }

  lemma RawsUnfold(r: Raw, rest: seq<Raw>)
    ensures RawsOk([r] + rest) <==> RawOk(r) && RawsOk(rest)
    ensures RawsOk([r] + rest) ==> EncodeRaws([r] + rest) == EncodeOption(r.delta, r.value) + EncodeRaws(rest)
  {
    assert ([r] + rest)[1..] == rest;
    assert forall k :: 0 <= k < |rest| ==> ([r] + rest)[k + 1] == rest[k];
    assert ([r] + rest)[0] == r;
  }

  /** One option in front, room permitting. */
  function Prepend(r: Raw, p: ParseResult): ParseResult {
    if p.Parsed? then Parsed([r] + p.raws, p.tail) else p
  }

  /** Parsing takes one whole option off the front. */
  lemma ParseStep(r: Raw, t: seq<Byte>, room: nat)
    requires RawOk(r)
    ensures Parse(EncodeOption(r.delta, r.value) + t, room) == if room == 0 then TooMany else Prepend(r, Parse(t, room - 1))
  {
    var s := EncodeOption(r.delta, r.value) + t;
    hide EncodeOption;
    hide ReadOption;
    ReadEncoded(r.delta, r.value, t);
    hide OptionSize;
    assert s[OptionSize(r.delta, |r.value|)..] == t;
  }

  /** The option in front of an accepted string, and what is parsed next. */
  lemma TakeOption(s: seq<Byte>, room: nat)
    requires s != [] && ReadOption(s).Got?
    ensures var o := ReadOption(s);
            && RawOk(Raw(o.delta, o.value)) && 0 < o.used <= |s| && s[..o.used] == EncodeOption(o.delta, o.value)
            && Parse(s, room) == if room == 0 then TooMany else Prepend(Raw(o.delta, o.value), Parse(s[o.used..], room - 1))
  {
    hide ReadOption;
    ReadUnique(s);
  }

  lemma TakeMarker(s: seq<Byte>, room: nat)
    requires s != [] && ReadOption(s).Marker?
    ensures Parse(s, room) == Parsed([], Payload(s[1..]))
  {
  }

  lemma TakeBad(s: seq<Byte>, room: nat)
    requires s != [] && ReadOption(s).BadOption?
    ensures Parse(s, room) == BadBytes
  {
  }

  /** Before anything is read. */
  lemma ParseStart()
    ensures RawsOk([]) && EncodeRaws([]) == [] && LastNumber(0, []) == 0
    ensures forall start: nat :: RawIndex(0, start, []) == []
    ensures forall room: nat :: Parse([], room) == Parsed([], NoMarker)
  {
  }

  lemma Wrap(number: nat, delta: nat)
    ensures NextNumber(number, delta) == (number + delta % 0x1_0000) % 0x1_0000
  {
  }

  lemma ParseTail(tail: Tail, room: nat)
    ensures Parse(TailBytes(tail), room) == Parsed([], tail)
  {
    var t := TailBytes(tail);
    if tail.Payload? {
      assert t[0] == PAYLOAD_MARKER && t[1..] == tail.bytes;
    }
  }

  /** Serialising and parsing back is the identity ... */
  lemma {:induction false} ParseEncoded(raws: seq<Raw>, tail: Tail, room: nat)
    requires RawsOk(raws) && |raws| <= room
    ensures Parse(EncodeRaws(raws) + TailBytes(tail), room) == Parsed(raws, tail)
    decreases |raws|
  {
    var t := TailBytes(tail);
    if raws == [] {
      assert EncodeRaws(raws) + t == t;
      ParseTail(tail, room);
    } else {
      ParseEncodedMore(raws[0], raws[1..], tail, room);
    }
  }

  lemma {:induction false} ParseEncodedMore(r: Raw, rest: seq<Raw>, tail: Tail, room: nat)
    requires RawsOk([r] + rest) && |rest| < room
    ensures RawsOk([r] + rest) && Parse(EncodeRaws([r] + rest) + TailBytes(tail), room) == Parsed([r] + rest, tail)
    decreases |rest| + 1, 0
  {
    hide EncodeRaws;
    hide EncodeOption;
    hide Parse;
    hide TailBytes;
    RawsUnfold(r, rest);
    hide RawsOk;
    ParseEncoded(rest, tail, room - 1);
    ParseStep(r, EncodeRaws(rest) + TailBytes(tail), room);
    assert EncodeRaws([r] + rest) + TailBytes(tail) == EncodeOption(r.delta, r.value) + (EncodeRaws(rest) + TailBytes(tail));
  }

  /** An accepted nonempty string begins with the marker or with one whole option. */
  lemma FirstOption(s: seq<Byte>, room: nat) returns (r: Raw, t: seq<Byte>)
    requires s != [] && Parse(s, room).Parsed?
    ensures if s[0] == PAYLOAD_MARKER then Parse(s, room) == Parsed([], Payload(s[1..]))
            else room > 0 && RawOk(r) && |t| < |s| && s == EncodeOption(r.delta, r.value) + t && Parse(s, room) == Prepend(r, Parse(t, room - 1))
  {
    MarkerFirst(s);
    hide ReadOption;
    r, t := Raw(0, []), [];
    if ReadOption(s).Got? {
      ReadUnique(s);
      var o := ReadOption(s);
      r, t := Raw(o.delta, o.value), s[o.used..];
      hide EncodeOption;
      assert s == s[..o.used] + t;
    }
  }

  /** ... and parsing and serialising back restores every byte: each accepted string has one reading. */
  lemma {:induction false} ParseUnique(s: seq<Byte>, room: nat)
    requires Parse(s, room).Parsed?
    ensures var p := Parse(s, room);
            RawsOk(p.raws) && |p.raws| <= room && s == EncodeRaws(p.raws) + TailBytes(p.tail)
    decreases |s|
  {
    hide Parse;
    hide RawsOk;
    hide EncodeRaws;
    hide EncodeOption;
    hide TailBytes;
    RawsNone();
    if s == [] {
      ParseTail(NoMarker, room);
      TailForms([]);
    } else {
      var r, t := FirstOption(s, room);
      if s[0] == PAYLOAD_MARKER {
        TailForms(s[1..]);
        assert s == [s[0]] + s[1..];
      } else {
        var p := Parse(t, room - 1);
        ParseUnique(t, room - 1);
        RawsUnfold(r, p.raws);
        assert EncodeOption(r.delta, r.value) + (EncodeRaws(p.raws) + TailBytes(p.tail))
            == EncodeOption(r.delta, r.value) + EncodeRaws(p.raws) + TailBytes(p.tail);
      }
    }
  }

  lemma RawsNone()
    ensures RawsOk([]) && EncodeRaws([]) == []
  {
  }

  lemma TailForms(bytes: seq<Byte>)
    ensures TailBytes(NoMarker) == [] && TailBytes(Payload(bytes)) == [PAYLOAD_MARKER] + bytes
  {
  }

  lemma MarkerFirst(s: seq<Byte>)
    requires s != []
    ensures ReadOption(s).Marker? <==> s[0] == PAYLOAD_MARKER
  {
  }

  /** The bytes begin with `n` options, whatever follows. */
  ghost predicate BeginsWith(s: seq<Byte>, n: nat) {
    exists raws, t :: Begins(s, raws, t) && |raws| == n
  }

  ghost predicate Begins(s: seq<Byte>, raws: seq<Raw>, t: seq<Byte>) {
    RawsOk(raws) && s == EncodeRaws(raws) + t
  }

  /** One option and `n` more. */
  lemma BeginsWithMore(r: Raw, t: seq<Byte>, n: nat)
    requires RawOk(r)
    ensures BeginsWith(EncodeOption(r.delta, r.value) + t, n + 1) <==> BeginsWith(t, n)
  {
    hide EncodeOption;
    hide RawsOk;
    hide EncodeRaws;
    hide ReadOption;
    var s := EncodeOption(r.delta, r.value) + t;
    if BeginsWith(t, n) {
      var raws, rest :| Begins(t, raws, rest) && |raws| == n;
      RawsUnfold(r, raws);
      assert s == EncodeOption(r.delta, r.value) + EncodeRaws(raws) + rest;
      assert Begins(s, [r] + raws, rest);
    }
    if BeginsWith(s, n + 1) {
      var raws: seq<Raw>, rest: seq<Byte> :| Begins(s, raws, rest) && |raws| == n + 1;
      var x, more := raws[0], raws[1..];
      assert raws == [x] + more;
      RawsUnfold(x, more);
      assert s == EncodeOption(x.delta, x.value) + (EncodeRaws(more) + rest);
      ReadEncoded(r.delta, r.value, t);
      ReadEncoded(x.delta, x.value, EncodeRaws(more) + rest);
      assert x == r && t == EncodeRaws(more) + rest by { SameTail(EncodeOption(r.delta, r.value), t, EncodeRaws(more) + rest); }
      assert Begins(t, more, rest);
    }
  }

  lemma SameTail(a: seq<Byte>, b: seq<Byte>, c: seq<Byte>)
    requires a + b == a + c
    ensures b == c
  {
    assert (a + b)[|a|..] == b && (a + c)[|a|..] == c;
  }

  /** Room is reported missing exactly if the bytes begin with more options than there is room for, whatever follows them. */
  lemma {:induction false} TooManyIff(s: seq<Byte>, room: nat)
    ensures Parse(s, room) == TooMany <==> BeginsWith(s, room + 1)
    decreases |s|
  {
    hide Parse;
    hide BeginsWith;
    hide ReadOption;
    hide EncodeOption;
    if s == [] || !ReadOption(s).Got? {
      NoneBegin(s, room);
    } else {
      TakeOption(s, room);
      var o := ReadOption(s);
      var r, t := Raw(o.delta, o.value), s[o.used..];
      assert s == EncodeOption(r.delta, r.value) + t;
      BeginsWithMore(r, t, room);
      if room == 0 {
        AlwaysBegins(t);
      } else {
        TooManyIff(t, room - 1);
      }
    }
  }

  lemma AlwaysBegins(t: seq<Byte>)
    ensures BeginsWith(t, 0)
  {
    assert Begins(t, [], t);
  }

  lemma NoneBegin(s: seq<Byte>, room: nat)
    requires s == [] || !ReadOption(s).Got?
    ensures Parse(s, room) != TooMany && !BeginsWith(s, room + 1)
  {
    hide EncodeOption;
    hide ReadOption;
    if BeginsWith(s, room + 1) {
      var raws: seq<Raw>, t: seq<Byte> :| Begins(s, raws, t) && |raws| == room + 1;
      RawsUnfold(raws[0], raws[1..]);
      assert raws == [raws[0]] + raws[1..];
      assert s == EncodeOption(raws[0].delta, raws[0].value) + (EncodeRaws(raws[1..]) + t);
      ReadEncoded(raws[0].delta, raws[0].value, EncodeRaws(raws[1..]) + t);
      assert false;
    }
  }

  // ---------------------------------------------------------------- option numbers

  /** The running option number: the delta is cut to 16 bits and the sum wraps at 16 bits. */
  function NextNumber(number: nat, delta: nat): nat {
    (number + delta % 0x1_0000) % 0x1_0000
  }

  function Decode(number: nat, raws: seq<Raw>): (r: seq<Option>)
    ensures |r| == |raws|
    decreases raws
  {
    if raws == [] then []
    else
      var n := NextNumber(number, raws[0].delta);
      [Option(n, raws[0].value)] + Decode(n, raws[1..])
  }

  ghost function RawIndex(number: nat, at: nat, raws: seq<Raw>): (r: seq<Entry>)
    requires RawsOk(raws)
    ensures |r| == |raws|
    decreases raws
  {
    if raws == [] then []
    else
      var n, size := NextNumber(number, raws[0].delta), OptionSize(raws[0].delta, |raws[0].value|);
      [Entry(n, at, size)] + RawIndex(n, at + size, raws[1..])
  }

  function LastNumber(number: nat, raws: seq<Raw>): nat
    decreases raws
  {
    if raws == [] then number else LastNumber(NextNumber(number, raws[0].delta), raws[1..])
  }

  /** No running number leaves 16 bits. */
  predicate NoOverflow(number: nat, raws: seq<Raw>)
    decreases raws
  {
    raws != [] ==> number + raws[0].delta <= NUMBER_MAX && NoOverflow(number + raws[0].delta, raws[1..])
  }

  /** The deltas of a sorted list. */
  ghost function Deltas(prev: nat, opts: seq<Option>): (r: seq<Raw>)
    requires Sorted(prev, opts)
    ensures |r| == |opts|
    decreases opts
  {
    if opts == [] then [] else [Raw(opts[0].number - prev, opts[0].value)] + Deltas(opts[0].number, opts[1..])
  }

  lemma DeltasUnfold(prev: nat, o: Option, rest: seq<Option>)
    requires Sorted(prev, [o] + rest)
    ensures prev <= o.number && OptionOk(o) && Sorted(o.number, rest)
    ensures Deltas(prev, [o] + rest) == [Raw(o.number - prev, o.value)] + Deltas(o.number, rest)
  {
    hide Encode;
    hide Index;
    Unfold(prev, 0, o, rest);
    assert ([o] + rest)[1..] == rest;
  }

  lemma RawIndexUnfold(number: nat, at: nat, r: Raw, rest: seq<Raw>)
    requires RawsOk([r] + rest)
    ensures RawOk(r) && RawsOk(rest)
    ensures var n, size := NextNumber(number, r.delta), OptionSize(r.delta, |r.value|);
            RawIndex(number, at, [r] + rest) == [Entry(n, at, size)] + RawIndex(n, at + size, rest)
  {
    hide EncodeRaws;
    hide EncodeOption;
    hide OptionSize;
    hide NextNumber;
    RawsUnfold(r, rest);
    assert ([r] + rest)[1..] == rest;
  }

  lemma NoDeltas(prev: nat, at: nat)
    ensures Sorted(prev, []) && Encode(prev, []) == [] && Index(prev, at, []) == []
    ensures Deltas(prev, []) == [] && RawsOk([]) && EncodeRaws([]) == [] && RawIndex(prev, at, []) == []
  {
  }

  /** A sorted list and its deltas have the same bytes and the same index. */
  lemma {:induction false} DeltasEncode(prev: nat, at: nat, opts: seq<Option>)
    requires Sorted(prev, opts)
    ensures RawsOk(Deltas(prev, opts)) && EncodeRaws(Deltas(prev, opts)) == Encode(prev, opts)
    ensures RawIndex(prev, at, Deltas(prev, opts)) == Index(prev, at, opts)
    decreases opts
  {
    hide EncodeOption;
    hide OptionSize;
    hide Sorted;
    hide Encode;
    hide Index;
    hide Deltas;
    hide RawsOk;
    hide EncodeRaws;
    hide RawIndex;
    if opts == [] {
      NoDeltas(prev, at);
    } else {
      var o, rest := opts[0], opts[1..];
      assert opts == [o] + rest;
      DeltasUnfold(prev, o, rest);
      Unfold(prev, at, o, rest);
      var r, size := Raw(o.number - prev, o.value), OptionSize(o.number - prev, |o.value|);
      DeltasEncode(o.number, at + size, rest);
      RawsUnfold(r, Deltas(o.number, rest));
      RawIndexUnfold(prev, at, r, Deltas(o.number, rest));
    }
  }

  /** The deltas of a sorted list never overflow, and they decode to the list. */
  lemma {:induction false} DeltasDecode(prev: nat, opts: seq<Option>)
    requires Sorted(prev, opts)
    ensures NoOverflow(prev, Deltas(prev, opts)) && Decode(prev, Deltas(prev, opts)) == opts
    decreases opts
  {
    if opts != [] {
      var o, rest := opts[0], opts[1..];
      DeltasDecode(o.number, rest);
      assert NextNumber(prev, o.number - prev) == o.number;
      assert Deltas(prev, opts)[1..] == Deltas(o.number, rest);
      assert opts == [o] + rest;
    }
  }

  /** Without overflow the decoded list is sorted and has the bytes and the index that were read. */
  lemma {:induction false} DecodeSorted(number: nat, at: nat, raws: seq<Raw>)
    requires RawsOk(raws) && NoOverflow(number, raws)
    ensures Sorted(number, Decode(number, raws)) && Deltas(number, Decode(number, raws)) == raws
    ensures Encode(number, Decode(number, raws)) == EncodeRaws(raws)
    ensures Index(number, at, Decode(number, raws)) == RawIndex(number, at, raws)
    decreases raws
  {
    if raws != [] {
      var r, rest := raws[0], raws[1..];
      var n := number + r.delta;
      assert NextNumber(number, r.delta) == n;
      hide EncodeOption;
      hide OptionSize;
      hide NextNumber;
      var size := OptionSize(r.delta, |r.value|);
      DecodeSorted(n, at + size, rest);
      assert Decode(number, raws) == [Option(n, r.value)] + Decode(n, rest);
      assert RawIndex(number, at, raws) == [Entry(n, at, size)] + RawIndex(n, at + size, rest);
      Unfold(number, at, Option(n, r.value), Decode(n, rest));
      assert Decode(number, raws)[1..] == Decode(n, rest);
    }
  }

  /** What was read is a sorted list in packed form exactly when no running number overflowed. */
  lemma ParsedListIff(at: nat, raws: seq<Raw>)
    requires RawsOk(raws)
    ensures (exists opts :: Represents(EncodeRaws(raws), RawIndex(0, at, raws), at, opts)) <==> NoOverflow(0, raws)
    ensures NoOverflow(0, raws) ==> Represents(EncodeRaws(raws), RawIndex(0, at, raws), at, Decode(0, raws))
  {
    if NoOverflow(0, raws) {
      DecodeSorted(0, at, raws);
      assert Represents(EncodeRaws(raws), RawIndex(0, at, raws), at, Decode(0, raws));
    }
    hide RawIndex;
    hide EncodeRaws;
    hide NoOverflow;
    hide Decode;
    forall opts | Represents(EncodeRaws(raws), RawIndex(0, at, raws), at, opts)
      ensures NoOverflow(0, raws)
    {
      DeltasEncode(0, at, opts);
      DeltasDecode(0, opts);
      var room := |raws| + |opts|;
      ParseEncoded(raws, NoMarker, room);
      ParseEncoded(Deltas(0, opts), NoMarker, room);
      assert Deltas(0, opts) == raws;
    }
  }

  /** 0xffff followed by a delta of 1: the second number wraps to 0. */
  lemma OverflowExample()
    ensures var raws := [Raw(0xffff, []), Raw(1, [])];
            RawsOk(raws) && !NoOverflow(0, raws) && Decode(0, raws) == [Option(0xffff, []), Option(0, [])]
  {
    hide Decode;
    hide NoOverflow;
    hide EncodeRaws;
    var first, second := Raw(0xffff, []), Raw(1, []);
    var raws := [first, second];
    assert raws == [first] + [second] && [second] == [second] + [];
    DecodeStep(0, first, [second]);
    DecodeStep(0xffff, second, []);
    DecodeNone(0);
    OverflowStep(0, first, [second]);
    OverflowStep(0xffff, second, []);
  }

  lemma OverflowStep(number: nat, r: Raw, rest: seq<Raw>)
    ensures NoOverflow(number, [r] + rest) <==> number + r.delta <= NUMBER_MAX && NoOverflow(number + r.delta, rest)
  {
    assert ([r] + rest)[1..] == rest;
  }

  lemma DecodeNone(number: nat)
    ensures Decode(number, []) == []
  {
  }

  lemma DecodeStep(number: nat, r: Raw, rest: seq<Raw>)
    ensures Decode(number, [r] + rest)
         == [Option(NextNumber(number, r.delta), r.value)] + Decode(NextNumber(number, r.delta), rest)
  {
    assert ([r] + rest)[1..] == rest;
  }

  // ---------------------------------------------------------------- one option more

  lemma RawsAppend(raws: seq<Raw>, r: Raw)
    requires RawsOk(raws) && RawOk(r)
    ensures RawsOk(raws + [r]) && EncodeRaws(raws + [r]) == EncodeRaws(raws) + EncodeOption(r.delta, r.value)
    decreases |raws|
  {
    hide RawsOk;
    hide EncodeRaws;
    hide EncodeOption;
    RawsNone();
    RawsUnfold(r, []);
    assert [r] + [] == [r];
    if raws == [] {
      assert raws + [r] == [r];
    } else {
      assert raws == [raws[0]] + raws[1..] && raws + [r] == [raws[0]] + (raws[1..] + [r]);
      RawsUnfold(raws[0], raws[1..]);
      RawsAppend(raws[1..], r);
      RawsUnfold(raws[0], raws[1..] + [r]);
    }
  }

  lemma LastNumberAppend(number: nat, raws: seq<Raw>, r: Raw)
    ensures LastNumber(number, raws + [r]) == NextNumber(LastNumber(number, raws), r.delta)
    decreases |raws|
  {
    hide NextNumber;
    if raws == [] {
      assert raws + [r] == [r];
    } else {
      assert (raws + [r])[1..] == raws[1..] + [r];
      LastNumberAppend(NextNumber(number, raws[0].delta), raws[1..], r);
    }
  }

  lemma RawIndexAppend(number: nat, at: nat, raws: seq<Raw>, r: Raw)
    requires RawsOk(raws) && RawOk(r) && RawsOk(raws + [r])
    ensures RawIndex(number, at, raws + [r])
         == RawIndex(number, at, raws)
            + [Entry(NextNumber(LastNumber(number, raws), r.delta), at + |EncodeRaws(raws)|, OptionSize(r.delta, |r.value|))]
    decreases |raws|
  {
    hide NextNumber;
    hide EncodeOption;
    hide OptionSize;
    if raws == [] {
      assert raws + [r] == [r];
      assert RawIndex(number, at, [r]) == [Entry(NextNumber(number, r.delta), at, OptionSize(r.delta, |r.value|))];
    } else {
      var n, size := NextNumber(number, raws[0].delta), OptionSize(raws[0].delta, |raws[0].value|);
      assert (raws + [r])[1..] == raws[1..] + [r];
      assert at + size + |EncodeRaws(raws[1..])| == at + |EncodeRaws(raws)|;
      RawIndexAppend(n, at + size, raws[1..], r);
    }
  }

  /** The parse of a string whose options `done` have already been read. */
  function Resume(done: seq<Raw>, p: ParseResult): ParseResult {
    if p.Parsed? then Parsed(done + p.raws, p.tail) else p
  }

  /** What the next read of the loop means for the whole. */
  lemma ResumeMarker(done: seq<Raw>, rest: seq<Byte>, room: nat)
    requires rest != [] && ReadOption(rest).Marker?
    ensures Resume(done, Parse(rest, room)) == Parsed(done, Payload(rest[1..]))
  {
    hide Parse;
    hide ReadOption;
    TakeMarker(rest, room);
    assert done + [] == done;
  }

  lemma ResumeBad(done: seq<Raw>, rest: seq<Byte>, room: nat)
    requires rest != [] && ReadOption(rest).BadOption?
    ensures Resume(done, Parse(rest, room)) == BadBytes
  {
    hide Parse;
    hide ReadOption;
    TakeBad(rest, room);
  }

  lemma ResumeEnd(done: seq<Raw>, room: nat)
    ensures Resume(done, Parse([], room)) == Parsed(done, NoMarker)
  {
    assert done + [] == done;
  }

  lemma ResumeOption(done: seq<Raw>, rest: seq<Byte>, room: nat) returns (r: Raw)
    requires rest != [] && ReadOption(rest).Got?
    ensures var o := ReadOption(rest);
            && r == Raw(o.delta, o.value) && RawOk(r) && 0 < o.used <= |rest| && rest[..o.used] == EncodeOption(r.delta, r.value)
            && (room == 0 ==> Resume(done, Parse(rest, room)) == TooMany)
            && (room > 0 ==> Resume(done, Parse(rest, room)) == Resume(done + [r], Parse(rest[o.used..], room - 1)))
  {
    hide Parse;
    hide ReadOption;
    hide EncodeOption;
    var o := ReadOption(rest);
    r := Raw(o.delta, o.value);
    TakeOption(rest, room);
    if room > 0 { ResumeStep(done, r, Parse(rest[o.used..], room - 1)); }
  }

  lemma ResumeStep(done: seq<Raw>, r: Raw, p: ParseResult)
    ensures Resume(done, Prepend(r, p)) == Resume(done + [r], p)
  {
    if p.Parsed? {
      assert done + ([r] + p.raws) == done + [r] + p.raws;
    }
  }

  // ---------------------------------------------------------------- bounded reads

  /** `-EBADOPT` and `-EPAYLD` of the readers. */
  const EBADOPT := -1
  const EPAYLD := -2

  /** `_uint_read_in_range`. */
  method ReadExtInRange(buf: array<Byte>, nibble: Nibble, cursor: nat, end: nat) returns (value: int, cursor': nat)
    requires cursor <= end <= buf.Length
    ensures match ReadExt(nibble, buf[cursor..end])
            case BadExt => value == EBADOPT
            case Ext(v, used) => value == v && cursor' == cursor + used <= end
  {
    if nibble < 13 {
      return nibble, cursor;
    } else if nibble == 13 {
      cursor' := cursor + 1;
      if cursor' > end {
        return EBADOPT, cursor';
      }
      return 13 + buf[cursor] as int, cursor';
    } else if nibble == 14 {
      cursor' := cursor + 2;
      if cursor' > end {
        return EBADOPT, cursor';
      }
      return 14 + 0xff + 256 * (buf[cursor] as int) + buf[cursor + 1] as int, cursor';
    } else {
      return EBADOPT, cursor;
    }
  }

  /** `_read_option_in_range`: the delta goes out through 16 bits. */
  method ReadOptionInRange(buf: array<Byte>, cursor: nat, end: nat) returns (code: int, delta: nat, cursor': nat)
    requires cursor < end <= buf.Length
    ensures match ReadOption(buf[cursor..end])
            case Marker => code == EPAYLD && cursor' == cursor + 1
            case BadOption => code == EBADOPT
            case Got(d, v, used) => code == |v| && delta == d % 0x1_0000 && cursor' == cursor + used <= end
  {
    ghost var s := buf[cursor..end];
    var head := buf[cursor];
    delta, cursor' := 0, cursor + 1;
    if head == PAYLOAD_MARKER {
      return EPAYLD, delta, cursor';
    }
    assert buf[cursor'..end] == s[1..];
    var d, size;
    d, cursor' := ReadExtInRange(buf, head / 16, cursor', end);
    if d < 0 {
      return EBADOPT, delta, cursor';
    }
    assert buf[cursor'..end] == s[cursor' - cursor..];
    size, cursor' := ReadExtInRange(buf, head % 16, cursor', end);
    if size < 0 {
      return EBADOPT, delta, cursor';
    }
    delta := d % 0x1_0000;
    cursor' := cursor' + size;
    if cursor' > end {
      return EBADOPT, delta, cursor';
    }
    code := size;
  }
}
