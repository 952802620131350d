/** The option wire format of section 3.1 of RFC 7252: extended integers, option heads and
    delta-encoded option lists, as `unicoap/options.c` reads and writes them. */
module Codec {

  type Byte = b: int | 0 <= b < 256
  type Nibble = n: int | 0 <= n < 16

  const UINT4_MAX := 12
  const UINT12_MAX := 13 + 0xff
  const UINT20_MAX := 14 + 0xff + 0xffff
  const NUMBER_MAX := 0xffff
  const PAYLOAD_MARKER: Byte := 0xff

  /** No buffer space: what every layer returns for it. */
  const ENOBUFS := -105

  // ---------------------------------------------------------------- extended integers

  /** Extension bytes needed for a value; -1 stands for `-EINVAL`. */
  function ExtSize(value: nat): int {
    if value <= UINT4_MAX then 0
    else if value <= UINT12_MAX then 1
    else if value <= UINT20_MAX then 2
    else -1
  }

  /** Extension bytes announced by a nibble; -1 stands for `-EINVAL`. */
  function NibbleExtSize(nibble: Nibble): int {
    if nibble < 13 then 0 else if nibble == 13 then 1 else if nibble == 14 then 2 else -1
  }

  /** The nibble that announces a value. */
  function NibbleFor(value: nat): Nibble
    requires value <= UINT20_MAX
  {
    if value <= UINT4_MAX then value else if value <= UINT12_MAX then 13 else 14
  }

  /** The extension bytes of a value, most significant byte first. */
  function ExtBytes(value: nat): (r: seq<Byte>)
    requires value <= UINT20_MAX
    ensures |r| == ExtSize(value)
  {
    if value <= UINT4_MAX then []
    else if value <= UINT12_MAX then [value - 13]
    else [(value - 269) / 256, (value - 269) % 256]
  }

  datatype ExtRead = BadExt | Ext(value: nat, used: nat)

  /** Reads an extended integer from the front of `s`, within bounds. */
  function ReadExt(nibble: Nibble, s: seq<Byte>): ExtRead {
    if nibble < 13 then Ext(nibble, 0)
    else if nibble == 13 then if |s| < 1 then BadExt else Ext(13 + s[0] as int, 1)
    else if nibble == 14 then if |s| < 2 then BadExt else Ext(269 + 256 * (s[0] as int) + s[1] as int, 2)
    else BadExt
  }

  /** Every value in 0..65804 is read back from its own nibble and bytes, whatever follows. */
  lemma ExtRoundTrip(value: nat, rest: seq<Byte>)
    requires value <= UINT20_MAX
    ensures |ExtBytes(value)| == ExtSize(value) == NibbleExtSize(NibbleFor(value))
    ensures ReadExt(NibbleFor(value), ExtBytes(value) + rest) == Ext(value, ExtSize(value))
  {
    var x := value - 269;
    assert value > UINT12_MAX ==> 256 * (x / 256) + x % 256 == x;
  }

  /** What is read has exactly one encoding, namely the bytes that were read. */
  lemma ExtUnique(nibble: Nibble, s: seq<Byte>)
    requires ReadExt(nibble, s).Ext?
    ensures var r := ReadExt(nibble, s);
            r.used <= |s| && r.value <= UINT20_MAX && nibble == NibbleFor(r.value) && s[..r.used] == ExtBytes(r.value)
  {
    var r := ReadExt(nibble, s);
    if nibble == 14 {
      assert r.value - 269 == 256 * (s[0] as int) + s[1] as int;
      assert (r.value - 269) / 256 == s[0] && (r.value - 269) % 256 == s[1];
    }
  }

  /** Merging two deltas never costs more than the head byte and extensions they had apart. */
  lemma ExtSubadditive(a: nat, b: nat)
    requires a + b <= UINT20_MAX
    ensures ExtSize(a + b) <= 1 + ExtSize(a) + ExtSize(b)
    ensures ExtSize(b) <= ExtSize(a + b)
  {
  }

  // ---------------------------------------------------------------- single options

  /** An option as it travels: a delta and a value. */
  datatype Raw = Raw(delta: nat, value: seq<Byte>)

  ghost predicate RawOk(r: Raw) {
    r.delta <= UINT20_MAX && |r.value| <= UINT20_MAX
  }

  /** Head byte and extended delta; the part of an option that depends on its predecessor. */
  function HeadPart(delta: nat, lengthNibble: Nibble): (r: seq<Byte>)
    requires delta <= UINT20_MAX
    ensures |r| == 1 + ExtSize(delta)
  {
    [16 * NibbleFor(delta) + lengthNibble] + ExtBytes(delta)
  }

  /** Extended length and value; the part that does not. */
  function TailPart(value: seq<Byte>): (r: seq<Byte>)
    requires |value| <= UINT20_MAX
    ensures |r| == ExtSize(|value|) + |value|
  {
    ExtBytes(|value|) + value
  }

  function EncodeOption(delta: nat, value: seq<Byte>): (r: seq<Byte>)
    requires delta <= UINT20_MAX && |value| <= UINT20_MAX
    ensures |r| == OptionSize(delta, |value|)
  {
    HeadPart(delta, NibbleFor(|value|)) + TailPart(value)
  }

  function OptionSize(delta: nat, valueSize: nat): (r: nat)
    requires delta <= UINT20_MAX && valueSize <= UINT20_MAX
    ensures r > valueSize
  {
    1 + ExtSize(delta) + ExtSize(valueSize) + valueSize
  }

  datatype OptionRead = BadOption | Marker | Got(delta: nat, value: seq<Byte>, used: nat)

  /** Reads one option from the front of a nonempty byte string, within bounds. */
  function ReadOption(s: seq<Byte>): OptionRead
    requires s != []
  {
    if s[0] == PAYLOAD_MARKER then Marker else
    match ReadExt(s[0] / 16, s[1..])
    case BadExt => BadOption
    case Ext(delta, k) =>
      if |s| < 1 + k then BadOption else
      match ReadExt(s[0] % 16, s[1 + k..])
      case BadExt => BadOption
      case Ext(length, m) =>
        if |s| < 1 + k + m + length then BadOption
        else Got(delta, s[1 + k + m..1 + k + m + length], 1 + k + m + length)
  }

  /** An option head is never the payload marker, so the marker is unambiguous. */
  lemma HeadIsNotMarker(delta: nat, value: seq<Byte>)
    requires delta <= UINT20_MAX && |value| <= UINT20_MAX
    ensures EncodeOption(delta, value)[0] < 0xf0
    ensures EncodeOption(delta, value)[0] / 16 == NibbleFor(delta)
    ensures EncodeOption(delta, value)[0] % 16 == NibbleFor(|value|)
  {
  }

  /** Options of section 3.1 of RFC 7252, byte by byte: with no, one and two bytes of extension for the delta and the length. */
  lemma KnownOptions(v: seq<Byte>)
    ensures EncodeOption(11, [0x61, 0x62]) == [0xb2, 0x61, 0x62]
    ensures 13 <= |v| < 269 ==> EncodeOption(60, v) == [0xdd, 47, |v| - 13] + v && EncodeOption(300, v) == [0xed, 0, 31, |v| - 13] + v
    ensures |v| == 781 ==> EncodeOption(12, v) == [0xce, 2, 0] + v && EncodeOption(781, v) == [0xee, 2, 0, 2, 0] + v
  {
    assert EncodeOption(11, [0x61, 0x62]) == [0xb2] + [] + ([] + [0x61, 0x62]);
    if 13 <= |v| < 269 {
      assert EncodeOption(60, v) == [0xdd] + [47] + ([|v| - 13] + v);
      assert EncodeOption(300, v) == [0xed] + [0, 31] + ([|v| - 13] + v);
    } else if |v| == 781 {
      assert EncodeOption(12, v) == [0xce] + [] + ([2, 0] + v);
      assert EncodeOption(781, v) == [0xee] + [2, 0] + ([2, 0] + v);
    }
  }

  lemma FiveParts(head: Byte, d: seq<Byte>, l: seq<Byte>, v: seq<Byte>, rest: seq<Byte>)
    ensures var s := [head] + d + (l + v) + rest;
            && s[0] == head && s[1..] == d + (l + v + rest) && s[1 + |d|..] == l + (v + rest)
            && s[1 + |d| + |l|..1 + |d| + |l| + |v|] == v
  {
  }

  lemma ReadEncoded(delta: nat, value: seq<Byte>, rest: seq<Byte>)
    requires delta <= UINT20_MAX && |value| <= UINT20_MAX
    ensures ReadOption(EncodeOption(delta, value) + rest) == Got(delta, value, OptionSize(delta, |value|))
  {
    hide ReadExt, ExtBytes, NibbleFor, ExtSize;
    HeadIsNotMarker(delta, value);
    FiveParts(16 * NibbleFor(delta) + NibbleFor(|value|), ExtBytes(delta), ExtBytes(|value|), value, rest);
    ExtRoundTrip(delta, ExtBytes(|value|) + value + rest);
    ExtRoundTrip(|value|, value + rest);
  }

  lemma FourParts(s: seq<Byte>, k: nat, m: nat, n: nat)
    requires 1 + k + m <= n <= |s|
    ensures s[..n] == [s[0]] + s[1..][..k] + (s[1 + k..][..m] + s[1 + k + m..n])
  {
  }

  lemma ReadUnique(s: seq<Byte>)
    requires s != [] && ReadOption(s).Got?
    ensures var r := ReadOption(s);
            && r.delta <= UINT20_MAX && |r.value| <= UINT20_MAX
            && 0 < r.used <= |s| && s[..r.used] == EncodeOption(r.delta, r.value)
  {
    var r := ReadOption(s);
    var d, l: Nibble := s[0] / 16, s[0] % 16;
    ExtUnique(d, s[1..]);
    var k := ReadExt(d, s[1..]).used;
    ExtUnique(l, s[1 + k..]);
    var m := ReadExt(l, s[1 + k..]).used;
    hide ReadExt, ExtBytes, NibbleFor, ExtSize;
    FourParts(s, k, m, r.used);
    assert s[0] == 16 * d + l;
    assert [s[0]] + s[1..][..k] == HeadPart(r.delta, l);
    assert s[1 + k..][..m] + s[1 + k + m..r.used] == TailPart(r.value);
  }

  // ---------------------------------------------------------------- option lists

  datatype Option = Option(number: nat, value: seq<Byte>)

  ghost predicate OptionOk(o: Option) {
    o.number <= NUMBER_MAX && |o.value| <= UINT20_MAX
  }

  /** Numbers never decrease from `prev` on, and every field fits its width. */
  ghost predicate Sorted(prev: nat, opts: seq<Option>)
    decreases opts
  {
    opts != [] ==> prev <= opts[0].number && OptionOk(opts[0]) && Sorted(opts[0].number, opts[1..])
  }

  function Last(prev: nat, opts: seq<Option>): nat {
    if opts == [] then prev else opts[|opts| - 1].number
  }

  /** The packed bytes of a sorted list whose predecessor is numbered `prev`. */
  ghost function Encode(prev: nat, opts: seq<Option>): (r: seq<Byte>)
    requires Sorted(prev, opts)
    ensures |r| >= |opts|
    decreases opts
  {
    if opts == [] then []
    else EncodeOption(opts[0].number - prev, opts[0].value) + Encode(opts[0].number, opts[1..])
  }

  /** One entry of the lookup array: number, offset of the first byte, size in bytes. */
  datatype Entry = Entry(number: nat, data: nat, size: nat)

  /** The lookup array of a sorted list whose bytes start at offset `at`. */
  ghost function Index(prev: nat, at: nat, opts: seq<Option>): (r: seq<Entry>)
    requires Sorted(prev, opts)
    ensures |r| == |opts|
    decreases opts
  {
    if opts == [] then []
    else
      var size := OptionSize(opts[0].number - prev, |opts[0].value|);
      [Entry(opts[0].number, at, size)] + Index(opts[0].number, at + size, opts[1..])
  }

  /** One step of the three recursive definitions, so that proofs can hide their bodies. */
  lemma Unfold(prev: nat, at: nat, o: Option, rest: seq<Option>)
    ensures Sorted(prev, [o] + rest) <==> prev <= o.number && OptionOk(o) && Sorted(o.number, rest)
    ensures Last(prev, [o] + rest) == Last(o.number, rest)
    ensures Sorted(prev, [o] + rest) ==>
              && Encode(prev, [o] + rest) == EncodeOption(o.number - prev, o.value) + Encode(o.number, rest)
              && Index(prev, at, [o] + rest)
                 == [Entry(o.number, at, OptionSize(o.number - prev, |o.value|))]
                    + Index(o.number, at + OptionSize(o.number - prev, |o.value|), rest)
  {
    hide EncodeOption;
    hide OptionSize;
    assert ([o] + rest)[1..] == rest && ([o] + rest)[0] == o;
  }

  lemma UnfoldNil(prev: nat, at: nat)
    ensures Sorted(prev, []) && Last(prev, []) == prev && Encode(prev, []) == [] && Index(prev, at, []) == []
  {
  }

  lemma {:induction false} SortedConcat(prev: nat, a: seq<Option>, b: seq<Option>)
    ensures Sorted(prev, a + b) <==> Sorted(prev, a) && Sorted(Last(prev, a), b)
    decreases a
  {
    hide Sorted;
    hide Last;
    if a == [] {
      UnfoldNil(prev, 0);
      assert a + b == b;
    } else {
      assert a == [a[0]] + a[1..] && a + b == [a[0]] + (a[1..] + b);
      Unfold(prev, 0, a[0], a[1..]);
      Unfold(prev, 0, a[0], a[1..] + b);
      SortedConcat(a[0].number, a[1..], b);
    }
  }

  /** Encoding and index of a concatenation split at the seam. */
  lemma {:induction false} EncodeConcat(prev: nat, at: nat, a: seq<Option>, b: seq<Option>)
    requires Sorted(prev, a + b)
    ensures Sorted(prev, a) && Sorted(Last(prev, a), b)
    ensures Encode(prev, a + b) == Encode(prev, a) + Encode(Last(prev, a), b)
    ensures Index(prev, at, a + b) == Index(prev, at, a) + Index(Last(prev, a), at + |Encode(prev, a)|, b)
    decreases a
  {
    SortedConcat(prev, a, b);
    hide Sorted;
    hide Last;
    hide Encode;
    hide Index;
    hide EncodeOption;
    hide OptionSize;
    if a == [] {
      UnfoldNil(prev, at);
      assert a + b == b;
    } else {
      var o, rest := a[0], a[1..];
      assert a == [o] + rest && a + b == [o] + (rest + b);
      Unfold(prev, at, o, rest);
      Unfold(prev, at, o, rest + b);
      var size := OptionSize(o.number - prev, |o.value|);
      EncodeConcat(o.number, at + size, rest, b);
      assert at + size + |Encode(o.number, rest)| == at + |Encode(prev, a)|;
    }
  }

  /** Sortedness as a statement about positions. */
  lemma {:induction false} SortedAt(prev: nat, opts: seq<Option>, i: nat, j: nat)
    requires Sorted(prev, opts) && i <= j < |opts|
    ensures prev <= opts[i].number <= opts[j].number && OptionOk(opts[j])
    decreases |opts|
  {
    if i > 0 {
      SortedAt(opts[0].number, opts[1..], i - 1, j - 1);
    } else if j > 0 {
      SortedAt(opts[0].number, opts[1..], 0, j - 1);
    }
  }

  /** Entry `k` records the number, position and size of option `k`. */
  lemma {:induction false} IndexAt(prev: nat, at: nat, opts: seq<Option>, k: nat)
    requires Sorted(prev, opts) && k < |opts|
    ensures Sorted(prev, opts[..k]) && Last(prev, opts[..k]) <= opts[k].number && OptionOk(opts[k])
    ensures Index(prev, at, opts)[k]
         == Entry(opts[k].number, at + |Encode(prev, opts[..k])|,
                  OptionSize(opts[k].number - Last(prev, opts[..k]), |opts[k].value|))
  {
    hide Sorted;
    hide Last;
    hide Encode;
    hide Index;
    hide EncodeOption;
    hide OptionSize;
    assert opts == opts[..k] + ([opts[k]] + opts[k + 1..]);
    EncodeConcat(prev, at, opts[..k], [opts[k]] + opts[k + 1..]);
    Unfold(Last(prev, opts[..k]), at + |Encode(prev, opts[..k])|, opts[k], opts[k + 1..]);
  }

  function Shifted(e: Entry, diff: int): Entry
    requires e.data + diff >= 0
  {
    e.(data := e.data + diff)
  }

  /** Relocating the bytes relocates every entry by the same amount and changes nothing else. */
  lemma {:induction false} IndexShift(prev: nat, at: nat, dest: nat, opts: seq<Option>)
    requires Sorted(prev, opts)
    ensures forall k :: 0 <= k < |opts| ==> Index(prev, at, opts)[k].data >= at
    ensures forall k :: 0 <= k < |opts| ==> Index(prev, dest, opts)[k] == Shifted(Index(prev, at, opts)[k], dest - at)
    decreases opts
  {
    hide OptionSize;
    if opts != [] {
      var n, rest := opts[0].number, opts[1..];
      var size := OptionSize(n - prev, |opts[0].value|);
      IndexShift(n, at + size, dest + size, rest);
      assert Index(prev, at, opts) == [Entry(n, at, size)] + Index(n, at + size, rest);
      assert Index(prev, dest, opts) == [Entry(n, dest, size)] + Index(n, dest + size, rest);
      hide Index;
    }
  }
}
