/** Option values that hold unsigned integers of variable length. */
module OptionUints {
  import opened Codec
  import opened OptionLists
  import opened OptionEdits
  import opened OptionStores

  const UINT32 := 0x1_0000_0000

  /** The number that a big-endian byte string denotes. */
  function Big(bytes: seq<Byte>): nat {
    if bytes == [] then 0 else 256 * Big(bytes[..|bytes| - 1]) + bytes[|bytes| - 1]
  }

  /** The shortest big-endian byte string of a number. */
  function Shortest(value: nat): seq<Byte> {
    if value == 0 then [] else Shortest(value / 256) + [value % 256]
  }

  lemma {:induction false} BigShortest(value: nat)
    ensures Big(Shortest(value)) == value && (Shortest(value) != [] ==> Shortest(value)[0] != 0)
  {
    if value != 0 {
      BigShortest(value / 256);
      assert Shortest(value)[..|Shortest(value)| - 1] == Shortest(value / 256);
      if value / 256 == 0 { assert Shortest(value) == [value % 256]; }
    }
  }

  /** Widths of 32-bit numbers. */
  lemma ShortestWidth(value: nat)
    requires value < UINT32
    ensures |Shortest(value)| == if value == 0 then 0 else if value < 0x100 then 1 else if value < 0x1_0000 then 2
                                 else if value < 0x100_0000 then 3 else 4
    ensures Shortest(value) == NetworkBytes(value)[4 - |Shortest(value)|..]
  {
    var a, b, c := value / 256, value / 256 / 256, value / 256 / 256 / 256;
    assert c / 256 == 0;
    assert Shortest(c) == if c == 0 then [] else [c % 256];
    assert Shortest(b) == if b == 0 then [] else Shortest(c) + [b % 256];
    assert Shortest(a) == if a == 0 then [] else Shortest(b) + [a % 256];
    assert Shortest(value) == if value == 0 then [] else Shortest(a) + [value % 256];
  }

  /** `htonl`: the four bytes of a 32-bit number in network order. */
  function NetworkBytes(value: nat): (r: seq<Byte>)
    requires value < UINT32
    ensures |r| == 4
  {
    [value / 256 / 256 / 256 % 256, value / 256 / 256 % 256, value / 256 % 256, value % 256]
  }

  /** `_encode_variable_uint`: counts the bytes in use and keeps that many of the network bytes. */
  method EncodeUint(value: nat) returns (bytes: seq<Byte>)
    requires value < UINT32
    ensures bytes == Shortest(value) && |bytes| <= 4
  {
    var size, tmp := 0, value;
    while tmp != 0
      invariant |Shortest(value)| == size + |Shortest(tmp)|
    {
      size := size + 1;
      tmp := tmp / 256;
    }
    ShortestWidth(value);
    bytes := NetworkBytes(value)[4 - size..];
  }

  /** `Unreachable` stands for the source's UNREACHABLE, which a value of no bytes runs into. */
  datatype UintResult = Missing | Malformed | Unreachable | Uint(value: nat)

  /** `_ntoh_variable`, by the number of bytes. */
  function ReadUint(bytes: seq<Byte>): (r: UintResult)
    ensures r.Unreachable? || r.Uint?
    ensures r == Unreachable <==> |bytes| == 0 || |bytes| > 4
    ensures r.Uint? ==> r.value == Big(bytes)
  {
    match |bytes|
    case 1 => BigOf([], bytes[0]); assert bytes == [] + [bytes[0]]; Uint(bytes[0])
    case 2 => BigPrefixes(bytes); Uint(256 * (bytes[0] as int) + bytes[1] as int)
    case 3 => BigPrefixes(bytes); Uint(256 * (256 * (bytes[0] as int) + bytes[1] as int) + bytes[2] as int)
    case 4 => BigPrefixes(bytes); Uint(256 * (256 * (256 * (bytes[0] as int) + bytes[1] as int) + bytes[2] as int) + bytes[3] as int)
    case _ => Unreachable
  }

  lemma BigOf(front: seq<Byte>, b: Byte)
    ensures Big(front + [b]) == 256 * Big(front) + b
  {
    assert (front + [b])[..|front|] == front;
  }

  lemma BigPrefixes(bytes: seq<Byte>)
    requires 1 <= |bytes| <= 4
    ensures Big(bytes[..1]) == bytes[0]
    ensures |bytes| >= 2 ==> Big(bytes[..2]) == 256 * (bytes[0] as int) + bytes[1] as int
    ensures |bytes| >= 3 ==> Big(bytes[..3]) == 256 * (256 * (bytes[0] as int) + bytes[1] as int) + bytes[2] as int
    ensures |bytes| == 4 ==> Big(bytes) == 256 * (256 * (256 * (bytes[0] as int) + bytes[1] as int) + bytes[2] as int) + bytes[3] as int
    ensures bytes[..|bytes|] == bytes
  {
    hide Big;
    assert bytes[..0] == [] && Big([]) == 0 by { BigNone(); }
    BigOf(bytes[..0], bytes[0]);
    assert bytes[..1] == bytes[..0] + [bytes[0]];
    if |bytes| >= 2 { BigOf(bytes[..1], bytes[1]); assert bytes[..2] == bytes[..1] + [bytes[1]]; }
    if |bytes| >= 3 { BigOf(bytes[..2], bytes[2]); assert bytes[..3] == bytes[..2] + [bytes[2]]; }
    if |bytes| == 4 { BigOf(bytes[..3], bytes[3]); assert bytes == bytes[..3] + [bytes[3]]; }
  }

  lemma BigNone()
    ensures Big([]) == 0
  {
  }

  /** The bytes written for a 32-bit number denote it exactly if it is not zero; zero has no bytes. */
  lemma UintBytes(value: nat)
    requires value < UINT32
    ensures |Shortest(value)| <= 4 && (Shortest(value) == [] <==> value == 0)
    ensures ReadUint(Shortest(value)) == if value == 0 then Unreachable else Uint(value)
  {
    BigShortest(value);
    ShortestWidth(value);
  }

  lemma {:induction false} BigInjective(a: seq<Byte>, b: seq<Byte>)
    requires |a| == |b| && Big(a) == Big(b)
    ensures a == b
    decreases |a|
  {
    if a != [] {
      var n := |a| - 1;
      BigInjective(a[..n], b[..n]);
      assert a == a[..n] + [a[n]] && b == b[..n] + [b[n]];
    }
  }

  /** The bytes that are read for a value of at most twelve bytes: a far one loses its last byte and gains one in front. */
  function BytesRead(opts: seq<Option>, i: nat): seq<Byte>
    requires i < |opts|
  {
    var value := opts[i].value;
    if Far(opts, i) && value != [] then [(DeltaAt(opts, i) - 269) % 256] + value[..|value| - 1] else value
  }

  /** A read that finds at most twelve bytes finds these. */
  lemma ShortRead(store: OptionStore, i: nat, r: Lookup)
    requires i < store.count <= store.entries.Length && i < |store.opts| && store.Reads(i, r) && r.size <= UINT4_MAX
    ensures r.size == |store.opts[i].value| && r.offset + r.size <= store.buf.Length
    ensures store.buf[r.offset..r.offset + r.size] == BytesRead(store.opts, i)
  {
    WindowRead(store.buf[..], store.entries[i], store.opts, i, r.offset, r.size);
  }

  lemma WindowRead(b: seq<Byte>, e: Entry, opts: seq<Option>, i: nat, cursor: nat, size: nat)
    requires i < |opts| && ReadAt(b, e, opts, i, cursor, size) && size <= UINT4_MAX
    ensures size == |opts[i].value| && cursor + size <= |b| && b[cursor..cursor + size] == BytesRead(opts, i)
  {
    var value := opts[i].value;
    assert |value| <= UINT4_MAX;
    if Far(opts, i) && value != [] { EarlyWindow(b, cursor + 1, value); }
  }

  /** A read of at most twelve bytes is right exactly if these are the bytes of the value. */
  lemma ShortReadRight(opts: seq<Option>, i: nat)
    requires i < |opts| && |opts[i].value| <= UINT4_MAX
    ensures BytesRead(opts, i) == opts[i].value <==> ReadsRight(opts, i)
  {
    if Far(opts, i) && opts[i].value != [] {
      ShiftedSame((DeltaAt(opts, i) - 269) % 256, opts[i].value);
    }
  }

  /** What a look for a number of at most `maxSize` bytes finds. */
  function FoundUint(opts: seq<Option>, number: nat, maxSize: nat): UintResult {
    var i := FindFirst(opts, number);
    if i < 0 then Missing
    else if SizeRead(opts, i) > maxSize then Malformed
    else ReadUint(BytesRead(opts, i))
  }

  /** The numbers that `size` bytes can hold lie below this one. */
  function Limit(size: nat): nat {
    if size == 0 then 1 else 256 * Limit(size - 1)
  }

  lemma WithinLimit(value: nat, size: nat)
    requires value < UINT32 && size <= 4
    ensures |Shortest(value)| <= size <==> value < Limit(size)
  {
    hide Shortest;
    ShortestWidth(value);
    assert Limit(0) == 1 && Limit(1) == 256 && Limit(2) == 256 * Limit(1) && Limit(3) == 256 * Limit(2) && Limit(4) == 256 * Limit(3);
  }

  /**
   * A 32-bit number that is set is refused by a look for fewer bytes than it has, and else found again exactly if it is not
   * zero and the read of its option is right.
   */
  lemma UintRoundTrip(opts: seq<Option>, number: nat, value: nat, maxSize: nat)
    requires Sorted(0, opts) && number <= NUMBER_MAX && value < UINT32 && maxSize <= 4
    ensures var stored := Update(opts, Option(number, Shortest(value)));
            var i := FindFirst(stored, number);
            && i >= 0 && stored[i].value == Shortest(value)
            && (FoundUint(stored, number, maxSize) == Malformed <==> value >= Limit(maxSize))
            && (FoundUint(stored, number, maxSize) == Uint(value) <==>
                  value < Limit(maxSize) && value != 0 && (Far(stored, i) ==> forall k :: 0 <= k < |Shortest(value)| ==> Shortest(value)[k] == (DeltaAt(stored, i) - 269) % 256))
  {
    hide Big;
    hide Shortest;
    hide Update;
    var stored := Update(opts, Option(number, Shortest(value)));
    UintBytes(value);
    SetThenGet(opts, Option(number, Shortest(value)));
    var i := FindFirst(stored, number);
    hide FindFirst;
    ShortReadRight(stored, i);
    BigShortest(value);
    WithinLimit(value, maxSize);
    if ReadUint(BytesRead(stored, i)) == Uint(value) { BigInjective(BytesRead(stored, i), Shortest(value)); }
  }

  /** Option 300, alone, holding the number 5: what is found is 31. */
  lemma FarUintExample()
    ensures Shortest(5) == [5] && FoundUint([Option(300, [5])], 300, 4) == Uint(31)
  {
    assert Shortest(0) == [];
    assert [31] + [5][..0] == [31];
  }

  /** `_unicoap_options_get_variable_uint`. */
  method GetUint(store: OptionStore, number: nat, maxSize: nat) returns (r: UintResult)
    requires store.Valid() && maxSize <= 4
    ensures r == FoundUint(store.opts, number, maxSize)
  {
    hide FindFirst;
    hide OptionStore.Valid;
    hide OptionStore.Reads;
    hide BytesRead;
    hide ReadUint;
    var found := store.Get(number);
    if found == NotFound {
      return Missing;
    }
    FoundSize(store, FindFirst(store.opts, number), found);
    if found.size > maxSize {
      return Malformed;
    }
    ShortRead(store, FindFirst(store.opts, number), found);
    r := ReadUint(store.buf[found.offset..found.offset + found.size]);
  }

  lemma FoundSize(store: OptionStore, i: nat, r: Lookup)
    requires store.Valid() && i < |store.opts| == store.count && store.Reads(i, r)
    ensures i < store.count <= store.entries.Length && r.Found? && r.size == SizeRead(store.opts, i)
  {
  }
}
