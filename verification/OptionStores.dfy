/** The option store of `unicoap/options.c`: packed bytes edited in place, with a lookup array beside them. */
module OptionStores {
  import opened Codec
  import opened OptionLists
  import opened Buffers
  import opened OptionEdits
  import opened OptionGaps
  import opened OptionParsing

  /**
   * `Trap` is a failing `assert` of a build that compiles assertions in, `OutOfBuffer` an access behind the end of the buffer;
   * the model stops there.
   */
  datatype Status = Ok | NoBufs | Trap | OutOfBuffer

  /** Where a lookup says the value is: offset and size. */
  datatype Lookup = NotFound | BadOpt | Found(offset: nat, size: nat)

  class OptionStore {
    /** Whether assertions are compiled in. */
    const debug: bool
    /** The lookup array; its length is CONFIG_UNICOAP_OPTIONS_MAX. */
    const entries: array<Entry>
    var buf: array<Byte>
    var capacity: nat
    var storageSize: nat
    var count: nat
    ghost var opts: seq<Option>

    /** The storage begins where the first entry points, even when no option is stored. */
    ghost function Base(): nat
      requires entries.Length > 0
      reads entries
    {
      entries[0].data
    }

    ghost predicate Counts()
      reads this
    {
      0 < entries.Length && count <= entries.Length && storageSize <= capacity
    }

    /** The whole storage lies in the buffer. */
    ghost predicate Shape()
      reads this, entries
    {
      Counts() && Base() + capacity <= buf.Length
    }

    /** The bytes in use. */
    ghost function Packed(): seq<Byte>
      requires entries.Length > 0 && Base() + storageSize <= buf.Length
      reads this, entries, buf
    {
      buf[..][Base()..Base() + storageSize]
    }

    ghost predicate Valid()
      reads this, entries, buf
    {
      && Shape()
      && Represents(Packed(), entries[..count], Base(), opts)
    }

    /** Bytes and entries agree, but bytes in use may belong to no option, and the storage may reach behind the buffer. */
    ghost predicate Scattered()
      reads this, entries, buf
    {
      Counts() && Spread(buf[..], entries[..count], Base(), Base() + storageSize, opts)
    }

    /** How many bytes in use belong to no option. */
    ghost function Slack(): (n: nat)
      requires Scattered()
      reads this, entries, buf
    {
      SpreadRoom(buf[..], entries[..count], Base(), Base() + storageSize, opts);
      storageSize - |Encode(0, opts)|
    }

    lemma ScatteredSizes()
      requires Scattered()
      ensures Counts() && Sorted(0, opts) && |opts| == count && storageSize == |Encode(0, opts)| + Slack()
    {
    }

    /** A store is consistent exactly if all bytes in use belong to its options. */
    lemma IntactIff()
      requires Shape() && Scattered()
      ensures Valid() <==> Slack() == 0
    {
      hide Spread;
      hide Sorted;
      hide Encode;
      hide Index;
      if Slack() == 0 {
        SpreadTight(buf[..], entries[..count], Base(), Base() + storageSize, opts);
      }
      if Valid() {
        RepresentsSizes(Packed(), entries[..count], Base(), opts);
      }
    }

    lemma ValidScattered()
      requires Valid()
      ensures Shape() && Scattered() && Slack() == 0 && |opts| == count && Sorted(0, opts) && storageSize == |Encode(0, opts)|
    {
      hide Sorted;
      hide Encode;
      hide Index;
      hide Spread;
      RepresentsSizes(Packed(), entries[..count], Base(), opts);
      PackedSpread(buf[..], entries[..count], Base(), Base() + storageSize, Base() + storageSize, opts);
    }

    constructor (debug: bool, max: nat, buf: array<Byte>, base: nat, capacity: nat)
      requires max > 0 && base + capacity <= buf.Length
      ensures Valid() && opts == [] && fresh(entries) && entries.Length == max
      ensures this.debug == debug && this.buf == buf && this.capacity == capacity && Base() == base
    {
      this.debug := debug;
      this.entries := new Entry[max](_ => Entry(0, base, 0));
      this.buf := buf;
      this.capacity := capacity;
      storageSize, count, opts := 0, 0, [];
    }

    // ---------------------------------------------------------------- helpers

    /** `_update_option_entries_with_storage_diff`. */
    method UpdateEntries(from: nat, diff: int)
      requires from <= count <= entries.Length
      requires forall k :: from <= k < count ==> entries[k].data + diff >= 0
      modifies entries
      ensures entries[..count][..from] == old(entries[..count])[..from]
      ensures Relocated(old(entries[..count])[from..], entries[..count][from..], diff)
    {
      for i := from to count
        invariant forall k :: from <= k < i ==> old(entries[k].data) + diff >= 0 && entries[k] == Shifted(old(entries[k]), diff)
        invariant forall k :: 0 <= k < entries.Length && !(from <= k < i) ==> entries[k] == old(entries[k])
      {
        entries[i] := entries[i].(data := entries[i].data + diff);
      }
    }

    /** `_shift_option_entries`: a `memmove` of the entries from `i` on. */
    method ShiftEntries(i: nat, diff: int)
      requires i < count <= entries.Length && 0 <= i + diff && count + diff <= entries.Length
      modifies entries, this`count
      ensures count == old(count) + diff
      ensures entries[..count] == old(entries[..i + diff]) + old(entries[i..count])
    {
      forall k | i <= k < count {
        entries[k + diff] := entries[k];
      }
      assert entries[..i + diff] == old(entries[..i + diff]);
      assert entries[i + diff..count + diff] == old(entries[i..count]);
      count := count + diff;
      assert entries[..count] == entries[..i + diff] + entries[i + diff..count];
    }

    /** `_shift_options`: checks the room, then moves bytes and entries from option `i` on. */
    method ShiftOptions(i: nat, diff: int, ghost b: seq<Byte>, ghost src: nat, ghost end: nat) returns (r: Status)
      requires Counts() && i <= count <= entries.Length && storageSize + diff >= 0
      requires b == buf[..] && end == Base() + storageSize && (i < count ==> src == entries[i].data && Base() <= src < end)
      requires forall k :: i <= k < count ==> entries[k].data + diff >= 0
      modifies buf, entries, this`storageSize
      ensures r == NoBufs <==> old(storageSize) + diff > capacity
      ensures r == Trap <==> r != NoBufs && debug && i < count && old(storageSize) == capacity
      ensures r == OutOfBuffer <==> r != NoBufs && r != Trap && i < count && (end > buf.Length || end + diff > buf.Length)
      ensures r != Ok ==> buf[..] == b && entries[..] == old(entries[..]) && storageSize == old(storageSize)
      ensures r == Ok ==> storageSize == old(storageSize) + diff
      ensures r == Ok ==> buf[..] == if i == count then b else Splice(b, src + diff, b[src..end])
      ensures r == Ok ==> |entries[..count]| == |old(entries[..count])| && entries[..count][..i] == old(entries[..count])[..i]
      ensures r == Ok ==> Relocated(old(entries[..count])[i..], entries[..count][i..], diff)
    {
      hide Splice;
      var newSize := storageSize + diff;
      if newSize > capacity {
        return NoBufs;
      }
      if i < count {
        var base, cursor := entries[0].data, entries[i].data;
        var remainder := storageSize - (cursor - base);
        if debug && !(cursor + diff < base + capacity && cursor < base + capacity && cursor + remainder < base + capacity) {
          return Trap;
        }
        assert cursor == src && src + remainder == end;
        if cursor + remainder > buf.Length || cursor + diff + remainder > buf.Length {
          return OutOfBuffer;
        }
        assert buf[src..end] == b[src..end];
        MemMove(buf, cursor + diff, cursor, remainder);
        UpdateEntries(i, diff);
      }
      storageSize := newSize;
      r := Ok;
    }

    lemma NumberAt(i: nat)
      requires Scattered() && i < count
      ensures count <= entries.Length && |opts| == count && entries[i].number == opts[i].number
    {
      hide Sorted;
      assert Stands(buf[..], entries[..count][i], opts, i);
    }

    static lemma NoneFrom(opts: seq<Option>, number: nat, k: nat)
      requires Sorted(0, opts) && k < |opts| && opts[k].number > number
      ensures forall m :: k <= m < |opts| ==> opts[m].number != number
    {
      hide Sorted;
      forall m | k <= m < |opts| ensures opts[m].number != number {
        SortedAt(0, opts, k, m);
      }
    }

    /** `_find_option_index`: stops at the first larger number. */
    method FindIndex(number: nat) returns (i: int)
      requires Valid()
      ensures i == FindFirst(opts, number)
    {
      hide Sorted;
      hide Encode;
      hide OptionStore.Valid;
      hide OptionStore.Scattered;
      ValidScattered();
      for k := 0 to count
        invariant forall m :: 0 <= m < k ==> opts[m].number < number
      {
        NumberAt(k);
        if entries[k].number > number {
          NoneFrom(opts, number, k);
          return -1;
        }
        if entries[k].number == number {
          return k;
        }
      }
      return -1;
    }

    /** Distance of `number` to the option before position `i`. */
    method DeltaBehind(i: nat, number: nat) returns (delta: nat)
      requires Scattered() && i <= count
      requires forall k :: 0 <= k < i ==> opts[k].number <= number
      ensures Sorted(0, opts[..i]) && Last(0, opts[..i]) <= number && delta == number - Last(0, opts[..i])
    {
      hide Sorted;
      hide Encode;
      hide Last;
      hide OptionStore.Scattered;
      ScatteredSizes();
      LastOfPrefix(opts, i);
      if i > 0 {
        NumberAt(i - 1);
        delta := number - entries[i - 1].number;
      } else {
        delta := number;
      }
    }

    // ---------------------------------------------------------------- mutators

    /**
     * The trailing branch of `unicoap_options_add`, as edits of bytes and entries. The storage begins where entry 0 points, so
     * if there is no option but bytes are left over, it begins behind them from then on, with the same capacity.
     */
    method AppendEdits(number: nat, value: seq<Byte>, delta: nat, size: nat, ghost end: nat)
      requires Counts() && count < entries.Length && delta <= UINT20_MAX && |value| <= UINT20_MAX && size == OptionSize(delta, |value|)
      requires end == Base() + storageSize && storageSize + size <= capacity && end + size <= buf.Length
      modifies buf, entries, this`count, this`storageSize
      ensures Base() == if old(count) == 0 then end else old(Base())
      ensures count == old(count) + 1 <= entries.Length && storageSize == old(storageSize) + size <= capacity
      ensures buf[..] == Splice(old(buf[..]), end, EncodeOption(delta, value))
      ensures entries[..count] == old(entries[..count]) + [Entry(number, end, size)]
    {
      hide OptionSize;
      hide EncodeOption;
      hide Splice;
      ghost var index := entries[..count];
      entries[count] := entries[count].(data := entries[0].data + storageSize);
      var _ := WriteOption(buf, entries[count].data, delta, value);
      storageSize := storageSize + size;
      count := count + 1;
      entries[count - 1] := entries[count - 1].(number := number, size := size);
      assert entries[..count] == index + [Entry(number, end, size)];
    }

    /** The same branch on the list; the option goes behind all bytes in use, whether or not they all belong to options. */
    method Append(number: nat, value: seq<Byte>, delta: nat) returns (r: Status)
      requires Scattered() && number <= NUMBER_MAX && |value| <= UINT20_MAX
      requires count < entries.Length && Last(0, opts) <= number && delta == number - Last(0, opts)
      modifies this, buf, entries
      ensures Scattered() && buf == old(buf) && capacity == old(capacity)
      ensures r == Ok ==> opts == old(opts) + [Option(number, value)] && storageSize == old(storageSize) + OptionSize(delta, |value|)
      ensures r == Ok ==> Base() == old(Base()) + if old(opts) == [] then old(storageSize) else 0
      ensures r == Ok ==> SameOutside(old(buf[..]), buf[..], old(Base()), storageSize)
      ensures r != Ok ==> opts == old(opts) && buf[..] == old(buf[..]) && entries[..] == old(entries[..])
      ensures r != Ok ==> storageSize == old(storageSize) && count == old(count)
      ensures r == NoBufs <==> old(storageSize) + OptionSize(delta, |value|) > capacity
      ensures r == OutOfBuffer <==> r != NoBufs && old(Base()) + old(storageSize) + OptionSize(delta, |value|) > buf.Length
      ensures r != Trap
    {
      hide Sorted;
      hide Encode;
      hide OptionSize;
      hide EncodeOption;
      hide Splice;
      hide Last;
      hide Spread;
      hide SameOutside;
      ScatteredSizes();
      var size := OptionSize(delta, |value|);
      ghost var base, end, b, index, x := Base(), Base() + storageSize, buf[..], entries[..count], Option(number, value);
      if storageSize + size > capacity {
        return NoBufs;
      }
      if entries[0].data + storageSize + size > buf.Length {
        return OutOfBuffer;
      }
      AppendEdits(number, value, delta, size, end);
      AppendSpread(b, buf[..], index, base, end, opts, x, delta);
      SpliceInside(b, end, EncodeOption(delta, value), base, storageSize);
      opts := opts + [x];
      r := Ok;
    }

    lemma ValidParts()
      requires Valid()
      ensures Shape() && Represents(buf[..][Base()..Base() + storageSize], entries[..count], Base(), opts)
    {
    }

    /** A call that changed nothing. */
    twostate lemma StillValid()
      requires old(Valid()) && buf == old(buf) && buf[..] == old(buf[..]) && entries[..] == old(entries[..])
      requires capacity == old(capacity) && storageSize == old(storageSize) && count == old(count) && opts == old(opts)
      ensures Valid()
    {
      hide Represents;
      assert old(entries[..count]) == entries[..][..count];
    }

    lemma ValidIff()
      requires Shape()
      ensures Valid() <==> Represents(buf[..][Base()..Base() + storageSize], entries[..count], Base(), opts)
    {
    }

    /** Entry work of an insertion: resize and reposition entry `i`, make room before it, fill the room. */
    method InsertEntry(i: nat, diff: int, new': Entry, ghost index: seq<Entry>)
      requires i < count < entries.Length && index == entries[..count] && entries[i].size + diff >= 0 && entries[i].data - diff >= 0
      modifies entries, this`count
      ensures count == old(count) + 1
      ensures entries[..count] == InsertedEntries(index, i, diff, new')
    {
      ghost var e := Entry(index[i].number, index[i].data - diff, index[i].size + diff);
      entries[i] := entries[i].(size := entries[i].size + diff);
      entries[i] := entries[i].(data := entries[i].data - diff);
      ghost var resized := entries[..count];
      assert resized == index[i := e] && entries[..i + 1] == resized[..i + 1] && entries[i..count] == resized[i..];
      ShiftEntries(i, 1);
      entries[i] := new';
      assert entries[..count] == (resized[..i + 1] + resized[i..])[i := new'];
      Inserted(index, i, e, new');
    }

    static lemma Inserted(index: seq<Entry>, i: nat, e: Entry, new': Entry)
      requires i < |index|
      ensures var resized := index[i := e];
              (resized[..i + 1] + resized[i..])[i := new'] == index[..i] + [new'] + ([e] + index[i + 1..])
    {
    }

    /** Byte work of an insertion: the new option, then the successor's head. */
    method WriteInserted(cursor: nat, delta: nat, value: seq<Byte>, newDelta: nat, lengthNibble: Nibble)
      requires delta <= UINT20_MAX && |value| <= UINT20_MAX && newDelta <= UINT20_MAX
      requires cursor + OptionSize(delta, |value|) + 1 + ExtSize(newDelta) <= buf.Length
      modifies buf
      ensures buf[..] == Filled(old(buf[..]), cursor, EncodeOption(delta, value), HeadPart(newDelta, lengthNibble))
    {
      hide Splice;
      hide EncodeOption;
      hide HeadPart;
      hide OptionSize;
      var cursor' := WriteOption(buf, cursor, delta, value);
      cursor' := WriteHeadPartial(buf, cursor', newDelta, lengthNibble);
    }

    /** The branch of `unicoap_options_add` that inserts before option `i`, as edits of bytes and entries. */
    method InsertEdits(i: nat, number: nat, value: seq<Byte>, delta: nat, ghost b: seq<Byte>, ghost index: seq<Entry>, ghost end: nat,
                       ghost p: Insertion) returns (r: Status)
      requires Counts() && count < entries.Length && delta <= UINT20_MAX && |value| <= UINT20_MAX
      requires b == buf[..] && index == entries[..count] && end == Base() + storageSize
      requires InsertionAt(b, index, Base(), end, i, number, p) && p.bytes == EncodeOption(delta, value)
      modifies buf, entries, this`count, this`storageSize
      ensures r == NoBufs <==> old(storageSize) + |p.bytes| + p.diff > capacity
      ensures r == Trap <==> r != NoBufs && debug && old(storageSize) == capacity
      ensures r == OutOfBuffer <==> r != NoBufs && r != Trap && end + |p.bytes| + p.diff > buf.Length
      ensures r != Ok ==> buf[..] == b && entries[..] == old(entries[..])
      ensures r != Ok ==> storageSize == old(storageSize) && count == old(count)
      ensures r == Ok ==> storageSize == old(storageSize) + |p.bytes| + p.diff && count == old(count) + 1
      ensures r == Ok ==> EntriesInserted(index, entries[..count], i, number, p) && BytesInserted(b, buf[..], end, p)
    {
      hide OptionSize;
      hide EncodeOption;
      hide HeadPart;
      hide Splice;
      hide Filled;
      hide Relocated;
      hide ExtSize;
      hide NibbleExtSize;
      hide EntriesInserted;
      hide BytesInserted;
      assert forall k :: i <= k < count ==> entries[k] == index[k];
      var size := OptionSize(delta, |value|);
      var cursor := entries[i].data;
      var lengthNibble := buf[cursor] % 16;
      var newDelta := entries[i].number - number;
      var diff := ExtSize(newDelta) - NibbleExtSize(buf[cursor] / 16);
      ghost var total := |p.bytes| + p.diff;
      assert size + diff == total && diff == p.diff && HeadPart(newDelta, lengthNibble) == p.head;
      r := ShiftOptions(i, size + diff, b, p.src, end);
      if r != Ok {
        return;
      }
      ghost var mid := entries[..count];
      WriteInsertion(i, number, value, delta, size, cursor, diff, newDelta, lengthNibble, b, index, mid, end, p);
    }

    /** The writes of that branch behind the move. */
    method WriteInsertion(i: nat, number: nat, value: seq<Byte>, delta: nat, size: nat, cursor: nat, diff: int, newDelta: nat, lengthNibble: Nibble,
                          ghost b: seq<Byte>, ghost index: seq<Entry>, ghost mid: seq<Entry>, ghost end: nat, ghost p: Insertion)
      requires i < count < entries.Length && mid == entries[..count] && delta <= UINT20_MAX && |value| <= UINT20_MAX && newDelta <= UINT20_MAX
      requires i < |index| == |mid| && mid[..i] == index[..i] && Relocated(index[i..], mid[i..], |p.bytes| + p.diff)
      requires p.src == cursor == index[i].data <= end && index[i].size + p.diff >= 0 && size == |p.bytes| && diff == p.diff
      requires p.bytes == EncodeOption(delta, value) && p.head == HeadPart(newDelta, lengthNibble)
      requires 0 <= |p.bytes| + p.diff && end + |p.bytes| + p.diff <= |b| && p.src + |p.bytes| + |p.head| <= |b|
      requires buf[..] == Splice(b, p.src + |p.bytes| + p.diff, b[p.src..end])
      modifies buf, entries, this`count
      ensures count == old(count) + 1
      ensures EntriesInserted(index, entries[..count], i, number, p) && BytesInserted(b, buf[..], end, p)
    {
      hide OptionSize;
      hide EncodeOption;
      hide HeadPart;
      hide Splice;
      hide Filled;
      hide Relocated;
      hide ExtSize;
      hide EntriesInserted;
      hide BytesInserted;
      hide InsertedEntries;
      RelocatedAt(index, mid, i, |p.bytes| + p.diff);
      assert mid[i] == entries[i];
      InsertEntry(i, diff, Entry(number, cursor, size), mid);
      EntriesDone(index, mid, i, number, p);
      ghost var moved := buf[..];
      WriteInserted(cursor, delta, value, newDelta, lengthNibble);
      BytesDone(b, moved, buf[..], end, p);
    }

    static lemma EntriesDone(index: seq<Entry>, mid: seq<Entry>, i: nat, number: nat, p: Insertion)
      requires i < |index| == |mid| && mid[..i] == index[..i] && Relocated(index[i..], mid[i..], |p.bytes| + p.diff)
      requires p.src == index[i].data && index[i].size + p.diff >= 0
      ensures mid[i].data - p.diff >= 0 && mid[i].size + p.diff >= 0
      ensures EntriesInserted(index, InsertedEntries(mid, i, p.diff, Entry(number, p.src, |p.bytes|)), i, number, p)
    {
      hide Relocated;
      RelocatedAt(index, mid, i, |p.bytes| + p.diff);
      var index' := InsertedEntries(mid, i, p.diff, Entry(number, p.src, |p.bytes|));
      assert index'[..i] == mid[..i] && index'[i + 2..] == mid[i + 1..];
    }

    static lemma BytesDone(b: seq<Byte>, moved: seq<Byte>, b': seq<Byte>, end: nat, p: Insertion)
      requires p.src <= end && 0 <= |p.bytes| + p.diff && end + |p.bytes| + p.diff <= |b| && p.src + |p.bytes| + |p.head| <= |b|
      requires moved == Splice(b, p.src + |p.bytes| + p.diff, b[p.src..end]) && b' == Filled(moved, p.src, p.bytes, p.head)
      ensures BytesInserted(b, b', end, p)
    {
      hide Splice;
      hide Filled;
    }

    /** The same branch as an edit of the option list. */
    method InsertBefore(i: nat, number: nat, value: seq<Byte>, delta: nat) returns (r: Status)
      requires Scattered() && number <= NUMBER_MAX && |value| <= UINT20_MAX && i < count < entries.Length && |opts| == count
      requires Last(0, opts[..i]) <= number <= opts[i].number && delta == number - Last(0, opts[..i])
      modifies this, buf, entries
      ensures Scattered() && buf == old(buf) && capacity == old(capacity) && Base() == old(Base())
      ensures var longer := old(opts)[..i] + [Option(number, value)] + old(opts)[i..];
              && Sorted(0, longer)
              && (r == NoBufs <==> |Encode(0, longer)| + old(Slack()) > capacity)
              && (r == Trap <==> r != NoBufs && debug && old(storageSize) == capacity)
              && (r == OutOfBuffer <==> r != NoBufs && r != Trap && old(Base()) + |Encode(0, longer)| + old(Slack()) > buf.Length)
              && (r == Ok ==> opts == longer && storageSize == |Encode(0, longer)| + old(Slack())
                              && SameOutside(old(buf[..]), buf[..], Base(), storageSize))
      ensures r != Ok ==> opts == old(opts) && buf[..] == old(buf[..]) && entries[..] == old(entries[..])
      ensures r != Ok ==> storageSize == old(storageSize) && count == old(count)
    {
      hide Sorted;
      hide Encode;
      hide EncodeOption;
      hide Last;
      hide Spread;
      hide SameOutside;
      hide InsertionAt;
      hide InsertionOf;
      hide EntriesInserted;
      hide BytesInserted;
      ScatteredSizes();
      ghost var base, end, b, index, x := Base(), Base() + storageSize, buf[..], entries[..count], Option(number, value);
      InsertReady(b, index, base, end, opts, i, x);
      ghost var p := InsertionFor(index, opts, i, x);
      hide InsertionFor;
      BytesOf(opts, i, x, p);
      r := InsertEdits(i, number, value, delta, b, index, end, p);
      if r == Ok {
        InsertedInside(b, buf[..], index, base, end, i, number, p);
        InsertSpread(b, buf[..], index, entries[..count], base, end, opts, i, x, p);
        FrontStays(b, buf[..], entries[..count], base, end + |p.bytes| + p.diff, opts[..i] + [x] + opts[i..]);
        opts := opts[..i] + [x] + opts[i..];
      } else {
        assert entries[..count] == entries[..][..count] == index;
      }
    }

    static lemma BytesOf(opts: seq<Option>, i: nat, x: Option, p: Insertion)
      requires InsertionOf(opts, i, x, p)
      ensures p.bytes == EncodeOption(x.number - Last(0, opts[..i]), x.value)
    {
    }

    static lemma FrontStays(b: seq<Byte>, b': seq<Byte>, index': seq<Entry>, at: nat, end: nat, opts: seq<Option>)
      requires Spread(b', index', at, end, opts) && opts != []
      ensures |index'| == |opts| && index'[0].data == at
    {
    }

    /**
     * `unicoap_options_add`, also on a store in which bytes in use belong to no option. As many of them stay behind as before;
     * if there is no option, the storage begins behind them from then on, and nothing checks that it still ends in the buffer.
     */
    method Add(number: nat, value: seq<Byte>) returns (r: Status)
      requires Scattered() && number <= NUMBER_MAX && |value| <= UINT20_MAX
      modifies this, buf, entries
      ensures Scattered() && buf == old(buf) && capacity == old(capacity)
      ensures var longer := Insert(old(opts), Option(number, value));
              && Sorted(0, longer)
              && (r == NoBufs <==> |old(opts)| == entries.Length || |Encode(0, longer)| + old(Slack()) > capacity)
              && (r == Trap <==> r != NoBufs && debug && old(storageSize) == capacity && number < Last(0, old(opts)))
              && (r == OutOfBuffer <==> r != NoBufs && r != Trap && old(Base()) + |Encode(0, longer)| + old(Slack()) > buf.Length)
              && (r == Ok ==> opts == longer && Slack() == old(Slack())
                              && Base() == old(Base()) + (if old(opts) == [] then Slack() else 0)
                              && SameOutside(old(buf[..]), buf[..], old(Base()), storageSize))
      ensures r != Ok ==> opts == old(opts) && buf[..] == old(buf[..]) && entries[..] == old(entries[..])
      ensures r != Ok ==> storageSize == old(storageSize) && count == old(count)
    {
      hide Sorted;
      hide Encode;
      hide Last;
      hide OptionSize;
      hide InsertPos;
      hide SameOutside;
      hide Spread;
      hide OptionStore.Scattered;
      hide OptionStore.Slack;
      ScatteredSizes();
      InsertShape(opts, Option(number, value));
      if opts == [] { UnfoldNil(0, 0); }
      if count >= entries.Length {
        return NoBufs;
      }
      var i := CountUpTo(number);
      var delta := DeltaBehind(i, number);
      if i == count {
        r := Append(number, value, delta);
      } else {
        r := InsertBefore(i, number, value, delta);
      }
      ScatteredSizes();
    }

    /** The search loop of `unicoap_options_add`. */
    method CountUpTo(number: nat) returns (i: nat)
      requires Scattered()
      ensures i == InsertPos(opts, number) <= count
    {
      hide Sorted;
      hide Encode;
      hide OptionStore.Scattered;
      ScatteredSizes();
      i := 0;
      while i < count && entries[i].number <= number
        invariant i <= count
        invariant forall k :: 0 <= k < i ==> opts[k].number <= number
      {
        NumberAt(i);
        i := i + 1;
      }
      if i < count {
        NumberAt(i);
      }
    }

    /** The branch of `unicoap_options_set` that re-encodes option `i`, as edits of bytes and entries. */
    method SetEdits(i: nat, delta: nat, value: seq<Byte>, ghost b: seq<Byte>, ghost index: seq<Entry>,
                    ghost src: nat, ghost rest: nat, ghost end: nat, ghost e: seq<Byte>, ghost total: int)
        returns (r: Status)
      requires Shape() && i < count && delta <= UINT20_MAX && |value| <= UINT20_MAX && e == EncodeOption(delta, value)
      requires b == buf[..] && index == entries[..count] && end == Base() + storageSize && Base() <= src
      requires src == index[i].data && rest == src + index[i].size <= end && total == src + |e| - rest
      requires if i + 1 < count then index[i + 1].data == rest < end else rest == end
      requires forall k :: i < k < count ==> index[k].data >= rest
      modifies buf, entries, this`storageSize
      ensures r == NoBufs <==> old(storageSize) + total > capacity
      ensures r == Trap <==> r != NoBufs && debug && old(storageSize) == capacity && i + 1 < count
      ensures r != Ok ==> buf[..] == b && entries[..] == old(entries[..]) && storageSize == old(storageSize)
      ensures r == Ok ==> storageSize == old(storageSize) + total
      ensures r == Ok ==> ReplacedEntries(index, entries[..count], i, |e|, total) && ReplacedBytes(b, buf[..], src, rest, end, total, e)
      ensures r != OutOfBuffer
    {
      hide OptionSize;
      hide EncodeOption;
      hide Splice;
      hide Relocated;
      hide ReplacedEntries;
      hide ReplacedBytes;
      BehindRest(index, i, rest, total);
      assert i + 1 < count ==> entries[i + 1].data == rest;
      var size := OptionSize(delta, |value|);
      var diff := size - entries[i].size;
      assert diff == total;
      r := ShiftOptions(i + 1, diff, b, rest, end);
      if r != Ok {
        return;
      }
      ghost var moved, mid := buf[..], entries[..count];
      assert moved == if rest == end then b else Splice(b, rest + total, b[rest..end]);
      Front(mid, index, i);
      Replaced(index, mid, i, |e|, total);
      Rewrite(i, delta, value, size, mid, moved);
      Rewritten(b, moved, buf[..], src, rest, end, total, e);
    }

    /** Writes the new size into the entry, and the new option where it points. */
    method Rewrite(i: nat, delta: nat, value: seq<Byte>, size: nat, ghost mid: seq<Entry>, ghost moved: seq<Byte>)
      requires i < count <= entries.Length && mid == entries[..count] && moved == buf[..] && delta <= UINT20_MAX && |value| <= UINT20_MAX
      requires entries[i].data + OptionSize(delta, |value|) <= buf.Length
      modifies entries, buf
      ensures entries[..count] == mid[i := mid[i].(size := size)] && buf[..] == Splice(moved, mid[i].data, EncodeOption(delta, value))
    {
      hide OptionSize;
      hide EncodeOption;
      hide Splice;
      entries[i] := entries[i].(size := size);
      assert entries[..count] == mid[i := mid[i].(size := size)];
      var _ := WriteOption(buf, entries[i].data, delta, value);
    }

    static lemma BehindRest(index: seq<Entry>, i: nat, rest: nat, total: int)
      requires i < |index| && 0 <= rest + total && forall k :: i < k < |index| ==> index[k].data >= rest
      ensures forall k :: i + 1 <= k < |index| ==> index[k].data + total >= 0
    {
    }

    static lemma Rewritten(b: seq<Byte>, moved: seq<Byte>, b': seq<Byte>, src: nat, rest: nat, end: nat, total: int, e: seq<Byte>)
      requires rest <= end <= |b| && 0 <= rest + total && end + total <= |b| && src + |e| <= |b| == |moved|
      requires moved == (if rest == end then b else Splice(b, rest + total, b[rest..end])) && b' == Splice(moved, src, e)
      ensures ReplacedBytes(b, b', src, rest, end, total, e)
    {
      hide Splice;
    }

    /** The same branch as an edit of the option list `a + [o] + c`. */
    method SetAt(i: nat, number: nat, value: seq<Byte>, delta: nat, ghost a: seq<Option>, ghost o: Option, ghost c: seq<Option>)
        returns (r: Status)
      requires Valid() && |value| <= UINT20_MAX && number == o.number
      requires i < count && i == |a| && opts == a + [o] + c
      requires Sorted(0, a) && Last(0, a) <= o.number && OptionOk(o) && Sorted(o.number, c)
      requires delta == number - Last(0, a)
      modifies this, buf, entries
      ensures Valid() && buf == old(buf) && capacity == old(capacity) && Base() == old(Base())
      ensures SameOutside(old(buf[..]), buf[..], Base(), capacity)
      ensures r == Ok ==> opts == a + [Option(number, value)] + c
      ensures r != Ok ==> opts == old(opts) && buf[..] == old(buf[..]) && entries[..] == old(entries[..])
      ensures Sorted(0, a + [Option(number, value)] + c)
      ensures r == NoBufs <==> |Encode(0, a + [Option(number, value)] + c)| > capacity
      ensures r == Trap <==> r != NoBufs && debug && old(storageSize) == capacity && c != []
      ensures r != OutOfBuffer
    {
      hide Sorted;
      hide Encode;
      hide OptionSize;
      hide EncodeOption;
      hide Last;
      hide Splice;
      hide Represents;
      hide Relocated;
      hide SameOutside;
      hide OptionStore.Valid;
      hide ReplacedEntries;
      hide ReplacedBytes;
      ValidParts();
      ghost var x := Option(number, value);
      ghost var base, end, b, index := Base(), Base() + storageSize, buf[..], entries[..count];
      SetPlan(b, index, base, end, a, o, x, c);
      ghost var src, rest, e := index[i].data, index[i].data + index[i].size, EncodeOption(delta, value);
      ghost var total := src + |e| - rest;
      r := SetEdits(i, delta, value, b, index, src, rest, end, e, total);
      if r == Ok {
        opts := a + [x] + c;
        SetDone(b, index, base, end, capacity, a, o, x, c, src, rest, e, total, entries[..count], buf[..]);
        assert Base() == entries[..count][0].data == base && base + storageSize == end + total;
        ValidIff();
      } else {
        NothingChanged(b, base, capacity);
        StillValid();
      }
    }

    /** `unicoap_options_set`. */
    method Set(number: nat, value: seq<Byte>) returns (r: Status)
      requires Valid() && number <= NUMBER_MAX && |value| <= UINT20_MAX
      modifies this, buf, entries
      ensures Valid() && buf == old(buf) && capacity == old(capacity) && Base() == old(Base())
      ensures SameOutside(old(buf[..]), buf[..], Base(), capacity)
      ensures Sorted(0, Update(old(opts), Option(number, value)))
      ensures r == Ok ==> opts == Update(old(opts), Option(number, value))
      ensures r != Ok ==> opts == old(opts) && buf[..] == old(buf[..]) && entries[..] == old(entries[..])
      ensures r == NoBufs <==>
                || (FindFirst(old(opts), number) < 0 && |old(opts)| == entries.Length)
                || |Encode(0, Update(old(opts), Option(number, value)))| > capacity
      ensures r == Trap <==>
                && r != NoBufs && debug && old(storageSize) == capacity
                && if FindFirst(old(opts), number) < 0 then number < Last(0, old(opts))
                   else FindFirst(old(opts), number) + 1 < |old(opts)|
      ensures r != OutOfBuffer
    {
      hide Sorted;
      hide Encode;
      hide Last;
      hide Insert;
      hide FindFirst;
      hide SameOutside;
      hide OptionStore.Valid;
      hide OptionStore.Scattered;
      hide OptionStore.Slack;
      ValidScattered();
      var i := FindIndex(number);
      if i < 0 {
        ghost var b, size := buf[..], storageSize;
        r := Add(number, value);
        ScatteredSizes();
        IntactIff();
        if r == Ok { OutsideWider(b, buf[..], Base(), storageSize, capacity); } else { NothingChanged(b, Base(), capacity); }
      } else {
        UpdateShape(opts, i, Option(number, value));
        var delta := DeltaBehind(i, number);
        r := SetAt(i, number, value, delta, opts[..i], opts[i], opts[i + 1..]);
      }
    }

    /** The sizes that `unicoap_options_remove_all` adds up over the entries it is about to drop. */
    method RunSize(i: nat, j: nat) returns (size: nat)
      requires i <= j < count <= entries.Length && Contiguous(entries[..count])
      ensures size == entries[j].data - entries[i].data
    {
      size := 0;
      for k := i to j
        invariant size == entries[k].data - entries[i].data
      {
        assert entries[..count][k + 1] == entries[k + 1] && entries[..count][k] == entries[k];
        size := size + entries[k].size;
      }
    }

    /** Entry `j`, resized, moves to the place of entry `i`, and those behind it come along. */
    method CloseGap(i: nat, j: nat, diff: int)
      requires i < j < count <= entries.Length && entries[j].size + diff >= 0
      modifies entries, this`count
      ensures count == old(count) - (j - i) > i
      ensures var index := old(entries[..count]);
              entries[..count] == index[..i] + [Entry(index[j].number, index[i].data, index[j].size + diff)] + index[j + 1..]
    {
      ghost var index := entries[..count];
      ghost var e := Entry(index[j].number, index[i].data, index[j].size + diff);
      entries[j] := entries[j].(data := entries[i].data, size := entries[j].size + diff);
      ghost var kept := entries[..count];
      assert kept == index[j := e];
      assert entries[..i] == kept[..i] && entries[j..count] == kept[j..];
      ShiftEntries(j, -(j - i));
      assert kept[j..] == [e] + index[j + 1..] && kept[..i] == index[..i];
    }

    /** Entry work of a removal: entry `j` takes the place of entry `i`, those behind it follow `total` bytes away. */
    method DropEntries(i: nat, j: nat, diff: int, total: int)
      requires i < j < count <= entries.Length && entries[j].size + diff >= 0
      requires forall k :: j < k < count ==> entries[k].data + total >= 0
      modifies entries, this`count
      ensures count == old(count) - (j - i) > 0
      ensures entries[..count][..i] == old(entries[..count])[..i]
      ensures entries[..count][i] == Entry(old(entries[j].number), old(entries[i].data), old(entries[j].size) + diff)
      ensures Relocated(old(entries[..count])[j + 1..], entries[..count][i + 1..], total)
    {
      hide Relocated;
      ghost var index := entries[..count];
      CloseGap(i, j, diff);
      ghost var mid := entries[..count];
      assert mid[i + 1..] == index[j + 1..] && mid[..i] == index[..i];
      forall k | i + 1 <= k < count ensures entries[k].data + total >= 0 {
        assert entries[k] == mid[i + 1..][k - i - 1] == index[k + (j - i)];
      }
      UpdateEntries(i + 1, total);
      assert entries[..count][..i + 1] == mid[..i + 1];
      Front(entries[..count], mid, i);
    }

    static lemma Front(done: seq<Entry>, mid: seq<Entry>, i: nat)
      requires i < |mid| == |done| && done[..i + 1] == mid[..i + 1]
      ensures done[..i] == mid[..i] && done[i] == mid[i]
    {
      assert done[i] == done[..i + 1][i];
    }

    /** Byte work of a removal: move the rest back, write the head of the successor in front of it. */
    method MoveBack(cursor: nat, total: int, dest: nat, newDelta: nat, lengthNibble: Nibble, ghost end: nat)
      requires Shape() && end == Base() + storageSize && Base() <= cursor <= end && 0 <= cursor + total && end + total <= buf.Length
      requires newDelta <= UINT20_MAX && dest + 1 + ExtSize(newDelta) <= buf.Length
      modifies buf
      ensures buf[..] == Splice(Splice(old(buf[..]), cursor + total, old(buf[..])[cursor..end]), dest, HeadPart(newDelta, lengthNibble))
    {
      hide HeadPart;
      hide Splice;
      hide ExtSize;
      var remainder := storageSize - (cursor - entries[0].data);
      assert cursor + remainder == end && buf[cursor..cursor + remainder] == buf[..][cursor..end];
      MemMove(buf, cursor + total, cursor, remainder);
      var _ := WriteHeadPartial(buf, dest, newDelta, lengthNibble);
    }

    /** What `unicoap_options_remove_all` computes before it writes: the successor's new delta and old nibbles, and the size changes. */
    method RemovalNumbers(i: nat, j: nat) returns (newDelta: nat, head: Byte, diff: int, total: int)
      requires Shape() && i < j < count && Contiguous(entries[..count]) && entries[j].data < buf.Length
      requires (i > 0 ==> entries[i - 1].number <= entries[j].number) && entries[j].number <= NUMBER_MAX
      ensures newDelta == entries[j].number - (if i > 0 then entries[i - 1].number else 0) <= NUMBER_MAX
      ensures head == buf[entries[j].data]
      ensures diff == ExtSize(newDelta) - NibbleExtSize(head / 16)
      ensures total == diff - (entries[j].data - entries[i].data)
    {
      hide Contiguous;
      head := buf[entries[j].data];
      newDelta := entries[j].number - if i > 0 then entries[i - 1].number else 0;
      diff := ExtSize(newDelta) - NibbleExtSize(head / 16);
      var run := RunSize(i, j);
      total := diff - run;
    }

    static lemma Closed(b: seq<Byte>, b': seq<Byte>, end: nat, p: Removal)
      requires p.rest <= end <= |b| && 0 <= p.rest + p.total && end + p.total <= |b| && p.src + |p.h| <= |b|
      requires b' == Splice(Splice(b, p.rest + p.total, b[p.rest..end]), p.src, p.h)
      ensures RemovedBytes(b, b', end, p)
    {
      hide Splice;
    }

    static lemma Dropped(index: seq<Entry>, index': seq<Entry>, i: nat, j: nat, p: Removal)
      requires i < j < |index| && |index'| == |index| - (j - i) && index[j].size + p.diff >= 0
      requires index'[..i] == index[..i] && index'[i] == Entry(index[j].number, p.src, index[j].size + p.diff)
      requires Relocated(index[j + 1..], index'[i + 1..], p.total)
      ensures RemovedEntries(index, index', i, j, p)
    {
      hide Relocated;
    }

    /** The branch of `unicoap_options_remove_all` with a successor, as edits of bytes and entries. */
    method RemoveEdits(i: nat, j: nat, ghost b: seq<Byte>, ghost index: seq<Entry>, ghost end: nat, ghost p: Removal)
        returns (r: Status)
      requires Shape() && b == buf[..] && index == entries[..count] && end == Base() + storageSize
      requires RemovalAt(b, index, Base(), end, i, j, p)
      modifies buf, entries, this`count, this`storageSize
      ensures r == if old(storageSize) + p.total > capacity then NoBufs else Ok
      ensures r != Ok ==> buf[..] == b && entries[..] == old(entries[..]) && storageSize == old(storageSize) && count == old(count)
      ensures r == Ok ==> storageSize == old(storageSize) + p.total && 0 < count <= entries.Length
      ensures r == Ok ==> RemovedEntries(index, entries[..count], i, j, p) && RemovedBytes(b, buf[..], end, p)
    {
      hide Splice;
      hide Contiguous;
      hide HeadPart;
      hide ExtSize;
      hide NibbleExtSize;
      hide RemovedEntries;
      hide RemovedBytes;
      assert entries[i] == index[i] && entries[j] == index[j] && (i > 0 ==> entries[i - 1] == index[i - 1]);
      var newDelta, head, diff, total := RemovalNumbers(i, j);
      assert diff == p.diff && total == p.total && head == b[p.next] && HeadPart(newDelta, head % 16) == p.h;
      var newSize := storageSize + total;
      if newSize > capacity {
        return NoBufs;
      }
      WriteRemoval(i, j, newDelta, head, diff, total, b, index, end, p);
      storageSize := newSize;
      r := Ok;
    }

    /** The writes of that branch: the kept bytes, the new head, the entries. */
    method WriteRemoval(i: nat, j: nat, newDelta: nat, head: Byte, diff: int, total: int,
                        ghost b: seq<Byte>, ghost index: seq<Entry>, ghost end: nat, ghost p: Removal)
      requires Shape() && b == buf[..] && index == entries[..count] && end == Base() + storageSize && RemovalAt(b, index, Base(), end, i, j, p)
      requires newDelta <= UINT20_MAX && diff == p.diff && total == p.total && head == b[p.next] && HeadPart(newDelta, head % 16) == p.h
      requires storageSize + total <= capacity
      modifies buf, entries, this`count
      ensures 0 < count <= entries.Length
      ensures RemovedEntries(index, entries[..count], i, j, p) && RemovedBytes(b, buf[..], end, p)
    {
      hide Splice;
      hide Relocated;
      hide Contiguous;
      hide HeadPart;
      hide ExtSize;
      hide NibbleExtSize;
      hide RemovedEntries;
      hide RemovedBytes;
      assert entries[i] == index[i] && entries[j] == index[j];
      assert p.src + |p.h| == p.rest + p.total <= end + p.total <= Base() + capacity;
      var cursor := entries[j].data + 1 + NibbleExtSize(head / 16);
      assert cursor == p.rest && entries[i].data == p.src;
      MoveBack(cursor, total, entries[i].data, newDelta, head % 16, end);
      Closed(b, buf[..], end, p);
      DropEntries(i, j, diff, total);
      Dropped(index, entries[..count], i, j, p);
    }

    /** The scan of `unicoap_options_remove_all` for the first entry with another number. */
    method ScanRun(i: nat, number: nat) returns (next: nat)
      requires Valid() && i < count && i == FindFirst(opts, number)
      ensures IsRun(opts, number, i, next)
    {
      hide Sorted;
      hide Encode;
      hide FindFirst;
      hide OptionStore.Valid;
      hide OptionStore.Scattered;
      ValidScattered();
      next := i + 1;
      while next < count && entries[next].number == number
        invariant i < next <= count
        invariant forall k :: i <= k < next ==> opts[k].number == number
      {
        NumberAt(next);
        next := next + 1;
      }
      if next < count {
        NumberAt(next);
      }
    }

    static lemma SizeOf(b: seq<Byte>, index: seq<Entry>, at: nat, end: nat, opts: seq<Option>, i: nat)
      requires Spread(b, index, at, end, opts) && i < |opts|
      ensures |index| == |opts| && OptionOk(opts[i]) && 0 <= DeltaAt(opts, i) <= NUMBER_MAX
      ensures index[i].size == OptionSize(DeltaAt(opts, i), |opts[i].value|)
    {
      hide Sorted;
      assert Stands(b, index[i], opts, i);
    }

    /** The trailing branch of `unicoap_options_remove_all`; it gives back the size of entry `i` only. */
    method DropTail(i: nat, ghost a: seq<Option>, ghost run: seq<Option>)
      requires Valid() && i == |a| && opts == a + run && run != []
      modifies this
      ensures Shape() && Scattered() && buf == old(buf) && capacity == old(capacity) && opts == a
      ensures Valid() <==> |run| == 1
      ensures OptionOk(run[0]) && 0 <= DeltaAt(a + run, i) <= NUMBER_MAX && Sorted(0, a + run)
      ensures storageSize == |Encode(0, a + run)| - OptionSize(DeltaAt(a + run, i), |run[0].value|)
    {
      hide Sorted;
      hide Encode;
      hide Represents;
      hide Spread;
      hide Stands;
      hide OptionSize;
      ghost var index, base, end := entries[..count], Base(), Base() + storageSize;
      TrailingCut(buf[..], index, base, end, a, run);
      assert entries[i] == index[i];
      ValidScattered();
      ghost var was := opts;
      SizeOf(buf[..], index, base, end, was, i);
      storageSize := storageSize - entries[i].size;
      count := i;
      opts := a;
      assert entries[..count] == index[..|a|];
      PackedSpread(buf[..], entries[..count], base, base + |Encode(0, a)|, base + storageSize, a);
      IntactIff();
    }

    /** The branch with a successor as an edit of the option list `a + run + [s] + c`. */
    method CutOut(i: nat, j: nat, ghost a: seq<Option>, ghost run: seq<Option>, ghost s: Option, ghost c: seq<Option>)
        returns (r: Status)
      requires Valid() && i == |a| && run != [] && j == |a| + |run| < count && opts == a + run + ([s] + c)
      requires Sorted(0, a) && Sorted(Last(0, a), run)
      modifies this, buf, entries
      ensures Valid() && buf == old(buf) && capacity == old(capacity) && Base() == old(Base())
      ensures SameOutside(old(buf[..]), buf[..], Base(), capacity)
      ensures Sorted(0, a + [s] + c)
      ensures r == if |Encode(0, a + [s] + c)| > capacity then NoBufs else Ok
      ensures r == Ok ==> opts == a + [s] + c
      ensures r != Ok ==> opts == old(opts) && buf[..] == old(buf[..]) && entries[..] == old(entries[..])
    {
      hide Sorted;
      hide Encode;
      hide Index;
      hide OptionSize;
      hide ExtSize;
      hide NibbleFor;
      hide HeadPart;
      hide Last;
      hide Splice;
      hide Represents;
      hide Relocated;
      hide Contiguous;
      hide SameOutside;
      hide OptionStore.Valid;
      hide RemovalAt;
      hide RemovalOf;
      hide RemovedEntries;
      hide RemovedBytes;
      ValidParts();
      ghost var base, end, b, index := Base(), Base() + storageSize, buf[..], entries[..count];
      ghost var p := RemoveReady(b, index, base, end, a, run, s, c);
      r := RemoveEdits(i, j, b, index, end, p);
      if r == Ok {
        opts := a + [s] + c;
        RemoveDone(b, index, entries[..count], base, end, capacity, a, run, s, c, p, buf[..]);
        assert Base() == entries[..count][0].data == base && base + storageSize == end + p.total;
        assert Represents(buf[..][Base()..Base() + storageSize], entries[..count], Base(), opts);
        ValidIff();
      } else {
        NothingChanged(b, base, capacity);
        StillValid();
      }
    }

    /** `unicoap_options_remove_all` for a number whose first entry is `i`. */
    method RemoveRun(i: nat, number: nat) returns (r: Status)
      requires Valid() && i < |opts| && i == FindFirst(opts, number)
      modifies this, buf, entries
      ensures Shape() && Scattered() && buf == old(buf) && capacity == old(capacity) && Base() == old(Base())
      ensures SameOutside(old(buf[..]), buf[..], Base(), capacity)
      ensures Sorted(0, Without(old(opts), number))
      ensures r == Ok || (r == NoBufs && |Encode(0, Without(old(opts), number))| > capacity)
      ensures r != Ok ==> Valid() && opts == old(opts) && buf[..] == old(buf[..]) && entries[..] == old(entries[..])
      ensures r == Ok ==> opts == Without(old(opts), number) && (Valid() <==> !TrailingRepeat(old(opts), number))
      ensures Sorted(0, old(opts)) && (r == Ok ==> Slack() == LeftBehind(old(opts), number))
    {
      hide Sorted;
      hide Encode;
      hide Last;
      hide Without;
      hide FindFirst;
      hide SameOutside;
      hide TrailingRepeat;
      hide IsRun;
      hide OptionStore.Slack;
      hide OptionStore.Valid;
      hide OptionStore.Scattered;
      ValidScattered();
      NothingChanged(buf[..], Base(), capacity);
      var next := ScanRun(i, number);
      RunParts(opts, number, i, next);
      ghost var a, run := opts[..i], opts[i..next];
      if next == count {
        DropTail(i, a, run);
        ScatteredSizes();
        IntactIff();
        assert a + run == old(opts);
        return Ok;
      }
      r := CutOut(i, next, a, run, opts[next], opts[next + 1..]);
      ValidScattered();
    }

    /**
     * `unicoap_options_remove_all`. It never fails: the branch without buffer space is dead. A repeated number at the very
     * end leaves bytes behind; nothing else does.
     */
    method RemoveAll(number: nat) returns (r: Status)
      requires Valid()
      modifies this, buf, entries
      ensures Shape() && Scattered() && buf == old(buf) && capacity == old(capacity) && Base() == old(Base())
      ensures SameOutside(old(buf[..]), buf[..], Base(), capacity)
      ensures r == Ok && Sorted(0, Without(old(opts), number)) && opts == Without(old(opts), number)
      ensures Valid() <==> !TrailingRepeat(old(opts), number)
      ensures Sorted(0, old(opts)) && Slack() == LeftBehind(old(opts), number)
    {
      hide Sorted;
      hide Encode;
      hide Without;
      hide FindFirst;
      hide TrailingRepeat;
      hide OptionStore.Slack;
      hide OptionStore.Valid;
      hide OptionStore.Scattered;
      hide SameOutside;
      ValidScattered();
      NothingChanged(buf[..], Base(), capacity);
      RemovalNeverGrows(opts, number);
      var i := FindIndex(number);
      if i < 0 {
        NotFoundNoRepeat(opts, number);
        return Ok;
      }
      r := RemoveRun(i, number);
    }

    /** The loop of `unicoap_options_swap_storage`: new positions are running sums of the sizes. */
    method Rebase(ghost base: nat, at: nat)
      requires 0 < count <= entries.Length && Contiguous(entries[..count]) && entries[0].data == base
      modifies entries
      ensures Relocated(old(entries[..count]), entries[..count], at - base)
    {
      ghost var index := entries[..count];
      var offset := 0;
      for i := 0 to count
        invariant offset == (if i == 0 then 0 else index[i - 1].data + index[i - 1].size - base)
        invariant forall k :: 0 <= k < i ==> index[k].data >= base && entries[k] == Shifted(index[k], at - base)
        invariant forall k :: i <= k < count ==> entries[k] == index[k]
      {
        assert i > 0 ==> index[i - 1].data + index[i - 1].size == index[i - 1 + 1].data;
        entries[i] := entries[i].(data := at + offset);
        offset := offset + entries[i].size;
      }
    }

    /** `unicoap_options_swap_storage`: copies the bytes out and re-bases every entry; an empty store stays where it is. */
    method SwapStorage(destination: array<Byte>, at: nat, newCapacity: nat) returns (r: Status)
      requires Valid() && at + newCapacity <= destination.Length
      requires destination != buf || at + storageSize <= Base() || Base() + storageSize <= at
      modifies this, destination, entries
      ensures Valid() && opts == old(opts)
      ensures r == NoBufs <==> |Encode(0, opts)| > newCapacity && opts != []
      ensures r != Trap && r != OutOfBuffer
      ensures r != Ok || opts == [] ==> buf == old(buf) && capacity == old(capacity) && destination[..] == old(destination[..])
                                        && entries[..] == old(entries[..])
      ensures r == Ok && opts != [] ==> buf == destination && capacity == newCapacity && Base() == at
                                        && destination[..] == Splice(old(destination[..]), at, old(Packed()))
    {
      hide Sorted;
      hide Encode;
      hide Index;
      hide Splice;
      ghost var index, base, packed := entries[..count], Base(), Packed();
      RepresentsSizes(packed, index, base, opts);
      if storageSize == 0 {
        return Ok;
      }
      if storageSize > newCapacity {
        return NoBufs;
      }
      assert opts != [] by {
        UnfoldNil(0, 0);
      }
      capacity := newCapacity;
      assert buf[entries[0].data..entries[0].data + storageSize] == packed;
      MemCpy(destination, at, buf[entries[0].data..entries[0].data + storageSize]);
      IndexContiguous(0, base, opts);
      IndexFirst(0, base, opts);
      Rebase(base, at);
      buf := destination;
      RelocatedIndex(0, base, at, opts, entries[..count]);
      IndexFirst(0, at, opts);
      assert entries[0] == entries[..count][0];
      r := Ok;
    }

    // ---------------------------------------------------------------- lookup

    /** Where the value of entry `i` begins. */
    ghost function ValueAt(i: nat): int
      requires i < count <= entries.Length && i < |opts|
      reads this, entries
    {
      entries[i].data + entries[i].size - |opts[i].value|
    }

    /** `_uint_read`: no bounds check; -1 for a reserved nibble. */
    method ReadExtAt(nibble: Nibble, cursor: nat) returns (value: int, cursor': nat)
      requires cursor + NibbleExtSize(nibble) <= buf.Length
      ensures nibble == 15 ==> value == -1
      ensures nibble < 15 ==> cursor' == cursor + NibbleExtSize(nibble)
      ensures nibble < 15 ==> value >= 0 && ReadExt(nibble, buf[cursor..]) == Ext(value, NibbleExtSize(nibble))
    {
      if nibble < 13 {
        value, cursor' := nibble, cursor;
      } else if nibble == 13 {
        value, cursor' := 13 + buf[cursor] as int, cursor + 1;
      } else if nibble == 14 {
        value, cursor' := 14 + 0xff + 256 * (buf[cursor] as int) + buf[cursor + 1] as int, cursor + 2;
      } else {
        value, cursor' := -1, cursor;
      }
    }

    /** What a read of option `i` finds. */
    ghost predicate Reads(i: nat, r: Lookup)
      requires i < count <= entries.Length && i < |opts|
      reads this, entries, buf
    {
      r.Found? && ReadAt(buf[..], entries[i], opts, i, r.offset, r.size)
    }

    /** `_read_option` on entry `i`. It takes the width of the delta nibble as if the nibble were the delta itself. */
    method ReadEntry(i: nat) returns (r: Lookup)
      requires Valid() && i < count
      ensures |opts| == count && OptionOk(opts[i]) && r.Found? && Reads(i, r)
    {
      hide Sorted;
      hide Encode;
      hide Index;
      hide Represents;
      hide ReadExt;
      hide ReadAt;
      hide OptionOk;
      ghost var b, index := buf[..], entries[..count];
      RepresentsSizes(Packed(), index, Base(), opts);
      assert entries[i] == index[i];
      ReadPlan(b, index, Base(), Base() + storageSize, opts, i);
      var cursor := entries[i].data;
      var head := buf[cursor];
      cursor := cursor + 1;
      var deltaSize := ExtSize(head / 16);
      if deltaSize < 0 {
        return BadOpt;
      }
      cursor := cursor + deltaSize;
      assert buf[cursor..] == b[cursor..];
      var size;
      size, cursor := ReadExtAt(head % 16, cursor);
      if size < 0 {
        return BadOpt;
      }
      ReadFinds(b, index, Base(), Base() + storageSize, opts, i, cursor, size, NibbleExtSize(head % 16));
      r := Found(cursor, size);
    }

    /** `unicoap_options_get`. */
    method Get(number: nat) returns (r: Lookup)
      requires Valid()
      ensures r == NotFound <==> FindFirst(opts, number) < 0
      ensures var i := FindFirst(opts, number); i >= 0 ==> |opts| == count && Reads(i, r)
    {
      hide FindFirst;
      hide Reads;
      RepresentsSizes(Packed(), entries[..count], Base(), opts);
      hide Represents;
      var i := FindIndex(number);
      if i < 0 {
        return NotFound;
      }
      r := ReadEntry(i);
    }

    // ---------------------------------------------------------------- parsing

    /** The store while `done` has been read up to `cursor`. */
    ghost predicate Reading(pdu: array<Byte>, start: nat, cursor: nat, done: seq<Raw>)
      reads `buf, `count, `storageSize, entries, pdu
    {
      && start <= cursor <= pdu.Length && buf == pdu && count == |done| <= entries.Length && entries.Length > 0
      && RawsOk(done) && pdu[start..cursor] == EncodeRaws(done) && storageSize == |EncodeRaws(done)|
      && entries[..count] == RawIndex(0, start, done) && entries[0].data == start
    }

    /** One round of the parsing loop behind the reading of option `r`. */
    method StoreParsed(number: nat, optionStart: nat, cursor: nat, ghost pdu: array<Byte>, ghost start: nat, ghost done: seq<Raw>, ghost r: Raw)
      requires Reading(pdu, start, optionStart, done) && RawOk(r) && count < entries.Length
      requires optionStart <= cursor <= pdu.Length && pdu[optionStart..cursor] == EncodeOption(r.delta, r.value)
      requires number == NextNumber(LastNumber(0, done), r.delta)
      modifies this`count, this`storageSize, entries
      ensures Reading(pdu, start, cursor, done + [r]) && LastNumber(0, done + [r]) == number && count == old(count) + 1 <= entries.Length
    {
      hide EncodeOption;
      hide OptionSize;
      hide NextNumber;
      hide RawsOk;
      hide EncodeRaws;
      hide RawIndex;
      hide LastNumber;
      RawsAppend(done, r);
      RawIndexAppend(0, start, done, r);
      LastNumberAppend(0, done, r);
      ghost var index := entries[..count];
      entries[count] := Entry(number, optionStart, cursor - optionStart);
      storageSize := storageSize + (cursor - optionStart);
      count := count + 1;
      assert entries[..count] == index + [Entry(number, optionStart, cursor - optionStart)];
      assert pdu[start..cursor] == pdu[start..optionStart] + pdu[optionStart..cursor];
      assert start + |EncodeRaws(done)| == optionStart;
      assert count - 1 == 0 ==> start == optionStart by {
        if |done| == 0 { assert done == []; RawsNone(); }
      }
    }

    /** The bytes up to `cursor` have been read, and what the rest parses to decides about the whole. */
    ghost predicate Progress(pdu: array<Byte>, start: nat, end: nat, cursor: nat, number: nat, done: seq<Raw>)
      reads `buf, `count, `storageSize, entries, pdu
    {
      && start <= cursor <= end <= pdu.Length && Reading(pdu, start, cursor, done) && number == LastNumber(0, done)
      && Parse(pdu[start..end], entries.Length) == Resume(done, Parse(pdu[cursor..end], entries.Length - count))
    }

    /** Reading ends with no more bytes, at the marker, or at a bad option. */
    lemma ProgressEnds(pdu: array<Byte>, start: nat, end: nat, cursor: nat, number: nat, done: seq<Raw>)
      requires Progress(pdu, start, end, cursor, number, done)
      ensures start <= end <= pdu.Length && cursor == start + storageSize && count == |done| <= entries.Length
      ensures Reading(pdu, start, start + storageSize, done)
      ensures var p := Parse(pdu[start..end], entries.Length);
              if cursor == end then p == Parsed(done, NoMarker)
              else match ReadOption(pdu[cursor..end])
                case Marker => p == Parsed(done, Payload(pdu[cursor + 1..end]))
                case BadOption => p == BadBytes
                case Got(_, _, _) => count == entries.Length ==> p == TooMany
    {
      hide ReadOption;
      hide Parse;
      hide Resume;
      hide LastNumber;
      hide OptionStore.Reading;
      ReadingSize(pdu, start, cursor, done);
      var rest, room := pdu[cursor..end], entries.Length - count;
      if cursor == end {
        assert rest == [];
        ResumeEnd(done, room);
      } else {
        assert rest[1..] == pdu[cursor + 1..end];
        match ReadOption(rest)
        case Marker => ResumeMarker(done, rest, room);
        case BadOption => ResumeBad(done, rest, room);
        case Got(_, _, _) => var _ := ResumeOption(done, rest, room);
      }
    }

    /** One round of the loop: the option that ends at `cursor` is entered. */
    method EnterOption(pdu: array<Byte>, optionStart: nat, cursor: nat, number: nat, delta: nat,
                       ghost start: nat, ghost end: nat, ghost done: seq<Raw>) returns (number': nat, ghost done': seq<Raw>)
      requires Progress(pdu, start, end, optionStart, number, done) && optionStart < end && count < entries.Length
      requires var o := ReadOption(pdu[optionStart..end]); o.Got? && delta == o.delta % 0x1_0000 && cursor == optionStart + o.used <= end
      modifies this`count, this`storageSize, entries
      ensures optionStart < cursor && Progress(pdu, start, end, cursor, number', done')
    {
      hide ReadOption;
      hide EncodeOption;
      hide NextNumber;
      hide LastNumber;
      hide Parse;
      hide Resume;
      hide OptionStore.Reading;
      ghost var rest, room := pdu[optionStart..end], entries.Length - count;
      ghost var r := ResumeOption(done, rest, room);
      Wrap(LastNumber(0, done), r.delta);
      Slices(pdu[..], optionStart, cursor, end);
      number' := (number + delta) % 0x1_0000;
      StoreParsed(number', optionStart, cursor, pdu, start, done, r);
      done' := done + [r];
    }

    /** The loop of `unicoap_pdu_parse_options_and_payload`. */
    method ParseLoop(pdu: array<Byte>, start: nat, end: nat)
        returns (code: int, payloadAt: nat, payloadSize: nat, ghost done: seq<Raw>)
      requires start <= end <= pdu.Length && entries.Length > 0
      modifies this, entries
      ensures var p := Parse(pdu[start..end], entries.Length);
              && code == (if p.BadBytes? then EBADOPT else if p.TooMany? then ENOBUFS else 0)
              && (p.Parsed? ==>
                    && p.raws == done && Reading(pdu, start, start + storageSize, done) && start + storageSize <= end
                    && capacity == (if p.tail.Payload? then storageSize + 1 else end - start) && storageSize <= capacity <= end - start
                    && payloadAt + payloadSize <= pdu.Length
                    && pdu[payloadAt..payloadAt + payloadSize] == if p.tail.Payload? then p.tail.bytes else [])
    {
      hide ReadOption;
      hide Parse;
      hide OptionStore.Reading;
      hide OptionStore.Progress;
      var cursor, number := start, 0;
      buf, count, storageSize := pdu, 0, 0;
      entries[0] := entries[0].(data := start);
      capacity := end - start;
      payloadAt, payloadSize, done := 0, 0, [];
      ProgressStart(pdu, start, end);
      while cursor < end
        invariant cursor <= end && Progress(pdu, start, end, cursor, number, done)
        invariant capacity == end - start && payloadAt == payloadSize == 0
        decreases end - cursor
      {
        var optionStart := cursor;
        var delta;
        ProgressEnds(pdu, start, end, cursor, number, done);
        code, delta, cursor := ReadOptionInRange(pdu, cursor, end);
        if code == EPAYLD {
          payloadSize := end - cursor;
          payloadAt := if payloadSize > 0 then cursor else 0;
          capacity := cursor - start;
          return 0, payloadAt, payloadSize, done;
        } else if code >= 0 {
          if count >= entries.Length {
            return ENOBUFS, payloadAt, payloadSize, done;
          }
          number, done := EnterOption(pdu, optionStart, cursor, number, delta, start, end, done);
        } else {
          return code, payloadAt, payloadSize, done;
        }
      }
      ProgressEnds(pdu, start, end, cursor, number, done);
      code := 0;
    }

    lemma ProgressStart(pdu: array<Byte>, start: nat, end: nat)
      requires start <= end <= pdu.Length && buf == pdu && count == storageSize == 0 && entries.Length > 0 && entries[0].data == start
      ensures Progress(pdu, start, end, start, 0, [])
    {
      hide Parse;
      hide Resume;
      hide OptionStore.Reading;
      ReadingStart(pdu, start, Parse(pdu[start..end], entries.Length));
    }

    static lemma Slices(b: seq<Byte>, from: nat, to: nat, end: nat)
      requires from <= to <= end <= |b|
      ensures b[from..end][..to - from] == b[from..to] && b[from..end][to - from..] == b[to..end]
    {
    }

    lemma ReadingStart(pdu: array<Byte>, start: nat, p: ParseResult)
      requires start <= pdu.Length && buf == pdu && count == storageSize == 0 && entries.Length > 0 && entries[0].data == start
      ensures Reading(pdu, start, start, []) && LastNumber(0, []) == 0 && p == Resume([], p)
    {
      ParseStart();
      if p.Parsed? { assert [] + p.raws == p.raws; }
    }

    lemma ReadingSize(pdu: array<Byte>, start: nat, cursor: nat, done: seq<Raw>)
      requires Reading(pdu, start, cursor, done)
      ensures cursor == start + storageSize && count == |done| <= entries.Length
    {
      hide RawsOk;
      hide EncodeRaws;
      hide RawIndex;
    }

    /** `unicoap_pdu_parse_options_and_payload` on the bytes `start..end` of a PDU. */
    method ParsePdu(pdu: array<Byte>, start: nat, end: nat) returns (code: int, payloadAt: nat, payloadSize: nat)
      requires start <= end <= pdu.Length && entries.Length > 0
      modifies this, entries
      ensures var p := Parse(pdu[start..end], entries.Length);
              && code == (if p.BadBytes? then EBADOPT else if p.TooMany? then ENOBUFS else 0)
              && (p.Parsed? ==>
                    && Reading(pdu, start, start + storageSize, p.raws) && start + storageSize <= end
                    && capacity == (if p.tail.Payload? then storageSize + 1 else end - start)
                    && payloadAt + payloadSize <= pdu.Length
                    && pdu[payloadAt..payloadAt + payloadSize] == (if p.tail.Payload? then p.tail.bytes else [])
                    && opts == Decode(0, p.raws) && (Valid() <==> NoOverflow(0, p.raws)))
    {
      hide Parse;
      hide Decode;
      hide NoOverflow;
      hide RawsOk;
      hide EncodeRaws;
      hide RawIndex;
      hide Represents;
      ghost var done;
      code, payloadAt, payloadSize, done := ParseLoop(pdu, start, end);
      opts := Decode(0, done);
      if code == 0 {
        ParsedValid(pdu, start, start + storageSize, done);
      }
    }

    /** What has been read is a valid store exactly when no option number overflowed. */
    lemma ParsedValid(pdu: array<Byte>, start: nat, cursor: nat, raws: seq<Raw>)
      requires Reading(pdu, start, cursor, raws) && storageSize <= capacity && start + capacity <= pdu.Length
      requires opts == Decode(0, raws)
      ensures cursor == start + storageSize
      ensures Valid() <==> NoOverflow(0, raws)
    {
      hide Represents;
      hide RawIndex;
      hide EncodeRaws;
      hide NoOverflow;
      hide Decode;
      hide RawsOk;
      ParsedListIff(start, raws);
      assert Shape() && Base() == start;
      assert Packed() == pdu[start..cursor] == EncodeRaws(raws);
      if Valid() {
        assert Represents(EncodeRaws(raws), RawIndex(0, start, raws), start, opts);
      }
      if NoOverflow(0, raws) {
        assert Represents(Packed(), entries[..count], Base(), opts);
      }
    }
  }
}
