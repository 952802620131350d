/** Packed options with gaps between them: what bytes and lookup array still agree on after bytes have been left behind. */
module OptionGaps {
  import opened Codec
  import opened OptionLists
  import opened Buffers
  import opened OptionEdits

  /** Entry `i` shows where option `i` is, and it is there. */
  ghost predicate Stands(b: seq<Byte>, e: Entry, opts: seq<Option>, i: nat)
    requires i < |opts|
  {
    && OptionOk(opts[i]) && 0 <= DeltaAt(opts, i) <= NUMBER_MAX && e.number == opts[i].number
    && e.size == OptionSize(DeltaAt(opts, i), |opts[i].value|) && e.data + e.size <= |b|
    && b[e.data..e.data + e.size] == EncodeOption(DeltaAt(opts, i), opts[i].value)
  }

  /** The options stand between `at` and `end`, in order, the first one at the front. */
  ghost predicate Spread(b: seq<Byte>, index: seq<Entry>, at: nat, end: nat, opts: seq<Option>) {
    && Sorted(0, opts) && |index| == |opts| && at <= end
    && (forall i :: 0 <= i < |index| ==> Stands(b, index[i], opts, i))
    && (forall i, j :: 0 <= i < j < |index| ==> index[i].data + index[i].size <= index[j].data)
    && (index != [] ==> index[0].data == at && index[|index| - 1].data + index[|index| - 1].size <= end)
  }

  // ---------------------------------------------------------------- without gaps

  /** Number and delta of option `i`, from its surroundings. */
  lemma DeltaFacts(opts: seq<Option>, i: nat)
    requires Sorted(0, opts) && i < |opts|
    ensures Sorted(0, opts[..i]) && Last(0, opts[..i]) == (if i == 0 then 0 else opts[i - 1].number)
    ensures OptionOk(opts[i]) && Sorted(opts[i].number, opts[i + 1..])
    ensures 0 <= DeltaAt(opts, i) == opts[i].number - Last(0, opts[..i]) <= NUMBER_MAX
  {
    hide Sorted;
    LastOfPrefix(opts, i);
    AroundAt(opts, i);
  }

  /** A packed list has no gaps, and may have room behind it. */
  lemma PackedSpread(b: seq<Byte>, index: seq<Entry>, at: nat, end: nat, end': nat, opts: seq<Option>)
    requires at <= end <= |b| && end <= end' && Represents(b[at..end], index, at, opts)
    ensures Spread(b, index, at, end', opts)
  {
    hide Sorted;
    hide Encode;
    hide Index;
    hide Stands;
    hide EncodeOption;
    hide OptionSize;
    RepresentsSizes(b[at..end], index, at, opts);
    forall i | 0 <= i < |index| ensures Stands(b, index[i], opts, i) && index[i].data + index[i].size <= end {
      PackedStands(b, index, at, end, opts, i);
    }
    IndexContiguous(0, at, opts);
    forall i, j | 0 <= i < j < |index| ensures index[i].data + index[i].size <= index[j].data {
      ContiguousOrder(index, i, j);
    }
    if opts != [] { IndexFirst(0, at, opts); }
  }

  lemma PackedStands(b: seq<Byte>, index: seq<Entry>, at: nat, end: nat, opts: seq<Option>, i: nat)
    requires at <= end <= |b| && Represents(b[at..end], index, at, opts) && i < |opts|
    ensures |index| == |opts| && Stands(b, index[i], opts, i) && index[i].data + index[i].size <= end
  {
    hide Sorted;
    hide Encode;
    hide Index;
    hide EncodeOption;
    hide OptionSize;
    RepresentsSizes(b[at..end], index, at, opts);
    hide Represents;
    OptionFacts(b, index, at, end, opts, i);
    DeltaFacts(opts, i);
  }

  lemma {:induction false} ContiguousOrder(index: seq<Entry>, i: nat, j: nat)
    requires Contiguous(index) && i < j < |index|
    ensures index[i].data + index[i].size <= index[j].data
    decreases j
  {
    if i + 1 < j { ContiguousOrder(index, i, j - 1); }
    assert index[j - 1].data + index[j - 1].size == index[j - 1 + 1].data;
  }

  /** From option `i` on, the options need no more than what lies between its entry and the end. */
  lemma {:induction false} BackRoom(b: seq<Byte>, index: seq<Entry>, at: nat, end: nat, opts: seq<Option>, i: nat)
    requires Spread(b, index, at, end, opts) && i < |opts|
    ensures Sorted(Last(0, opts[..i]), opts[i..]) && index[i].data + |Encode(Last(0, opts[..i]), opts[i..])| <= end
    decreases |opts| - i
  {
    hide Sorted;
    hide Encode;
    hide Last;
    hide OptionSize;
    hide EncodeOption;
    LastOfPrefix(opts, i);
    DeltaFacts(opts, i);
    assert opts[i..] == [opts[i]] + opts[i + 1..];
    Unfold(Last(0, opts[..i]), 0, opts[i], opts[i + 1..]);
    assert Stands(b, index[i], opts, i);
    if i + 1 < |opts| {
      BackRoom(b, index, at, end, opts, i + 1);
      LastOfPrefix(opts, i + 1);
    } else {
      assert opts[i + 1..] == [];
      UnfoldNil(opts[i].number, 0);
    }
  }

  /** There is room for all options together. */
  lemma SpreadRoom(b: seq<Byte>, index: seq<Entry>, at: nat, end: nat, opts: seq<Option>)
    requires Spread(b, index, at, end, opts)
    ensures Sorted(0, opts) && |Encode(0, opts)| <= end - at
  {
    hide Sorted;
    hide Encode;
    if opts == [] {
      UnfoldNil(0, 0);
    } else {
      BackRoom(b, index, at, end, opts, 0);
      LastOfPrefix(opts, 0);
      assert opts[0..] == opts;
    }
  }

  /** Options that need all the room are packed, up to option `i`. */
  lemma {:induction false} TightFront(b: seq<Byte>, index: seq<Entry>, at: nat, end: nat, opts: seq<Option>, i: nat)
    requires Spread(b, index, at, end, opts) && end - at == |Encode(0, opts)| && end <= |b| && i <= |opts|
    ensures Sorted(0, opts[..i])
    ensures var e := at + |Encode(0, opts[..i])|;
            && e <= end && (i < |opts| ==> index[i].data == e)
            && b[at..e] == Encode(0, opts[..i]) && index[..i] == Index(0, at, opts[..i])
    decreases i
  {
    hide Sorted;
    hide Encode;
    hide Index;
    hide Last;
    hide OptionSize;
    hide EncodeOption;
    LastOfPrefix(opts, i);
    if i == 0 {
      UnfoldNil(0, at);
      assert opts[..0] == [] && index[..0] == [];
    } else {
      TightFront(b, index, at, end, opts, i - 1);
      TightStep(b, index, at, end, opts, i - 1);
    }
    assert opts == opts[..i] + opts[i..];
    EncodeConcat(0, at, opts[..i], opts[i..]);
    if i < |opts| { BackRoom(b, index, at, end, opts, i); }
  }

  lemma TightStep(b: seq<Byte>, index: seq<Entry>, at: nat, end: nat, opts: seq<Option>, i: nat)
    requires Spread(b, index, at, end, opts) && i < |opts| && end <= |b| && Sorted(0, opts[..i])
    requires index[i].data == at + |Encode(0, opts[..i])| && index[i].data <= |b|
    requires b[at..index[i].data] == Encode(0, opts[..i]) && index[..i] == Index(0, at, opts[..i])
    ensures Sorted(0, opts[..i + 1]) && index[i].data + index[i].size == at + |Encode(0, opts[..i + 1])| <= |b|
    ensures b[at..at + |Encode(0, opts[..i + 1])|] == Encode(0, opts[..i + 1]) && index[..i + 1] == Index(0, at, opts[..i + 1])
    ensures i + 1 < |opts| ==> at + |Encode(0, opts[..i + 1])| <= index[i + 1].data
  {
    hide Sorted;
    hide Encode;
    hide Index;
    hide Last;
    hide OptionSize;
    hide EncodeOption;
    DeltaFacts(opts, i);
    var a, x, e := opts[..i], opts[i], index[i];
    assert Stands(b, e, opts, i);
    assert opts[..i + 1] == a + [x] + [];
    UnfoldNil(x.number, e.data + e.size);
    Around(at, a, x, []);
    assert b[at..e.data + e.size] == b[at..e.data] + b[e.data..e.data + e.size];
    assert index[..i + 1] == index[..i] + [e];
  }

  /** Without gaps and without room behind them, the options are the bytes. */
  lemma SpreadTight(b: seq<Byte>, index: seq<Entry>, at: nat, end: nat, opts: seq<Option>)
    requires Spread(b, index, at, end, opts) && end <= |b| && end - at == |Encode(0, opts)|
    ensures Represents(b[at..end], index, at, opts)
  {
    hide Sorted;
    hide Encode;
    hide Index;
    TightFront(b, index, at, end, opts, |opts|);
    assert opts[..|opts|] == opts && index[..|opts|] == index;
  }

  /** What the removal of a number leaves behind: if it is repeated at the end, only the size of its first option is given back. */
  ghost function LeftBehind(opts: seq<Option>, number: nat): int
    requires Sorted(0, opts)
  {
    var i := FindFirst(opts, number);
    if i < 0 || !TrailingRepeat(opts, number) then 0
    else
      WithoutSpec(0, opts, number);
      DeltaFacts(opts, i);
      |Encode(0, opts)| - |Encode(0, Without(opts, number))| - OptionSize(DeltaAt(opts, i), |opts[i].value|)
  }

  // ---------------------------------------------------------------- additions

  /** An option that was there before one is written behind the end. */
  lemma StandsStill(b: seq<Byte>, index: seq<Entry>, at: nat, end: nat, opts: seq<Option>, x: Option, bytes: seq<Byte>, i: nat)
    requires Spread(b, index, at, end, opts) && i < |index| && end + |bytes| <= |b|
    ensures Stands(Splice(b, end, bytes), index[i], opts + [x], i) && index[i].data + index[i].size <= end
  {
    hide Sorted;
    hide Splice;
    hide EncodeOption;
    hide OptionSize;
    assert Stands(b, index[i], opts, i);
    LastEnds(index, i);
    SpliceKeeps(b, end, bytes, index[i].data, index[i].data + index[i].size);
  }

  lemma LastEnds(index: seq<Entry>, i: nat)
    requires i < |index| && forall j, k :: 0 <= j < k < |index| ==> index[j].data + index[j].size <= index[k].data
    ensures index[i].data + index[i].size <= index[|index| - 1].data + index[|index| - 1].size
  {
    if i + 1 < |index| { assert index[i].data + index[i].size <= index[|index| - 1].data; }
  }

  /** An option behind the end of the bytes in use; if it is the only one, the front is there from then on. */
  lemma AppendSpread(b: seq<Byte>, b': seq<Byte>, index: seq<Entry>, at: nat, end: nat, opts: seq<Option>, x: Option, delta: nat)
    requires Spread(b, index, at, end, opts) && OptionOk(x) && Last(0, opts) <= x.number && delta == x.number - Last(0, opts)
    requires end + OptionSize(delta, |x.value|) <= |b| && b' == Splice(b, end, EncodeOption(delta, x.value))
    ensures var size := OptionSize(delta, |x.value|);
            Spread(b', index + [Entry(x.number, end, size)], if opts == [] then end else at,
                   (if opts == [] then end + (end - at) else end) + size, opts + [x])
  {
    hide Sorted;
    hide Splice;
    hide EncodeOption;
    hide OptionSize;
    hide Last;
    hide Stands;
    var size := OptionSize(delta, |x.value|);
    var index', opts' := index + [Entry(x.number, end, size)], opts + [x];
    AppendSize(opts, x);
    forall i | 0 <= i < |index| ensures Stands(b', index'[i], opts', i) && index[i].data + index[i].size <= end {
      StandsStill(b, index, at, end, opts, x, EncodeOption(delta, x.value), i);
    }
    StandsLast(b', opts, x, delta, end);
  }

  lemma StandsLast(b: seq<Byte>, opts: seq<Option>, x: Option, delta: nat, end: nat)
    requires Sorted(0, opts + [x]) && OptionOk(x) && delta == x.number - Last(0, opts) && end + OptionSize(delta, |x.value|) <= |b|
    requires b[end..end + OptionSize(delta, |x.value|)] == EncodeOption(delta, x.value)
    ensures Stands(b, Entry(x.number, end, OptionSize(delta, |x.value|)), opts + [x], |opts|)
  {
    hide Sorted;
    hide EncodeOption;
    hide OptionSize;
    DeltaFacts(opts + [x], |opts|);
    assert (opts + [x])[..|opts|] == opts;
  }

  /** An insertion: where it happens, by how much the successor's head grows, the new option, the successor's new head. */
  datatype Insertion = Insertion(src: nat, diff: int, bytes: seq<Byte>, head: seq<Byte>)

  /** `p` inserts a number before entry `i`, as bytes and entries show. */
  ghost predicate InsertionAt(b: seq<Byte>, index: seq<Entry>, at: nat, end: nat, i: nat, number: nat, p: Insertion) {
    && i < |index| && p.src == index[i].data && at <= p.src && 0 < index[i].size && p.src + index[i].size <= end && p.src < |b|
    && number <= index[i].number <= NUMBER_MAX && (forall k :: i <= k < |index| ==> index[k].data >= p.src)
    && p.diff == ExtSize(index[i].number - number) - NibbleExtSize(b[p.src] / 16) && |p.bytes| + p.diff >= 0
    && p.head == HeadPart(index[i].number - number, b[p.src] % 16) && |p.head| <= index[i].size + p.diff
  }

  /** `p` inserts `x` before option `i`. */
  ghost predicate InsertionOf(opts: seq<Option>, i: nat, x: Option, p: Insertion) {
    && i < |opts| && OptionOk(x) && OptionOk(opts[i]) && Last(0, opts[..i]) <= x.number <= opts[i].number && 0 <= DeltaAt(opts, i)
    && p.bytes == EncodeOption(x.number - Last(0, opts[..i]), x.value)
    && p.diff == ExtSize(opts[i].number - x.number) - ExtSize(DeltaAt(opts, i))
    && p.head == HeadPart(opts[i].number - x.number, NibbleFor(|opts[i].value|))
  }

  /** The new entry has come before entry `i`, which is behind it now, and the others have followed. */
  ghost predicate EntriesInserted(index: seq<Entry>, index': seq<Entry>, i: nat, number: nat, p: Insertion) {
    && i < |index| && |index'| == |index| + 1 && index'[..i] == index[..i] && index[i].size + p.diff >= 0
    && index'[i] == Entry(number, p.src, |p.bytes|)
    && index'[i + 1] == Entry(index[i].number, p.src + |p.bytes|, index[i].size + p.diff)
    && Relocated(index[i + 1..], index'[i + 2..], |p.bytes| + p.diff)
  }

  /** The bytes from `src` on have moved, and the new option and the new head have been written. */
  ghost predicate BytesInserted(b: seq<Byte>, b': seq<Byte>, end: nat, p: Insertion) {
    && p.src <= end && 0 <= |p.bytes| + p.diff && end + |p.bytes| + p.diff <= |b| && p.src + |p.bytes| + |p.head| <= |b|
    && b' == InsertedBytes(b, p.src, end, |p.bytes| + p.diff, p.bytes, p.head)
  }

  /** The insertion of `x` before option `i`. */
  ghost function InsertionFor(index: seq<Entry>, opts: seq<Option>, i: nat, x: Option): Insertion
    requires i < |opts| == |index| && OptionOk(x) && OptionOk(opts[i]) && Last(0, opts[..i]) <= x.number <= opts[i].number
    requires 0 <= DeltaAt(opts, i)
  {
    Insertion(index[i].data, ExtSize(opts[i].number - x.number) - ExtSize(DeltaAt(opts, i)),
              EncodeOption(x.number - Last(0, opts[..i]), x.value), HeadPart(opts[i].number - x.number, NibbleFor(|opts[i].value|)))
  }

  /** It is what the code computes from entry and bytes. */
  lemma InsertReady(b: seq<Byte>, index: seq<Entry>, at: nat, end: nat, opts: seq<Option>, i: nat, x: Option)
    requires Spread(b, index, at, end, opts) && i < |opts| && OptionOk(x) && Last(0, opts[..i]) <= x.number <= opts[i].number
    ensures |index| == |opts| && OptionOk(opts[i]) && 0 <= DeltaAt(opts, i)
    ensures var p := InsertionFor(index, opts, i, x);
            && InsertionAt(b, index, at, end, i, x.number, p) && InsertionOf(opts, i, x, p)
            && Sorted(0, opts[..i] + [x] + opts[i..])
            && |Encode(0, opts[..i] + [x] + opts[i..])| == |Encode(0, opts)| + |p.bytes| + p.diff
  {
    hide Spread;
    hide Sorted;
    hide Encode;
    hide Last;
    hide ExtSize;
    hide EncodeOption;
    hide HeadPart;
    hide NibbleFor;
    hide InsertionAt;
    SpreadSorted(b, index, at, end, opts);
    DeltaFacts(opts, i);
    SplitAt(opts, i);
    InsertSizes(opts[..i], x, opts[i], opts[i + 1..]);
    InsertsThere(b, index, at, end, opts, i, x, InsertionFor(index, opts, i, x));
  }

  lemma SpreadSorted(b: seq<Byte>, index: seq<Entry>, at: nat, end: nat, opts: seq<Option>)
    requires Spread(b, index, at, end, opts)
    ensures Sorted(0, opts) && |index| == |opts|
  {
  }

  /** The entry and the bytes of the successor agree with the option. */
  lemma InsertsThere(b: seq<Byte>, index: seq<Entry>, at: nat, end: nat, opts: seq<Option>, i: nat, x: Option, p: Insertion)
    requires Spread(b, index, at, end, opts) && InsertionOf(opts, i, x, p) && |p.bytes| + p.diff >= 0 && p.src == index[i].data
    ensures InsertionAt(b, index, at, end, i, x.number, p)
  {
    hide Sorted;
    hide Last;
    hide EncodeOption;
    hide HeadPart;
    hide TailPart;
    hide NibbleFor;
    hide NibbleExtSize;
    hide ExtSize;
    assert Stands(b, index[i], opts, i);
    HeadBytes(b, index[i], opts, i);
    InOrder(b, index, at, end, opts, i);
    ExtRoundTrip(DeltaAt(opts, i), []);
  }

  /** Where entries lie, seen from entry `i`. */
  lemma InOrder(b: seq<Byte>, index: seq<Entry>, at: nat, end: nat, opts: seq<Option>, i: nat)
    requires Spread(b, index, at, end, opts) && i < |index|
    ensures at <= index[i].data && index[i].data + index[i].size <= end
    ensures forall k :: 0 <= k < i ==> index[k].data + index[k].size <= index[i].data
    ensures forall k :: i < k < |index| ==> index[i].data + index[i].size <= index[k].data && index[k].data + index[k].size <= end
  {
    hide Stands;
    hide Sorted;
    if i > 0 { assert index[0].data + index[0].size <= index[i].data; }
    forall k | i <= k < |index| ensures index[k].data + index[k].size <= end {
      if k + 1 < |index| { assert index[k].data + index[k].size <= index[|index| - 1].data; }
    }
  }

  /** The first byte of option `i` and the part of it that does not depend on its predecessor. */
  lemma HeadBytes(b: seq<Byte>, e: Entry, opts: seq<Option>, i: nat)
    requires i < |opts| && Stands(b, e, opts, i)
    ensures 0 < e.size && e.data < |b|
    ensures b[e.data] / 16 == NibbleFor(DeltaAt(opts, i)) && b[e.data] % 16 == NibbleFor(|opts[i].value|)
    ensures e.size == 1 + ExtSize(DeltaAt(opts, i)) + |TailPart(opts[i].value)|
    ensures b[e.data + 1 + ExtSize(DeltaAt(opts, i))..e.data + e.size] == TailPart(opts[i].value)
  {
    hide NibbleFor;
    hide ExtSize;
    hide HeadPart;
    hide TailPart;
    var delta, value := DeltaAt(opts, i), opts[i].value;
    HeadIsNotMarker(delta, value);
    var bytes, n := b[e.data..e.data + e.size], 1 + ExtSize(delta);
    assert bytes == EncodeOption(delta, value);
    assert b[e.data] == bytes[0];
    hide EncodeOption;
    TailOf(b, e.data, e.size, HeadPart(delta, NibbleFor(|value|)), TailPart(value));
  }

  lemma TailOf(b: seq<Byte>, at: nat, size: nat, head: seq<Byte>, tail: seq<Byte>)
    requires at + size <= |b| && size == |head| + |tail| && b[at..at + size] == head + tail
    ensures b[at + |head|..at + size] == tail
  {
    SliceOfSlice(b, at, size, |head|, size);
    assert (head + tail)[|head|..size] == tail;
  }

  /** An insertion stays between the front and the new end. */
  lemma InsertedInside(b: seq<Byte>, b': seq<Byte>, index: seq<Entry>, at: nat, end: nat, i: nat, number: nat, p: Insertion)
    requires InsertionAt(b, index, at, end, i, number, p) && BytesInserted(b, b', end, p)
    ensures SameOutside(b, b', at, end + |p.bytes| + p.diff - at)
  {
    hide SameOutside;
    hide Splice;
    hide HeadPart;
    hide ExtSize;
    hide NibbleExtSize;
    InsertInside(b, at, end + |p.bytes| + p.diff - at, p.src, end, |p.bytes| + p.diff, p.bytes, p.head);
  }

  /** Nothing changed outside of more. */
  lemma OutsideWider(b: seq<Byte>, b': seq<Byte>, base: nat, size: nat, capacity: nat)
    requires SameOutside(b, b', base, size) && size <= capacity && base + capacity <= |b|
    ensures SameOutside(b, b', base, capacity)
  {
    assert b[base + capacity..] == b[base + size..][capacity - size..];
    assert b'[base + capacity..] == b'[base + size..][capacity - size..];
  }

  // ---------------------------------------------------------------- what an insertion leaves

  /** Options, numbers and deltas after an insertion. */
  lemma InsertedOptions(opts: seq<Option>, i: nat, x: Option, k: nat)
    requires i < |opts| && k < |opts|
    ensures var opts' := opts[..i] + [x] + opts[i..];
            && |opts'| == |opts| + 1 && opts'[i] == x && DeltaAt(opts', i) == x.number - (if i == 0 then 0 else opts[i - 1].number)
            && opts'[i + 1] == opts[i] && DeltaAt(opts', i + 1) == opts[i].number - x.number
            && (k < i ==> opts'[k] == opts[k] && DeltaAt(opts', k) == DeltaAt(opts, k))
            && (k > i ==> opts'[k + 1] == opts[k] && DeltaAt(opts', k + 1) == DeltaAt(opts, k))
  {
  }

  /** What has been written. */
  lemma WrittenRegions(b: seq<Byte>, b': seq<Byte>, end: nat, p: Insertion)
    requires BytesInserted(b, b', end, p)
    ensures |b'| == |b| && p.src + |p.bytes| + |p.head| <= |b| && p.src <= end && 0 <= |p.bytes| + p.diff && end + |p.bytes| + p.diff <= |b|
    ensures b'[p.src..p.src + |p.bytes|] == p.bytes
    ensures b'[p.src + |p.bytes|..p.src + |p.bytes| + |p.head|] == p.head
  {
    hide Splice;
    var filled := Splice(Splice(b, p.src + |p.bytes| + p.diff, b[p.src..end]), p.src, p.bytes);
    SpliceKeeps(filled, p.src + |p.bytes|, p.head, p.src, p.src + |p.bytes|);
  }

  /** What has stayed. */
  lemma FrontRegion(b: seq<Byte>, b': seq<Byte>, end: nat, p: Insertion, lo: nat, hi: nat)
    requires BytesInserted(b, b', end, p) && lo <= hi <= p.src
    ensures |b'| == |b| && hi <= |b| && b'[lo..hi] == b[lo..hi]
  {
    hide Splice;
    var total := |p.bytes| + p.diff;
    var moved := Splice(b, p.src + total, b[p.src..end]);
    SpliceKeeps(b, p.src + total, b[p.src..end], lo, hi);
    SpliceKeeps(moved, p.src, p.bytes, lo, hi);
    SpliceKeeps(Splice(moved, p.src, p.bytes), p.src + |p.bytes|, p.head, lo, hi);
  }

  /** What has moved and not been written over. */
  lemma MovedRegion(b: seq<Byte>, b': seq<Byte>, end: nat, p: Insertion, lo: nat, hi: nat)
    requires BytesInserted(b, b', end, p) && p.src <= lo <= hi <= end && p.src + |p.head| <= lo + p.diff
    ensures |b'| == |b| && 0 <= |p.bytes| + p.diff && hi + |p.bytes| + p.diff <= |b|
    ensures b'[lo + |p.bytes| + p.diff..hi + |p.bytes| + p.diff] == b[lo..hi]
  {
    hide Splice;
    var total := |p.bytes| + p.diff;
    var moved := Splice(b, p.src + total, b[p.src..end]);
    SpliceKeeps(moved, p.src, p.bytes, lo + total, hi + total);
    SpliceKeeps(Splice(moved, p.src, p.bytes), p.src + |p.bytes|, p.head, lo + total, hi + total);
    MovedSlice(b, p.src, end, total, lo, hi);
  }

  lemma MovedSlice(b: seq<Byte>, src: nat, end: nat, total: nat, lo: nat, hi: nat)
    requires src <= lo <= hi <= end && end + total <= |b|
    ensures Splice(b, src + total, b[src..end])[lo + total..hi + total] == b[lo..hi]
  {
    hide Splice;
    var moved := Splice(b, src + total, b[src..end]);
    SliceOfSlice(moved, src + total, end - src, lo - src, hi - src);
    SliceOfSlice(b, src, end - src, lo - src, hi - src);
  }

  /** Options before the insertion stand where they stood. */
  lemma StandsBefore(b: seq<Byte>, b': seq<Byte>, index: seq<Entry>, at: nat, end: nat, opts: seq<Option>, i: nat, x: Option, p: Insertion, k: nat)
    requires Spread(b, index, at, end, opts) && k < i < |opts| && p.src == index[i].data && BytesInserted(b, b', end, p)
    ensures Stands(b', index[k], opts[..i] + [x] + opts[i..], k)
  {
    hide Sorted;
    hide EncodeOption;
    hide OptionSize;
    hide BytesInserted;
    assert Stands(b, index[k], opts, k);
    InOrder(b, index, at, end, opts, i);
    InsertedOptions(opts, i, x, k);
    FrontRegion(b, b', end, p, index[k].data, index[k].data + index[k].size);
  }

  /** Options behind the successor stand `total` bytes further on. */
  lemma StandsBehind(b: seq<Byte>, b': seq<Byte>, index: seq<Entry>, at: nat, end: nat, opts: seq<Option>, i: nat, x: Option, p: Insertion, k: nat)
    requires Spread(b, index, at, end, opts) && i < k < |opts| && BytesInserted(b, b', end, p)
    requires InsertionAt(b, index, at, end, i, x.number, p)
    ensures index[k].data + |p.bytes| + p.diff >= 0
    ensures Stands(b', Shifted(index[k], |p.bytes| + p.diff), opts[..i] + [x] + opts[i..], k + 1)
  {
    hide Sorted;
    hide EncodeOption;
    hide OptionSize;
    hide HeadPart;
    hide ExtSize;
    hide NibbleExtSize;
    hide BytesInserted;
    assert Stands(b, index[k], opts, k);
    InOrder(b, index, at, end, opts, i);
    InsertedOptions(opts, i, x, k);
    MovedRegion(b, b', end, p, index[k].data, index[k].data + index[k].size);
  }

  /** The successor stands behind the new option, with its new head. */
  lemma StandsNext(b: seq<Byte>, b': seq<Byte>, index: seq<Entry>, at: nat, end: nat, opts: seq<Option>, i: nat, x: Option, p: Insertion)
    requires Spread(b, index, at, end, opts) && i < |opts| && BytesInserted(b, b', end, p) && InsertionOf(opts, i, x, p)
    requires p.src == index[i].data && index[i].size + p.diff >= 0
    ensures Stands(b', Entry(index[i].number, p.src + |p.bytes|, index[i].size + p.diff), opts[..i] + [x] + opts[i..], i + 1)
  {
    hide Sorted;
    hide Last;
    hide BytesInserted;
    hide NibbleFor;
    hide HeadPart;
    hide TailPart;
    hide ExtSize;
    var e, s, opts' := index[i], opts[i], opts[..i] + [x] + opts[i..];
    assert Stands(b, e, opts, i);
    HeadBytes(b, e, opts, i);
    InOrder(b, index, at, end, opts, i);
    InsertedOptions(opts, i, x, i);
    var cut, from := e.data + 1 + ExtSize(DeltaAt(opts, i)), p.src + |p.bytes|;
    WrittenRegions(b, b', end, p);
    MovedRegion(b, b', end, p, cut, e.data + e.size);
    var mid, to := from + |p.head|, from + e.size + p.diff;
    assert mid == cut + |p.bytes| + p.diff && to == e.data + e.size + |p.bytes| + p.diff;
    assert b'[from..to] == b'[from..mid] + b'[mid..to];
  }

  /** The new option stands where the successor stood. */
  lemma StandsNew(b: seq<Byte>, b': seq<Byte>, end: nat, opts: seq<Option>, i: nat, x: Option, p: Insertion)
    requires i < |opts| && Sorted(0, opts) && BytesInserted(b, b', end, p) && InsertionOf(opts, i, x, p)
    ensures Stands(b', Entry(x.number, p.src, |p.bytes|), opts[..i] + [x] + opts[i..], i)
  {
    hide Sorted;
    hide Last;
    hide EncodeOption;
    hide OptionSize;
    hide ExtSize;
    hide NibbleFor;
    hide BytesInserted;
    hide HeadPart;
    NewDelta(opts, i, x);
    WrittenRegions(b, b', end, p);
  }

  lemma NewDelta(opts: seq<Option>, i: nat, x: Option)
    requires Sorted(0, opts) && i < |opts|
    ensures var opts' := opts[..i] + [x] + opts[i..];
            i < |opts'| && opts'[i] == x && DeltaAt(opts', i) == x.number - Last(0, opts[..i])
  {
    hide Sorted;
    DeltaFacts(opts, i);
    InsertedOptions(opts, i, x, i);
  }

  /** After an insertion the longer list stands between the front and the new end. */
  lemma InsertSpread(b: seq<Byte>, b': seq<Byte>, index: seq<Entry>, index': seq<Entry>, at: nat, end: nat,
                     opts: seq<Option>, i: nat, x: Option, p: Insertion)
    requires Spread(b, index, at, end, opts) && InsertionAt(b, index, at, end, i, x.number, p) && InsertionOf(opts, i, x, p)
    requires EntriesInserted(index, index', i, x.number, p) && BytesInserted(b, b', end, p)
    requires Sorted(0, opts[..i] + [x] + opts[i..])
    ensures Spread(b', index', at, end + |p.bytes| + p.diff, opts[..i] + [x] + opts[i..])
  {
    hide Sorted;
    hide Last;
    hide Stands;
    hide InsertionOf;
    hide BytesInserted;
    hide HeadPart;
    hide ExtSize;
    hide NibbleExtSize;
    var opts', total := opts[..i] + [x] + opts[i..], |p.bytes| + p.diff;
    assert at <= end + total && |opts'| == |opts| + 1;
    forall k | 0 <= k < |index'| ensures Stands(b', index'[k], opts', k) {
      EntryAt(index, index', i, x.number, p, k);
      if k < i {
        StandsBefore(b, b', index, at, end, opts, i, x, p, k);
      } else if k == i {
        StandsNew(b, b', end, opts, i, x, p);
      } else if k == i + 1 {
        StandsNext(b, b', index, at, end, opts, i, x, p);
      } else {
        StandsBehind(b, b', index, at, end, opts, i, x, p, k - 1);
      }
    }
    forall j, k | 0 <= j < k < |index'| ensures index'[j].data + index'[j].size <= index'[k].data {
      InsertedOrder(b, index, index', at, end, opts, i, x.number, p, j, k);
    }
    EntryAt(index, index', i, x.number, p, 0);
    EntryAt(index, index', i, x.number, p, |index|);
    InOrder(b, index, at, end, opts, i);
    InOrder(b, index, at, end, opts, |index| - 1);
  }

  /** Entry `k` of the longer array. */
  lemma EntryAt(index: seq<Entry>, index': seq<Entry>, i: nat, number: nat, p: Insertion, k: nat)
    requires EntriesInserted(index, index', i, number, p) && k < |index'|
    ensures k < i ==> index'[k] == index[k]
    ensures k > i + 1 ==> index[k - 1].data + |p.bytes| + p.diff >= 0 && index'[k] == Shifted(index[k - 1], |p.bytes| + p.diff)
  {
    if k < i { assert index'[k] == index'[..i][k] == index[..i][k]; }
    if k > i + 1 {
      var m := k - i - 2;
      assert index'[i + 2..][m] == index'[k] && index[i + 1..][m] == index[k - 1];
    }
  }

  lemma InsertedOrder(b: seq<Byte>, index: seq<Entry>, index': seq<Entry>, at: nat, end: nat, opts: seq<Option>, i: nat, number: nat,
                      p: Insertion, j: nat, k: nat)
    requires Spread(b, index, at, end, opts) && InsertionAt(b, index, at, end, i, number, p)
    requires EntriesInserted(index, index', i, number, p) && j < k < |index'|
    ensures index'[j].data + index'[j].size <= index'[k].data
  {
    hide Sorted;
    hide Stands;
    hide HeadPart;
    hide ExtSize;
    hide NibbleExtSize;
    EntryAt(index, index', i, number, p, j);
    EntryAt(index, index', i, number, p, k);
    InOrder(b, index, at, end, opts, i);
    hide EntriesInserted;
  }
}
