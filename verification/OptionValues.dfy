/** Reading a store option by option, and values that hold joined strings. */
module OptionValues {
  import opened Codec
  import opened OptionLists
  import opened OptionEdits
  import opened OptionGaps
  import opened Buffers
  import opened OptionStores

  // ---------------------------------------------------------------- iteration

  /** `unicoap_options_iterator_t`. */
  class OptionIterator {
    const store: OptionStore
    var index: nat

    constructor (store: OptionStore)
      ensures this.store == store && index == 0
    {
      this.store, index := store, 0;
    }

    /** `unicoap_options_get_next`. */
    method GetNext() returns (r: Lookup, number: nat)
      requires store.Valid()
      modifies this
      ensures r == NotFound <==> old(index) >= |store.opts|
      ensures r == NotFound ==> index == old(index)
      ensures r != NotFound ==>
                && |store.opts| == store.count && index == old(index) + 1 && r.Found? && number == store.opts[old(index)].number
                && store.Reads(old(index), r)
    {
      hide Represents;
      hide Sorted;
      hide Encode;
      RepresentsSizes(store.Packed(), store.entries[..store.count], store.Base(), store.opts);
      number := 0;
      if index >= store.count {
        return NotFound, number;
      }
      r := store.ReadEntry(index);
      IndexNumber(store, index);
      number := store.entries[index].number;
      index := index + 1;
    }

    /** `unicoap_options_get_next_by_number`. */
    method GetNextByNumber(number: nat) returns (r: Lookup)
      requires store.Valid()
      modifies this
      ensures r == NotFound <==> forall k :: old(index) <= k < |store.opts| ==> store.opts[k].number != number
      ensures r != NotFound ==>
                && |store.opts| == store.count && old(index) < index <= |store.opts| && r.Found?
                && (forall k :: old(index) <= k < index - 1 ==> store.opts[k].number != number)
                && store.opts[index - 1].number == number && store.Reads(index - 1, r)
    {
      hide OptionStore.Valid;
      hide OptionStore.Reads;
      StoreSorted(store);
      while index < store.count && store.entries[index].number != number
        invariant store.Valid() && |store.opts| == store.count <= store.entries.Length
        invariant old(index) <= index && (index > store.count ==> index == old(index))
        invariant forall k :: old(index) <= k < index && k < |store.opts| ==> store.opts[k].number != number
        decreases store.count - index
      {
        IndexNumber(store, index);
        index := index + 1;
      }
      if index < store.count { IndexNumber(store, index); }
      var ignored;
      r, ignored := GetNext();
    }
  }

  lemma IndexNumber(store: OptionStore, i: nat)
    requires store.Valid() && i < store.count
    ensures |store.opts| == store.count && store.entries[i].number == store.opts[i].number
  {
    hide Sorted;
    hide Encode;
    IndexAt(0, store.Base(), store.opts, i);
    assert store.entries[i] == store.entries[..store.count][i];
  }

  // ---------------------------------------------------------------- joined strings

  /** The components with a separator between neighbours. */
  function Join(values: seq<seq<Byte>>, separator: Byte): seq<Byte> {
    if values == [] then []
    else if |values| == 1 then values[0]
    else values[0] + [separator] + Join(values[1..], separator)
  }

  /** The components before the first empty one. */
  function UpToEmpty(values: seq<seq<Byte>>): (r: seq<seq<Byte>>)
    ensures r <= values && forall k :: 0 <= k < |r| ==> r[k] != []
    ensures |r| < |values| ==> values[|r|] == []
  {
    if values == [] || values[0] == [] then [] else [values[0]] + UpToEmpty(values[1..])
  }

  /** The components of a string; `after` is the byte behind it, which the source looks at as well. */
  function Cut(s: seq<Byte>, separator: Byte, after: Byte): (r: seq<seq<Byte>>)
    decreases |s|
  {
    var i := FirstAt(s, separator);
    if i < |s| then [s[..i]] + Cut(s[i + 1..], separator, after)
    else if s == [] && after != separator then [] else [s]
  }

  function FirstAt(s: seq<Byte>, b: Byte): (i: nat)
    ensures i <= |s| && (i < |s| ==> s[i] == b) && forall k :: 0 <= k < i ==> s[k] != b
  {
    if s == [] || s[0] == b then 0 else 1 + FirstAt(s[1..], b)
  }

  lemma {:induction false} FirstAtIs(s: seq<Byte>, b: Byte, i: nat)
    requires i <= |s| && (forall k :: 0 <= k < i ==> s[k] != b) && (i < |s| ==> s[i] == b)
    ensures FirstAt(s, b) == i
    decreases i
  {
    if i > 0 {
      FirstAtIs(s[1..], b, i - 1);
    }
  }

  /** The cut of a string whose first separator, or end, is at `i`. */
  lemma CutAt(s: seq<Byte>, i: nat, separator: Byte, after: Byte)
    requires i <= |s| && (forall k :: 0 <= k < i ==> s[k] != separator) && (i < |s| ==> s[i] == separator)
    ensures Cut(s, separator, after)
         == if i < |s| then [s[..i]] + Cut(s[i + 1..], separator, after) else if s == [] && after != separator then [] else [s]
  {
    FirstAtIs(s, separator, i);
  }

  lemma JoinStep(v: seq<Byte>, rest: seq<seq<Byte>>, separator: Byte)
    ensures Join([v] + rest, separator) == if rest == [] then v else v + [separator] + Join(rest, separator)
  {
    assert ([v] + rest)[1..] == rest;
  }

  /** Cutting is undone by joining, for every string without a separator at its end. */
  lemma {:induction false} JoinCut(s: seq<Byte>, separator: Byte, after: Byte)
    requires s != [] && s[|s| - 1] != separator
    ensures Cut(s, separator, after) != [] && Join(Cut(s, separator, after), separator) == s
    decreases |s|
  {
    hide Cut;
    hide Join;
    var i := FirstAt(s, separator);
    CutAt(s, i, separator, after);
    if i < |s| {
      JoinCut(s[i + 1..], separator, after);
      JoinStep(s[..i], Cut(s[i + 1..], separator, after), separator);
      assert s == s[..i] + [separator] + s[i + 1..];
    } else {
      JoinStep(s, [], separator);
      assert [s] + [] == [s];
    }
  }

  predicate Component(c: seq<Byte>, separator: Byte) {
    c != [] && separator !in c
  }

  /** Joining is undone by cutting, for nonempty components without separators. */
  lemma {:induction false} CutJoin(values: seq<seq<Byte>>, separator: Byte, after: Byte)
    requires after != separator && forall k :: 0 <= k < |values| ==> Component(values[k], separator)
    ensures Cut(Join(values, separator), separator, after) == values
    decreases |values|
  {
    hide Cut;
    hide Join;
    if values == [] {
      JoinNone(separator);
      CutAt([], 0, separator, after);
    } else {
      var c, rest := values[0], values[1..];
      assert values == [c] + rest;
      JoinStep(c, rest, separator);
      if rest == [] {
        CutAt(c, |c|, separator, after);
      } else {
        CutJoin(rest, separator, after);
        var s, t := Join(values, separator), Join(rest, separator);
        assert s[|c|] == separator && s[..|c|] == c && s[|c| + 1..] == t;
        assert forall k :: 0 <= k < |c| ==> s[k] == c[k] && c[k] in c;
        CutAt(s, |c|, separator, after);
      }
    }
  }

  lemma JoinNone(separator: Byte)
    ensures Join([], separator) == []
  {
  }

  /** Joining fewer components gives a shorter string. */
  lemma {:induction false} JoinPrefix(a: seq<seq<Byte>>, b: seq<seq<Byte>>, separator: Byte)
    requires a < b
    ensures |Join(a, separator)| <= |Join(b, separator)|
    ensures |Join(a, separator)| == |Join(b, separator)| ==> a == [] && b == [[]]
    decreases |a|
  {
    if a != [] {
      assert a[1..] < b[1..] && a[0] == b[0];
      if |a| > 1 { JoinPrefix(a[1..], b[1..], separator); }
    } else {
      JoinLength(b, separator);
    }
  }

  lemma {:induction false} JoinLength(b: seq<seq<Byte>>, separator: Byte)
    requires b != []
    ensures |Join(b, separator)| >= |b| - 1 + |b[0]|
    decreases |b|
  {
    if |b| > 1 { JoinLength(b[1..], separator); }
  }

  /** Behind the first option with a number, every further one has delta 0. */
  lemma RepeatedDelta(opts: seq<Option>, i: nat)
    requires Sorted(0, opts) && i < |opts| && FindFirst(opts, opts[i].number) < i
    ensures DeltaAt(opts, i) == 0
  {
    var f := FindFirst(opts, opts[i].number);
    SortedAt(0, opts, f, i - 1);
    SortedAt(0, opts, i - 1, i);
  }

  /** Reads of a number are exact when its first option needs at most one extension byte for its delta. */
  predicate Readable(opts: seq<Option>, number: nat) {
    var i := FindFirst(opts, number);
    i >= 0 ==> !Far(opts, i)
  }

  /** What is read for the first option of a number that is not readable, as far as the buffer goes. */
  ghost function Misread(store: OptionStore, i: nat): seq<Byte>
    requires i < store.count <= store.entries.Length && i < |store.opts| && 0 < store.ValueAt(i) <= store.buf.Length
    reads store, store.entries, store.buf
  {
    var from, size := store.ValueAt(i) - 1, SizeRead(store.opts, i);
    store.buf[..][from..if from + size <= store.buf.Length then from + size else store.buf.Length]
  }

  /** The values that reads of a number yield, one after the other: only the first can be misread. */
  ghost function Seen(store: OptionStore, number: nat): seq<seq<Byte>>
    requires store.Valid()
    reads store, store.entries, store.buf
  {
    var values, i := ValuesOf(store.opts, number), FindFirst(store.opts, number);
    if Readable(store.opts, number) then values
    else
      ValueInside(store, i);
      FirstValue(store.opts, number);
      [Misread(store, i)] + values[1..]
  }

  /** No read of the number leaves the buffer. */
  ghost predicate InReach(store: OptionStore, number: nat)
    requires store.Valid()
    reads store, store.entries, store.buf
  {
    var i := FindFirst(store.opts, number);
    if Readable(store.opts, number) then true
    else
      ValueInside(store, i);
      store.ValueAt(i) - 1 + SizeRead(store.opts, i) <= store.buf.Length
  }

  lemma ValueInside(store: OptionStore, i: nat)
    requires store.Valid() && i < |store.opts|
    ensures |store.opts| == store.count && 0 < store.ValueAt(i) && store.ValueAt(i) + |store.opts[i].value| <= store.buf.Length
  {
    ValueBytes(store, i);
  }

  /** Readable numbers are read as they are. */
  lemma SeenReadable(store: OptionStore, number: nat)
    requires store.Valid() && Readable(store.opts, number)
    ensures Seen(store, number) == ValuesOf(store.opts, number) && InReach(store, number)
  {
  }

  /** Scanning on to the next option with a number yields the next of its values. */
  lemma NextValue(opts: seq<Option>, number: nat, i: nat, j: nat)
    requires i < j <= |opts| && opts[j - 1].number == number && forall k :: i <= k < j - 1 ==> opts[k].number != number
    ensures ValuesOf(opts[..j], number) == ValuesOf(opts[..i], number) + [opts[j - 1].value]
    ensures ValuesOf(opts[..j], number) <= ValuesOf(opts, number)
  {
    var gap := opts[i..j - 1];
    NoValues(gap, number);
    ValuesOfConcat(opts[..i], gap, number);
    ValuesOfConcat(opts[..i] + gap, [opts[j - 1]], number);
    assert opts[..j] == opts[..i] + gap + [opts[j - 1]];
    ValuesOfConcat(opts[..j], opts[j..], number);
    assert opts == opts[..j] + opts[j..];
  }

  lemma NoMoreValues(opts: seq<Option>, number: nat, i: nat)
    requires i <= |opts| && forall k :: i <= k < |opts| ==> opts[k].number != number
    ensures ValuesOf(opts[..i], number) == ValuesOf(opts, number)
  {
    NoValues(opts[i..], number);
    ValuesOfConcat(opts[..i], opts[i..], number);
    assert opts == opts[..i] + opts[i..];
  }

  lemma {:induction false} JoinAppend(values: seq<seq<Byte>>, v: seq<Byte>, separator: Byte)
    ensures Join(values + [v], separator) == Join(values, separator) + (if values == [] then [] else [separator]) + v
    decreases |values|
  {
    if values == [] {
      assert values + [v] == [v];
    } else {
      assert (values + [v])[1..] == values[1..] + [v];
      if |values| > 1 { JoinAppend(values[1..], v, separator); }
    }
  }

  lemma {:induction false} UpToEmptyIs(values: seq<seq<Byte>>, k: nat)
    requires k <= |values| && (forall m :: 0 <= m < k ==> values[m] != []) && (k < |values| ==> values[k] == [])
    ensures UpToEmpty(values) == values[..k]
    decreases k
  {
    if k > 0 {
      UpToEmptyIs(values[1..], k - 1);
      assert [values[0]] + values[1..][..k - 1] == values[..k];
    }
  }

  /** Does a joined string fit? A single component needs one byte more than its length. */
  predicate Fits(values: seq<seq<Byte>>, separator: Byte, capacity: nat) {
    |Join(values, separator)| <= capacity && (|values| == 1 ==> |values[0]| < capacity)
  }

  lemma FitsPrefix(a: seq<seq<Byte>>, b: seq<seq<Byte>>, separator: Byte, capacity: nat)
    requires a <= b && Fits(b, separator, capacity) && forall k :: 0 <= k < |b| ==> b[k] != []
    ensures Fits(a, separator, capacity)
  {
    if a != b {
      JoinPrefix(a, b, separator);
      if |a| == 1 {
        assert b[1..] != [] && a[0] == b[0];
        assert |b| > 1 && Join(b, separator) == b[0] + [separator] + Join(b[1..], separator);
      }
    } else {
      assert a == b;
    }
  }

  lemma {:induction false} WithinUpToEmpty(values: seq<seq<Byte>>, done: seq<seq<Byte>>)
    requires done <= values && forall k :: 0 <= k < |done| ==> done[k] != []
    ensures done <= UpToEmpty(values)
    decreases |done|
  {
    if done != [] {
      WithinUpToEmpty(values[1..], done[1..]);
      assert done == [values[0]] + done[1..];
    }
  }

  /** The next value of a number, behind the values `done` that were read before. */
  ghost predicate Upcoming(store: OptionStore, number: nat, r: Lookup, index: nat, done: seq<seq<Byte>>)
    requires store.Valid()
    reads store, store.entries, store.buf
  {
    var all := Seen(store, number);
    if r.Found? then
      && index <= |store.opts| && r.offset <= store.buf.Length && done < all && |ValuesOf(store.opts[..index], number)| == |done| + 1
      && (if r.offset + r.size <= store.buf.Length
          then all[|done|] == store.buf[r.offset..r.offset + r.size] && (done == [] ==> InReach(store, number))
          else done == [] && !InReach(store, number) && r.size == SizeRead(store.opts, FindFirst(store.opts, number)))
    else
      r == NotFound && all == done && (done == [] ==> InReach(store, number))
  }

  /** A scan from a place before which `done` were read: what `unicoap_options_get_next_by_number` yields next. */
  method NextOf(it: OptionIterator, number: nat, ghost done: seq<seq<Byte>>) returns (r: Lookup)
    requires it.store.Valid() && it.index <= |it.store.opts|
    requires done <= Seen(it.store, number) && |ValuesOf(it.store.opts[..it.index], number)| == |done|
    modifies it
    ensures it.store.Valid() && Upcoming(it.store, number, r, it.index, done)
  {
    hide Sorted;
    hide ValuesOf;
    hide Readable;
    hide FindFirst;
    hide Represents;
    hide Upcoming;
    hide Seen;
    hide OptionStore.Reads;
    hide OptionStore.Valid;
    ghost var opts, i := it.store.opts, it.index;
    r := it.GetNextByNumber(number);
    if r == NotFound {
      NothingUpcoming(it.store, number, i, it.index, done);
    } else {
      NowUpcoming(it.store, number, r, i, it.index, done);
    }
  }

  lemma NothingUpcoming(store: OptionStore, number: nat, i: nat, j: nat, done: seq<seq<Byte>>)
    requires store.Valid() && i <= |store.opts| && done <= Seen(store, number) && |ValuesOf(store.opts[..i], number)| == |done|
    requires forall k :: i <= k < |store.opts| ==> store.opts[k].number != number
    ensures Upcoming(store, number, NotFound, j, done)
  {
    hide ValuesOf;
    hide FindFirst;
    NoMoreValues(store.opts, number, i);
    SeenLength(store, number);
  }

  lemma SeenLength(store: OptionStore, number: nat)
    requires store.Valid()
    ensures |Seen(store, number)| == |ValuesOf(store.opts, number)|
    ensures forall k :: 0 < k < |Seen(store, number)| ==> Seen(store, number)[k] == ValuesOf(store.opts, number)[k]
  {
    FirstValue(store.opts, number);
    if !Readable(store.opts, number) { ValueInside(store, FindFirst(store.opts, number)); }
  }

  lemma NowUpcoming(store: OptionStore, number: nat, r: Lookup, i: nat, j: nat, done: seq<seq<Byte>>)
    requires store.Valid() && |store.opts| == store.count && i < j <= |store.opts| && r.Found?
    requires done <= Seen(store, number) && |ValuesOf(store.opts[..i], number)| == |done|
    requires store.opts[j - 1].number == number && forall k :: i <= k < j - 1 ==> store.opts[k].number != number
    requires store.Reads(j - 1, r)
    ensures Upcoming(store, number, r, j, done)
  {
    hide ValuesOf;
    hide FindFirst;
    hide Sorted;
    hide OptionStore.Valid;
    var opts := store.opts;
    StoreSorted(store);
    NextValue(opts, number, i, j);
    SeenLength(store, number);
    var window := if r.offset + r.size <= store.buf.Length then store.buf[r.offset..r.offset + r.size] else [];
    assert store.buf[..][..] == store.buf[..];
    if done == [] {
      FirstIs(opts, number, i, j - 1);
    } else {
      NotFirst(opts, number, i, j - 1);
      RepeatedDelta(opts, j - 1);
    }
  }

  lemma FirstIs(opts: seq<Option>, number: nat, i: nat, j: nat)
    requires i <= j < |opts| && opts[j].number == number && ValuesOf(opts[..i], number) == []
    requires forall k :: i <= k < j ==> opts[k].number != number
    ensures FindFirst(opts, number) == j
  {
    FirstValue(opts[..i], number);
    forall k | 0 <= k < i ensures opts[k].number != number { assert opts[..i][k] == opts[k]; }
  }

  lemma NotFirst(opts: seq<Option>, number: nat, i: nat, j: nat)
    requires i <= j < |opts| && ValuesOf(opts[..i], number) != []
    ensures FindFirst(opts, number) < j
  {
    FirstValue(opts[..i], number);
    var f := FindFirst(opts[..i], number);
    assert opts[f] == opts[..i][f];
  }

  lemma StoreSorted(store: OptionStore)
    requires store.Valid()
    ensures Sorted(0, store.opts) && |store.opts| == store.count <= store.entries.Length
  {
  }

  /** One round of the copying loop: a separator unless this is the first component, then the component. */
  method WriteComponent(buffer: array<Byte>, at: nat, size: nat, component: seq<Byte>, separator: Byte, ghost was: seq<Byte>, ghost joined: seq<Byte>)
      returns (size': nat)
    requires at + size + 1 + |component| <= buffer.Length == |was|
    requires size == |joined| && buffer[..] == Splice(was, at, joined)
    modifies buffer
    ensures size' == size + (if size == 0 then 0 else 1) + |component|
    ensures buffer[..] == Splice(was, at, joined + (if size == 0 then [] else [separator]) + component)
  {
    hide Splice;
    size' := size;
    ghost var joined' := joined + [];
    assert joined' == joined;
    if size > 0 {
      buffer[at + size] := separator;
      SpliceByte(was, buffer[..], at, joined, separator);
      joined' := joined + [separator];
      size' := size + 1;
    }
    MemCpy(buffer, at + size', component);
    SpliceTwice(was, at, joined', component);
    size' := size' + |component|;
  }

  /**
   * `unicoap_options_copy_values_joined`: stops at the first empty value. A misread value may reach behind the buffer; the
   * source reads on there if the value seems to fit, and the model stops.
   */
  method CopyValuesJoined(store: OptionStore, number: nat, buffer: array<Byte>, at: nat, capacity: nat, separator: Byte)
      returns (size: int, overread: bool)
    requires store.Valid() && buffer != store.buf && at + capacity <= buffer.Length && capacity > 0
    modifies buffer
    ensures store.Valid()
    ensures overread <==> !InReach(store, number) && SizeRead(store.opts, FindFirst(store.opts, number)) < capacity
    ensures InReach(store, number) ==>
              var values := UpToEmpty(Seen(store, number));
              && (size == ENOBUFS <==> !Fits(values, separator, capacity))
              && (size != ENOBUFS ==>
                    && size == |Join(values, separator)| <= capacity
                    && buffer[..] == Splice(old(buffer[..]), at, Join(values, separator)))
    ensures !InReach(store, number) && !overread ==> size == ENOBUFS && buffer[..] == old(buffer[..])
  {
    hide Join;
    hide Splice;
    hide ValuesOf;
    hide UpToEmpty;
    hide Fits;
    hide Represents;
    hide Seen;
    hide InReach;
    hide OptionStore.Valid;
    var it := new OptionIterator(store);
    size, overread := 0, false;
    ghost var done: seq<seq<Byte>>, was, all := [], buffer[..], Seen(store, number);
    JoinStart(store.opts, number, was, at, separator, capacity);
    var r := NextOf(it, number, done);
    while r.Found? && r.size > 0
      invariant it.store == store && store.Valid() && all == Seen(store, number) && Upcoming(store, number, r, it.index, done)
      invariant done == [] || InReach(store, number)
      invariant forall k :: 0 <= k < |done| ==> done[k] != []
      invariant size == |Join(done, separator)| <= capacity && Fits(done, separator, capacity) && (done == [] <==> size == 0)
      invariant buffer[..] == Splice(was, at, Join(done, separator))
      decreases |all| - |done|
    {
      if r.offset + r.size <= store.buf.Length {
        OneMore(all, done, all[|done|], separator, capacity);
      }
      if capacity < size + r.size + 1 {
        return ENOBUFS, false;
      }
      if r.offset + r.size > store.buf.Length {
        return 0, true;
      }
      size := WriteComponent(buffer, at, size, store.buf[r.offset..r.offset + r.size], separator, was, Join(done, separator));
      done := done + [all[|done|]];
      r := NextOf(it, number, done);
    }
    NoneLeft(all, done);
  }

  lemma JoinStart(opts: seq<Option>, number: nat, b: seq<Byte>, at: nat, separator: Byte, capacity: nat)
    requires at <= |b|
    ensures ValuesOf(opts[..0], number) == [] && Join([], separator) == [] && Splice(b, at, []) == b && Fits([], separator, capacity)
  {
  }

  /** The check before each component is exact. */
  lemma FitsNext(done: seq<seq<Byte>>, v: seq<Byte>, separator: Byte, capacity: nat)
    requires Fits(done, separator, capacity) && v != []
    ensures Fits(done + [v], separator, capacity) <==> |Join(done, separator)| + |v| + 1 <= capacity
    ensures Fits(done + [v], separator, capacity) ==> |Join(done + [v], separator)| <= capacity
  {
    JoinAppend(done, v, separator);
  }

  /** One component more: it fits exactly if the check says so, and if it does not, neither do all together. */
  lemma OneMore(all: seq<seq<Byte>>, done: seq<seq<Byte>>, v: seq<Byte>, separator: Byte, capacity: nat)
    requires done < all && v == all[|done|] && v != [] && Fits(done, separator, capacity) && forall k :: 0 <= k < |done| ==> done[k] != []
    ensures done + [v] <= all && forall k :: 0 <= k < |done + [v]| ==> (done + [v])[k] != []
    ensures Join(done + [v], separator) == Join(done, separator) + (if done == [] then [] else [separator]) + v
    ensures Fits(done + [v], separator, capacity) <==> |Join(done, separator)| + |v| + 1 <= capacity
    ensures !Fits(done + [v], separator, capacity) ==> !Fits(UpToEmpty(all), separator, capacity)
  {
    hide Join;
    hide UpToEmpty;
    JoinAppend(done, v, separator);
    FitsNext(done, v, separator, capacity);
    assert done + [v] <= all;
    if !Fits(done + [v], separator, capacity) {
      WithinUpToEmpty(all, done + [v]);
      NotFitting(done + [v], UpToEmpty(all), separator, capacity);
    }
  }

  lemma NoneLeft(all: seq<seq<Byte>>, done: seq<seq<Byte>>)
    requires done <= all && (forall k :: 0 <= k < |done| ==> done[k] != []) && (done < all ==> all[|done|] == [])
    ensures UpToEmpty(all) == done
  {
    hide UpToEmpty;
    UpToEmptyIs(all, |done|);
  }

  lemma NotFitting(a: seq<seq<Byte>>, b: seq<seq<Byte>>, separator: Byte, capacity: nat)
    requires a <= b && !Fits(a, separator, capacity) && forall k :: 0 <= k < |b| ==> b[k] != []
    ensures !Fits(b, separator, capacity)
  {
    if Fits(b, separator, capacity) { FitsPrefix(a, b, separator, capacity); }
  }

  lemma SpliceByte(was: seq<Byte>, now: seq<Byte>, at: nat, x: seq<Byte>, y: Byte)
    requires at + |x| < |was| && now == Splice(was, at, x)[at + |x| := y]
    ensures now == Splice(was, at, x + [y])
  {
  }

  // ---------------------------------------------------------------- splitting

  /** The list after one insertion per value, in order. */
  function AddAll(opts: seq<Option>, number: nat, values: seq<seq<Byte>>): seq<Option>
    decreases |values|
  {
    if values == [] then opts else AddAll(Insert(opts, Option(number, values[0])), number, values[1..])
  }

  lemma {:induction false} AddAllAppend(opts: seq<Option>, number: nat, values: seq<seq<Byte>>, v: seq<Byte>)
    ensures AddAll(opts, number, values + [v]) == Insert(AddAll(opts, number, values), Option(number, v))
    decreases |values|
  {
    hide Insert;
    if values == [] {
      assert values + [v] == [v];
      assert AddAll(opts, number, [v]) == AddAll(Insert(opts, Option(number, v)), number, [v][1..]);
    } else {
      assert (values + [v])[1..] == values[1..] + [v];
      AddAllAppend(Insert(opts, Option(number, values[0])), number, values[1..], v);
    }
  }

  /** Adding keeps equal numbers in insertion order and leaves all other numbers alone. */
  lemma {:induction false} AddAllSpec(opts: seq<Option>, number: nat, values: seq<seq<Byte>>)
    requires Sorted(0, opts) && number <= NUMBER_MAX && forall k :: 0 <= k < |values| ==> |values[k]| <= UINT20_MAX
    ensures Sorted(0, AddAll(opts, number, values))
    ensures forall n: nat :: ValuesOf(AddAll(opts, number, values), n) == ValuesOf(opts, n) + if n == number then values else []
    decreases |values|
  {
    hide Sorted;
    hide ValuesOf;
    hide Insert;
    if values != [] {
      var o := Option(number, values[0]);
      InsertSpec(opts, o);
      AddAllSpec(Insert(opts, o), number, values[1..]);
      assert values == [values[0]] + values[1..];
      forall n: nat
        ensures ValuesOf(AddAll(opts, number, values), n) == ValuesOf(opts, n) + if n == number then values else []
      {
        assert ValuesOf(Insert(opts, o), n) == ValuesOf(opts, n) + if n == number then [o.value] else [];
      }
    }
  }

  /** The string without its leading separator. */
  function Stripped(s: seq<Byte>, separator: Byte): seq<Byte> {
    if s != [] && s[0] == separator then s[1..] else s
  }

  /** The components that are added for a string. */
  function Pieces(s: seq<Byte>, separator: Byte, after: Byte): seq<seq<Byte>> {
    if s == [] then [] else Cut(Stripped(s, separator), separator, after)
  }

  /** The scan from `start` has reached the end of a component at `p`. */
  lemma NextPiece(s: seq<Byte>, start: nat, p: nat, separator: Byte, after: Byte)
    requires start <= p <= |s| && (forall k :: start <= k < p ==> s[k] != separator) && (p < |s| ==> s[p] == separator)
    ensures Cut(s[start..], separator, after)
         == if p < |s| then [s[start..p]] + Cut(s[p + 1..], separator, after)
            else if start == p && after != separator then [] else [s[start..p]]
  {
    hide Cut;
    var rest := s[start..];
    CutAt(rest, p - start, separator, after);
    assert rest[..p - start] == s[start..p];
    if p < |s| { assert rest[p - start + 1..] == s[p + 1..]; }
    else { assert rest == s[start..p]; }
  }

  /** A list that a store of this many entries and bytes can hold. */
  ghost predicate HasRoom(opts: seq<Option>, max: nat, capacity: nat) {
    Sorted(0, opts) && |opts| <= max && |Encode(0, opts)| <= capacity
  }

  /** The assertion that fails on a full store when the new option does not go to the end. */
  ghost predicate Blocked(opts: seq<Option>, number: nat, capacity: nat) {
    Sorted(0, opts) && |Encode(0, opts)| == capacity && number < Last(0, opts)
  }

  /** If all additions together have room, then so have the first ones. */
  lemma {:induction false} RoomBefore(opts: seq<Option>, number: nat, values: seq<seq<Byte>>, n: nat, max: nat, capacity: nat)
    requires Sorted(0, opts) && number <= NUMBER_MAX && n <= |values| && forall k :: 0 <= k < |values| ==> |values[k]| <= UINT20_MAX
    ensures Sorted(0, AddAll(opts, number, values[..n]))
    ensures HasRoom(AddAll(opts, number, values), max, capacity) ==> HasRoom(AddAll(opts, number, values[..n]), max, capacity)
    decreases |values| - n
  {
    hide Sorted;
    hide Encode;
    hide AddAll;
    hide Insert;
    AddAllSpec(opts, number, values[..n]);
    if n == |values| {
      assert values[..n] == values;
    } else {
      RoomBefore(opts, number, values, n + 1, max, capacity);
      assert values[..n + 1] == values[..n] + [values[n]];
      AddAllAppend(opts, number, values[..n], values[n]);
      InsertGrows(AddAll(opts, number, values[..n]), Option(number, values[n]));
    }
  }

  /**
   * `unicoap_options_add_values_joined` on the bytes `s`, followed in memory by the byte `after`. It succeeds exactly if the
   * store has room for the list with all components, and no assertion fails on the way.
   */
  method AddValuesJoined(store: OptionStore, number: nat, s: seq<Byte>, separator: Byte, after: Byte)
      returns (r: Status, ghost added: nat)
    requires store.Valid() && number <= NUMBER_MAX && forall c <- Pieces(s, separator, after) :: |c| <= UINT20_MAX
    modifies store, store.buf, store.entries
    ensures store.Valid() && store.buf == old(store.buf) && store.capacity == old(store.capacity)
    ensures added <= |Pieces(s, separator, after)| && (r == Ok <==> added == |Pieces(s, separator, after)|)
    ensures store.opts == AddAll(old(store.opts), number, Pieces(s, separator, after)[..added])
    ensures var opts, pieces := old(store.opts), Pieces(s, separator, after);
            && (r == Ok <==>
                  && HasRoom(AddAll(opts, number, pieces), store.entries.Length, store.capacity)
                  && forall j :: 0 <= j < |pieces| ==> !(store.debug && Blocked(AddAll(opts, number, pieces[..j]), number, store.capacity)))
            && (r == NoBufs <==>
                  added < |pieces| && !HasRoom(AddAll(opts, number, pieces[..added + 1]), store.entries.Length, store.capacity))
            && r != OutOfBuffer
  {
    hide Cut;
    hide AddAll;
    hide Insert;
    hide Sorted;
    hide Encode;
    hide Last;
    hide SameOutside;
    hide Pieces;
    hide HasRoom;
    hide Blocked;
    hide OptionStore.Valid;
    hide OptionStore.Scattered;
    hide OptionStore.Slack;
    var end := |s|;
    var p := if (if end > 0 then s[0] else after) == separator then 1 else 0;
    var start := p;
    ghost var opts, all, max, capacity := store.opts, Pieces(s, separator, after), store.entries.Length, store.capacity;
    AddNone(opts, number);
    store.ValidScattered();
    r := Ok;
    FirstPiece(s, separator, after);
    assert all[..0] == [] && all[0..] == all;
    added := 0;
    while p <= end
      invariant store.Valid() && store.buf == old(store.buf) && store.capacity == capacity && r == Ok
      invariant start <= p && p <= end + 1 && added <= |all|
      invariant store.opts == AddAll(opts, number, all[..added])
      invariant forall j :: 0 <= j < added ==> !(store.debug && Blocked(AddAll(opts, number, all[..j]), number, capacity))
      invariant p <= end ==> all[added..] == Cut(s[start..], separator, after) && forall k :: start <= k < p ==> s[k] != separator
      invariant p > end ==> added == |all|
      decreases end + 1 - p
    {
      var c := if p < end then s[p] else after;
      if c == separator || (p != start && p == end) {
        PieceTaken(s, start, p, separator, after, all, added);
        AddAllAppend(opts, number, all[..added], s[start..p]);
        r := AddPiece(store, number, s[start..p]);
        if r != Ok {
          RoomBefore(opts, number, all, added + 1, max, capacity);
          return;
        }
        added := added + 1;
        p := p + 1;
        start := p;
      } else {
        if p == end { NextPiece(s, start, p, separator, after); }
        p := p + 1;
      }
    }
    assert all[..added] == all;
    RoomIs(store);
  }

  lemma RoomIs(store: OptionStore)
    requires store.Valid()
    ensures HasRoom(store.opts, store.entries.Length, store.capacity)
  {
    hide Sorted;
    hide Encode;
    hide Spread;
    store.ValidScattered();
  }

  /** One addition of the loop. */
  method AddPiece(store: OptionStore, number: nat, piece: seq<Byte>) returns (r: Status)
    requires store.Valid() && number <= NUMBER_MAX && |piece| <= UINT20_MAX
    modifies store, store.buf, store.entries
    ensures store.Valid() && store.buf == old(store.buf) && store.capacity == old(store.capacity)
    ensures store.opts == if r == Ok then Insert(old(store.opts), Option(number, piece)) else old(store.opts)
    ensures r == NoBufs <==> !HasRoom(Insert(old(store.opts), Option(number, piece)), store.entries.Length, store.capacity)
    ensures r == Trap ==> store.debug && Blocked(old(store.opts), number, store.capacity)
    ensures r == Ok ==> !(store.debug && Blocked(old(store.opts), number, store.capacity))
    ensures r != OutOfBuffer
  {
    hide Sorted;
    hide Encode;
    hide Last;
    hide Insert;
    hide SameOutside;
    hide OptionStore.Valid;
    hide OptionStore.Scattered;
    hide OptionStore.Slack;
    store.ValidScattered();
    InsertGrows(store.opts, Option(number, piece));
    r := store.Add(number, piece);
    store.ScatteredSizes();
    store.IntactIff();
  }

  lemma FirstPiece(s: seq<Byte>, separator: Byte, after: Byte)
    ensures var first := if |s| > 0 then s[0] else after;
            var start := if first == separator then 1 else 0;
            if start <= |s| then Pieces(s, separator, after) == Cut(s[start..], separator, after) else Pieces(s, separator, after) == []
  {
    if s == [] { CutAt([], 0, separator, after); }
    else { assert s[(if s[0] == separator then 1 else 0)..] == Stripped(s, separator); }
  }

  lemma TakePiece(all: seq<seq<Byte>>, i: nat, x: seq<Byte>, rest: seq<seq<Byte>>)
    requires i <= |all| && all[i..] == [x] + rest
    ensures i < |all| && all[..i] + [x] == all[..i + 1] && all[i + 1..] == rest
  {
    assert all[i..][0] == all[i] && all[i..][1..] == all[i + 1..];
  }

  /** The scan that ends a component at `p` has found the next of the pieces to add. */
  lemma PieceTaken(s: seq<Byte>, start: nat, p: nat, separator: Byte, after: Byte, all: seq<seq<Byte>>, i: nat)
    requires start <= p <= |s| && (forall k :: start <= k < p ==> s[k] != separator)
    requires (if p < |s| then s[p] else after) == separator || (p != start && p == |s|)
    requires i <= |all| && all[i..] == Cut(s[start..], separator, after)
    ensures i < |all| && all[i] == s[start..p] && all[..i] + [s[start..p]] == all[..i + 1]
    ensures if p < |s| then all[i + 1..] == Cut(s[p + 1..], separator, after) else i + 1 == |all|
  {
    hide Cut;
    NextPiece(s, start, p, separator, after);
    TakePiece(all, i, s[start..p], if p < |s| then Cut(s[p + 1..], separator, after) else []);
  }

  lemma AddNone(opts: seq<Option>, number: nat)
    ensures AddAll(opts, number, []) == opts
  {
  }

  /** Every component is nonempty: no separator at the end, none doubled. */
  predicate Clean(s: seq<Byte>, separator: Byte) {
    s != [] && s[0] != separator && s[|s| - 1] != separator && forall k :: 0 <= k < |s| - 1 ==> s[k] != separator || s[k + 1] != separator
  }

  /** A string whose first separator is at `i` is clean iff that is not its start and the rest is clean. */
  lemma CleanStep(s: seq<Byte>, i: nat, separator: Byte)
    requires i + 1 < |s| && s[i] == separator && (forall k :: 0 <= k < i ==> s[k] != separator) && s[|s| - 1] != separator
    ensures Clean(s, separator) <==> i > 0 && Clean(s[i + 1..], separator)
  {
    var rest := s[i + 1..];
    assert forall k :: 0 <= k < |rest| ==> rest[k] == s[i + 1 + k];
    if Clean(s, separator) {
      assert s[i] == separator;
      forall k | 0 <= k < |rest| - 1 ensures rest[k] != separator || rest[k + 1] != separator {
        var j := i + 1 + k;
        assert s[j] != separator || s[j + 1] != separator;
      }
    }
    if i > 0 && Clean(rest, separator) {
      forall k | 0 <= k < |s| - 1 ensures s[k] != separator || s[k + 1] != separator {
        if k == i {
          assert s[k + 1] == rest[0];
        } else if k > i {
          var j := k - i - 1;
          assert s[k] == rest[j] && s[k + 1] == rest[j + 1];
        }
      }
    }
  }

  lemma CleanPlain(s: seq<Byte>, separator: Byte)
    requires s != [] && forall k :: 0 <= k < |s| ==> s[k] != separator
    ensures Clean(s, separator)
  {
  }

  lemma UpToEmptyStep(v: seq<Byte>, rest: seq<seq<Byte>>)
    ensures UpToEmpty([v] + rest) == if v == [] then [] else [v] + UpToEmpty(rest)
  {
    assert ([v] + rest)[1..] == rest;
  }

  /** The components of a clean string are all nonempty. */
  lemma {:induction false} CleanPieces(s: seq<Byte>, separator: Byte, after: Byte)
    requires s != [] && s[|s| - 1] != separator
    ensures Clean(s, separator) <==> UpToEmpty(Cut(s, separator, after)) == Cut(s, separator, after)
    decreases |s|
  {
    hide Clean;
    hide UpToEmpty;
    var i := FirstAt(s, separator);
    CutAt(s, i, separator, after);
    if i < |s| {
      var rest := s[i + 1..];
      var tail := Cut(rest, separator, after);
      CleanPieces(rest, separator, after);
      CleanStep(s, i, separator);
      UpToEmptyStep(s[..i], tail);
      assert ([s[..i]] + tail)[1..] == tail && ([s[..i]] + UpToEmpty(tail))[1..] == UpToEmpty(tail);
    } else {
      CleanPlain(s, separator);
      UpToEmptyStep(s, []);
      assert [s] + [] == [s] && UpToEmpty([]) == [];
    }
  }

  /** The delta of the first option that is added under a fresh number. */
  function DeltaFor(opts: seq<Option>, number: nat): int {
    var p := InsertPos(opts, number);
    number - if p == 0 then 0 else opts[p - 1].number
  }

  /** Additions leave what stands before them alone. */
  lemma {:induction false} AddAllKeeps(opts: seq<Option>, number: nat, values: seq<seq<Byte>>, q: nat)
    requires q <= InsertPos(opts, number)
    ensures var all := AddAll(opts, number, values); q <= |opts| <= |all| && all[..q] == opts[..q]
    decreases |values|
  {
    if values != [] {
      var next := Insert(opts, Option(number, values[0]));
      assert next[..q] == opts[..q];
      forall k | 0 <= k < q ensures next[k].number <= number { assert next[k] == next[..q][k] == opts[k]; }
      BehindSmaller(next, number, q);
      AddAllKeeps(next, number, values[1..], q);
    }
  }

  lemma BehindSmaller(opts: seq<Option>, number: nat, q: nat)
    requires q <= |opts| && forall k :: 0 <= k < q ==> opts[k].number <= number
    ensures q <= InsertPos(opts, number)
  {
    hide InsertPos;
  }

  /** The first value of a fresh number is its first option, with that delta. */
  lemma FirstAdded(opts: seq<Option>, number: nat, values: seq<seq<Byte>>)
    requires ValuesOf(opts, number) == [] && values != []
    ensures var all, i := AddAll(opts, number, values), FindFirst(AddAll(opts, number, values), number);
            i >= 0 && all[i].value == values[0] && DeltaAt(all, i) == DeltaFor(opts, number)
  {
    hide InsertPos;
    hide FindFirst;
    hide ValuesOf;
    var p, x := InsertPos(opts, number), Option(number, values[0]);
    var next, all := Insert(opts, x), AddAll(opts, number, values);
    FirstValue(opts, number);
    assert next[..p + 1] == opts[..p] + [x];
    forall k | 0 <= k < p + 1 ensures next[k].number <= number { assert next[k] == next[..p + 1][k]; }
    BehindSmaller(next, number, p + 1);
    AddAllKeeps(next, number, values[1..], p + 1);
    assert all[..p + 1] == opts[..p] + [x];
    assert all[p] == all[..p + 1][p] == x;
    forall k | 0 <= k < p ensures all[k] == opts[k] { assert all[k] == all[..p + 1][k]; }
    assert FindFirst(all, number) == p;
  }

  /** What is read for a far option: the byte in front of the value, then the value, as far as the size read goes. */
  lemma MisreadIs(store: OptionStore, i: nat)
    requires store.Valid() && i < |store.opts| && Far(store.opts, i)
    ensures |store.opts| == store.count <= store.entries.Length && 0 < store.ValueAt(i) <= store.buf.Length
    ensures var value, found, size := store.opts[i].value, Misread(store, i), SizeRead(store.opts, i);
            && (found == [] <==> value == [])
            && (value != [] ==> found[0] == ByteBefore(DeltaAt(store.opts, i), |value|))
            && (forall k :: 0 < k < |found| && k <= |value| ==> found[k] == value[k - 1])
            && if store.ValueAt(i) - 1 + size <= store.buf.Length then |found| == size else |found| > |value|
  {
    hide OptionStore.Valid;
    hide ByteBefore;
    hide DeltaAt;
    ValueBytes(store, i);
    var b, v, value, size := store.buf[..], store.ValueAt(i), store.opts[i].value, SizeRead(store.opts, i);
    EarlyBytes(b, v, value, if v - 1 + size <= |b| then v - 1 + size else |b|);
  }

  /** Where the value of option `i` lies, and what is in front of it. */
  lemma ValueBytes(store: OptionStore, i: nat)
    requires store.Valid() && i < |store.opts|
    ensures |store.opts| == store.count <= store.entries.Length && OptionOk(store.opts[i])
    ensures var b, v, value := store.buf[..], store.ValueAt(i), store.opts[i].value;
            && 0 < v && v + |value| <= |b| && b[v..v + |value|] == value
            && (Far(store.opts, i) ==> b[v - 1] == ByteBefore(DeltaAt(store.opts, i), |value|))
  {
    hide Sorted;
    hide Encode;
    hide Index;
    hide Represents;
    hide ByteBefore;
    hide DeltaAt;
    hide ReadExt;
    var b, index, base := store.buf[..], store.entries[..store.count], store.Base();
    RepresentsSizes(store.Packed(), index, base, store.opts);
    ReadPlan(b, index, base, base + store.storageSize, store.opts, i);
    assert index[i] == store.entries[i];
  }

  /** A window that begins one byte early, up to `end`. */
  lemma EarlyBytes(b: seq<Byte>, v: nat, value: seq<Byte>, end: nat)
    requires 0 < v && v + |value| <= |b| && b[v..v + |value|] == value && v - 1 <= end <= |b|
    ensures var found := b[v - 1..end];
            && (found != [] ==> found[0] == b[v - 1])
            && forall k :: 0 < k < |found| && k <= |value| ==> found[k] == value[k - 1]
  {
    var found, window := b[v - 1..end], b[v..v + |value|];
    forall k | 0 < k < |found| && k <= |value| ensures found[k] == value[k - 1] {
      assert found[k] == b[v + (k - 1)] == window[k - 1];
    }
  }

  lemma MisreadSame(store: OptionStore, i: nat)
    requires store.Valid() && i < |store.opts| && Far(store.opts, i)
    ensures |store.opts| == store.count <= store.entries.Length && 0 < store.ValueAt(i) <= store.buf.Length
    ensures Misread(store, i) == store.opts[i].value <==> ShowsSame(DeltaAt(store.opts, i), store.opts[i].value)
  {
    hide OptionStore.Valid;
    hide MisreadSize;
    hide ByteBefore;
    hide DeltaAt;
    MisreadIs(store, i);
    var value, found := store.opts[i].value, Misread(store, i);
    hide Misread;
    if |found| == |value| && value != [] {
      assert found == [found[0]] + value[..|value| - 1];
      ShiftedSame(found[0], value);
    }
  }

  /**
   * Splitting a string into options of a fresh number and joining what is read for them. The result is the string without
   * its leading separator exactly when no component is empty and the first is read as it is: its delta is below 269, or the
   * window one byte early happens to show the same bytes.
   */
  lemma SplitThenJoin(store: OptionStore, opts: seq<Option>, number: nat, s: seq<Byte>, separator: Byte, after: Byte)
    requires store.Valid() && ValuesOf(opts, number) == [] && store.opts == AddAll(opts, number, Pieces(s, separator, after))
    requires Sorted(0, opts) && number <= NUMBER_MAX && forall c <- Pieces(s, separator, after) :: |c| <= UINT20_MAX
    ensures var t, d := Stripped(s, separator), DeltaFor(opts, number);
            && (Join(UpToEmpty(Seen(store, number)), separator) == t
                <==> t == [] || (Clean(t, separator) && (d >= 269 ==> ShowsSame(d, t[..FirstAt(t, separator)]))))
            && (Join(UpToEmpty(Seen(store, number)), separator) == t ==> InReach(store, number))
  {
    hide OptionStore.Valid;
    hide Sorted;
    hide Join;
    hide UpToEmpty;
    hide Cut;
    hide Clean;
    hide AddAll;
    hide ValuesOf;
    hide FindFirst;
    hide DeltaFor;
    hide DeltaAt;
    hide ShowsSame;
    var t, pieces := Stripped(s, separator), Pieces(s, separator, after);
    AddAllSpec(opts, number, pieces);
    assert ValuesOf(store.opts, number) == [] + pieces == pieces;
    if pieces != [] { FirstAdded(opts, number, pieces); }
    NoneFirst(store.opts, number);
    if t == [] {
      EmptyRead(store, number, pieces, separator, after);
    } else {
      CutAt(t, FirstAt(t, separator), separator, after);
      RestoredIff(t, separator, after);
      if Readable(store.opts, number) {
        SeenReadable(store, number);
      } else {
        FarRestored(store, number, t, separator, after);
      }
    }
  }

  lemma NoneFirst(opts: seq<Option>, number: nat)
    ensures FindFirst(opts, number) < 0 <==> ValuesOf(opts, number) == []
  {
    FirstValue(opts, number);
  }

  /** Nothing, or one empty value, is joined to nothing. */
  lemma EmptyRead(store: OptionStore, number: nat, pieces: seq<seq<Byte>>, separator: Byte, after: Byte)
    requires store.Valid() && ValuesOf(store.opts, number) == pieces && (pieces == [] || pieces == Cut([], separator, after))
    ensures Join(UpToEmpty(Seen(store, number)), separator) == [] && InReach(store, number)
  {
    hide OptionStore.Valid;
    hide ValuesOf;
    hide FindFirst;
    CutAt([], 0, separator, after);
    SeenLength(store, number);
    NoneFirst(store.opts, number);
    FirstValue(store.opts, number);
    if !Readable(store.opts, number) { MisreadIs(store, FindFirst(store.opts, number)); }
  }

  /** With a far first option, the string comes back exactly if it is clean and its first component is not changed by the read. */
  lemma FarRestored(store: OptionStore, number: nat, t: seq<Byte>, separator: Byte, after: Byte)
    requires store.Valid() && t != [] && !Readable(store.opts, number) && ValuesOf(store.opts, number) == Cut(t, separator, after)
    ensures Cut(t, separator, after) != [] && FindFirst(store.opts, number) >= 0
    ensures var d, first := DeltaAt(store.opts, FindFirst(store.opts, number)), t[..FirstAt(t, separator)];
            && d >= 269
            && (Join(UpToEmpty(Seen(store, number)), separator) == t <==> Clean(t, separator) && ShowsSame(d, first))
            && (ShowsSame(d, first) ==> InReach(store, number))
  {
    hide OptionStore.Valid;
    hide Join;
    hide UpToEmpty;
    hide Clean;
    hide ValuesOf;
    hide FindFirst;
    hide Cut;
    hide ByteBefore;
    hide Misread;
    hide DeltaAt;
    var i, pieces := FindFirst(store.opts, number), Cut(t, separator, after);
    FirstValue(store.opts, number);
    CutAt(t, FirstAt(t, separator), separator, after);
    MisreadIs(store, i);
    MisreadSame(store, i);
    var found := Misread(store, i);
    assert Seen(store, number) == [found] + pieces[1..];
    ChangedFirst(t, found, separator, after);
  }

  /** If only the first piece is changed, into something that continues it one byte later, the string comes back only unchanged. */
  lemma ChangedFirst(t: seq<Byte>, found: seq<Byte>, separator: Byte, after: Byte)
    requires t != [] && Cut(t, separator, after) != []
    requires var first := Cut(t, separator, after)[0];
             (found == [] <==> first == []) && forall k :: 0 < k < |found| && k <= |first| ==> found[k] == first[k - 1]
    ensures var pieces := Cut(t, separator, after);
            Join(UpToEmpty([found] + pieces[1..]), separator) == t <==> Clean(t, separator) && found == pieces[0]
  {
    hide Join;
    hide UpToEmpty;
    hide Clean;
    hide Cut;
    var pieces, n := Cut(t, separator, after), FirstAt(t, separator);
    var first, rest := pieces[0], pieces[1..];
    assert pieces == [first] + rest;
    CutAt(t, n, separator, after);
    assert first == t[..n];
    RestoredIff(t, separator, after);
    UpToEmptyStep(first, rest);
    UpToEmptyStep(found, rest);
    JoinStep(first, UpToEmpty(rest), separator);
    JoinStep(found, UpToEmpty(rest), separator);
    var back := Join(UpToEmpty([found] + rest), separator);
    if back == t {
      if found == [] { JoinNothing(separator); }
      assert found == t[..|found|];
    }
  }

  /** The string a/b under the number 300 in an empty store: what is joined is the byte 31, the slash and b. */
  lemma FarSplitExample(store: OptionStore)
    requires store.Valid() && store.opts == AddAll([], 300, Pieces([0x61, 0x2f, 0x62], 0x2f, 0))
    ensures Clean([0x61, 0x2f, 0x62], 0x2f) && Join(UpToEmpty(Seen(store, 300)), 0x2f) == [31, 0x2f, 0x62]
  {
    hide OptionStore.Valid;
    hide AddAll;
    hide Misread;
    hide Pieces;
    hide Join;
    hide UpToEmpty;
    hide ValuesOf;
    hide FindFirst;
    TwoPieces();
    AddAllSpec([], 300, [[0x61], [0x62]]);
    NoValues([], 300);
    FirstAdded([], 300, [[0x61], [0x62]]);
    var i := FindFirst(store.opts, 300);
    assert ValuesOf(store.opts, 300) == [] + [[0x61], [0x62]] == [[0x61], [0x62]];
    MisreadIs(store, i);
    assert Misread(store, i) == [31];
    assert Seen(store, 300) == [[31]] + [[0x61], [0x62]][1..] == [[31], [0x62]];
  }

  lemma TwoPieces()
    ensures Pieces([0x61, 0x2f, 0x62], 0x2f, 0) == [[0x61], [0x62]] && Clean([0x61, 0x2f, 0x62], 0x2f)
    ensures Join(UpToEmpty([[31], [0x62]]), 0x2f) == [31, 0x2f, 0x62]
  {
    hide Cut;
    hide Join;
    hide UpToEmpty;
    var s, a, b: seq<Byte> := [0x61, 0x2f, 0x62], [0x61], [0x62];
    CutAt(s, 1, 0x2f, 0);
    CutAt(b, 1, 0x2f, 0);
    assert s[..1] == a && s[2..] == b && [a] + [b] == [a, b];
    TwoJoined([31], b, 0x2f);
  }

  lemma TwoJoined(a: seq<Byte>, b: seq<Byte>, separator: Byte)
    requires a != [] && b != []
    ensures Join(UpToEmpty([a, b]), separator) == a + [separator] + b
  {
    hide Join;
    hide UpToEmpty;
    UpToEmptyStep(a, [b]);
    UpToEmptyStep(b, []);
    assert [a] + [b] == [a, b] && [b] + [] == [b];
    assert UpToEmpty([]) <= [];
    JoinStep(a, [b], separator);
    JoinStep(b, [], separator);
  }

  lemma JoinNothing(separator: Byte)
    ensures Join([], separator) == []
  {
  }

  /** The pieces before the first empty one make up the whole string exactly when none is empty. */
  lemma RestoredIff(t: seq<Byte>, separator: Byte, after: Byte)
    requires t != []
    ensures Join(UpToEmpty(Cut(t, separator, after)), separator) == t <==> Clean(t, separator)
    ensures |Join(UpToEmpty(Cut(t, separator, after)), separator)| < |t| || Clean(t, separator)
  {
    var pieces := Cut(t, separator, after);
    var u := UpToEmpty(pieces);
    if t[|t| - 1] != separator {
      CleanPieces(t, separator, after);
      JoinCut(t, separator, after);
    } else if after != separator {
      TrailingLost(t, separator, after);
    } else {
      TrailingEmpty(t, separator);
      assert u != pieces;
    }
    if u != pieces { JoinPrefix(u, pieces, separator); }
  }

  /** If the byte behind the string is a separator too, a trailing separator yields an empty piece. */
  lemma {:induction false} TrailingEmpty(s: seq<Byte>, separator: Byte)
    requires s == [] || s[|s| - 1] == separator
    ensures var pieces := Cut(s, separator, separator);
            pieces != [] && pieces[|pieces| - 1] == [] && Join(pieces, separator) == s
    decreases |s|
  {
    hide Cut;
    hide Join;
    if s == [] {
      CutAt([], 0, separator, separator);
      JoinStep(s, [], separator);
      assert [s] + [] == [s];
    } else {
      var i := FirstAt(s, separator);
      CutAt(s, i, separator, separator);
      TrailingEmpty(s[i + 1..], separator);
      JoinStep(s[..i], Cut(s[i + 1..], separator, separator), separator);
      assert s == s[..i] + [separator] + s[i + 1..];
    }
  }

  /** A separator at the end is never restored. */
  lemma {:induction false} TrailingLost(s: seq<Byte>, separator: Byte, after: Byte)
    requires s != [] && s[|s| - 1] == separator && after != separator
    ensures Cut(s, separator, after) != [] && |Join(Cut(s, separator, after), separator)| < |s|
    decreases |s|
  {
    var i := FirstAt(s, separator);
    assert i < |s|;
    var rest := s[i + 1..];
    var tail := Cut(rest, separator, after);
    assert Cut(s, separator, after) == [s[..i]] + tail && ([s[..i]] + tail)[1..] == tail;
    if rest == [] {
      CutAt([], 0, separator, after);
      assert tail == [];
    } else {
      TrailingLost(rest, separator, after);
    }
  }
}
