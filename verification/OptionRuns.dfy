/** Whole runs of mutations: the store follows a machine on option lists, and its bytes always parse back to it. */
module OptionRuns {
  import opened Codec
  import opened OptionLists
  import opened OptionEdits
  import opened OptionGaps
  import opened OptionParsing
  import opened OptionStores

  datatype Op =
    | Add(number: nat, value: seq<Byte>)
    | Set(number: nat, value: seq<Byte>)
    | RemoveAll(number: nat)
    | Swap(destination: array<Byte>, at: nat, capacity: nat)

  /** What a caller can see: the options, and where the storage lies and how large it is. */
  datatype View = View(opts: seq<Option>, capacity: nat, buf: array<Byte>, base: nat)

  ghost predicate OpOk(op: Op) {
    match op
    case Add(n, v) => n <= NUMBER_MAX && |v| <= UINT20_MAX
    case Set(n, v) => n <= NUMBER_MAX && |v| <= UINT20_MAX
    case RemoveAll(_) => true
    case Swap(destination, at, capacity) => at + capacity <= destination.Length
  }

  ghost predicate ViewOk(v: View, max: nat) {
    Sorted(0, v.opts) && |v.opts| <= max && |Encode(0, v.opts)| <= v.capacity
  }

  /** The list that an operation asks for. */
  function Wanted(opts: seq<Option>, op: Op): seq<Option> {
    match op
    case Add(n, v) => Insert(opts, Option(n, v))
    case Set(n, v) => Update(opts, Option(n, v))
    case RemoveAll(n) => Without(opts, n)
    case Swap(_, _, _) => opts
  }

  lemma WantedSorted(opts: seq<Option>, op: Op)
    requires Sorted(0, opts) && OpOk(op)
    ensures Sorted(0, Wanted(opts, op)) && |Wanted(opts, op)| <= |opts| + 1
  {
    match op
    case Add(n, v) => InsertSorted(opts, Option(n, v));
    case Set(n, v) => UpdateSorted(opts, Option(n, v));
    case RemoveAll(n) => WithoutSpec(0, opts, n); WithoutShorter(opts, n);
    case Swap(_, _, _) =>
  }

  lemma {:induction false} WithoutShorter(opts: seq<Option>, number: nat)
    ensures |Without(opts, number)| <= |opts|
  {
    if opts != [] { WithoutShorter(opts[1..], number); }
  }

  /** One operation: it takes effect if the list it asks for fits, and changes nothing otherwise; an empty store is not moved. */
  ghost function Step(v: View, op: Op, max: nat): View
    requires ViewOk(v, max) && OpOk(op)
  {
    WantedSorted(v.opts, op);
    var wanted := Wanted(v.opts, op);
    var v' := if op.Swap? && v.opts != [] then View(wanted, op.capacity, op.destination, op.at) else v.(opts := wanted);
    if |wanted| <= max && |Encode(0, wanted)| <= v'.capacity then v' else v
  }

  /** A failing assertion: the buffer is exactly full and there is something behind the edited option to move. */
  ghost predicate Traps(v: View, op: Op, max: nat)
    requires ViewOk(v, max) && OpOk(op)
  {
    && (op.Add? || op.Set?) && |Encode(0, v.opts)| == v.capacity
    && (WantedSorted(v.opts, op); |Wanted(v.opts, op)| <= max && |Encode(0, Wanted(v.opts, op))| <= v.capacity)
    && if op.Set? && FindFirst(v.opts, op.number) >= 0 then FindFirst(v.opts, op.number) + 1 < |v.opts|
       else op.number < Last(0, v.opts)
  }

  /** The copying of a swap reads and writes different bytes, as `memcpy` demands. */
  ghost predicate Apart(v: View, op: Op, max: nat)
    requires ViewOk(v, max)
  {
    op.Swap? ==> op.destination != v.buf || op.at + |Encode(0, v.opts)| <= v.base || v.base + |Encode(0, v.opts)| <= op.at
  }

  /** Removing this number leaves bytes behind. */
  predicate LeavesBytes(v: View, op: Op) {
    op.RemoveAll? && TrailingRepeat(v.opts, op.number)
  }

  /** Calls that keep to the machine. */
  ghost predicate Harmless(v: View, op: Op, max: nat, debug: bool)
    requires ViewOk(v, max) && OpOk(op)
  {
    Apart(v, op, max) && !LeavesBytes(v, op) && !(debug && Traps(v, op, max))
  }

  ghost predicate HarmlessRun(v: View, ops: seq<Op>, max: nat, debug: bool)
    requires ViewOk(v, max) && forall k :: 0 <= k < |ops| ==> OpOk(ops[k])
    decreases |ops|
  {
    ops != [] ==> Harmless(v, ops[0], max, debug) && (StepOk(v, ops[0], max); HarmlessRun(Step(v, ops[0], max), ops[1..], max, debug))
  }

  lemma StepOk(v: View, op: Op, max: nat)
    requires ViewOk(v, max) && OpOk(op)
    ensures ViewOk(Step(v, op, max), max)
  {
    WantedSorted(v.opts, op);
  }

  ghost function Run(v: View, ops: seq<Op>, max: nat): (r: View)
    requires ViewOk(v, max) && forall k :: 0 <= k < |ops| ==> OpOk(ops[k])
    ensures ViewOk(r, max)
    decreases |ops|
  {
    if ops == [] then v else StepOk(v, ops[0], max); Run(Step(v, ops[0], max), ops[1..], max)
  }

  /** One operation more at the end of a run. */
  lemma {:induction false} RunAppend(v: View, ops: seq<Op>, op: Op, max: nat, debug: bool)
    requires ViewOk(v, max) && OpOk(op) && forall k :: 0 <= k < |ops| ==> OpOk(ops[k])
    ensures forall k :: 0 <= k < |ops + [op]| ==> OpOk((ops + [op])[k])
    ensures Run(v, ops + [op], max) == Step(Run(v, ops, max), op, max)
    ensures HarmlessRun(v, ops + [op], max, debug) <==> HarmlessRun(v, ops, max, debug) && Harmless(Run(v, ops, max), op, max, debug)
    decreases |ops|
  {
    hide Step;
    hide Harmless;
    hide ViewOk;
    hide OpOk;
    if ops == [] {
      assert [] + [op] == [op] && [op][1..] == [];
      StepOk(v, op, max);
    } else {
      StepOk(v, ops[0], max);
      assert (ops + [op])[0] == ops[0] && (ops + [op])[1..] == ops[1..] + [op];
      RunAppend(Step(v, ops[0], max), ops[1..], op, max, debug);
    }
  }

  /** A run is harmless only if each of its beginnings is. */
  lemma {:induction false} HarmlessPrefix(v: View, ops: seq<Op>, n: nat, max: nat, debug: bool)
    requires ViewOk(v, max) && (forall k :: 0 <= k < |ops| ==> OpOk(ops[k])) && n <= |ops|
    ensures HarmlessRun(v, ops, max, debug) ==> HarmlessRun(v, ops[..n], max, debug)
    decreases n
  {
    hide Step;
    hide Harmless;
    hide ViewOk;
    hide OpOk;
    if n > 0 {
      StepOk(v, ops[0], max);
      HarmlessPrefix(Step(v, ops[0], max), ops[1..], n - 1, max, debug);
      assert ops[..n][0] == ops[0] && ops[..n][1..] == ops[1..][..n - 1];
    }
  }

  ghost function Seen(store: OptionStore): View
    requires store.entries.Length > 0
    reads store, store.entries
  {
    View(store.opts, store.capacity, store.buf, store.Base())
  }

  lemma SeenOk(store: OptionStore)
    requires store.Valid()
    ensures store.entries.Length > 0 && store.Shape() && store.Scattered()
    ensures ViewOk(Seen(store), store.entries.Length) && store.storageSize == |Encode(0, store.opts)|
  {
    hide Sorted;
    hide Encode;
    hide Spread;
    store.ValidScattered();
  }

  /** The array that an operation may write besides the store's own. */
  ghost function Target(op: Op): set<array<Byte>> {
    if op.Swap? then {op.destination} else {}
  }

  /** One call on a store follows the machine; otherwise it traps, or it is a removal that leaves bytes behind. */
  method Perform(store: OptionStore, op: Op) returns (r: Status)
    requires store.Valid() && OpOk(op) && ViewOk(Seen(store), store.entries.Length) && Apart(Seen(store), op, store.entries.Length)
    modifies store, store.buf, store.entries, Target(op)
    ensures store.Shape() && store.Scattered() && (store.buf == old(store.buf) || store.buf in Target(op))
    ensures ViewOk(old(Seen(store)), store.entries.Length) && r != OutOfBuffer
    ensures r == Trap <==> store.debug && Traps(old(Seen(store)), op, store.entries.Length)
    ensures r == Trap ==> Seen(store) == old(Seen(store)) && store.Valid()
    ensures r != Trap ==> Seen(store) == Step(old(Seen(store)), op, store.entries.Length)
    ensures store.Valid() <==> !LeavesBytes(old(Seen(store)), op)
  {
    hide Sorted;
    hide Encode;
    hide Insert;
    hide Update;
    hide Without;
    hide TrailingRepeat;
    hide SameOutside;
    hide FindFirst;
    hide Last;
    hide OptionStore.Valid;
    hide OptionStore.Scattered;
    hide OptionStore.Slack;
    hide LeftBehind;
    SeenOk(store);
    ghost var v := Seen(store);
    store.ValidScattered();
    WantedSorted(v.opts, op);
    match op
    case Add(n, x) =>
      r := store.Add(n, x);
      InsertLength(v.opts, Option(n, x));
      store.ScatteredSizes();
      store.IntactIff();
    case Set(n, x) =>
      r := store.Set(n, x);
      UpdateLength(v.opts, Option(n, x));
      store.ValidScattered();
    case RemoveAll(n) =>
      RemovalNeverGrows(v.opts, n);
      WithoutShorter(v.opts, n);
      r := store.RemoveAll(n);
    case Swap(destination, at, capacity) =>
      r := store.SwapStorage(destination, at, capacity);
      store.ValidScattered();
  }

  lemma InsertLength(opts: seq<Option>, o: Option)
    ensures |Insert(opts, o)| == |opts| + 1
  {
  }

  lemma UpdateLength(opts: seq<Option>, o: Option)
    ensures |Update(opts, o)| == |opts| + if FindFirst(opts, o.number) < 0 then 1 else 0
  {
  }

  /** Bytes are left over exactly when the sizes of all options do not add up to the bytes in use. */
  method HasLeftover(store: OptionStore) returns (b: bool)
    requires store.Scattered() && store.Shape()
    ensures b <==> !store.Valid()
  {
    hide Encode;
    hide Spread;
    hide OptionStore.Scattered;
    hide OptionStore.Slack;
    hide OptionStore.Valid;
    store.ScatteredSizes();
    store.IntactIff();
    var sum := 0;
    NoSizes();
    assert store.opts[..0] == [];
    for i := 0 to store.count
      invariant Sorted(0, store.opts[..i]) && sum == |Encode(0, store.opts[..i])|
    {
      OneSize(store, i);
      sum := sum + store.entries[i].size;
    }
    assert store.opts[..store.count] == store.opts;
    b := store.storageSize != sum;
  }

  lemma NoSizes()
    ensures Sorted(0, []) && |Encode(0, [])| == 0
  {
  }

  lemma OneSize(store: OptionStore, i: nat)
    requires store.Scattered() && i < store.count == |store.opts|
    ensures store.count <= store.entries.Length && Sorted(0, store.opts[..i]) && Sorted(0, store.opts[..i + 1])
    ensures |Encode(0, store.opts[..i + 1])| == |Encode(0, store.opts[..i])| + store.entries[i].size
  {
    hide Sorted;
    hide Encode;
    hide Last;
    hide OptionSize;
    hide EncodeOption;
    var opts := store.opts;
    assert Stands(store.buf[..], store.entries[..store.count][i], opts, i);
    hide Stands;
    DeltaFacts(opts, i);
    assert opts[..i + 1] == opts[..i] + [opts[i]];
    AppendSize(opts[..i], opts[i]);
  }

  /** The arrays that a run may write. */
  ghost function Targets(ops: seq<Op>): set<array<Byte>> {
    set k | 0 <= k < |ops| && ops[k].Swap? :: ops[k].destination
  }

  /**
   * Any sequence of calls, up to the first that cannot be made (a swap onto the bytes in use), traps, or leaves bytes behind.
   * Until then the store is where the machine is, with bytes and index in agreement. The whole sequence is performed exactly
   * if it is harmless throughout; a trap changes nothing, and leftovers are all that a harmful removal changes besides.
   */
  method PerformAll(store: OptionStore, ops: seq<Op>) returns (done: nat)
    requires store.Valid() && forall k :: 0 <= k < |ops| ==> OpOk(ops[k])
    modifies store, store.buf, store.entries, Targets(ops)
    ensures store.Scattered() && store.Shape() && ViewOk(old(Seen(store)), store.entries.Length) && done <= |ops|
    ensures done == |ops| <==> HarmlessRun(old(Seen(store)), ops, store.entries.Length, store.debug)
    ensures HarmlessRun(old(Seen(store)), ops[..done], store.entries.Length, store.debug)
    ensures var v := Run(old(Seen(store)), ops[..done], store.entries.Length);
            if done < |ops| && LeavesBytes(v, ops[done]) then Seen(store) == Step(v, ops[done], store.entries.Length) && !store.Valid()
            else Seen(store) == v && store.Valid()
    ensures done < |ops| ==>
              !Harmless(Run(old(Seen(store)), ops[..done], store.entries.Length), ops[done], store.entries.Length, store.debug)
  {
    hide OptionStore.Valid;
    hide OptionStore.Scattered;
    hide OptionStore.Shape;
    hide ViewOk;
    hide OpOk;
    hide Step;
    hide Traps;
    hide Apart;
    hide TrailingRepeat;
    SeenOk(store);
    ghost var v0, max, debug := Seen(store), store.entries.Length, store.debug;
    done := 0;
    while done < |ops|
      invariant done <= |ops| && store.Valid() && store.Scattered() && store.Shape() && (store.buf == old(store.buf) || store.buf in Targets(ops))
      invariant ViewOk(v0, max) && ViewOk(Seen(store), max)
      invariant HarmlessRun(v0, ops[..done], max, debug) && Run(v0, ops[..done], max) == Seen(store)
    {
      var op := ops[done];
      ghost var v := Seen(store);
      RunAppend(v0, ops[..done], op, max, debug);
      assert ops[..done] + [op] == ops[..done + 1];
      HarmlessPrefix(v0, ops, done + 1, max, debug);
      var apart := IsApart(store, op);
      if !apart {
        return;
      }
      assert Target(op) <= Targets(ops);
      var r := Perform(store, op);
      if r == Trap {
        return;
      }
      var leftover := HasLeftover(store);
      if leftover {
        return;
      }
      StepOk(v, op, max);
      done := done + 1;
    }
    assert ops[..done] == ops;
  }

  method IsApart(store: OptionStore, op: Op) returns (b: bool)
    requires store.Valid() && ViewOk(Seen(store), store.entries.Length)
    ensures b <==> Apart(Seen(store), op, store.entries.Length)
    ensures !b ==> op.Swap?
  {
    hide Sorted;
    hide Encode;
    hide OptionStore.Valid;
    SeenOk(store);
    var base := store.entries[0].data;
    b := op.Swap? ==> op.destination != store.buf || op.at + store.storageSize <= base || base + store.storageSize <= op.at;
  }

  // ---------------------------------------------------------------- parsing again

  /** Bytes that are options to their end, without overflow, are as long as these options are when encoded. */
  lemma ParsedLength(bytes: seq<Byte>, room: nat)
    ensures var p := Parse(bytes, room);
            p.Parsed? && p.tail == NoMarker && NoOverflow(0, p.raws) ==>
              Sorted(0, Decode(0, p.raws)) && |bytes| == |Encode(0, Decode(0, p.raws))|
  {
    hide Encode;
    hide Parse;
    hide EncodeRaws;
    hide Decode;
    hide NoOverflow;
    var p := Parse(bytes, room);
    if p.Parsed? && p.tail == NoMarker && NoOverflow(0, p.raws) {
      ParseUnique(bytes, room);
      DecodeSorted(0, 0, p.raws);
      assert EncodeRaws(p.raws) + TailBytes(NoMarker) == EncodeRaws(p.raws);
    }
  }

  /** Whether a fresh parse of the bytes finds these options, and nothing else. */
  ghost predicate ParsesTo(bytes: seq<Byte>, opts: seq<Option>, room: nat) {
    var p := Parse(bytes, room);
    p.Parsed? && p.tail == NoMarker && NoOverflow(0, p.raws) && Decode(0, p.raws) == opts
  }

  // ---------------------------------------------------------------- additions after a removal

  /** The list after a run of additions. */
  function Added(opts: seq<Option>, xs: seq<Option>): seq<Option>
    decreases |xs|
  {
    if xs == [] then opts else Insert(Added(opts, xs[..|xs| - 1]), xs[|xs| - 1])
  }

  lemma {:induction false} AddedSorted(opts: seq<Option>, xs: seq<Option>)
    requires Sorted(0, opts) && forall k :: 0 <= k < |xs| ==> OptionOk(xs[k])
    ensures Sorted(0, Added(opts, xs)) && |Added(opts, xs)| == |opts| + |xs|
    decreases |xs|
  {
    hide Sorted;
    hide Insert;
    if xs != [] {
      AddedSorted(opts, xs[..|xs| - 1]);
      InsertGrows(Added(opts, xs[..|xs| - 1]), xs[|xs| - 1]);
    }
  }

  /** The bytes in use are too few or too many to parse back. */
  lemma SlackNeverParses(store: OptionStore, room: nat)
    requires store.Scattered() && store.Slack() > 0 && store.Base() + store.storageSize <= store.buf.Length
    ensures !ParsesTo(store.Packed(), store.opts, room)
  {
    hide Encode;
    hide Sorted;
    hide Spread;
    hide ParsesTo;
    store.ScatteredSizes();
    NeverParses(store.Packed(), store.opts, room);
  }

  /**
   * Additions up to the first that does not succeed. Bytes that belong to no option stay as many as they are. If there was no
   * option, the first addition moves the front of the storage behind them.
   */
  method AddEach(store: OptionStore, xs: seq<Option>) returns (done: nat, r: Status)
    requires store.Scattered() && forall k :: 0 <= k < |xs| ==> OptionOk(xs[k])
    modifies store, store.buf, store.entries
    ensures store.Scattered() && store.buf == old(store.buf) && store.capacity == old(store.capacity)
    ensures done <= |xs| && (r == Ok <==> done == |xs|)
    ensures store.opts == Added(old(store.opts), xs[..done]) && store.Slack() == old(store.Slack())
    ensures store.Base() == old(store.Base()) + if old(store.opts) == [] && done > 0 then store.Slack() else 0
    ensures Sorted(0, store.opts)
    ensures done < |xs| ==>
              var next := Added(old(store.opts), xs[..done + 1]);
              && Sorted(0, next)
              && (r == NoBufs <==> |store.opts| == store.entries.Length || |Encode(0, next)| + store.Slack() > store.capacity)
              && (r == Trap <==> r != NoBufs && store.debug && |Encode(0, store.opts)| + store.Slack() == store.capacity
                                 && xs[done].number < Last(0, store.opts))
              && (r == OutOfBuffer <==> r != NoBufs && r != Trap && store.Base() + |Encode(0, next)| + store.Slack() > store.buf.Length)
  {
    hide Sorted;
    hide Encode;
    hide Insert;
    hide Last;
    hide SameOutside;
    hide OptionStore.Scattered;
    hide OptionStore.Slack;
    store.ScatteredSizes();
    ghost var opts, slack, base := store.opts, store.Slack(), store.Base();
    done, r := 0, Ok;
    assert xs[..0] == [];
    while done < |xs|
      invariant done <= |xs| && r == Ok && store.Scattered() && store.buf == old(store.buf) && store.capacity == old(store.capacity)
      invariant store.opts == Added(opts, xs[..done]) && store.Slack() == slack && store.entries.Length > 0
      invariant (store.opts == [] <==> opts == [] && done == 0) && Sorted(0, store.opts)
      invariant store.Base() == base + if opts == [] && done > 0 then slack else 0
    {
      store.ScatteredSizes();
      assert xs[..done + 1][..done] == xs[..done];
      InsertLength(store.opts, xs[done]);
      r := store.Add(xs[done].number, xs[done].value);
      store.ScatteredSizes();
      if r != Ok {
        return;
      }
      done := done + 1;
    }
  }

  /**
   * Removing a number and adding options. All additions stay inside the buffer, unless bytes were left behind and no option:
   * then the second addition or a later one reaches behind it exactly when the buffer has no room for the leftovers twice and
   * the options. While bytes are left over, the bytes in use never parse back to the options, however many are added.
   */
  method RemoveThenAdd(store: OptionStore, number: nat, xs: seq<Option>, ghost room: nat) returns (done: nat, r: Status)
    requires store.Valid() && forall k :: 0 <= k < |xs| ==> OptionOk(xs[k])
    modifies store, store.buf, store.entries
    ensures store.Scattered() && store.buf == old(store.buf) && store.capacity == old(store.capacity) && Sorted(0, old(store.opts))
    ensures done <= |xs| && (r == Ok <==> done == |xs|)
    ensures var kept, left := Without(old(store.opts), number), LeftBehind(old(store.opts), number);
            && store.opts == Added(kept, xs[..done]) && store.Slack() == left
            && (left > 0 <==> TrailingRepeat(old(store.opts), number)) && (left == 0 <==> store.Valid())
            && (done < |xs| ==>
                  var next := Added(kept, xs[..done + 1]);
                  && Sorted(0, next)
                  && (r == NoBufs <==> |store.opts| == store.entries.Length || |Encode(0, next)| + left > store.capacity)
                  && (r == Trap <==>
                        && r != NoBufs && store.debug && |Encode(0, store.opts)| + left == store.capacity
                        && xs[done].number < Last(0, store.opts))
                  && (r == OutOfBuffer <==>
                        && r != NoBufs && r != Trap && kept == [] && done > 0
                        && old(store.Base()) + 2 * left + |Encode(0, next)| > store.buf.Length))
            && (left > 0 && store.Base() + store.storageSize <= store.buf.Length ==> !ParsesTo(store.Packed(), store.opts, room))
  {
    hide Sorted;
    hide Encode;
    hide Insert;
    hide Last;
    hide Without;
    hide TrailingRepeat;
    hide SameOutside;
    hide ParsesTo;
    hide LeftBehind;
    hide OptionStore.Valid;
    hide OptionStore.Scattered;
    hide OptionStore.Slack;
    store.ValidScattered();
    var _ := store.RemoveAll(number);
    store.IntactIff();
    ghost var base := store.Base();
    done, r := AddEach(store, xs);
    store.ScatteredSizes();
    if store.Slack() > 0 && store.Base() + store.storageSize <= store.buf.Length { SlackNeverParses(store, room); }
    if store.Slack() == 0 { store.IntactIff(); } else { TooLong(store); }
  }

  /** A store with bytes left over is not consistent. */
  lemma TooLong(store: OptionStore)
    requires store.Scattered() && store.Slack() > 0
    ensures !store.Valid()
  {
    hide Encode;
    hide Sorted;
    hide Spread;
    store.ScatteredSizes();
  }

  /** Bytes of the wrong length never parse back to an option list. */
  lemma NeverParses(bytes: seq<Byte>, opts: seq<Option>, room: nat)
    requires Sorted(0, opts) && |bytes| != |Encode(0, opts)|
    ensures !ParsesTo(bytes, opts, room)
  {
    hide Encode;
    hide Parse;
    hide Decode;
    hide NoOverflow;
    ParsedLength(bytes, room);
  }

  /** A fresh parse of the bytes in use finds the same options and the same lookup array. */
  lemma ReparseAgrees(bytes: seq<Byte>, index: seq<Entry>, at: nat, opts: seq<Option>, room: nat)
    requires Represents(bytes, index, at, opts) && |opts| <= room
    ensures var p := Parse(bytes, room);
            && p.Parsed? && p.tail == NoMarker && RawsOk(p.raws) && NoOverflow(0, p.raws)
            && Decode(0, p.raws) == opts && RawIndex(0, at, p.raws) == index
  {
    var raws := Deltas(0, opts);
    DeltasEncode(0, at, opts);
    DeltasDecode(0, opts);
    hide EncodeRaws;
    hide Encode;
    hide Parse;
    ParseEncoded(raws, NoMarker, room);
    assert bytes + TailBytes(NoMarker) == bytes;
  }

  // ---------------------------------------------------------------- where the source falls short

  /** Two options numbered 11 at the end: removing 11 gives back two bytes of four. */
  lemma TrailingRepeatExample()
    ensures var opts := [Option(11, [1]), Option(11, [2])];
            && Sorted(0, opts) && TrailingRepeat(opts, 11) && Without(opts, 11) == []
            && |Encode(0, opts)| == 4 && Index(0, 0, opts)[0].size == 2
  {
    var first, second := Option(11, [1]), Option(11, [2]);
    var opts := [first, second];
    assert opts == [first] + [second] && [second] == [second] + [];
    hide EncodeOption;
    UnfoldNil(11, 0);
    Unfold(11, 2, second, []);
    Unfold(0, 0, first, [second]);
    ValuesUnfold(second, [], 11);
    ValuesUnfold(first, [second], 11);
    WithoutAll(opts, 11);
  }

  /** Option 14 fills two bytes; inserting 7 before it still takes two bytes, but the assertion fails. */
  lemma TrapExample(max: nat, buf: array<Byte>, base: nat)
    requires max >= 2
    ensures var v, op := View([Option(14, [])], 2, buf, base), Op.Add(7, []);
            && OpOk(op) && ViewOk(v, max) && Traps(v, op, max) && Step(v, op, max) == v.(opts := [Option(7, []), Option(14, [])])
  {
    var o, x := Option(14, []), Option(7, []);
    hide EncodeOption;
    assert [o] == [o] + [] && [x, o] == [x] + [o];
    UnfoldNil(14, 0);
    Unfold(0, 0, o, []);
    Unfold(7, 0, o, []);
    Unfold(0, 0, x, [o]);
    assert InsertPos([o], 7) == 0;
    assert Insert([o], x) == [x, o];
    WantedSorted([o], Op.Add(7, []));
  }

  /** `_read_option` treats the delta nibble as a delta. That is the right width exactly for deltas below 269. */
  lemma NibbleTakenForDelta(delta: nat)
    requires delta <= UINT20_MAX
    ensures ExtSize(NibbleFor(delta)) == NibbleExtSize(NibbleFor(delta)) <==> delta < 269
    ensures delta >= 269 ==> ExtSize(NibbleFor(delta)) == NibbleExtSize(NibbleFor(delta)) - 1
  {
  }

  /** Option 269 with the value 7: the value starts at byte 3, the width of the nibble leads to byte 2. */
  lemma FarDeltaExample()
    ensures Sorted(0, [Option(269, [7])]) && Encode(0, [Option(269, [7])]) == [0xe1, 0, 0, 7]
    ensures 1 + ExtSize(0xe1 / 16) == 2
  {
    assert [Option(269, [7])] == [Option(269, [7])] + [];
    UnfoldNil(269, 0);
    Unfold(0, 0, Option(269, [7]), []);
  }
}
