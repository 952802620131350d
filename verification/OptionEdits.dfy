/** How each in-place edit of the packed bytes and of the lookup array relates to the option list. */
module OptionEdits {
  import opened Codec
  import opened OptionLists
  import opened Buffers

  /** The bytes are the encoding of the list and the index locates each option in them. */
  ghost predicate Represents(bytes: seq<Byte>, index: seq<Entry>, at: nat, opts: seq<Option>) {
    Sorted(0, opts) && bytes == Encode(0, opts) && index == Index(0, at, opts)
  }

  /** Distance of option `i` to its predecessor. */
  function DeltaAt(opts: seq<Option>, i: nat): int
    requires i < |opts|
  {
    opts[i].number - if i == 0 then 0 else opts[i - 1].number
  }

  /** Nothing outside the region of `capacity` bytes from `base` on differs. */
  ghost predicate SameOutside(b: seq<Byte>, b': seq<Byte>, base: nat, capacity: nat) {
    |b| == |b'| && base + capacity <= |b| && b[..base] == b'[..base] && b[base + capacity..] == b'[base + capacity..]
  }

  lemma NothingChanged(b: seq<Byte>, base: nat, capacity: nat)
    requires base + capacity <= |b|
    ensures SameOutside(b, b, base, capacity)
  {
  }

  lemma SpliceInside(b: seq<Byte>, at: nat, x: seq<Byte>, base: nat, capacity: nat)
    requires base <= at && at + |x| <= base + capacity <= |b|
    ensures SameOutside(b, Splice(b, at, x), base, capacity)
  {
    SpliceKeeps(b, at, x, 0, base);
    SpliceKeeps(b, at, x, base + capacity, |b|);
  }

  lemma RepresentsSizes(bytes: seq<Byte>, index: seq<Entry>, at: nat, opts: seq<Option>)
    requires Represents(bytes, index, at, opts)
    ensures Sorted(0, opts) && |index| == |opts| && |bytes| == |Encode(0, opts)| && (opts == [] ==> bytes == [])
    ensures index == Index(0, at, opts)
  {
  }

  lemma Represented(bytes: seq<Byte>, index: seq<Entry>, at: nat, opts: seq<Option>)
    requires Sorted(0, opts) && bytes == Encode(0, opts) && index == Index(0, at, opts)
    ensures Represents(bytes, index, at, opts)
  {
  }

  /** The size of a list with an option appended. */
  lemma AppendSize(opts: seq<Option>, x: Option)
    requires Sorted(0, opts) && Last(0, opts) <= x.number && OptionOk(x)
    ensures Sorted(0, opts + [x])
    ensures |Encode(0, opts + [x])| == |Encode(0, opts)| + OptionSize(x.number - Last(0, opts), |x.value|)
  {
    hide Sorted;
    hide Encode;
    hide Last;
    hide OptionSize;
    hide EncodeOption;
    assert opts + [x] + [] == opts + [x];
    UnfoldNil(x.number, 0);
    Around(0, opts, x, []);
  }

  lemma SplitAt(opts: seq<Option>, i: nat)
    requires i < |opts|
    ensures opts == opts[..i] + [opts[i]] + opts[i + 1..] && opts[i..] == [opts[i]] + opts[i + 1..]
  {
  }

  /** A list taken apart at position `i`. */
  lemma AroundAt(opts: seq<Option>, i: nat)
    requires Sorted(0, opts) && i < |opts|
    ensures Sorted(0, opts[..i]) && Last(0, opts[..i]) <= opts[i].number <= Last(0, opts)
    ensures OptionOk(opts[i]) && Sorted(opts[i].number, opts[i + 1..])
  {
    hide Sorted;
    hide Encode;
    hide Index;
    hide OptionSize;
    hide EncodeOption;
    SplitAt(opts, i);
    Around(0, opts[..i], opts[i], opts[i + 1..]);
    SortedAt(0, opts, i, |opts| - 1);
  }

  lemma LastBelow(opts: seq<Option>, p: nat, number: nat)
    requires p <= |opts| && forall k :: 0 <= k < p ==> opts[k].number <= number
    ensures Last(0, opts[..p]) <= number
  {
  }

  /** The two shapes an insertion can take. */
  lemma InsertShape(opts: seq<Option>, x: Option)
    requires Sorted(0, opts) && OptionOk(x)
    ensures Sorted(0, Insert(opts, x))
    ensures var p := InsertPos(opts, x.number);
            if p == |opts| then
              && Insert(opts, x) == opts + [x] && Last(0, opts) <= x.number && opts[..p] == opts
              && |Encode(0, Insert(opts, x))| == |Encode(0, opts)| + OptionSize(x.number - Last(0, opts), |x.value|)
            else
              var a, s, c := opts[..p], opts[p], opts[p + 1..];
              && opts == a + [s] + c && Insert(opts, x) == a + [x] + ([s] + c)
              && Sorted(0, a) && Last(0, a) <= x.number < s.number && OptionOk(s) && Sorted(s.number, c)
              && x.number < Last(0, opts)
  {
    hide Sorted;
    hide Encode;
    hide Last;
    hide InsertPos;
    hide OptionSize;
    var p := InsertPos(opts, x.number);
    InsertSorted(opts, x);
    LastBelow(opts, p, x.number);
    if p == |opts| {
      assert opts[..p] == opts && Insert(opts, x) == opts + [x];
      AppendSize(opts, x);
    } else {
      SplitAt(opts, p);
      AroundAt(opts, p);
    }
  }

  lemma NotAbove(opts: seq<Option>, i: nat)
    requires Sorted(0, opts) && i < |opts|
    ensures forall k :: 0 <= k < i ==> opts[k].number <= opts[i].number
  {
    forall k | 0 <= k < i ensures opts[k].number <= opts[i].number {
      SortedAt(0, opts, k, i);
    }
  }

  /** A replacement at position `i` and what stands around it. */
  lemma UpdateShape(opts: seq<Option>, i: nat, x: Option)
    requires Sorted(0, opts) && i < |opts| && i == FindFirst(opts, x.number)
    ensures var a, o, c := opts[..i], opts[i], opts[i + 1..];
            && opts == a + [o] + c && opts[i := x] == a + [x] + c && o.number == x.number
            && Sorted(0, a) && Last(0, a) <= o.number && OptionOk(o) && Sorted(o.number, c)
    ensures forall k :: 0 <= k < i ==> opts[k].number <= x.number
  {
    hide Sorted;
    hide Encode;
    hide Index;
    hide FindFirst;
    hide OptionSize;
    hide EncodeOption;
    hide Last;
    NotAbove(opts, i);
    SplitAt(opts, i);
    SplitAt(opts[i := x], i);
    assert opts[i := x][..i] == opts[..i] && opts[i := x][i + 1..] == opts[i + 1..];
    AroundAt(opts, i);
  }

  /** The head that an option has behind the number `last`. */
  function HeadBehind(last: nat, s: Option): (r: seq<Byte>)
    requires last <= s.number && OptionOk(s)
    ensures |r| == 1 + ExtSize(s.number - last)
  {
    HeadPart(s.number - last, NibbleFor(|s.value|))
  }

  /** What an option keeps whatever its predecessor, and everything behind it. */
  ghost function Kept(s: Option, c: seq<Option>): seq<Byte>
    requires OptionOk(s) && Sorted(s.number, c)
  {
    TailPart(s.value) + Encode(s.number, c)
  }

  /** Only the head of `s` depends on what stands before it. */
  lemma EncodeTail(last: nat, s: Option, c: seq<Option>)
    requires last <= s.number && OptionOk(s) && Sorted(s.number, c)
    ensures Sorted(last, [s] + c) && Encode(last, [s] + c) == HeadBehind(last, s) + Kept(s, c)
  {
    hide Encode;
    hide Sorted;
    hide HeadPart;
    hide TailPart;
    Unfold(last, 0, s, c);
    assert HeadBehind(last, s) + TailPart(s.value) + Encode(s.number, c) == HeadBehind(last, s) + Kept(s, c);
  }

  /** The packed list with `s` behind `a`: front, head of `s`, rest. */
  lemma EncodeBefore(a: seq<Option>, s: Option, c: seq<Option>)
    requires Sorted(0, a) && Last(0, a) <= s.number && OptionOk(s) && Sorted(s.number, c)
    ensures Sorted(0, a + [s] + c)
    ensures Encode(0, a + [s] + c) == Encode(0, a) + HeadBehind(Last(0, a), s) + Kept(s, c)
  {
    hide Encode;
    hide Sorted;
    hide Last;
    hide HeadBehind;
    hide Kept;
    EncodeTail(Last(0, a), s, c);
    SortedConcat(0, a, [s] + c);
    EncodeConcat(0, 0, a, [s] + c);
    assert a + [s] + c == a + ([s] + c);
    assert Encode(0, a) + (HeadBehind(Last(0, a), s) + Kept(s, c)) == Encode(0, a) + HeadBehind(Last(0, a), s) + Kept(s, c);
  }

  /** The packed list with `x` between `a` and `s`: the front and the rest are the same as before. */
  lemma EncodeAfter(a: seq<Option>, x: Option, s: Option, c: seq<Option>)
    requires Sorted(0, a) && Last(0, a) <= x.number <= s.number && OptionOk(x) && OptionOk(s) && Sorted(s.number, c)
    ensures Sorted(0, a + [x] + ([s] + c))
    ensures Encode(0, a + [x] + ([s] + c))
         == Encode(0, a) + (EncodeOption(x.number - Last(0, a), x.value) + HeadBehind(x.number, s)) + Kept(s, c)
  {
    hide Encode;
    hide Sorted;
    hide Last;
    hide HeadBehind;
    hide Kept;
    hide EncodeOption;
    hide OptionSize;
    EncodeTail(x.number, s, c);
    Around(0, a, x, [s] + c);
    var e, f := Encode(0, a), EncodeOption(x.number - Last(0, a), x.value);
    assert e + f + (HeadBehind(x.number, s) + Kept(s, c)) == e + (f + HeadBehind(x.number, s)) + Kept(s, c);
  }

  /** The insertion leaves room exactly for the new option and the successor's new head. */
  lemma InsertSizes(a: seq<Option>, x: Option, s: Option, c: seq<Option>)
    requires Sorted(0, a) && Last(0, a) <= x.number <= s.number && OptionOk(x) && OptionOk(s) && Sorted(s.number, c)
    ensures Sorted(0, a + [s] + c) && Sorted(0, a + [x] + ([s] + c))
    ensures var last := Last(0, a);
            var size := OptionSize(x.number - last, |x.value|);
            var diff := ExtSize(s.number - x.number) - ExtSize(s.number - last);
            && size + diff >= 0 && OptionSize(s.number - last, |s.value|) + diff == OptionSize(s.number - x.number, |s.value|)
            && |Encode(0, a + [x] + ([s] + c))| == |Encode(0, a + [s] + c)| + size + diff
            && |Encode(0, a + [s] + c)| == |Encode(0, a)| + 1 + ExtSize(s.number - last) + |Kept(s, c)|
  {
    hide Encode;
    hide Sorted;
    hide Last;
    hide HeadBehind;
    hide Kept;
    hide EncodeOption;
    EncodeBefore(a, s, c);
    EncodeAfter(a, x, s, c);
    ExtSubadditive(x.number - Last(0, a), s.number - x.number);
  }

  /** What the entry and the head byte of option `i` say, and how large the list around it is. */
  lemma OptionFacts(b: seq<Byte>, index: seq<Entry>, at: nat, end: nat, opts: seq<Option>, i: nat)
    requires at <= end <= |b| && Represents(b[at..end], index, at, opts) && i < |opts|
    ensures |index| == |opts| && Sorted(0, opts[..i]) && OptionOk(opts[i]) && Sorted(opts[i].number, opts[i + 1..])
    ensures Last(0, opts[..i]) <= opts[i].number
    ensures index[i] == Entry(opts[i].number, at + |Encode(0, opts[..i])|, OptionSize(opts[i].number - Last(0, opts[..i]), |opts[i].value|))
    ensures index[i].data + index[i].size + |Encode(opts[i].number, opts[i + 1..])| == end
    ensures b[index[i].data] / 16 == NibbleFor(opts[i].number - Last(0, opts[..i]))
    ensures b[index[i].data] % 16 == NibbleFor(|opts[i].value|)
    ensures index[..i] == Index(0, at, opts[..i])
    ensures index[i + 1..] == Index(opts[i].number, index[i].data + index[i].size, opts[i + 1..])
    ensures b[index[i].data..index[i].data + index[i].size] == EncodeOption(opts[i].number - Last(0, opts[..i]), opts[i].value)
  {
    hide Sorted;
    hide Encode;
    hide Index;
    hide EncodeOption;
    hide OptionSize;
    hide Last;
    hide NibbleFor;
    var a, x, c := opts[..i], opts[i], opts[i + 1..];
    assert opts == a + [x] + c;
    Around(at, a, x, c);
    var delta := x.number - Last(0, a);
    HeadIsNotMarker(delta, x.value);
    var src, e := at + |Encode(0, a)|, EncodeOption(delta, x.value);
    SliceOfSlice(b, at, end - at, |Encode(0, a)|, |Encode(0, a)| + |e|);
    assert (Encode(0, a) + e + Encode(x.number, c))[|Encode(0, a)|..|Encode(0, a)| + |e|] == e;
    assert b[src..src + |e|] == e;
    assert b[src] == e[0];
  }

  /** The same entries at positions `diff` further on. */
  ghost predicate Relocated(was: seq<Entry>, now: seq<Entry>, diff: int) {
    |was| == |now| && forall k :: 0 <= k < |was| ==> was[k].data + diff >= 0 && now[k] == Shifted(was[k], diff)
  }

  lemma RelocatedAt(was: seq<Entry>, now: seq<Entry>, i: nat, diff: int)
    requires i < |was| == |now| && Relocated(was[i..], now[i..], diff)
    ensures was[i].data + diff >= 0 && now[i] == Shifted(was[i], diff)
    ensures Relocated(was[i + 1..], now[i + 1..], diff)
  {
    assert was[i..][0] == was[i] && now[i..][0] == now[i];
    assert was[i..][1..] == was[i + 1..] && now[i..][1..] == now[i + 1..];
  }

  lemma IndexStart(bytes: seq<Byte>, index: seq<Entry>, at: nat, opts: seq<Option>)
    requires Represents(bytes, index, at, opts) && opts != []
    ensures |index| == |opts| && index[0].data == at
  {
  }

  lemma RelocatedIndex(prev: nat, at: nat, dest: nat, opts: seq<Option>, now: seq<Entry>)
    requires Sorted(prev, opts) && Relocated(Index(prev, at, opts), now, dest - at)
    ensures now == Index(prev, dest, opts)
  {
    hide Sorted;
    hide Index;
    IndexShift(prev, at, dest, opts);
  }

  /** An insertion never makes the packed list shorter. */
  lemma InsertGrows(opts: seq<Option>, x: Option)
    requires Sorted(0, opts) && OptionOk(x)
    ensures Sorted(0, Insert(opts, x)) && |Insert(opts, x)| == |opts| + 1 && |Encode(0, opts)| <= |Encode(0, Insert(opts, x))|
  {
    hide Sorted;
    hide Encode;
    hide Last;
    hide ExtSize;
    InsertShape(opts, x);
    var p := InsertPos(opts, x.number);
    if p < |opts| { InsertSizes(opts[..p], x, opts[p], opts[p + 1..]); }
  }

  lemma HeadResized(last: nat, last': nat, s: Option)
    requires last <= s.number && last' <= s.number && OptionOk(s)
    ensures OptionSize(s.number - last', |s.value|) >= 1 + ExtSize(s.number - last')
    ensures OptionSize(s.number - last', |s.value|)
         == OptionSize(s.number - last, |s.value|) + ExtSize(s.number - last') - ExtSize(s.number - last)
  {
  }

  /** A new option `x` and a head `h` written one behind the other. */
  function Filled(b: seq<Byte>, src: nat, x: seq<Byte>, h: seq<Byte>): seq<Byte>
    requires src + |x| + |h| <= |b|
  {
    Splice(Splice(b, src, x), src + |x|, h)
  }

  /** The buffer after an insertion: relocate from `src` on, write the option `x`, write the head `h`. */
  function InsertedBytes(b: seq<Byte>, src: nat, end: nat, total: nat, x: seq<Byte>, h: seq<Byte>): seq<Byte>
    requires src <= end && end + total <= |b| && src + |x| + |h| <= |b|
  {
    Filled(Splice(b, src + total, b[src..end]), src, x, h)
  }

  /** The lookup array after an insertion before entry `i`. */
  function InsertedEntries(mid: seq<Entry>, i: nat, diff: int, new': Entry): seq<Entry>
    requires i < |mid| && mid[i].data - diff >= 0 && mid[i].size + diff >= 0
  {
    mid[..i] + [new'] + ([Entry(mid[i].number, mid[i].data - diff, mid[i].size + diff)] + mid[i + 1..])
  }

  /** The three writes of an insertion stay inside the storage. */
  lemma InsertInside(b: seq<Byte>, base: nat, capacity: nat, src: nat, end: nat, total: nat, x: seq<Byte>, h: seq<Byte>)
    requires base <= src <= end && end + total <= base + capacity <= |b|
    requires src + |x| + |h| <= base + capacity
    ensures SameOutside(b, Splice(Splice(Splice(b, src + total, b[src..end]), src, x), src + |x|, h), base, capacity)
  {
    hide Splice;
    var moved := Splice(b, src + total, b[src..end]);
    SpliceInside(b, src + total, b[src..end], base, capacity);
    SpliceInside(moved, src, x, base, capacity);
    SpliceInside(Splice(moved, src, x), src + |x|, h, base, capacity);
  }

  // ---------------------------------------------------------------- replacing the middle

  /** Move the rest next to where the new middle will end, then write the new middle. */
  lemma ReplacePieces(b: seq<Byte>, at: nat, front: seq<Byte>, was: seq<Byte>, kept: seq<Byte>, now: seq<Byte>,
                      src: nat, rest: nat, end: nat, total: int)
    requires src == at + |front| && rest == src + |was| && end == rest + |kept| <= |b|
    requires b[at..end] == front + was + kept
    requires total == |now| - |was| && end + total <= |b|
    ensures Splice(Splice(b, rest + total, b[rest..end]), src, now)[at..end + total] == front + now + kept
  {
    hide Splice;
    var moved := Splice(b, rest + total, b[rest..end]);
    SliceOfSlice(b, at, end - at, 0, |front|);
    SliceOfSlice(b, at, end - at, |front| + |was|, end - at);
    assert (front + was + kept)[0..|front|] == front;
    assert (front + was + kept)[|front| + |was|..end - at] == kept;
    SpliceKeeps(b, rest + total, b[rest..end], at, src);
    Compose(moved, at, front, now, kept);
  }

  /** Re-encoding one option in place. */
  lemma SetBytes(b: seq<Byte>, at: nat, a: seq<Option>, o: Option, x: Option, c: seq<Option>,
                 src: nat, rest: nat, end: nat, total: int)
    requires Sorted(0, a + [o] + c) && x.number == o.number && OptionOk(x)
    requires Sorted(0, a) && Last(0, a) <= o.number && OptionOk(o)
    requires src == at + |Encode(0, a)| && rest == src + OptionSize(o.number - Last(0, a), |o.value|)
    requires end == at + |Encode(0, a + [o] + c)|
    requires total == OptionSize(o.number - Last(0, a), |x.value|) - OptionSize(o.number - Last(0, a), |o.value|)
    requires end <= |b| && end + total <= |b| && b[at..end] == Encode(0, a + [o] + c)
    ensures Sorted(0, a + [x] + c)
    ensures rest <= end && |Encode(0, a + [x] + c)| == end + total - at
    ensures Splice(Splice(b, rest + total, b[rest..end]), src, EncodeOption(x.number - Last(0, a), x.value))[at..end + total]
         == Encode(0, a + [x] + c)
  {
    hide Sorted;
    hide Encode;
    hide Last;
    hide OptionSize;
    hide EncodeOption;
    hide Splice;
    Around(0, a, o, c);
    Around(0, a, x, c);
    ReplacePieces(b, at, Encode(0, a), EncodeOption(o.number - Last(0, a), o.value), Encode(o.number, c),
                  EncodeOption(x.number - Last(0, a), x.value), src, rest, end, total);
  }

  /** A run between `a` and `s`: what sortedness says about the parts. */
  lemma RunSorted(a: seq<Option>, run: seq<Option>, s: Option, c: seq<Option>)
    requires Sorted(0, a + run + ([s] + c))
    ensures Sorted(0, a + run) && Sorted(0, a) && Sorted(Last(0, a), run) && OptionOk(s) && Sorted(s.number, c)
    ensures Last(0, a + run) == Last(Last(0, a), run) && Last(0, a) <= Last(0, a + run) <= s.number
    ensures Sorted(Last(0, a + run), [s] + c)
  {
    hide Sorted;
    hide Last;
    LastConcat(0, a, run);
    SortedConcat(0, a + run, [s] + c);
    SortedConcat(0, a, run);
    LastMonotone(Last(0, a), run);
    Unfold(Last(0, a + run), 0, s, c);
  }

  lemma Reassociate(a: seq<Byte>, b: seq<Byte>, c: seq<Byte>, d: seq<Byte>)
    ensures a + b + (c + d) == a + (b + c) + d
  {
  }

  /** The packed list with a run between `a` and `s`. */
  lemma EncodeRun(a: seq<Option>, run: seq<Option>, s: Option, c: seq<Option>)
    requires Sorted(0, a + run + ([s] + c))
    ensures Sorted(0, a) && Sorted(Last(0, a), run) && OptionOk(s) && Sorted(s.number, c)
    ensures Last(0, a) <= Last(0, a + run) <= s.number
    ensures Encode(0, a + run + ([s] + c))
         == Encode(0, a) + (Encode(Last(0, a), run) + HeadBehind(Last(0, a + run), s)) + Kept(s, c)
  {
    hide Sorted;
    hide Encode;
    hide Last;
    hide HeadBehind;
    hide Kept;
    RunSorted(a, run, s, c);
    EncodeTail(Last(0, a + run), s, c);
    EncodeConcat(0, 0, a + run, [s] + c);
    EncodeConcat(0, 0, a, run);
    Reassociate(Encode(0, a), Encode(Last(0, a), run), HeadBehind(Last(0, a + run), s), Kept(s, c));
  }

  lemma LastConcat(prev: nat, a: seq<Option>, b: seq<Option>)
    ensures Last(prev, a + b) == Last(Last(prev, a), b)
  {
  }

  lemma {:induction false} LastMonotone(prev: nat, a: seq<Option>)
    requires Sorted(prev, a)
    ensures prev <= Last(prev, a)
  {
    if a != [] {
      SortedAt(prev, a, 0, |a| - 1);
    }
  }

  /** Cutting a nonempty run out makes the successor's head wider by at most what the run occupied. */
  lemma RunWidth(last: nat, run: seq<Option>, s: Option)
    requires Sorted(last, run) && run != [] && Last(last, run) <= s.number && OptionOk(s)
    requires forall k :: 0 <= k < |run| ==> run[k].number == run[0].number
    ensures last <= s.number && ExtSize(s.number - last) <= |Encode(last, run)| + ExtSize(s.number - Last(last, run))
  {
    var n := run[0].number;
    assert run == [run[0]] + run[1..];
    Unfold(last, 0, run[0], run[1..]);
    assert |Encode(last, run)| >= 1 + ExtSize(n - last);
    hide Encode;
    hide Sorted;
    ExtSubadditive(n - last, s.number - n);
  }

  /** Move the rest of the successor back over the run and rewrite its head behind `a`. */
  lemma RemoveBytes(b: seq<Byte>, at: nat, a: seq<Option>, run: seq<Option>, s: Option, c: seq<Option>,
                    src: nat, rest: nat, end: nat, total: int)
    requires Sorted(0, a + run + ([s] + c)) && Sorted(0, a) && Sorted(Last(0, a), run) && Sorted(s.number, c)
    requires Last(0, a) <= Last(0, a + run) <= s.number && OptionOk(s)
    requires src == at + |Encode(0, a)|
    requires rest == src + |Encode(Last(0, a), run)| + |HeadBehind(Last(0, a + run), s)|
    requires end == at + |Encode(0, a + run + ([s] + c))| <= |b|
    requires total == ExtSize(s.number - Last(0, a)) - ExtSize(s.number - Last(0, a + run)) - |Encode(Last(0, a), run)|
    requires end + total <= |b| && b[at..end] == Encode(0, a + run + ([s] + c))
    ensures Sorted(0, a + [s] + c)
    ensures rest <= end && rest + total == src + |HeadBehind(Last(0, a), s)| && |Encode(0, a + [s] + c)| == end + total - at
    ensures Splice(Splice(b, rest + total, b[rest..end]), src, HeadBehind(Last(0, a), s))[at..end + total]
         == Encode(0, a + [s] + c)
  {
    hide Sorted;
    hide Encode;
    hide Last;
    hide HeadBehind;
    hide Kept;
    hide ExtSize;
    hide Splice;
    EncodeRun(a, run, s, c);
    EncodeBefore(a, s, c);
    ReplacePieces(b, at, Encode(0, a), Encode(Last(0, a), run) + HeadBehind(Last(0, a + run), s), Kept(s, c),
                  HeadBehind(Last(0, a), s), src, rest, end, total);
  }

  // ---------------------------------------------------------------- reading

  /** The delta of option `i` takes two extension bytes, of which a read skips only one. */
  predicate Far(opts: seq<Option>, i: nat)
    requires i < |opts|
  {
    DeltaAt(opts, i) >= 269
  }

  /** The value size that is read when the second extension byte of the delta is taken for the length's first. */
  function MisreadSize(delta: int, length: nat): nat
    requires delta >= 269
  {
    if length <= UINT4_MAX then length
    else if length <= UINT12_MAX then 13 + (delta - 269) % 256
    else 269 + 256 * ((delta - 269) % 256) + (length - 269) / 256
  }

  /** The value size that a read of option `i` finds. */
  function SizeRead(opts: seq<Option>, i: nat): nat
    requires i < |opts|
  {
    if Far(opts, i) then MisreadSize(DeltaAt(opts, i), |opts[i].value|) else |opts[i].value|
  }

  /** The byte in front of the value of a far option: its last extension byte. */
  function ByteBefore(delta: int, length: nat): int
    requires delta >= 269
  {
    if length <= UINT4_MAX then (delta - 269) % 256
    else if length <= UINT12_MAX then length - 13
    else (length - 269) % 256
  }

  /** A far option is read as it is: the size comes out right, and all its bytes are like the one in front of them. */
  predicate ShowsSame(delta: int, value: seq<Byte>)
    requires delta >= 269
  {
    MisreadSize(delta, |value|) == |value| && forall k :: 0 <= k < |value| ==> value[k] == ByteBefore(delta, |value|)
  }

  /** A read of option `i` finds its value. */
  predicate ReadsRight(opts: seq<Option>, i: nat)
    requires i < |opts|
  {
    Far(opts, i) ==> ShowsSame(DeltaAt(opts, i), opts[i].value)
  }

  lemma {:induction false} SameThroughout(x: Byte, value: seq<Byte>, k: nat)
    requires k < |value| && [x] + value[..|value| - 1] == value
    ensures value[k] == x
    decreases k
  {
    assert value[k] == ([x] + value[..|value| - 1])[k];
    if k > 0 { SameThroughout(x, value, k - 1); }
  }

  /** Moved by one byte, a nonempty value is still the same exactly if all its bytes are the one that comes in. */
  lemma ShiftedSame(x: Byte, value: seq<Byte>)
    requires value != []
    ensures [x] + value[..|value| - 1] == value <==> forall k :: 0 <= k < |value| ==> value[k] == x
  {
    if [x] + value[..|value| - 1] == value {
      forall k | 0 <= k < |value| ensures value[k] == x { SameThroughout(x, value, k); }
    }
  }

  /** The extension bytes that a read of a far option takes for the length. */
  lemma FarBytes(b: seq<Byte>, src: nat, delta: nat, value: seq<Byte>)
    requires 269 <= delta <= UINT20_MAX && |value| <= UINT20_MAX && src + OptionSize(delta, |value|) <= |b|
    requires b[src..src + OptionSize(delta, |value|)] == EncodeOption(delta, value)
    ensures b[src + 2] == (delta - 269) % 256 && (|value| >= 269 ==> b[src + 3] == (|value| - 269) / 256)
    ensures b[src + OptionSize(delta, |value|) - |value| - 1] == ByteBefore(delta, |value|)
  {
    var e := b[src..src + OptionSize(delta, |value|)];
    assert e[2] == ExtBytes(delta)[1];
    assert |value| >= 269 ==> e[3] == ExtBytes(|value|)[0] && e[4] == ExtBytes(|value|)[1];
    assert UINT4_MAX < |value| <= UINT12_MAX ==> e[3] == ExtBytes(|value|)[0];
    assert b[src + 2] == e[2];
    assert |value| >= 269 ==> b[src + 3] == e[3] && b[src + 4] == e[4];
    assert UINT4_MAX < |value| <= UINT12_MAX ==> b[src + 3] == e[3];
  }

  /** The bytes of option `i` that a read looks at. */
  lemma ReadPlan(b: seq<Byte>, index: seq<Entry>, at: nat, end: nat, opts: seq<Option>, i: nat)
    requires at <= end <= |b| && Represents(b[at..end], index, at, opts) && i < |opts|
    ensures |index| == |opts| && OptionOk(opts[i]) && 0 <= DeltaAt(opts, i) <= NUMBER_MAX
    ensures var src, delta, length := index[i].data, DeltaAt(opts, i), |opts[i].value|;
            && index[i].size == OptionSize(delta, length) && at <= src && src + index[i].size <= end
            && b[src] / 16 == NibbleFor(delta) && b[src] % 16 == NibbleFor(length)
            && NibbleExtSize(NibbleFor(length)) == ExtSize(length)
            && ReadExt(NibbleFor(length), b[src + 1 + ExtSize(delta)..]) == Ext(length, ExtSize(length))
            && b[src + index[i].size - length..src + index[i].size] == opts[i].value
            && (delta >= 269 ==> b[src + 2] == (delta - 269) % 256 && (length >= 269 ==> b[src + 3] == (length - 269) / 256))
            && (delta >= 269 ==> 0 < src + index[i].size - length && b[src + index[i].size - length - 1] == ByteBefore(delta, length))
  {
    hide ByteBefore;
    hide Sorted;
    hide Encode;
    hide Index;
    hide Last;
    hide ReadExt;
    hide ExtSize;
    hide NibbleFor;
    hide NibbleExtSize;
    hide EncodeOption;
    RepresentsSizes(b[at..end], index, at, opts);
    hide Represents;
    OptionFacts(b, index, at, end, opts, i);
    LastOfPrefix(opts, i);
    var src, delta, value := index[i].data, DeltaAt(opts, i), opts[i].value;
    OptionBytes(b, src, delta, value);
    if delta >= 269 { FarBytes(b, src, delta, value); }
  }

  /** A read of option `i` with entry `e` finds the value, or for a far option a window that begins one byte early. */
  ghost predicate ReadAt(b: seq<Byte>, e: Entry, opts: seq<Option>, i: nat, cursor: int, size: int)
    requires i < |opts|
  {
    var v, value := e.data + e.size - |opts[i].value|, opts[i].value;
    && 0 < v && v + |value| <= |b| && b[v..v + |value|] == value
    && cursor == (if Far(opts, i) then v - 1 else v) && size == SizeRead(opts, i)
    && (Far(opts, i) ==> b[v - 1] == ByteBefore(DeltaAt(opts, i), |value|))
  }

  /** What a read finds that takes the width of the delta nibble as if the nibble were the delta itself. */
  lemma ReadFinds(b: seq<Byte>, index: seq<Entry>, at: nat, end: nat, opts: seq<Option>, i: nat, cursor: int, size: nat, used: nat)
    requires at <= end <= |b| && Represents(b[at..end], index, at, opts) && i < |opts| && |index| == |opts| && index[i].data < |b|
    requires var d, n := ExtSize(b[index[i].data] / 16), b[index[i].data] % 16;
             && d >= 0 && index[i].data + 1 + d <= |b| && used == NibbleExtSize(n)
             && cursor == index[i].data + 1 + d + used && ReadExt(n, b[index[i].data + 1 + d..]) == Ext(size, used)
    ensures OptionOk(opts[i]) && ReadAt(b, index[i], opts, i, cursor, size)
  {
    hide ByteBefore;
    hide Represents;
    hide Sorted;
    hide Encode;
    hide Index;
    ReadPlan(b, index, at, end, opts, i);
  }

  /** The bytes found are the value exactly in these cases. */
  lemma RightIff(b: seq<Byte>, e: Entry, opts: seq<Option>, i: nat, cursor: nat, size: nat)
    requires i < |opts| && ReadAt(b, e, opts, i, cursor, size)
    ensures cursor + size <= |b| && b[cursor..cursor + size] == opts[i].value <==> ReadsRight(opts, i)
  {
    hide ByteBefore;
    hide MisreadSize;
    var value := opts[i].value;
    if Far(opts, i) && size == |value| && value != [] {
      var v := cursor + 1;
      EarlyWindow(b, v, value);
      ShiftedSame(b[v - 1], value);
    }
  }

  /** A window of the right size that begins one byte early. */
  lemma EarlyWindow(b: seq<Byte>, v: nat, value: seq<Byte>)
    requires 0 < v && v + |value| <= |b| && b[v..v + |value|] == value && value != []
    ensures b[v - 1..v - 1 + |value|] == [b[v - 1]] + value[..|value| - 1]
  {
    var n := |value| - 1;
    assert b[v..v + n] == b[v..v + |value|][..n] == value[..n];
    assert b[v - 1..v + n] == [b[v - 1]] + b[v..v + n];
  }

  /** What follows the first of three parts in the middle of `b`, and where the third lies. */
  lemma ThreeParts(b: seq<Byte>, src: nat, head: seq<Byte>, ext: seq<Byte>, value: seq<Byte>, rest: seq<Byte>)
    requires src + |head| + |ext| + |value| <= |b| && b[src..src + |head| + |ext| + |value|] == head + (ext + value)
    requires rest == b[src + |head| + |ext| + |value|..]
    ensures b[src + |head|..] == ext + (value + rest)
    ensures b[src + |head| + |ext|..src + |head| + |ext| + |value|] == value
  {
    var e := head + (ext + value);
    assert b[src..] == e + rest;
    assert (e + rest)[|head|..] == ext + (value + rest);
    assert e[|head| + |ext|..] == value;
    SliceOfSlice(b, src, |e|, |head| + |ext|, |e|);
  }

  lemma OptionBytes(b: seq<Byte>, src: nat, delta: nat, value: seq<Byte>)
    requires delta <= UINT20_MAX && |value| <= UINT20_MAX && src + OptionSize(delta, |value|) <= |b|
    requires b[src..src + OptionSize(delta, |value|)] == EncodeOption(delta, value)
    ensures ReadExt(NibbleFor(|value|), b[src + 1 + ExtSize(delta)..]) == Ext(|value|, ExtSize(|value|))
    ensures NibbleExtSize(NibbleFor(|value|)) == ExtSize(|value|)
    ensures b[src + OptionSize(delta, |value|) - |value|..src + OptionSize(delta, |value|)] == value
  {
    hide NibbleFor;
    hide NibbleExtSize;
    hide ExtBytes;
    hide ExtSize;
    hide ReadExt;
    hide HeadPart;
    var head, ext, rest := HeadPart(delta, NibbleFor(|value|)), ExtBytes(|value|), b[src + OptionSize(delta, |value|)..];
    ThreeParts(b, src, head, ext, value, rest);
    ExtRoundTrip(|value|, value + rest);
  }

  // ---------------------------------------------------------------- setting

  /** What the code reads before option `o` is re-encoded as `x`, and the room that it needs. */
  lemma SetPlan(b: seq<Byte>, index: seq<Entry>, at: nat, end: nat, a: seq<Option>, o: Option, x: Option, c: seq<Option>)
    requires at <= end <= |b| && Represents(b[at..end], index, at, a + [o] + c)
    requires Sorted(0, a) && Last(0, a) <= o.number && OptionOk(o) && Sorted(o.number, c) && OptionOk(x) && x.number == o.number
    ensures |index| == |a| + 1 + |c| && Sorted(0, a + [x] + c)
    ensures var delta, e := o.number - Last(0, a), index[|a|];
            var was := OptionSize(delta, |o.value|);
            && e == Entry(o.number, at + |Encode(0, a)|, was) && e.data + was <= end
            && |Encode(0, a + [x] + c)| == end - at + OptionSize(delta, |x.value|) - was
            && index[..|a|] == Index(0, at, a) && index[|a| + 1..] == Index(o.number, e.data + was, c)
            && (forall k :: |a| < k < |index| ==> index[k].data >= e.data + was)
            && (c != [] ==> index[|a| + 1].data == e.data + was < end)
            && (c == [] ==> e.data + was == end)
  {
    hide Sorted;
    hide Encode;
    hide Index;
    hide EncodeOption;
    hide OptionSize;
    hide ExtSize;
    hide NibbleFor;
    hide Last;
    hide Represents;
    var opts := a + [o] + c;
    assert opts[..|a|] == a && opts[|a|] == o && opts[|a| + 1..] == c;
    OptionFacts(b, index, at, end, opts, |a|);
    UnfoldNil(o.number, 0);
    RestEntries(o.number, index[|a|].data + index[|a|].size, c, index, |a| + 1);
    Around(0, a, o, c);
    Around(0, a, x, c);
  }

  /** The entries of the rest lie behind its start, the first one exactly there. */
  lemma RestEntries(prev: nat, at: nat, c: seq<Option>, index: seq<Entry>, i: nat)
    requires Sorted(prev, c) && i <= |index| && index[i..] == Index(prev, at, c)
    ensures forall k :: i <= k < |index| ==> index[k].data >= at
    ensures c != [] ==> i < |index| && index[i].data == at
  {
    hide Sorted;
    hide Index;
    IndexShift(prev, at, at, c);
    if c != [] { IndexFirst(prev, at, c); }
    assert forall k :: i <= k < |index| ==> index[k] == index[i..][k - i];
  }

  lemma IndexFirst(prev: nat, at: nat, opts: seq<Option>)
    requires Sorted(prev, opts) && opts != []
    ensures Index(prev, at, opts)[0].data == at
  {
  }

  /** An index put together from the front, one entry, and relocated entries of the rest. */
  lemma IndexAssembled(index: seq<Entry>, at: nat, a: seq<Option>, x: Option, c: seq<Option>, src: nat, size: nat, was: nat)
    requires Sorted(0, a) && Last(0, a) <= x.number && OptionOk(x) && Sorted(x.number, c)
    requires |index| == |a| + 1 + |c| && index[..|a|] == Index(0, at, a) && index[|a|] == Entry(x.number, src, size)
    requires src == at + |Encode(0, a)| && size == OptionSize(x.number - Last(0, a), |x.value|)
    requires Relocated(Index(x.number, was, c), index[|a| + 1..], src + size - was)
    ensures Sorted(0, a + [x] + c) && index == Index(0, at, a + [x] + c)
  {
    hide Sorted;
    hide Encode;
    hide Index;
    hide OptionSize;
    hide EncodeOption;
    hide Last;
    hide Relocated;
    Around(at, a, x, c);
    RelocatedIndex(x.number, was, src + size, c, index[|a| + 1..]);
    assert index == index[..|a|] + [index[|a|]] + index[|a| + 1..];
  }

  /** Entry `i` has a new size, and those behind it have followed. */
  ghost predicate ReplacedEntries(index: seq<Entry>, index': seq<Entry>, i: nat, size: nat, total: int) {
    && i < |index| == |index'| && index'[..i] == index[..i] && index'[i] == index[i].(size := size)
    && Relocated(index[i + 1..], index'[i + 1..], total)
  }

  /** What stood behind the old option, if anything, has moved, and the new option has been written. */
  ghost predicate ReplacedBytes(b: seq<Byte>, b': seq<Byte>, src: nat, rest: nat, end: nat, total: int, e: seq<Byte>) {
    && rest <= end <= |b| && 0 <= rest + total && end + total <= |b| && src + |e| <= |b|
    && b' == Splice(if rest == end then b else Splice(b, rest + total, b[rest..end]), src, e)
  }

  lemma Replaced(index: seq<Entry>, mid: seq<Entry>, i: nat, size: nat, total: int)
    requires i < |index| == |mid| && mid[..i] == index[..i] && mid[i] == index[i] && Relocated(index[i + 1..], mid[i + 1..], total)
    ensures ReplacedEntries(index, mid[i := mid[i].(size := size)], i, size, total)
  {
    hide Relocated;
    var index' := mid[i := mid[i].(size := size)];
    assert index'[..i] == mid[..i] && index'[i + 1..] == mid[i + 1..];
  }

  /** With nothing to move, moving nothing is the same. */
  lemma ReplacedAlways(b: seq<Byte>, b': seq<Byte>, src: nat, rest: nat, end: nat, total: int, e: seq<Byte>)
    requires ReplacedBytes(b, b', src, rest, end, total, e)
    ensures b' == Splice(Splice(b, rest + total, b[rest..end]), src, e)
  {
    hide Splice;
    if rest == end {
      assert b[end..end] == [];
      SpliceNothing(b, end + total);
    }
  }

  /** What setting leaves: the rest relocated if there is one, the option rewritten. */
  lemma SetDone(b: seq<Byte>, index: seq<Entry>, at: nat, end: nat, capacity: nat,
                a: seq<Option>, o: Option, x: Option, c: seq<Option>, src: nat, rest: nat, e: seq<Byte>, total: int,
                index': seq<Entry>, done: seq<Byte>)
    requires at <= end <= at + capacity <= |b| && Represents(b[at..end], index, at, a + [o] + c)
    requires Sorted(0, a) && Last(0, a) <= o.number && OptionOk(o) && Sorted(o.number, c) && OptionOk(x) && x.number == o.number
    requires e == EncodeOption(o.number - Last(0, a), x.value)
    requires src == at + |Encode(0, a)| && rest == src + OptionSize(o.number - Last(0, a), |o.value|) <= end
    requires total == src + |e| - rest && at <= end + total <= at + capacity
    requires ReplacedEntries(index, index', |a|, |e|, total) && ReplacedBytes(b, done, src, rest, end, total, e)
    ensures Sorted(0, a + [x] + c)
    ensures Represents(done[at..end + total], index', at, a + [x] + c) && index'[0].data == at && SameOutside(b, done, at, capacity)
  {
    hide Sorted;
    hide Encode;
    hide Index;
    hide OptionSize;
    hide EncodeOption;
    hide Last;
    hide Relocated;
    hide Represents;
    hide SameOutside;
    hide Splice;
    hide ReplacedBytes;
    SetPlan(b, index, at, end, a, o, x, c);
    IndexAssembled(index', at, a, x, c, src, |e|, rest);
    SetPacked(b, index, at, end, capacity, a, o, x, c, src, rest, e, total, done);
    Represented(done[at..end + total], index', at, a + [x] + c);
    IndexStart(done[at..end + total], index', at, a + [x] + c);
  }

  lemma SetPacked(b: seq<Byte>, index: seq<Entry>, at: nat, end: nat, capacity: nat,
                  a: seq<Option>, o: Option, x: Option, c: seq<Option>, src: nat, rest: nat, e: seq<Byte>, total: int, done: seq<Byte>)
    requires at <= end <= at + capacity <= |b| && Represents(b[at..end], index, at, a + [o] + c)
    requires Sorted(0, a) && Last(0, a) <= o.number && OptionOk(o) && Sorted(o.number, c) && OptionOk(x) && x.number == o.number
    requires e == EncodeOption(o.number - Last(0, a), x.value) && ReplacedBytes(b, done, src, rest, end, total, e)
    requires src == at + |Encode(0, a)| && rest == src + OptionSize(o.number - Last(0, a), |o.value|) <= end
    requires total == src + |e| - rest && at <= end + total <= at + capacity
    ensures Sorted(0, a + [x] + c) && |done| == |b| && at <= end + total
    ensures done[at..end + total] == Encode(0, a + [x] + c) && SameOutside(b, done, at, capacity)
  {
    hide Sorted;
    hide Encode;
    hide Index;
    hide OptionSize;
    hide EncodeOption;
    hide Last;
    hide Relocated;
    hide Represents;
    hide SameOutside;
    hide Splice;
    SetPlan(b, index, at, end, a, o, x, c);
    ReplacedAlways(b, done, src, rest, end, total, e);
    SetBytesHere(b, index, at, end, a, o, x, c, src, rest, total);
    SetInside(b, at, capacity, src, rest, end, total, e);
  }

  lemma SetBytesHere(b: seq<Byte>, index: seq<Entry>, at: nat, end: nat, a: seq<Option>, o: Option, x: Option, c: seq<Option>,
                     src: nat, rest: nat, total: int)
    requires at <= end <= |b| && Represents(b[at..end], index, at, a + [o] + c)
    requires Sorted(0, a) && Last(0, a) <= o.number && OptionOk(o) && OptionOk(x) && x.number == o.number
    requires src == at + |Encode(0, a)| && rest == src + OptionSize(o.number - Last(0, a), |o.value|) <= end
    requires total == src + OptionSize(o.number - Last(0, a), |x.value|) - rest && at <= end + total <= |b|
    ensures Sorted(0, a + [x] + c)
    ensures Splice(Splice(b, rest + total, b[rest..end]), src, EncodeOption(o.number - Last(0, a), x.value))[at..end + total]
         == Encode(0, a + [x] + c)
  {
    hide Sorted;
    hide Encode;
    hide Index;
    hide OptionSize;
    hide EncodeOption;
    hide Last;
    hide Splice;
    SetBytes(b, at, a, o, x, c, src, rest, end, total);
  }

  lemma SetInside(b: seq<Byte>, base: nat, capacity: nat, src: nat, rest: nat, end: nat, total: int, x: seq<Byte>)
    requires base <= src <= rest <= end <= base + capacity <= |b| && end + total <= base + capacity
    requires src <= rest + total && src + |x| <= base + capacity
    ensures SameOutside(b, Splice(Splice(b, rest + total, b[rest..end]), src, x), base, capacity)
  {
    hide Splice;
    SpliceInside(b, rest + total, b[rest..end], base, capacity);
    SpliceInside(Splice(b, rest + total, b[rest..end]), src, x, base, capacity);
  }

  lemma SpliceNothing(b: seq<Byte>, at: nat)
    requires at <= |b|
    ensures Splice(b, at, []) == b
  {
  }

  // ---------------------------------------------------------------- removing

  /** Each entry begins where the one before it ends. */
  ghost predicate Contiguous(index: seq<Entry>) {
    forall k :: 0 <= k < |index| - 1 ==> index[k].data + index[k].size == index[k + 1].data
  }

  lemma {:induction false} IndexContiguous(prev: nat, at: nat, opts: seq<Option>)
    requires Sorted(prev, opts)
    ensures Contiguous(Index(prev, at, opts))
    decreases opts
  {
    if opts != [] {
      var n, rest := opts[0].number, opts[1..];
      var size := OptionSize(n - prev, |opts[0].value|);
      IndexContiguous(n, at + size, rest);
      if rest != [] { IndexFirst(n, at + size, rest); }
      var tail := Index(n, at + size, rest);
      assert Index(prev, at, opts) == [Entry(n, at, size)] + tail;
      forall k | 0 <= k < |opts| - 1
        ensures Index(prev, at, opts)[k].data + Index(prev, at, opts)[k].size == Index(prev, at, opts)[k + 1].data
      {
        if k > 0 { assert Index(prev, at, opts)[k] == tail[k - 1] && Index(prev, at, opts)[k + 1] == tail[k]; }
      }
    }
  }

  /** How sizes change when `run` between `a` and `s` is cut out. */
  lemma RemoveSizes(a: seq<Option>, run: seq<Option>, s: Option, c: seq<Option>)
    requires Sorted(0, a + run + ([s] + c))
    ensures Sorted(0, a) && Sorted(Last(0, a), run) && OptionOk(s) && Sorted(s.number, c) && Sorted(0, a + [s] + c)
    ensures Last(0, a) <= Last(0, a + run) <= s.number
    ensures var was, now := OptionSize(s.number - Last(0, a + run), |s.value|), OptionSize(s.number - Last(0, a), |s.value|);
            && now - was == ExtSize(s.number - Last(0, a)) - ExtSize(s.number - Last(0, a + run))
            && 0 <= ExtSize(s.number - Last(0, a + run)) < was && 0 <= ExtSize(s.number - Last(0, a)) < now
            && |Encode(0, a + [s] + c)| == |Encode(0, a + run + ([s] + c))| + now - was - |Encode(Last(0, a), run)|
  {
    hide Sorted;
    hide Encode;
    hide OptionSize;
    hide Last;
    hide HeadBehind;
    hide Kept;
    RunSorted(a, run, s, c);
    EncodeRun(a, run, s, c);
    EncodeBefore(a, s, c);
    HeadResized(Last(0, a + run), Last(0, a), s);
    HeadResized(Last(0, a), Last(0, a + run), s);
  }

  lemma RunPieces(a: seq<Option>, run: seq<Option>, s: Option, c: seq<Option>)
    ensures var opts, j := a + run + ([s] + c), |a| + |run|;
            opts[..j] == a + run && opts[j] == s && opts[j + 1..] == c
  {
  }

  lemma IndexPieces(index: seq<Entry>, front: seq<Entry>, first: seq<Entry>, second: seq<Entry>)
    requires front <= index && front == first + second && second != []
    ensures index[..|first|] == first && index[|first|] == second[0]
  {
    assert index[..|front|][..|first|] == index[..|first|];
    assert index[|first|] == index[..|front|][|first|];
  }

  /** What the code reads before the options `run` between `a` and `s` are cut out. */
  lemma RemovePlan(b: seq<Byte>, index: seq<Entry>, at: nat, end: nat, a: seq<Option>, run: seq<Option>, s: Option, c: seq<Option>,
                   src: nat, next: nat, was: nat)
    requires at <= end <= |b| && Represents(b[at..end], index, at, a + run + ([s] + c)) && run != []
    requires Sorted(0, a) && Sorted(Last(0, a), run) && Last(0, a + run) <= s.number && OptionOk(s) && Sorted(s.number, c)
    requires src == at + |Encode(0, a)| && next == src + |Encode(Last(0, a), run)|
    requires was == OptionSize(s.number - Last(0, a + run), |s.value|)
    ensures |index| == |a| + |run| + 1 + |c|
    ensures var j := |a| + |run|;
            && index[|a|].data == src && index[j] == Entry(s.number, next, was) && next + was <= end
            && index[..|a|] == Index(0, at, a) && index[j + 1..] == Index(s.number, next + was, c)
            && NibbleExtSize(b[next] / 16) == ExtSize(s.number - Last(0, a + run)) && b[next] % 16 == NibbleFor(|s.value|)
  {
    hide Sorted;
    hide Encode;
    hide Index;
    hide EncodeOption;
    hide OptionSize;
    hide Last;
    hide ExtSize;
    hide NibbleFor;
    hide NibbleExtSize;
    hide Represents;
    var opts := a + run + ([s] + c);
    RepresentsSizes(b[at..end], index, at, opts);
    RunPieces(a, run, s, c);
    OptionFacts(b, index, at, end, opts, |a| + |run|);
    ExtRoundTrip(s.number - Last(0, a + run), []);
    EncodeConcat(0, at, a, run);
    IndexFirst(Last(0, a), src, run);
    IndexPieces(index, index[..|a| + |run|], Index(0, at, a), Index(Last(0, a), src, run));
  }

  /** More of what is read before a removal: the predecessor's number and where the entries lie. */
  lemma RemoveBefore(index: seq<Entry>, at: nat, a: seq<Option>, run: seq<Option>, s: Option, c: seq<Option>, rest: nat)
    requires Sorted(0, a + run + ([s] + c)) && index == Index(0, at, a + run + ([s] + c)) && |index| == |a| + |run| + 1 + |c|
    requires Sorted(0, a) && Sorted(s.number, c) && index[|a| + |run| + 1..] == Index(s.number, rest, c)
    ensures Contiguous(index) && Last(0, a) == if a == [] then 0 else index[|a| - 1].number
    ensures forall k :: |a| + |run| < k < |index| ==> index[k].data >= rest
  {
    hide Sorted;
    hide Encode;
    hide Index;
    hide OptionSize;
    hide EncodeOption;
    var opts := a + run + ([s] + c);
    IndexContiguous(0, at, opts);
    RestEntries(s.number, rest, c, index, |a| + |run| + 1);
    if a != [] {
      IndexAt(0, at, opts, |a| - 1);
      assert opts[|a| - 1] == a[|a| - 1];
    }
  }

  /** Everything that the code relies on when it cuts `run` out. */
  lemma RemovalFacts(b: seq<Byte>, index: seq<Entry>, at: nat, end: nat, a: seq<Option>, run: seq<Option>, s: Option, c: seq<Option>,
                    src: nat, next: nat)
    requires at <= end <= |b| && Represents(b[at..end], index, at, a + run + ([s] + c)) && run != []
    requires Sorted(0, a) && Sorted(Last(0, a), run) && src == at + |Encode(0, a)| && next == src + |Encode(Last(0, a), run)|
    ensures Sorted(0, a + [s] + c) && OptionOk(s) && Sorted(s.number, c) && Last(0, a) <= Last(0, a + run) <= s.number
    ensures |index| == |a| + |run| + 1 + |c| && Contiguous(index) && Last(0, a) == if a == [] then 0 else index[|a| - 1].number
    ensures var j, rest := |a| + |run|, next + 1 + ExtSize(s.number - Last(0, a + run));
            var diff := ExtSize(s.number - Last(0, a)) - ExtSize(s.number - Last(0, a + run));
            && index[|a|].data == src && index[j].number == s.number && index[j].data == next
            && index[j].size + diff == OptionSize(s.number - Last(0, a), |s.value|)
            && next < rest <= end && rest + diff - (next - src) == src + 1 + ExtSize(s.number - Last(0, a)) > src
            && NibbleExtSize(b[next] / 16) == ExtSize(s.number - Last(0, a + run)) >= 0 && b[next] % 16 == NibbleFor(|s.value|)
            && |Encode(0, a + [s] + c)| == end - at + diff - (next - src)
            && forall k :: j < k < |index| ==> index[k].data >= rest
  {
    hide Sorted;
    hide Encode;
    hide Index;
    hide OptionSize;
    hide ExtSize;
    hide NibbleFor;
    hide Last;
    hide Represents;
    hide Contiguous;
    RepresentsSizes(b[at..end], index, at, a + run + ([s] + c));
    RemoveSizes(a, run, s, c);
    var was := OptionSize(s.number - Last(0, a + run), |s.value|);
    RemovePlan(b, index, at, end, a, run, s, c, src, next, was);
    RemoveBefore(index, at, a, run, s, c, next + was);
  }

  /** A removal: where the run begins and ends, where the successor's kept bytes begin, how far they move, how its size changes, its head. */
  datatype Removal = Removal(src: nat, next: nat, rest: nat, total: int, diff: int, h: seq<Byte>)

  /** `p` removes the options from `i` up to `j`, as bytes and entries show. */
  ghost predicate RemovalAt(b: seq<Byte>, index: seq<Entry>, at: nat, end: nat, i: nat, j: nat, p: Removal) {
    && i < j < |index| && end <= |b| && Contiguous(index)
    && p.src == index[i].data && p.next == index[j].data && at <= p.src <= p.next < end && index[j].size + p.diff >= 0
    && (i > 0 ==> index[i - 1].number <= index[j].number) && index[j].number <= NUMBER_MAX
    && p.h == HeadPart(index[j].number - (if i > 0 then index[i - 1].number else 0), b[p.next] % 16)
    && NibbleExtSize(b[p.next] / 16) >= 0 && p.rest == p.next + 1 + NibbleExtSize(b[p.next] / 16) <= end
    && p.diff == |p.h| - (p.rest - p.next) && p.total == p.diff - (p.next - p.src)
    && forall k :: j < k < |index| ==> index[k].data + p.total >= 0
  }

  /** `p` removes `run` from between `a` and `s`. */
  ghost predicate RemovalOf(at: nat, a: seq<Option>, run: seq<Option>, s: Option, c: seq<Option>, p: Removal) {
    && Sorted(0, a) && Sorted(Last(0, a), run) && OptionOk(s) && Sorted(s.number, c) && Last(0, a) <= Last(0, a + run) <= s.number
    && p.src == at + |Encode(0, a)| && p.next == p.src + |Encode(Last(0, a), run)|
    && p.rest == p.next + 1 + ExtSize(s.number - Last(0, a + run))
    && p.diff == ExtSize(s.number - Last(0, a)) - ExtSize(s.number - Last(0, a + run)) && p.total == p.diff - (p.next - p.src)
    && p.h == HeadPart(s.number - Last(0, a), NibbleFor(|s.value|))
  }

  /** Entry `j` has taken the place of entry `i`, and those behind it have followed. */
  ghost predicate RemovedEntries(index: seq<Entry>, index': seq<Entry>, i: nat, j: nat, p: Removal) {
    && i < j < |index| && |index'| == |index| - (j - i) && index'[..i] == index[..i] && index[j].size + p.diff >= 0
    && index'[i] == Entry(index[j].number, p.src, index[j].size + p.diff)
    && Relocated(index[j + 1..], index'[i + 1..], p.total)
  }

  /** The kept bytes have moved, and the new head has been written in front of them. */
  ghost predicate RemovedBytes(b: seq<Byte>, b': seq<Byte>, end: nat, p: Removal) {
    && p.rest <= end <= |b| && 0 <= p.rest + p.total && end + p.total <= |b| && p.src + |p.h| <= |b|
    && b' == Splice(Splice(b, p.rest + p.total, b[p.rest..end]), p.src, p.h)
  }

  lemma RemoveReady(b: seq<Byte>, index: seq<Entry>, at: nat, end: nat, a: seq<Option>, run: seq<Option>, s: Option, c: seq<Option>)
      returns (p: Removal)
    requires at <= end <= |b| && Represents(b[at..end], index, at, a + run + ([s] + c)) && run != []
    requires Sorted(0, a) && Sorted(Last(0, a), run)
    ensures RemovalAt(b, index, at, end, |a|, |a| + |run|, p) && RemovalOf(at, a, run, s, c, p)
    ensures Sorted(0, a + [s] + c) && |Encode(0, a + [s] + c)| == end - at + p.total
  {
    hide Sorted;
    hide Encode;
    hide Index;
    hide OptionSize;
    hide ExtSize;
    hide NibbleExtSize;
    hide NibbleFor;
    hide HeadPart;
    hide Last;
    hide Represents;
    hide Contiguous;
    var src := at + |Encode(0, a)|;
    var next := src + |Encode(Last(0, a), run)|;
    RemovalFacts(b, index, at, end, a, run, s, c, src, next);
    var diff := ExtSize(s.number - Last(0, a)) - ExtSize(s.number - Last(0, a + run));
    p := Removal(src, next, next + 1 + ExtSize(s.number - Last(0, a + run)), diff - (next - src), diff,
                 HeadPart(s.number - Last(0, a), NibbleFor(|s.value|)));
  }

  lemma RemovedIndex(b: seq<Byte>, index: seq<Entry>, index': seq<Entry>, at: nat, end: nat,
                     a: seq<Option>, run: seq<Option>, s: Option, c: seq<Option>, p: Removal)
    requires at <= end <= |b| && Represents(b[at..end], index, at, a + run + ([s] + c)) && run != []
    requires RemovalOf(at, a, run, s, c, p) && RemovedEntries(index, index', |a|, |a| + |run|, p)
    ensures Sorted(0, a + [s] + c) && index' == Index(0, at, a + [s] + c)
  {
    hide Sorted;
    hide Encode;
    hide Index;
    hide OptionSize;
    hide ExtSize;
    hide NibbleExtSize;
    hide NibbleFor;
    hide HeadPart;
    hide Last;
    hide Splice;
    hide Relocated;
    hide Represents;
    hide Contiguous;
    hide SameOutside;
    RepresentsSizes(b[at..end], index, at, a + run + ([s] + c));
    RemoveSizes(a, run, s, c);
    var now, was := OptionSize(s.number - Last(0, a), |s.value|), OptionSize(s.number - Last(0, a + run), |s.value|);
    RemovePlan(b, index, at, end, a, run, s, c, p.src, p.next, was);
    assert now == was + p.diff;
    IndexAssembled(index', at, a, s, c, p.src, now, p.next + was);
  }

  lemma RemovedPacked(b: seq<Byte>, index: seq<Entry>, at: nat, end: nat, capacity: nat,
                      a: seq<Option>, run: seq<Option>, s: Option, c: seq<Option>, p: Removal, done: seq<Byte>)
    requires at <= end <= at + capacity <= |b| && Represents(b[at..end], index, at, a + run + ([s] + c))
    requires RemovalOf(at, a, run, s, c, p) && end + p.total <= at + capacity && RemovedBytes(b, done, end, p)
    ensures Sorted(0, a + [s] + c) && at <= end + p.total
    ensures done[at..end + p.total] == Encode(0, a + [s] + c) && SameOutside(b, done, at, capacity)
  {
    hide Sorted;
    hide Encode;
    hide Index;
    hide OptionSize;
    hide ExtSize;
    hide NibbleExtSize;
    hide NibbleFor;
    hide HeadPart;
    hide Last;
    hide Splice;
    hide Relocated;
    hide Represents;
    hide Contiguous;
    hide SameOutside;
    assert p.h == HeadBehind(Last(0, a), s) && p.rest == p.next + |HeadBehind(Last(0, a + run), s)|;
    RemoveBytesHere(b, index, at, end, a, run, s, c, p.src, p.rest, p.total);
    SetInside(b, at, capacity, p.src, p.rest, end, p.total, p.h);
  }

  /** What removal leaves: the rest of `s` moved back over the run, its head rewritten behind `a`. */
  lemma RemoveDone(b: seq<Byte>, index: seq<Entry>, index': seq<Entry>, at: nat, end: nat, capacity: nat,
                   a: seq<Option>, run: seq<Option>, s: Option, c: seq<Option>, p: Removal, done: seq<Byte>)
    requires at <= end <= at + capacity <= |b| && Represents(b[at..end], index, at, a + run + ([s] + c)) && run != []
    requires RemovalOf(at, a, run, s, c, p) && end + p.total <= at + capacity
    requires RemovedEntries(index, index', |a|, |a| + |run|, p) && RemovedBytes(b, done, end, p)
    ensures Sorted(0, a + [s] + c) && at <= end + p.total
    ensures Represents(done[at..end + p.total], index', at, a + [s] + c) && index'[0].data == at && SameOutside(b, done, at, capacity)
  {
    hide Sorted;
    hide Encode;
    hide Index;
    hide OptionSize;
    hide ExtSize;
    hide NibbleExtSize;
    hide NibbleFor;
    hide HeadPart;
    hide Last;
    hide Splice;
    hide Relocated;
    hide Represents;
    hide Contiguous;
    hide SameOutside;
    hide RemovalOf;
    hide RemovedEntries;
    RemovedIndex(b, index, index', at, end, a, run, s, c, p);
    RemovedPacked(b, index, at, end, capacity, a, run, s, c, p, done);
    Represented(done[at..end + p.total], index', at, a + [s] + c);
    IndexStart(done[at..end + p.total], index', at, a + [s] + c);
  }

  lemma RemoveBytesHere(b: seq<Byte>, index: seq<Entry>, at: nat, end: nat, a: seq<Option>, run: seq<Option>, s: Option, c: seq<Option>,
                        src: nat, rest: nat, total: int)
    requires at <= end <= |b| && Represents(b[at..end], index, at, a + run + ([s] + c))
    requires Sorted(0, a) && Sorted(Last(0, a), run) && OptionOk(s) && Sorted(s.number, c) && Last(0, a) <= Last(0, a + run) <= s.number
    requires src == at + |Encode(0, a)| && rest == src + |Encode(Last(0, a), run)| + |HeadBehind(Last(0, a + run), s)|
    requires total == ExtSize(s.number - Last(0, a)) - ExtSize(s.number - Last(0, a + run)) - |Encode(Last(0, a), run)|
    requires end + total <= |b|
    ensures Sorted(0, a + [s] + c) && rest <= end && rest + total >= src && |Encode(0, a + [s] + c)| == end + total - at
    ensures Splice(Splice(b, rest + total, b[rest..end]), src, HeadBehind(Last(0, a), s))[at..end + total] == Encode(0, a + [s] + c)
  {
    hide Sorted;
    hide Encode;
    hide Index;
    hide ExtSize;
    hide HeadBehind;
    hide Last;
    hide Splice;
    RemoveBytes(b, at, a, run, s, c, src, rest, end, total);
  }

  /** Removing this number would leave bytes behind: it is the last one, and it is carried more than once. */
  predicate TrailingRepeat(opts: seq<Option>, number: nat) {
    |ValuesOf(opts, number)| >= 2 && Last(0, opts) == number
  }

  lemma {:induction false} ValuesOfRun(run: seq<Option>, number: nat)
    requires forall k :: 0 <= k < |run| ==> run[k].number == number
    ensures |ValuesOf(run, number)| == |run|
  {
    if run != [] {
      ValuesOfRun(run[1..], number);
    }
  }

  /** Positions `i..j` hold exactly the options with this number. */
  ghost predicate IsRun(opts: seq<Option>, number: nat, i: nat, j: nat) {
    && i < j <= |opts| && i == FindFirst(opts, number)
    && (forall k :: i <= k < j ==> opts[k].number == number)
    && (j < |opts| ==> opts[j].number != number)
  }

  /** The number is the last one exactly when its run reaches the end. */
  lemma RunReach(opts: seq<Option>, number: nat, i: nat, j: nat)
    requires Sorted(0, opts) && IsRun(opts, number, i, j)
    ensures TrailingRepeat(opts, number) <==> j == |opts| && j - i >= 2
    ensures Without(opts, number) == opts[..i] + opts[j..]
  {
    WithoutRun(opts, i, j, number);
    var a, run, c := opts[..i], opts[i..j], opts[j..];
    assert opts == a + run + c;
    hide Without;
    hide FindFirst;
    NoValues(a, number);
    ValuesOfRun(run, number);
    forall k | 0 <= k < |c| ensures c[k].number > number { SortedAt(0, opts, j, j + k); }
    NoValues(c, number);
    hide ValuesOf;
    ValuesOfConcat(a, run, number);
    ValuesOfConcat(a + run, c, number);
    if j < |opts| { SortedAt(0, opts, j, |opts| - 1); }
  }

  /** The list and what removal leaves of it, in pieces. */
  lemma RunParts(opts: seq<Option>, number: nat, i: nat, j: nat)
    requires Sorted(0, opts) && IsRun(opts, number, i, j)
    ensures i < j <= |opts| && opts[i..j] != []
    ensures TrailingRepeat(opts, number) <==> j == |opts| && |opts[i..j]| != 1
    ensures j < |opts| ==> Sorted(0, opts[..i]) && Sorted(Last(0, opts[..i]), opts[i..j])
    ensures j == |opts| ==> opts == opts[..i] + opts[i..j] && Without(opts, number) == opts[..i]
    ensures j < |opts| ==> opts == opts[..i] + opts[i..j] + ([opts[j]] + opts[j + 1..])
                           && Without(opts, number) == opts[..i] + [opts[j]] + opts[j + 1..]
  {
    hide Without;
    hide Sorted;
    hide TrailingRepeat;
    RunReach(opts, number, i, j);
    if j < |opts| { SplitAt(opts, j); }
    assert opts == opts[..i] + opts[i..j] + opts[j..];
    SortedConcat(0, opts[..i] + opts[i..j], opts[j..]);
    SortedConcat(0, opts[..i], opts[i..j]);
  }

  lemma NotFoundNoRepeat(opts: seq<Option>, number: nat)
    requires FindFirst(opts, number) < 0
    ensures !TrailingRepeat(opts, number) && Without(opts, number) == opts
  {
    NoValues(opts, number);
    WithoutNone(opts, number);
  }

  lemma PackedIs(bytes: seq<Byte>, index: seq<Entry>, at: nat, opts: seq<Option>)
    requires Represents(bytes, index, at, opts)
    ensures Sorted(0, opts) && bytes == Encode(0, opts)
  {
  }

  lemma PackedFront(b: seq<Byte>, at: nat, end: nat, front: seq<Byte>, behind: seq<Byte>)
    requires at <= end <= |b| && |front| + |behind| == end - at
    ensures b[at..end] == front + behind ==> b[at..at + |front|] == front
  {
    if b[at..end] == front + behind {
      SliceOfSlice(b, at, end - at, 0, |front|);
      assert (front + behind)[0..|front|] == front;
    }
  }

  /** Dropping a run at the end: what stays is untouched, and the first dropped option fills the rest iff it is alone. */
  lemma TrailingCut(b: seq<Byte>, index: seq<Entry>, at: nat, end: nat, a: seq<Option>, run: seq<Option>)
    requires at <= end <= |b| && Represents(b[at..end], index, at, a + run) && run != []
    ensures |index| == |a| + |run| && Sorted(0, a) && at + |Encode(0, a)| + index[|a|].size <= end
    ensures Represents(b[at..at + |Encode(0, a)|], index[..|a|], at, a)
    ensures at + |Encode(0, a)| + index[|a|].size == end <==> |run| == 1
  {
    hide Sorted;
    hide Encode;
    hide Index;
    hide EncodeOption;
    hide OptionSize;
    hide Last;
    hide Represents;
    RepresentsSizes(b[at..end], index, at, a + run);
    EncodeConcat(0, at, a, run);
    var end' := at + |Encode(0, a)|;
    var n, rest := run[0].number, run[1..];
    assert run == [run[0]] + rest;
    Unfold(Last(0, a), end', run[0], rest);
    UnfoldNil(n, 0);
    assert index[|a|] == Index(Last(0, a), end', run)[0];
    PackedFront(b, at, end, Encode(0, a), Encode(Last(0, a), run));
    PackedIs(b[at..end], index, at, a + run);
    assert index[..|a|] == Index(0, at, a);
    Represented(b[at..end'], index[..|a|], at, a);
  }

  /** Removal never needs more room: the successor's head grows by at most what the run occupied. */
  lemma RemovalNeverGrows(opts: seq<Option>, number: nat)
    requires Sorted(0, opts)
    ensures Sorted(0, Without(opts, number)) && |Encode(0, Without(opts, number))| <= |Encode(0, opts)|
  {
    WithoutSpec(0, opts, number);
    var i := FindFirst(opts, number);
    if i < 0 {
      NotFoundNoRepeat(opts, number);
    } else {
      var j := RunEnd(opts, i, number);
      RunReach(opts, number, i, j);
      RunSizes(opts, i, j);
    }
  }

  /** End of the run that starts at `i`. */
  function RunEnd(opts: seq<Option>, i: nat, number: nat): (j: nat)
    requires i < |opts| && opts[i].number == number
    ensures i < j <= |opts| && (forall k :: i <= k < j ==> opts[k].number == number)
    ensures j < |opts| ==> opts[j].number != number
    decreases |opts| - i
  {
    if i + 1 < |opts| && opts[i + 1].number == number then RunEnd(opts, i + 1, number) else i + 1
  }

  lemma RunSizes(opts: seq<Option>, i: nat, j: nat)
    requires Sorted(0, opts) && i < j <= |opts| && forall k :: i <= k < j ==> opts[k].number == opts[i].number
    ensures Sorted(0, opts[..i] + opts[j..]) && |Encode(0, opts[..i] + opts[j..])| <= |Encode(0, opts)|
  {
    hide Sorted;
    hide Encode;
    hide Last;
    hide HeadBehind;
    hide Kept;
    hide ExtSize;
    var a, run := opts[..i], opts[i..j];
    if j == |opts| {
      assert opts == a + run && a + opts[j..] == a;
      EncodeConcat(0, 0, a, run);
    } else {
      var s, c := opts[j], opts[j + 1..];
      assert opts == a + run + ([s] + c) && a + opts[j..] == a + [s] + c;
      RunSorted(a, run, s, c);
      EncodeRun(a, run, s, c);
      EncodeBefore(a, s, c);
      RunWidth(Last(0, a), run, s);
    }
  }
}
