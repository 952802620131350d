/** What the mutators of `unicoap/options.c` do to the decoded option list. */
module OptionLists {
  import opened Codec

  /** How many options are numbered at most `number`: where a new one goes. */
  function InsertPos(opts: seq<Option>, number: nat): (p: nat)
    ensures p <= |opts|
    ensures forall k :: 0 <= k < p ==> opts[k].number <= number
    ensures p < |opts| ==> opts[p].number > number
  {
    if opts == [] || opts[0].number > number then 0 else 1 + InsertPos(opts[1..], number)
  }

  /** Inserts behind every option numbered at most `o.number`. */
  function Insert(opts: seq<Option>, o: Option): seq<Option> {
    var p := InsertPos(opts, o.number);
    opts[..p] + [o] + opts[p..]
  }

  /** Plain search of the whole list for the first option with this number; -1 when there is none. */
  function FindFirst(opts: seq<Option>, number: nat): (i: int)
    ensures -1 <= i < |opts|
    ensures i >= 0 ==> opts[i].number == number
    ensures forall k :: 0 <= k < (if i < 0 then |opts| else i) ==> opts[k].number != number
  {
    if opts == [] then -1
    else if opts[0].number == number then 0
    else
      var i := FindFirst(opts[1..], number);
      if i < 0 then -1 else i + 1
  }

  /** Replaces the first option with this number, or inserts. */
  function Update(opts: seq<Option>, o: Option): seq<Option> {
    var i := FindFirst(opts, o.number);
    if i < 0 then Insert(opts, o) else opts[i := o]
  }

  /** The list without the options that carry this number. */
  function Without(opts: seq<Option>, number: nat): (r: seq<Option>) {
    if opts == [] then []
    else (if opts[0].number == number then [] else [opts[0]]) + Without(opts[1..], number)
  }

  /** The values carried under one number, in order. */
  function ValuesOf(opts: seq<Option>, number: nat): seq<seq<Byte>> {
    if opts == [] then []
    else (if opts[0].number == number then [opts[0].value] else []) + ValuesOf(opts[1..], number)
  }

  lemma ValuesUnfold(x: Option, rest: seq<Option>, number: nat)
    ensures ValuesOf([x] + rest, number) == (if x.number == number then [x.value] else []) + ValuesOf(rest, number)
  {
    assert ([x] + rest)[1..] == rest;
  }

  lemma {:induction false} ValuesOfConcat(a: seq<Option>, b: seq<Option>, number: nat)
    ensures ValuesOf(a + b, number) == ValuesOf(a, number) + ValuesOf(b, number)
  {
    hide ValuesOf;
    if a == [] {
      assert a + b == b;
      assert ValuesOf(a, number) == [] by { NoValues(a, number); }
    } else {
      ValuesOfConcat(a[1..], b, number);
      assert a == [a[0]] + a[1..] && a + b == [a[0]] + (a[1..] + b);
      ValuesUnfold(a[0], a[1..] + b, number);
      ValuesUnfold(a[0], a[1..], number);
    }
  }

  lemma {:induction false} NoValues(a: seq<Option>, number: nat)
    requires forall k :: 0 <= k < |a| ==> a[k].number != number
    ensures ValuesOf(a, number) == []
  {
    if a != [] {
      NoValues(a[1..], number);
    }
  }

  /** The number before position `p`, and sortedness from there on. */
  lemma LastOfPrefix(opts: seq<Option>, p: nat)
    requires Sorted(0, opts) && p <= |opts|
    ensures Sorted(0, opts[..p]) && Sorted(Last(0, opts[..p]), opts[p..])
    ensures Last(0, opts[..p]) == if p == 0 then 0 else opts[p - 1].number
  {
    assert opts == opts[..p] + opts[p..];
    SortedConcat(0, opts[..p], opts[p..]);
  }

  /** A list with one distinguished option, in bytes and in the index. */
  lemma Around(at: nat, a: seq<Option>, x: Option, c: seq<Option>)
    requires Sorted(0, a + [x] + c) || (Sorted(0, a) && Last(0, a) <= x.number && OptionOk(x) && Sorted(x.number, c))
    ensures Sorted(0, a + [x] + c) && Sorted(0, a) && Last(0, a) <= x.number && OptionOk(x) && Sorted(x.number, c)
    ensures var delta := x.number - Last(0, a);
            && Encode(0, a + [x] + c) == Encode(0, a) + EncodeOption(delta, x.value) + Encode(x.number, c)
            && var at' := at + |Encode(0, a)|;
            var size := OptionSize(delta, |x.value|);
            Index(0, at, a + [x] + c) == Index(0, at, a) + [Entry(x.number, at', size)] + Index(x.number, at' + size, c)
  {
    hide Sorted;
    hide Last;
    hide Encode;
    hide Index;
    hide OptionSize;
    hide EncodeOption;
    assert a + [x] + c == a + ([x] + c);
    SortedConcat(0, a, [x] + c);
    Unfold(Last(0, a), 0, x, c);
    Unfold(Last(0, a), at + |Encode(0, a)|, x, c);
    EncodeConcat(0, at, a, [x] + c);
  }

  lemma InsertSorted(opts: seq<Option>, o: Option)
    requires Sorted(0, opts) && OptionOk(o)
    ensures Sorted(0, Insert(opts, o))
    ensures var p := InsertPos(opts, o.number);
            Sorted(0, opts[..p]) && Last(0, opts[..p]) <= o.number && Sorted(o.number, opts[p..])
  {
    var p := InsertPos(opts, o.number);
    var a, c := opts[..p], opts[p..];
    LastOfPrefix(opts, p);
    hide Last;
    hide InsertPos;
    assert Sorted(o.number, c) by {
      if c != [] { assert c[0] == opts[p]; }
    }
    hide Sorted;
    Around(0, a, o, c);
  }

  /** A single distinguished option contributes its value in its place. */
  lemma ValuesAround(a: seq<Option>, x: Option, c: seq<Option>, n: nat)
    ensures ValuesOf(a + [x] + c, n) == ValuesOf(a, n) + (if n == x.number then [x.value] else []) + ValuesOf(c, n)
  {
    ValuesOfConcat(a, [x], n);
    ValuesOfConcat(a + [x], c, n);
  }

  /** Insertion keeps the list sorted and appends to exactly one number's values. */
  lemma InsertSpec(opts: seq<Option>, o: Option)
    requires Sorted(0, opts) && OptionOk(o)
    ensures Sorted(0, Insert(opts, o))
    ensures forall n: nat :: ValuesOf(Insert(opts, o), n) == ValuesOf(opts, n) + if n == o.number then [o.value] else []
  {
    hide Sorted;
    hide ValuesOf;
    hide Insert;
    InsertSorted(opts, o);
    forall n: nat
      ensures ValuesOf(Insert(opts, o), n) == ValuesOf(opts, n) + if n == o.number then [o.value] else []
    {
      InsertedValues(opts, o, n);
    }
  }

  lemma InsertedValues(opts: seq<Option>, o: Option, n: nat)
    requires Sorted(0, opts)
    ensures ValuesOf(Insert(opts, o), n) == ValuesOf(opts, n) + if n == o.number then [o.value] else []
  {
    hide Sorted;
    hide ValuesOf;
    hide InsertPos;
    var p := InsertPos(opts, o.number);
    assert opts == opts[..p] + opts[p..];
    ValuesOfConcat(opts[..p], opts[p..], n);
    ValuesAround(opts[..p], o, opts[p..], n);
    if n == o.number {
      forall k | p <= k < |opts| ensures opts[k].number != n {
        SortedAt(0, opts, p, k);
      }
      NoValues(opts[p..], n);
    }
  }

  /** Removal keeps the list sorted and empties exactly one number. */
  lemma {:induction false} WithoutSpec(prev: nat, opts: seq<Option>, number: nat)
    requires Sorted(prev, opts)
    ensures Sorted(prev, Without(opts, number))
    ensures forall n: nat :: ValuesOf(Without(opts, number), n) == if n == number then [] else ValuesOf(opts, n)
    decreases opts
  {
    if opts != [] {
      WithoutSpec(opts[0].number, opts[1..], number);
      var rest := Without(opts[1..], number);
      if opts[0].number == number {
        assert Without(opts, number) == rest;
      } else {
        assert Without(opts, number) == [opts[0]] + rest;
        Unfold(prev, 0, opts[0], rest);
      }
    }
  }

  lemma {:induction false} WithoutConcat(a: seq<Option>, b: seq<Option>, number: nat)
    ensures Without(a + b, number) == Without(a, number) + Without(b, number)
  {
    if a == [] {
      assert a + b == b;
    } else {
      assert (a + b)[1..] == a[1..] + b;
      WithoutConcat(a[1..], b, number);
    }
  }

  lemma {:induction false} WithoutNone(a: seq<Option>, number: nat)
    requires forall k :: 0 <= k < |a| ==> a[k].number != number
    ensures Without(a, number) == a
  {
    if a != [] {
      WithoutNone(a[1..], number);
    }
  }

  lemma {:induction false} WithoutAll(a: seq<Option>, number: nat)
    requires forall k :: 0 <= k < |a| ==> a[k].number == number
    ensures Without(a, number) == []
  {
    if a != [] {
      WithoutAll(a[1..], number);
    }
  }

  lemma Above(opts: seq<Option>, i: nat, j: nat, number: nat)
    requires Sorted(0, opts) && i < j <= |opts| && opts[i].number == number && (j < |opts| ==> opts[j].number != number)
    ensures forall k :: j <= k < |opts| ==> opts[k].number > number
  {
    hide Sorted;
    forall k | j <= k < |opts| ensures opts[k].number > number {
      SortedAt(0, opts, i, j);
      SortedAt(0, opts, j, k);
    }
  }

  /** In a sorted list the removed options form one run, so removal cuts the run out. */
  lemma WithoutRun(opts: seq<Option>, i: nat, j: nat, number: nat)
    requires Sorted(0, opts) && i == FindFirst(opts, number) && i < j <= |opts|
    requires forall k :: i <= k < j ==> opts[k].number == number
    requires j < |opts| ==> opts[j].number != number
    ensures Without(opts, number) == opts[..i] + opts[j..]
    ensures j < |opts| ==> opts[j].number > number
  {
    hide FindFirst;
    hide Without;
    hide Sorted;
    Above(opts, i, j, number);
    WithoutNone(opts[..i], number);
    WithoutAll(opts[i..j], number);
    WithoutNone(opts[j..], number);
    WithoutConcat(opts[..i] + opts[i..j], opts[j..], number);
    WithoutConcat(opts[..i], opts[i..j], number);
    assert opts == opts[..i] + opts[i..j] + opts[j..];
  }

  lemma UpdateSorted(opts: seq<Option>, o: Option)
    requires Sorted(0, opts) && OptionOk(o)
    ensures Sorted(0, Update(opts, o))
  {
    hide Sorted;
    hide FindFirst;
    hide Insert;
    var i := FindFirst(opts, o.number);
    if i < 0 {
      InsertSorted(opts, o);
    } else {
      var a, c := opts[..i], opts[i + 1..];
      assert opts == a + [opts[i]] + c && opts[i := o] == a + [o] + c;
      Around(0, a, opts[i], c);
      Around(0, a, o, c);
    }
  }

  /** Setting replaces the first value under the number, or adds the only one; nothing else changes. */
  lemma UpdateSpec(opts: seq<Option>, o: Option)
    requires Sorted(0, opts) && OptionOk(o)
    ensures Sorted(0, Update(opts, o))
    ensures forall n: nat :: ValuesOf(Update(opts, o), n)
                          == if n != o.number then ValuesOf(opts, n)
                             else [o.value] + if ValuesOf(opts, n) == [] then [] else ValuesOf(opts, n)[1..]
  {
    UpdateSorted(opts, o);
    InsertSpec(opts, o);
    var i := FindFirst(opts, o.number);
    hide Sorted;
    hide FindFirst;
    hide Insert;
    hide ValuesOf;
    if i < 0 {
      NoValues(opts, o.number);
    } else {
      var a, c := opts[..i], opts[i + 1..];
      assert opts == a + [opts[i]] + c && Update(opts, o) == a + [o] + c;
      NoValues(a, o.number);
      forall n: nat
        ensures ValuesOf(Update(opts, o), n)
             == if n != o.number then ValuesOf(opts, n)
                else [o.value] + if ValuesOf(opts, n) == [] then [] else ValuesOf(opts, n)[1..]
      {
        ValuesAround(a, opts[i], c, n);
        ValuesAround(a, o, c, n);
      }
    }
  }

  /** The first option under a number carries the first of its values. */
  lemma {:induction false} FirstValue(opts: seq<Option>, number: nat)
    ensures var i := FindFirst(opts, number);
            if i < 0 then ValuesOf(opts, number) == [] else ValuesOf(opts, number) != [] && ValuesOf(opts, number)[0] == opts[i].value
  {
    if opts != [] {
      FirstValue(opts[1..], number);
    }
  }

  /** A get after a set finds the value that was set. */
  lemma SetThenGet(opts: seq<Option>, o: Option)
    requires Sorted(0, opts) && OptionOk(o)
    ensures var i := FindFirst(Update(opts, o), o.number); i >= 0 && Update(opts, o)[i].value == o.value
    ensures forall n: nat :: n != o.number ==> ValuesOf(Update(opts, o), n) == ValuesOf(opts, n)
  {
    UpdateSpec(opts, o);
    hide Update;
    hide FindFirst;
    hide ValuesOf;
    FirstValue(Update(opts, o), o.number);
    assert ValuesOf(Update(opts, o), o.number)[0] == o.value;
  }
}
