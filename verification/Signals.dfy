/** The signal ID pool of `kaos_signals.c`: one bit per ID, refining a set of IDs in use. */
module Signals {
  const QUEUE_SIZE := 3
  const WORD_BITS := 32
  /** What -1 becomes in an unsigned 32-bit ID. */
  const NO_ID := 0xffff_ffff

  /** KAOS_ID_POOL_SZ: the bits of the pool are more than all queues together can hold, by one word at most. */
  function PoolWords(modules: nat): (r: nat)
    ensures WORD_BITS * (r - 1) <= QUEUE_SIZE * modules < WORD_BITS * r
  {
    modules * QUEUE_SIZE / WORD_BITS + 1
  }

  /** `1u << j`. */
  function Mask(j: nat): bv32
    requires j < WORD_BITS
  {
    (1 as bv32) << j
  }

  predicate Bit(word: bv32, j: nat)
    requires j < WORD_BITS
  {
    word & Mask(j) != 0
  }

  lemma OneHot(j: nat)
    requires j < WORD_BITS
    ensures Mask(j) != 0 && Mask(j) & (Mask(j) - 1) == 0
  {
  }

  lemma ShiftBack(j: nat)
    requires j < WORD_BITS
    ensures Mask(j) >> j == 1
  {
  }

  lemma ShiftShort(j: nat, k: nat)
    requires j < k < WORD_BITS
    ensures Mask(k) >> j != 1
  {
  }

  lemma MasksDiffer(j: nat, k: nat)
    requires j < WORD_BITS && k < WORD_BITS && j != k
    ensures Mask(j) != Mask(k)
  {
    hide Mask;
    if j < k {
      ShiftBack(j);
      ShiftShort(j, k);
    } else {
      ShiftBack(k);
      ShiftShort(k, j);
    }
  }

  /** Different words of one bit each have no bit in common. */
  lemma Disjoint(a: bv32, b: bv32)
    requires a != 0 && b != 0 && a & (a - 1) == 0 && b & (b - 1) == 0 && a != b
    ensures a & b == 0
  {
  }

  lemma KeepBit(word: bv32, a: bv32, b: bv32)
    requires a & b == 0
    ensures (word | a) & b == word & b
    ensures (word ^ a) & b == word & b
  {
  }

  lemma OtherMask(word: bv32, a: bv32, b: bv32)
    requires a != 0 && b != 0 && a & (a - 1) == 0 && b & (b - 1) == 0 && a != b
    ensures (word | a) & b == word & b
    ensures (word ^ a) & b == word & b
  {
    Disjoint(a, b);
    KeepBit(word, a, b);
  }

  lemma OrSame(word: bv32, j: nat)
    requires j < WORD_BITS
    ensures Bit(word | Mask(j), j)
  {
  }

  lemma OrOther(word: bv32, j: nat, k: nat)
    requires j < WORD_BITS && k < WORD_BITS && j != k
    ensures Bit(word | Mask(j), k) <==> Bit(word, k)
  {
    hide Mask;
    OneHot(j);
    OneHot(k);
    MasksDiffer(j, k);
    OtherMask(word, Mask(j), Mask(k));
  }

  lemma XorSame(word: bv32, j: nat)
    requires j < WORD_BITS && Bit(word, j)
    ensures !Bit(word ^ Mask(j), j)
  {
  }

  lemma XorOther(word: bv32, j: nat, k: nat)
    requires j < WORD_BITS && k < WORD_BITS && j != k
    ensures Bit(word ^ Mask(j), k) <==> Bit(word, k)
  {
    hide Mask;
    OneHot(j);
    OneHot(k);
    MasksDiffer(j, k);
    OtherMask(word, Mask(j), Mask(k));
  }

  /** Or-ing a mask into a word sets that bit and keeps all others. */
  lemma SetBit(word: bv32, j: nat, k: nat)
    requires j < WORD_BITS && k < WORD_BITS
    ensures Bit(word | Mask(j), k) <==> (j == k || Bit(word, k))
  {
    hide Bit;
    hide Mask;
    if j == k { OrSame(word, j); } else { OrOther(word, j, k); }
  }

  /** Xor-ing the mask of a bit that is set clears it and keeps all others. */
  lemma ClearBit(word: bv32, j: nat, k: nat)
    requires j < WORD_BITS && k < WORD_BITS && Bit(word, j)
    ensures Bit(word ^ Mask(j), k) <==> (j != k && Bit(word, k))
  {
    hide Bit;
    hide Mask;
    if j == k { XorSame(word, j); } else { XorOther(word, j, k); }
  }

  /** The bits of the words are the IDs in use. */
  ghost predicate Shows(words: seq<bv32>, ids: set<nat>) {
    && (forall id: nat :: id in ids ==> id < WORD_BITS * |words|)
    && (forall id: nat :: id < WORD_BITS * |words| ==> (id in ids <==> Bit(words[id / WORD_BITS], id % WORD_BITS)))
  }

  lemma Marked(words: seq<bv32>, ids: set<nat>, i: nat, j: nat)
    requires Shows(words, ids) && i < |words| && j < WORD_BITS
    ensures Shows(words[i := words[i] | Mask(j)], ids + {WORD_BITS * i + j})
  {
    hide Mask;
    hide Bit;
    var words', ids' := words[i := words[i] | Mask(j)], ids + {WORD_BITS * i + j};
    Parts(i, j);
    forall id: nat | id < WORD_BITS * |words'| ensures id in ids' <==> Bit(words'[id / WORD_BITS], id % WORD_BITS) {
      SetBit(words[i], j, id % WORD_BITS);
      Whole(id);
    }
  }

  lemma Cleared(words: seq<bv32>, ids: set<nat>, i: nat, j: nat)
    requires Shows(words, ids) && i < |words| && j < WORD_BITS && Bit(words[i], j)
    ensures Shows(words[i := words[i] ^ Mask(j)], ids - {WORD_BITS * i + j})
  {
    hide Mask;
    hide Bit;
    var words', ids' := words[i := words[i] ^ Mask(j)], ids - {WORD_BITS * i + j};
    Parts(i, j);
    forall id: nat | id < WORD_BITS * |words'| ensures id in ids' <==> Bit(words'[id / WORD_BITS], id % WORD_BITS) {
      ClearBit(words[i], j, id % WORD_BITS);
      Whole(id);
    }
  }

  /** `OutOfBounds` is an access behind the pool; the source does not check for it. */
  datatype Release = Released | NotAssigned | OutOfBounds

  class SignalPool {
    const words: array<bv32>
    ghost var ids: set<nat>

    ghost predicate Valid()
      reads this, words
    {
      Shows(words[..], ids)
    }

    constructor (modules: nat)
      ensures Valid() && ids == {} && fresh(words) && words.Length == PoolWords(modules)
    {
      words := new bv32[PoolWords(modules)](_ => 0);
      ids := {};
    }

    /** `assign_signal_id`: the least free ID, and only that one becomes used; no ID exactly when all are in use. */
    method Assign() returns (id: nat)
      requires Valid() && WORD_BITS * words.Length < NO_ID
      modifies this, words
      ensures Valid()
      ensures id == NO_ID <==> forall n: nat :: n < WORD_BITS * words.Length ==> n in old(ids)
      ensures id == NO_ID ==> ids == old(ids) && words[..] == old(words[..])
      ensures id != NO_ID ==> id < WORD_BITS * words.Length && id !in old(ids) && ids == old(ids) + {id}
      ensures id != NO_ID ==> forall n: nat :: n < id ==> n in old(ids)
    {
      hide Mask;
      hide Bit;
      for i := 0 to words.Length
        invariant Valid() && ids == old(ids) && words[..] == old(words[..])
        invariant forall n: nat :: n < WORD_BITS * i ==> n in ids
      {
        for j := 0 to WORD_BITS
          invariant Valid() && ids == old(ids) && words[..] == old(words[..])
          invariant forall n: nat :: n < WORD_BITS * i + j ==> n in ids
        {
          id := WORD_BITS * i + j;
          Parts(i, j);
          if !Bit(words[i], j) {
            Mark(i, j);
            return;
          }
        }
      }
      id := NO_ID;
    }

    /** Sets one bit, and puts the ID into the set. */
    method Mark(i: nat, j: nat)
      requires Valid() && i < words.Length && j < WORD_BITS && !Bit(words[i], j)
      modifies this, words
      ensures Valid() && ids == old(ids) + {WORD_BITS * i + j}
    {
      hide Mask;
      hide Bit;
      hide Shows;
      ghost var was := words[..];
      Marked(was, ids, i, j);
      words[i] := words[i] | Mask(j);
      ids := ids + {WORD_BITS * i + j};
      assert words[..] == was[i := was[i] | Mask(j)];
    }

    /** `release_signal_id`: takes back exactly that ID, or refuses one that is not in use and changes nothing. */
    method ReleaseId(id: nat) returns (r: Release)
      requires Valid()
      modifies this, words
      ensures Valid()
      ensures r == OutOfBounds <==> id >= WORD_BITS * words.Length
      ensures r == Released <==> id in old(ids)
      ensures ids == old(ids) - {id}
      ensures r != Released ==> words[..] == old(words[..])
    {
      hide Mask;
      hide Bit;
      var segment, bit := id / WORD_BITS, id % WORD_BITS;
      if segment >= words.Length {
        return OutOfBounds;
      }
      ghost var was := words[..];
      Whole(id);
      var word := words[segment];
      if Bit(word, bit) {
        Cleared(was, ids, segment, bit);
        words[segment] := word ^ Mask(bit);
        ids := ids - {id};
        assert words[..] == was[segment := was[segment] ^ Mask(bit)];
        return Released;
      }
      r := NotAssigned;
    }
  }

  lemma Parts(i: nat, j: nat)
    requires j < WORD_BITS
    ensures (WORD_BITS * i + j) / WORD_BITS == i && (WORD_BITS * i + j) % WORD_BITS == j
  {
  }

  lemma Whole(id: nat)
    ensures WORD_BITS * (id / WORD_BITS) + id % WORD_BITS == id
  {
  }

  /** A set with all numbers below `n` has at least `n` elements. */
  lemma {:induction false} AtLeast(s: set<nat>, n: nat)
    requires forall k: nat :: k < n ==> k in s
    ensures |s| >= n
    decreases n
  {
    if n > 0 {
      AtLeast(s - {n - 1}, n - 1);
    }
  }

  /** While no more IDs are in use than the queues of all modules can hold, some ID is free, so assigning succeeds. */
  lemma NeverExhausted(modules: nat, ids: set<nat>)
    requires |ids| <= modules * QUEUE_SIZE
    ensures exists id: nat :: id < WORD_BITS * PoolWords(modules) && id !in ids
  {
    var bits := WORD_BITS * PoolWords(modules);
    assert bits > modules * QUEUE_SIZE;
    if forall id: nat :: id < bits ==> id in ids {
      AtLeast(ids, bits);
    }
  }
}
