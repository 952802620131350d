/** Chained byte chunks (`iolist_t`), as `unicoap/utils.c` links and reads them. */
module Iolists {
  import opened Codec
  import opened Buffers
  import opened OptionEdits

  class Chunk {
    var data: seq<Byte>
    var next: Chunk?

    constructor (data: seq<Byte>, next: Chunk?)
      ensures this.data == data && this.next == next
    {
      this.data, this.next := data, next;
    }

    /** `iolist_init`. */
    method Init(data: seq<Byte>, next: Chunk?)
      modifies this
      ensures this.data == data && this.next == next
    {
      this.data, this.next := data, next;
    }
  }

  ghost function Behind(links: seq<Chunk>, i: nat): Chunk?
    requires i < |links|
  {
    if i + 1 < |links| then links[i + 1] else null
  }

  /** `links` are the chunks from `head` on, in order. */
  ghost predicate Chain(head: Chunk?, links: seq<Chunk>)
    reads links
  {
    && head == (if links == [] then null else links[0])
    && forall i :: 0 <= i < |links| ==> links[i].next == Behind(links, i)
  }

  /** The bytes that the chunks hold together. */
  ghost function Flat(links: seq<Chunk>): seq<Byte>
    reads links
  {
    if links == [] then [] else links[0].data + Flat(links[1..])
  }

  /** A chain that ends never visits a chunk twice. */
  lemma {:induction false} Distinct(head: Chunk?, links: seq<Chunk>, i: nat, j: nat)
    requires Chain(head, links) && i < j < |links|
    ensures links[i] != links[j]
    decreases |links| - j
  {
    if links[i] == links[j] && j + 1 < |links| {
      Distinct(head, links, i + 1, j + 1);
    }
  }

  lemma ChainTail(head: Chunk?, links: seq<Chunk>)
    requires Chain(head, links) && links != []
    ensures Chain(links[0].next, links[1..]) && Flat(links) == links[0].data + Flat(links[1..])
  {
    var rest := links[1..];
    assert forall i :: 0 <= i < |rest| ==> rest[i] == links[i + 1];
  }

  lemma {:induction false} FlatConcat(a: seq<Chunk>, b: seq<Chunk>)
    ensures Flat(a + b) == Flat(a) + Flat(b)
    decreases |a|
  {
    if a == [] {
      assert a + b == b;
    } else {
      assert (a + b)[1..] == a[1..] + b;
      FlatConcat(a[1..], b);
    }
  }

  /** A chain linked behind another one. */
  lemma ChainConcat(head: Chunk?, a: seq<Chunk>, mid: Chunk?, b: seq<Chunk>)
    requires Chain(mid, b) && (a == [] ==> head == mid) && (a != [] ==> head == a[0] && a[|a| - 1].next == mid)
    requires forall i :: 0 <= i < |a| - 1 ==> a[i].next == Behind(a, i)
    ensures Chain(head, a + b)
  {
    var all := a + b;
    forall i | 0 <= i < |all| ensures all[i].next == Behind(all, i) {
      if i >= |a| { assert all[i] == b[i - |a|]; }
    }
  }

  lemma Regroup(a: seq<Byte>, b: seq<Byte>, c: seq<Byte>)
    ensures a + (b + c) == a + b + c
  {
  }

  /** `iolist_is_empty`. */
  method IsEmpty(head: Chunk?, ghost links: seq<Chunk>) returns (empty: bool)
    requires Chain(head, links)
    ensures empty <==> Flat(links) == []
  {
    var cursor, rest := head, links;
    while cursor != null
      invariant Chain(cursor, rest) && Flat(rest) == Flat(links)
      decreases |rest|
    {
      ChainTail(cursor, rest);
      if |cursor.data| > 0 {
        return false;
      }
      cursor, rest := cursor.next, rest[1..];
    }
    empty := true;
  }

  /** `iolist_size`. */
  method Size(head: Chunk?, ghost links: seq<Chunk>) returns (size: nat)
    requires Chain(head, links)
    ensures size == |Flat(links)|
  {
    var cursor, rest := head, links;
    size := 0;
    while cursor != null
      invariant Chain(cursor, rest) && size + |Flat(rest)| == |Flat(links)|
      decreases |rest|
    {
      ChainTail(cursor, rest);
      size := size + |cursor.data|;
      cursor, rest := cursor.next, rest[1..];
    }
  }

  /** `iolist_append`: walks to the last chunk and links the new chain behind it. */
  method Append(head: Chunk?, chunk: Chunk, ghost links: seq<Chunk>, ghost more: seq<Chunk>) returns (head': Chunk)
    requires Chain(head, links) && Chain(chunk, more) && forall i :: 0 <= i < |links| ==> links[i] !in more
    modifies if links == [] then {} else {links[|links| - 1]}
    ensures Chain(head', links + more) && Flat(links + more) == old(Flat(links)) + old(Flat(more))
    ensures head' == if head == null then chunk else head
  {
    FlatConcat(links, more);
    if head != null {
      var cursor: Chunk, i := head, 0;
      while cursor.next != null
        invariant i < |links| && cursor == links[i]
        decreases |links| - i
      {
        assert links[i].next == cursor.next;
        cursor := cursor.next;
        i := i + 1;
      }
      assert links[i].next == cursor.next;
      forall k | 0 <= k < i ensures links[k] != links[i] { Distinct(head, links, k, i); }
      assert forall k :: 0 <= k < i ==> links[k].next == Behind(links, k);
      cursor.next := chunk;
      ChainConcat(head, links, chunk, more);
      head' := head;
    } else {
      head' := chunk;
    }
    assert links == [] ==> links + more == more;
    SameData(links + more);
  }

  /** Relinking leaves the bytes alone. */
  twostate lemma SameData(links: seq<Chunk>)
    requires forall i :: 0 <= i < |links| ==> links[i].data == old(links[i].data)
    ensures Flat(links) == old(Flat(links))
    decreases |links|
  {
    if links != [] {
      SameData(links[1..]);
    }
  }

  /** One more chunk behind the bytes `done`. */
  method CopyChunk(buf: array<Byte>, at: nat, size: nat, capacity: nat, data: seq<Byte>, ghost was: seq<Byte>, ghost done: seq<Byte>)
    requires size == |done| && size + |data| <= capacity && at + capacity <= buf.Length == |was| && buf[..] == Splice(was, at, done)
    modifies buf
    ensures buf[..] == Splice(was, at, done + data) && SameOutside(was, buf[..], at, capacity)
  {
    hide Splice;
    hide SameOutside;
    MemCpy(buf, at + size, data);
    SpliceTwice(was, at, done, data);
    SpliceInside(was, at, done + data, at, capacity);
  }

  /** `iolist_to_buffer`: one chunk after the other, while there is room. */
  method ToBuffer(head: Chunk?, buf: array<Byte>, at: nat, capacity: nat, ghost links: seq<Chunk>) returns (fits: bool, size: nat)
    requires Chain(head, links) && at + capacity <= buf.Length
    modifies buf
    ensures fits <==> |Flat(links)| <= capacity
    ensures fits ==> size == |Flat(links)| && buf[..] == Splice(old(buf[..]), at, Flat(links))
    ensures SameOutside(old(buf[..]), buf[..], at, capacity)
  {
    hide Splice;
    hide SameOutside;
    ghost var was, all, done: seq<Byte> := buf[..], Flat(links), [];
    var cursor, rest := head, links;
    size := 0;
    SpliceNothing(was, at);
    SpliceInside(was, at, [], at, capacity);
    while cursor != null
      invariant Chain(cursor, rest) && Flat(links) == all == done + Flat(rest) && size == |done| <= capacity
      invariant buf[..] == Splice(was, at, done) && SameOutside(was, buf[..], at, capacity)
      decreases |rest|
    {
      ChainTail(cursor, rest);
      Regroup(done, cursor.data, Flat(rest[1..]));
      if |cursor.data| > capacity - size {
        return false, size;
      }
      CopyChunk(buf, at, size, capacity, cursor.data, was, done);
      done := done + cursor.data;
      size := size + |cursor.data|;
      cursor, rest := cursor.next, rest[1..];
    }
    assert done + [] == done;
    fits := true;
  }
}
