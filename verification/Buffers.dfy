/** Writing into a byte buffer in place: `memmove`, `memcpy` and the option writers of `unicoap/options.c`. */
module Buffers {
  import opened Codec

  /** `s` with the bytes from `at` on overwritten by `x`. */
  function Splice(s: seq<Byte>, at: nat, x: seq<Byte>): (r: seq<Byte>)
    requires at + |x| <= |s|
    ensures |r| == |s|
    ensures forall k :: 0 <= k < at ==> r[k] == s[k]
    ensures forall k :: at + |x| <= k < |s| ==> r[k] == s[k]
    ensures r[at..at + |x|] == x
  {
    s[..at] + x + s[at + |x|..]
  }

  lemma SpliceTwice(s: seq<Byte>, at: nat, x: seq<Byte>, y: seq<Byte>)
    requires at + |x| + |y| <= |s|
    ensures Splice(Splice(s, at, x), at + |x|, y) == Splice(s, at, x + y)
  {
  }

  lemma SliceConcat(s: seq<Byte>, i: nat, j: nat, k: nat)
    requires i <= j <= k <= |s|
    ensures s[i..j] + s[j..k] == s[i..k]
  {
  }

  lemma SliceOfSlice(s: seq<Byte>, base: nat, size: nat, i: nat, j: nat)
    requires base + size <= |s| && i <= j <= size
    ensures s[base..base + size][i..j] == s[base + i..base + j]
  {
    var u := s[base..base + size][i..j];
    assert forall k :: 0 <= k < |u| ==> u[k] == s[base + i + k];
  }

  /** Bytes that a splice does not touch. */
  lemma SpliceKeeps(s: seq<Byte>, at: nat, x: seq<Byte>, i: nat, j: nat)
    requires at + |x| <= |s| && i <= j <= |s| && (j <= at || at + |x| <= i)
    ensures Splice(s, at, x)[i..j] == s[i..j]
  {
  }

  /** Writing the middle piece between a kept front and a relocated rest. */
  lemma Compose(s: seq<Byte>, base: nat, front: seq<Byte>, middle: seq<Byte>, rest: seq<Byte>)
    requires base + |front| + |middle| + |rest| <= |s|
    requires s[base..base + |front|] == front
    requires var k := base + |front| + |middle|; s[k..k + |rest|] == rest
    ensures Splice(s, base + |front|, middle)[base..base + |front| + |middle| + |rest|] == front + middle + rest
  {
    var r := Splice(s, base + |front|, middle);
    var j, k := base + |front|, base + |front| + |middle|;
    SpliceKeeps(s, j, middle, base, j);
    SpliceKeeps(s, j, middle, k, k + |rest|);
    SliceConcat(r, base, j, k);
    SliceConcat(r, base, k, k + |rest|);
  }

  /** `memmove(buf + dest, buf + src, n)`: reads everything before it writes. */
  method MemMove(buf: array<Byte>, dest: nat, src: nat, n: nat)
    requires dest + n <= buf.Length && src + n <= buf.Length
    modifies buf
    ensures buf[..] == Splice(old(buf[..]), dest, old(buf[src..src + n]))
  {
    forall k | 0 <= k < n {
      buf[dest + k] := buf[src + k];
    }
    assert buf[dest..dest + n] == old(buf[src..src + n]);
  }

  /** `memcpy` of a separate value into the buffer. */
  method MemCpy(buf: array<Byte>, dest: nat, value: seq<Byte>)
    requires dest + |value| <= buf.Length
    modifies buf
    ensures buf[..] == Splice(old(buf[..]), dest, value)
  {
    forall k | 0 <= k < |value| {
      buf[dest + k] := value[k];
    }
    assert buf[dest..dest + |value|] == value;
  }

  /** `_uint_write`: writes the extension bytes and returns the nibble with the advanced cursor. */
  method WriteExt(buf: array<Byte>, cursor: nat, value: nat) returns (nibble: Nibble, cursor': nat)
    requires value <= UINT20_MAX && cursor + ExtSize(value) <= buf.Length
    modifies buf
    ensures nibble == NibbleFor(value) && cursor' == cursor + ExtSize(value)
    ensures buf[..] == Splice(old(buf[..]), cursor, ExtBytes(value))
  {
    if value <= UINT4_MAX {
      nibble, cursor' := value, cursor;
    } else if value <= UINT12_MAX {
      buf[cursor] := value - 13;
      nibble, cursor' := 13, cursor + 1;
    } else {
      buf[cursor] := (value - 269) / 256;
      buf[cursor + 1] := (value - 269) % 256;
      nibble, cursor' := 14, cursor + 2;
    }
    assert buf[..] == Splice(old(buf[..]), cursor, ExtBytes(value));
  }

  /** `_write_head_partial`: head byte and extended delta, keeping a given length nibble. */
  method WriteHeadPartial(buf: array<Byte>, cursor: nat, delta: nat, lengthNibble: Nibble) returns (cursor': nat)
    requires delta <= UINT20_MAX && cursor + 1 + ExtSize(delta) <= buf.Length
    modifies buf
    ensures cursor' == cursor + 1 + ExtSize(delta)
    ensures buf[..] == Splice(old(buf[..]), cursor, HeadPart(delta, lengthNibble))
  {
    var nibble;
    nibble, cursor' := WriteExt(buf, cursor + 1, delta);
    buf[cursor] := 16 * nibble + lengthNibble;
    ghost var was := old(buf[..]);
    assert buf[..] == Splice(was, cursor, HeadPart(delta, lengthNibble));
  }

  /** The first half of `_write_option`: the length nibble is or-ed into the head byte once it is known. */
  method WriteHead(buf: array<Byte>, cursor: nat, delta: nat, value: seq<Byte>) returns (cursor': nat)
    requires delta <= UINT20_MAX && |value| <= UINT20_MAX
    requires cursor + OptionSize(delta, |value|) <= buf.Length
    modifies buf
    ensures cursor' == cursor + 1 + ExtSize(delta) + ExtSize(|value|)
    ensures buf[..] == Splice(old(buf[..]), cursor, HeadPart(delta, NibbleFor(|value|)) + ExtBytes(|value|))
  {
    hide Splice;
    hide ExtBytes;
    hide NibbleFor;
    ghost var was := buf[..];
    cursor' := WriteHeadPartial(buf, cursor, delta, 0);
    ghost var headed := buf[..];
    var length;
    length, cursor' := WriteExt(buf, cursor', |value|);
    ghost var extended := buf[..];
    HeadBytePending(was, headed, extended, cursor, delta, value);
    buf[cursor] := buf[cursor] + length;
    ghost var head: Byte := 16 * NibbleFor(delta) + length;
    assert buf[..] == extended[cursor := head];
    HeadCompleted(was, headed, extended, cursor, delta, value);
  }

  /** `_write_option`: a whole option. */
  method WriteOption(buf: array<Byte>, cursor: nat, delta: nat, value: seq<Byte>) returns (cursor': nat)
    requires delta <= UINT20_MAX && |value| <= UINT20_MAX
    requires cursor + OptionSize(delta, |value|) <= buf.Length
    modifies buf
    ensures cursor' == cursor + OptionSize(delta, |value|)
    ensures buf[..] == Splice(old(buf[..]), cursor, EncodeOption(delta, value))
  {
    hide Splice;
    hide ExtBytes;
    hide NibbleFor;
    ghost var was := buf[..];
    ghost var head := HeadPart(delta, NibbleFor(|value|)) + ExtBytes(|value|);
    cursor' := WriteHead(buf, cursor, delta, value);
    MemCpy(buf, cursor', value);
    cursor' := cursor' + |value|;
    SpliceTwice(was, cursor, head, value);
    assert head + value == EncodeOption(delta, value);
  }

  /** After the delta and the extended length are written, the head byte still lacks its low nibble. */
  lemma HeadBytePending(was: seq<Byte>, headed: seq<Byte>, extended: seq<Byte>, cursor: nat, delta: nat, value: seq<Byte>)
    requires delta <= UINT20_MAX && |value| <= UINT20_MAX
    requires cursor + OptionSize(delta, |value|) <= |was|
    requires headed == Splice(was, cursor, HeadPart(delta, 0))
    requires extended == Splice(headed, cursor + 1 + ExtSize(delta), ExtBytes(|value|))
    ensures |extended| == |was| && extended[cursor] == 16 * NibbleFor(delta)
  {
    hide ExtBytes;
    hide NibbleFor;
    assert headed[cursor..cursor + 1 + ExtSize(delta)][0] == headed[cursor];
  }

  /** Or-ing the length nibble into the head byte afterwards gives the same bytes as writing it first. */
  lemma HeadCompleted(was: seq<Byte>, headed: seq<Byte>, extended: seq<Byte>, cursor: nat, delta: nat, value: seq<Byte>)
    requires delta <= UINT20_MAX && |value| <= UINT20_MAX
    requires cursor + OptionSize(delta, |value|) <= |was|
    requires headed == Splice(was, cursor, HeadPart(delta, 0))
    requires extended == Splice(headed, cursor + 1 + ExtSize(delta), ExtBytes(|value|))
    ensures extended[cursor := 16 * NibbleFor(delta) + NibbleFor(|value|)]
         == Splice(was, cursor, HeadPart(delta, NibbleFor(|value|)) + ExtBytes(|value|))
  {
    var length := NibbleFor(|value|);
    var now := extended[cursor := 16 * NibbleFor(delta) + length];
    hide NibbleFor;
    hide ExtBytes;
    assert HeadPart(delta, 0)[1..] == HeadPart(delta, length)[1..];
    assert now == Splice(Splice(was, cursor, HeadPart(delta, length)), cursor + 1 + ExtSize(delta), ExtBytes(|value|));
    SpliceTwice(was, cursor, HeadPart(delta, length), ExtBytes(|value|));
  }
}
