/** The two path matchers of `unicoap/server.c`: one on the joined path, one on the Uri-Path options. */
module Paths {
  import opened Codec
  import opened OptionLists
  import opened OptionStores
  import opened OptionValues

  const SLASH: Byte := 0x2f
  const URI_PATH := 11

  /** Bytes of a C string. */
  predicate Text(s: seq<Byte>) {
    0 !in s
  }

  /** A path with a leading slash, one slash between components and none behind the last. */
  function Slashed(components: seq<seq<Byte>>): seq<Byte> {
    [SLASH] + Join(components, SLASH)
  }

  ghost predicate Proper(components: seq<seq<Byte>>) {
    forall k :: 0 <= k < |components| ==> Component(components[k], SLASH)
  }

  /** The relation both matchers are meant to decide. */
  predicate Covers(subtree: bool, resource: seq<seq<Byte>>, request: seq<seq<Byte>>) {
    if subtree then resource <= request else resource == request
  }

  // ---------------------------------------------------------------- on the joined path

  /** `_trim_trailing_slashes`: everything behind the last other byte goes, but never the first byte. */
  method TrimTrailingSlashes(path: seq<Byte>) returns (length: nat)
    ensures length <= |path| && (path != [] ==> length > 0)
    ensures forall k :: length <= k < |path| ==> path[k] == SLASH
    ensures length > 1 ==> path[length - 1] != SLASH
  {
    if |path| > 0 {
      var i := |path| - 1;
      while i > 0
        invariant 0 <= i < |path| && forall k :: i < k < |path| ==> path[k] == SLASH
      {
        if path[i] == SLASH {
          i := i - 1;
        } else {
          break;
        }
      }
      length := i + 1;
    } else {
      length := |path|;
    }
  }

  /** The path that is left. */
  function Trimmed(path: seq<Byte>): (r: seq<Byte>)
    ensures r <= path
  {
    if |path| <= 1 || path[|path| - 1] != SLASH then path else Trimmed(path[..|path| - 1])
  }

  lemma {:induction false} TrimmedIs(path: seq<Byte>, length: nat)
    requires length <= |path| && (path != [] ==> length > 0)
    requires (forall k :: length <= k < |path| ==> path[k] == SLASH) && (length > 1 ==> path[length - 1] != SLASH)
    ensures Trimmed(path) == path[..length]
    decreases |path|
  {
    if length < |path| {
      TrimmedIs(path[..|path| - 1], length);
      assert path[..|path| - 1][..length] == path[..length];
    } else {
      assert path[..length] == path;
    }
  }

  /** What comparing strings decides. */
  predicate StringMatch(subtree: bool, resource: seq<Byte>, request: seq<Byte>) {
    if subtree then
      && resource <= request
      && (|request| == |resource| || request[|resource|] == SLASH || (resource != [] && resource[|resource| - 1] == SLASH))
    else request == resource
  }

  /** `unicoap_resource_match_path_string`. */
  method MatchPathString(resource: seq<Byte>, subtree: bool, path: seq<Byte>) returns (matches: bool)
    requires resource != [] && Text(resource)
    ensures matches <==> StringMatch(subtree, resource, Trimmed(path))
  {
    var length := TrimTrailingSlashes(path);
    TrimmedIs(path, length);
    if subtree {
      if length < |resource| {
        return false;
      }
      if length > |resource| && !(path[|resource|] == SLASH || resource[|resource| - 1] == SLASH) {
        return false;
      }
      matches := path[..|resource|] == resource;
      assert Trimmed(path)[..|resource|] == path[..|resource|];
    } else {
      if length != |resource| {
        return false;
      }
      matches := path[..length] == resource;
    }
  }

  /** A component list followed by a separator is cut off first. */
  lemma {:induction false} CutBehind(components: seq<seq<Byte>>, u: seq<Byte>)
    requires components != [] && Proper(components)
    ensures Cut(Join(components, SLASH) + [SLASH] + u, SLASH, 0) == components + Cut(u, SLASH, 0)
    decreases |components|
  {
    hide Cut;
    hide Join;
    var c, rest := components[0], components[1..];
    assert components == [c] + rest && Component(c, SLASH);
    JoinStep(c, rest, SLASH);
    var s := Join(components, SLASH) + [SLASH] + u;
    assert s[..|c|] == c && s[|c|] == SLASH;
    assert forall k :: 0 <= k < |c| ==> s[k] == c[k] && c[k] in c;
    CutAt(s, |c|, SLASH, 0);
    if rest == [] {
      assert s[|c| + 1..] == u;
    } else {
      CutBehind(rest, u);
      assert s[|c| + 1..] == Join(rest, SLASH) + [SLASH] + u;
    }
  }

  /** Joined strings of proper components are equal only for equal lists. */
  lemma JoinInjective(a: seq<seq<Byte>>, b: seq<seq<Byte>>)
    requires Proper(a) && Proper(b) && Join(a, SLASH) == Join(b, SLASH)
    ensures a == b
  {
    CutJoin(a, SLASH, 0);
    CutJoin(b, SLASH, 0);
  }

  lemma {:induction false} JoinConcat(a: seq<seq<Byte>>, b: seq<seq<Byte>>)
    requires a != [] && b != []
    ensures Join(a + b, SLASH) == Join(a, SLASH) + [SLASH] + Join(b, SLASH)
    decreases |a|
  {
    hide Join;
    assert a == [a[0]] + a[1..] && a + b == [a[0]] + (a[1..] + b);
    JoinStep(a[0], a[1..], SLASH);
    JoinStep(a[0], a[1..] + b, SLASH);
    if |a| > 1 { JoinConcat(a[1..], b); } else { assert a[1..] + b == b; }
  }

  /** A joined string never ends with the separator. */
  lemma {:induction false} JoinEnd(a: seq<seq<Byte>>)
    requires a != [] && Proper(a)
    ensures Join(a, SLASH) != [] && Join(a, SLASH)[|Join(a, SLASH)| - 1] != SLASH
    decreases |a|
  {
    assert Component(a[0], SLASH);
    if |a| == 1 {
      assert a[0][|a[0]| - 1] in a[0];
    } else {
      assert forall k :: 0 <= k < |a[1..]| ==> a[1..][k] == a[k + 1];
      JoinEnd(a[1..]);
    }
  }

  /** A proper path is not changed by trimming. */
  lemma TrimmedProper(a: seq<seq<Byte>>)
    requires Proper(a)
    ensures Trimmed(Slashed(a)) == Slashed(a)
  {
    if a != [] {
      JoinEnd(a);
      assert Slashed(a)[|Slashed(a)| - 1] == Join(a, SLASH)[|Join(a, SLASH)| - 1];
    } else {
      assert Join(a, SLASH) == [];
    }
  }

  /** On proper paths, string comparison decides equality of the component lists, or prefix for a subtree. */
  lemma StringMatchDecides(subtree: bool, a: seq<seq<Byte>>, b: seq<seq<Byte>>)
    requires Proper(a) && Proper(b)
    ensures StringMatch(subtree, Slashed(a), Trimmed(Slashed(b))) <==> Covers(subtree, a, b)
  {
    TrimmedProper(b);
    hide Join;
    hide Trimmed;
    var r, l := Slashed(a), Slashed(b);
    assert r[1..] == Join(a, SLASH) && l[1..] == Join(b, SLASH);
    if !subtree {
      if r == l { JoinInjective(a, b); }
    } else if a == [] {
      JoinNone(SLASH);
    } else {
      SubtreeDecides(a, b);
    }
  }

  lemma SubtreeDecides(a: seq<seq<Byte>>, b: seq<seq<Byte>>)
    requires Proper(a) && Proper(b) && a != []
    ensures StringMatch(true, Slashed(a), Slashed(b)) <==> a <= b
  {
    hide Join;
    hide Proper;
    if a <= b { SubtreeFound(a, b); }
    if StringMatch(true, Slashed(a), Slashed(b)) { SubtreeOnly(a, b); }
  }

  lemma SubtreeFound(a: seq<seq<Byte>>, b: seq<seq<Byte>>)
    requires a != [] && a <= b
    ensures StringMatch(true, Slashed(a), Slashed(b))
  {
    hide Join;
    if a == b {
      assert Slashed(a) == Slashed(b);
    } else {
      var rest := b[|a|..];
      assert b == a + rest;
      JoinConcat(a, rest);
      var r, l := Slashed(a), Slashed(b);
      assert l == r + ([SLASH] + Join(rest, SLASH));
      assert l[..|r|] == r && l[|r|] == SLASH;
    }
  }

  lemma SubtreeOnly(a: seq<seq<Byte>>, b: seq<seq<Byte>>)
    requires Proper(a) && Proper(b) && a != [] && StringMatch(true, Slashed(a), Slashed(b))
    ensures a <= b
  {
    hide Join;
    hide Cut;
    var r, l, x, y := Slashed(a), Slashed(b), Join(a, SLASH), Join(b, SLASH);
    assert r[1..] == x && l[1..] == y;
    if |r| == |l| {
      assert r == l;
      JoinInjective(a, b);
    } else {
      JoinEnd(a);
      assert r[|r| - 1] == x[|x| - 1];
      assert y[..|x|] == x && y[|x|] == SLASH by { assert y[..|x|] == l[1..|r|] == r[1..]; }
      var u := y[|x| + 1..];
      assert y == x + [SLASH] + u;
      CutBehind(a, u);
      CutJoin(b, SLASH, 0);
    }
  }

  // ---------------------------------------------------------------- on the options

  /** The first position from `at` on that holds no slash. */
  function Skip(s: seq<Byte>, at: nat): (n: nat)
    requires at <= |s|
    ensures at <= n <= |s|
    decreases |s| - at
  {
    if at == |s| || s[at] != SLASH then at else Skip(s, at + 1)
  }

  /** The end of the component at `at`. */
  function EndOf(s: seq<Byte>, at: nat): (i: nat)
    requires at <= |s|
    ensures at <= i <= |s| && (at < |s| && s[at] != SLASH ==> at < i)
    decreases |s| - at
  {
    if at == |s| || s[at] == SLASH then at else EndOf(s, at + 1)
  }

  lemma {:induction false} SkipIs(s: seq<Byte>, at: nat, n: nat)
    requires at <= n <= |s| && (forall k :: at <= k < n ==> s[k] == SLASH) && (n < |s| ==> s[n] != SLASH)
    ensures Skip(s, at) == n
    decreases n - at
  {
    if at < n { SkipIs(s, at + 1, n); }
  }

  lemma {:induction false} SkipFacts(s: seq<Byte>, at: nat)
    requires at <= |s|
    ensures Skip(s, at) < |s| ==> s[Skip(s, at)] != SLASH
    decreases |s| - at
  {
    if at < |s| && s[at] == SLASH { SkipFacts(s, at + 1); }
  }

  lemma {:induction false} EndIs(s: seq<Byte>, at: nat, i: nat)
    requires at <= i <= |s| && (forall k :: at <= k < i ==> s[k] != SLASH) && (i < |s| ==> s[i] == SLASH)
    ensures EndOf(s, at) == i
    decreases i - at
  {
    if at < i { EndIs(s, at + 1, i); }
  }

  lemma {:induction false} EndFacts(s: seq<Byte>, at: nat)
    requires at <= |s|
    ensures SLASH !in s[at..EndOf(s, at)]
    decreases |s| - at
  {
    if at < |s| && s[at] != SLASH {
      EndFacts(s, at + 1);
      assert s[at..EndOf(s, at)] == [s[at]] + s[at + 1..EndOf(s, at)];
    }
  }

  /** The components of a path from `at` on; slashes may be doubled, missing in front, or left over at the end. */
  function PartsFrom(s: seq<Byte>, at: nat): seq<seq<Byte>>
    requires at <= |s|
    decreases |s| - at
  {
    var n := Skip(s, at);
    if n == |s| then []
    else
      SkipFacts(s, at);
      [s[n..EndOf(s, n)]] + PartsFrom(s, EndOf(s, n))
  }

  function Parts(s: seq<Byte>): seq<seq<Byte>> {
    PartsFrom(s, 0)
  }

  /** The parts from `at` on when slashes reach to `n` and the component behind them to `i`. */
  lemma PartsAt(s: seq<Byte>, at: nat, n: nat, i: nat)
    requires at <= n <= i <= |s| && (forall k :: at <= k < n ==> s[k] == SLASH) && (n < |s| ==> s[n] != SLASH)
    requires (forall k :: n <= k < i ==> s[k] != SLASH) && (i < |s| ==> s[i] == SLASH)
    ensures PartsFrom(s, at) == if n == |s| then [] else [s[n..i]] + PartsFrom(s, i)
  {
    hide Skip;
    hide EndOf;
    SkipIs(s, at, n);
    EndIs(s, n, i);
  }

  /** The parts of a proper path are its components. */
  lemma ComponentNonempty(c: seq<Byte>)
    requires Component(c, SLASH)
    ensures c != [] && SLASH !in c && forall k :: 0 <= k < |c| ==> c[k] != SLASH
  {
  }

  lemma {:induction false} PartsSlashed(s: seq<Byte>, at: nat, a: seq<seq<Byte>>)
    requires at <= |s| && Proper(a) && s[at..] == Slashed(a)
    ensures PartsFrom(s, at) == a
    decreases |a|
  {
    hide Component;
    hide PartsFrom;
    hide Join;
    if a == [] {
      JoinNone(SLASH);
      assert s[at] == s[at..][0];
      PartsAt(s, at, |s|, |s|);
    } else {
      var c, rest := a[0], a[1..];
      assert a == [c] + rest && Component(c, SLASH) && Proper(rest);
      ComponentNonempty(c);
      JoinStep(c, rest, SLASH);
      var n, i := at + 1, at + 1 + |c|;
      FirstComponent(s, at, c, if rest == [] then [] else Slashed(rest));
      PartsAt(s, at, n, i);
      if rest == [] {
        PartsAt(s, i, i, i);
      } else {
        PartsSlashed(s, i, rest);
      }
    }
  }

  lemma FirstComponent(s: seq<Byte>, at: nat, c: seq<Byte>, rest: seq<Byte>)
    requires at <= |s| && Component(c, SLASH) && s[at..] == [SLASH] + (c + rest) && (rest != [] ==> rest[0] == SLASH)
    ensures var n, i := at + 1, at + 1 + |c|;
            && i <= |s| && s[at] == SLASH && s[n] != SLASH && s[n..i] == c && s[i..] == rest
            && (forall k :: n <= k < i ==> s[k] != SLASH) && (i < |s| ==> s[i] == SLASH)
  {
    var t, n, i := s[at..], at + 1, at + 1 + |c|;
    assert t[1..1 + |c|] == c && t[1 + |c|..] == rest && t[0] == SLASH;
    assert s[n..i] == t[1..1 + |c|] && s[i..] == t[1 + |c|..] && s[at] == t[0];
    forall k | n <= k < i ensures s[k] != SLASH { assert s[k] == c[k - n]; }
  }

  lemma {:induction false} PartsProper(s: seq<Byte>, at: nat)
    requires at <= |s|
    ensures Proper(PartsFrom(s, at))
    decreases |s| - at
  {
    hide Skip;
    hide EndOf;
    var n := Skip(s, at);
    if n < |s| {
      SkipFacts(s, at);
      EndFacts(s, n);
      PartsProper(s, EndOf(s, n));
    }
  }

  /** Uri-Path has a small number, so its values are always read exactly. */
  lemma PathReadable(opts: seq<Option>)
    requires Sorted(0, opts)
    ensures Readable(opts, URI_PATH)
  {
    var i := FindFirst(opts, URI_PATH);
    if i > 0 { SortedAt(0, opts, i - 1, i); }
  }

  lemma NothingRead(opts: seq<Option>, number: nat)
    ensures ValuesOf(opts[..0], number) == []
  {
  }

  /** Consuming the next component of both sides. */
  lemma TakeBoth(parts: seq<seq<Byte>>, done: seq<seq<Byte>>, c: seq<Byte>, rest: seq<seq<Byte>>, values: seq<seq<Byte>>)
    requires parts == done + ([c] + rest)
    ensures done < values && values[|done|] == c ==> parts == done + [c] + rest && done + [c] <= values
    ensures done == values || (done < values && values[|done|] != c) ==> !(parts <= values)
  {
    assert parts[|done|] == c && parts == done + [c] + rest;
  }

  /** The loop: component after component is compared; `complete` unless one was missing or different. */
  method CompareComponents(path: seq<Byte>, it: OptionIterator, ghost all: seq<seq<Byte>>) returns (complete: bool)
    requires it.store.Valid() && Text(path) && it.index == 0 && Seen(it.store, URI_PATH) == all && InReach(it.store, URI_PATH)
    modifies it
    ensures it.store.Valid() && (complete <==> Parts(path) <= all)
    ensures complete ==> it.index <= |it.store.opts| && |ValuesOf(it.store.opts[..it.index], URI_PATH)| == |Parts(path)|
  {
    hide PartsFrom;
    hide ValuesOf;
    hide Skip;
    hide EndOf;
    hide OptionStore.Valid;
    hide Seen;
    hide InReach;
    NothingRead(it.store.opts, URI_PATH);
    ghost var parts, done: seq<seq<Byte>> := Parts(path), [];
    var end, cursor := |path|, 0;
    cursor := SkipSlashes(path, 0);
    var start := cursor;
    SkippedParts(path, 0, start);
    while cursor <= end
      invariant it.store.Valid() && it.index <= |it.store.opts| && |ValuesOf(it.store.opts[..it.index], URI_PATH)| == |done|
      invariant Seen(it.store, URI_PATH) == all && InReach(it.store, URI_PATH)
      invariant start <= end && start <= cursor <= end + 1 && (cursor > end ==> start == end)
      invariant parts == done + PartsFrom(path, start) && done <= all
      invariant (start < end ==> path[start] != SLASH) && forall k :: start <= k < cursor && k < end ==> path[k] != SLASH
      decreases end + 1 - cursor, cursor - start
    {
      var c := if cursor < end then path[cursor] else 0;
      if c == SLASH || (cursor != start && cursor == end) {
        var found, same := CompareNext(it, path[start..cursor], all, done);
        PartsAt(path, start, start, cursor);
        var size := cursor - start;
        TakeBoth(parts, done, path[start..cursor], PartsFrom(path, cursor), all);
        if !found {
          break;
        }
        if !same {
          return false;
        }
        done := done + [path[start..cursor]];
        cursor := SkipSlashes(path, cursor);
        SkippedParts(path, start + size, cursor);
        start := cursor;
      } else {
        cursor := cursor + 1;
      }
    }
    complete := cursor == end + 1;
    if complete {
      assert parts == done by { PartsAt(path, end, end, end); }
    }
  }

  /** `unicoap_resource_match_path_options`: decides the component lists for any resource path at all. */
  method MatchPathOptions(path: seq<Byte>, subtree: bool, store: OptionStore) returns (matches: bool)
    requires store.Valid() && Text(path)
    ensures matches <==> Covers(subtree, Parts(path), ValuesOf(store.opts, URI_PATH))
  {
    hide PartsFrom;
    hide ValuesOf;
    hide Readable;
    hide OptionStore.Valid;
    hide Seen;
    hide InReach;
    StoreSorted(store);
    PathReadable(store.opts);
    SeenReadable(store, URI_PATH);
    var it := new OptionIterator(store);
    ghost var all := ValuesOf(store.opts, URI_PATH);
    var complete := CompareComponents(path, it, all);
    if !complete {
      return false;
    }
    if subtree {
      return true;
    }
    var more, ignored := CompareNext(it, [], all, Parts(path));
    matches := !more;
  }

  /** Reads the next Uri-Path component and compares it, first by size. */
  method CompareNext(it: OptionIterator, c: seq<Byte>, ghost all: seq<seq<Byte>>, ghost done: seq<seq<Byte>>) returns (found: bool, same: bool)
    requires it.store.Valid() && it.index <= |it.store.opts| && Seen(it.store, URI_PATH) == all && InReach(it.store, URI_PATH)
    requires done <= all && |ValuesOf(it.store.opts[..it.index], URI_PATH)| == |done|
    modifies it
    ensures it.store.Valid() && (found <==> done < all) && (same <==> done < all && all[|done|] == c)
    ensures found ==> it.index <= |it.store.opts| && |ValuesOf(it.store.opts[..it.index], URI_PATH)| == |done| + 1
  {
    hide Seen;
    hide InReach;
    hide ValuesOf;
    hide OptionStore.Valid;
    var r := NextOf(it, URI_PATH, done);
    if r == NotFound {
      return false, false;
    }
    if r.size != |c| {
      return true, false;
    }
    same := it.store.buf[r.offset..r.offset + r.size] == c;
    found := true;
  }

  method SkipSlashes(path: seq<Byte>, at: nat) returns (cursor: nat)
    requires at <= |path|
    ensures at <= cursor <= |path| && (forall k :: at <= k < cursor ==> path[k] == SLASH) && (cursor < |path| ==> path[cursor] != SLASH)
  {
    cursor := at;
    while cursor < |path| && path[cursor] == SLASH
      invariant at <= cursor <= |path| && forall k :: at <= k < cursor ==> path[k] == SLASH
    {
      cursor := cursor + 1;
    }
  }

  lemma SkippedParts(path: seq<Byte>, at: nat, cursor: nat)
    requires at <= cursor <= |path| && (forall k :: at <= k < cursor ==> path[k] == SLASH) && (cursor < |path| ==> path[cursor] != SLASH)
    ensures PartsFrom(path, at) == PartsFrom(path, cursor)
  {
    SkipIs(path, at, cursor);
    SkipIs(path, cursor, cursor);
  }

  // ---------------------------------------------------------------- both

  /** For a proper resource path and proper request components, both matchers decide the same thing. */
  lemma MatchersAgree(subtree: bool, a: seq<seq<Byte>>, b: seq<seq<Byte>>)
    requires Proper(a) && Proper(b)
    ensures StringMatch(subtree, Slashed(a), Trimmed(Slashed(b))) <==> Covers(subtree, a, b)
    ensures Covers(subtree, Parts(Slashed(a)), b) <==> Covers(subtree, a, b)
  {
    StringMatchDecides(subtree, a, b);
    assert Slashed(a)[0..] == Slashed(a);
    PartsSlashed(Slashed(a), 0, a);
  }

  /** Slashed form is the shortest path with these parts and a slash in front. */
  lemma {:induction false} PartsLength(s: seq<Byte>, at: nat)
    requires at <= |s| && (at < |s| ==> s[at] == SLASH)
    ensures PartsFrom(s, at) != [] ==> |Slashed(PartsFrom(s, at))| <= |s| - at
    decreases |s| - at
  {
    hide Join;
    var n := Skip(s, at);
    if n < |s| {
      var i := EndOf(s, n);
      EndStops(s, n);
      SkipFacts(s, at);
      PartsLength(s, i);
      JoinStep(s[n..i], PartsFrom(s, i), SLASH);
    }
  }

  lemma {:induction false} EndStops(s: seq<Byte>, at: nat)
    requires at <= |s|
    ensures EndOf(s, at) < |s| ==> s[EndOf(s, at)] == SLASH
    decreases |s| - at
  {
    if at < |s| && s[at] != SLASH { EndStops(s, at + 1); }
  }

  /** With either flag the matchers agree on all proper requests exactly when the resource path is in slashed form. */
  lemma MatchersAgreeIff(subtree: bool, resource: seq<Byte>)
    requires resource != []
    ensures (forall b: seq<seq<Byte>> :: Proper(b) ==>
              (StringMatch(subtree, resource, Trimmed(Slashed(b))) <==> Covers(subtree, Parts(resource), b)))
            <==> resource == Slashed(Parts(resource))
  {
    hide PartsFrom;
    hide Join;
    hide Trimmed;
    hide Proper;
    var a := Parts(resource);
    PartsProper(resource, 0);
    if resource == Slashed(a) {
      forall b: seq<seq<Byte>> | Proper(b) ensures StringMatch(subtree, resource, Trimmed(Slashed(b))) <==> Covers(subtree, a, b) {
        StringMatchDecides(subtree, a, b);
      }
    } else {
      TrimmedProper(a);
      NotSlashed(subtree, resource);
      assert !StringMatch(subtree, resource, Trimmed(Slashed(a))) && Covers(subtree, a, a);
    }
  }

  lemma NotSlashed(subtree: bool, resource: seq<Byte>)
    requires resource != [] && resource != Slashed(Parts(resource))
    ensures !StringMatch(subtree, resource, Slashed(Parts(resource)))
  {
    hide PartsFrom;
    var l := Slashed(Parts(resource));
    if resource <= l {
      assert resource[0] == l[0];
      PartsLength(resource, 0);
      JoinNone(SLASH);
    }
  }

  /**
   * For a given request, the matchers agree on all resources without the subtree flag exactly when its components are
   * proper, or its path, trimmed, is not in slashed form, so that no proper resource can match it either way.
   */
  lemma RequestAgreesIff(b: seq<seq<Byte>>)
    ensures var t := Trimmed(Slashed(b));
            (forall a: seq<seq<Byte>> :: Proper(a) ==> (StringMatch(false, Slashed(a), t) <==> Covers(false, a, b)))
            <==> Proper(b) || t != Slashed(Parts(t))
  {
    hide PartsFrom;
    hide Join;
    hide Trimmed;
    hide Proper;
    var t := Trimmed(Slashed(b));
    forall a: seq<seq<Byte>> | Proper(a) && (Proper(b) || t != Slashed(Parts(t)))
      ensures StringMatch(false, Slashed(a), t) <==> Covers(false, a, b)
    {
      assert Slashed(a)[0..] == Slashed(a);
      PartsSlashed(Slashed(a), 0, a);
      if Proper(b) { StringMatchDecides(false, a, b); }
    }
    PartsProper(t, 0);
    if !Proper(b) && t == Slashed(Parts(t)) {
      assert StringMatch(false, Slashed(Parts(t)), t) && !Covers(false, Parts(t), b);
    }
  }

  /** How many components are proper before the first one that is not. */
  function ProperCount(b: seq<seq<Byte>>): (k: nat)
    ensures k <= |b| && (k < |b| ==> !Component(b[k], SLASH))
    ensures forall i :: 0 <= i < k ==> Component(b[i], SLASH)
  {
    if b == [] || !Component(b[0], SLASH) then 0 else 1 + ProperCount(b[1..])
  }

  /** The first improper component, if any, does not begin like a proper one. */
  predicate BreaksOff(b: seq<seq<Byte>>) {
    var k := ProperCount(b);
    k < |b| ==> b[k] == [] || b[k][0] == SLASH
  }

  /** Trimming does not reach a byte that is no slash, so what is found with a slash or the end behind it is found as well. */
  lemma {:induction false} TrimKeeps(path: seq<Byte>, n: nat)
    requires 0 < n <= |path| && (n > 1 ==> path[n - 1] != SLASH)
    ensures n <= |Trimmed(path)|
    decreases |path|
  {
    if n < |path| && path[|path| - 1] == SLASH { TrimKeeps(path[..|path| - 1], n); }
  }

  /** Trimmed or not, a subtree is found in the same paths. */
  lemma TrimmedSubtree(a: seq<seq<Byte>>, path: seq<Byte>)
    requires Proper(a) && path != []
    ensures StringMatch(true, Slashed(a), Trimmed(path)) <==> StringMatch(true, Slashed(a), path)
  {
    hide Join;
    hide Proper;
    var r, t := Slashed(a), Trimmed(path);
    if a != [] { JoinEnd(a); assert r[|r| - 1] == Join(a, SLASH)[|r| - 2]; } else { JoinNone(SLASH); }
    TrimTail(path);
    if r <= path { TrimKeeps(path, |r|); }
  }

  lemma {:induction false} TrimTail(path: seq<Byte>)
    ensures |Trimmed(path)| < |path| ==> path[|Trimmed(path)|] == SLASH
    decreases |path|
  {
    if |path| > 1 && path[|path| - 1] == SLASH { TrimTail(path[..|path| - 1]); }
  }

  /** Cutting the joined components of a request gives its proper components, then nothing or an empty piece. */
  lemma CutBreaksOff(b: seq<seq<Byte>>)
    requires BreaksOff(b)
    ensures var k, pieces := ProperCount(b), Cut(Join(b, SLASH), SLASH, 0);
            b[..k] <= pieces && (k < |pieces| ==> pieces[k] == [])
  {
    hide Cut;
    hide Join;
    hide Component;
    hide ProperCount;
    var k := ProperCount(b);
    if k == |b| {
      assert b[..k] == b;
      CutProper(b);
    } else {
      var u, rest := Join(b[k..], SLASH), b[k + 1..];
      assert b[k..] == [b[k]] + rest && b == b[..k] + b[k..];
      JoinStep(b[k], rest, SLASH);
      assert u == [] || u[0] == SLASH;
      CutAt(u, 0, SLASH, 0);
      if k == 0 {
        assert b[k..] == b;
      } else {
        JoinConcat(b[..k], b[k..]);
        ProperFront(b, k);
        CutBehind(b[..k], u);
      }
    }
  }

  lemma CutProper(b: seq<seq<Byte>>)
    requires ProperCount(b) == |b|
    ensures Cut(Join(b, SLASH), SLASH, 0) == b
  {
    hide Cut;
    hide Join;
    hide ProperCount;
    CutJoin(b, SLASH, 0);
  }

  lemma ProperFront(b: seq<seq<Byte>>, k: nat)
    requires k == ProperCount(b)
    ensures Proper(b[..k])
  {
    hide ProperCount;
  }

  /** With the subtree flag the matchers agree on all proper resources exactly when the request breaks off. */
  lemma SubtreeRequestAgreesIff(b: seq<seq<Byte>>)
    ensures (forall a: seq<seq<Byte>> :: Proper(a) ==> (StringMatch(true, Slashed(a), Trimmed(Slashed(b))) <==> Covers(true, a, b)))
            <==> BreaksOff(b)
  {
    hide Join;
    hide Trimmed;
    hide Proper;
    if BreaksOff(b) {
      forall a: seq<seq<Byte>> | Proper(a) ensures StringMatch(true, Slashed(a), Trimmed(Slashed(b))) <==> a <= b {
        TrimmedSubtree(a, Slashed(b));
        if a <= b { PrefixMatches(a, b); }
        if StringMatch(true, Slashed(a), Slashed(b)) { MatchIsPrefix(a, b); }
      }
    } else {
      var a := SlashInside(b);
      TrimmedSubtree(a, Slashed(b));
    }
  }

  lemma PrefixMatches(a: seq<seq<Byte>>, b: seq<seq<Byte>>)
    requires a <= b
    ensures StringMatch(true, Slashed(a), Slashed(b))
  {
    hide Join;
    if a == [] { JoinNone(SLASH); } else { SubtreeFound(a, b); }
  }

  lemma MatchIsPrefix(a: seq<seq<Byte>>, b: seq<seq<Byte>>)
    requires Proper(a) && BreaksOff(b) && StringMatch(true, Slashed(a), Slashed(b))
    ensures a <= b
  {
    hide Join;
    hide Cut;
    if a != [] {
      var r, l, x, y := Slashed(a), Slashed(b), Join(a, SLASH), Join(b, SLASH);
      assert r[1..] == x && l[1..] == y;
      JoinEnd(a);
      assert r[|r| - 1] == x[|x| - 1];
      CutBreaksOff(b);
      CutJoin(a, SLASH, 0);
      if |r| < |l| {
        assert y[..|x|] == x && y[|x|] == SLASH by { assert y[..|x|] == l[1..|r|] == r[1..]; }
        var u := y[|x| + 1..];
        assert y == x + [SLASH] + u;
        CutBehind(a, u);
      } else {
        assert x == y;
      }
      AllBefore(a, b[..ProperCount(b)], Cut(y, SLASH, 0));
    }
  }

  /** Two beginnings of one list of pieces; the second ends at the end or at an empty piece, the first holds none. */
  lemma AllBefore(a: seq<seq<Byte>>, front: seq<seq<Byte>>, pieces: seq<seq<Byte>>)
    requires Proper(a) && a <= pieces && front <= pieces && (|front| < |pieces| ==> pieces[|front|] == [])
    ensures a <= front
  {
    forall k | 0 <= k < |a| ensures pieces[k] == a[k] && pieces[k] != [] {
      assert Component(a[k], SLASH);
    }
  }

  /** A component cut short, and nothing behind it: the joined path is cut short as well. */
  lemma JoinCutShort(front: seq<seq<Byte>>, c: seq<Byte>, rest: seq<seq<Byte>>, j: nat) returns (t: seq<Byte>)
    requires j <= |c|
    ensures Join(front + ([c] + rest), SLASH) == Join(front + [c[..j]], SLASH) + (c[j..] + t)
  {
    hide Join;
    t := if rest == [] then [] else [SLASH] + Join(rest, SLASH);
    JoinStep(c, rest, SLASH);
    JoinStep(c[..j], [], SLASH);
    assert [c[..j]] + [] == [c[..j]];
    assert c + t == c[..j] + (c[j..] + t);
    if front == [] {
      assert front + ([c] + rest) == [c] + rest && front + [c[..j]] == [c[..j]];
    } else {
      JoinConcat(front, [c] + rest);
      JoinConcat(front, [c[..j]]);
      var u := Join(front, SLASH) + [SLASH];
      assert u + (c[..j] + (c[j..] + t)) == (u + c[..j]) + (c[j..] + t);
    }
  }

  /** A request that does not break off: its proper components and the beginning of the next one match, but are no prefix. */
  lemma SlashInside(b: seq<seq<Byte>>) returns (a: seq<seq<Byte>>)
    requires !BreaksOff(b)
    ensures Proper(a) && !(a <= b) && StringMatch(true, Slashed(a), Slashed(b))
  {
    hide Join;
    hide StringMatch;
    hide ProperCount;
    var k := ProperCount(b);
    var c, front, rest := b[k], b[..k], b[k + 1..];
    var j := FirstAt(c, SLASH);
    assert j < |c| && c[j] == SLASH;
    a := front + [c[..j]];
    assert Component(c[..j], SLASH);
    assert a[k] == c[..j] != c;
    assert b == front + ([c] + rest);
    var t := JoinCutShort(front, c, rest, j);
    PrefixSlash(Join(a, SLASH), c[j..] + t);
    assert Join(a, SLASH) + (c[j..] + t) == Join(b, SLASH);
  }

  /** What goes on with a slash matches as a subtree. */
  lemma PrefixSlash(r: seq<Byte>, t: seq<Byte>)
    requires t != [] && t[0] == SLASH
    ensures StringMatch(true, [SLASH] + r, [SLASH] + (r + t))
  {
    var resource, request := [SLASH] + r, [SLASH] + (r + t);
    assert request[|resource|] == t[0];
  }

  /** A component that contains a slash: the request [a/b] matches the resource /a/b as a string, but not by components. */
  lemma SlashInComponentExample()
    ensures var a, b := [[0x61], [0x62]], [[0x61, SLASH, 0x62]];
            Slashed(a) == Trimmed(Slashed(b)) && StringMatch(false, Slashed(a), Trimmed(Slashed(b))) && !Covers(false, a, b)
  {
    var a, b: seq<seq<Byte>> := [[0x61], [0x62]], [[0x61, SLASH, 0x62]];
    assert a[1..] == [[0x62]];
    assert Slashed(b) == [SLASH, 0x61, SLASH, 0x62];
    assert a[0] != b[0];
  }
}
