/** The aggregation stages every list endpoint is assembled from, as functions
    on sequences of documents: `$match` (Filter), `$lookup` + `$unwind`
    (Join, an inner join), `$project` (the `shape` of a join, or Map),
    `$sort` (SortDesc, SortAsc) and `$skip` + `$limit` (Window). */
module Pipeline {
  import opened Common

  /** `$match`: the documents satisfying `p`, in their original order. */
  function Filter<T(!new)>(s: seq<T>, p: T -> bool): (r: seq<T>)
    ensures |r| <= |s|
    ensures forall x :: x in r <==> x in s && p(x)
  {
    if s == [] then []
    else if p(s[0]) then [s[0]] + Filter(s[1..], p)
    else Filter(s[1..], p)
  }

  /** A document inserted at the end of the collection matches at the end. */
  lemma {:induction false} FilterAppend<T(!new)>(s: seq<T>, x: T, p: T -> bool)
    ensures Filter(s + [x], p) == Filter(s, p) + (if p(x) then [x] else [])
  {
    if s == [] {
      assert s + [x] == [x];
      assert [x][1..] == [];
    } else {
      assert (s + [x])[0] == s[0];
      assert (s + [x])[1..] == s[1..] + [x];
      FilterAppend(s[1..], x, p);
    }
  }

  /** Nothing matches when no document satisfies the filter. */
  lemma {:induction false} FilterNone<T(!new)>(s: seq<T>, p: T -> bool)
    requires forall x :: x in s ==> !p(x)
    ensures Filter(s, p) == []
  {
    if s != [] {
      assert forall x :: x in s[1..] ==> x in s;
      FilterNone(s[1..], p);
    }
  }

  /** `$project` on its own: the same shaping function applied to every row. */
  function Map<A, R>(s: seq<A>, f: A -> R): (r: seq<R>)
    ensures |r| == |s|
    ensures forall i :: 0 <= i < |s| ==> r[i] == f(s[i])
  {
    seq(|s|, i requires 0 <= i < |s| => f(s[i]))
  }

  /** `$lookup` followed by `$unwind`: each row whose `partner` exists is
      shaped together with it; a row without a partner is dropped. */
  function Join<A(!new), B, R(!new)>(s: seq<A>, partner: A -> Option<B>, shape: (A, B) -> R): (r: seq<R>)
    ensures |r| <= |s|
    ensures forall y :: y in r ==> exists x :: x in s && partner(x).Some? && y == shape(x, partner(x).value)
    ensures forall x :: x in s && partner(x).Some? ==> shape(x, partner(x).value) in r
  {
    if s == [] then []
    else
      var rest := Join(s[1..], partner, shape);
      assert forall x :: x in s[1..] ==> x in s;
      match partner(s[0])
      case Some(b) => [shape(s[0], b)] + rest
      case None => rest
  }

  /** When every partner exists, the join drops nothing. */
  lemma {:induction false} JoinKeepsAll<A(!new), B, R(!new)>(s: seq<A>, partner: A -> Option<B>, shape: (A, B) -> R)
    requires forall x :: x in s ==> partner(x).Some?
    ensures |Join(s, partner, shape)| == |s|
  {
    if s != [] {
      assert forall x :: x in s[1..] ==> x in s;
      JoinKeepsAll(s[1..], partner, shape);
    }
  }

  ghost predicate SortedDesc<T>(s: seq<T>, key: T -> int) {
    forall i, j :: 0 <= i < j < |s| ==> key(s[i]) >= key(s[j])
  }

  ghost predicate SortedAsc<T>(s: seq<T>, key: T -> int) {
    forall i, j :: 0 <= i < j < |s| ==> key(s[i]) <= key(s[j])
  }

  /** The tail of a sequence in descending order is in descending order, and
      its head is the largest. */
  lemma SortedDescTail<T>(s: seq<T>, key: T -> int)
    requires s != [] && SortedDesc(s, key)
    ensures SortedDesc(s[1..], key)
    ensures forall y :: y in s[1..] ==> key(y) <= key(s[0])
  {
    var tail := s[1..];
    forall i, j | 0 <= i < j < |tail| ensures key(tail[i]) >= key(tail[j]) {
      assert tail[i] == s[i + 1] && tail[j] == s[j + 1];
    }
    forall y | y in tail ensures key(y) <= key(s[0]) {
      var k :| 0 <= k < |tail| && tail[k] == y;
      assert y == s[k + 1];
    }
  }

  /** A head at least as large as everything after it keeps the order. */
  lemma SortedDescCons<T>(x: T, s: seq<T>, key: T -> int)
    requires SortedDesc(s, key)
    requires forall y :: y in s ==> key(y) <= key(x)
    ensures SortedDesc([x] + s, key)
  {
    var r := [x] + s;
    forall i, j | 0 <= i < j < |r| ensures key(r[i]) >= key(r[j]) {
      assert r[j] == s[j - 1];
      if i > 0 {
        assert r[i] == s[i - 1];
      } else {
        assert r[j] in s;
      }
    }
  }

  /** Places `x` into a sequence already in descending key order, before the
      first element whose key it reaches. */
  function InsertDesc<T(!new)>(x: T, s: seq<T>, key: T -> int): (r: seq<T>)
    requires SortedDesc(s, key)
    ensures SortedDesc(r, key)
    ensures multiset(r) == multiset(s) + multiset{x}
  {
    if s == [] then [x]
    else if key(x) >= key(s[0]) then
      SortedDescTail(s, key);
      assert s == [s[0]] + s[1..];
      SortedDescCons(x, s, key);
      [x] + s
    else
      var tail := s[1..];
      assert s == [s[0]] + tail;
      SortedDescTail(s, key);
      var rest := InsertDesc(x, tail, key);
      assert forall y :: y in rest ==> y == x || y in tail by {
        forall y | y in rest ensures y == x || y in tail {
          assert y in multiset(rest);
        }
      }
      SortedDescCons(s[0], rest, key);
      [s[0]] + rest
  }

  /** `$sort: { key: -1 }`: a permutation of the input in descending key order. */
  function SortDesc<T(!new)>(s: seq<T>, key: T -> int): (r: seq<T>)
    ensures SortedDesc(r, key)
    ensures multiset(r) == multiset(s)
    ensures |r| == |s|
    ensures forall y :: y in r <==> y in s
  {
    if s == [] then []
    else
      assert s == [s[0]] + s[1..];
      var r := InsertDesc(s[0], SortDesc(s[1..], key), key);
      assert forall y :: y in r <==> y in multiset(r);
      assert forall y :: y in s <==> y in multiset(s);
      r
  }

  function Negated<T>(key: T -> int): T -> int {
    x => -key(x)
  }

  /** `$sort: { key: 1 }`: a permutation of the input in ascending key order. */
  function SortAsc<T(!new)>(s: seq<T>, key: T -> int): (r: seq<T>)
    ensures SortedAsc(r, key)
    ensures multiset(r) == multiset(s)
    ensures |r| == |s|
    ensures forall y :: y in r <==> y in s
  {
    var r := SortDesc(s, Negated(key));
    assert forall i :: 0 <= i < |r| ==> Negated(key)(r[i]) == -key(r[i]);
    r
  }

  /** No two different rows share a key. */
  ghost predicate DistinctKeys<T>(s: seq<T>, key: T -> int) {
    forall i, j :: 0 <= i < |s| && 0 <= j < |s| && key(s[i]) == key(s[j]) ==> s[i] == s[j]
  }

  /** With distinct keys there is only one way to sort: any two orderings of
      the same rows in descending key order are equal. So every result the
      database's `$sort` may produce is the one `SortDesc` computes. */
  lemma {:induction false} SortedDescUnique<T>(a: seq<T>, b: seq<T>, key: T -> int)
    requires SortedDesc(a, key) && SortedDesc(b, key) && multiset(a) == multiset(b)
    requires DistinctKeys(a, key)
    ensures a == b
    decreases |a|
  {
    assert |b| == |multiset(b)| == |multiset(a)| == |a|;
    if a != [] {
      SortedHeadsAgree(a, b, key);
      TailsSameRows(a, b);
      SortedDescTail(a, key);
      SortedDescTail(b, key);
      DistinctKeysTail(a, key);
      SortedDescUnique(a[1..], b[1..], key);
      assert a == [a[0]] + a[1..] && b == [b[0]] + b[1..];
    }
  }

  /** Both orderings start with the same row: the one with the largest key. */
  lemma SortedHeadsAgree<T>(a: seq<T>, b: seq<T>, key: T -> int)
    requires a != [] && b != [] && SortedDesc(a, key) && SortedDesc(b, key) && multiset(a) == multiset(b)
    requires DistinctKeys(a, key)
    ensures a[0] == b[0]
  {
    assert b[0] in multiset(a) && a[0] in multiset(b);
    var k :| 0 <= k < |a| && a[k] == b[0];
    var m :| 0 <= m < |b| && b[m] == a[0];
    assert key(a[0]) >= key(a[k]) && key(b[0]) >= key(b[m]);
  }

  lemma TailsSameRows<T>(a: seq<T>, b: seq<T>)
    requires a != [] && b != [] && a[0] == b[0] && multiset(a) == multiset(b)
    ensures multiset(a[1..]) == multiset(b[1..])
  {
    assert a == [a[0]] + a[1..] && b == [b[0]] + b[1..];
    assert multiset(a) == multiset{a[0]} + multiset(a[1..]);
    assert multiset(b) == multiset{b[0]} + multiset(b[1..]);
    assert multiset(a[1..]) == multiset(a) - multiset{a[0]};
    assert multiset(b[1..]) == multiset(b) - multiset{b[0]};
  }

  lemma DistinctKeysTail<T>(a: seq<T>, key: T -> int)
    requires a != [] && DistinctKeys(a, key)
    ensures DistinctKeys(a[1..], key)
  {
    forall i, j | 0 <= i < |a[1..]| && 0 <= j < |a[1..]| && key(a[1..][i]) == key(a[1..][j])
      ensures a[1..][i] == a[1..][j]
    {
      assert a[1..][i] == a[i + 1] && a[1..][j] == a[j + 1];
    }
  }

  /** The same for ascending order. */
  lemma SortedAscUnique<T>(a: seq<T>, b: seq<T>, key: T -> int)
    requires SortedAsc(a, key) && SortedAsc(b, key) && multiset(a) == multiset(b)
    requires DistinctKeys(a, key)
    ensures a == b
  {
    var neg := Negated(key);
    assert forall x :: neg(x) == -key(x);
    assert SortedDesc(a, neg) && SortedDesc(b, neg);
    SortedDescUnique(a, b, neg);
  }

  /** `$skip: skip` then `$limit: limit`: the rows from position `skip` on,
      at most `limit` of them. */
  function Window<T(!new)>(s: seq<T>, skip: nat, limit: nat): (r: seq<T>)
    ensures |r| == if skip >= |s| then 0 else Min(limit, |s| - skip)
    ensures forall i :: 0 <= i < |r| ==> r[i] == s[skip + i]
    ensures forall y :: y in r ==> y in s
  {
    if skip >= |s| then [] else s[skip..skip + Min(limit, |s| - skip)]
  }

  lemma WindowSortedDesc<T(!new)>(s: seq<T>, skip: nat, limit: nat, key: T -> int)
    requires SortedDesc(s, key)
    ensures SortedDesc(Window(s, skip, limit), key)
  {
    var r := Window(s, skip, limit);
    forall i, j | 0 <= i < j < |r| ensures key(r[i]) >= key(r[j]) {
      assert r[i] == s[skip + i] && r[j] == s[skip + j];
    }
  }

  lemma WindowSortedAsc<T(!new)>(s: seq<T>, skip: nat, limit: nat, key: T -> int)
    requires SortedAsc(s, key)
    ensures SortedAsc(Window(s, skip, limit), key)
  {
    var r := Window(s, skip, limit);
    forall i, j | 0 <= i < j < |r| ensures key(r[i]) <= key(r[j]) {
      assert r[i] == s[skip + i] && r[j] == s[skip + j];
    }
  }

  /** A join keeps the order of its input: if the input is in descending
      order of `keyA` and shaping carries that key over as `keyR`, the
      joined rows are in descending order of `keyR`. */
  lemma {:induction false} JoinSortedDesc<A(!new), B(!new), R(!new)>(s: seq<A>, partner: A -> Option<B>, shape: (A, B) -> R,
                                                  keyA: A -> int, keyR: R -> int)
    requires SortedDesc(s, keyA)
    requires forall a, b :: keyR(shape(a, b)) == keyA(a)
    ensures SortedDesc(Join(s, partner, shape), keyR)
  {
    if s != [] {
      var tail := s[1..];
      SortedDescTail(s, keyA);
      JoinSortedDesc(tail, partner, shape, keyA, keyR);
      var rest := Join(tail, partner, shape);
      forall y | y in rest ensures keyR(y) <= keyA(s[0]) {
        var x :| x in tail && partner(x).Some? && y == shape(x, partner(x).value);
        assert keyR(shape(x, partner(x).value)) == keyA(x);
      }
      match partner(s[0])
      case Some(b) =>
        assert keyR(shape(s[0], b)) == keyA(s[0]);
        SortedDescCons(shape(s[0], b), rest, keyR);
      case None =>
    }
  }

  // ------------------------------------------------------- `$sort` field paths

  /** A dotted field path split at its dots: `"owner.userName"` is
      `["owner", "userName"]`, `"a..b"` is `["a", "", "b"]` and `""` is
      `[""]`. */
  function Components(path: string): (parts: seq<string>)
    ensures |parts| >= 1
    ensures forall k :: 0 <= k < |parts| ==> '.' !in parts[k]
    decreases |path|
  {
    if path == [] then [""]
    else
      var rest := Components(path[1..]);
      if path[0] == '.' then [""] + rest
      else [[path[0]] + rest[0]] + rest[1..]
  }

  /** The components joined back with dots. */
  function JoinDots(parts: seq<string>): string
    requires |parts| >= 1
  {
    if |parts| == 1 then parts[0] else parts[0] + "." + JoinDots(parts[1..])
  }

  /** Splitting loses nothing: joining the components gives the path back. */
  lemma {:induction false} JoinComponents(path: string)
    ensures JoinDots(Components(path)) == path
    decreases |path|
  {
    if path != [] {
      var rest := Components(path[1..]);
      JoinComponents(path[1..]);
      if path[0] == '.' {
        assert ([""] + rest)[1..] == rest;
        assert path == "." + path[1..];
      } else if |rest| == 1 {
        assert path == [path[0]] + path[1..];
      } else {
        var parts := [[path[0]] + rest[0]] + rest[1..];
        assert parts[1..] == rest[1..];
        assert path == [path[0]] + path[1..];
      }
    }
  }

  /** A key `$sort` accepts (MongoDB's FieldPath rules): not empty, not
      starting with `$`, and no empty component. */
  predicate ValidFieldPath(path: string) {
    path != "" && path[0] != '$' && NoEmptyComponent(Components(path))
  }

  predicate NoEmptyComponent(parts: seq<string>) {
    forall k :: 0 <= k < |parts| ==> parts[k] != ""
  }

  /** No empty component, read off the characters: the path neither starts
      nor ends with a dot and has no two dots in a row. */
  predicate DotsWellPlaced(path: string) {
    path != [] && path[0] != '.' && path[|path| - 1] != '.' &&
    forall i :: 0 <= i < |path| - 1 ==> !(path[i] == '.' && path[i + 1] == '.')
  }

  /** Past a first character that is not a dot and is followed by one that
      is not a dot either, the dots are well placed exactly when they are
      in the rest. */
  lemma DotsWellPlacedTail(path: string)
    requires |path| >= 2 && path[0] != '.' && path[1] != '.'
    ensures DotsWellPlaced(path) <==> DotsWellPlaced(path[1..])
  {
    var t := path[1..];
    assert forall i :: 0 <= i < |t| ==> t[i] == path[i + 1];
    if DotsWellPlaced(path) {
      assert t[|t| - 1] == path[|path| - 1];
      forall i | 0 <= i < |t| - 1 ensures !(t[i] == '.' && t[i + 1] == '.') {
        assert t[i] == path[i + 1] && t[i + 1] == path[i + 2];
      }
    }
    if DotsWellPlaced(t) {
      assert path[|path| - 1] == t[|t| - 1];
      forall i | 0 <= i < |path| - 1 ensures !(path[i] == '.' && path[i + 1] == '.') {
        if i > 0 { assert path[i] == t[i - 1] && path[i + 1] == t[i]; }
      }
    }
  }

  /** Past a first character that is not a dot and a dot after it, the dots
      are well placed exactly when they are in what follows the dot. */
  lemma DotsWellPlacedAfterDot(path: string)
    requires |path| >= 2 && path[0] != '.' && path[1] == '.'
    ensures DotsWellPlaced(path) <==> DotsWellPlaced(path[2..])
  {
    var u := path[2..];
    assert forall i :: 0 <= i < |u| ==> u[i] == path[i + 2];
    if u != [] { assert path[|path| - 1] == u[|u| - 1]; }
    if DotsWellPlaced(path) {
      assert u != [] && u[0] != '.';
      forall i | 0 <= i < |u| - 1 ensures !(u[i] == '.' && u[i + 1] == '.') {
        assert u[i] == path[i + 2] && u[i + 1] == path[i + 3];
      }
    }
    if DotsWellPlaced(u) {
      forall i | 0 <= i < |path| - 1 ensures !(path[i] == '.' && path[i + 1] == '.') {
        if i > 1 { assert path[i] == u[i - 2] && path[i + 1] == u[i - 1]; }
      }
    }
  }

  /** Components are all non-empty exactly when the dots are well placed. */
  lemma {:induction false} NoEmptyComponentMeans(path: string)
    ensures NoEmptyComponent(Components(path)) <==> DotsWellPlaced(path)
    decreases |path|
  {
    if path != [] && path[0] != '.' {
      var t := path[1..];
      var rest := Components(t);
      var parts := Components(path);
      assert parts == [[path[0]] + rest[0]] + rest[1..];
      assert parts[0] != "";
      assert forall k :: 1 <= k < |parts| ==> parts[k] == rest[k];
      if t == [] {
        assert rest == [""];
        assert [path[0]] + rest[0] == [path[0]] && rest[1..] == [];
        assert parts == [[path[0]]];
        assert DotsWellPlaced(path);
      } else if t[0] != '.' {
        NoEmptyComponentMeans(t);
        assert rest[0] != "" by {
          assert rest == [[t[0]] + Components(t[1..])[0]] + Components(t[1..])[1..];
        }
        assert NoEmptyComponent(parts) <==> NoEmptyComponent(rest);
        DotsWellPlacedTail(path);
      } else {
        var u := t[1..];
        var cu := Components(u);
        assert rest == [""] + cu;
        assert |parts| == |cu| + 1;
        assert forall k :: 1 <= k < |parts| ==> parts[k] == cu[k - 1];
        NoEmptyComponentMeans(u);
        assert NoEmptyComponent(parts) <==> NoEmptyComponent(cu) by {
          if NoEmptyComponent(parts) {
            forall k | 0 <= k < |cu| ensures cu[k] != "" { assert cu[k] == parts[k + 1]; }
          }
        }
        assert u == path[2..];
        DotsWellPlacedAfterDot(path);
      }
    } else if path != [] {
      assert Components(path)[0] == "";
    } else {
      assert Components(path) == [""];
      assert Components(path)[0] == "";
    }
  }

  /** The rule on characters: a path `$sort` accepts is non-empty, starts
      with neither `$` nor a dot, does not end with a dot and has no two
      dots in a row. */
  lemma ValidFieldPathMeans(path: string)
    ensures ValidFieldPath(path) <==> DotsWellPlaced(path) && path[0] != '$'
  {
    NoEmptyComponentMeans(path);
    if path == "" {
      assert Components(path)[0] == "";
    }
  }

  /** A key with no dot that does not start with `$` is accepted. */
  lemma PlainFieldAccepted(path: string)
    requires path != "" && path[0] != '$'
    requires forall i :: 0 <= i < |path| ==> path[i] != '.'
    ensures ValidFieldPath(path)
  {
    ValidFieldPathMeans(path);
  }

  /** Two such keys joined by a dot, a nested key like `owner.userName`,
      are accepted. */
  lemma NestedFieldAccepted(outer: string, inner: string)
    requires outer != "" && outer[0] != '$' && inner != ""
    requires forall i :: 0 <= i < |outer| ==> outer[i] != '.'
    requires forall i :: 0 <= i < |inner| ==> inner[i] != '.'
    ensures ValidFieldPath(outer + "." + inner)
  {
    var path := outer + "." + inner;
    ValidFieldPathMeans(path);
    forall i | 0 <= i < |path| - 1 ensures !(path[i] == '.' && path[i + 1] == '.') {
      if i < |outer| {
        assert path[i] == outer[i];
      } else {
        assert path[i + 1] == inner[i - |outer|];
      }
    }
    assert path[|path| - 1] == inner[|inner| - 1];
  }

  /** The default key is accepted. */
  lemma DefaultSortFieldAccepted()
    ensures ValidFieldPath("createdAt")
  {
    PlainFieldAccepted("createdAt");
  }

  /** An empty key, a `$`-prefixed key and a key with an empty component
      are refused. */
  lemma FieldPathsRefused()
    ensures !ValidFieldPath("") && !ValidFieldPath("$views") && !ValidFieldPath("a..b")
  {
    ValidFieldPathMeans("a..b");
    assert "a..b"[1] == '.' && "a..b"[2] == '.';
  }
}
