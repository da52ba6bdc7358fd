/** Stable sorting of lines by a string key under String.compareTo: the
    behaviour List.sort promises for a comparator that compares keys. The
    algorithm here is insertion sort; `SortedStableUnique` shows that any
    sorted, stable arrangement is this one, so the choice does not matter. */
module StableSort {
  import opened Text

  /** Non-decreasing by key. */
  ghost predicate SortedBy(xs: seq<string>, key: string -> string) {
    forall i, j :: 0 <= i < j < |xs| ==> Compare(key(xs[i]), key(xs[j])) <= 0
  }

  /** The elements of `xs` whose key is `k`, in their order in `xs`. */
  function WithKey(xs: seq<string>, key: string -> string, k: string): seq<string> {
    if |xs| == 0 then []
    else (if key(xs[0]) == k then [xs[0]] else []) + WithKey(xs[1..], key, k)
  }

  /** `ys` keeps, for every key, the relative order that key's elements have in `xs`. */
  ghost predicate StableFor(ys: seq<string>, xs: seq<string>, key: string -> string) {
    forall k :: WithKey(ys, key, k) == WithKey(xs, key, k)
  }

  lemma WithKeyCons(x: string, xs: seq<string>, key: string -> string, k: string)
    ensures WithKey([x] + xs, key, k) == (if key(x) == k then [x] else []) + WithKey(xs, key, k)
  {
    assert ([x] + xs)[1..] == xs;
  }

  /** A key with elements in `xs` is the key of one of them. */
  lemma {:induction false} WithKeyNonEmpty(xs: seq<string>, key: string -> string, k: string)
    requires WithKey(xs, key, k) != []
    ensures exists j :: 0 <= j < |xs| && key(xs[j]) == k
  {
    if key(xs[0]) != k {
      WithKeyNonEmpty(xs[1..], key, k);
      var j :| 0 <= j < |xs[1..]| && key(xs[1..][j]) == k;
      assert key(xs[j + 1]) == k;
    }
  }

  lemma SortedTail(xs: seq<string>, key: string -> string)
    requires |xs| > 0 && SortedBy(xs, key)
    ensures SortedBy(xs[1..], key)
  {
    forall i, j | 0 <= i < j < |xs[1..]|
      ensures Compare(key(xs[1..][i]), key(xs[1..][j])) <= 0
    {
      assert xs[1..][i] == xs[i + 1] && xs[1..][j] == xs[j + 1];
    }
  }

  /** Insert `x` in front of the first element whose key is not below its own. */
  function Insert(x: string, s: seq<string>, key: string -> string): (r: seq<string>)
    ensures multiset(r) == multiset(s) + multiset{x}
    ensures |r| == |s| + 1
  {
    if |s| == 0 then [x]
    else if Compare(key(x), key(s[0])) <= 0 then [x] + s
    else
      assert s == [s[0]] + s[1..];
      [s[0]] + Insert(x, s[1..], key)
  }

  /** The elements of `Insert(x, s)` are `x` and those of `s`. */
  lemma InsertMembers(x: string, s: seq<string>, key: string -> string)
    ensures forall y :: y in Insert(x, s, key) <==> y == x || y in s
  {
    var r := Insert(x, s, key);
    forall y
      ensures y in r <==> y == x || y in s
    {
      assert y in r <==> y in multiset(r);
      assert y in s <==> y in multiset(s);
    }
  }

  /** `x` in front of a sorted `s` whose first key is not below its own. */
  lemma ConsSorted(x: string, s: seq<string>, key: string -> string)
    requires SortedBy(s, key) && |s| > 0 && Compare(key(x), key(s[0])) <= 0
    ensures SortedBy([x] + s, key)
  {
    var r := [x] + s;
    forall i, j | 0 <= i < j < |r|
      ensures Compare(key(r[i]), key(r[j])) <= 0
    {
      if i == 0 {
        CompareTransitive(key(x), key(s[0]), key(s[j - 1]));
      } else {
        assert r[i] == s[i - 1] && r[j] == s[j - 1];
      }
    }
  }

  /** `y` in front of a sorted `rest` whose elements are `x` or elements of `t`,
      all of whose keys are at least that of `y`. */
  lemma ConsSortedAbove(y: string, x: string, t: seq<string>, rest: seq<string>, key: string -> string)
    requires SortedBy(rest, key) && Compare(key(y), key(x)) <= 0
    requires forall m :: 0 <= m < |t| ==> Compare(key(y), key(t[m])) <= 0
    requires forall z :: z in rest ==> z == x || z in t
    ensures SortedBy([y] + rest, key)
  {
    var r := [y] + rest;
    forall i, j | 0 <= i < j < |r|
      ensures Compare(key(r[i]), key(r[j])) <= 0
    {
      if i == 0 {
        var z := rest[j - 1];
        assert z in rest;
        if z != x {
          var m :| 0 <= m < |t| && t[m] == z;
        }
      } else {
        assert r[i] == rest[i - 1] && r[j] == rest[j - 1];
      }
    }
  }

  lemma {:induction false} InsertSorted(x: string, s: seq<string>, key: string -> string)
    requires SortedBy(s, key)
    ensures SortedBy(Insert(x, s, key), key)
  {
    if |s| == 0 {
    } else if Compare(key(x), key(s[0])) <= 0 {
      ConsSorted(x, s, key);
    } else {
      var s0, t := s[0], s[1..];
      SortedTail(s, key);
      InsertSorted(x, t, key);
      InsertMembers(x, t, key);
      CompareAntisymmetric(key(x), key(s0));
      forall m | 0 <= m < |t|
        ensures Compare(key(s0), key(t[m])) <= 0
      {
        assert t[m] == s[m + 1];
      }
      ConsSortedAbove(s0, x, t, Insert(x, t, key), key);
    }
  }

  /** Two pieces, at most one of them non-empty, commute in front of a third. */
  lemma SwapFront(p: seq<string>, q: seq<string>, w: seq<string>)
    requires p == [] || q == []
    ensures p + (q + w) == q + (p + w)
  {
    if p == [] {
      assert p + (q + w) == q + w;
      assert p + w == w;
    } else {
      assert q + (p + w) == p + w;
      assert q + w == w;
    }
  }

  /** Inserting past the first element: the first element keeps its place
      in its key's order, and `x` keeps its place in its own. */
  lemma InsertWithKeyPast(x: string, s: seq<string>, key: string -> string, k: string)
    requires |s| > 0 && Compare(key(x), key(s[0])) > 0
    requires WithKey(Insert(x, s[1..], key), key, k) == (if key(x) == k then [x] else []) + WithKey(s[1..], key, k)
    ensures WithKey(Insert(x, s, key), key, k) == (if key(x) == k then [x] else []) + WithKey(s, key, k)
  {
    var s0, rest := s[0], Insert(x, s[1..], key);
    var px: seq<string> := if key(x) == k then [x] else [];
    var p0: seq<string> := if key(s0) == k then [s0] else [];
    var w := WithKey(s[1..], key, k);
    WithKeyCons(s0, rest, key, k);
    assert WithKey(Insert(x, s, key), key, k) == p0 + (px + w);
    assert WithKey(s, key, k) == p0 + w;
    SwapFront(p0, px, w);
  }

  /** Inserting `x` places it before every element of its own key. */
  lemma {:induction false} InsertWithKey(x: string, s: seq<string>, key: string -> string, k: string)
    ensures WithKey(Insert(x, s, key), key, k) == (if key(x) == k then [x] else []) + WithKey(s, key, k)
  {
    if |s| == 0 || Compare(key(x), key(s[0])) <= 0 {
      WithKeyCons(x, s, key, k);
    } else {
      InsertWithKey(x, s[1..], key, k);
      InsertWithKeyPast(x, s, key, k);
    }
  }

  /** Sort by key, keeping equal keys in input order. */
  function Sort(xs: seq<string>, key: string -> string): (r: seq<string>)
    ensures multiset(r) == multiset(xs)
    ensures |r| == |xs|
  {
    if |xs| == 0 then []
    else
      assert xs == [xs[0]] + xs[1..];
      Insert(xs[0], Sort(xs[1..], key), key)
  }

  /** The result of `Sort` is ordered by key. */
  lemma {:induction false} SortSorted(xs: seq<string>, key: string -> string)
    ensures SortedBy(Sort(xs, key), key)
  {
    if |xs| > 0 {
      SortSorted(xs[1..], key);
      InsertSorted(xs[0], Sort(xs[1..], key), key);
    }
  }

  /** The result of `Sort` is stable. */
  lemma {:induction false} SortStable(xs: seq<string>, key: string -> string)
    ensures StableFor(Sort(xs, key), xs, key)
  {
    if |xs| > 0 {
      SortStable(xs[1..], key);
      forall k
        ensures WithKey(Sort(xs, key), key, k) == WithKey(xs, key, k)
      {
        InsertWithKey(xs[0], Sort(xs[1..], key), key, k);
      }
    }
  }

  /** The first key of a non-empty sorted sequence is its least key. */
  lemma FirstKeyLeast(xs: seq<string>, key: string -> string, k: string)
    requires SortedBy(xs, key) && WithKey(xs, key, k) != []
    ensures |xs| > 0 && Compare(key(xs[0]), k) <= 0
  {
    WithKeyNonEmpty(xs, key, k);
    var j :| 0 <= j < |xs| && key(xs[j]) == k;
    if j > 0 {
      assert Compare(key(xs[0]), key(xs[j])) <= 0;
    }
  }

  /** Sorted sequences with the same per-key order start with the same element. */
  lemma SameHead(a: seq<string>, b: seq<string>, key: string -> string)
    requires SortedBy(a, key) && SortedBy(b, key) && |a| > 0
    requires forall k :: WithKey(a, key, k) == WithKey(b, key, k)
    ensures |b| > 0 && a[0] == b[0]
  {
    var ka := key(a[0]);
    var wa := WithKey(a, key, ka);
    assert wa == [a[0]] + WithKey(a[1..], key, ka);
    assert WithKey(b, key, ka) == wa;
    FirstKeyLeast(b, key, ka);
    var kb := key(b[0]);
    var wb := WithKey(b, key, kb);
    assert wb == [b[0]] + WithKey(b[1..], key, kb);
    assert WithKey(a, key, kb) == wb;
    FirstKeyLeast(a, key, kb);
    CompareAntisymmetric(ka, kb);
    assert wa[0] == a[0] && wb[0] == b[0];
  }

  lemma AppendCancel(p: seq<string>, x: seq<string>, y: seq<string>)
    requires p + x == p + y
    ensures x == y
  {
    assert x == (p + x)[|p|..];
    assert y == (p + y)[|p|..];
  }

  /** Dropping a common first element keeps the per-key orders equal. */
  lemma SameTails(a: seq<string>, b: seq<string>, key: string -> string)
    requires |a| > 0 && |b| > 0 && a[0] == b[0]
    requires forall k :: WithKey(a, key, k) == WithKey(b, key, k)
    ensures forall k :: WithKey(a[1..], key, k) == WithKey(b[1..], key, k)
  {
    forall k
      ensures WithKey(a[1..], key, k) == WithKey(b[1..], key, k)
    {
      var p: seq<string> := if key(a[0]) == k then [a[0]] else [];
      assert WithKey(a, key, k) == p + WithKey(a[1..], key, k);
      assert WithKey(b, key, k) == p + WithKey(b[1..], key, k);
      AppendCancel(p, WithKey(a[1..], key, k), WithKey(b[1..], key, k));
    }
  }

  /** A sorted arrangement is determined by the order it keeps within each
      key: two sorted sequences with the same per-key order are equal. */
  lemma {:induction false} SortedStableUnique(a: seq<string>, b: seq<string>, key: string -> string)
    requires SortedBy(a, key) && SortedBy(b, key)
    requires forall k :: WithKey(a, key, k) == WithKey(b, key, k)
    ensures a == b
    decreases |a|
  {
    if |a| > 0 {
      SameHead(a, b, key);
      SameTails(a, b, key);
      SortedTail(a, key);
      SortedTail(b, key);
      SortedStableUnique(a[1..], b[1..], key);
      assert a == [a[0]] + a[1..];
      assert b == [b[0]] + b[1..];
    } else if |b| > 0 {
      SameHead(b, a, key);
    }
  }

  /** `Sort` is the one sorted, stable arrangement of its input. */
  lemma SortIsTheStableSort(xs: seq<string>, ys: seq<string>, key: string -> string)
    requires SortedBy(ys, key) && StableFor(ys, xs, key)
    ensures Sort(xs, key) == ys
  {
    SortSorted(xs, key);
    SortStable(xs, key);
    SortedStableUnique(Sort(xs, key), ys, key);
  }
}
