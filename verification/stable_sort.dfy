/**
  Sorting with a comparator of the form `(a, b) => key(b) - key(a)`, as
  `Array.prototype.sort` does it. ECMAScript requires that sort to be stable
  (section 23.1.3.30 of ECMA-262, 2023 edition), so the result is the
  sequence ordered by key, non-increasing, in which elements with equal keys
  keep their relative order from the input.
 */
module StableSort {

  /** Non-increasing by `key`. */
  predicate SortedDesc<T>(xs: seq<T>, key: T -> int) {
    forall i, j | 0 <= i < j < |xs| :: key(xs[i]) >= key(xs[j])
  }

  /** The elements of `xs` whose key is `k`, in their order in `xs`. */
  function WithKey<T>(xs: seq<T>, key: T -> int, k: int): seq<T> {
    if |xs| == 0 then []
    else (if key(xs[0]) == k then [xs[0]] else []) + WithKey(xs[1..], key, k)
  }

  /**
    `r` is the stable descending sort of `xs`: a rearrangement of `xs` that is
    non-increasing by key and keeps the input order among equal keys.
   */
  ghost predicate IsStableSortDesc<T>(xs: seq<T>, r: seq<T>, key: T -> int) {
    && multiset(r) == multiset(xs)
    && SortedDesc(r, key)
    && forall k :: WithKey(r, key, k) == WithKey(xs, key, k)
  }

  /**
    Places `x` in front of the first element whose key is not greater than
    its own: this is where a stable sort puts the earliest of equal keys.
   */
  function Insert<T>(x: T, ys: seq<T>, key: T -> int): (r: seq<T>)
    ensures |r| == |ys| + 1
    ensures multiset(r) == multiset(ys) + multiset{x}
    ensures r[0] == x || (|ys| > 0 && r[0] == ys[0])
  {
    if |ys| == 0 || key(x) >= key(ys[0]) then [x] + ys
    else
      assert ys == [ys[0]] + ys[1..];
      [ys[0]] + Insert(x, ys[1..], key)
  }

  /** Inserting into a non-increasing sequence keeps it non-increasing. */
  lemma {:induction false} InsertSorted<T>(x: T, ys: seq<T>, key: T -> int)
    requires SortedDesc(ys, key)
    ensures SortedDesc(Insert(x, ys, key), key)
  {
    if |ys| > 0 && key(x) < key(ys[0]) {
      var rest := Insert(x, ys[1..], key);
      InsertSorted(x, ys[1..], key);
      var r := [ys[0]] + rest;
      assert key(r[0]) >= key(rest[0]);
      forall i, j | 0 <= i < j < |r| ensures key(r[i]) >= key(r[j]) {
        if i > 0 {
          assert r[i] == rest[i - 1] && r[j] == rest[j - 1];
        } else if j > 1 {
          assert r[j] == rest[j - 1];
          assert key(rest[0]) >= key(rest[j - 1]);
        }
      }
    }
  }

  lemma WithKeyCons<T>(x: T, ys: seq<T>, key: T -> int, k: int)
    ensures key(x) == k ==> WithKey([x] + ys, key, k) == [x] + WithKey(ys, key, k)
    ensures key(x) != k ==> WithKey([x] + ys, key, k) == WithKey(ys, key, k)
  {
    assert ([x] + ys)[1..] == ys;
  }

  /** Inserting `x` puts it in front of every element that shares its key. */
  lemma {:induction false} InsertWithKey<T>(x: T, ys: seq<T>, key: T -> int, k: int)
    ensures key(x) == k ==> WithKey(Insert(x, ys, key), key, k) == [x] + WithKey(ys, key, k)
    ensures key(x) != k ==> WithKey(Insert(x, ys, key), key, k) == WithKey(ys, key, k)
  {
    if |ys| == 0 || key(x) >= key(ys[0]) {
      WithKeyCons(x, ys, key, k);
    } else {
      var y, tail := ys[0], ys[1..];
      var rest := Insert(x, tail, key);
      assert Insert(x, ys, key) == [y] + rest;
      assert [y] + tail == ys;
      InsertWithKey(x, tail, key, k);
      WithKeyCons(y, rest, key, k);
      WithKeyCons(y, tail, key, k);
    }
  }

  /** Inserting the head of `xs` into a sequence with the runs of its tail gives the runs of `xs`. */
  lemma InsertKeepsRuns<T>(xs: seq<T>, rest: seq<T>, key: T -> int)
    requires |xs| > 0
    requires multiset(rest) == multiset(xs[1..])
    requires forall k :: WithKey(rest, key, k) == WithKey(xs[1..], key, k)
    ensures multiset(Insert(xs[0], rest, key)) == multiset(xs)
    ensures forall k :: WithKey(Insert(xs[0], rest, key), key, k) == WithKey(xs, key, k)
  {
    assert xs == [xs[0]] + xs[1..];
    forall k ensures WithKey(Insert(xs[0], rest, key), key, k) == WithKey(xs, key, k) {
      InsertWithKey(xs[0], rest, key, k);
      WithKeyCons(xs[0], xs[1..], key, k);
    }
  }

  /** Insertion sort: stable, descending by `key`. */
  function SortDesc<T>(xs: seq<T>, key: T -> int): (r: seq<T>)
    ensures |r| == |xs|
    ensures IsStableSortDesc(xs, r, key)
  {
    if |xs| == 0 then []
    else
      var rest := SortDesc(xs[1..], key);
      InsertSorted(xs[0], rest, key);
      InsertKeepsRuns(xs, rest, key);
      Insert(xs[0], rest, key)
  }

  lemma {:induction false} WithKeyNonEmpty<T>(xs: seq<T>, key: T -> int, k: int)
    requires |WithKey(xs, key, k)| > 0
    ensures exists j :: 0 <= j < |xs| && key(xs[j]) == k
  {
    if key(xs[0]) != k {
      WithKeyNonEmpty(xs[1..], key, k);
      var j :| 0 <= j < |xs[1..]| && key(xs[1..][j]) == k;
      assert key(xs[j + 1]) == k;
    }
  }

  lemma WithKeyTail<T>(a: seq<T>, b: seq<T>, key: T -> int, k: int)
    requires |a| > 0 && |b| > 0 && a[0] == b[0]
    requires WithKey(a, key, k) == WithKey(b, key, k)
    ensures WithKey(a[1..], key, k) == WithKey(b[1..], key, k)
  {
    var pre := if key(a[0]) == k then [a[0]] else [];
    assert WithKey(a, key, k) == pre + WithKey(a[1..], key, k);
    assert WithKey(b, key, k) == pre + WithKey(b[1..], key, k);
    assert (pre + WithKey(a[1..], key, k))[|pre|..] == WithKey(a[1..], key, k);
  }

  /** In a non-increasing sequence the first key bounds every key that occurs. */
  lemma HeadKeyBounds<T>(a: seq<T>, key: T -> int, k: int)
    requires SortedDesc(a, key) && |a| > 0
    requires |WithKey(a, key, k)| > 0
    ensures key(a[0]) >= k
  {
    WithKeyNonEmpty(a, key, k);
  }

  /** Two non-empty sequences with the same runs start with the same element. */
  lemma SameHead<T>(a: seq<T>, b: seq<T>, key: T -> int)
    requires SortedDesc(a, key) && SortedDesc(b, key) && |a| > 0 && |b| > 0
    requires WithKey(a, key, key(a[0])) == WithKey(b, key, key(a[0]))
    requires WithKey(a, key, key(b[0])) == WithKey(b, key, key(b[0]))
    ensures a[0] == b[0]
  {
    var ka, kb := key(a[0]), key(b[0]);
    HeadKeyBounds(a, key, kb);
    HeadKeyBounds(b, key, ka);
    assert WithKey(a, key, ka)[0] == a[0];
    assert WithKey(b, key, ka)[0] == b[0];
  }

  /**
    Two sequences that are both non-increasing by key and agree on the
    subsequence of every key are equal.
   */
  lemma {:induction false} SortedSameRunsEqual<T>(a: seq<T>, b: seq<T>, key: T -> int)
    requires SortedDesc(a, key) && SortedDesc(b, key)
    requires forall k :: WithKey(a, key, k) == WithKey(b, key, k)
    ensures a == b
  {
    if |a| > 0 {
      assert WithKey(a, key, key(a[0])) == [a[0]] + WithKey(a[1..], key, key(a[0]));
    }
    if |b| > 0 {
      assert WithKey(b, key, key(b[0])) == [b[0]] + WithKey(b[1..], key, key(b[0]));
    }
    if |a| == 0 || |b| == 0 {
    } else {
      SameHead(a, b, key);
      forall k ensures WithKey(a[1..], key, k) == WithKey(b[1..], key, k) {
        WithKeyTail(a, b, key, k);
      }
      SortedSameRunsEqual(a[1..], b[1..], key);
      assert a == [a[0]] + a[1..];
      assert b == [b[0]] + b[1..];
    }
  }

  /** The stable descending sort of a sequence is unique. */
  lemma StableSortUnique<T>(xs: seq<T>, a: seq<T>, b: seq<T>, key: T -> int)
    requires IsStableSortDesc(xs, a, key) && IsStableSortDesc(xs, b, key)
    ensures a == b
  {
    SortedSameRunsEqual(a, b, key);
  }

  /** Sorting a sequence that is already non-increasing leaves it as it is. */
  lemma SortDescOfSorted<T>(xs: seq<T>, key: T -> int)
    requires SortedDesc(xs, key)
    ensures SortDesc(xs, key) == xs
  {
    StableSortUnique(xs, SortDesc(xs, key), xs, key);
  }
}
