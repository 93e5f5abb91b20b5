/** `list.sort(key=...)` and `sorted(...)`: an ascending sort by an integer
    key. The model is the stable sort, keeping elements with equal keys in
    their original order; MicroPython's own sort is not stable, so the model
    fixes one of the orders the board may produce. Written as an insertion
    sort; what it promises is stated by `Sorted`, the multiset of elements and
    `KeyClass` (stability). */
module Sorting {

  /** Non-decreasing by key. */
  ghost predicate Sorted<T>(s: seq<T>, key: T -> int) {
    forall i, j :: 0 <= i < j < |s| ==> key(s[i]) <= key(s[j])
  }

  /** Inserts x before the first element whose key is not smaller than its own. */
  function Insert<T>(x: T, ys: seq<T>, key: T -> int): (r: seq<T>)
    ensures multiset(r) == multiset(ys) + multiset{x}
    ensures |r| == |ys| + 1
    decreases |ys|
  {
    if ys == [] || key(x) <= key(ys[0]) then [x] + ys
    else
      assert ys == [ys[0]] + ys[1..];
      [ys[0]] + Insert(x, ys[1..], key)
  }

  /** Insertion keeps a sorted list sorted. */
  lemma {:induction false} InsertSorted<T>(x: T, ys: seq<T>, key: T -> int)
    requires Sorted(ys, key)
    ensures Sorted(Insert(x, ys, key), key)
    decreases |ys|
  {
    var r := Insert(x, ys, key);
    if ys == [] || key(x) <= key(ys[0]) {
      forall i, j | 0 <= i < j < |r| ensures key(r[i]) <= key(r[j]) {
        if i == 0 {
          assert r[j] == ys[j - 1];
          assert j - 1 == 0 || key(ys[0]) <= key(ys[j - 1]);
        } else {
          assert r[i] == ys[i - 1] && r[j] == ys[j - 1];
        }
      }
    } else {
      SortedTail(ys, key);
      InsertSorted(x, ys[1..], key);
      var rest := Insert(x, ys[1..], key);
      assert r == [ys[0]] + rest;
      forall i, j | 0 <= i < j < |r| ensures key(r[i]) <= key(r[j]) {
        if i == 0 {
          assert r[j] == rest[j - 1];
          assert r[j] in multiset(ys[1..]) + multiset{x};
          if r[j] != x {
            var m :| 0 <= m < |ys[1..]| && ys[1..][m] == r[j];
            assert ys[1..][m] == ys[m + 1];
          }
        } else {
          assert r[i] == rest[i - 1] && r[j] == rest[j - 1];
        }
      }
    }
  }

  /** The sort: ascending by key, stable. */
  function SortBy<T>(xs: seq<T>, key: T -> int): (r: seq<T>)
    ensures multiset(r) == multiset(xs)
    ensures |r| == |xs|
    ensures Sorted(r, key)
    decreases |xs|
  {
    if xs == [] then []
    else
      assert xs == [xs[0]] + xs[1..];
      InsertSorted(xs[0], SortBy(xs[1..], key), key);
      Insert(xs[0], SortBy(xs[1..], key), key)
  }

  /** The elements whose key is k, in order. */
  function KeyClass<T>(xs: seq<T>, key: T -> int, k: int): (r: seq<T>)
    ensures forall e :: e in r ==> e in xs && key(e) == k
    decreases |xs|
  {
    if xs == [] then []
    else (if key(xs[0]) == k then [xs[0]] else []) + KeyClass(xs[1..], key, k)
  }

  lemma KeyClassCons<T>(a: T, rest: seq<T>, key: T -> int, k: int)
    ensures KeyClass([a] + rest, key, k) == (if key(a) == k then [a] else []) + KeyClass(rest, key, k)
  {
    assert ([a] + rest)[0] == a && ([a] + rest)[1..] == rest;
  }

  lemma SortedTail<T>(ys: seq<T>, key: T -> int)
    requires ys != [] && Sorted(ys, key)
    ensures Sorted(ys[1..], key)
  {
    forall i, j | 0 <= i < j < |ys[1..]| ensures key(ys[1..][i]) <= key(ys[1..][j]) {
      assert ys[1..][i] == ys[i + 1] && ys[1..][j] == ys[j + 1];
    }
  }

  /** Inserting into a sorted list puts x first among the elements of its key. */
  lemma {:induction false} InsertKeyClass<T>(x: T, ys: seq<T>, key: T -> int, k: int)
    requires Sorted(ys, key)
    ensures KeyClass(Insert(x, ys, key), key, k) == (if key(x) == k then [x] else []) + KeyClass(ys, key, k)
    decreases |ys|
  {
    if ys == [] || key(x) <= key(ys[0]) {
      KeyClassCons(x, ys, key, k);
    } else {
      SortedTail(ys, key);
      InsertKeyClass(x, ys[1..], key, k);
      var rest := Insert(x, ys[1..], key);
      KeyClassCons(ys[0], rest, key, k);
      KeyClassCons(ys[0], ys[1..], key, k);
      assert [ys[0]] + ys[1..] == ys;
      if key(ys[0]) != k {
        assert KeyClass(ys, key, k) == KeyClass(ys[1..], key, k);
      }
    }
  }

  /** Stability: the elements of each key keep their original order. */
  lemma {:induction false} SortStable<T>(xs: seq<T>, key: T -> int, k: int)
    ensures KeyClass(SortBy(xs, key), key, k) == KeyClass(xs, key, k)
    decreases |xs|
  {
    if xs != [] {
      SortStable(xs[1..], key, k);
      InsertKeyClass(xs[0], SortBy(xs[1..], key), key, k);
    }
  }
}
