/** Ranking as both pipelines do it: `sorted(xs, key=k, reverse=True)[:n]`.
    Python's sort is stable, and with `reverse=True` records whose keys are equal still keep
    their original relative order; the model is an insertion sort with that tie rule. */
module Ranking {

  /** Python's `xs[:n]` for any integer `n`; a negative `n` drops `-n` elements from the end. */
  function Prefix<T>(xs: seq<T>, n: int): (r: seq<T>)
    ensures |r| == if n >= 0 then Min(n, |xs|) else Max(0, |xs| + n)
    ensures r == xs[..|r|]
  {
    xs[..if n >= 0 then Min(n, |xs|) else Max(0, |xs| + n)]
  }

  function Min(a: int, b: int): int {
    if a <= b then a else b
  }

  function Max(a: int, b: int): int {
    if a >= b then a else b
  }

  /** Keys never increase from left to right. */
  ghost predicate NonIncreasing<T>(xs: seq<T>, key: T -> int) {
    forall i, j :: 0 <= i < j < |xs| ==> key(xs[j]) <= key(xs[i])
  }

  /** Put `x` in front of the first element whose key is not larger than its own. */
  function Insert<T>(x: T, s: seq<T>, key: T -> int): seq<T> {
    if s == [] || key(s[0]) <= key(x) then [x] + s else [s[0]] + Insert(x, s[1..], key)
  }

  /** `sorted(xs, key=key, reverse=True)` */
  function SortDesc<T>(xs: seq<T>, key: T -> int): (r: seq<T>)
    ensures |r| == |xs|
    ensures multiset(r) == multiset(xs)
    ensures NonIncreasing(r, key)
  {
    if xs == [] then []
    else
      var rest := SortDesc(xs[1..], key);
      InsertSorted(xs[0], rest, key);
      assert xs == [xs[0]] + xs[1..];
      Insert(xs[0], rest, key)
  }

  lemma {:induction false} InsertSorted<T>(x: T, s: seq<T>, key: T -> int)
    requires NonIncreasing(s, key)
    ensures |Insert(x, s, key)| == |s| + 1
    ensures multiset(Insert(x, s, key)) == multiset(s) + multiset{x}
    ensures NonIncreasing(Insert(x, s, key), key)
    ensures Insert(x, s, key) != [] && (Insert(x, s, key)[0] == x || (s != [] && Insert(x, s, key)[0] == s[0]))
  {
    if s != [] && key(s[0]) > key(x) {
      InsertSorted(x, s[1..], key);
      assert s == [s[0]] + s[1..];
      var r := Insert(x, s, key);
      var t := Insert(x, s[1..], key);
      assert r == [s[0]] + t;
      forall i, j | 0 <= i < j < |r| ensures key(r[j]) <= key(r[i]) {
        if i == 0 {
          assert r[j] == t[j - 1];
          assert key(t[j - 1]) <= key(t[0]);
          assert key(t[0]) <= key(s[0]) by {
            if t[0] != x {
              assert s[1..] != [] && t[0] == s[1];
            }
          }
        }
      }
    }
  }

  /** The elements of `xs` whose key is `k`, in their order in `xs`. */
  function WithKey<T>(xs: seq<T>, key: T -> int, k: int): seq<T> {
    if xs == [] then []
    else (if key(xs[0]) == k then [xs[0]] else []) + WithKey(xs[1..], key, k)
  }

  lemma {:induction false} WithKeyAppend<T>(a: seq<T>, b: seq<T>, key: T -> int, k: int)
    ensures WithKey(a + b, key, k) == WithKey(a, key, k) + WithKey(b, key, k)
  {
    if a != [] {
      WithKeyAppend(a[1..], b, key, k);
      assert (a + b)[1..] == a[1..] + b;
    } else {
      assert a + b == b;
    }
  }

  lemma {:induction false} InsertWithKey<T>(x: T, s: seq<T>, key: T -> int, k: int)
    requires NonIncreasing(s, key)
    ensures WithKey(Insert(x, s, key), key, k)
            == (if key(x) == k then [x] else []) + WithKey(s, key, k)
  {
    var own := if key(x) == k then [x] else [];
    if s == [] || key(s[0]) <= key(x) {
      var r := [x] + s;
      assert r[0] == x && r[1..] == s;
      assert WithKey(r, key, k) == own + WithKey(s, key, k);
    } else {
      var t := Insert(x, s[1..], key);
      var r := [s[0]] + t;
      var head := if key(s[0]) == k then [s[0]] else [];
      assert Insert(x, s, key) == r;
      assert r[0] == s[0] && r[1..] == t;
      InsertWithKey(x, s[1..], key, k);
      assert WithKey(r, key, k) == head + (own + WithKey(s[1..], key, k));
      assert WithKey(s, key, k) == head + WithKey(s[1..], key, k);
      assert head == [] || own == [];
    }
  }

  /** The sort is stable: for every key value, the elements with that key keep their order. */
  lemma {:induction false} SortStable<T>(xs: seq<T>, key: T -> int, k: int)
    ensures WithKey(SortDesc(xs, key), key, k) == WithKey(xs, key, k)
  {
    if xs != [] {
      SortStable(xs[1..], key, k);
      InsertWithKey(xs[0], SortDesc(xs[1..], key), key, k);
    }
  }

  /** When every key is the same, sorting leaves the sequence as it is. */
  lemma {:induction false} SortConstantKey<T>(xs: seq<T>, key: T -> int, k: int)
    requires forall i :: 0 <= i < |xs| ==> key(xs[i]) == k
    ensures SortDesc(xs, key) == xs
  {
    if xs != [] {
      SortConstantKey(xs[1..], key, k);
      assert xs == [xs[0]] + xs[1..];
    }
  }

  /** `sorted(xs, key=key, reverse=True)[:n]` */
  function TopN<T>(xs: seq<T>, key: T -> int, n: int): seq<T> {
    Prefix(SortDesc(xs, key), n)
  }

  /** What `TopN` promises: it takes `min(n, |xs|)` elements (`|xs| + n`, at least 0, for a
      negative `n`); together with the elements it leaves out they are exactly the input; they
      come in non-increasing key order; no element left out has a larger key than one taken;
      and among elements with equal keys the ones taken are the first of them in input order. */
  lemma TopNSpec<T>(xs: seq<T>, key: T -> int, n: int)
    ensures var r := TopN(xs, key, n); var rest := SortDesc(xs, key)[|r|..];
      && |r| == (if n >= 0 then Min(n, |xs|) else Max(0, |xs| + n))
      && multiset(r) + multiset(rest) == multiset(xs)
      && NonIncreasing(r, key)
      && (forall i, j :: 0 <= i < |r| && 0 <= j < |rest| ==> key(rest[j]) <= key(r[i]))
      && (forall k :: IsPrefix(WithKey(r, key, k), WithKey(xs, key, k)))
  {
    var s := SortDesc(xs, key);
    var r := TopN(xs, key, n);
    var rest := s[|r|..];
    assert s == r + rest;
    forall i, j | 0 <= i < |r| && 0 <= j < |rest| ensures key(rest[j]) <= key(r[i]) {
      assert rest[j] == s[|r| + j] && r[i] == s[i];
    }
    forall k ensures IsPrefix(WithKey(r, key, k), WithKey(xs, key, k)) {
      WithKeyAppend(r, rest, key, k);
      SortStable(xs, key, k);
    }
  }

  /** No element left out of `TopN` has a larger key than an element taken. */
  lemma TopNLeftOut<T>(xs: seq<T>, key: T -> int, n: int)
    ensures var r := TopN(xs, key, n);
      forall i, x :: 0 <= i < |r| && x in multiset(xs) - multiset(r) ==> key(x) <= key(r[i])
  {
    TopNSpec(xs, key, n);
    var r := TopN(xs, key, n);
    var rest := SortDesc(xs, key)[|r|..];
    assert multiset(xs) - multiset(r) == multiset(rest);
    forall i, x | 0 <= i < |r| && x in multiset(xs) - multiset(r) ensures key(x) <= key(r[i]) {
      assert x in rest;
      var j :| 0 <= j < |rest| && rest[j] == x;
    }
  }

  ghost predicate IsPrefix<T>(a: seq<T>, b: seq<T>) {
    |a| <= |b| && b[..|a|] == a
  }

  /** When no key differs, the top `n` are simply the first `n` in input order. */
  lemma TopNConstantKey<T>(xs: seq<T>, key: T -> int, k: int, n: int)
    requires forall i :: 0 <= i < |xs| ==> key(xs[i]) == k
    ensures TopN(xs, key, n) == Prefix(xs, n)
  {
    SortConstantKey(xs, key, k);
  }
}
