/** The stable sort by a numeric key that `Array.prototype.sort` performs with a
    comparator `(a, b) => key(a) - key(b)`, and how it commutes with filtering. */
module Sorting {
  import opened JsText

  predicate SortedBy<T>(xs: seq<T>, key: T -> int)
  {
    forall i, j :: 0 <= i < j < |xs| ==> key(xs[i]) <= key(xs[j])
  }

  /** `x` placed before the first element whose key is not smaller, so that among
      equal keys it comes first. */
  function InsertBy<T>(x: T, xs: seq<T>, key: T -> int): (r: seq<T>)
    ensures |r| == |xs| + 1
  {
    if xs == [] || key(x) <= key(xs[0]) then [x] + xs
    else [xs[0]] + InsertBy(x, xs[1..], key)
  }

  /** The stable sort: each element, from the last to the first, is inserted in front
      of the elements sorted so far. */
  function SortBy<T>(xs: seq<T>, key: T -> int): (r: seq<T>)
    ensures |r| == |xs|
  {
    if xs == [] then [] else InsertBy(xs[0], SortBy(xs[1..], key), key)
  }

  /** `xs.filter(keep)` */
  function Filter<T>(xs: seq<T>, keep: T -> bool): (r: seq<T>)
    ensures |r| <= |xs|
  {
    if xs == [] then [] else (if keep(xs[0]) then [xs[0]] else []) + Filter(xs[1..], keep)
  }

  /** The values of the elements that `f` maps to `Some`, in order. */
  function Collect<T, U>(xs: seq<T>, f: T -> Option<U>): (r: seq<U>)
    ensures |r| <= |xs|
  {
    if xs == [] then [] else (match f(xs[0]) case Some(y) => [y] case None => []) + Collect(xs[1..], f)
  }

  /** Insertion adds exactly `x` and keeps a sorted sequence sorted. */
  lemma InsertByFacts<T>(x: T, xs: seq<T>, key: T -> int)
    ensures multiset(InsertBy(x, xs, key)) == multiset(xs) + multiset{x}
    ensures SortedBy(xs, key) ==> SortedBy(InsertBy(x, xs, key), key)
    ensures forall y :: y in InsertBy(x, xs, key) ==> y == x || y in xs
  {
    InsertByPermutes(x, xs, key);
    if SortedBy(xs, key) {
      InsertBySorted(x, xs, key);
    }
    forall y | y in InsertBy(x, xs, key) ensures y == x || y in xs {
      assert y in multiset(InsertBy(x, xs, key));
    }
  }

  lemma {:induction false} InsertByPermutes<T>(x: T, xs: seq<T>, key: T -> int)
    ensures multiset(InsertBy(x, xs, key)) == multiset(xs) + multiset{x}
  {
    if xs != [] && key(x) > key(xs[0]) {
      InsertByPermutes(x, xs[1..], key);
      assert xs == [xs[0]] + xs[1..];
    }
  }

  lemma {:induction false} InsertBySorted<T>(x: T, xs: seq<T>, key: T -> int)
    requires SortedBy(xs, key)
    ensures SortedBy(InsertBy(x, xs, key), key)
  {
    var r := InsertBy(x, xs, key);
    if xs == [] || key(x) <= key(xs[0]) {
      assert r == [x] + xs;
      forall i, j | 0 <= i < j < |r| ensures key(r[i]) <= key(r[j]) {
        assert r[j] == xs[j - 1];
        if i > 0 {
          assert r[i] == xs[i - 1];
        } else if j > 1 {
          assert key(xs[0]) <= key(xs[j - 1]);
        }
      }
    } else {
      var t := xs[1..];
      var r' := InsertBy(x, t, key);
      assert SortedBy(t, key) by {
        forall i, j | 0 <= i < j < |t| ensures key(t[i]) <= key(t[j]) {
          assert t[i] == xs[i + 1] && t[j] == xs[j + 1];
        }
      }
      InsertBySorted(x, t, key);
      InsertByPermutes(x, t, key);
      assert r == [xs[0]] + r';
      forall j | 0 <= j < |r'| ensures key(xs[0]) <= key(r'[j]) {
        assert r'[j] in multiset(r');
        if r'[j] != x {
          assert r'[j] in multiset(t);
          var k :| 0 <= k < |t| && t[k] == r'[j];
          assert t[k] == xs[k + 1];
        }
      }
      forall i, j | 0 <= i < j < |r| ensures key(r[i]) <= key(r[j]) {
        assert r[j] == r'[j - 1];
        if i > 0 {
          assert r[i] == r'[i - 1];
        }
      }
    }
  }

  /** The sort is ordered by `key` and a permutation of its input. */
  lemma {:induction false} SortByFacts<T>(xs: seq<T>, key: T -> int)
    ensures SortedBy(SortBy(xs, key), key)
    ensures multiset(SortBy(xs, key)) == multiset(xs)
  {
    if xs != [] {
      var t := SortBy(xs[1..], key);
      assert SortBy(xs, key) == InsertBy(xs[0], t, key);
      SortByFacts(xs[1..], key);
      InsertByPermutes(xs[0], t, key);
      InsertBySorted(xs[0], t, key);
      assert xs == [xs[0]] + xs[1..];
    }
  }

  /** Every element of the sorted sequence comes from the input, so a property all
      inputs have holds of all outputs. */
  lemma SortByKeeps<T>(xs: seq<T>, key: T -> int, p: T -> bool)
    requires forall i :: 0 <= i < |xs| ==> p(xs[i])
    ensures forall i :: 0 <= i < |SortBy(xs, key)| ==> p(SortBy(xs, key)[i])
  {
    var r := SortBy(xs, key);
    SortByFacts(xs, key);
    forall i | 0 <= i < |r| ensures p(r[i]) {
      assert r[i] in multiset(xs);
      var k :| 0 <= k < |xs| && xs[k] == r[i];
    }
  }

  /** A sequence already in order is left as it is. */
  lemma {:induction false} SortOfSorted<T>(xs: seq<T>, key: T -> int)
    requires SortedBy(xs, key)
    ensures SortBy(xs, key) == xs
  {
    if xs != [] {
      SortOfSorted(xs[1..], key);
      assert xs == [xs[0]] + xs[1..];
    }
  }

  /** Filtering after an insertion is inserting into the filtered sequence. */
  lemma {:induction false} FilterInsert<T>(x: T, ys: seq<T>, key: T -> int, keep: T -> bool)
    requires SortedBy(ys, key)
    ensures Filter(InsertBy(x, ys, key), keep)
            == if keep(x) then InsertBy(x, Filter(ys, keep), key) else Filter(ys, keep)
  {
    if ys == [] || key(x) <= key(ys[0]) {
      assert InsertBy(x, ys, key) == [x] + ys;
      assert ([x] + ys)[1..] == ys;
      if keep(x) {
        var f := Filter(ys, keep);
        if f != [] {
          FilterHead(ys, keep);
          var j :| 0 <= j < |ys| && f[0] == ys[j];
          assert key(x) <= key(f[0]);
        }
      }
    } else {
      FilterInsert(x, ys[1..], key, keep);
      var tail := InsertBy(x, ys[1..], key);
      assert ([ys[0]] + tail)[1..] == tail;
      var f1 := Filter(ys[1..], keep);
      if keep(ys[0]) {
        assert Filter(ys, keep) == [ys[0]] + f1;
        assert ([ys[0]] + f1)[1..] == f1;
      } else {
        assert Filter(ys, keep) == f1;
      }
    }
  }

  /** The first kept element is an element of the input. */
  lemma {:induction false} FilterHead<T>(ys: seq<T>, keep: T -> bool)
    requires Filter(ys, keep) != []
    ensures exists j :: 0 <= j < |ys| && Filter(ys, keep)[0] == ys[j]
  {
    if keep(ys[0]) {
      assert Filter(ys, keep)[0] == ys[0];
    } else {
      FilterHead(ys[1..], keep);
      var j :| 0 <= j < |ys[1..]| && Filter(ys[1..], keep)[0] == ys[1..][j];
      assert Filter(ys, keep)[0] == ys[j + 1];
    }
  }

  /** Sorting and filtering commute: the kept part of the sort is the sort of the kept
      elements. */
  lemma {:induction false} FilterSortBy<T>(xs: seq<T>, key: T -> int, keep: T -> bool)
    ensures Filter(SortBy(xs, key), keep) == SortBy(Filter(xs, keep), key)
  {
    if xs != [] {
      FilterSortBy(xs[1..], key, keep);
      SortByFacts(xs[1..], key);
      FilterInsert(xs[0], SortBy(xs[1..], key), key, keep);
      var f1 := Filter(xs[1..], keep);
      if keep(xs[0]) {
        assert Filter(xs, keep) == [xs[0]] + f1;
        assert ([xs[0]] + f1)[1..] == f1;
      } else {
        assert Filter(xs, keep) == f1;
      }
    }
  }

  /** Stability: the elements with any one key keep their relative order. */
  /** The elements whose key is `k`. */
  function KeyIs<T>(key: T -> int, k: int): T -> bool
  {
    x => key(x) == k
  }

  lemma SortByStable<T>(xs: seq<T>, key: T -> int, k: int)
    ensures Filter(SortBy(xs, key), KeyIs(key, k)) == Filter(xs, KeyIs(key, k))
  {
    var same := KeyIs(key, k);
    FilterSortBy(xs, key, same);
    var fs := Filter(xs, same);
    FilterKept(xs, same);
    assert forall i :: 0 <= i < |fs| ==> key(fs[i]) == k;
    SortOfSorted(fs, key);
  }

  /** Every element that a filter returns passes it. */
  lemma {:induction false} FilterKept<T>(xs: seq<T>, keep: T -> bool)
    ensures forall i :: 0 <= i < |Filter(xs, keep)| ==> keep(Filter(xs, keep)[i])
  {
    if xs != [] {
      FilterKept(xs[1..], keep);
      var f1 := Filter(xs[1..], keep);
      if keep(xs[0]) {
        assert Filter(xs, keep) == [xs[0]] + f1;
      } else {
        assert Filter(xs, keep) == f1;
      }
    }
  }

  /** Collecting after an insertion is inserting the collected value, when `f` carries
      the key over to its values. */
  lemma {:induction false} CollectInsert<T, U>(x: T, ys: seq<T>, key: T -> int,
                                               f: T -> Option<U>, key2: U -> int)
    requires SortedBy(ys, key)
    requires forall y :: f(y).Some? ==> key2(f(y).value) == key(y)
    ensures Collect(InsertBy(x, ys, key), f)
            == match f(x) case Some(v) => InsertBy(v, Collect(ys, f), key2)
                          case None => Collect(ys, f)
  {
    if ys == [] || key(x) <= key(ys[0]) {
      assert InsertBy(x, ys, key) == [x] + ys;
      assert ([x] + ys)[1..] == ys;
      var c := Collect(ys, f);
      if f(x).Some? && c != [] {
        CollectHead(ys, f);
        var j :| 0 <= j < |ys| && f(ys[j]) == Some(c[0]);
        assert key2(f(x).value) <= key2(c[0]);
      }
    } else {
      CollectInsert(x, ys[1..], key, f, key2);
      var tail := InsertBy(x, ys[1..], key);
      assert ([ys[0]] + tail)[1..] == tail;
      var c1 := Collect(ys[1..], f);
      match f(ys[0])
      case Some(v) =>
        assert Collect(ys, f) == [v] + c1;
        assert ([v] + c1)[1..] == c1;
      case None =>
        assert Collect(ys, f) == c1;
    }
  }

  /** The first collected value comes from an element of the input. */
  lemma {:induction false} CollectHead<T, U>(ys: seq<T>, f: T -> Option<U>)
    requires Collect(ys, f) != []
    ensures exists j :: 0 <= j < |ys| && f(ys[j]) == Some(Collect(ys, f)[0])
  {
    match f(ys[0])
    case Some(v) =>
      assert f(ys[0]) == Some(Collect(ys, f)[0]);
    case None =>
      assert Collect(ys, f) == Collect(ys[1..], f);
      CollectHead(ys[1..], f);
      var j :| 0 <= j < |ys[1..]| && f(ys[1..][j]) == Some(Collect(ys[1..], f)[0]);
      assert f(ys[j + 1]) == Some(Collect(ys, f)[0]);
  }

  /** Sorting and collecting commute when `f` carries the key over to its values. */
  lemma {:induction false} CollectSortBy<T, U>(xs: seq<T>, key: T -> int,
                                               f: T -> Option<U>, key2: U -> int)
    requires forall y :: f(y).Some? ==> key2(f(y).value) == key(y)
    ensures Collect(SortBy(xs, key), f) == SortBy(Collect(xs, f), key2)
  {
    if xs != [] {
      CollectSortBy(xs[1..], key, f, key2);
      SortByFacts(xs[1..], key);
      CollectInsert(xs[0], SortBy(xs[1..], key), key, f, key2);
      var c1 := Collect(xs[1..], f);
      match f(xs[0])
      case Some(v) =>
        assert Collect(xs, f) == [v] + c1;
        assert ([v] + c1)[1..] == c1;
      case None =>
        assert Collect(xs, f) == c1;
    }
  }
  // ----- filters over appended and partitioned sequences -----

  /** Filtering a sequence with one more element at its end. */
  lemma {:induction false} FilterSnoc<T>(xs: seq<T>, x: T, keep: T -> bool)
    ensures Filter(xs + [x], keep) == Filter(xs, keep) + (if keep(x) then [x] else [])
    decreases |xs|
  {
    if xs == [] {
      assert xs + [x] == [x];
      assert [x][1..] == [];
    } else {
      var h := if keep(xs[0]) then [xs[0]] else [];
      assert (xs + [x])[0] == xs[0];
      assert (xs + [x])[1..] == xs[1..] + [x];
      assert Filter(xs + [x], keep) == h + Filter(xs[1..] + [x], keep);
      assert Filter(xs, keep) == h + Filter(xs[1..], keep);
      FilterSnoc(xs[1..], x, keep);
    }
  }

  /** Collecting from a sequence with one more element at its end. */
  lemma {:induction false} CollectSnoc<T, U>(xs: seq<T>, x: T, f: T -> Option<U>)
    ensures Collect(xs + [x], f) == Collect(xs, f) + (match f(x) case Some(y) => [y] case None => [])
    decreases |xs|
  {
    if xs == [] {
      assert xs + [x] == [x];
      assert [x][1..] == [];
    } else {
      CollectSnoc(xs[1..], x, f);
      assert (xs + [x])[1..] == xs[1..] + [x];
    }
  }

  /** One step of a loop that collects the results of `f` over `xs`. */
  lemma CollectStep<T, U>(xs: seq<T>, i: nat, acc: seq<U>, y: Option<U>, f: T -> Option<U>)
    requires i < |xs| && acc == Collect(xs[..i], f) && y == f(xs[i])
    ensures Collect(xs[..i + 1], f) == acc + (match y case Some(v) => [v] case None => [])
  {
    CollectSnoc(xs[..i], xs[i], f);
    assert xs[..i + 1] == xs[..i] + [xs[i]];
  }

  /** When `f` gives a result for every element, the results are collected in order. */
  lemma {:induction false} CollectAllSome<T, U>(xs: seq<T>, ys: seq<U>, f: T -> Option<U>)
    requires |xs| == |ys| && forall i :: 0 <= i < |xs| ==> f(xs[i]) == Some(ys[i])
    ensures Collect(xs, f) == ys
    decreases |xs|
  {
    if xs != [] {
      var n := |xs| - 1;
      assert forall i :: 0 <= i < n ==> xs[..n][i] == xs[i] && ys[..n][i] == ys[i];
      CollectAllSome(xs[..n], ys[..n], f);
      CollectStep(xs, n, ys[..n], f(xs[n]), f);
      assert xs[..n + 1] == xs;
      assert ys[..n] + [ys[n]] == ys;
    }
  }

  /** Collecting distributes over concatenation. */
  lemma {:induction false} CollectAppend<T, U>(xs: seq<T>, ys: seq<T>, f: T -> Option<U>)
    ensures Collect(xs + ys, f) == Collect(xs, f) + Collect(ys, f)
    decreases |xs|
  {
    if xs == [] {
      assert xs + ys == ys;
    } else {
      var h: seq<U> := match f(xs[0]) case Some(y) => [y] case None => [];
      assert (xs + ys)[1..] == xs[1..] + ys;
      assert (xs + ys)[0] == xs[0];
      assert Collect(xs + ys, f) == h + Collect(xs[1..] + ys, f);
      assert Collect(xs, f) == h + Collect(xs[1..], f);
      CollectAppend(xs[1..], ys, f);
    }
  }

  /** Nothing passes a filter that no element passes. */
  lemma {:induction false} FilterNone<T>(xs: seq<T>, keep: T -> bool)
    requires forall i :: 0 <= i < |xs| ==> !keep(xs[i])
    ensures Filter(xs, keep) == []
  {
    if xs != [] {
      assert forall i :: 0 <= i < |xs[1..]| ==> xs[1..][i] == xs[i + 1];
      FilterNone(xs[1..], keep);
    }
  }

  /** A filter and its complement share out the elements of a sequence. */
  lemma {:induction false} FilterPartition<T>(xs: seq<T>, keep: T -> bool, drop: T -> bool)
    requires forall x :: drop(x) == !keep(x)
    ensures multiset(Filter(xs, keep)) + multiset(Filter(xs, drop)) == multiset(xs)
  {
    if xs != [] {
      var t := xs[1..];
      FilterPartition(t, keep, drop);
      assert xs == [xs[0]] + t;
      assert multiset(xs) == multiset{xs[0]} + multiset(t);
      if keep(xs[0]) {
        assert Filter(xs, keep) == [xs[0]] + Filter(t, keep);
        assert Filter(xs, drop) == Filter(t, drop);
      } else {
        assert Filter(xs, keep) == Filter(t, keep);
        assert Filter(xs, drop) == [xs[0]] + Filter(t, drop);
      }
    }
  }

  /** The values collected are exactly the values `f` gives to some element. */
  lemma {:induction false} CollectMembers<T, U>(xs: seq<T>, f: T -> Option<U>, y: U)
    ensures y in Collect(xs, f) <==> exists i :: 0 <= i < |xs| && f(xs[i]) == Some(y)
  {
    if xs != [] {
      var tail := xs[1..];
      CollectMembers(tail, f, y);
      if y in Collect(tail, f) {
        var i :| 0 <= i < |tail| && f(tail[i]) == Some(y);
        assert f(xs[i + 1]) == Some(y);
      }
      if exists i :: 0 <= i < |xs| && f(xs[i]) == Some(y) {
        var i :| 0 <= i < |xs| && f(xs[i]) == Some(y);
        if i > 0 {
          assert f(tail[i - 1]) == Some(y);
        }
      }
    }
  }
}
