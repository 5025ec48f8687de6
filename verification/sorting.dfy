/**
  Python's `list.sort(key=...)`: a stable sort by an integer key. Both sorts
  in the segmenter (markers by offset, elements by `start_pos`) use it.
*/
module Sorting {

  /** Keys never decrease from left to right. */
  predicate SortedBy<T>(s: seq<T>, key: T -> int) {
    forall i, j :: 0 <= i < j < |s| ==> key(s[i]) <= key(s[j])
  }

  /** Places `x` after every element whose key is at most `key(x)`, so that equal
      keys keep their arrival order. */
  function InsertBy<T>(s: seq<T>, x: T, key: T -> int): (r: seq<T>)
    ensures |r| == |s| + 1
    ensures multiset(r) == multiset(s) + multiset{x}
  {
    if |s| == 0 || key(s[|s| - 1]) <= key(x) then s + [x]
    else
      assert s == s[..|s| - 1] + [s[|s| - 1]];
      InsertBy(s[..|s| - 1], x, key) + [s[|s| - 1]]
  }

  /** Appending an element whose key is not below any key keeps the order. */
  lemma SortedAppend<T>(s: seq<T>, x: T, key: T -> int)
    requires SortedBy(s, key)
    requires forall i :: 0 <= i < |s| ==> key(s[i]) <= key(x)
    ensures SortedBy(s + [x], key)
  {
    forall i, j | 0 <= i < j < |s| + 1
      ensures key((s + [x])[i]) <= key((s + [x])[j])
    {
      assert (s + [x])[i] == s[i];
      if j < |s| {
        assert (s + [x])[j] == s[j];
      }
    }
  }

  /** Inserting into a sorted sequence keeps it sorted. */
  lemma {:induction false} InsertBySorted<T>(s: seq<T>, x: T, key: T -> int)
    requires SortedBy(s, key)
    ensures SortedBy(InsertBy(s, x, key), key)
  {
    if |s| == 0 || key(s[|s| - 1]) <= key(x) {
      forall i | 0 <= i < |s|
        ensures key(s[i]) <= key(x)
      {
        assert key(s[i]) <= key(s[|s| - 1]);
      }
      SortedAppend(s, x, key);
    } else {
      var init, last := s[..|s| - 1], s[|s| - 1];
      SortedPrefix(s, |s| - 1, key);
      InsertBySorted(init, x, key);
      var r' := InsertBy(init, x, key);
      forall i | 0 <= i < |r'|
        ensures key(r'[i]) <= key(last)
      {
        var y := r'[i];
        assert y in multiset(r');
        if y != x {
          assert y in multiset(init);
          var j :| 0 <= j < |init| && init[j] == y;
          assert s[j] == y;
        }
      }
      SortedAppend(r', last, key);
    }
  }

  /** Insertion sort, taking the elements left to right and placing each after the
      equal keys already placed (Python's sort is stable): the result is ordered
      by `key` and is a permutation of the input. */
  function SortBy<T>(s: seq<T>, key: T -> int): (r: seq<T>)
    ensures |r| == |s|
    ensures SortedBy(r, key)
    ensures multiset(r) == multiset(s)
  {
    if |s| == 0 then []
    else
      assert s == s[..|s| - 1] + [s[|s| - 1]];
      var rest := SortBy(s[..|s| - 1], key);
      InsertBySorted(rest, s[|s| - 1], key);
      InsertBy(rest, s[|s| - 1], key)
  }

  /** A prefix of a sorted sequence is sorted. */
  lemma SortedPrefix<T>(s: seq<T>, n: nat, key: T -> int)
    requires SortedBy(s, key) && n <= |s|
    ensures SortedBy(s[..n], key)
  {
    forall i, j | 0 <= i < j < n
      ensures key(s[..n][i]) <= key(s[..n][j])
    {
      assert s[..n][i] == s[i] && s[..n][j] == s[j];
    }
  }

  /** An element whose key is not below the last one is appended. */
  lemma InsertAtEnd<T>(s: seq<T>, x: T, key: T -> int)
    requires SortedBy(s, key)
    requires |s| == 0 || key(s[|s| - 1]) <= key(x)
    ensures InsertBy(s, x, key) == s + [x]
  {
  }

  /** One step of the sort: the last element is inserted into the sorted rest. */
  lemma SortByStep<T>(s: seq<T>, key: T -> int)
    requires |s| > 0
    ensures SortBy(s, key) == InsertBy(SortBy(s[..|s| - 1], key), s[|s| - 1], key)
  {
  }

  /** Sorting an already sorted sequence leaves it as it is. */
  lemma {:induction false} SortBySorted<T>(s: seq<T>, key: T -> int)
    requires SortedBy(s, key)
    ensures SortBy(s, key) == s
  {
    if |s| > 0 {
      var init, last := s[..|s| - 1], s[|s| - 1];
      SortedPrefix(s, |s| - 1, key);
      assert |init| == 0 || key(init[|init| - 1]) <= key(last) by {
        if |init| > 0 {
          assert init[|init| - 1] == s[|s| - 2];
        }
      }
      calc {
        SortBy(s, key);
        == { SortByStep(s, key); }
        InsertBy(SortBy(init, key), last, key);
        == { SortBySorted(init, key); }
        InsertBy(init, last, key);
        == { InsertAtEnd(init, last, key); }
        init + [last];
        == { assert s == init + [last]; }
        s;
      }
    }
  }

  /** `[f(x) for x in s]`. */
  function Map<A, B>(f: A -> B, s: seq<A>): (r: seq<B>)
    ensures |r| == |s|
    ensures forall i :: 0 <= i < |s| ==> r[i] == f(s[i])
  {
    seq(|s|, i requires 0 <= i < |s| => f(s[i]))
  }

  /** Inserting commutes with a map that carries the key over. */
  lemma {:induction false} InsertByMap<A, B>(s: seq<A>, x: A, f: A -> B, ka: A -> int, kb: B -> int)
    requires forall a :: kb(f(a)) == ka(a)
    ensures InsertBy(Map(f, s), f(x), kb) == Map(f, InsertBy(s, x, ka))
  {
    var ms := Map(f, s);
    if |s| == 0 || ka(s[|s| - 1]) <= ka(x) {
      assert |ms| == 0 || kb(ms[|ms| - 1]) <= kb(f(x));
      calc {
        InsertBy(ms, f(x), kb);
        ms + [f(x)];
        Map(f, s + [x]);
      }
    } else {
      var init, last := s[..|s| - 1], s[|s| - 1];
      assert ms[..|ms| - 1] == Map(f, init);
      assert ms[|ms| - 1] == f(last);
      calc {
        InsertBy(ms, f(x), kb);
        InsertBy(Map(f, init), f(x), kb) + [f(last)];
        == { InsertByMap(init, x, f, ka, kb); }
        Map(f, InsertBy(init, x, ka)) + [f(last)];
        Map(f, InsertBy(init, x, ka) + [last]);
        Map(f, InsertBy(s, x, ka));
      }
    }
  }

  /** Sorting commutes with a map that carries the key over: building the
      records first and sorting them by the carried key is sorting first and
      building afterwards. */
  lemma {:induction false} SortByMap<A, B>(s: seq<A>, f: A -> B, ka: A -> int, kb: B -> int)
    requires forall a :: kb(f(a)) == ka(a)
    ensures SortBy(Map(f, s), kb) == Map(f, SortBy(s, ka))
  {
    if |s| > 0 {
      var init, last := s[..|s| - 1], s[|s| - 1];
      var ms := Map(f, s);
      assert ms[..|ms| - 1] == Map(f, init);
      assert ms[|ms| - 1] == f(last);
      calc {
        SortBy(ms, kb);
        == { SortByStep(ms, kb); }
        InsertBy(SortBy(Map(f, init), kb), f(last), kb);
        == { SortByMap(init, f, ka, kb); }
        InsertBy(Map(f, SortBy(init, ka)), f(last), kb);
        == { InsertByMap(SortBy(init, ka), last, f, ka, kb); }
        Map(f, InsertBy(SortBy(init, ka), last, ka));
        == { SortByStep(s, ka); }
        Map(f, SortBy(s, ka));
      }
    }
  }

  // ---------------------------------------------------------------------------
  // Concatenation and flat maps

  /** Two sorted lists, every key of the first at most every key of the second,
      concatenate to a sorted list. */
  lemma ConcatSorted<T>(a: seq<T>, b: seq<T>, key: T -> int)
    requires SortedBy(a, key) && SortedBy(b, key)
    requires forall i, j :: 0 <= i < |a| && 0 <= j < |b| ==> key(a[i]) <= key(b[j])
    ensures SortedBy(a + b, key)
  {
    var s := a + b;
    forall i, j | 0 <= i < j < |s|
      ensures key(s[i]) <= key(s[j])
    {
      if j < |a| {
        assert s[i] == a[i] && s[j] == a[j];
      } else if i < |a| {
        assert s[i] == a[i] && s[j] == b[j - |a|];
      } else {
        assert s[i] == b[i - |a|] && s[j] == b[j - |a|];
      }
    }
  }

  /** Every element of `s` satisfies `p`. */
  predicate AllOf<T>(s: seq<T>, p: T -> bool) {
    forall k :: 0 <= k < |s| ==> p(s[k])
  }

  /** The images of the elements of `s` under `f`, concatenated in order. */
  function FlatMap<A, B>(f: A -> seq<B>, s: seq<A>): seq<B> {
    if |s| == 0 then [] else f(s[0]) + FlatMap(f, s[1..])
  }

  /** A property every image has holds of the whole flat map. */
  lemma {:induction false} FlatMapAll<A, B>(f: A -> seq<B>, s: seq<A>, p: B -> bool)
    requires forall i :: 0 <= i < |s| ==> AllOf(f(s[i]), p)
    ensures AllOf(FlatMap(f, s), p)
  {
    if |s| > 0 {
      assert forall i :: 0 <= i < |s[1..]| ==> s[1..][i] == s[i + 1];
      FlatMapAll(f, s[1..], p);
      var a, b := f(s[0]), FlatMap(f, s[1..]);
      assert AllOf(a, p) by {
        assert s[0] == s[0];
      }
      assert forall k :: 0 <= k < |a| ==> (a + b)[k] == a[k];
      assert forall k :: 0 <= k < |b| ==> (a + b)[|a| + k] == b[k];
    }
  }

  /** When each element's images all carry its own key `g`, every image's key
      is the key of some element. */
  lemma FlatMapFrom<A, B, C>(f: A -> seq<B>, s: seq<A>, g: A -> C, h: B -> C)
    requires forall i, k :: 0 <= i < |s| && 0 <= k < |f(s[i])| ==> h(f(s[i])[k]) == g(s[i])
    ensures AllOf(FlatMap(f, s), b => h(b) in Map(g, s))
  {
    var gs := Map(g, s);
    forall i | 0 <= i < |s|
      ensures AllOf(f(s[i]), b => h(b) in gs)
    {
      assert gs[i] == g(s[i]);
    }
    FlatMapAll(f, s, b => h(b) in gs);
  }

  /** Something is in a flat map exactly when it is in the image of one of
      the elements. */
  lemma {:induction false} FlatMapMembers<A, B>(f: A -> seq<B>, s: seq<A>, x: B)
    ensures x in FlatMap(f, s) <==> exists i :: 0 <= i < |s| && x in f(s[i])
  {
    if |s| > 0 {
      var t := s[1..];
      FlatMapMembers(f, t, x);
      assert FlatMap(f, s) == f(s[0]) + FlatMap(f, t);
      if x in FlatMap(f, t) {
        var i :| 0 <= i < |t| && x in f(t[i]);
        assert t[i] == s[i + 1];
      }
      if exists i :: 0 <= i < |s| && x in f(s[i]) {
        var i :| 0 <= i < |s| && x in f(s[i]);
        if i > 0 {
          assert t[i - 1] == s[i];
        }
      }
    }
  }

  /** A list sorted by key whose elements' images each carry the element's key
      gives a flat map sorted by that key. */
  lemma {:induction false} FlatMapSorted<A, B>(f: A -> seq<B>, s: seq<A>, ka: A -> int, kb: B -> int)
    requires SortedBy(s, ka)
    requires forall i, k :: 0 <= i < |s| && 0 <= k < |f(s[i])| ==> kb(f(s[i])[k]) == ka(s[i])
    ensures SortedBy(FlatMap(f, s), kb)
  {
    if |s| > 0 {
      var a, b := f(s[0]), FlatMap(f, s[1..]);
      assert forall i :: 0 <= i < |s[1..]| ==> s[1..][i] == s[i + 1];
      FlatMapSorted(f, s[1..], ka, kb);
      var lo := ka(s[0]);
      forall i | 0 <= i < |s[1..]|
        ensures AllOf(f(s[1..][i]), x => lo <= kb(x))
      {
        assert s[1..][i] == s[i + 1];
      }
      FlatMapAll(f, s[1..], x => lo <= kb(x));
      assert forall k :: 0 <= k < |a| ==> kb(a[k]) == lo by {
        assert s[0] == s[0];
      }
      ConcatSorted(a, b, kb);
    }
  }

  // ---------------------------------------------------------------------------
  // Filters

  /** The elements of `s` that satisfy `p`, in order. */
  function Filter<T>(p: T -> bool, s: seq<T>): (r: seq<T>)
    ensures |r| <= |s|
  {
    if |s| == 0 then [] else (if p(s[0]) then [s[0]] else []) + Filter(p, s[1..])
  }

  /** Everything a filter keeps satisfies its test, and any property every
      element has survives the filter. */
  lemma {:induction false} FilterAll<T>(p: T -> bool, s: seq<T>, q: T -> bool)
    ensures AllOf(Filter(p, s), p)
    ensures AllOf(s, q) ==> AllOf(Filter(p, s), q)
  {
    if |s| > 0 {
      assert forall i :: 0 <= i < |s[1..]| ==> s[1..][i] == s[i + 1];
      FilterAll(p, s[1..], q);
      var a, b := if p(s[0]) then [s[0]] else [], Filter(p, s[1..]);
      assert forall k :: 0 <= k < |b| ==> (a + b)[|a| + k] == b[k];
    }
  }

  /** A filter keeps exactly the elements that pass its test. */
  lemma {:induction false} FilterMembers<T>(p: T -> bool, s: seq<T>, x: T)
    ensures x in Filter(p, s) <==> x in s && p(x)
  {
    if |s| > 0 {
      FilterMembers(p, s[1..], x);
      assert s == [s[0]] + s[1..];
    }
  }

  /** A filter of a concatenation is the concatenation of the filters. */
  lemma {:induction false} FilterConcat<T>(p: T -> bool, a: seq<T>, b: seq<T>)
    ensures Filter(p, a + b) == Filter(p, a) + Filter(p, b)
  {
    if |a| > 0 {
      assert (a + b)[0] == a[0];
      assert (a + b)[1..] == a[1..] + b;
      FilterConcat(p, a[1..], b);
    } else {
      assert a + b == b;
    }
  }

  /** A filter keeps a list whose elements all pass, and empties one whose
      elements all fail. */
  lemma {:induction false} FilterUniform<T>(p: T -> bool, s: seq<T>, pass: bool)
    requires forall k :: 0 <= k < |s| ==> p(s[k]) == pass
    ensures Filter(p, s) == if pass then s else []
  {
    if |s| > 0 {
      assert forall i :: 0 <= i < |s[1..]| ==> s[1..][i] == s[i + 1];
      FilterUniform(p, s[1..], pass);
      assert s == [s[0]] + s[1..];
    }
  }

  /** A filter that exactly one element passes keeps just that element. */
  lemma {:induction false} FilterSingle<T>(p: T -> bool, s: seq<T>, k: nat)
    requires k < |s|
    requires forall i :: 0 <= i < |s| ==> (p(s[i]) <==> i == k)
    ensures Filter(p, s) == [s[k]]
  {
    assert forall i :: 0 <= i < |s[1..]| ==> s[1..][i] == s[i + 1];
    if k == 0 {
      FilterUniform(p, s[1..], false);
    } else {
      FilterSingle(p, s[1..], k - 1);
    }
  }

  /** Filtering a flat map whose images pass exactly when their source element
      passes is the flat map of the filtered elements. */
  lemma {:induction false} FilterFlatMap<A, B>(f: A -> seq<B>, s: seq<A>, p: A -> bool, q: B -> bool)
    requires forall i, k :: 0 <= i < |s| && 0 <= k < |f(s[i])| ==> (q(f(s[i])[k]) <==> p(s[i]))
    ensures Filter(q, FlatMap(f, s)) == FlatMap(f, Filter(p, s))
  {
    if |s| > 0 {
      var x, rest := s[0], s[1..];
      assert forall i :: 0 <= i < |rest| ==> rest[i] == s[i + 1];
      FilterFlatMap(f, rest, p, q);
      assert FlatMap(f, s) == f(x) + FlatMap(f, rest);
      FilterConcat(q, f(x), FlatMap(f, rest));
      FilterUniform(q, f(x), p(x));
      if p(x) {
        var kept := Filter(p, rest);
        assert Filter(p, s) == [x] + kept;
        assert ([x] + kept)[0] == x && ([x] + kept)[1..] == kept;
        assert FlatMap(f, [x] + kept) == f(x) + FlatMap(f, kept);
      } else {
        assert Filter(p, s) == Filter(p, rest);
        assert Filter(q, f(x)) == [];
        assert Filter(q, FlatMap(f, s)) == Filter(q, FlatMap(f, rest));
      }
    }
  }

  /** Two tails of which one is empty can be appended in either order. */
  lemma SwapEmpty<T>(a: seq<T>, b: seq<T>, c: seq<T>)
    requires b == [] || c == []
    ensures (a + b) + c == (a + c) + b
  {
    if b == [] {
      assert a + b == a;
    } else {
      assert a + c == a;
    }
  }

  /** Inserting adds the new element at the end of its own key class and leaves
      the order within every key class as it was. */
  lemma {:induction false} InsertByClass<T>(s: seq<T>, x: T, key: T -> int, p: T -> bool, k: int)
    requires forall y :: p(y) <==> key(y) == k
    ensures Filter(p, InsertBy(s, x, key)) == Filter(p, s) + (if p(x) then [x] else [])
  {
    var xs := if p(x) then [x] else [];
    FilterUniform(p, [x], p(x));
    if |s| == 0 || key(s[|s| - 1]) <= key(x) {
      assert InsertBy(s, x, key) == s + [x];
      FilterConcat(p, s, [x]);
    } else {
      var init, last := s[..|s| - 1], s[|s| - 1];
      var ls := if p(last) then [last] else [];
      assert s == init + [last];
      assert InsertBy(s, x, key) == InsertBy(init, x, key) + [last];
      InsertByClass(init, x, key, p, k);
      FilterConcat(p, InsertBy(init, x, key), [last]);
      FilterConcat(p, init, [last]);
      FilterUniform(p, [last], p(last));
      var fi := Filter(p, init);
      assert Filter(p, InsertBy(s, x, key)) == (fi + xs) + ls;
      assert Filter(p, s) == fi + ls;
      assert xs == [] || ls == [];
      SwapEmpty(fi, xs, ls);
    }
  }

  /** The sort is stable: the elements of any one key class come out in the
      order they went in. */
  lemma {:induction false} SortByStable<T>(s: seq<T>, key: T -> int, p: T -> bool, k: int)
    requires forall y :: p(y) <==> key(y) == k
    ensures Filter(p, SortBy(s, key)) == Filter(p, s)
  {
    if |s| > 0 {
      var init, last := s[..|s| - 1], s[|s| - 1];
      assert s == init + [last];
      SortByStep(s, key);
      SortByStable(init, key, p, k);
      InsertByClass(SortBy(init, key), last, key, p, k);
      FilterConcat(p, init, [last]);
      FilterUniform(p, [last], p(last));
    }
  }
}
