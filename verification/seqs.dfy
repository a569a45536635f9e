/** Generic sequence combinators that mirror the JavaScript array methods
    the lecture and exam handlers use (`map`, `filter`, `flat`, `slice`, `new Set`). */
module Seqs {
  import opened Wrappers

  /** `xs.map(f)`. */
  function Map<A, B>(f: A -> B, xs: seq<A>): (r: seq<B>)
    ensures |r| == |xs|
    ensures forall i :: 0 <= i < |xs| ==> r[i] == f(xs[i])
  {
    seq(|xs|, i requires 0 <= i < |xs| => f(xs[i]))
  }

  /** `a` can be obtained from `b` by deleting elements: order is preserved. */
  predicate IsSubsequence<T(==)>(a: seq<T>, b: seq<T>)
    decreases |b|
  {
    |a| == 0 || (|b| > 0 && ((a[0] == b[0] && IsSubsequence(a[1..], b[1..])) || IsSubsequence(a, b[1..])))
  }

  /** Every sequence is a subsequence of itself (nothing deleted). */
  lemma {:induction false} SubsequenceSelf<T>(xs: seq<T>)
    ensures IsSubsequence(xs, xs)
    decreases |xs|
  {
    if |xs| > 0 {
      SubsequenceSelf(xs[1..]);
    }
  }

  /** `xs.filter(p)`: exactly the elements satisfying `p`, each as often as in `xs`, in order. */
  function Filter<T(==,!new)>(p: T -> bool, xs: seq<T>): (r: seq<T>)
    ensures forall i :: 0 <= i < |r| ==> p(r[i])
    ensures forall x :: multiset(r)[x] == if p(x) then multiset(xs)[x] else 0
    ensures IsSubsequence(r, xs)
    ensures |r| <= |xs|
  {
    if |xs| == 0 then []
    else
      var rest := Filter(p, xs[1..]);
      assert multiset(xs) == multiset{xs[0]} + multiset(xs[1..]) by {
        assert xs == [xs[0]] + xs[1..];
      }
      if p(xs[0]) then
        var r := [xs[0]] + rest;
        assert r[0] == xs[0] && r[1..] == rest;
        assert multiset(r) == multiset{xs[0]} + multiset(rest);
        r
      else rest
  }

  /** The three parts of `a + m + b`, recovered by slicing. */
  lemma {:induction false} ThreePartSlices<T>(a: seq<T>, m: seq<T>, b: seq<T>)
    ensures (a + m + b)[..|a|] == a
    ensures (a + m + b)[|a|..] == m + b
    ensures (a + m + b)[|a| + |m|..] == b
  {
  }

  lemma {:induction false} FilterAppend<T(!new)>(p: T -> bool, a: seq<T>, b: seq<T>)
    ensures Filter(p, a + b) == Filter(p, a) + Filter(p, b)
    decreases |a|
  {
    if |a| == 0 {
      assert a + b == b;
    } else {
      assert (a + b)[1..] == a[1..] + b;
      FilterAppend(p, a[1..], b);
    }
  }

  /** Filtering with a predicate that holds everywhere keeps the sequence. */
  lemma {:induction false} FilterAll<T(!new)>(p: T -> bool, xs: seq<T>)
    requires forall i :: 0 <= i < |xs| ==> p(xs[i])
    ensures Filter(p, xs) == xs
    decreases |xs|
  {
    if |xs| > 0 {
      FilterAll(p, xs[1..]);
    }
  }

  /** Filtering with a predicate that holds nowhere leaves nothing. */
  lemma {:induction false} FilterNone<T(!new)>(p: T -> bool, xs: seq<T>)
    requires forall i :: 0 <= i < |xs| ==> !p(xs[i])
    ensures Filter(p, xs) == []
    decreases |xs|
  {
    if |xs| > 0 {
      FilterNone(p, xs[1..]);
    }
  }

  /** When exactly one position satisfies the predicate, the filter keeps just that element. */
  lemma {:induction false} FilterSingle<T(!new)>(p: T -> bool, xs: seq<T>, j: nat)
    requires j < |xs| && p(xs[j])
    requires forall i :: 0 <= i < |xs| && i != j ==> !p(xs[i])
    ensures Filter(p, xs) == [xs[j]]
    decreases |xs|
  {
    if j == 0 {
      FilterNone(p, xs[1..]);
    } else {
      FilterSingle(p, xs[1..], j - 1);
    }
  }

  /** Filters with predicates that agree everywhere agree. */
  lemma {:induction false} FilterCongruent<T(!new)>(p: T -> bool, q: T -> bool, xs: seq<T>)
    requires forall x :: p(x) == q(x)
    ensures Filter(p, xs) == Filter(q, xs)
    decreases |xs|
  {
    if |xs| > 0 {
      FilterCongruent(p, q, xs[1..]);
    }
  }

  /** Concatenation of a sequence of sequences (`arr.flat()`). */
  function Concat<T>(xss: seq<seq<T>>): seq<T>
    decreases |xss|
  {
    if |xss| == 0 then [] else xss[0] + Concat(xss[1..])
  }

  lemma {:induction false} ConcatAppend<T>(a: seq<seq<T>>, b: seq<seq<T>>)
    ensures Concat(a + b) == Concat(a) + Concat(b)
    decreases |a|
  {
    if |a| == 0 {
      assert a + b == b;
    } else {
      assert (a + b)[1..] == a[1..] + b;
      ConcatAppend(a[1..], b);
    }
  }

  /** `xs.flatMap(f)`: the per-element results concatenated in order. */
  function FlatMap<A, B>(f: A -> seq<B>, xs: seq<A>): seq<B>
    decreases |xs|
  {
    if |xs| == 0 then [] else f(xs[0]) + FlatMap(f, xs[1..])
  }

  lemma {:induction false} FlatMapAppend<A, B>(f: A -> seq<B>, a: seq<A>, b: seq<A>)
    ensures FlatMap(f, a + b) == FlatMap(f, a) + FlatMap(f, b)
    decreases |a|
  {
    if |a| == 0 {
      assert a + b == b;
    } else {
      assert (a + b)[1..] == a[1..] + b;
      FlatMapAppend(f, a[1..], b);
    }
  }

  /** Every element of a flattened result comes from the result of some input element. */
  lemma {:induction false} FlatMapMember<A, B>(f: A -> seq<B>, xs: seq<A>, y: B)
    requires y in FlatMap(f, xs)
    ensures exists i :: 0 <= i < |xs| && y in f(xs[i])
    decreases |xs|
  {
    if y !in f(xs[0]) {
      FlatMapMember(f, xs[1..], y);
      var i :| 0 <= i < |xs[1..]| && y in f(xs[1..][i]);
      assert y in f(xs[i + 1]);
    }
  }

  /** Flattening the mapped results is the same as mapping then concatenating. */
  lemma {:induction false} FlatMapIsConcatMap<A, B>(f: A -> seq<B>, xs: seq<A>)
    ensures FlatMap(f, xs) == Concat(Map(f, xs))
    decreases |xs|
  {
    if |xs| > 0 {
      FlatMapIsConcatMap(f, xs[1..]);
      assert Map(f, xs)[1..] == Map(f, xs[1..]);
    }
  }

  /** Keeps the `Some` results of `f`, in order (a `map` returning `null` then `filter(Boolean)`). */
  function FilterMap<A, B>(f: A -> Option<B>, xs: seq<A>): (r: seq<B>)
    ensures |r| <= |xs|
    decreases |xs|
  {
    if |xs| == 0 then []
    else match f(xs[0])
      case Some(y) => [y] + FilterMap(f, xs[1..])
      case None => FilterMap(f, xs[1..])
  }

  lemma {:induction false} FilterMapAppend<A, B>(f: A -> Option<B>, a: seq<A>, b: seq<A>)
    ensures FilterMap(f, a + b) == FilterMap(f, a) + FilterMap(f, b)
    decreases |a|
  {
    if |a| == 0 {
      assert a + b == b;
    } else {
      assert (a + b)[1..] == a[1..] + b;
      FilterMapAppend(f, a[1..], b);
    }
  }

  /** The inputs on which `f` yields a value. */
  function DefinedAt<A, B>(f: A -> Option<B>): A -> bool {
    x => f(x).Some?
  }

  /** `FilterMap` keeps one value per input on which `f` is defined, in input order. */
  lemma {:induction false} FilterMapSelect<A(!new), B>(f: A -> Option<B>, xs: seq<A>)
    ensures |FilterMap(f, xs)| == |Filter(DefinedAt(f), xs)|
    ensures forall i :: 0 <= i < |FilterMap(f, xs)| ==> f(Filter(DefinedAt(f), xs)[i]) == Some(FilterMap(f, xs)[i])
    decreases |xs|
  {
    if |xs| > 0 {
      FilterMapSelect(f, xs[1..]);
    }
  }

  /** A property every value of `f` has, every kept value has. */
  lemma {:induction false} FilterMapAll<A(!new), B>(f: A -> Option<B>, xs: seq<A>, p: B -> bool)
    requires forall x :: f(x).Some? ==> p(f(x).value)
    ensures forall i :: 0 <= i < |FilterMap(f, xs)| ==> p(FilterMap(f, xs)[i])
    decreases |xs|
  {
    if |xs| > 0 {
      FilterMapAll(f, xs[1..], p);
    }
  }

  /** No element occurs twice. */
  predicate NoDuplicates<T(==)>(xs: seq<T>) {
    forall i, j :: 0 <= i < j < |xs| ==> xs[i] != xs[j]
  }

  /** Index of the first occurrence of `x` in `xs`. */
  function IndexOf<T(==)>(xs: seq<T>, x: T): (i: nat)
    requires x in xs
    ensures i < |xs| && xs[i] == x
    ensures forall j :: 0 <= j < i ==> xs[j] != x
  {
    if xs[0] == x then 0 else 1 + IndexOf(xs[1..], x)
  }

  /** `[...new Set(xs)]` skipping the values already in `seen`: first occurrences, in order. */
  function DedupFrom<T(==,!new)>(xs: seq<T>, seen: set<T>): (r: seq<T>)
    ensures NoDuplicates(r)
    ensures forall x :: x in r <==> x in xs && x !in seen
    ensures IsSubsequence(r, xs)
    ensures forall i, j :: 0 <= i < j < |r| ==> IndexOf(xs, r[i]) < IndexOf(xs, r[j])
    decreases |xs|
  {
    if |xs| == 0 then []
    else
      var x := xs[0];
      assert xs == [x] + xs[1..];
      if x in seen then
        var rest := DedupFrom(xs[1..], seen);
        assert forall i :: 0 <= i < |rest| ==> rest[i] != x && IndexOf(xs, rest[i]) == 1 + IndexOf(xs[1..], rest[i]);
        rest
      else
        var rest := DedupFrom(xs[1..], seen + {x});
        assert forall i :: 0 <= i < |rest| ==> rest[i] != x && IndexOf(xs, rest[i]) == 1 + IndexOf(xs[1..], rest[i]);
        var r := [x] + rest;
        assert r[1..] == rest;
        assert forall i :: 1 <= i < |r| ==> r[i] == rest[i - 1];
        r
  }

  /** `[...new Set(xs)]`. */
  function Dedup<T(==,!new)>(xs: seq<T>): (r: seq<T>)
    ensures NoDuplicates(r)
    ensures forall x :: x in r <==> x in xs
    ensures IsSubsequence(r, xs)
    ensures forall i, j :: 0 <= i < j < |r| ==> IndexOf(xs, r[i]) < IndexOf(xs, r[j])
  {
    DedupFrom(xs, {})
  }

  /** A duplicate-free sequence none of whose elements were seen is kept unchanged. */
  lemma {:induction false} DedupFromUnique<T(!new)>(xs: seq<T>, seen: set<T>)
    requires NoDuplicates(xs)
    requires forall i :: 0 <= i < |xs| ==> xs[i] !in seen
    ensures DedupFrom(xs, seen) == xs
    decreases |xs|
  {
    if |xs| > 0 {
      DedupFromUnique(xs[1..], seen + {xs[0]});
    }
  }

  /** Removing repeats twice is the same as once. */
  lemma DedupIdempotent<T(!new)>(xs: seq<T>)
    ensures Dedup(Dedup(xs)) == Dedup(xs)
  {
    DedupFromUnique(Dedup(xs), {});
  }

  /** The end index `Array.prototype.slice(0, end)` uses: a negative end counts from the back,
      NaN counts as 0. */
  function SliceEnd(end: Option<int>, n: nat): (k: nat)
    ensures k <= n
    ensures end.Some? && 0 <= end.value ==> k == if end.value < n then end.value else n
    ensures end.Some? && end.value < 0 ==> k == if n + end.value < 0 then 0 else n + end.value
    ensures end.None? ==> k == 0
  {
    match end
    case None => 0
    case Some(e) =>
      if e < 0 then (if n + e < 0 then 0 else n + e)
      else if e < n then e else n
  }
}
