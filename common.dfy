/** Optional values and results, the shapes the TypeScript code expresses
    with `undefined` and with exceptions. */
module Wrappers {

  datatype Option<+T> = None | Some(value: T) {
    function GetOr(default: T): T {
      match this
      case Some(v) => v
      case None => default
    }
  }

  datatype Result<+R, +E> = Success(value: R) | Failure(error: E)
}

/** Sequences used as JavaScript `Set`s: a `Set` iterates in insertion order
    and holds each element once. */
module Collections {

  /** No element occurs twice. */
  predicate Distinct<T(==)>(s: seq<T>) {
    forall i, j :: 0 <= i < j < |s| ==> s[i] != s[j]
  }

  /** `new Set(xs)` read back in iteration order: each element at the place
      of its first occurrence. */
  function Dedup<T(==)>(xs: seq<T>): (r: seq<T>)
    ensures Distinct(r)
    ensures forall i :: 0 <= i < |xs| ==> xs[i] in r
    ensures forall i :: 0 <= i < |r| ==> r[i] in xs
    ensures |r| <= |xs|
  {
    if xs == [] then []
    else
      var rest := Dedup(xs[..|xs| - 1]);
      var last := xs[|xs| - 1];
      assert xs == xs[..|xs| - 1] + [last];
      if last in rest then rest else rest + [last]
  }

  /** A sequence without repetitions is its own set: converting it to a
      `Set` and back changes nothing. */
  lemma {:induction false} DedupOfDistinct<T>(xs: seq<T>)
    requires Distinct(xs)
    ensures Dedup(xs) == xs
  {
    if xs != [] {
      var init := xs[..|xs| - 1];
      assert Distinct(init);
      DedupOfDistinct(init);
      assert xs[|xs| - 1] !in init;
      assert init + [xs[|xs| - 1]] == xs;
    }
  }

  /** Appending an element already present leaves the set unchanged, so
      `[A, B, A]` and `[A, B]` make the same `Set`. */
  lemma DedupAbsorbsRepeat<T>(xs: seq<T>, x: T)
    requires x in xs
    ensures Dedup(xs + [x]) == Dedup(xs)
  {
    assert (xs + [x])[..|xs + [x]| - 1] == xs;
  }

  /** `xs.filter(p)`: the elements satisfying `p`, in order. */
  function Filter<T>(xs: seq<T>, p: T -> bool): (r: seq<T>)
    ensures |r| <= |xs|
    ensures forall k :: 0 <= k < |r| ==> p(r[k])
  {
    if xs == [] then []
    else
      var init := Filter(xs[..|xs| - 1], p);
      var last := xs[|xs| - 1];
      if p(last) then init + [last] else init
  }

  /** The positions `Filter` keeps: the indices are strictly increasing
      and the result is exactly the elements at those indices. */
  ghost function FilterIndices<T>(xs: seq<T>, p: T -> bool): (idx: seq<nat>)
    ensures |idx| == |Filter(xs, p)|
    ensures forall k :: 0 <= k < |idx| ==> idx[k] < |xs| && Filter(xs, p)[k] == xs[idx[k]]
    ensures forall k, l :: 0 <= k < l < |idx| ==> idx[k] < idx[l]
  {
    if xs == [] then []
    else
      var n := |xs| - 1;
      var idx0 := FilterIndices(xs[..n], p);
      assert forall i :: 0 <= i < n ==> xs[..n][i] == xs[i];
      if p(xs[n]) then idx0 + [n] else idx0
  }

  /** The selection is complete: an index is kept exactly when its element
      satisfies `p`. */
  lemma {:induction false} FilterIndicesComplete<T>(xs: seq<T>, p: T -> bool)
    ensures forall i :: 0 <= i < |xs| ==> (p(xs[i]) <==> i in FilterIndices(xs, p))
  {
    if xs != [] {
      var n := |xs| - 1;
      FilterIndicesComplete(xs[..n], p);
      var idx0 := FilterIndices(xs[..n], p);
      var idx := FilterIndices(xs, p);
      assert idx == if p(xs[n]) then idx0 + [n] else idx0;
      forall i | 0 <= i < |xs|
        ensures p(xs[i]) <==> i in idx
      {
        if i < n {
          assert xs[..n][i] == xs[i];
          assert i in idx <==> i in idx0;
        } else {
          assert n !in idx0;
        }
      }
    }
  }

  /** Filtering what a filter kept changes nothing. */
  lemma {:induction false} FilterIdempotent<T>(xs: seq<T>, p: T -> bool)
    ensures Filter(Filter(xs, p), p) == Filter(xs, p)
  {
    if xs != [] {
      var init := xs[..|xs| - 1];
      FilterIdempotent(init, p);
      var f := Filter(init, p);
      if p(xs[|xs| - 1]) {
        assert (f + [xs[|xs| - 1]])[..|f|] == f;
      }
    }
  }

  /** Filtering distributes over concatenation. */
  lemma {:induction false} FilterAppend<T>(a: seq<T>, b: seq<T>, p: T -> bool)
    ensures Filter(a + b, p) == Filter(a, p) + Filter(b, p)
  {
    if b == [] {
      assert a + b == a;
    } else {
      var b0 := b[..|b| - 1];
      assert (a + b)[..|a + b| - 1] == a + b0;
      assert (a + b)[|a + b| - 1] == b[|b| - 1];
      FilterAppend(a, b0, p);
    }
  }

  /** A filter every element passes keeps the whole sequence. */
  lemma {:induction false} FilterKeepsAll<T>(s: seq<T>, p: T -> bool)
    requires forall i :: 0 <= i < |s| ==> p(s[i])
    ensures Filter(s, p) == s
  {
    if s != [] {
      FilterKeepsAll(s[..|s| - 1], p);
      assert s[..|s| - 1] + [s[|s| - 1]] == s;
    }
  }

  /** Filtering by `p` and then by `q` is filtering by their conjunction. */
  lemma {:induction false} FilterCompose<T>(s: seq<T>, p: T -> bool, q: T -> bool, pq: T -> bool)
    requires forall x :: pq(x) == (p(x) && q(x))
    ensures Filter(Filter(s, p), q) == Filter(s, pq)
  {
    if s != [] {
      var init := s[..|s| - 1];
      var last := s[|s| - 1];
      FilterCompose(init, p, q, pq);
      var f := Filter(init, p);
      if p(last) {
        assert (f + [last])[..|f + [last]| - 1] == f;
      }
    }
  }

  /** Removing the one element that fails `q` is filtering by `q`. */
  lemma RemoveOneIsFilter<T>(s: seq<T>, k: nat, q: T -> bool)
    requires k < |s| && !q(s[k])
    requires forall j :: 0 <= j < |s| && j != k ==> q(s[j])
    ensures s[..k] + s[k + 1..] == Filter(s, q)
  {
    var before, after := s[..k], s[k + 1..];
    assert forall i :: 0 <= i < |before| ==> before[i] == s[i];
    assert forall i :: 0 <= i < |after| ==> after[i] == s[k + 1 + i];
    assert s == (before + [s[k]]) + after;
    FilterAroundFailing(before, s[k], after, q);
  }

  lemma FilterAroundFailing<T>(before: seq<T>, x: T, after: seq<T>, q: T -> bool)
    requires forall i :: 0 <= i < |before| ==> q(before[i])
    requires !q(x)
    requires forall i :: 0 <= i < |after| ==> q(after[i])
    ensures Filter((before + [x]) + after, q) == before + after
  {
    calc {
      Filter((before + [x]) + after, q);
      { FilterAppend(before + [x], after, q); }
      Filter(before + [x], q) + Filter(after, q);
      { FilterAppend(before, [x], q); FilterDropsFailing(x, q); }
      Filter(before, q) + Filter(after, q);
      { FilterKeepsAll(before, q); FilterKeepsAll(after, q); }
      before + after;
    }
  }

  lemma FilterDropsFailing<T>(x: T, q: T -> bool)
    requires !q(x)
    ensures Filter([x], q) == []
  {
    assert [x][..0] == [];
  }

  /** How many times `x` occurs in `s`; for text and a newline character,
      the number of lines a detail string holds. */
  function Count<T(==)>(s: seq<T>, x: T): nat {
    if s == [] then 0
    else Count(s[..|s| - 1], x) + (if s[|s| - 1] == x then 1 else 0)
  }

  /** Counting distributes over concatenation. */
  lemma {:induction false} CountAppend<T>(a: seq<T>, b: seq<T>, x: T)
    ensures Count(a + b, x) == Count(a, x) + Count(b, x)
  {
    if b != [] {
      var b0 := b[..|b| - 1];
      assert (a + b)[..|a + b| - 1] == a + b0;
      CountAppend(a, b0, x);
    } else {
      assert a + b == a;
    }
  }

  /** A sequence without `x` holds no occurrence of it. */
  lemma {:induction false} CountAbsent<T>(s: seq<T>, x: T)
    requires x !in s
    ensures Count(s, x) == 0
  {
    if s != [] {
      assert s[..|s| - 1] + [s[|s| - 1]] == s;
      CountAbsent(s[..|s| - 1], x);
    }
  }

  /** Appending a line without `x` and then `x` adds one occurrence. */
  lemma CountTerminatedLine<T>(s: seq<T>, line: seq<T>, x: T)
    requires x !in line
    ensures Count(s + line + [x], x) == Count(s, x) + 1
  {
    CountAbsent(line, x);
    CountAppend(s, line, x);
    CountAppend(s + line, [x], x);
    assert [x][..0] == [];
  }

  /** `parts.join(sep)`: the parts in order with `sep` between neighbours. */
  function Join<T>(parts: seq<seq<T>>, sep: seq<T>): seq<T> {
    if parts == [] then []
    else if |parts| == 1 then parts[0]
    else Join(parts[..|parts| - 1], sep) + sep + parts[|parts| - 1]
  }

  /** The parts one after another. */
  function Concat<T>(parts: seq<seq<T>>): seq<T> {
    if parts == [] then [] else Concat(parts[..|parts| - 1]) + parts[|parts| - 1]
  }

  /** Parts that hold `x` once each hold it, together, once per part. */
  lemma {:induction false} CountConcat<T>(parts: seq<seq<T>>, x: T)
    requires forall k :: 0 <= k < |parts| ==> Count(parts[k], x) == 1
    ensures Count(Concat(parts), x) == |parts|
  {
    if parts != [] {
      CountConcat(parts[..|parts| - 1], x);
      CountAppend(Concat(parts[..|parts| - 1]), parts[|parts| - 1], x);
    }
  }
}
