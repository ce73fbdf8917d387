/** The order- and fold-based operations of Sources/THSwiftUtil/Sequences.swift: sums,
    sorting by a transformed key, and minimum and maximum by a transformed key.

    Swift's `Numeric` values and `Comparable` keys are modelled as mathematical
    integers; a transform is a total function `E -> int`. */
module Sequences {
  import opened Wrappers

  // ---------------------------------------------------------------------------
  // Folds and sum()
  // ---------------------------------------------------------------------------

  /** Swift's `reduce(initial, combine)`: a left fold. */
  function FoldLeft<A, B>(combine: (A, B) -> A, initial: A, xs: seq<B>): A
  {
    if xs == [] then initial else FoldLeft(combine, combine(initial, xs[0]), xs[1..])
  }

  /** Folding one more element on the right is one more step of `combine`. */
  lemma {:induction false} FoldLeftSnoc<A, B>(combine: (A, B) -> A, initial: A, xs: seq<B>, x: B)
    ensures FoldLeft(combine, initial, xs + [x]) == combine(FoldLeft(combine, initial, xs), x)
  {
    if xs != [] {
      assert (xs + [x])[1..] == xs[1..] + [x];
      FoldLeftSnoc(combine, combine(initial, xs[0]), xs[1..], x);
    }
  }

  /** Folds with pointwise equal steps agree. */
  lemma {:induction false} FoldLeftPointwise<A, B>(c1: (A, B) -> A, c2: (A, B) -> A, initial: A, xs: seq<B>)
    requires forall a, b :: c1(a, b) == c2(a, b)
    ensures FoldLeft(c1, initial, xs) == FoldLeft(c2, initial, xs)
  {
    if xs != [] {
      FoldLeftPointwise(c1, c2, c1(initial, xs[0]), xs[1..]);
    }
  }

  /** The `+` that `sum()` passes to `reduce`. */
  function Add(total: int, x: int): int
  {
    total + x
  }

  /** The step `total += transform(e)` of `sum(transform)`. */
  function AddTransformed<E>(f: E -> int): (int, E) -> int
  {
    (total: int, e: E) => total + f(e)
  }

  /** What `sum(transform)` computes: starting from 0, add the transform of each
      element from left to right. */
  function SumOf<E>(xs: seq<E>, f: E -> int): int
  {
    FoldLeft(AddTransformed(f), 0, xs)
  }

  /** The sum of nothing is 0, and one more element adds its transform: the two
      equations that the loop of `sum(transform)` follows. */
  lemma {:induction false} SumOfStep<E>(xs: seq<E>, x: E, f: E -> int)
    ensures SumOf([], f) == 0
    ensures SumOf(xs + [x], f) == SumOf(xs, f) + f(x)
  {
    FoldLeftSnoc(AddTransformed(f), 0, xs, x);
  }

  /** Over integers the sum distributes over concatenation. */
  lemma {:induction false} SumOfAppend<E>(xs: seq<E>, ys: seq<E>, f: E -> int)
    ensures SumOf(xs + ys, f) == SumOf(xs, f) + SumOf(ys, f)
  {
    if ys == [] {
      assert xs + ys == xs;
    } else {
      var init, y := ys[..|ys| - 1], ys[|ys| - 1];
      assert ys == init + [y];
      assert xs + ys == (xs + init) + [y];
      SumOfAppend(xs, init, f);
      SumOfStep(xs + init, y, f);
      SumOfStep(init, y, f);
    }
  }

  /** The identity transform. */
  function Identity(x: int): int
  {
    x
  }

  /** The `+` of `reduce(0, +)` is the step of `sum(transform)` with the identity. */
  lemma AddIsIdentityStep()
    ensures forall a, b :: Add(a, b) == AddTransformed(Identity)(a, b)
  {
    forall a, b ensures Add(a, b) == AddTransformed(Identity)(a, b) {
      assert AddTransformed(Identity)(a, b) == a + Identity(b);
    }
  }

  /** `sum()`: `reduce(0, +)`. It is 0 for no elements and is `sum(transform)` with
      the identity transform. */
  function Sum(xs: seq<int>): (r: int)
    ensures xs == [] ==> r == 0
    ensures r == SumOf(xs, Identity)
  {
    AddIsIdentityStep();
    FoldLeftPointwise(Add, AddTransformed(Identity), 0, xs);
    FoldLeft(Add, 0, xs)
  }

  /** `sum(transform)`: a running total to which each transformed element is added. */
  method SumBy<E>(xs: seq<E>, f: E -> int) returns (total: int)
    ensures total == SumOf(xs, f)
  {
    total := 0;
    for i := 0 to |xs|
      invariant total == SumOf(xs[..i], f)
    {
      assert xs[..i + 1] == xs[..i] + [xs[i]];
      SumOfStep(xs[..i], xs[i], f);
      total := total + f(xs[i]);
    }
    assert xs[..|xs|] == xs;
  }

  // ---------------------------------------------------------------------------
  // sum(transform) with a transform that throws
  // ---------------------------------------------------------------------------

  /** `sum(transform)` when the transform may throw (`rethrows`): elements are
      transformed from left to right and the first error ends the call. */
  function TrySumFrom<E, X>(total: int, xs: seq<E>, f: E -> Result<int, X>): Result<int, X>
    decreases |xs|
  {
    if xs == [] then Success(total)
    else
      match f(xs[0])
      case Failure(error) => Failure(error)
      case Success(v) => TrySumFrom(total + v, xs[1..], f)
  }

  /** When no transform throws, the result is the plain sum of the values. */
  lemma {:induction false} TrySumSucceeds<E, X>(total: int, xs: seq<E>, f: E -> Result<int, X>, g: E -> int)
    requires forall i :: 0 <= i < |xs| ==> f(xs[i]) == Success(g(xs[i]))
    ensures TrySumFrom(total, xs, f) == Success(total + SumOf(xs, g))
    decreases |xs|
  {
    if xs == [] {
    } else {
      assert f(xs[0]) == Success(g(xs[0]));
      TrySumSucceeds(total + g(xs[0]), xs[1..], f, g);
      assert xs == [xs[0]] + xs[1..];
      SumOfAppend([xs[0]], xs[1..], g);
      SumOfStep([], xs[0], g);
      assert [] + [xs[0]] == [xs[0]];
    }
  }

  /** When the transform first throws at position `k`, the call fails with that
      error, whatever the later elements are. */
  lemma {:induction false} TrySumFails<E, X>(total: int, xs: seq<E>, f: E -> Result<int, X>, k: nat)
    requires k < |xs| && f(xs[k]).Failure?
    requires forall i :: 0 <= i < k ==> f(xs[i]).Success?
    ensures TrySumFrom(total, xs, f) == Failure(f(xs[k]).error)
    decreases k
  {
    if k > 0 {
      TrySumFails(total + f(xs[0]).value, xs[1..], f, k - 1);
    }
  }

  /** `sum(transform)` with a throwing transform: returns at the first error. */
  method TrySumBy<E, X>(xs: seq<E>, f: E -> Result<int, X>) returns (r: Result<int, X>)
    ensures r == TrySumFrom(0, xs, f)
  {
    var total := 0;
    for i := 0 to |xs|
      invariant TrySumFrom(0, xs, f) == TrySumFrom(total, xs[i..], f)
    {
      assert xs[i..][1..] == xs[i + 1..];
      var v := f(xs[i]);
      if v.Failure? {
        return Failure(v.error);
      }
      total := total + v.value;
    }
    r := Success(total);
  }

  // ---------------------------------------------------------------------------
  // sortedBy and sortedByDescending
  // ---------------------------------------------------------------------------

  /** What `sorted(by:)` demands of its comparator: a strict order. */
  ghost predicate StrictOrder<T(!new)>(less: (T, T) -> bool)
  {
    && (forall a :: !less(a, a))
    && (forall a, b, c :: less(a, b) && less(b, c) ==> less(a, c))
  }

  /** No element is strictly ahead of an element before it. */
  ghost predicate SortedUnder<T>(s: seq<T>, less: (T, T) -> bool)
  {
    forall i, j :: 0 <= i < j < |s| ==> !less(s[j], s[i])
  }

  /** Puts `x` into the sorted `s`, ahead of the first element it is less than. */
  function Insert<T(!new)>(x: T, s: seq<T>, less: (T, T) -> bool): (r: seq<T>)
    requires StrictOrder(less) && SortedUnder(s, less)
    ensures SortedUnder(r, less)
    ensures multiset(r) == multiset(s) + multiset{x}
  {
    if s == [] then [x]
    else if less(x, s[0]) then
      InsertAhead(x, s, less);
      [x] + s
    else
      var rest := Insert(x, s[1..], less);
      assert s == [s[0]] + s[1..];
      InsertBehind(s[0], x, s[1..], rest, less);
      [s[0]] + rest
  }

  /** An element less than the head of a sorted sequence can go in front of it. */
  lemma InsertAhead<T(!new)>(x: T, s: seq<T>, less: (T, T) -> bool)
    requires StrictOrder(less) && SortedUnder(s, less)
    requires s != [] && less(x, s[0])
    ensures SortedUnder([x] + s, less)
  {
  }

  /** A head not after `x` stays in front when `x` is inserted into the tail. */
  lemma InsertBehind<T(!new)>(head: T, x: T, tail: seq<T>, rest: seq<T>, less: (T, T) -> bool)
    requires SortedUnder([head] + tail, less) && SortedUnder(rest, less)
    requires !less(x, head)
    requires multiset(rest) == multiset(tail) + multiset{x}
    ensures SortedUnder([head] + rest, less)
  {
    forall j | 0 <= j < |rest| ensures !less(rest[j], head) {
      assert rest[j] in multiset(rest);
      if rest[j] != x {
        assert rest[j] in multiset(tail);
        var k :| 0 <= k < |tail| && tail[k] == rest[j];
        assert ([head] + tail)[k + 1] == tail[k] && ([head] + tail)[0] == head;
      }
    }
  }

  /** Swift's `sorted(by:)`, which this library only calls. It is not part of this
      model's source; it is stood for by an insertion sort under the comparator. */
  function SortedWith<T(!new)>(xs: seq<T>, less: (T, T) -> bool): (r: seq<T>)
    requires StrictOrder(less)
    ensures SortedUnder(r, less)
    ensures multiset(r) == multiset(xs)
  {
    if xs == [] then []
    else
      var init, x := xs[..|xs| - 1], xs[|xs| - 1];
      assert xs == init + [x];
      Insert(x, SortedWith(init, less), less)
  }

  /** The comparator closure of `sortedBy`: `transform(lhs) < transform(rhs)`. */
  function KeyLess<T>(f: T -> int): (T, T) -> bool
  {
    (lhs: T, rhs: T) => f(lhs) < f(rhs)
  }

  /** The comparator closure of `sortedByDescending`: `transform(rhs) < transform(lhs)`. */
  function KeyGreater<T>(f: T -> int): (T, T) -> bool
  {
    (lhs: T, rhs: T) => f(rhs) < f(lhs)
  }

  /** `sortedBy`: a permutation of the input whose keys do not decrease. */
  function SortedBy<T(!new)>(xs: seq<T>, f: T -> int): (r: seq<T>)
    ensures multiset(r) == multiset(xs)
    ensures forall i, j :: 0 <= i < j < |r| ==> f(r[i]) <= f(r[j])
  {
    SortedWith(xs, KeyLess(f))
  }

  /** `sortedByDescending`: a permutation of the input whose keys do not increase. */
  function SortedByDescending<T(!new)>(xs: seq<T>, f: T -> int): (r: seq<T>)
    ensures multiset(r) == multiset(xs)
    ensures forall i, j :: 0 <= i < j < |r| ==> f(r[i]) >= f(r[j])
  {
    SortedWith(xs, KeyGreater(f))
  }

  // ---------------------------------------------------------------------------
  // min(transform) and max(transform)
  // ---------------------------------------------------------------------------

  /** Position of the first element whose key is smallest. */
  function FirstMinIndex<T>(xs: seq<T>, f: T -> int): (k: nat)
    requires |xs| > 0
    ensures k < |xs|
    ensures forall j :: 0 <= j < |xs| ==> f(xs[k]) <= f(xs[j])
    ensures forall j :: 0 <= j < k ==> f(xs[k]) < f(xs[j])
  {
    var n := |xs|;
    if n == 1 then 0
    else
      var k := FirstMinIndex(xs[..n - 1], f);
      if f(xs[n - 1]) < f(xs[k]) then n - 1 else k
  }

  /** Position of the first element whose key is largest. */
  function FirstMaxIndex<T>(xs: seq<T>, f: T -> int): (k: nat)
    requires |xs| > 0
    ensures k < |xs|
    ensures forall j :: 0 <= j < |xs| ==> f(xs[k]) >= f(xs[j])
    ensures forall j :: 0 <= j < k ==> f(xs[k]) > f(xs[j])
  {
    var n := |xs|;
    if n == 1 then 0
    else
      var k := FirstMaxIndex(xs[..n - 1], f);
      if f(xs[n - 1]) > f(xs[k]) then n - 1 else k
  }

  /** `min(transform)`: keeps the best (element, key) pair, replaced only by a
      strictly smaller key, so the first of several minimal elements wins. */
  method Min<T>(xs: seq<T>, f: T -> int) returns (r: Option<T>)
    ensures r.None? <==> xs == []
    ensures r.Some? ==> forall j :: 0 <= j < |xs| ==> f(r.value) <= f(xs[j])
    ensures r.Some? ==> r.value == xs[FirstMinIndex(xs, f)]
  {
    var best: Option<(T, int)> := None;
    ghost var at := 0;
    for i := 0 to |xs|
      invariant best.None? <==> i == 0
      invariant i > 0 ==> at == FirstMinIndex(xs[..i], f) && best == Some((xs[at], f(xs[at])))
    {
      assert xs[..i + 1][..i] == xs[..i];
      var val := f(xs[i]);
      if best.None? || val < best.value.1 {
        best := Some((xs[i], val));
        at := i;
      }
    }
    assert xs[..|xs|] == xs;
    r := if best.Some? then Some(best.value.0) else None;
  }

  /** `max(transform)`: as `min`, with a strictly larger key replacing the best. */
  method Max<T>(xs: seq<T>, f: T -> int) returns (r: Option<T>)
    ensures r.None? <==> xs == []
    ensures r.Some? ==> forall j :: 0 <= j < |xs| ==> f(r.value) >= f(xs[j])
    ensures r.Some? ==> r.value == xs[FirstMaxIndex(xs, f)]
  {
    var best: Option<(T, int)> := None;
    ghost var at := 0;
    for i := 0 to |xs|
      invariant best.None? <==> i == 0
      invariant i > 0 ==> at == FirstMaxIndex(xs[..i], f) && best == Some((xs[at], f(xs[at])))
    {
      assert xs[..i + 1][..i] == xs[..i];
      var val := f(xs[i]);
      if best.None? || val > best.value.1 {
        best := Some((xs[i], val));
        at := i;
      }
    }
    assert xs[..|xs|] == xs;
    r := if best.Some? then Some(best.value.0) else None;
  }
}
