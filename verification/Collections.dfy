/** The hash-based operations of Sources/THSwiftUtil/Collections.swift: de-duplication
    in first-seen order, distinct counts, grouping by a key, and counting by a predicate.

    Swift's `Set` and `Dictionary` become Dafny `set` and `map`; `Hashable` becomes
    equality support (`T(==)`); a transform is a total function `E -> K`. */
module Collections {

  // ---------------------------------------------------------------------------
  // Vocabulary of the specification
  // ---------------------------------------------------------------------------

  /** The values occurring in `xs`: what a Swift `Set` filled from `xs` holds. */
  function Elems<T(==)>(xs: seq<T>): set<T>
  {
    set x | x in xs
  }

  /** `f` applied to every element of `xs`, in order: every input element's image
      occurs, and every value that occurs is the image of an input element. */
  function Mapped<E, K>(xs: seq<E>, f: E -> K): (ys: seq<K>)
    ensures forall e :: e in xs ==> f(e) in ys
    ensures forall k :: k in ys ==> exists e :: e in xs && f(e) == k
  {
    var ys := seq(|xs|, i requires 0 <= i < |xs| => f(xs[i]));
    MappedImages(xs, f, ys);
    ys
  }

  /** A pointwise image of `xs` holds the images of the elements of `xs` and nothing else. */
  lemma MappedImages<E, K>(xs: seq<E>, f: E -> K, ys: seq<K>)
    requires |ys| == |xs| && forall i :: 0 <= i < |xs| ==> ys[i] == f(xs[i])
    ensures forall e :: e in xs ==> f(e) in ys
    ensures forall k :: k in ys ==> exists e :: e in xs && f(e) == k
  {
    forall e | e in xs ensures f(e) in ys {
      var i :| 0 <= i < |xs| && xs[i] == e;
      assert ys[i] == f(e);
    }
    forall k | k in ys ensures exists e :: e in xs && f(e) == k {
      var i :| 0 <= i < |ys| && ys[i] == k;
      assert xs[i] in xs;
    }
  }

  predicate NoDuplicates<T(==)>(s: seq<T>)
  {
    forall i, j :: 0 <= i < j < |s| ==> s[i] != s[j]
  }

  /** Position of the first occurrence of `x` in `xs`. */
  function FirstIndex<T(==)>(xs: seq<T>, x: T): (i: nat)
    requires x in xs
    ensures i < |xs| && xs[i] == x
    ensures x !in xs[..i]
  {
    var init := xs[..|xs| - 1];
    if x in init then
      var i := FirstIndex(init, x);
      assert xs[..i] == init[..i];
      i
    else
      |xs| - 1
  }

  // ---------------------------------------------------------------------------
  // distinct()
  // ---------------------------------------------------------------------------

  /** What the loop of `distinct()` builds from `xs`: scanning left to right, an
      element is appended exactly when it did not occur earlier in the input. */
  function FirstSeen<T(==)>(xs: seq<T>): seq<T>
  {
    if xs == [] then []
    else
      var init, x := xs[..|xs| - 1], xs[|xs| - 1];
      if x in init then FirstSeen(init) else FirstSeen(init) + [x]
  }

  /** The de-duplicated sequence holds exactly the values of the input. */
  lemma {:induction false} FirstSeenElems<T>(xs: seq<T>)
    ensures forall y :: y in FirstSeen(xs) <==> y in xs
  {
    if xs != [] {
      var init, x := xs[..|xs| - 1], xs[|xs| - 1];
      FirstSeenElems(init);
      assert xs == init + [x];
    }
  }

  /** No value is kept twice. */
  lemma {:induction false} FirstSeenNoDuplicates<T>(xs: seq<T>)
    ensures NoDuplicates(FirstSeen(xs))
  {
    if xs != [] {
      var init, x := xs[..|xs| - 1], xs[|xs| - 1];
      FirstSeenNoDuplicates(init);
      FirstSeenElems(init);
    }
  }

  /** Kept values appear in the order of their first occurrences in the input. */
  lemma {:induction false} FirstSeenOrder<T>(xs: seq<T>)
    ensures forall y :: y in FirstSeen(xs) ==> y in xs
    ensures forall i, j :: 0 <= i < j < |FirstSeen(xs)| ==>
              FirstIndex(xs, FirstSeen(xs)[i]) < FirstIndex(xs, FirstSeen(xs)[j])
  {
    FirstSeenElems(xs);
    if xs != [] {
      var init, x := xs[..|xs| - 1], xs[|xs| - 1];
      var p := FirstSeen(init);
      FirstSeenOrder(init);
      forall i, j | 0 <= i < j < |FirstSeen(xs)|
        ensures FirstIndex(xs, FirstSeen(xs)[i]) < FirstIndex(xs, FirstSeen(xs)[j])
      {
        assert p[i] in init;
        assert FirstIndex(xs, p[i]) == FirstIndex(init, p[i]);
        if j < |p| {
          assert p[j] in init;
          assert FirstIndex(xs, p[j]) == FirstIndex(init, p[j]);
        } else {
          assert FirstIndex(xs, x) == |xs| - 1;
        }
      }
    }
  }

  /** Dropping the last input element does not move first occurrences before it. */
  lemma FirstIndexOfInit<T>(xs: seq<T>, y: T)
    requires xs != []
    requires y in xs[..|xs| - 1]
    ensures FirstIndex(xs, y) == FirstIndex(xs[..|xs| - 1], y)
  {
  }

  /** The three properties above determine the result: any sequence without
      duplicates, holding exactly the input's values, in first-occurrence order, is
      the result of `distinct()`. */
  lemma {:induction false} FirstSeenUnique<T>(xs: seq<T>, r: seq<T>)
    requires NoDuplicates(r)
    requires forall i :: 0 <= i < |r| ==> r[i] in xs
    requires forall y :: y in xs ==> y in r
    requires forall i, j :: 0 <= i < j < |r| ==> FirstIndex(xs, r[i]) < FirstIndex(xs, r[j])
    ensures r == FirstSeen(xs)
  {
    if xs == [] {
      NoDuplicatesCard(r);
      assert Elems(r) == {};
    } else {
      var init, x := xs[..|xs| - 1], xs[|xs| - 1];
      assert xs == init + [x];
      if x in init {
        forall i | 0 <= i < |r| ensures r[i] in init {
          assert r[i] in xs;
        }
        forall i, j | 0 <= i < j < |r|
          ensures FirstIndex(init, r[i]) < FirstIndex(init, r[j])
        {
          FirstIndexOfInit(xs, r[i]);
          FirstIndexOfInit(xs, r[j]);
        }
        FirstSeenUnique(init, r);
      } else {
        var r' := FirstSeenUniqueStep(xs, r);
        FirstSeenUnique(init, r');
      }
    }
  }

  /** The step of `FirstSeenUnique` when the last input element is new: it is the
      last element of `r`, and the rest of `r` meets the hypotheses for the input
      without it. */
  lemma FirstSeenUniqueStep<T>(xs: seq<T>, r: seq<T>) returns (r': seq<T>)
    requires xs != [] && xs[|xs| - 1] !in xs[..|xs| - 1]
    requires NoDuplicates(r)
    requires forall i :: 0 <= i < |r| ==> r[i] in xs
    requires forall y :: y in xs ==> y in r
    requires forall i, j :: 0 <= i < j < |r| ==> FirstIndex(xs, r[i]) < FirstIndex(xs, r[j])
    ensures r == r' + [xs[|xs| - 1]]
    ensures NoDuplicates(r')
    ensures forall i :: 0 <= i < |r'| ==> r'[i] in xs[..|xs| - 1]
    ensures forall y :: y in xs[..|xs| - 1] ==> y in r'
    ensures forall i, j :: 0 <= i < j < |r'| ==>
              FirstIndex(xs[..|xs| - 1], r'[i]) < FirstIndex(xs[..|xs| - 1], r'[j])
  {
    NewLastComesLast(xs, r);
    r' := r[..|r| - 1];
    assert r == r' + [xs[|xs| - 1]];
    DropLastMembers(xs, r, r');
    DropLastOrder(xs, r');
  }

  /** An element first seen at the end of the input is the last one kept. */
  lemma NewLastComesLast<T>(xs: seq<T>, r: seq<T>)
    requires xs != [] && xs[|xs| - 1] !in xs[..|xs| - 1]
    requires forall i :: 0 <= i < |r| ==> r[i] in xs
    requires forall y :: y in xs ==> y in r
    requires forall i, j :: 0 <= i < j < |r| ==> FirstIndex(xs, r[i]) < FirstIndex(xs, r[j])
    ensures r != [] && r[|r| - 1] == xs[|xs| - 1]
  {
    var x := xs[|xs| - 1];
    assert x in xs;
    var p :| 0 <= p < |r| && r[p] == x;
    var last := |r| - 1;
    assert FirstIndex(xs, r[p]) == |xs| - 1;
    assert FirstIndex(xs, r[last]) <= FirstIndex(xs, r[p]);
    assert p == last;
  }

  /** Dropping that last kept element leaves a duplicate-free sequence holding
      exactly the values of the input without its last element. */
  lemma DropLastMembers<T>(xs: seq<T>, r: seq<T>, r': seq<T>)
    requires xs != [] && xs[|xs| - 1] !in xs[..|xs| - 1]
    requires r == r' + [xs[|xs| - 1]]
    requires NoDuplicates(r)
    requires forall i :: 0 <= i < |r| ==> r[i] in xs
    requires forall y :: y in xs ==> y in r
    ensures NoDuplicates(r')
    ensures forall i :: 0 <= i < |r'| ==> r'[i] in xs[..|xs| - 1]
    ensures forall y :: y in xs[..|xs| - 1] ==> y in r'
  {
    var init, x := xs[..|xs| - 1], xs[|xs| - 1];
    assert xs == init + [x];
    assert forall i :: 0 <= i < |r'| ==> r'[i] == r[i];
    forall i | 0 <= i < |r'| ensures r'[i] in init {
      assert r[i] == r'[i] && r[i] in xs && r[i] != r[|r| - 1];
    }
    forall y | y in init ensures y in r' {
      assert y in r && y != x;
      var q :| 0 <= q < |r| && r[q] == y;
      assert r'[q] == y;
    }
  }

  /** First-occurrence order over the input carries over to the input without its
      last element, for values occurring before it. */
  lemma DropLastOrder<T>(xs: seq<T>, r': seq<T>)
    requires xs != []
    requires forall i :: 0 <= i < |r'| ==> r'[i] in xs[..|xs| - 1]
    requires forall i, j :: 0 <= i < j < |r'| ==> FirstIndex(xs, r'[i]) < FirstIndex(xs, r'[j])
    ensures forall i, j :: 0 <= i < j < |r'| ==>
              FirstIndex(xs[..|xs| - 1], r'[i]) < FirstIndex(xs[..|xs| - 1], r'[j])
  {
  }

  /** An input without duplicates comes back unchanged. */
  lemma {:induction false} FirstSeenOfNoDuplicates<T>(xs: seq<T>)
    requires NoDuplicates(xs)
    ensures FirstSeen(xs) == xs
  {
    if xs != [] {
      var init, x := xs[..|xs| - 1], xs[|xs| - 1];
      assert NoDuplicates(init);
      FirstSeenOfNoDuplicates(init);
      assert x !in init;
    }
  }

  /** A run of one repeated value collapses to that value (`[1, 1, 1]` gives `[1]`). */
  lemma {:induction false} FirstSeenOfRepeated<T>(x: T, n: nat)
    requires n > 0
    ensures FirstSeen(seq(n, _ => x)) == [x]
  {
    var xs := seq(n, _ => x);
    if n > 1 {
      assert xs[..n - 1] == seq(n - 1, _ => x);
      FirstSeenOfRepeated(x, n - 1);
      assert x in xs[..n - 1];
    }
  }

  /** A sequence without duplicates has as many values as elements. */
  lemma {:induction false} NoDuplicatesCard<T>(s: seq<T>)
    requires NoDuplicates(s)
    ensures |Elems(s)| == |s|
  {
    if s != [] {
      var init, x := s[..|s| - 1], s[|s| - 1];
      assert s == init + [x];
      assert NoDuplicates(init);
      NoDuplicatesCard(init);
      assert Elems(s) == Elems(init) + {x};
      assert x !in Elems(init);
    }
  }

  /** The length of `distinct()` is the number of distinct input values. */
  lemma FirstSeenLength<T>(xs: seq<T>)
    ensures |FirstSeen(xs)| == |Elems(xs)|
  {
    FirstSeenElems(xs);
    FirstSeenNoDuplicates(xs);
    NoDuplicatesCard(FirstSeen(xs));
    assert Elems(FirstSeen(xs)) == Elems(xs);
  }

  /** Only the empty sequence has no values. */
  lemma ElemsEmpty<T>(xs: seq<T>)
    ensures |Elems(xs)| == 0 <==> xs == []
  {
    if xs != [] {
      assert xs[0] in Elems(xs);
    }
  }

  /** `distinct()`: a set of values seen so far, and the result to which an element
      is appended when inserting it into the set succeeds. */
  method Distinct<T(==)>(xs: seq<T>) returns (result: seq<T>)
    ensures result == FirstSeen(xs)
    ensures NoDuplicates(result)
    ensures forall y :: y in result <==> y in xs
    ensures forall i, j :: 0 <= i < j < |result| ==>
              FirstIndex(xs, result[i]) < FirstIndex(xs, result[j])
  {
    var seen: set<T> := {};
    result := [];
    for i := 0 to |xs|
      invariant seen == Elems(xs[..i])
      invariant result == FirstSeen(xs[..i])
    {
      var elem := xs[i];
      assert xs[..i + 1] == xs[..i] + [elem];
      if elem !in seen {
        seen := seen + {elem};
        result := result + [elem];
      }
    }
    assert xs[..|xs|] == xs;
    FirstSeenNoDuplicates(xs);
    FirstSeenElems(xs);
    FirstSeenOrder(xs);
  }

  /** `countDistinct()`: inserts every element into a set and returns its size. */
  method CountDistinct<T(==)>(xs: seq<T>) returns (count: nat)
    ensures count == |Elems(xs)|
    ensures count == |FirstSeen(xs)|
    ensures count == 0 <==> xs == []
  {
    var seen: set<T> := {};
    for i := 0 to |xs|
      invariant seen == Elems(xs[..i])
    {
      assert xs[..i + 1] == xs[..i] + [xs[i]];
      seen := seen + {xs[i]};
    }
    assert xs[..|xs|] == xs;
    count := |seen|;
    FirstSeenLength(xs);
    ElemsEmpty(xs);
  }

  // ---------------------------------------------------------------------------
  // distinct(transform) and countDistinct(transform)
  // ---------------------------------------------------------------------------

  /** `distinct(transform)`: the transformed values, each once, in first-seen order. */
  method DistinctBy<E, K(==)>(xs: seq<E>, f: E -> K) returns (result: seq<K>)
    ensures result == FirstSeen(Mapped(xs, f))
    ensures NoDuplicates(result)
    ensures forall k :: k in result <==> k in Mapped(xs, f)
    ensures forall i, j :: 0 <= i < j < |result| ==>
              FirstIndex(Mapped(xs, f), result[i]) < FirstIndex(Mapped(xs, f), result[j])
    ensures |result| == |Elems(Mapped(xs, f))|
  {
    ghost var ys := Mapped(xs, f);
    var seen: set<K> := {};
    result := [];
    for i := 0 to |xs|
      invariant seen == Elems(ys[..i])
      invariant result == FirstSeen(ys[..i])
    {
      var val := f(xs[i]);
      assert ys[..i + 1] == ys[..i] + [val];
      if val !in seen {
        seen := seen + {val};
        result := result + [val];
      }
    }
    assert ys[..|xs|] == ys;
    FirstSeenNoDuplicates(ys);
    FirstSeenElems(ys);
    FirstSeenOrder(ys);
    FirstSeenLength(ys);
  }

  /** `countDistinct(transform)`: the number of distinct transformed values, which
      is the length of `distinct(transform)`. */
  method CountDistinctBy<E, K(==)>(xs: seq<E>, f: E -> K) returns (count: nat)
    ensures count == |Elems(Mapped(xs, f))|
    ensures count == |FirstSeen(Mapped(xs, f))|
    ensures count == 0 <==> xs == []
  {
    ghost var ys := Mapped(xs, f);
    var seen: set<K> := {};
    for i := 0 to |xs|
      invariant seen == Elems(ys[..i])
    {
      assert ys[..i + 1] == ys[..i] + [f(xs[i])];
      seen := seen + {f(xs[i])};
    }
    assert ys[..|xs|] == ys;
    count := |seen|;
    FirstSeenLength(ys);
    ElemsEmpty(ys);
  }

  // ---------------------------------------------------------------------------
  // countWhere
  // ---------------------------------------------------------------------------

  /** Number of elements of `xs` satisfying `p`, counted left to right. */
  function CountSatisfying<E>(xs: seq<E>, p: E -> bool): (n: nat)
    ensures n <= |xs|
  {
    if xs == [] then 0
    else CountSatisfying(xs[..|xs| - 1], p) + (if p(xs[|xs| - 1]) then 1 else 0)
  }

  /** Positions of the elements of `xs` that satisfy `p`. */
  function SatisfyingPositions<E>(xs: seq<E>, p: E -> bool): set<int>
  {
    set i | 0 <= i < |xs| && p(xs[i])
  }

  /** The count is the number of positions whose element satisfies the predicate. */
  lemma {:induction false} CountSatisfyingPositions<E>(xs: seq<E>, p: E -> bool)
    ensures CountSatisfying(xs, p) == |SatisfyingPositions(xs, p)|
  {
    if xs != [] {
      var n, init := |xs|, xs[..|xs| - 1];
      CountSatisfyingPositions(init, p);
      var before := SatisfyingPositions(init, p);
      var added: set<int> := if p(xs[n - 1]) then {n - 1} else {};
      assert SatisfyingPositions(xs, p) == before + added by {
        forall i ensures i in SatisfyingPositions(xs, p) <==> i in before + added {
          if 0 <= i < n - 1 {
            assert xs[i] == init[i];
          }
        }
      }
      assert n - 1 !in before;
    }
  }

  /** The count is the length exactly when every element satisfies the predicate,
      and zero exactly when none does. */
  lemma {:induction false} CountSatisfyingExtremes<E>(xs: seq<E>, p: E -> bool)
    ensures CountSatisfying(xs, p) == |xs| <==> forall i :: 0 <= i < |xs| ==> p(xs[i])
    ensures CountSatisfying(xs, p) == 0 <==> forall i :: 0 <= i < |xs| ==> !p(xs[i])
  {
    if xs != [] {
      var n, init := |xs|, xs[..|xs| - 1];
      CountSatisfyingExtremes(init, p);
      assert forall i :: 0 <= i < n - 1 ==> xs[i] == init[i];
    }
  }

  /** `countWhere`: increments a counter for every element satisfying the predicate. */
  method CountWhere<E>(xs: seq<E>, p: E -> bool) returns (count: int)
    ensures count == CountSatisfying(xs, p)
    ensures 0 <= count <= |xs|
  {
    count := 0;
    for i := 0 to |xs|
      invariant count == CountSatisfying(xs[..i], p)
    {
      assert xs[..i + 1][..i] == xs[..i];
      if p(xs[i]) {
        count := count + 1;
      }
    }
    assert xs[..|xs|] == xs;
  }

  // ---------------------------------------------------------------------------
  // Group and groupBy
  // ---------------------------------------------------------------------------

  /** A key with the elements collected under it. Swift's `Group` is a struct, a
      value: its `mutating append` replaces the value held by the caller. */
  datatype Group<K, E> = Group(key: K, elements: seq<E>)
  {
    /** Number of elements (the `Collection` view's `count`, `endIndex - startIndex`):
        zero exactly when the group holds no elements. */
    function Count(): (n: nat)
      ensures n == 0 <==> elements == []
    {
      |elements|
    }

    /** Subscript: the element at `position`, one of the group's elements. */
    function At(position: nat): (e: E)
      requires position < Count()
      ensures e in elements
    {
      elements[position]
    }

    /** `append`: one more element at the end; the key and the earlier elements stay. */
    function Append(newElement: E): (g: Group<K, E>)
      ensures g.key == key
      ensures g.Count() == Count() + 1
      ensures forall i :: 0 <= i < Count() ==> g.At(i) == At(i)
      ensures g.At(Count()) == newElement
    {
      Group(key, elements + [newElement])
    }
  }

  /** `Group.init`: a group for `key` holding no elements. */
  function NewGroup<K, E>(key: K): (g: Group<K, E>)
    ensures g.key == key
    ensures g.Count() == 0
  {
    Group(key, [])
  }

  /** The `Collection` view of a group: reading the subscript at every position
      from `startIndex` up to `endIndex`, as the iterator does, yields exactly the
      group's elements in the order they were appended. */
  lemma {:induction false} GroupPositions<K, E>(g: Group<K, E>)
    ensures seq(g.Count(), i requires 0 <= i < g.Count() => g.At(i)) == g.elements
  {
    var view := seq(g.Count(), i requires 0 <= i < g.Count() => g.At(i));
    assert forall i :: 0 <= i < |view| ==> view[i] == g.elements[i];
  }

  /** Elements of `xs` whose key under `f` is `k`, in input order. */
  function Members<E, K(==)>(xs: seq<E>, f: E -> K, k: K): seq<E>
  {
    if xs == [] then []
    else
      var init, x := xs[..|xs| - 1], xs[|xs| - 1];
      if f(x) == k then Members(init, f, k) + [x] else Members(init, f, k)
  }

  /** Every element collected under `k` has key `k`. */
  lemma {:induction false} MembersHaveKey<E, K>(xs: seq<E>, f: E -> K, k: K)
    ensures forall i :: 0 <= i < |Members(xs, f, k)| ==> f(Members(xs, f, k)[i]) == k
  {
    if xs != [] {
      MembersHaveKey(xs[..|xs| - 1], f, k);
    }
  }

  /** A key has members exactly when some element maps to it. */
  lemma {:induction false} MembersNonEmpty<E, K>(xs: seq<E>, f: E -> K, k: K)
    ensures |Members(xs, f, k)| > 0 <==> k in Mapped(xs, f)
  {
    if xs != [] {
      var init := xs[..|xs| - 1];
      MembersNonEmpty(init, f, k);
      assert Mapped(xs, f) == Mapped(init, f) + [f(xs[|xs| - 1])];
    }
  }

  /** Each element lands, with all its occurrences, in the group of its own key;
      with `MembersHaveKey` this makes the groups a partition of the input. */
  lemma {:induction false} MembersMultiplicity<E, K>(xs: seq<E>, f: E -> K, e: E)
    ensures multiset(Members(xs, f, f(e)))[e] == multiset(xs)[e]
  {
    if xs != [] {
      var init, x := xs[..|xs| - 1], xs[|xs| - 1];
      MembersMultiplicity(init, f, e);
      assert xs == init + [x];
    }
  }

  /** The keys of a sequence of groups. */
  function KeysOf<K, E>(groups: seq<Group<K, E>>): set<K>
  {
    set i | 0 <= i < |groups| :: groups[i].key
  }

  /** One more group adds exactly its key to the keys. */
  lemma KeysOfSnoc<K, E>(groups: seq<Group<K, E>>, g: Group<K, E>)
    ensures KeysOf(groups + [g]) == KeysOf(groups) + {g.key}
  {
    var gs := groups + [g];
    forall y ensures y in KeysOf(gs) <==> y in KeysOf(groups) + {g.key} {
      if y in KeysOf(groups) {
        var i :| 0 <= i < |groups| && groups[i].key == y;
        assert gs[i].key == y;
      }
      if y == g.key {
        assert gs[|groups|].key == y;
      }
    }
  }

  /** Groups with pairwise distinct keys have as many keys as groups. */
  lemma {:induction false} KeysOfCard<K, E>(groups: seq<Group<K, E>>)
    requires forall i, j :: 0 <= i < j < |groups| ==> groups[i].key != groups[j].key
    ensures |KeysOf(groups)| == |groups|
  {
    if groups != [] {
      var init, g := groups[..|groups| - 1], groups[|groups| - 1];
      assert groups == init + [g];
      KeysOfCard(init);
      KeysOfSnoc(init, g);
      assert g.key !in KeysOf(init);
    }
  }

  /** `groups` lists, once each and filed under their own keys, the entries of
      `table` whose keys are not `pending`. */
  ghost predicate Listed<K, E>(table: map<K, Group<K, E>>, groups: seq<Group<K, E>>, pending: set<K>)
  {
    && (forall i :: 0 <= i < |groups| ==> groups[i].key in table && groups[i] == table[groups[i].key])
    && (forall i, j :: 0 <= i < j < |groups| ==> groups[i].key != groups[j].key)
    && KeysOf(groups) !! pending
    && KeysOf(groups) + pending == table.Keys
  }

  /** Listing the group of one pending key keeps `Listed` with that key no longer
      pending. */
  lemma ListedStep<K, E>(table: map<K, Group<K, E>>, groups: seq<Group<K, E>>, pending: set<K>, k: K)
    requires forall k :: k in table ==> table[k].key == k
    requires Listed(table, groups, pending) && k in pending
    ensures Listed(table, groups + [table[k]], pending - {k})
  {
    KeysOfSnoc(groups, table[k]);
    assert forall i :: 0 <= i < |groups| ==> groups[i].key in KeysOf(groups);
  }

  /** `Array(dictionary.values)`: the groups of a dictionary whose entries are
      filed under their own keys, in an order the dictionary does not specify
      (modelled by an arbitrary choice of the next key). */
  method ValuesOf<K, E>(table: map<K, Group<K, E>>) returns (groups: seq<Group<K, E>>)
    requires forall k :: k in table ==> table[k].key == k
    ensures forall i :: 0 <= i < |groups| ==> groups[i].key in table && groups[i] == table[groups[i].key]
    ensures forall i, j :: 0 <= i < j < |groups| ==> groups[i].key != groups[j].key
    ensures KeysOf(groups) == table.Keys
    ensures |groups| == |table.Keys|
  {
    groups := [];
    var pending := table.Keys;
    while pending != {}
      invariant Listed(table, groups, pending)
      decreases pending
    {
      var k :| k in pending;
      ListedStep(table, groups, pending, k);
      groups := groups + [table[k]];
      pending := pending - {k};
    }
    KeysOfCard(groups);
  }

  /** `groupBy`: a dictionary from key to group, filled in one pass, whose values
      are then returned in an order the dictionary does not specify (modelled by an
      arbitrary choice of the next key). */
  method GroupBy<E, K(==)>(xs: seq<E>, f: E -> K) returns (groups: seq<Group<K, E>>)
    ensures forall i, j :: 0 <= i < j < |groups| ==> groups[i].key != groups[j].key
    ensures KeysOf(groups) == Elems(Mapped(xs, f))
    ensures |groups| == |Elems(Mapped(xs, f))|
    ensures |groups| == 0 <==> xs == []
    ensures forall i :: 0 <= i < |groups| ==> groups[i].elements == Members(xs, f, groups[i].key)
    ensures forall i :: 0 <= i < |groups| ==> groups[i].Count() > 0
  {
    ghost var ys := Mapped(xs, f);
    var table: map<K, Group<K, E>> := map[];
    for i := 0 to |xs|
      invariant table.Keys == Elems(ys[..i])
      invariant forall k :: k in table ==> table[k] == Group(k, Members(xs[..i], f, k))
    {
      var key := f(xs[i]);
      assert ys[..i + 1] == ys[..i] + [key];
      assert xs[..i + 1][..i] == xs[..i];
      assert Mapped(xs[..i], f) == ys[..i];
      if key !in table {
        MembersNonEmpty(xs[..i], f, key);
        table := table[key := NewGroup(key)];
      }
      table := table[key := table[key].Append(xs[i])];
    }
    assert ys[..|xs|] == ys;
    assert xs[..|xs|] == xs;

    groups := ValuesOf(table);
    ElemsEmpty(ys);
    forall i | 0 <= i < |groups| ensures groups[i].Count() > 0 {
      MembersNonEmpty(xs, f, groups[i].key);
    }
  }

  function IsEven(x: int): bool
  {
    x % 2 == 0
  }

  /** The grouping by parity of `[0, 5, 10, 11, 13]`: two keys, `[0, 10]` under
      `true` and `[5, 11, 13]` under `false`. */
  lemma GroupByParityExample()
    ensures Elems(Mapped([0, 5, 10, 11, 13], IsEven)) == {true, false}
    ensures Members([0, 5, 10, 11, 13], IsEven, true) == [0, 10]
    ensures Members([0, 5, 10, 11, 13], IsEven, false) == [5, 11, 13]
  {
    var xs := [0, 5, 10, 11, 13];
    assert Mapped(xs, IsEven) == [true, false, true, false, false];
    assert xs[..4] == [0, 5, 10, 11];
    assert [0, 5, 10, 11][..3] == [0, 5, 10];
    assert [0, 5, 10][..2] == [0, 5];
    assert [0, 5][..1] == [0];
    assert [0][..0] == [];
  }
}
