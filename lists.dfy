/**
 * Sequence combinators that describe what the validators' append loops
 * accumulate, with the facts about them that the rule lemmas rely on.
 *
 * Every report category is filled by a loop that visits the rows (or the
 * columns) in order and appends zero or more entries at each step; Gather and
 * Concat are that loop written as a function, and Filter is a list
 * comprehension with an `if`.
 */
module Lists {

  /** f(p, 0) + f(p, 1) + ... + f(p, n - 1): what a loop over the positions
      0 .. n - 1 accumulates when step i appends f(p, i). */
  function Gather<P, E>(p: P, n: nat, f: (P, nat) -> seq<E>): seq<E>
  {
    if n == 0 then [] else Gather(p, n - 1, f) + f(p, n - 1)
  }

  /** An element is gathered exactly when some visited position contributes it. */
  lemma {:induction false} GatherMember<P, E>(p: P, n: nat, f: (P, nat) -> seq<E>, e: E)
    ensures e in Gather(p, n, f) <==> exists i :: 0 <= i < n && e in f(p, i)
  {
    if n > 0 {
      GatherMember(p, n - 1, f, e);
      if e in f(p, n - 1) {
        assert e in Gather(p, n, f);
      }
    }
  }

  /** Nothing is gathered exactly when no visited position contributes anything. */
  lemma {:induction false} GatherEmpty<P, E>(p: P, n: nat, f: (P, nat) -> seq<E>)
    ensures Gather(p, n, f) == [] <==> forall i :: 0 <= i < n ==> f(p, i) == []
  {
    if n > 0 {
      GatherEmpty(p, n - 1, f);
      assert |Gather(p, n, f)| == |Gather(p, n - 1, f)| + |f(p, n - 1)|;
    }
  }

  /** Every gathered element carries a key below base + n when position i
      contributes only elements with key base + i. */
  lemma {:induction false} GatherKeysBelow<P, E>(p: P, n: nat, f: (P, nat) -> seq<E>, key: E -> int, base: int)
    requires forall i, e :: 0 <= i < n && e in f(p, i) ==> key(e) == base + i
    ensures forall k :: 0 <= k < |Gather(p, n, f)| ==> key(Gather(p, n, f)[k]) < base + n
  {
    forall k | 0 <= k < |Gather(p, n, f)|
      ensures key(Gather(p, n, f)[k]) < base + n
    {
      var e := Gather(p, n, f)[k];
      GatherMember(p, n, f, e);
    }
  }

  /** Positions are visited in ascending order: when everything position i
      contributes has key base + i, keys never decrease along the result. */
  lemma {:induction false} GatherAscending<P, E>(p: P, n: nat, f: (P, nat) -> seq<E>, key: E -> int, base: int)
    requires forall i, e :: 0 <= i < n && e in f(p, i) ==> key(e) == base + i
    ensures forall a, b :: 0 <= a < b < |Gather(p, n, f)| ==> key(Gather(p, n, f)[a]) <= key(Gather(p, n, f)[b])
  {
    if n > 0 {
      var g, h := Gather(p, n - 1, f), f(p, n - 1);
      GatherAscending(p, n - 1, f, key, base);
      GatherKeysBelow(p, n - 1, f, key, base);
      assert Gather(p, n, f) == g + h;
      forall a, b | 0 <= a < b < |g + h|
        ensures key((g + h)[a]) <= key((g + h)[b])
      {
        if b >= |g| {
          assert (g + h)[b] in h;
          if a >= |g| {
            assert (g + h)[a] in h;
          }
        }
      }
    }
  }

  /** As GatherAscending, and strictly so when each position contributes at
      most one element: no key appears twice. */
  lemma {:induction false} GatherStrictlyAscending<P, E>(p: P, n: nat, f: (P, nat) -> seq<E>, key: E -> int, base: int)
    requires forall i, e :: 0 <= i < n && e in f(p, i) ==> key(e) == base + i
    requires forall i :: 0 <= i < n ==> |f(p, i)| <= 1
    ensures forall a, b :: 0 <= a < b < |Gather(p, n, f)| ==> key(Gather(p, n, f)[a]) < key(Gather(p, n, f)[b])
  {
    if n > 0 {
      var g, h := Gather(p, n - 1, f), f(p, n - 1);
      GatherStrictlyAscending(p, n - 1, f, key, base);
      GatherKeysBelow(p, n - 1, f, key, base);
      assert Gather(p, n, f) == g + h;
      forall a, b | 0 <= a < b < |g + h|
        ensures key((g + h)[a]) < key((g + h)[b])
      {
        if b >= |g| {
          assert (g + h)[b] in h;
        }
      }
    }
  }

  /** Positions are visited in ascending order, and each position's
      contribution in its own order: when everything position i contributes
      lies in block base + i and keys ascend within each contribution, the
      result is ordered by block and then, within a block, by key. */
  lemma {:induction false} GatherBlocksOrdered<P, E>(p: P, n: nat, f: (P, nat) -> seq<E>, block: E -> int, base: int, key: E -> int)
    requires forall i, e :: 0 <= i < n && e in f(p, i) ==> block(e) == base + i
    requires forall i, a, b :: 0 <= i < n && 0 <= a < b < |f(p, i)| ==> key(f(p, i)[a]) < key(f(p, i)[b])
    ensures forall a, b :: 0 <= a < b < |Gather(p, n, f)| ==>
      block(Gather(p, n, f)[a]) < block(Gather(p, n, f)[b])
      || (block(Gather(p, n, f)[a]) == block(Gather(p, n, f)[b]) && key(Gather(p, n, f)[a]) < key(Gather(p, n, f)[b]))
  {
    if n > 0 {
      var g, h := Gather(p, n - 1, f), f(p, n - 1);
      GatherBlocksOrdered(p, n - 1, f, block, base, key);
      GatherKeysBelow(p, n - 1, f, block, base);
      assert Gather(p, n, f) == g + h;
      forall a, b | 0 <= a < b < |g + h|
        ensures block((g + h)[a]) < block((g + h)[b])
          || (block((g + h)[a]) == block((g + h)[b]) && key((g + h)[a]) < key((g + h)[b]))
      {
        if b >= |g| {
          assert (g + h)[b] == h[b - |g|] && h[b - |g|] in h;
          if a >= |g| {
            assert (g + h)[a] == h[a - |g|];
          } else {
            assert (g + h)[a] == g[a];
          }
        } else {
          assert (g + h)[a] == g[a] && (g + h)[b] == g[b];
        }
      }
    }
  }

  /** f(p, xs[0]) + ... + f(p, xs[|xs| - 1]): what a loop over the items of xs
      accumulates when the step for item x appends f(p, x). */
  function Concat<P, T, E>(p: P, xs: seq<T>, f: (P, T) -> seq<E>): seq<E>
  {
    if xs == [] then [] else Concat(p, xs[..|xs| - 1], f) + f(p, xs[|xs| - 1])
  }

  /** One more loop step over the items of xs. */
  lemma ConcatStep<P, T, E>(p: P, xs: seq<T>, k: nat, f: (P, T) -> seq<E>)
    requires k < |xs|
    ensures Concat(p, xs[..k + 1], f) == Concat(p, xs[..k], f) + f(p, xs[k])
  {
    assert xs[..k + 1][..k] == xs[..k];
  }

  /** What the first k items produce is a prefix of what all of them produce. */
  lemma {:induction false} ConcatPrefix<P, T, E>(p: P, xs: seq<T>, k: nat, f: (P, T) -> seq<E>)
    requires k <= |xs|
    ensures Concat(p, xs[..k], f) <= Concat(p, xs, f)
    decreases |xs| - k
  {
    if k < |xs| {
      ConcatStep(p, xs, k, f);
      ConcatPrefix(p, xs, k + 1, f);
    } else {
      assert xs[..k] == xs;
    }
  }

  /** An element is produced exactly when some item contributes it. */
  lemma {:induction false} ConcatMember<P, T, E>(p: P, xs: seq<T>, f: (P, T) -> seq<E>, e: E)
    ensures e in Concat(p, xs, f) <==> exists k :: 0 <= k < |xs| && e in f(p, xs[k])
  {
    if xs != [] {
      var init := xs[..|xs| - 1];
      ConcatMember(p, init, f, e);
      assert forall k :: 0 <= k < |init| ==> init[k] == xs[k];
      if e in f(p, xs[|xs| - 1]) {
        assert e in Concat(p, xs, f);
      }
    }
  }

  /** Nothing is produced exactly when no item contributes anything. */
  lemma {:induction false} ConcatEmpty<P, T, E>(p: P, xs: seq<T>, f: (P, T) -> seq<E>)
    ensures Concat(p, xs, f) == [] <==> forall k :: 0 <= k < |xs| ==> f(p, xs[k]) == []
    ensures Concat(p, xs, f) == [] <==> forall x :: x in xs ==> f(p, x) == []
  {
    if xs != [] {
      var init := xs[..|xs| - 1];
      ConcatEmpty(p, init, f);
      assert forall k :: 0 <= k < |init| ==> init[k] == xs[k];
      assert |Concat(p, xs, f)| == |Concat(p, init, f)| + |f(p, xs[|xs| - 1])|;
    }
  }

  /** Items are visited in order: when item k contributes at most one
      element and its key is k, keys strictly increase along the result. */
  lemma {:induction false} ConcatOrdered<P, T, E>(p: P, xs: seq<T>, f: (P, T) -> seq<E>, key: E -> int)
    requires forall k, e :: 0 <= k < |xs| && e in f(p, xs[k]) ==> key(e) == k
    requires forall k :: 0 <= k < |xs| ==> |f(p, xs[k])| <= 1
    ensures forall a, b :: 0 <= a < b < |Concat(p, xs, f)| ==> key(Concat(p, xs, f)[a]) < key(Concat(p, xs, f)[b])
  {
    if xs != [] {
      var init := xs[..|xs| - 1];
      assert forall k :: 0 <= k < |init| ==> init[k] == xs[k];
      ConcatOrdered(p, init, f, key);
      var g, h := Concat(p, init, f), f(p, xs[|xs| - 1]);
      forall e | e in g
        ensures key(e) < |init|
      {
        ConcatMember(p, init, f, e);
      }
      forall a, b | 0 <= a < b < |g + h|
        ensures key((g + h)[a]) < key((g + h)[b])
      {
        if b >= |g| {
          assert (g + h)[b] in h;
          assert (g + h)[a] in g;
        } else {
          assert (g + h)[a] == g[a] && (g + h)[b] == g[b];
        }
      }
    }
  }

  /** Concat keeps the items' blocks in order: when everything item k
      contributes lies in block k, and keys ascend within each item's
      contribution, the result is ordered by block and then by key. */
  lemma {:induction false} ConcatBlocksOrdered<P, T, E>(p: P, xs: seq<T>, f: (P, T) -> seq<E>, block: E -> int, key: E -> int)
    requires forall k, e :: 0 <= k < |xs| && e in f(p, xs[k]) ==> block(e) == k
    requires forall k, a, b :: 0 <= k < |xs| && 0 <= a < b < |f(p, xs[k])| ==> key(f(p, xs[k])[a]) < key(f(p, xs[k])[b])
    ensures forall a, b :: 0 <= a < b < |Concat(p, xs, f)| ==>
      block(Concat(p, xs, f)[a]) < block(Concat(p, xs, f)[b])
      || (block(Concat(p, xs, f)[a]) == block(Concat(p, xs, f)[b]) && key(Concat(p, xs, f)[a]) < key(Concat(p, xs, f)[b]))
  {
    if xs != [] {
      var init := xs[..|xs| - 1];
      assert forall k :: 0 <= k < |init| ==> init[k] == xs[k];
      ConcatBlocksOrdered(p, init, f, block, key);
      var g, h := Concat(p, init, f), f(p, xs[|xs| - 1]);
      forall e | e in g
        ensures block(e) < |init|
      {
        ConcatMember(p, init, f, e);
      }
      forall a, b | 0 <= a < b < |g + h|
        ensures block((g + h)[a]) < block((g + h)[b])
          || (block((g + h)[a]) == block((g + h)[b]) && key((g + h)[a]) < key((g + h)[b]))
      {
        if b >= |g| {
          assert (g + h)[b] == h[b - |g|] && h[b - |g|] in h;
          if a >= |g| {
            assert (g + h)[a] == h[a - |g|] && h[a - |g|] in h;
          } else {
            assert (g + h)[a] in g;
          }
        } else {
          assert (g + h)[a] == g[a] && (g + h)[b] == g[b];
        }
      }
    }
  }

  /** When every item contributes exactly one element, Concat is a map: the
      k-th element comes from the k-th item. */
  lemma {:induction false} ConcatSingletons<P, T, E>(p: P, xs: seq<T>, f: (P, T) -> seq<E>)
    requires forall k :: 0 <= k < |xs| ==> |f(p, xs[k])| == 1
    ensures |Concat(p, xs, f)| == |xs|
    ensures forall k :: 0 <= k < |xs| ==> Concat(p, xs, f)[k] == f(p, xs[k])[0]
  {
    if xs != [] {
      var init := xs[..|xs| - 1];
      assert forall k :: 0 <= k < |init| ==> init[k] == xs[k];
      ConcatSingletons(p, init, f);
    }
  }

  /** The items of xs that satisfy keep, in their order in xs: a list
      comprehension `[x for x in xs if keep(x)]`. */
  function Filter<T>(xs: seq<T>, keep: T -> bool): seq<T>
  {
    if xs == [] then []
    else Filter(xs[..|xs| - 1], keep) + (if keep(xs[|xs| - 1]) then [xs[|xs| - 1]] else [])
  }

  /** Filter keeps exactly the items that satisfy keep. */
  lemma {:induction false} FilterMember<T>(xs: seq<T>, keep: T -> bool, x: T)
    ensures x in Filter(xs, keep) <==> x in xs && keep(x)
  {
    if xs != [] {
      var init := xs[..|xs| - 1];
      FilterMember(init, keep, x);
      assert xs == init + [xs[|xs| - 1]];
    }
  }

  /** Filter is empty exactly when no item satisfies keep. */
  lemma {:induction false} FilterEmpty<T>(xs: seq<T>, keep: T -> bool)
    ensures Filter(xs, keep) == [] <==> forall k :: 0 <= k < |xs| ==> !keep(xs[k])
  {
    if xs != [] {
      var init := xs[..|xs| - 1];
      FilterEmpty(init, keep);
      assert forall k :: 0 <= k < |init| ==> init[k] == xs[k];
    }
  }

  /** Filtering distributes over concatenation. */
  lemma {:induction false} FilterAppend<T>(a: seq<T>, b: seq<T>, keep: T -> bool)
    ensures Filter(a + b, keep) == Filter(a, keep) + Filter(b, keep)
    decreases |b|
  {
    if b == [] {
      assert a + b == a;
    } else {
      var binit := b[..|b| - 1];
      assert (a + b)[..|a + b| - 1] == a + binit;
      FilterAppend(a, binit, keep);
    }
  }

  /** Filter keeps everything when every item satisfies keep. */
  lemma {:induction false} FilterAll<T>(xs: seq<T>, keep: T -> bool)
    requires forall k :: 0 <= k < |xs| ==> keep(xs[k])
    ensures Filter(xs, keep) == xs
  {
    if xs != [] {
      var init := xs[..|xs| - 1];
      assert forall k :: 0 <= k < |init| ==> init[k] == xs[k];
      FilterAll(init, keep);
      assert xs == init + [xs[|xs| - 1]];
    }
  }

  /** Each element of ps moved by off: turns zero-based row indices into the
      row numbers shown in a report. */
  function Shift(ps: seq<nat>, off: int): (r: seq<int>)
    ensures |r| == |ps|
    ensures forall j :: 0 <= j < |ps| ==> r[j] == ps[j] + off
  {
    if ps == [] then [] else [ps[0] + off] + Shift(ps[1..], off)
  }

  /** f applied to every element, in order. */
  function Map<T, U>(xs: seq<T>, f: T -> U): (r: seq<U>)
    ensures |r| == |xs|
    ensures forall k :: 0 <= k < |xs| ==> r[k] == f(xs[k])
  {
    seq(|xs|, k requires 0 <= k < |xs| => f(xs[k]))
  }

  /** Mapping distributes over concatenation. */
  lemma MapAppend<T, U>(a: seq<T>, b: seq<T>, f: T -> U)
    ensures Map(a + b, f) == Map(a, f) + Map(b, f)
  {
  }

  /** n copies of x: pandas' `df.loc[rows, col].tolist()` when every selected
      cell holds x. */
  function Repeat<T>(x: T, n: nat): (r: seq<T>)
    ensures |r| == n
    ensures forall j :: 0 <= j < n ==> r[j] == x
  {
    if n == 0 then [] else [x] + Repeat(x, n - 1)
  }
}
