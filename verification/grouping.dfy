/** Grouping a list by a key, as `scripts/custom.js` does with
    `reduce((groups, x) => { groups[key].push(x) })`: an object from key to the list of
    elements with that key, each list in input order. The object is an `OrderedMap` from
    key to group. */
module Grouping {
  import opened JsValues
  import opened OrderedMaps

  /** The elements of `xs` whose key is `k`, in their order in `xs`. */
  function Select<K(==), T>(xs: seq<T>, key: T -> K, k: K): (ys: seq<T>)
    ensures |ys| <= |xs|
    ensures forall i :: 0 <= i < |ys| ==> ys[i] in xs && key(ys[i]) == k
    ensures forall j :: 0 <= j < |xs| && key(xs[j]) == k ==> xs[j] in ys
    decreases |xs|
  {
    if |xs| == 0 then []
    else
      var x := xs[|xs| - 1];
      assert xs == xs[..|xs| - 1] + [x];
      Select(xs[..|xs| - 1], key, k) + (if key(x) == k then [x] else [])
  }

  /** `Select` is a filter: on one element it keeps the element exactly when its key is
      `k`... */
  lemma SelectOne<K, T>(x: T, key: T -> K, k: K)
    ensures Select([x], key, k) == if key(x) == k then [x] else []
  {
    assert [x][..0] == [];
  }

  /** ... and it selects from a concatenation piece by piece, in order. */
  lemma {:induction false} SelectAppend<K, T>(a: seq<T>, b: seq<T>, key: T -> K, k: K)
    ensures Select(a + b, key, k) == Select(a, key, k) + Select(b, key, k)
    decreases |b|
  {
    if |b| == 0 {
      assert a + b == a;
    } else {
      var front := b[..|b| - 1];
      var last := b[|b| - 1];
      assert (a + b)[..|a + b| - 1] == a + front;
      assert (a + b)[|a + b| - 1] == last;
      SelectAppend(a, front, key, k);
    }
  }

  /** `groups[k]`, with a missing key read as the empty group. */
  function GroupOf<K(==,!new), T>(groups: OrderedMap<K, seq<T>>, k: K): (g: seq<T>)
    ensures k !in KeysOf(groups) ==> g == []
  {
    match Get(groups, k)
    case Some(g) => g
    case None => []
  }

  /** The `reduce`: each element is pushed onto the group of its key, a new key opening a
      new group after the existing ones. */
  function GroupBy<K(==,!new), T>(xs: seq<T>, key: T -> K): (groups: OrderedMap<K, seq<T>>)
    ensures DistinctKeys(groups)
    decreases |xs|
  {
    if |xs| == 0 then []
    else
      var groups := GroupBy(xs[..|xs| - 1], key);
      var x := xs[|xs| - 1];
      Put(groups, key(x), GroupOf(groups, key(x)) + [x])
  }

  /** The groups' lists one after the other: the order in which the batches are visited. */
  function Concat<T>(gs: seq<seq<T>>): (r: seq<T>)
    decreases |gs|
  {
    if |gs| == 0 then [] else Concat(gs[..|gs| - 1]) + gs[|gs| - 1]
  }

  /** Every group is exactly the elements with its key, in input order. */
  lemma {:induction false} GroupByMembers<K(!new), T>(xs: seq<T>, key: T -> K, k: K)
    ensures GroupOf(GroupBy(xs, key), k) == Select(xs, key, k)
    decreases |xs|
  {
    if |xs| > 0 {
      var prefix := xs[..|xs| - 1];
      var x := xs[|xs| - 1];
      GroupByMembers(prefix, key, k);
      GroupByMembers(prefix, key, key(x));
    }
  }

  /** A key has a group exactly when some element has that key. */
  lemma {:induction false} GroupByKeys<K(!new), T>(xs: seq<T>, key: T -> K, k: K)
    ensures k in KeysOf(GroupBy(xs, key)) <==> Select(xs, key, k) != []
    decreases |xs|
  {
    if |xs| > 0 {
      var prefix := xs[..|xs| - 1];
      var x := xs[|xs| - 1];
      GroupByKeys(prefix, key, k);
      var before := GroupBy(prefix, key);
      assert k in KeysOf(GroupBy(xs, key)) <==> k in KeysOf(before) || k == key(x);
    }
  }

  /** Concatenation distributes over appending one list. */
  lemma ConcatAppend<T>(gs: seq<seq<T>>, g: seq<T>)
    ensures Concat(gs + [g]) == Concat(gs) + g
  {
    assert (gs + [g])[..|gs|] == gs;
  }

  /** Appending `x` to one list adds `x` to the concatenation. */
  lemma {:induction false} ConcatPush<T>(gs: seq<seq<T>>, i: nat, x: T)
    requires i < |gs|
    ensures multiset(Concat(gs[i := gs[i] + [x]])) == multiset(Concat(gs)) + multiset{x}
    decreases |gs|
  {
    var n := |gs| - 1;
    var hs := gs[i := gs[i] + [x]];
    assert Concat(gs) == Concat(gs[..n]) + gs[n];
    assert Concat(hs) == Concat(hs[..n]) + hs[n];
    if i == n {
      assert hs[..n] == gs[..n];
      assert hs[n] == gs[n] + [x];
      assert multiset(Concat(hs)) == multiset(Concat(gs[..n])) + multiset(gs[n]) + multiset{x};
    } else {
      assert hs[..n] == gs[..n][i := gs[..n][i] + [x]] && hs[n] == gs[n];
      ConcatPush(gs[..n], i, x);
      assert multiset(Concat(hs)) == multiset(Concat(hs[..n])) + multiset(gs[n]);
    }
  }

  /** One step of the grouping: pushing `x` onto its group adds `x` to the concatenation. */
  lemma PushPermutes<K(!new), T>(before: OrderedMap<K, seq<T>>, k: K, x: T)
    ensures multiset(Concat(ValuesOf(Put(before, k, GroupOf(before, k) + [x]))))
         == multiset(Concat(ValuesOf(before))) + multiset{x}
  {
    var g := GroupOf(before, k) + [x];
    var vs := ValuesOf(before);
    match FindKey(before, k)
    case Some(i) =>
      assert Put(before, k, g) == before[i := (k, g)];
      assert GroupOf(before, k) == vs[i];
      assert ValuesOf(before[i := (k, g)]) == vs[i := vs[i] + [x]];
      ConcatPush(vs, i, x);
    case None =>
      assert Put(before, k, g) == before + [(k, g)];
      assert ValuesOf(before + [(k, g)]) == vs + [g];
      ConcatAppend(vs, g);
  }

  /** Visiting every group visits every element exactly once: the concatenated groups are
      a permutation of the input. */
  lemma {:induction false} GroupByPermutes<K(!new), T>(xs: seq<T>, key: T -> K)
    ensures multiset(Concat(ValuesOf(GroupBy(xs, key)))) == multiset(xs)
    decreases |xs|
  {
    if |xs| > 0 {
      var prefix := xs[..|xs| - 1];
      var x := xs[|xs| - 1];
      var before := GroupBy(prefix, key);
      assert GroupBy(xs, key) == Put(before, key(x), GroupOf(before, key(x)) + [x]);
      assert multiset(xs) == multiset(prefix) + multiset{x} by {
        assert xs == prefix + [x];
      }
      GroupByPermutes(prefix, key);
      PushPermutes(before, key(x), x);
    }
  }
}
