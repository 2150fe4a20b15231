/**
 * The `Array.prototype` methods the stores are written with (`findIndex`, `find`,
 * `filter`, `splice`, `slice`), over immutable sequences.
 */
module Arrays {
  import opened Wrappers

  /** `xs.findIndex(p)`: the first position whose element satisfies `p`, or -1. */
  function FindIndex<T>(xs: seq<T>, p: T -> bool): (i: int)
    ensures -1 <= i < |xs|
    ensures 0 <= i ==> p(xs[i]) && forall j :: 0 <= j < i ==> !p(xs[j])
    ensures i == -1 <==> forall j :: 0 <= j < |xs| ==> !p(xs[j])
  {
    if xs == [] then -1
    else if p(xs[0]) then 0
    else
      var k := FindIndex(xs[1..], p);
      assert forall j :: 0 < j < |xs| ==> xs[j] == xs[1..][j - 1];
      if k == -1 then -1 else k + 1
  }

  /** `xs.find(p)`: the first element satisfying `p`. */
  function Find<T>(xs: seq<T>, p: T -> bool): (r: Option<T>)
    ensures r.Some? <==> exists j :: 0 <= j < |xs| && p(xs[j])
    ensures r.Some? ==> r.value == xs[FindIndex(xs, p)]
  {
    var i := FindIndex(xs, p);
    if i < 0 then None else Some(xs[i])
  }

  /** `xs.filter(p)`: the elements satisfying `p`, in their original order. */
  function Filter<T>(xs: seq<T>, p: T -> bool): (r: seq<T>)
    ensures |r| <= |xs|
    ensures forall j :: 0 <= j < |r| ==> p(r[j])
    decreases |xs|
  {
    if xs == [] then []
    else
      var init := xs[..|xs| - 1];
      assert xs == init + [xs[|xs| - 1]];
      Filter(init, p) + (if p(xs[|xs| - 1]) then [xs[|xs| - 1]] else [])
  }

  /** The filter keeps exactly the elements that satisfy `p`: each kept one comes from `xs`, and none that satisfies `p` is dropped. */
  lemma {:induction false} FilterMembers<T>(xs: seq<T>, p: T -> bool)
    ensures forall j :: 0 <= j < |Filter(xs, p)| ==> Filter(xs, p)[j] in xs
    ensures forall j :: 0 <= j < |xs| && p(xs[j]) ==> xs[j] in Filter(xs, p)
    decreases |xs|
  {
    if xs != [] {
      var init, last := xs[..|xs| - 1], xs[|xs| - 1];
      FilterMembers(init, p);
      assert xs == init + [last];
      assert Filter(xs, p) == Filter(init, p) + (if p(last) then [last] else []);
      forall j | 0 <= j < |xs| && p(xs[j]) ensures xs[j] in Filter(xs, p) {
        if j < |init| { assert xs[j] == init[j]; }
      }
    }
  }

  /** A relation that holds between every earlier and later element still holds after filtering. */
  lemma {:induction false} FilterKeepsPairwise<T>(xs: seq<T>, p: T -> bool, rel: (T, T) -> bool)
    requires forall j, k :: 0 <= j < k < |xs| ==> rel(xs[j], xs[k])
    ensures forall j, k :: 0 <= j < k < |Filter(xs, p)| ==> rel(Filter(xs, p)[j], Filter(xs, p)[k])
    decreases |xs|
  {
    if xs != [] {
      var init, last := xs[..|xs| - 1], xs[|xs| - 1];
      assert xs == init + [last];
      FilterKeepsPairwise(init, p, rel);
      FilterMembers(init, p);
      var f, fi := Filter(xs, p), Filter(init, p);
      assert f == fi + (if p(last) then [last] else []);
      forall j, k | 0 <= j < k < |f| ensures rel(f[j], f[k]) {
        if k < |fi| {
          assert f[j] == fi[j] && f[k] == fi[k];
        } else {
          assert f[j] == fi[j] && f[k] == last;
          var m :| 0 <= m < |init| && init[m] == fi[j];
          assert xs[m] == init[m];
        }
      }
    }
  }

  /** Filtering a sequence by `p` and by its negation splits it without loss or duplication. */
  lemma {:induction false} FilterPartition<T>(xs: seq<T>, p: T -> bool, q: T -> bool)
    requires forall j :: 0 <= j < |xs| ==> q(xs[j]) == !p(xs[j])
    ensures multiset(Filter(xs, p)) + multiset(Filter(xs, q)) == multiset(xs)
    decreases |xs|
  {
    if xs != [] {
      var init, last := xs[..|xs| - 1], xs[|xs| - 1];
      FilterPartition(init, p, q);
      assert xs == init + [last];
      assert Filter(xs, p) == Filter(init, p) + (if p(last) then [last] else []);
      assert Filter(xs, q) == Filter(init, q) + (if q(last) then [last] else []);
      assert multiset(xs) == multiset(init) + multiset{last};
    }
  }

  /** A filter that keeps every element is the identity. */
  lemma {:induction false} FilterKeepsAll<T>(xs: seq<T>, p: T -> bool)
    requires forall j :: 0 <= j < |xs| ==> p(xs[j])
    ensures Filter(xs, p) == xs
    decreases |xs|
  {
    if xs != [] {
      var init := xs[..|xs| - 1];
      FilterKeepsAll(init, p);
      assert xs == init + [xs[|xs| - 1]];
    }
  }

  /** `xs.splice(i, 1)`: the sequence without position `i`. */
  function RemoveAt<T>(xs: seq<T>, i: nat): (r: seq<T>)
    requires i < |xs|
    ensures |r| == |xs| - 1
    ensures forall j :: 0 <= j < i ==> r[j] == xs[j]
    ensures forall j :: i <= j < |r| ==> r[j] == xs[j + 1]
  {
    xs[..i] + xs[i + 1..]
  }

  /** Splicing out one element loses exactly that element. */
  lemma RemoveAtMultiset<T>(xs: seq<T>, i: nat)
    requires i < |xs|
    ensures multiset(RemoveAt(xs, i)) + multiset{xs[i]} == multiset(xs)
  {
    assert xs == xs[..i] + [xs[i]] + xs[i + 1..];
  }

  /** Dropping k elements after an `unshift` drops k - 1 of the old ones. */
  lemma DropAfterPrepend<T>(x: T, xs: seq<T>, k: nat)
    requires 0 < k <= |xs| + 1
    ensures ([x] + xs)[k..] == xs[k - 1..]
  {
  }

  /** `xs.slice(0, n)`. */
  function Take<T>(xs: seq<T>, n: nat): (r: seq<T>)
    ensures |r| == if n < |xs| then n else |xs|
    ensures r == xs[..|r|]
  {
    if n < |xs| then xs[..n] else xs
  }
}
