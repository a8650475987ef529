/** The JavaScript array operations the hook relies on, over sequences of possibly-absent entries. */
module Arrays {
  import opened Wrappers

  /** `createArrayWithNumbers(n)`: the indices 0 .. n-1 in order. */
  function Range(n: nat): (r: seq<nat>)
    ensures |r| == n
    ensures forall i :: 0 <= i < n ==> r[i] == i
  {
    if n == 0 then [] else Range(n - 1) + [n - 1]
  }

  /** `[...s].reverse()`: a reversed copy. */
  function Reverse<T>(s: seq<T>): seq<T>
  {
    seq(|s|, k requires 0 <= k < |s| => s[|s| - 1 - k])
  }

  /** Reading `a[i]`: a hole, or an index past the end, reads as `undefined`. */
  function Lookup<T>(a: seq<Option<T>>, i: int): Option<T>
  {
    if 0 <= i < |a| then a[i] else None
  }

  /** `k` holes, as a sparse array has between its last entry and an index written past its end. */
  function Holes<T>(k: nat): (r: seq<Option<T>>)
    ensures |r| == k
    ensures forall j :: 0 <= j < k ==> r[j] == None
  {
    seq(k, _ => None)
  }

  /** `a[i] = v`: writing at or past the end of the array grows it to `i + 1`, leaving holes between. */
  function Assign<T>(a: seq<Option<T>>, i: nat, v: T): (r: seq<Option<T>>)
    ensures |r| == if i < |a| then |a| else i + 1
    ensures r[i] == Some(v)
    ensures forall j :: 0 <= j < |r| && j != i ==> r[j] == Lookup(a, j)
  {
    if i < |a| then a[i := Some(v)] else a + Holes(i - |a|) + [Some(v)]
  }

  lemma AssignPastEnd<T>(a: seq<Option<T>>, i: nat, v: T)
    requires |a| <= i
    ensures Assign(a, i, v) == a + Holes(i - |a|) + [Some(v)]
  {
  }

  /** `Object.values(a)` on a sparse array: the present entries in index order, holes dropped. */
  function Present<T>(a: seq<Option<T>>): (r: seq<T>)
    ensures |r| <= |a|
  {
    if a == [] then []
    else Present(a[..|a| - 1]) + (if a[|a| - 1].Some? then [a[|a| - 1].value] else [])
  }

  /** One more index adds its entry to `Object.values` when it is present. */
  lemma PresentNext<T>(a: seq<Option<T>>, k: nat)
    requires k < |a|
    ensures Present(a[..k + 1]) == Present(a[..k]) + if a[k].Some? then [a[k].value] else []
  {
    assert a[..k + 1][..k] == a[..k];
  }

  /** A prefix is the slice of its own length. */
  lemma PrefixTake<T>(p: seq<T>, s: seq<T>)
    requires p <= s
    ensures |p| <= |s| && s[..|p|] == p
  {
  }

  /** `Object.values` of the first `k` indices is a prefix of `Object.values` of the whole array. */
  lemma {:induction false} PresentPrefix<T>(a: seq<Option<T>>, k: nat)
    requires k <= |a|
    ensures Present(a[..k]) <= Present(a)
    decreases |a|
  {
    if k == |a| {
      assert a[..k] == a;
    } else {
      var init := a[..|a| - 1];
      assert init[..k] == a[..k];
      PresentPrefix(init, k);
      var p, q := Present(a[..k]), Present(init);
      assert Present(a) == q + (if a[|a| - 1].Some? then [a[|a| - 1].value] else []);
      assert Present(a)[..|p|] == q[..|p|] == p;
    }
  }

  /** `Object.values` of a sparse array that has no holes lists its entries at their own indices. */
  lemma {:induction false} PresentDense<T>(a: seq<Option<T>>)
    requires forall j :: 0 <= j < |a| ==> a[j].Some?
    ensures |Present(a)| == |a|
    ensures forall j :: 0 <= j < |a| ==> Present(a)[j] == a[j].value
  {
    if a != [] {
      PresentDense(a[..|a| - 1]);
    }
  }

  /** Holes at the end of a sparse array contribute nothing to `Object.values`. */
  lemma {:induction false} PresentHoles<T>(a: seq<Option<T>>, k: nat)
    ensures Present(a + Holes(k)) == Present(a)
  {
    if k > 0 {
      assert (a + Holes(k))[..|a| + k - 1] == a + Holes(k - 1);
      PresentHoles(a, k - 1);
    } else {
      assert a + Holes(k) == a;
    }
  }
}
