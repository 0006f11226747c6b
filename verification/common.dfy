/** Small shared vocabulary: optional values, results, HTTP replies, and
    first-match / filter / count over sequences of records (the shape of the
    `select ... where ...` queries the application issues). */
module Common {

  datatype Option<+T> = None | Some(value: T)

  datatype Result<+T, +E> = Ok(value: T) | Err(error: E)

  /** A reply as sent by a route handler: a status code and a body. */
  datatype Reply<+B> = Reply(status: nat, body: B)

  /** JavaScript truthiness of an optional string: present and non-empty. */
  predicate Truthy(v: Option<string>)
  {
    v.Some? && v.value != ""
  }

  /** Index of the first element satisfying `p`, the row a `select ... limit 1`
      returns when rows come back in insertion order. */
  function FindFirst<T>(xs: seq<T>, p: T -> bool): (r: Option<nat>)
    ensures r.Some? ==> r.value < |xs| && p(xs[r.value])
    ensures r.Some? ==> forall j :: 0 <= j < r.value ==> !p(xs[j])
    ensures r.None? <==> forall j :: 0 <= j < |xs| ==> !p(xs[j])
  {
    if |xs| == 0 then None
    else if p(xs[0]) then Some(0)
    else
      match FindFirst(xs[1..], p)
      case None => None
      case Some(i) => Some(i + 1)
  }

  /** The elements satisfying `p`. */
  function Filter<T>(xs: seq<T>, p: T -> bool): (r: seq<T>)
    ensures |r| <= |xs|
    ensures forall k :: 0 <= k < |r| ==> p(r[k]) && r[k] in xs
    ensures forall x :: x in xs && p(x) ==> x in r
  {
    if |xs| == 0 then []
    else
      var init := Filter(xs[..|xs| - 1], p);
      assert forall x :: x in xs ==> x in xs[..|xs| - 1] || x == xs[|xs| - 1];
      if p(xs[|xs| - 1]) then init + [xs[|xs| - 1]] else init
  }

  /** Number of elements satisfying `p`, counted from the back. */
  function Count<T>(xs: seq<T>, p: T -> bool): nat
  {
    if |xs| == 0 then 0
    else Count(xs[..|xs| - 1], p) + (if p(xs[|xs| - 1]) then 1 else 0)
  }

  /** The positions of the elements satisfying `p`: an independent statement
      of "how many rows match". */
  ghost function MatchingPositions<T>(xs: seq<T>, p: T -> bool): set<nat>
  {
    set i: nat | i < |xs| && p(xs[i])
  }

  lemma {:induction false} CountIsMatchingPositions<T>(xs: seq<T>, p: T -> bool)
    ensures Count(xs, p) == |MatchingPositions(xs, p)|
    decreases |xs|
  {
    if |xs| == 0 {
      assert MatchingPositions(xs, p) == {};
    } else {
      var n := |xs| - 1;
      var init := xs[..n];
      CountIsMatchingPositions(init, p);
      var a := MatchingPositions(init, p);
      assert forall i: nat :: i < n ==> init[i] == xs[i];
      if p(xs[n]) {
        assert MatchingPositions(xs, p) == a + {n};
        assert n !in a;
      } else {
        assert MatchingPositions(xs, p) == a;
      }
    }
  }

  lemma {:induction false} FilterLengthIsCount<T>(xs: seq<T>, p: T -> bool)
    ensures |Filter(xs, p)| == Count(xs, p)
    decreases |xs|
  {
    if |xs| > 0 {
      FilterLengthIsCount(xs[..|xs| - 1], p);
    }
  }

  /** No element satisfies `p` exactly when the count is zero. */
  lemma {:induction false} CountZeroIffNone<T>(xs: seq<T>, p: T -> bool)
    ensures Count(xs, p) == 0 <==> forall j :: 0 <= j < |xs| ==> !p(xs[j])
    decreases |xs|
  {
    if |xs| > 0 {
      var n := |xs| - 1;
      CountZeroIffNone(xs[..n], p);
      assert forall j :: 0 <= j < n ==> xs[..n][j] == xs[j];
    }
  }

  /** Filtering keeps a key that was distinct across the rows distinct. */
  lemma {:induction false} FilterKeepsDistinct<T, K>(xs: seq<T>, p: T -> bool, key: T -> K)
    requires forall i, j :: 0 <= i < j < |xs| ==> key(xs[i]) != key(xs[j])
    ensures forall i, j :: 0 <= i < j < |Filter(xs, p)| ==> key(Filter(xs, p)[i]) != key(Filter(xs, p)[j])
    decreases |xs|
  {
    if |xs| > 0 {
      var n := |xs| - 1;
      var init := xs[..n];
      FilterKeepsDistinct(init, p, key);
      var fi := Filter(init, p);
      forall k | 0 <= k < |fi| ensures key(fi[k]) != key(xs[n]) {
        var m :| 0 <= m < n && init[m] == fi[k];
      }
    }
  }
}
