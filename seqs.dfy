/** Sequence helpers standing for the pandas primitives the source uses:
    a boolean-mask selection (`Filter`), "first row of a selection"
    (`FirstIndex`, `FirstMatch`) and `Series.unique()` (`Unique`). */
module Seqs {
  import opened Wrappers

  function Min(a: int, b: int): int { if a <= b then a else b }

  /** The elements of `s` that satisfy `p`, in their original order. */
  function Filter<T(!new)>(s: seq<T>, p: T -> bool): (r: seq<T>)
    ensures |r| <= |s|
    ensures forall x :: x in r <==> x in s && p(x)
  {
    if |s| == 0 then []
    else Filter(s[..|s| - 1], p) + (if p(s[|s| - 1]) then [s[|s| - 1]] else [])
  }

  /** Filtering distributes over concatenation. */
  lemma {:induction false} FilterAppend<T(!new)>(a: seq<T>, b: seq<T>, p: T -> bool)
    ensures Filter(a + b, p) == Filter(a, p) + Filter(b, p)
    decreases |b|
  {
    if |b| > 0 {
      var b' := b[..|b| - 1];
      assert (a + b)[..|a + b| - 1] == a + b';
      FilterAppend(a, b', p);
    } else {
      assert a + b == a;
    }
  }

  /** A mask that keeps every element keeps the whole sequence. */
  lemma {:induction false} FilterAll<T(!new)>(s: seq<T>, p: T -> bool)
    requires forall x :: x in s ==> p(x)
    ensures Filter(s, p) == s
    decreases |s|
  {
    if |s| > 0 {
      var n := |s| - 1;
      FilterAll(s[..n], p);
      assert p(s[n]) by { assert s[n] in s; }
      assert s == s[..n] + [s[n]];
    }
  }

  /** A mask that keeps no element gives the empty sequence. */
  lemma FilterNone<T(!new)>(s: seq<T>, p: T -> bool)
    requires forall x :: x in s ==> !p(x)
    ensures Filter(s, p) == []
  {
  }

  /** `r` is the subsequence of `s` at the increasing positions `idx`, and
      these are all the positions at which `p` holds. */
  ghost predicate SelectedAt<T>(s: seq<T>, p: T -> bool, r: seq<T>, idx: seq<int>)
  {
    && |idx| == |r|
    && (forall i :: 0 <= i < |idx| ==> 0 <= idx[i] < |s| && s[idx[i]] == r[i] && p(s[idx[i]]))
    && (forall i, j :: 0 <= i < j < |idx| ==> idx[i] < idx[j])
    && (forall k :: 0 <= k < |s| && p(s[k]) ==> k in idx)
  }

  /** A mask selection is a subsequence of its input: it takes the elements
      at increasing positions of `s`, which keeps their order. */
  lemma {:induction false} FilterPositions<T(!new)>(s: seq<T>, p: T -> bool) returns (idx: seq<int>)
    ensures SelectedAt(s, p, Filter(s, p), idx)
  {
    if |s| == 0 {
      idx := [];
    } else {
      var n := |s| - 1;
      var prev := FilterPositions(s[..n], p);
      idx := SelectedAtSnoc(s, p, Filter(s[..n], p), prev);
    }
  }

  lemma SelectedAtSnoc<T>(s: seq<T>, p: T -> bool, f: seq<T>, prev: seq<int>) returns (idx: seq<int>)
    requires |s| > 0
    requires SelectedAt(s[..|s| - 1], p, f, prev)
    ensures SelectedAt(s, p, f + (if p(s[|s| - 1]) then [s[|s| - 1]] else []), idx)
  {
    var n := |s| - 1;
    var r := f + (if p(s[n]) then [s[n]] else []);
    idx := prev + (if p(s[n]) then [n] else []);
    forall i | 0 <= i < |idx|
      ensures 0 <= idx[i] < |s| && s[idx[i]] == r[i] && p(s[idx[i]])
    {
      if i < |prev| {
        assert idx[i] == prev[i];
        assert s[prev[i]] == s[..n][prev[i]];
      }
    }
    forall i, j | 0 <= i < j < |idx|
      ensures idx[i] < idx[j]
    {
      assert idx[i] == prev[i];
    }
    forall k | 0 <= k < |s| && p(s[k])
      ensures k in idx
    {
      if k < n {
        assert s[..n][k] == s[k];
      }
    }
  }

  /** Selecting from a list in order of first appearance keeps that order. */
  lemma KeptInOrder<T(!new)>(s: seq<T>, u: seq<T>, p: T -> bool)
    requires InOrderOfFirstAppearance(s, u)
    ensures InOrderOfFirstAppearance(s, Filter(u, p))
  {
    var f := Filter(u, p);
    var idx := FilterPositions(u, p);
    forall i, j | 0 <= i < j < |f|
      ensures SeenBefore(s, f[i], f[j])
    {
      assert f[i] == u[idx[i]] && f[j] == u[idx[j]] && idx[i] < idx[j];
    }
  }

  /** A non-empty selection starts with the first element the mask keeps
      (pandas: the mask, then `iloc[0]`). */
  lemma FilterHead<T(!new)>(s: seq<T>, p: T -> bool)
    ensures |Filter(s, p)| > 0 <==> FirstIndex(s, p) < |s|
    ensures |Filter(s, p)| > 0 ==> Filter(s, p)[0] == s[FirstIndex(s, p)]
  {
    var idx := FilterPositions(s, p);
    var k := FirstIndex(s, p);
    if k < |s| {
      assert k in idx;
      var m :| 0 <= m < |idx| && idx[m] == k;
      assert p(s[idx[0]]);
      assert idx[0] >= k;
      assert idx[0] == k;
    } else {
      FilterNone(s, p);
    }
  }

  /** Two masks that agree on every element select the same rows. */
  lemma {:induction false} FilterExt<T(!new)>(s: seq<T>, p: T -> bool, q: T -> bool)
    requires forall x :: p(x) == q(x)
    ensures Filter(s, p) == Filter(s, q)
  {
    if |s| > 0 {
      FilterExt(s[..|s| - 1], p, q);
    }
  }

  /** The indices of `s` at which `p` holds: the independent reference
      definition of "how many rows does a mask select". */
  function Indices<T>(s: seq<T>, p: T -> bool): set<int>
  {
    set i | 0 <= i < |s| && p(s[i])
  }

  /** A mask selection has exactly as many rows as the mask has hits. */
  lemma {:induction false} FilterSize<T(!new)>(s: seq<T>, p: T -> bool)
    ensures |Filter(s, p)| == |Indices(s, p)|
  {
    if |s| > 0 {
      var n := |s| - 1;
      FilterSize(s[..n], p);
      IndicesSnoc(s, p);
      var extra: set<int> := if p(s[n]) then {n} else {};
      assert Indices(s[..n], p) !! extra;
    }
  }

  lemma IndicesSnoc<T>(s: seq<T>, p: T -> bool)
    requires |s| > 0
    ensures Indices(s, p) == Indices(s[..|s| - 1], p) + (if p(s[|s| - 1]) then {|s| - 1} else {})
  {
    var n := |s| - 1;
    var extra: set<int> := if p(s[n]) then {n} else {};
    forall i
      ensures i in Indices(s, p) <==> i in Indices(s[..n], p) + extra
    {
      if 0 <= i < n { assert s[..n][i] == s[i]; }
    }
  }

  /** Selecting with `p` and then with `q` is selecting with both at once. */
  lemma {:induction false} FilterFilter<T(!new)>(s: seq<T>, p: T -> bool, q: T -> bool, pq: T -> bool)
    requires forall x :: pq(x) == (p(x) && q(x))
    ensures Filter(Filter(s, p), q) == Filter(s, pq)
  {
    if |s| > 0 {
      var n := |s| - 1;
      FilterFilter(s[..n], p, q, pq);
      var fp := Filter(s[..n], p);
      if p(s[n]) {
        assert Filter(s, p) == fp + [s[n]];
        assert (fp + [s[n]])[..|fp|] == fp;
      } else {
        assert Filter(s, p) == fp;
      }
    }
  }

  /** Rows selected by three masks that split every row into exactly one
      class add up to the whole table. */
  lemma {:induction false} FilterPartition<T(!new)>(s: seq<T>, p: T -> bool, q: T -> bool, o: T -> bool)
    requires forall x :: (p(x) ==> !q(x) && !o(x)) && (q(x) ==> !o(x)) && (p(x) || q(x) || o(x))
    ensures |Filter(s, p)| + |Filter(s, q)| + |Filter(s, o)| == |s|
  {
    if |s| > 0 {
      FilterPartition(s[..|s| - 1], p, q, o);
    }
  }

  /** Position of the first element that satisfies `p`, or `|s|` if none. */
  function FirstIndex<T>(s: seq<T>, p: T -> bool): (k: nat)
    ensures k <= |s|
    ensures forall j :: 0 <= j < k ==> !p(s[j])
    ensures k < |s| ==> p(s[k])
  {
    if |s| == 0 then 0
    else if p(s[0]) then 0
    else 1 + FirstIndex(s[1..], p)
  }

  /** The first element that satisfies `p` (pandas: a mask, then `iloc[0]`
      or `values[0]`), `None` when the selection is empty. */
  function FirstMatch<T(!new)>(s: seq<T>, p: T -> bool): (r: Option<T>)
    ensures r.None? <==> forall x :: x in s ==> !p(x)
    ensures r.Some? ==> exists k :: 0 <= k < |s| && s[k] == r.value && p(s[k])
                                    && forall j :: 0 <= j < k ==> !p(s[j])
  {
    var k := FirstIndex(s, p);
    if k < |s| then Some(s[k]) else None
  }

  predicate Distinct<T(==)>(s: seq<T>)
  {
    forall i, j :: 0 <= i < j < |s| ==> s[i] != s[j]
  }

  /** `x` occurs in `s` before the first occurrence of `y`. */
  predicate SeenBefore<T(==)>(s: seq<T>, x: T, y: T)
  {
    exists a :: 0 <= a < |s| && s[a] == x && forall b :: 0 <= b < a ==> s[b] != y
  }

  /** The elements of `u` are listed in the order in which they first occur
      in `s`. */
  predicate InOrderOfFirstAppearance<T(==)>(s: seq<T>, u: seq<T>)
  {
    forall i, j :: 0 <= i < j < |u| ==> SeenBefore(s, u[i], u[j])
  }

  /** Appending to `s` keeps every "seen before" fact, and makes an element
      already present seen before the new one. */
  lemma SeenBeforeExtend<T>(s: seq<T>, x: T, y: T)
    requires |s| > 0
    requires SeenBefore(s[..|s| - 1], x, y) || (x in s[..|s| - 1] && y !in s[..|s| - 1])
    ensures SeenBefore(s, x, y)
  {
    var n := |s| - 1;
    var a :| 0 <= a < n && s[..n][a] == x &&
             (SeenBefore(s[..n], x, y) ==> forall b :: 0 <= b < a ==> s[..n][b] != y);
    forall b | 0 <= b < a
      ensures s[b] != y
    {
      assert s[b] == s[..n][b];
      assert s[..n][b] in s[..n];
    }
  }

  /** `Series.unique()`: every value once, in order of first appearance. */
  function Unique<T(==,!new)>(s: seq<T>): (u: seq<T>)
    ensures Distinct(u)
    ensures forall x :: x in u <==> x in s
    ensures InOrderOfFirstAppearance(s, u)
    ensures |u| <= |s|
  {
    if |s| == 0 then []
    else
      var u := Unique(s[..|s| - 1]);
      var x := s[|s| - 1];
      assert forall y :: y in s <==> y in s[..|s| - 1] || y == x by {
        assert s == s[..|s| - 1] + [x];
      }
      assert InOrderOfFirstAppearance(s, u) by {
        forall i, j | 0 <= i < j < |u| ensures SeenBefore(s, u[i], u[j]) {
          SeenBeforeExtend(s, u[i], u[j]);
        }
      }
      assert x !in u ==> InOrderOfFirstAppearance(s, u + [x]) by {
        if x !in u {
          forall i, j | 0 <= i < j < |u + [x]| ensures SeenBefore(s, (u + [x])[i], (u + [x])[j]) {
            if j == |u| {
              assert u[i] in u;
              SeenBeforeExtend(s, u[i], x);
            }
          }
        }
      }
      if x in u then u else u + [x]
  }

  /** A sequence without repetitions has as many elements as its set. */
  lemma {:induction false} DistinctCard<T>(u: seq<T>)
    requires Distinct(u)
    ensures |set x | x in u| == |u|
  {
    if |u| > 0 {
      var n := |u| - 1;
      assert Distinct(u[..n]);
      DistinctCard(u[..n]);
      assert u == u[..n] + [u[n]];
      assert (set x | x in u) == (set x | x in u[..n]) + {u[n]};
      assert u[n] !in (set x | x in u[..n]);
    }
  }

  /** `unique()` has as many values as there are distinct values. */
  lemma UniqueCount<T(!new)>(s: seq<T>)
    ensures |Unique(s)| == |set x | x in s|
  {
    DistinctCard(Unique(s));
    assert (set x | x in Unique(s)) == (set x | x in s);
  }

  /** A selection from a sequence without repetitions has none either. */
  lemma {:induction false} FilterDistinct<T(!new)>(s: seq<T>, p: T -> bool)
    requires Distinct(s)
    ensures Distinct(Filter(s, p))
  {
    if |s| > 0 {
      var n := |s| - 1;
      assert Distinct(s[..n]);
      FilterDistinct(s[..n], p);
      assert s[n] !in s[..n];
    }
  }
}
