/**
 * The three group statistics used by the preprocessing pipeline, over the
 * present (non-NaN) values of one partition: pandas' `median()`, `mode()[0]`
 * and `mean()`. Each yields `None` on an empty partition, as pandas yields NaN.
 * Floating point is replaced by exact `real` arithmetic.
 */
module Statistics {
  import opened Wrappers

  predicate Sorted(s: seq<real>) {
    forall i, j :: 0 <= i < j < |s| ==> s[i] <= s[j]
  }

  lemma SortedCons(a: real, t: seq<real>)
    requires Sorted(t)
    requires forall y :: y in multiset(t) ==> a <= y
    ensures Sorted([a] + t)
  {
    assert forall k :: 0 <= k < |t| ==> t[k] in multiset(t);
  }

  lemma SortedTail(a: seq<real>)
    requires Sorted(a) && a != []
    ensures Sorted(a[1..])
  {
  }

  /** Inserts `x` into the sorted sequence `s`. */
  function Insert(x: real, s: seq<real>): (r: seq<real>)
    requires Sorted(s)
    ensures Sorted(r)
    ensures multiset(r) == multiset(s) + multiset{x}
  {
    if s == [] || x <= s[0] then
      SortedCons(x, s);
      [x] + s
    else
      assert s == [s[0]] + s[1..];
      SortedTail(s);
      var tail := Insert(x, s[1..]);
      assert forall y :: y in multiset(s[1..]) ==> s[0] <= y;
      SortedCons(s[0], tail);
      [s[0]] + tail
  }

  /** The values of `xs` in ascending order (the order `median` works on). */
  function Sort(xs: seq<real>): (r: seq<real>)
    ensures Sorted(r)
    ensures multiset(r) == multiset(xs)
    ensures |r| == |xs|
  {
    if xs == [] then
      []
    else
      assert xs == [xs[0]] + xs[1..];
      var r := Insert(xs[0], Sort(xs[1..]));
      assert |multiset(r)| == |r|;
      r
  }

  lemma MultisetTail(a: seq<real>)
    requires a != []
    ensures multiset(a[1..]) == multiset(a) - multiset{a[0]}
  {
    assert a == [a[0]] + a[1..];
  }

  /** The head of a non-empty sorted sequence is its least value. */
  lemma SortedHeadIsLeast(a: seq<real>, x: real)
    requires Sorted(a) && x in multiset(a)
    ensures a[0] <= x
  {
    var i :| 0 <= i < |a| && a[i] == x;
  }

  /** Two sorted arrangements of the same values are the same sequence. */
  lemma {:induction false} SortedUnique(a: seq<real>, b: seq<real>)
    requires Sorted(a) && Sorted(b)
    requires multiset(a) == multiset(b)
    ensures a == b
  {
    assert |a| == |multiset(a)| == |multiset(b)| == |b|;
    if a != [] {
      assert a[0] in multiset(a) && b[0] in multiset(b);
      SortedHeadIsLeast(a, b[0]);
      SortedHeadIsLeast(b, a[0]);
      MultisetTail(a);
      MultisetTail(b);
      assert a[0] == b[0];
      assert multiset(a[1..]) == multiset(b[1..]);
      SortedTail(a);
      SortedTail(b);
      SortedUnique(a[1..], b[1..]);
      assert a == [a[0]] + a[1..] && b == [b[0]] + b[1..];
    }
  }

  /** Sorting depends only on the multiset of values, not on their row order. */
  lemma SortDependsOnlyOnValues(a: seq<real>, b: seq<real>)
    requires multiset(a) == multiset(b)
    ensures Sort(a) == Sort(b)
  {
    SortedUnique(Sort(a), Sort(b));
  }

  /** The middle value of `s`, or the mean of its two middle values. */
  function Middle(s: seq<real>): real
    requires s != []
  {
    var n := |s|;
    if n % 2 == 1 then s[n / 2] else (s[n / 2 - 1] + s[n / 2]) / 2.0
  }

  /** pandas `median()`: the middle of the values once sorted. */
  function Median(xs: seq<real>): (r: Option<real>)
    ensures r.Some? <==> xs != []
  {
    if xs == [] then None else Some(Middle(Sort(xs)))
  }

  /** Number of values of `xs` satisfying `p`. */
  function CountIf(xs: seq<real>, p: real -> bool): nat {
    if xs == [] then 0 else (if p(xs[0]) then 1 else 0) + CountIf(xs[1..], p)
  }

  lemma {:induction false} CountIfInsert(x: real, s: seq<real>, p: real -> bool)
    requires Sorted(s)
    ensures CountIf(Insert(x, s), p) == CountIf(s, p) + (if p(x) then 1 else 0)
  {
    if s == [] || x <= s[0] {
      assert ([x] + s)[1..] == s;
    } else {
      CountIfInsert(x, s[1..], p);
      assert ([s[0]] + Insert(x, s[1..]))[1..] == Insert(x, s[1..]);
    }
  }

  lemma {:induction false} CountIfSort(xs: seq<real>, p: real -> bool)
    ensures CountIf(Sort(xs), p) == CountIf(xs, p)
  {
    if xs != [] {
      CountIfSort(xs[1..], p);
      CountIfInsert(xs[0], Sort(xs[1..]), p);
    }
  }

  /** If the first `k` values satisfy `p`, at least `k` values do. */
  lemma {:induction false} CountIfPrefix(s: seq<real>, p: real -> bool, k: nat)
    requires k <= |s|
    requires forall i :: 0 <= i < k ==> p(s[i])
    ensures CountIf(s, p) >= k
  {
    if k > 0 {
      CountIfPrefix(s[1..], p, k - 1);
    }
  }

  /** If the values from index `k` on satisfy `p`, at least `|s| - k` values do. */
  lemma {:induction false} CountIfSuffix(s: seq<real>, p: real -> bool, k: nat)
    requires k <= |s|
    requires forall i :: k <= i < |s| ==> p(s[i])
    ensures CountIf(s, p) >= |s| - k
  {
    if s != [] {
      CountIfSuffix(s[1..], p, if k == 0 then 0 else k - 1);
    }
  }

  /** Number of values of `xs` at most `m`. */
  function CountAtMost(xs: seq<real>, m: real): nat {
    CountIf(xs, y => y <= m)
  }

  /** Number of values of `xs` at least `m`. */
  function CountAtLeast(xs: seq<real>, m: real): nat {
    CountIf(xs, y => y >= m)
  }

  lemma MiddleSplitsInHalves(s: seq<real>)
    requires s != [] && Sorted(s)
    ensures 2 * CountAtMost(s, Middle(s)) >= |s|
    ensures 2 * CountAtLeast(s, Middle(s)) >= |s|
  {
    var n := |s|;
    var m := Middle(s);
    var lower := if n % 2 == 1 then n / 2 + 1 else n / 2;
    assert forall i :: 0 <= i < lower ==> s[i] <= s[lower - 1] <= m;
    assert forall i :: n / 2 <= i < n ==> m <= s[n / 2] <= s[i];
    CountIfPrefix(s, y => y <= m, lower);
    CountIfSuffix(s, y => y >= m, n / 2);
  }

  /**
   * The median splits the values in halves: at least half of them are at
   * most the median and at least half are at least the median.
   */
  lemma MedianSplitsInHalves(xs: seq<real>)
    requires xs != []
    ensures 2 * CountAtMost(xs, Median(xs).value) >= |xs|
    ensures 2 * CountAtLeast(xs, Median(xs).value) >= |xs|
  {
    var s := Sort(xs);
    var m := Middle(s);
    MiddleSplitsInHalves(s);
    CountIfSort(xs, y => y <= m);
    CountIfSort(xs, y => y >= m);
  }

  /** The median lies between the smallest and the largest present value. */
  lemma MedianWithinRange(xs: seq<real>)
    requires xs != []
    ensures exists i :: 0 <= i < |xs| && xs[i] <= Median(xs).value
    ensures exists j :: 0 <= j < |xs| && Median(xs).value <= xs[j]
  {
    var s := Sort(xs);
    var n := |s|;
    assert Median(xs).value == Middle(s);
    assert s[0] in multiset(xs) && s[n - 1] in multiset(xs);
    var i :| 0 <= i < |xs| && xs[i] == s[0];
    var j :| 0 <= j < |xs| && xs[j] == s[n - 1];
    assert s[0] <= s[n / 2] && s[n / 2] <= s[n - 1];
  }

  /** A partition whose present values all equal `v` has median `v`. */
  lemma MedianOfConstant(xs: seq<real>, v: real)
    requires xs != []
    requires forall i :: 0 <= i < |xs| ==> xs[i] == v
    ensures Median(xs) == Some(v)
  {
    var s := Sort(xs);
    forall k | 0 <= k < |s| ensures s[k] == v {
      assert s[k] in multiset(xs);
    }
  }

  /** The median does not depend on the order of the rows. */
  lemma MedianDependsOnlyOnValues(a: seq<real>, b: seq<real>)
    requires multiset(a) == multiset(b)
    ensures Median(a) == Median(b)
  {
    assert |a| == |multiset(a)| == |multiset(b)| == |b|;
    if a != [] {
      SortDependsOnlyOnValues(a, b);
    }
  }

  /** How often `v` occurs in `xs`. */
  function Occurrences(xs: seq<real>, v: real): nat {
    multiset(xs)[v]
  }

  /**
   * `m` is the first entry of pandas' `mode()`: a most frequent value, and
   * the smallest of them (pandas returns the modes sorted).
   */
  predicate IsFirstMode(xs: seq<real>, m: real) {
    && m in xs
    && (forall v :: v in xs ==> Occurrences(xs, v) <= Occurrences(xs, m))
    && (forall v :: v in xs && Occurrences(xs, v) == Occurrences(xs, m) ==> m <= v)
  }

  /** The candidate of `cands` that is most frequent in `xs`, smallest among ties. */
  function MostFrequent(cands: seq<real>, xs: seq<real>): (r: real)
    requires cands != []
    ensures r in cands
    ensures forall c :: c in cands ==>
      Occurrences(xs, c) < Occurrences(xs, r) || (Occurrences(xs, c) == Occurrences(xs, r) && r <= c)
  {
    if |cands| == 1 then
      cands[0]
    else
      var best := MostFrequent(cands[1..], xs);
      assert forall c :: c in cands ==> c == cands[0] || c in cands[1..];
      var here, there := Occurrences(xs, cands[0]), Occurrences(xs, best);
      if here > there || (here == there && cands[0] < best) then cands[0] else best
  }

  /** pandas `mode()[0]`, or `None` when `mode()` is empty. */
  function Mode(xs: seq<real>): (r: Option<real>)
    ensures r.Some? <==> xs != []
    ensures r.Some? ==> IsFirstMode(xs, r.value)
    ensures forall m :: IsFirstMode(xs, m) ==> r == Some(m)
  {
    if xs == [] then
      None
    else
      var m := MostFrequent(xs, xs);
      assert forall m' :: IsFirstMode(xs, m') ==> m' == m by {
        forall m' | IsFirstMode(xs, m') ensures m' == m {
          assert Occurrences(xs, m') == Occurrences(xs, m);
        }
      }
      Some(m)
  }

  /** The first mode does not depend on the order of the rows. */
  lemma ModeDependsOnlyOnValues(a: seq<real>, b: seq<real>)
    requires multiset(a) == multiset(b)
    ensures Mode(a) == Mode(b)
  {
    assert forall v :: v in a <==> v in b by {
      forall v ensures v in a <==> v in b {
        assert v in a <==> v in multiset(a);
        assert v in b <==> v in multiset(b);
      }
    }
    if a != [] {
      var m := Mode(a).value;
      assert IsFirstMode(b, m);
    } else {
      assert |b| == |multiset(b)| == 0;
    }
  }

  /**
   * The fill value of the cylinders lambda: the first mode, or the median
   * when the mode is empty. The fallback never supplies a value: the mode is
   * empty exactly when there are no present values, and then so is the median.
   */
  function ModeElseMedian(xs: seq<real>): (r: Option<real>)
    ensures r == Mode(xs)
  {
    var mode := Mode(xs);
    if mode.Some? then mode else Median(xs)
  }

  function Sum(xs: seq<real>): real {
    if xs == [] then 0.0 else xs[0] + Sum(xs[1..])
  }

  /** pandas `mean()`: the sum of the present values over their count. */
  function Mean(xs: seq<real>): (r: Option<real>)
    ensures r.Some? <==> xs != []
    ensures r.Some? ==> r.value * (|xs| as real) == Sum(xs)
  {
    if xs == [] then None else Some(Sum(xs) / (|xs| as real))
  }

  lemma {:induction false} SumOfConstant(xs: seq<real>, v: real)
    requires forall i :: 0 <= i < |xs| ==> xs[i] == v
    ensures Sum(xs) == (|xs| as real) * v
  {
    if xs != [] {
      SumOfConstant(xs[1..], v);
    }
  }

  /** A partition whose present values all equal `v` has mean `v`. */
  lemma MeanOfConstant(xs: seq<real>, v: real)
    requires xs != []
    requires forall i :: 0 <= i < |xs| ==> xs[i] == v
    ensures Mean(xs) == Some(v)
  {
    SumOfConstant(xs, v);
    var n := |xs| as real;
    assert Sum(xs) / n == n * v / n == v;
    assert Mean(xs) == Some(Sum(xs) / n);
  }

  lemma {:induction false} SumInsert(x: real, s: seq<real>)
    requires Sorted(s)
    ensures Sum(Insert(x, s)) == x + Sum(s)
  {
    if s == [] || x <= s[0] {
      assert ([x] + s)[1..] == s;
    } else {
      SumInsert(x, s[1..]);
      assert ([s[0]] + Insert(x, s[1..]))[1..] == Insert(x, s[1..]);
    }
  }

  lemma {:induction false} SumSort(xs: seq<real>)
    ensures Sum(Sort(xs)) == Sum(xs)
  {
    if xs != [] {
      SumSort(xs[1..]);
      SumInsert(xs[0], Sort(xs[1..]));
    }
  }

  /** The mean does not depend on the order of the rows. */
  lemma MeanDependsOnlyOnValues(a: seq<real>, b: seq<real>)
    requires multiset(a) == multiset(b)
    ensures Mean(a) == Mean(b)
  {
    SumSort(a);
    SumSort(b);
    SortDependsOnlyOnValues(a, b);
    assert |a| == |multiset(a)| == |multiset(b)| == |b|;
  }

  lemma {:induction false} SumBelow(xs: seq<real>, m: real)
    requires forall i :: 0 <= i < |xs| ==> xs[i] > m
    ensures xs != [] ==> Sum(xs) > (|xs| as real) * m
  {
    if xs != [] {
      SumBelow(xs[1..], m);
    }
  }

  lemma {:induction false} SumAbove(xs: seq<real>, m: real)
    requires forall i :: 0 <= i < |xs| ==> xs[i] < m
    ensures xs != [] ==> Sum(xs) < (|xs| as real) * m
  {
    if xs != [] {
      SumAbove(xs[1..], m);
    }
  }

  /** The mean lies between the smallest and the largest present value. */
  lemma MeanWithinRange(xs: seq<real>)
    requires xs != []
    ensures exists i :: 0 <= i < |xs| && xs[i] <= Mean(xs).value
    ensures exists j :: 0 <= j < |xs| && Mean(xs).value <= xs[j]
  {
    var m := Mean(xs).value;
    if forall i :: 0 <= i < |xs| ==> xs[i] > m {
      SumBelow(xs, m);
    }
    if forall j :: 0 <= j < |xs| ==> xs[j] < m {
      SumAbove(xs, m);
    }
  }
}
