/** The robust slope estimator of the drift report (tools/av_harness/av_report.py), over the reals. */
module TheilSen {
  import opened Words

  // ---------------------------------------------------------------------------
  // Sorting and the median
  // ---------------------------------------------------------------------------

  ghost predicate Sorted(s: seq<real>) {
    forall i, j :: 0 <= i <= j < |s| ==> s[i] <= s[j]
  }

  function Insert(x: real, s: seq<real>): (r: seq<real>)
    ensures |r| == |s| + 1
  {
    if s == [] || x <= s[0] then [x] + s else [s[0]] + Insert(x, s[1..])
  }

  /** Python's `sorted`. */
  function Sort(s: seq<real>): (r: seq<real>)
    ensures |r| == |s|
  {
    if s == [] then [] else Insert(s[0], Sort(s[1..]))
  }

  function Median(v: seq<real>): Option<real> {
    if v == [] then None
    else
      var s, n := Sort(v), |v|;
      Some(if n % 2 == 1 then s[n / 2] else 0.5 * (s[n / 2 - 1] + s[n / 2]))
  }

  /** How many values differ from `m`. */
  function Others(s: seq<real>, m: real): nat {
    if s == [] then 0 else (if s[0] != m then 1 else 0) + Others(s[1..], m)
  }

  lemma {:induction false} InsertSorts(x: real, s: seq<real>, m: real)
    requires Sorted(s)
    ensures Sorted(Insert(x, s))
    ensures forall y :: y in Insert(x, s) <==> y == x || y in s
    ensures Others(Insert(x, s), m) == Others([x] + s, m)
  {
    assert ([x] + s)[1..] == s;
    if s != [] && x > s[0] {
      var t := Insert(x, s[1..]);
      InsertSorts(x, s[1..], m);
      var r := [s[0]] + t;
      assert ([x] + s[1..])[1..] == s[1..] && r[1..] == t;
      assert s == [s[0]] + s[1..];
      forall i, j | 0 <= i <= j < |r|
        ensures r[i] <= r[j]
      {
        if i == 0 && j > 0 {
          assert r[j] in t;
        }
      }
    }
  }

  /** Sorting orders the values and neither adds nor loses any different from `m`. */
  lemma {:induction false} SortSorts(s: seq<real>, m: real)
    ensures Sorted(Sort(s)) && Others(Sort(s), m) == Others(s, m)
  {
    if s != [] {
      SortSorts(s[1..], m);
      InsertSorts(s[0], Sort(s[1..]), m);
      assert ([s[0]] + Sort(s[1..]))[1..] == Sort(s[1..]);
    }
  }

  /** A stretch of values different from `m` counts in full. */
  lemma {:induction false} StretchCounts(s: seq<real>, m: real, lo: nat, hi: nat)
    requires lo <= hi <= |s| && forall i :: lo <= i < hi ==> s[i] != m
    ensures Others(s, m) >= hi - lo
  {
    if s != [] {
      if lo > 0 {
        StretchCounts(s[1..], m, lo - 1, hi - 1);
      } else if hi > 0 {
        StretchCounts(s[1..], m, 0, hi - 1);
      }
    }
  }

  /** If less than half of the values differ from `m`, the median is `m`. */
  lemma MajorityIsMedian(v: seq<real>, m: real)
    requires 2 * Others(v, m) < |v|
    ensures Median(v) == Some(m)
  {
    hide Sort, Others;
    var s, n := Sort(v), |v|;
    SortSorts(v, m);
    Middle(s, m, n / 2);
    if n % 2 == 0 { Middle(s, m, n / 2 - 1); }
  }

  lemma Middle(s: seq<real>, m: real, k: nat)
    requires Sorted(s) && k < |s| && Others(s, m) < k + 1 && Others(s, m) < |s| - k
    ensures s[k] == m
  {
    if s[k] < m {
      StretchCounts(s, m, 0, k + 1);
    } else if s[k] > m {
      StretchCounts(s, m, k, |s|);
    }
  }

  // ---------------------------------------------------------------------------
  // Pairwise slopes
  // ---------------------------------------------------------------------------

  /** The slopes from point `i` to the points from `j` on; equal abscissae give none. */
  function Row(xs: seq<real>, ys: seq<real>, i: nat, j: nat): seq<real>
    requires |xs| == |ys| && i < |xs| && j <= |xs|
    decreases |xs| - j
  {
    if j == |xs| then []
    else
      (if xs[j] - xs[i] != 0.0 then [(ys[j] - ys[i]) / (xs[j] - xs[i])] else []) + Row(xs, ys, i, j + 1)
  }

  function Slopes(xs: seq<real>, ys: seq<real>, i: nat): seq<real>
    requires |xs| == |ys| && i <= |xs|
    decreases |xs| - i
  {
    if i == |xs| then [] else Row(xs, ys, i, i + 1) + Slopes(xs, ys, i + 1)
  }

  function Estimate(xs: seq<real>, ys: seq<real>): Option<real>
    requires |xs| == |ys|
  {
    if |xs| < 5 then None else Median(Slopes(xs, ys, 0))
  }

  /** The inner loop of `theil_sen`. */
  method AppendRow(slopes: seq<real>, xs: seq<real>, ys: seq<real>, i: nat) returns (r: seq<real>)
    requires |xs| == |ys| && i < |xs|
    ensures r == slopes + Row(xs, ys, i, i + 1)
  {
    r := slopes;
    for j := i + 1 to |xs|
      invariant r + Row(xs, ys, i, j) == slopes + Row(xs, ys, i, i + 1)
    {
      var dx := xs[j] - xs[i];
      if dx != 0.0 {
        ghost var rest := Row(xs, ys, i, j + 1);
        assert r + ([(ys[j] - ys[i]) / dx] + rest) == (r + [(ys[j] - ys[i]) / dx]) + rest;
        r := r + [(ys[j] - ys[i]) / dx];
      } else {
        assert [] + Row(xs, ys, i, j + 1) == Row(xs, ys, i, j + 1);
      }
    }
    assert r + [] == r;
  }

  /** `theil_sen`. */
  method TheilSenSlope(xs: seq<real>, ys: seq<real>) returns (r: Option<real>)
    requires |xs| == |ys|
    ensures r == Estimate(xs, ys)
  {
    hide Row, Median, Slopes;
    var n := |xs|;
    if n < 5 {
      return None;
    }
    var slopes := [];
    assert slopes + Slopes(xs, ys, 0) == Slopes(xs, ys, 0);
    for i := 0 to n
      invariant slopes + Slopes(xs, ys, i) == Slopes(xs, ys, 0)
    {
      NextSlopes(slopes, xs, ys, i);
      slopes := AppendRow(slopes, xs, ys, i);
    }
    LastSlopes(slopes, xs, ys);
    r := Median(slopes);
  }

  lemma NextSlopes(slopes: seq<real>, xs: seq<real>, ys: seq<real>, i: nat)
    requires |xs| == |ys| && i < |xs|
    ensures slopes + Slopes(xs, ys, i) == (slopes + Row(xs, ys, i, i + 1)) + Slopes(xs, ys, i + 1)
  {
    hide Row;
  }

  lemma LastSlopes(slopes: seq<real>, xs: seq<real>, ys: seq<real>)
    requires |xs| == |ys|
    ensures slopes + Slopes(xs, ys, |xs|) == slopes
  {
  }

  // ---------------------------------------------------------------------------
  // Points on a line
  // ---------------------------------------------------------------------------

  ghost predicate OnLine(xs: seq<real>, ys: seq<real>, a: real, m: real, i: nat)
    requires |xs| == |ys| && i < |xs|
  {
    ys[i] == a + m * xs[i]
  }

  ghost predicate Distinct(xs: seq<real>) {
    forall i, j :: 0 <= i < j < |xs| ==> xs[i] != xs[j]
  }

  /** How many of the points from `i` on lie on the line. */
  ghost function Good(xs: seq<real>, ys: seq<real>, a: real, m: real, i: nat): (g: nat)
    requires |xs| == |ys| && i <= |xs|
    ensures g <= |xs| - i
    decreases |xs| - i
  {
    if i == |xs| then 0
    else (if OnLine(xs, ys, a, m, i) then 1 else 0) + Good(xs, ys, a, m, i + 1)
  }

  lemma SlopeOfLine(m: real, d: real)
    requires d != 0.0
    ensures (m * d) / d == m
  {
  }

  lemma PairSlope(xs: seq<real>, ys: seq<real>, a: real, m: real, i: nat, j: nat)
    requires |xs| == |ys| && i < |xs| && j < |xs| && xs[j] != xs[i]
    requires OnLine(xs, ys, a, m, i) && OnLine(xs, ys, a, m, j)
    ensures (ys[j] - ys[i]) / (xs[j] - xs[i]) == m
  {
    var d := xs[j] - xs[i];
    assert ys[j] - ys[i] == m * d;
    SlopeOfLine(m, d);
  }

  lemma {:induction false} OthersConcat(s: seq<real>, t: seq<real>, m: real)
    ensures Others(s + t, m) == Others(s, m) + Others(t, m)
  {
    if s == [] {
      assert s + t == t;
    } else {
      assert (s + t)[1..] == s[1..] + t;
      OthersConcat(s[1..], t, m);
    }
  }

  lemma {:induction false} RowCounts(xs: seq<real>, ys: seq<real>, a: real, m: real, i: nat, j: nat)
    requires |xs| == |ys| && Distinct(xs) && i < j <= |xs|
    ensures |Row(xs, ys, i, j)| == |xs| - j
    ensures OnLine(xs, ys, a, m, i) ==> Others(Row(xs, ys, i, j), m) <= |xs| - j - Good(xs, ys, a, m, j)
    ensures Others(Row(xs, ys, i, j), m) <= |xs| - j
    decreases |xs| - j
  {
    if j < |xs| {
      RowCounts(xs, ys, a, m, i, j + 1);
      var s := [(ys[j] - ys[i]) / (xs[j] - xs[i])];
      assert Row(xs, ys, i, j) == s + Row(xs, ys, i, j + 1);
      assert s[1..] == [];
      OthersConcat(s, Row(xs, ys, i, j + 1), m);
      if OnLine(xs, ys, a, m, i) && OnLine(xs, ys, a, m, j) {
        PairSlope(xs, ys, a, m, i, j);
      }
    }
  }

  /** Twice the number of pairs among `n` points. */
  function Pairs2(n: nat): int {
    n * (n - 1)
  }

  lemma Pairs2Next(n: nat)
    ensures Pairs2(n + 1) == Pairs2(n) + 2 * n
  {
  }

  /** All pairs give a slope, and at most the pairs that touch a point off the line differ from `m`. */
  lemma {:induction false} SlopesCount(xs: seq<real>, ys: seq<real>, a: real, m: real, i: nat)
    requires |xs| == |ys| && Distinct(xs) && i <= |xs|
    ensures 2 * |Slopes(xs, ys, i)| == Pairs2(|xs| - i)
    ensures 2 * Others(Slopes(xs, ys, i), m) <= Pairs2(|xs| - i) - Pairs2(Good(xs, ys, a, m, i))
    decreases |xs| - i
  {
    if i < |xs| {
      SlopesCount(xs, ys, a, m, i + 1);
      RowCounts(xs, ys, a, m, i, i + 1);
      OthersConcat(Row(xs, ys, i, i + 1), Slopes(xs, ys, i + 1), m);
      Pairs2Next(|xs| - i - 1);
      Pairs2Next(Good(xs, ys, a, m, i + 1));
    }
  }

  // ---------------------------------------------------------------------------
  // Main results
  // ---------------------------------------------------------------------------

  /** If `g` of `n` points with distinct abscissae lie on a line and the pairs among them are more than
      half of all pairs, the estimate is exactly the slope of the line. */
  lemma MajorityOfPairs(xs: seq<real>, ys: seq<real>, a: real, m: real)
    requires |xs| == |ys| >= 5 && Distinct(xs)
    requires 2 * Pairs2(Good(xs, ys, a, m, 0)) > Pairs2(|xs|)
    ensures Estimate(xs, ys) == Some(m)
  {
    SlopesCount(xs, ys, a, m, 0);
    MajorityIsMedian(Slopes(xs, ys, 0), m);
  }

  /** Five or more points, all but one of them on a line: the estimate ignores the outlier. */
  lemma OneOutlierIgnored(xs: seq<real>, ys: seq<real>, a: real, m: real, bad: nat)
    requires |xs| == |ys| >= 5 && Distinct(xs) && bad < |xs|
    requires forall i :: 0 <= i < |xs| && i != bad ==> OnLine(xs, ys, a, m, i)
    ensures Estimate(xs, ys) == Some(m)
  {
    AllButOne(xs, ys, a, m, bad, 0);
    var n := |xs|;
    Threshold(n, Good(xs, ys, a, m, 0));
    MajorityOfPairs(xs, ys, a, m);
  }

  lemma {:induction false} AllButOne(xs: seq<real>, ys: seq<real>, a: real, m: real, bad: nat, i: nat)
    requires |xs| == |ys| && i <= |xs|
    requires forall k :: 0 <= k < |xs| && k != bad ==> OnLine(xs, ys, a, m, k)
    ensures Good(xs, ys, a, m, i) >= |xs| - i - (if i <= bad < |xs| then 1 else 0)
    decreases |xs| - i
  {
    if i < |xs| { AllButOne(xs, ys, a, m, bad, i + 1); }
  }

  lemma Threshold(n: nat, g: nat)
    requires n >= 5 && n - 1 <= g <= n
    ensures 2 * Pairs2(g) > Pairs2(n)
  {
    assert Pairs2(n - 1) == Pairs2(n) - 2 * (n - 1);
    assert Pairs2(n) == n * (n - 1) && n * (n - 1) >= 5 * (n - 1);
  }

  // ---------------------------------------------------------------------------
  // The breakdown point
  // ---------------------------------------------------------------------------

  lemma {:induction false} SortKeeps(s: seq<real>, y: real)
    ensures y in Sort(s) <==> y in s
  {
    if s != [] {
      SortKeeps(s[1..], y);
      SortSorts(s[1..], y);
      InsertSorts(s[0], Sort(s[1..]), y);
      assert s == [s[0]] + s[1..];
    }
  }

  /** A stretch of `m` at the front does not count. */
  lemma {:induction false} FrontCounts(s: seq<real>, m: real, k: nat)
    requires k <= |s| && forall i :: 0 <= i < k ==> s[i] == m
    ensures Others(s, m) <= |s| - k
  {
    if s != [] { FrontCounts(s[1..], m, if k > 0 then k - 1 else 0); }
  }

  /** If at least half of the values are above `m` and none is below, so is the median. */
  lemma MedianAbove(v: seq<real>, m: real)
    requires v != [] && 2 * Others(v, m) >= |v| && forall y :: y in v ==> y >= m
    ensures Median(v).Some? && Median(v).value > m
  {
    var s, k := Sort(v), |v| / 2;
    SortSorts(v, m);
    forall i | 0 <= i < |s|
      ensures s[i] >= m
    {
      SortKeeps(v, s[i]);
    }
    if s[k] == m {
      FrontCounts(s, m, k + 1);
    }
  }

  /** How far point `i` lies above the line: not at all for the first `g`, then more and more. */
  function Bump(g: nat, i: nat): real {
    if i < g then 0.0 else (i - g + 1) as real
  }

  function Across(n: nat): (xs: seq<real>)
    ensures |xs| == n && forall i :: 0 <= i < n ==> xs[i] == i as real
  {
    seq(n, i requires 0 <= i < n => i as real)
  }

  function Bent(n: nat, g: nat, a: real, m: real): (ys: seq<real>)
    ensures |ys| == n && forall i :: 0 <= i < n ==> ys[i] == a + m * (i as real) + Bump(g, i)
  {
    seq(n, i requires 0 <= i < n => a + m * (i as real) + Bump(g, i))
  }

  lemma BentSlope(m: real, d: real, e: real)
    requires d > 0.0 && e >= 0.0
    ensures (m * d + e) / d >= m && ((m * d + e) / d == m <==> e == 0.0)
  {
    assert (m * d + e) / d == m + e / d;
    assert e / d >= 0.0 && (e / d == 0.0 <==> e == 0.0);
  }

  lemma BentPair(n: nat, g: nat, a: real, m: real, i: nat, j: nat)
    requires g <= n && i < j < n
    ensures var xs, ys := Across(n), Bent(n, g, a, m);
            var d := xs[j] - xs[i];
            d > 0.0 && (ys[j] - ys[i]) / d >= m && ((ys[j] - ys[i]) / d == m <==> j < g)
  {
    var xs, ys := Across(n), Bent(n, g, a, m);
    var d, e := xs[j] - xs[i], Bump(g, j) - Bump(g, i);
    Difference(m, xs[i], xs[j]);
    assert ys[j] - ys[i] == m * d + e;
    BentSlope(m, d, e);
  }

  lemma Difference(m: real, x: real, y: real)
    ensures m * y - m * x == m * (y - x)
  {
  }

  lemma {:induction false} BentRow(n: nat, g: nat, a: real, m: real, i: nat, j: nat)
    requires g <= n && i < j <= n
    ensures var row := Row(Across(n), Bent(n, g, a, m), i, j);
            Others(row, m) == n - (if j < g then g else j) && forall y :: y in row ==> y >= m
    decreases n - j
  {
    hide Across, Bent, Bump;
    var xs, ys := Across(n), Bent(n, g, a, m);
    if j < n {
      BentRow(n, g, a, m, i, j + 1);
      BentPair(n, g, a, m, i, j);
      RowNext(xs, ys, i, j, m);
    }
  }

  lemma RowNext(xs: seq<real>, ys: seq<real>, i: nat, j: nat, m: real)
    requires |xs| == |ys| && i < j < |xs| && xs[j] - xs[i] != 0.0
    ensures var y, rest := (ys[j] - ys[i]) / (xs[j] - xs[i]), Row(xs, ys, i, j + 1);
            Row(xs, ys, i, j) == [y] + rest && Others([y] + rest, m) == (if y != m then 1 else 0) + Others(rest, m)
  {
    var y, rest := (ys[j] - ys[i]) / (xs[j] - xs[i]), Row(xs, ys, i, j + 1);
    assert ([y] + rest)[1..] == rest;
  }

  lemma {:induction false} BentSlopes(n: nat, g: nat, a: real, m: real, i: nat)
    requires i <= n && g <= n
    ensures var all := Slopes(Across(n), Bent(n, g, a, m), i);
            2 * Others(all, m) == Pairs2(n - i) - Pairs2(if i < g then g - i else 0) && forall y :: y in all ==> y >= m
    decreases n - i
  {
    hide Row;
    if i < n {
      var xs, ys := Across(n), Bent(n, g, a, m);
      BentSlopes(n, g, a, m, i + 1);
      BentRow(n, g, a, m, i, i + 1);
      OthersConcat(Row(xs, ys, i, i + 1), Slopes(xs, ys, i + 1), m);
      Pairs2Next(n - i - 1);
      if i < g { Pairs2Next(g - i - 1); }
      hide Pairs2;
    }
  }

  lemma {:induction false} BentGood(n: nat, g: nat, a: real, m: real, i: nat)
    requires i <= n && g <= n
    ensures Good(Across(n), Bent(n, g, a, m), a, m, i) == if i < g then g - i else 0
    decreases n - i
  {
    if i < n { BentGood(n, g, a, m, i + 1); }
  }

  lemma SomePairs(n: nat)
    requires n >= 2
    ensures Pairs2(n) >= n
  {
  }

  lemma NoPairs()
    ensures Pairs2(0) == 0
  {
  }

  /** If the pairs among the points on the line are at most half of all pairs, the others can move the
      median of slopes, whatever the line. */
  lemma MinorityMoves(n: nat, g: nat, a: real, m: real)
    requires g <= n && n >= 2 && 2 * Pairs2(g) <= Pairs2(n)
    ensures var xs, ys := Across(n), Bent(n, g, a, m);
            Distinct(xs) && Good(xs, ys, a, m, 0) == g && Median(Slopes(xs, ys, 0)) != Some(m)
  {
    var xs, ys := Across(n), Bent(n, g, a, m);
    SomePairs(n);
    NoPairs();
    hide Slopes, Good, Median, Pairs2, Others, Bent;
    BentGood(n, g, a, m, 0);
    BentSlopes(n, g, a, m, 0);
    SlopesCount(xs, ys, a, m, 0);
    MedianAbove(Slopes(xs, ys, 0), m);
  }

  /** With `g` of `n` points on a line the estimate is the slope of the line, wherever the other points
      are, if and only if the pairs among the `g` are more than half of all pairs. */
  lemma BreakdownIff(n: nat, g: nat)
    requires n >= 5 && g <= n
    ensures (forall xs: seq<real>, ys: seq<real>, a: real, m: real ::
               |xs| == |ys| == n && Distinct(xs) && Good(xs, ys, a, m, 0) == g ==> Estimate(xs, ys) == Some(m))
            <==> 2 * Pairs2(g) > Pairs2(n)
  {
    hide Slopes, Median, Pairs2;
    if 2 * Pairs2(g) > Pairs2(n) {
      forall xs: seq<real>, ys: seq<real>, a: real, m: real
        | |xs| == |ys| == n && Distinct(xs) && Good(xs, ys, a, m, 0) == g
        ensures Estimate(xs, ys) == Some(m)
      {
        MajorityOfPairs(xs, ys, a, m);
      }
    } else {
      MinorityMoves(n, g, 0.0, 0.0);
      var xs, ys := Across(n), Bent(n, g, 0.0, 0.0);
      assert Good(xs, ys, 0.0, 0.0, 0) == g && Estimate(xs, ys) != Some(0.0);
    }
  }

  /** So the cutoff at five points is the right one: with four, one outlier can move the median of slopes
      off every line. */
  lemma FourPointsAreTooFew(a: real, m: real)
    ensures var xs, ys := Across(4), Bent(4, 3, a, m);
            && Distinct(xs) && (forall i :: 0 <= i < 3 ==> OnLine(xs, ys, a, m, i))
            && Median(Slopes(xs, ys, 0)) != Some(m)
  {
    assert 2 * Pairs2(3) <= Pairs2(4);
    MinorityMoves(4, 3, a, m);
    hide Slopes, Median, Good, Pairs2, OnLine, Bent;
    forall i | 0 <= i < 3
      ensures OnLine(Across(4), Bent(4, 3, a, m), a, m, i)
    {
      FirstOnLine(4, 3, a, m, i);
    }
  }

  lemma FirstOnLine(n: nat, g: nat, a: real, m: real, i: nat)
    requires i < g <= n
    ensures OnLine(Across(n), Bent(n, g, a, m), a, m, i)
  {
  }

  // ---------------------------------------------------------------------------
  // Equivariance: mirrored and tilted data
  // ---------------------------------------------------------------------------

  function Mirrored(v: seq<real>): (r: seq<real>)
    ensures |r| == |v| && forall i :: 0 <= i < |r| ==> r[i] == -v[i]
  {
    seq(|v|, i requires 0 <= i < |v| => -v[i])
  }

  function Backwards(v: seq<real>): (r: seq<real>)
    ensures |r| == |v| && forall i :: 0 <= i < |r| ==> r[i] == v[|v| - 1 - i]
  {
    seq(|v|, i requires 0 <= i < |v| => v[|v| - 1 - i])
  }

  lemma {:induction false} OthersMirrored(v: seq<real>, m: real)
    ensures Others(Mirrored(v), m) == Others(v, -m)
  {
    if v != [] {
      OthersMirrored(v[1..], m);
      assert Mirrored(v)[1..] == Mirrored(v[1..]);
    }
  }

  lemma {:induction false} OthersBackwards(v: seq<real>, m: real)
    ensures Others(Backwards(v), m) == Others(v, m)
  {
    if v != [] {
      OthersBackwards(v[1..], m);
      assert Backwards(v) == Backwards(v[1..]) + [v[0]];
      OthersConcat(Backwards(v[1..]), [v[0]], m);
      assert [v[0]][1..] == [];
    }
  }

  lemma {:induction false} CountedIn(s: seq<real>, m: real)
    ensures Others(s, m) <= |s| && (Others(s, m) < |s| <==> m in s)
  {
    if s != [] {
      CountedIn(s[1..], m);
      assert s == [s[0]] + s[1..];
    }
  }

  /** Sorted sequences with the same values, counted, are equal. */
  lemma {:induction false} SortedUnique(s: seq<real>, t: seq<real>)
    requires Sorted(s) && Sorted(t) && |s| == |t| && forall m :: Others(s, m) == Others(t, m)
    ensures s == t
  {
    if s != [] {
      CountedIn(s, s[0]);
      CountedIn(t, s[0]);
      CountedIn(s, t[0]);
      CountedIn(t, t[0]);
      assert s[0] == t[0];
      forall m
        ensures Others(s[1..], m) == Others(t[1..], m)
      {
        assert Others(s, m) == Others(t, m);
      }
      SortedUnique(s[1..], t[1..]);
      assert s == [s[0]] + s[1..] && t == [t[0]] + t[1..];
    }
  }

  lemma SortMirrored(v: seq<real>)
    ensures Sort(Mirrored(v)) == Backwards(Mirrored(Sort(v)))
  {
    hide Sort, Others;
    var s, r := Sort(v), Backwards(Mirrored(Sort(v)));
    SortSorts(v, 0.0);
    SortSorts(Mirrored(v), 0.0);
    forall m
      ensures Others(r, m) == Others(Sort(Mirrored(v)), m)
    {
      OthersBackwards(Mirrored(s), m);
      OthersMirrored(s, m);
      SortSorts(v, -m);
      SortSorts(Mirrored(v), m);
      OthersMirrored(v, m);
    }
    SortedUnique(Sort(Mirrored(v)), r);
  }

  /** The median of mirrored values is the mirrored median, for even numbers of values too. */
  lemma MedianMirrored(v: seq<real>)
    requires v != []
    ensures Median(Mirrored(v)).Some? && Median(v).Some? && Median(Mirrored(v)).value == -Median(v).value
  {
    hide Sort;
    SortMirrored(v);
  }

  lemma {:induction false} RowMirrored(xs: seq<real>, ys: seq<real>, i: nat, j: nat)
    requires |xs| == |ys| && i < |xs| && j <= |xs|
    ensures Row(xs, Mirrored(ys), i, j) == Mirrored(Row(xs, ys, i, j))
    decreases |xs| - j
  {
    if j < |xs| {
      RowMirrored(xs, ys, i, j + 1);
      var d, e := xs[j] - xs[i], ys[j] - ys[i];
      if d != 0.0 { assert (-e) / d == -(e / d); }
    }
  }

  lemma {:induction false} SlopesMirrored(xs: seq<real>, ys: seq<real>, i: nat)
    requires |xs| == |ys| && i <= |xs|
    ensures Slopes(xs, Mirrored(ys), i) == Mirrored(Slopes(xs, ys, i))
    decreases |xs| - i
  {
    hide Row;
    if i < |xs| {
      SlopesMirrored(xs, ys, i + 1);
      RowMirrored(xs, ys, i, i + 1);
    }
  }

  function Raised(v: seq<real>, c: real): (r: seq<real>)
    ensures |r| == |v| && forall i :: 0 <= i < |r| ==> r[i] == v[i] + c
  {
    seq(|v|, i requires 0 <= i < |v| => v[i] + c)
  }

  lemma RaisedParts(x: real, s: seq<real>, c: real)
    ensures Raised([x] + s, c) == [x + c] + Raised(s, c)
    ensures s != [] ==> Raised(s, c)[0] == s[0] + c && Raised(s, c)[1..] == Raised(s[1..], c)
  {
  }

  lemma {:induction false} InsertRaised(x: real, s: seq<real>, c: real)
    ensures Insert(x + c, Raised(s, c)) == Raised(Insert(x, s), c)
  {
    hide Raised;
    RaisedParts(x, s, c);
    if s != [] && x > s[0] {
      InsertRaised(x, s[1..], c);
      RaisedParts(s[0], Insert(x, s[1..]), c);
    }
  }

  lemma {:induction false} SortRaised(v: seq<real>, c: real)
    ensures Sort(Raised(v, c)) == Raised(Sort(v), c)
  {
    hide Raised, Insert;
    if v == [] {
      assert Raised(v, c) == [];
      assert Raised(Sort(v), c) == [];
    } else {
      SortRaised(v[1..], c);
      RaisedParts(v[0], v, c);
      InsertRaised(v[0], Sort(v[1..]), c);
    }
  }

  /** The data tilted by `c` and moved by `a`. */
  function Tilted(xs: seq<real>, ys: seq<real>, a: real, c: real): (r: seq<real>)
    requires |xs| == |ys|
    ensures |r| == |ys| && forall i :: 0 <= i < |r| ==> r[i] == ys[i] + (a + c * xs[i])
  {
    seq(|ys|, i requires 0 <= i < |ys| => ys[i] + (a + c * xs[i]))
  }

  lemma TiltedSlope(e: real, c: real, d: real)
    requires d != 0.0
    ensures (e + c * d) / d == e / d + c
  {
    assert (e + c * d) / d == e / d + (c * d) / d;
    SlopeOfLine(c, d);
  }

  lemma PairTilted(xs: seq<real>, ys: seq<real>, a: real, c: real, i: nat, j: nat)
    requires |xs| == |ys| && i < |xs| && j < |xs|
    ensures var zs := Tilted(xs, ys, a, c);
            var d := xs[j] - xs[i];
            d != 0.0 ==> (zs[j] - zs[i]) / d == (ys[j] - ys[i]) / d + c
  {
    var zs := Tilted(xs, ys, a, c);
    var d, e := xs[j] - xs[i], ys[j] - ys[i];
    Difference(c, xs[i], xs[j]);
    assert zs[j] - zs[i] == e + c * d;
    if d != 0.0 { TiltedSlope(e, c, d); }
  }

  lemma {:induction false} RowTilted(xs: seq<real>, ys: seq<real>, a: real, c: real, i: nat, j: nat)
    requires |xs| == |ys| && i < |xs| && j <= |xs|
    ensures Row(xs, Tilted(xs, ys, a, c), i, j) == Raised(Row(xs, ys, i, j), c)
    decreases |xs| - j
  {
    if j < |xs| {
      RowTilted(xs, ys, a, c, i, j + 1);
      PairTilted(xs, ys, a, c, i, j);
      hide Tilted;
    }
  }

  lemma {:induction false} SlopesTilted(xs: seq<real>, ys: seq<real>, a: real, c: real, i: nat)
    requires |xs| == |ys| && i <= |xs|
    ensures Slopes(xs, Tilted(xs, ys, a, c), i) == Raised(Slopes(xs, ys, i), c)
    decreases |xs| - i
  {
    hide Row;
    if i < |xs| {
      SlopesTilted(xs, ys, a, c, i + 1);
      RowTilted(xs, ys, a, c, i, i + 1);
    }
  }

  /** The estimate follows the data: mirrored data give the mirrored estimate, and data tilted by a line give
      the estimate tilted by its slope. */
  lemma Equivariant(xs: seq<real>, ys: seq<real>, a: real, c: real)
    requires |xs| == |ys|
    ensures match Estimate(xs, ys)
            case None => Estimate(xs, Mirrored(ys)).None? && Estimate(xs, Tilted(xs, ys, a, c)).None?
            case Some(m) => Estimate(xs, Mirrored(ys)) == Some(-m) && Estimate(xs, Tilted(xs, ys, a, c)) == Some(m + c)
  {
    hide Sort, Slopes;
    var v := Slopes(xs, ys, 0);
    SlopesMirrored(xs, ys, 0);
    SlopesTilted(xs, ys, a, c, 0);
    if v != [] {
      MedianMirrored(v);
      SortRaised(v, c);
    }
  }

  /** Points above one another give no slope, and none at all no estimate. */
  lemma {:induction false} VerticalPairs(xs: seq<real>, ys: seq<real>, i: nat, j: nat)
    requires |xs| == |ys| && i < |xs| && j <= |xs| && forall k :: 0 <= k < |xs| ==> xs[k] == xs[0]
    ensures Row(xs, ys, i, j) == []
    decreases |xs| - j
  {
    if j < |xs| { VerticalPairs(xs, ys, i, j + 1); }
  }

  lemma {:induction false} NoSlopes(xs: seq<real>, ys: seq<real>, i: nat)
    requires |xs| == |ys| && i <= |xs| && forall k :: 0 <= k < |xs| ==> xs[k] == xs[0]
    ensures Slopes(xs, ys, i) == []
    decreases |xs| - i
  {
    if i < |xs| {
      NoSlopes(xs, ys, i + 1);
      VerticalPairs(xs, ys, i, i + 1);
    }
  }

  lemma VerticalNoEstimate(xs: seq<real>, ys: seq<real>)
    requires |xs| == |ys| && forall k :: 0 <= k < |xs| ==> xs[k] == xs[0]
    ensures Estimate(xs, ys).None?
  {
    NoSlopes(xs, ys, 0);
  }

  lemma {:induction false} SomeSlope(xs: seq<real>, ys: seq<real>, i: nat, j: nat, k: nat)
    requires |xs| == |ys| && i < |xs| && j <= k < |xs| && xs[k] != xs[i]
    ensures Row(xs, ys, i, j) != []
    decreases k - j
  {
    if j < k { SomeSlope(xs, ys, i, j + 1, k); }
  }

  /** There is no estimate if and only if there are fewer than five points or all lie above one another. */
  lemma NoEstimateIff(xs: seq<real>, ys: seq<real>)
    requires |xs| == |ys|
    ensures Estimate(xs, ys).None? <==> |xs| < 5 || forall k :: 0 <= k < |xs| ==> xs[k] == xs[0]
  {
    if |xs| >= 5 {
      if forall k :: 0 <= k < |xs| ==> xs[k] == xs[0] {
        VerticalNoEstimate(xs, ys);
      } else {
        var k :| 0 <= k < |xs| && xs[k] != xs[0];
        SomeSlope(xs, ys, 0, 1, k);
        assert Slopes(xs, ys, 0) == Row(xs, ys, 0, 1) + Slopes(xs, ys, 1);
      }
    }
  }
}
