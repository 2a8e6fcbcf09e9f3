/** The summary the sampler script prints after the chain: the trailing
    window `ws[-1000:]` of the w trace, reduced column by column to
    `np.median` and `np.mean`. */
module TraceSummary {
  import opened Numeric

  /** How many trailing rows the summary keeps. */
  const WindowSize: nat := 1000

  /** `rows[-1000:]`: the last 1000 rows, or all of them when there are
      fewer. */
  function Window(rows: seq<seq<real>>): (r: seq<seq<real>>)
    ensures |r| == if |rows| <= WindowSize then |rows| else WindowSize
    ensures r == rows[|rows| - |r|..]
  {
    if |rows| <= WindowSize then rows else rows[|rows| - WindowSize..]
  }

  /** Every row has n entries. */
  predicate Rectangular(rows: seq<seq<real>>, n: nat)
  {
    forall k :: 0 <= k < |rows| ==> |rows[k]| == n
  }

  /** Column j of a matrix given by rows. */
  function Column(rows: seq<seq<real>>, j: nat): seq<real>
    requires forall k :: 0 <= k < |rows| ==> j < |rows[k]|
  {
    seq(|rows|, k requires 0 <= k < |rows| => rows[k][j])
  }

  /** `np.mean` of a nonempty vector. */
  function Mean(s: seq<real>): real
    requires |s| > 0
  {
    Sum(s) / |s| as real
  }

  /** Ascending order. */
  predicate Sorted(s: seq<real>)
  {
    forall p, q :: 0 <= p < q < |s| ==> s[p] <= s[q]
  }

  /** Inserts x into a sorted vector, keeping it sorted. */
  function Insert(x: real, s: seq<real>): (r: seq<real>)
    requires Sorted(s)
    ensures Sorted(r) && multiset(r) == multiset(s) + multiset{x}
    ensures |r| == |s| + 1 && forall p :: 0 <= p < |r| ==> r[p] == x || r[p] in s
  {
    if |s| == 0 then [x]
    else if x <= s[0] then [x] + s
    else
      assert s == [s[0]] + s[1..];
      [s[0]] + Insert(x, s[1..])
  }

  /** The sorted rearrangement of s (an insertion sort). */
  function SortSeq(s: seq<real>): (r: seq<real>)
    ensures Sorted(r) && multiset(r) == multiset(s)
  {
    if |s| == 0 then []
    else
      assert s == [s[0]] + s[1..];
      Insert(s[0], SortSeq(s[1..]))
  }

  /** Two sorted rearrangements of the same values are equal. */
  lemma {:induction false} SortedUnique(a: seq<real>, b: seq<real>)
    requires Sorted(a) && Sorted(b) && multiset(a) == multiset(b)
    ensures a == b
  {
    assert |a| == |multiset(a)| == |multiset(b)| == |b|;
    if |a| > 0 {
      LeastIsFirst(a, b[0]);
      LeastIsFirst(b, a[0]);
      assert a[0] == b[0];
      assert a == [a[0]] + a[1..] && b == [b[0]] + b[1..];
      assert multiset(a[1..]) == multiset(a) - multiset{a[0]};
      assert multiset(b[1..]) == multiset(b) - multiset{b[0]};
      assert Sorted(a[1..]) && Sorted(b[1..]);
      SortedUnique(a[1..], b[1..]);
    }
  }

  /** Every value of a sorted vector is at least its first entry. */
  lemma LeastIsFirst(a: seq<real>, x: real)
    requires Sorted(a) && x in multiset(a)
    ensures |a| > 0 && a[0] <= x
  {
    var p :| 0 <= p < |a| && a[p] == x;
  }

  /** `np.median` of a nonempty vector: the middle value of the sorted
      vector, or the mean of the two middle values when the length is
      even. */
  function Median(s: seq<real>): real
    requires |s| > 0
  {
    var t := SortSeq(s);
    assert |t| == |multiset(t)| == |s|;
    Middle(t)
  }

  /** The middle entry of a nonempty vector, or the mean of its two middle
      entries when the length is even. */
  function Middle(t: seq<real>): real
    requires |t| > 0
  {
    var h := |t| / 2;
    if |t| % 2 == 1 then t[h] else (t[h - 1] + t[h]) / 2.0
  }

  /** `np.median(rows, axis=0)` */
  function ColumnMedians(rows: seq<seq<real>>, n: nat): (r: seq<real>)
    requires |rows| > 0 && Rectangular(rows, n)
    ensures |r| == n
  {
    seq(n, j requires 0 <= j < n => Median(Column(rows, j)))
  }

  /** `np.mean(rows, axis=0)` */
  function ColumnMeans(rows: seq<seq<real>>, n: nat): (r: seq<real>)
    requires |rows| > 0 && Rectangular(rows, n)
    ensures |r| == n
  {
    seq(n, j requires 0 <= j < n => Mean(Column(rows, j)))
  }

  /** The two summaries of the trailing window. */
  function Summary(rows: seq<seq<real>>, n: nat): (r: (seq<real>, seq<real>))
    requires |rows| > 0 && Rectangular(rows, n)
    ensures |r.0| == |r.1| == n
  {
    var window := Window(rows);
    (ColumnMedians(window, n), ColumnMeans(window, n))
  }

  /** A quotient whose numerator lies between n * lo and n * hi lies
      between lo and hi. */
  lemma DivBetween(total: real, n: real, lo: real, hi: real)
    requires n > 0.0 && n * lo <= total <= n * hi
    ensures lo <= total / n <= hi
  {
    var q := total / n;
    assert q * n == total;
    if q < lo {
      calc { total; == q * n; < lo * n; }
    }
    if q > hi {
      calc { total; == q * n; > hi * n; }
    }
  }

  /** The mean lies within any bounds of the values. */
  lemma MeanBetween(s: seq<real>, lo: real, hi: real)
    requires |s| > 0
    requires forall k :: 0 <= k < |s| ==> lo <= s[k] <= hi
    ensures lo <= Mean(s) <= hi
  {
    SumBounds(s, lo, hi);
    DivBetween(Sum(s), |s| as real, lo, hi);
  }

  /** The median lies within any bounds of the values. */
  lemma MedianBetween(s: seq<real>, lo: real, hi: real)
    requires |s| > 0
    requires forall k :: 0 <= k < |s| ==> lo <= s[k] <= hi
    ensures lo <= Median(s) <= hi
  {
    var t := SortSeq(s);
    assert |t| == |multiset(t)| == |s|;
    forall p | 0 <= p < |t|
      ensures lo <= t[p] <= hi
    {
      assert t[p] in multiset(s);
    }
  }

  /** The median depends only on the values, not on their order. */
  lemma MedianIgnoresOrder(s: seq<real>, s': seq<real>)
    requires |s| > 0 && multiset(s) == multiset(s')
    ensures |s'| > 0 && Median(s) == Median(s')
  {
    assert |s'| == |multiset(s')| == |multiset(s)| == |s|;
    var t, t' := SortSeq(s), SortSeq(s');
    SortedUnique(t, t');
    assert Median(s) == Middle(t) && Median(s') == Middle(t');
  }

  /** Each summarised column lies within any bounds of that column over the
      window. */
  lemma SummaryBetween(rows: seq<seq<real>>, n: nat, j: nat, lo: real, hi: real)
    requires |rows| > 0 && Rectangular(rows, n) && j < n
    requires forall k :: 0 <= k < |Window(rows)| ==> lo <= Window(rows)[k][j] <= hi
    ensures lo <= Summary(rows, n).0[j] <= hi && lo <= Summary(rows, n).1[j] <= hi
  {
    var c := Column(Window(rows), j);
    MedianBetween(c, lo, hi);
    MeanBetween(c, lo, hi);
  }

  /** The median of positive values is positive. */
  lemma MedianPositive(s: seq<real>)
    requires |s| > 0 && forall k :: 0 <= k < |s| ==> s[k] > 0.0
    ensures Median(s) > 0.0
  {
    var t := SortSeq(s);
    assert |t| == |multiset(t)| == |s|;
    forall p | 0 <= p < |t|
      ensures t[p] > 0.0
    {
      assert t[p] in multiset(s);
    }
  }

  /** The window keeps an entry positive in every row when the rows have
      it positive. */
  lemma WindowPositive(rows: seq<seq<real>>, j: nat)
    requires forall k :: 0 <= k < |rows| ==> j < |rows[k]| && rows[k][j] > 0.0
    ensures forall k :: 0 <= k < |Window(rows)| ==> Window(rows)[k][j] > 0.0
  {
    var window := Window(rows);
    forall k | 0 <= k < |window|
      ensures window[k][j] > 0.0
    {
      assert window[k] == rows[|rows| - |window| + k];
    }
  }

  /** The mean of positive values is positive. */
  lemma MeanPositive(s: seq<real>)
    requires |s| > 0 && forall k :: 0 <= k < |s| ==> s[k] > 0.0
    ensures Mean(s) > 0.0
  {
    SumPositive(s);
    DivPositive(Sum(s), |s| as real);
  }

  /** A quotient of positive numbers is positive. */
  lemma DivPositive(x: real, y: real)
    requires x > 0.0 && y > 0.0
    ensures x / y > 0.0
  {
  }

  /** Column j of the summary is the median and the mean of column j of
      the window. */
  lemma SummaryColumn(rows: seq<seq<real>>, n: nat, j: nat)
    requires |rows| > 0 && Rectangular(rows, n) && j < n
    ensures Summary(rows, n).0[j] == Median(Column(Window(rows), j))
    ensures Summary(rows, n).1[j] == Mean(Column(Window(rows), j))
  {
  }

  /** A summarised column whose window entries are all positive has a
      positive median and a positive mean. */
  lemma SummaryPositive(rows: seq<seq<real>>, n: nat, j: nat)
    requires |rows| > 0 && Rectangular(rows, n) && j < n
    requires forall k :: 0 <= k < |Window(rows)| ==> Window(rows)[k][j] > 0.0
    ensures Summary(rows, n).0[j] > 0.0 && Summary(rows, n).1[j] > 0.0
  {
    var c := Column(Window(rows), j);
    MedianPositive(c);
    MeanPositive(c);
    SummaryColumn(rows, n, j);
  }
}
