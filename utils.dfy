/** The Series helpers of utils.py: stride-based positional subsampling. */
module Utils {
  import opened Series

  function Abs(k: int): nat {
    if k < 0 then -k else k
  }

  /** Ceiling of n / m for a positive m. */
  function CeilDiv(n: nat, m: nat): nat
    requires m > 0
  {
    (n + m - 1) / m
  }

  /** numpy's `arange(n) % stride == 0`: true at the positions that are multiples of the stride. */
  function StrideMask(n: nat, stride: int): (mask: seq<bool>)
    requires stride != 0
    ensures |mask| == n
    ensures forall i :: 0 <= i < n ==> (mask[i] <==> i % Abs(stride) == 0)
  {
    forall i | 0 <= i < n {
      ModSign(i, stride);
    }
    seq(n, i requires 0 <= i < n => i % stride == 0)
  }

  /**
   * utils.sample_series: the entries of a Series whose zero-based position is
   * divisible by the stride, with their time labels, in their original order.
   */
  function SampleSeries(series: Trace, stride: int): (r: Trace)
    requires stride != 0
    ensures forall x :: x in r ==> x in series
  {
    WhereSubset(series, StrideMask(|series|, stride));
    Where(series, StrideMask(|series|, stride))
  }

  /** Division is determined by any quotient and remainder that fit. */
  lemma DivUnique(a: nat, m: nat, q: int, r: int)
    requires m > 0 && 0 <= r < m && a == q * m + r
    ensures a / m == q && a % m == r
  {
    var q', r' := a / m, a % m;
    assert q' * m + r' == q * m + r;
    assert (q - q') * m == r' - r;
    if q' < q {
      MulAtLeast(q - q', m);
    } else if q' > q {
      MulAtLeast(q' - q, m);
    }
  }

  lemma MulAtLeast(d: int, m: nat)
    requires d >= 1
    ensures d * m >= m
  {
  }

  /** A negative stride selects the same positions as its absolute value. */
  lemma ModSign(i: nat, stride: int)
    requires stride != 0
    ensures (i % stride == 0) == (i % Abs(stride) == 0)
  {
    if stride < 0 {
      var m := -stride;
      var q, r := i / m, i % m;
      assert i == (-q) * stride + r;
      var q', r' := i / stride, i % stride;
      assert i == q' * stride + r';
      assert 0 <= r' < m;
      assert i == (-q') * m + r';
      DivUnique(i, m, -q', r');
    }
  }

  /** One more position adds one more kept entry exactly when it is a multiple of m. */
  lemma CeilDivStep(n: nat, m: nat)
    requires m > 0
    ensures CeilDiv(n + 1, m) == CeilDiv(n, m) + (if n % m == 0 then 1 else 0)
    ensures n % m == 0 ==> CeilDiv(n, m) * m == n
  {
    var q, r := n / m, n % m;
    assert n == q * m + r;
    if r == 0 {
      DivUnique(n + m - 1, m, q, m - 1);
      DivUnique(n + m, m, q + 1, 0);
    } else {
      DivUnique(n + m - 1, m, q + 1, r - 1);
      DivUnique(n + m, m, q + 1, r);
    }
  }

  /** The kept positions are exactly 0, m, 2m, ... below n. */
  lemma {:induction false} StridePositions(n: nat, stride: int)
    requires stride != 0
    ensures Positions(StrideMask(n, stride)) == seq(CeilDiv(n, Abs(stride)), j requires j >= 0 => j * Abs(stride))
  {
    var m := Abs(stride);
    if n == 0 {
      assert CeilDiv(0, m) == 0 by { DivUnique(m - 1, m, 0, m - 1); }
    } else {
      var p := n - 1;
      StridePositions(p, stride);
      assert StrideMask(n, stride)[..p] == StrideMask(p, stride);
      PositionsSnoc(StrideMask(n, stride), p);
      assert StrideMask(n, stride)[..n] == StrideMask(n, stride);
      ModSign(p, stride);
      CeilDivStep(p, m);
    }
  }

  /**
   * The sampled Series has ceil(n / |stride|) entries, and its j-th entry is the
   * input's entry at position j * |stride|, unchanged.
   */
  lemma SampleSeriesAt(series: Trace, stride: int)
    requires stride != 0
    ensures |SampleSeries(series, stride)| == CeilDiv(|series|, Abs(stride))
    ensures forall j :: 0 <= j < |SampleSeries(series, stride)| ==>
              j * Abs(stride) < |series| && SampleSeries(series, stride)[j] == series[j * Abs(stride)]
  {
    var mask := StrideMask(|series|, stride);
    StridePositions(|series|, stride);
    var ps := Positions(mask);
    var r := SampleSeries(series, stride);
    assert r == Where(series, mask);
    forall j | 0 <= j < |r| ensures j * Abs(stride) < |series| && r[j] == series[j * Abs(stride)] {
      assert r[j] == series[ps[j]] && ps[j] == j * Abs(stride);
    }
  }

  /** A stride of 1 returns the Series unchanged. */
  lemma SampleSeriesUnitStride(series: Trace)
    ensures SampleSeries(series, 1) == series
  {
    SampleSeriesAt(series, 1);
    DivUnique(|series|, 1, |series|, 0);
  }

  /** Sampling keeps the times of a recorded trace strictly increasing. */
  lemma SampleSeriesIncreasing(series: Trace, stride: int)
    requires stride != 0 && Increasing(series)
    ensures Increasing(SampleSeries(series, stride))
  {
    WhereIncreasing(series, StrideMask(|series|, stride));
  }

  /** The first entry of a non-empty Series is always kept. */
  lemma SampleSeriesKeepsFirst(series: Trace, stride: int)
    requires stride != 0 && |series| > 0
    ensures |SampleSeries(series, stride)| > 0 && SampleSeries(series, stride)[0] == series[0]
  {
    var mask := StrideMask(|series|, stride);
    assert mask[0];
    PositionsLeast(mask);
    PositionsComplete(mask, 0);
  }
}
