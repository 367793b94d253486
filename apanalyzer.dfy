/**
 * The spike-detection and stimulus-measurement logic of the APAnalyzer class.
 *
 * The analyzer's fields are set once at construction and never change, so they
 * are an immutable Config; a recording is a sequence of sweeps, each with its
 * voltage trace, its current trace and the rate (the time derivative numpy
 * computes for the voltage trace as get_trace returns it).
 */
module APAnalyzer {
  import opened Wrappers
  import opened Series
  import Utils

  /** The exceptions the analyzer lets escape. */
  datatype Error = IndexError | ValueError

  /** The constructor arguments: optional sampling stride and the two detection thresholds. */
  datatype Config = Config(samplingRate: Option<int>, traceThreshold: real, rateThreshold: real)

  /** The constructor's defaults: no sampling, trace threshold 0 mV, rate threshold 5 mV/ms. */
  const DefaultConfig := Config(None, 0.0, 5.0)

  /** One sweep: voltage (channel 0), current (channel 1) and the rate of the voltage trace. */
  datatype Sweep = Sweep(voltage: Trace, current: Trace, rate: seq<real>)

  datatype Analyzer = Analyzer(config: Config, sweeps: seq<Sweep>)

  // ---------------------------------------------------------------------------
  // Sampling gate (get_trace, get_current)
  // ---------------------------------------------------------------------------

  /** Python truthiness of sampling_rate: neither None nor 0. */
  predicate Sampling(cfg: Config) {
    cfg.samplingRate.Some? && cfg.samplingRate.value != 0
  }

  /** The stride by which a channel is effectively thinned (1 when not sampling). */
  function Stride(cfg: Config): (k: nat)
    ensures k >= 1
  {
    if Sampling(cfg) then Utils.Abs(cfg.samplingRate.value) else 1
  }

  /**
   * get_trace / get_current: a channel as read, thinned by sample_series only
   * when sampling_rate is truthy (so the modulo is never taken by zero).
   */
  function ApplySampling(cfg: Config, raw: Trace): (t: Trace)
    ensures |t| <= |raw|
    ensures !Sampling(cfg) ==> t == raw
  {
    if Sampling(cfg) then Utils.SampleSeries(raw, cfg.samplingRate.value) else raw
  }

  /** The sampled channel keeps every Stride-th sample, starting with the first. */
  lemma ApplySamplingAt(cfg: Config, raw: Trace)
    ensures |ApplySampling(cfg, raw)| == Utils.CeilDiv(|raw|, Stride(cfg))
    ensures forall j :: 0 <= j < |ApplySampling(cfg, raw)| ==>
              j * Stride(cfg) < |raw| && ApplySampling(cfg, raw)[j] == raw[j * Stride(cfg)]
  {
    if Sampling(cfg) {
      Utils.SampleSeriesAt(raw, cfg.samplingRate.value);
    } else {
      Utils.DivUnique(|raw|, 1, |raw|, 0);
    }
  }

  /** The channels of a valid recording keep strictly increasing times after sampling. */
  lemma ApplySamplingIncreasing(cfg: Config, raw: Trace)
    requires Increasing(raw)
    ensures Increasing(ApplySampling(cfg, raw))
  {
    if Sampling(cfg) {
      Utils.SampleSeriesIncreasing(raw, cfg.samplingRate.value);
    }
  }

  // ---------------------------------------------------------------------------
  // Segmentation (find_ap, first step)
  // ---------------------------------------------------------------------------

  /** A sample is in a segment when both its rate and its voltage reach their thresholds. */
  predicate InSegment(cfg: Config, trace: Trace, rate: seq<real>, i: nat)
    requires |rate| == |trace| && i < |trace|
  {
    rate[i] >= cfg.rateThreshold && trace[i].value >= cfg.traceThreshold
  }

  function SegmentMask(cfg: Config, trace: Trace, rate: seq<real>): (mask: seq<bool>)
    requires |rate| == |trace|
    ensures |mask| == |trace|
  {
    seq(|trace|, i requires 0 <= i < |trace| => InSegment(cfg, trace, rate, i))
  }

  /**
   * The positions of the segment samples, in trace order: exactly the positions
   * that pass both thresholds.
   */
  function Segments(cfg: Config, trace: Trace, rate: seq<real>): (segs: seq<nat>)
    requires |rate| == |trace|
    ensures forall k :: 0 <= k < |segs| ==> segs[k] < |trace| && InSegment(cfg, trace, rate, segs[k])
    ensures forall k, l :: 0 <= k < l < |segs| ==> segs[k] < segs[l]
  {
    PositionsSorted(SegmentMask(cfg, trace, rate));
    Positions(SegmentMask(cfg, trace, rate))
  }

  /** Every sample passing both thresholds is a segment sample. */
  lemma SegmentsComplete(cfg: Config, trace: Trace, rate: seq<real>, i: nat)
    requires |rate| == |trace| && i < |trace| && InSegment(cfg, trace, rate, i)
    ensures i in Segments(cfg, trace, rate)
  {
    PositionsComplete(SegmentMask(cfg, trace, rate), i);
  }

  // ---------------------------------------------------------------------------
  // Run grouping (find_ap, the loop over segments)
  // ---------------------------------------------------------------------------

  /** Segment k ends a run of consecutive positions. */
  predicate RunEnd(segs: seq<nat>, k: nat)
    requires k < |segs|
  {
    k == |segs| - 1 || GapAfter(segs, k)
  }

  /** A position gap separates segment k from segment k + 1. */
  predicate GapAfter(segs: seq<nat>, k: nat)
    requires k + 1 < |segs|
  {
    segs[k + 1] != segs[k] + 1
  }

  /** The segments followed by a position gap. */
  ghost function Gaps(segs: seq<nat>): set<nat> {
    set k: nat | k + 1 < |segs| && GapAfter(segs, k)
  }

  /** Segment k is the last one and follows a gap: a trailing single-sample run. */
  predicate TrailingSingleton(segs: seq<nat>, k: nat)
    requires k < |segs|
  {
    2 <= |segs| && k == |segs| - 1 && segs[k] != segs[k - 1] + 1
  }

  /** The segments after which find_ap looks for a spike: run ends, except a trailing single-sample run. */
  function EmitMask(segs: seq<nat>): (mask: seq<bool>)
    ensures |mask| == |segs|
  {
    seq(|segs|, k requires 0 <= k < |segs| => RunEnd(segs, k) && !TrailingSingleton(segs, k))
  }

  /** Trace positions of the run ends that produce a spike, in order. */
  function EmittedEnds(segs: seq<nat>): (ends: seq<nat>)
  {
    Where(segs, EmitMask(segs))
  }

  // ---------------------------------------------------------------------------
  // Spike extraction
  // ---------------------------------------------------------------------------

  function FallMask(trace: Trace, rate: seq<real>, after: real): (mask: seq<bool>)
    requires |rate| == |trace|
    ensures |mask| == |trace|
  {
    seq(|trace|, j requires 0 <= j < |trace| => trace[j].time > after && rate[j] < 0.0)
  }

  /**
   * The first sample later than time `after` whose rate is negative
   * (`rate[(rate.index > after) & (rate < 0)].index[0]`), None when there is none.
   */
  function NextFall(trace: Trace, rate: seq<real>, after: real): (r: Option<nat>)
    requires |rate| == |trace|
    ensures r.Some? ==> r.value < |trace| && trace[r.value].time > after && rate[r.value] < 0.0
  {
    var mask := FallMask(trace, rate, after);
    assert forall j :: 0 <= j < |trace| ==> (mask[j] <==> trace[j].time > after && rate[j] < 0.0);
    First(mask)
  }

  /** NextFall finds the first later negative rate, and finds none exactly when there is none. */
  lemma NextFallFirst(trace: Trace, rate: seq<real>, after: real)
    requires |rate| == |trace|
    ensures var r := NextFall(trace, rate, after);
            r.Some? ==> forall j :: 0 <= j < r.value && trace[j].time > after ==> rate[j] >= 0.0
    ensures NextFall(trace, rate, after).None? <==>
              forall j :: 0 <= j < |trace| && trace[j].time > after ==> rate[j] >= 0.0
  {
    var mask := FallMask(trace, rate, after);
    assert forall j :: 0 <= j < |trace| ==> (mask[j] <==> trace[j].time > after && rate[j] < 0.0);
  }

  /** Every run end has a later negative-rate sample. */
  predicate AllFall(trace: Trace, rate: seq<real>, ends: seq<nat>)
    requires |rate| == |trace|
    requires forall k :: 0 <= k < |ends| ==> ends[k] < |trace|
  {
    forall k :: 0 <= k < |ends| ==> NextFall(trace, rate, trace[ends[k]].time).Some?
  }

  /**
   * One spike per run end: the sample at the first later negative rate, its
   * time and voltage; an IndexError when some run end has none.
   */
  function SpikesAfter(trace: Trace, rate: seq<real>, ends: seq<nat>): (r: Result<Trace, Error>)
    requires |rate| == |trace|
    requires forall k :: 0 <= k < |ends| ==> ends[k] < |trace|
    ensures r.Ok? ==> |r.value| == |ends|
  {
    if AllFall(trace, rate, ends) then
      Ok(seq(|ends|, k requires 0 <= k < |ends| => trace[NextFall(trace, rate, trace[ends[k]].time).value]))
    else
      Err(IndexError)
  }

  /** find_ap, stated over the whole trace: the Series of spike amplitudes indexed by spike time. */
  function Spikes(cfg: Config, trace: Trace, rate: seq<real>): (r: Result<Trace, Error>)
    requires |rate| == |trace|
    ensures r.Err? ==> r.error == IndexError
    ensures r.Ok? ==> |r.value| == |EmittedEnds(Segments(cfg, trace, rate))|
  {
    var segs := Segments(cfg, trace, rate);
    SpikesAfter(trace, rate, EmittedEnds(segs))
  }

  /** (t, a) is the spike find_ap records after the run ending at trace position e. */
  predicate SpikeFor(trace: Trace, rate: seq<real>, e: nat, t: real, a: real)
    requires |rate| == |trace| && e < |trace|
  {
    var f := NextFall(trace, rate, trace[e].time);
    f.Some? && t == trace[f.value].time && a == trace[f.value].value
  }

  /** A spike recorded for every emitted run end, in order, is the whole of find_ap's result. */
  lemma SpikesFromRecorded(trace: Trace, rate: seq<real>, segs: seq<nat>, time: seq<real>, amplitude: seq<real>)
    requires |rate| == |trace|
    requires forall k :: 0 <= k < |segs| ==> segs[k] < |trace|
    requires |time| == |amplitude| == |Positions(EmitMask(segs))|
    requires forall k :: 0 <= k < |time| ==> SpikeFor(trace, rate, segs[Positions(EmitMask(segs))[k]], time[k], amplitude[k])
    ensures forall k :: 0 <= k < |EmittedEnds(segs)| ==> EmittedEnds(segs)[k] < |trace|
    ensures SpikesAfter(trace, rate, EmittedEnds(segs)) ==
              Ok(seq(|time|, k requires 0 <= k < |time| => Sample(time[k], amplitude[k])))
  {
    var ps := Positions(EmitMask(segs));
    var ends := EmittedEnds(segs);
    var recorded := seq(|time|, k requires 0 <= k < |time| => Sample(time[k], amplitude[k]));
    forall k | 0 <= k < |ends|
      ensures NextFall(trace, rate, trace[ends[k]].time).Some?
      ensures recorded[k] == trace[NextFall(trace, rate, trace[ends[k]].time).value]
    {
      assert ends[k] == segs[ps[k]];
      assert SpikeFor(trace, rate, segs[ps[k]], time[k], amplitude[k]);
    }
    assert AllFall(trace, rate, ends);
    var spikes := seq(|ends|, k requires 0 <= k < |ends| => trace[NextFall(trace, rate, trace[ends[k]].time).value]);
    assert SpikesAfter(trace, rate, ends) == Ok(spikes);
    assert spikes == recorded;
  }

  /** A run end that produces a spike but has no later negative rate makes find_ap fail. */
  lemma SpikesFailAt(trace: Trace, rate: seq<real>, segs: seq<nat>, p: nat)
    requires |rate| == |trace|
    requires forall k :: 0 <= k < |segs| ==> segs[k] < |trace|
    requires p < |segs| && EmitMask(segs)[p]
    requires NextFall(trace, rate, trace[segs[p]].time).None?
    ensures forall k :: 0 <= k < |EmittedEnds(segs)| ==> EmittedEnds(segs)[k] < |trace|
    ensures SpikesAfter(trace, rate, EmittedEnds(segs)) == Err(IndexError)
  {
    var ps := Positions(EmitMask(segs));
    PositionsComplete(EmitMask(segs), p);
    var k :| 0 <= k < |ps| && ps[k] == p;
    assert EmittedEnds(segs)[k] == segs[p];
  }

  /** How many leading segments the source's loop has dealt with once it reaches index i. */
  function Done(i: nat, n: nat): nat
    requires 1 <= i <= n
  {
    if i == n then n else i - 1
  }

  /** A loop step inside a run (no gap, not the last index) emits nothing. */
  lemma EmitNone(segs: seq<nat>, i: nat)
    requires 1 <= i < |segs| - 1 && segs[i] == segs[i - 1] + 1
    ensures Positions(EmitMask(segs)[..Done(i + 1, |segs|)]) == Positions(EmitMask(segs)[..Done(i, |segs|)])
  {
    PositionsSnoc(EmitMask(segs), i - 1);
  }

  /**
   * A loop step that finds a segment end emits exactly the next run end of
   * EmitMask: the previous segment at a gap, the last segment at the end.
   */
  lemma EmitOne(segs: seq<nat>, i: nat, p: nat)
    requires 1 <= i < |segs|
    requires (segs[i] != segs[i - 1] + 1 && p == i - 1) ||
             (segs[i] == segs[i - 1] + 1 && i == |segs| - 1 && p == i)
    ensures p < |segs| && EmitMask(segs)[p]
    ensures Positions(EmitMask(segs)[..Done(i + 1, |segs|)]) == Positions(EmitMask(segs)[..Done(i, |segs|)]) + [p]
  {
    var n, mask := |segs|, EmitMask(segs);
    PositionsSnoc(mask, i - 1);
    if i == n - 1 {
      PositionsSnoc(mask, n - 1);
      assert mask[..n] == mask[..i + 1];
    }
  }

  /** With fewer than two segments, every segment is an emitted run end. */
  lemma OneRunAtMost(segs: seq<nat>)
    requires |segs| <= 1
    ensures EmittedEnds(segs) == segs
  {
  }

  /**
   * find_ap as the source runs it: no segment gives no spike, one segment one
   * spike, and two or more go through the loop of SpikesOfRuns.
   */
  method FindAp(cfg: Config, trace: Trace, rate: seq<real>) returns (r: Result<Trace, Error>)
    requires |rate| == |trace|
    ensures r == Spikes(cfg, trace, rate)
  {
    var segments := Segments(cfg, trace, rate);
    var n := |segments|;
    if n == 0 {
      OneRunAtMost(segments);
      assert AllFall(trace, rate, []);
      assert SpikesAfter(trace, rate, []).value == [];
      r := Ok([]);
    } else if n == 1 {
      // the single segment is its own run end
      OneRunAtMost(segments);
      var segmentEnd := trace[segments[0]].time;
      var ap := NextFall(trace, rate, segmentEnd);
      if ap.None? {
        assert !AllFall(trace, rate, segments);
        return Err(IndexError);
      }
      var time := [trace[ap.value].time];
      var amplitude := [trace[ap.value].value];
      assert AllFall(trace, rate, segments);
      assert SpikesAfter(trace, rate, segments).value == [trace[ap.value]];
      r := Ok([Sample(time[0], amplitude[0])]);
    } else {
      r := SpikesOfRuns(trace, rate, segments);
    }
  }

  /** The spikes recorded so far are the ones find_ap finds after the run ends emitted so far. */
  ghost predicate Recorded(trace: Trace, rate: seq<real>, segs: seq<nat>, emitted: seq<nat>,
                           time: seq<real>, amplitude: seq<real>)
    requires |rate| == |trace|
    requires forall k :: 0 <= k < |segs| ==> segs[k] < |trace|
  {
    |time| == |amplitude| == |emitted| &&
    forall k :: 0 <= k < |emitted| ==>
      emitted[k] < |segs| && SpikeFor(trace, rate, segs[emitted[k]], time[k], amplitude[k])
  }

  /** Recording the spike after one more emitted run end keeps every recorded spike matched. */
  lemma RecordSnoc(trace: Trace, rate: seq<real>, segs: seq<nat>, emitted: seq<nat>,
                   time: seq<real>, amplitude: seq<real>, p: nat, f: nat)
    requires |rate| == |trace|
    requires forall k :: 0 <= k < |segs| ==> segs[k] < |trace|
    requires Recorded(trace, rate, segs, emitted, time, amplitude) && p < |segs|
    requires NextFall(trace, rate, trace[segs[p]].time) == Some(f)
    ensures Recorded(trace, rate, segs, emitted + [p], time + [trace[f].time], amplitude + [trace[f].value])
  {
  }

  /**
   * The loop of find_ap over two or more segments: at each index, a position
   * gap closes the run before it and the last index closes the final run; each
   * closed run records the sample at the next negative rate.
   */
  method SpikesOfRuns(trace: Trace, rate: seq<real>, segments: seq<nat>) returns (r: Result<Trace, Error>)
    requires |rate| == |trace| && |segments| > 1
    requires forall k :: 0 <= k < |segments| ==> segments[k] < |trace|
    ensures forall k :: 0 <= k < |EmittedEnds(segments)| ==> EmittedEnds(segments)[k] < |trace|
    ensures r == SpikesAfter(trace, rate, EmittedEnds(segments))
  {
    ghost var mask := EmitMask(segments);
    var n := |segments|;
    var amplitude: seq<real> := [];
    var time: seq<real> := [];
    ghost var emitted: seq<nat> := [];
    var allInd := segments;
    assert mask[..0] == [];
    for i := 1 to n
      invariant emitted == Positions(mask[..Done(i, n)])
      invariant Recorded(trace, rate, segments, emitted, time, amplitude)
    {
      var segmentEnd: real;
      ghost var p: nat;
      if allInd[i] != allInd[i - 1] + 1 {
        segmentEnd := trace[allInd[i - 1]].time;
        p := i - 1;
      } else if i == n - 1 {
        segmentEnd := trace[allInd[n - 1]].time;
        p := n - 1;
      } else {
        EmitNone(segments, i);
        continue;
      }
      EmitOne(segments, i, p);
      var ap := NextFall(trace, rate, segmentEnd);
      if ap.None? {
        SpikesFailAt(trace, rate, segments, p);
        return Err(IndexError);
      }
      RecordSnoc(trace, rate, segments, emitted, time, amplitude, p, ap.value);
      time := time + [trace[ap.value].time];
      amplitude := amplitude + [trace[ap.value].value];
      emitted := emitted + [p];
    }
    assert mask[..n] == mask;
    SpikesFromRecorded(trace, rate, segments, time, amplitude);
    r := Ok(seq(|time|, k requires 0 <= k < |time| => Sample(time[k], amplitude[k])));
  }

  // ---------------------------------------------------------------------------
  // Properties of find_ap
  // ---------------------------------------------------------------------------

  /** The first negative rate after a position, found by position instead of by time. */
  function FirstFallAfter(rate: seq<real>, e: nat): (r: Option<nat>)
    ensures r.Some? ==> e < r.value < |rate| && rate[r.value] < 0.0 &&
                        forall j :: e < j < r.value ==> rate[j] >= 0.0
    ensures r.None? <==> forall j :: e < j < |rate| ==> rate[j] >= 0.0
  {
    var mask := seq(|rate|, j requires 0 <= j < |rate| => j > e && rate[j] < 0.0);
    assert forall j :: 0 <= j < |rate| ==> (mask[j] <==> j > e && rate[j] < 0.0);
    First(mask)
  }

  /**
   * On a trace with strictly increasing times, comparing time labels (as the
   * source does) and comparing positions find the same sample.
   */
  lemma NextFallByPosition(trace: Trace, rate: seq<real>, e: nat)
    requires |rate| == |trace| && e < |trace| && Increasing(trace)
    ensures NextFall(trace, rate, trace[e].time) == FirstFallAfter(rate, e)
  {
    var byTime := FallMask(trace, rate, trace[e].time);
    var byPos := seq(|rate|, j requires 0 <= j < |rate| => j > e && rate[j] < 0.0);
    assert forall j :: 0 <= j < |trace| ==> (trace[j].time > trace[e].time <==> j > e);
    assert byTime == byPos;
  }

  /** Positions of emitted run ends keep the trace order. */
  lemma EmittedEndsIncreasing(segs: seq<nat>)
    requires forall k, l :: 0 <= k < l < |segs| ==> segs[k] < segs[l]
    ensures forall k, l :: 0 <= k < l < |EmittedEnds(segs)| ==> EmittedEnds(segs)[k] < EmittedEnds(segs)[l]
  {
    var ps := Positions(EmitMask(segs));
    PositionsSorted(EmitMask(segs));
    assert forall k :: 0 <= k < |ps| ==> EmittedEnds(segs)[k] == segs[ps[k]];
  }

  /**
   * A segment produces a spike exactly when it ends its run and is not a
   * trailing single-sample run: the last segment sample following a gap is
   * dropped, as the source's loop does.
   */
  lemma EmittedEndsExact(segs: seq<nat>)
    requires forall k, l :: 0 <= k < l < |segs| ==> segs[k] < segs[l]
    ensures forall k :: 0 <= k < |segs| ==>
              (segs[k] in EmittedEnds(segs) <==> RunEnd(segs, k) && !TrailingSingleton(segs, k))
  {
    var mask := EmitMask(segs);
    var ps := Positions(mask);
    var ends := EmittedEnds(segs);
    forall k | 0 <= k < |segs|
      ensures segs[k] in ends <==> RunEnd(segs, k) && !TrailingSingleton(segs, k)
    {
      if segs[k] in ends {
        var l :| 0 <= l < |ends| && ends[l] == segs[k];
        assert ends[l] == segs[ps[l]];
        assert ps[l] == k;
      }
      if mask[k] {
        WhereComplete(segs, mask, k);
      }
    }
  }

  /**
   * Spike count: none without segments, one for a single segment sample, and
   * for two or more one per position gap between consecutive segment samples
   * plus one more only when the last two segment samples are adjacent.
   */
  lemma EmittedCount(segs: seq<nat>)
    ensures |segs| <= 1 ==> |EmittedEnds(segs)| == |segs|
    ensures |segs| >= 2 ==>
              |EmittedEnds(segs)| ==
                |Gaps(segs)| + (if segs[|segs| - 1] == segs[|segs| - 2] + 1 then 1 else 0)
  {
    if |segs| <= 1 {
      OneRunAtMost(segs);
    } else {
      var n := |segs|;
      PositionsCount(EmitMask(segs));
      EmitSet(segs);
      assert n - 1 !in Gaps(segs);
    }
  }

  /** The emitting segments are those followed by a gap, and the last one when it is adjacent to its predecessor. */
  lemma EmitSet(segs: seq<nat>)
    requires |segs| >= 2
    ensures TrueSet(EmitMask(segs)) ==
              Gaps(segs) + (if segs[|segs| - 1] == segs[|segs| - 2] + 1 then {|segs| - 1} else {})
  {
  }

  /** A successful find_ap has one spike per emitted run end, counted as EmittedCount states. */
  lemma SpikeCount(cfg: Config, trace: Trace, rate: seq<real>)
    requires |rate| == |trace| && Spikes(cfg, trace, rate).Ok?
    ensures |Segments(cfg, trace, rate)| <= 1 ==>
              |Spikes(cfg, trace, rate).value| == |Segments(cfg, trace, rate)|
    ensures |Segments(cfg, trace, rate)| >= 2 ==>
              |Spikes(cfg, trace, rate).value| ==
                |Gaps(Segments(cfg, trace, rate))| +
                (if Segments(cfg, trace, rate)[|Segments(cfg, trace, rate)| - 1] ==
                    Segments(cfg, trace, rate)[|Segments(cfg, trace, rate)| - 2] + 1 then 1 else 0)
  {
    EmittedCount(Segments(cfg, trace, rate));
  }

  /** Without any segment sample, find_ap returns an empty Series and does not raise. */
  lemma NoSegmentNoSpike(cfg: Config, trace: Trace, rate: seq<real>)
    requires |rate| == |trace|
    requires forall i :: 0 <= i < |trace| ==> rate[i] < cfg.rateThreshold || trace[i].value < cfg.traceThreshold
    ensures Spikes(cfg, trace, rate) == Ok([])
  {
  }

  /**
   * Each spike is the first sample after its run end whose rate is negative,
   * and carries that sample's time and voltage.
   */
  lemma SpikeIsFirstFall(cfg: Config, trace: Trace, rate: seq<real>, k: nat)
    requires |rate| == |trace| && Increasing(trace)
    requires Spikes(cfg, trace, rate).Ok? && k < |Spikes(cfg, trace, rate).value|
    ensures var e := EmittedEnds(Segments(cfg, trace, rate))[k];
            var spike := Spikes(cfg, trace, rate).value[k];
            exists j :: e < j < |trace| && rate[j] < 0.0 && spike == trace[j] &&
              spike.time > trace[e].time &&
              forall j' :: e < j' < j ==> rate[j'] >= 0.0
  {
    var segs := Segments(cfg, trace, rate);
    var ends := EmittedEnds(segs);
    var e := ends[k];
    assert e == segs[Positions(EmitMask(segs))[k]];
    var j := NextFall(trace, rate, trace[e].time).value;
    NextFallByPosition(trace, rate, e);
    assert Spikes(cfg, trace, rate).value[k] == trace[j];
  }

  /** Some run end has no later sample with a negative rate. */
  ghost predicate Stuck(trace: Trace, rate: seq<real>, ends: seq<nat>)
    requires |rate| == |trace|
  {
    exists k :: 0 <= k < |ends| && forall j :: ends[k] < j < |trace| ==> rate[j] >= 0.0
  }

  /** find_ap raises IndexError exactly when some emitted run end has no later negative rate. */
  lemma SpikesFailExactly(cfg: Config, trace: Trace, rate: seq<real>)
    requires |rate| == |trace| && Increasing(trace)
    ensures Spikes(cfg, trace, rate).Err? <==> Stuck(trace, rate, EmittedEnds(Segments(cfg, trace, rate)))
  {
    var segs := Segments(cfg, trace, rate);
    var ends := EmittedEnds(segs);
    assert forall k :: 0 <= k < |ends| ==> ends[k] == segs[Positions(EmitMask(segs))[k]];
    SpikesAfterFailExactly(trace, rate, ends);
  }

  /** Looking for spikes after given run ends fails exactly when one of them has no later negative rate. */
  lemma SpikesAfterFailExactly(trace: Trace, rate: seq<real>, ends: seq<nat>)
    requires |rate| == |trace| && Increasing(trace)
    requires forall k :: 0 <= k < |ends| ==> ends[k] < |trace|
    ensures SpikesAfter(trace, rate, ends).Err? <==> Stuck(trace, rate, ends)
  {
    forall k | 0 <= k < |ends|
      ensures NextFall(trace, rate, trace[ends[k]].time).None? <==>
                forall j :: ends[k] < j < |trace| ==> rate[j] >= 0.0
    {
      NextFallByPosition(trace, rate, ends[k]);
    }
    if exists k :: 0 <= k < |ends| && forall j :: ends[k] < j < |trace| ==> rate[j] >= 0.0 {
      var k :| 0 <= k < |ends| && forall j :: ends[k] < j < |trace| ==> rate[j] >= 0.0;
      assert NextFall(trace, rate, trace[ends[k]].time).None?;
      assert !AllFall(trace, rate, ends);
    } else {
      assert AllFall(trace, rate, ends);
    }
  }

  /** A later run end never finds an earlier negative-rate sample. */
  lemma NextFallMonotone(trace: Trace, rate: seq<real>, e1: nat, e2: nat)
    requires |rate| == |trace| && Increasing(trace) && e1 <= e2 < |trace|
    requires NextFall(trace, rate, trace[e2].time).Some?
    ensures NextFall(trace, rate, trace[e1].time).Some?
    ensures NextFall(trace, rate, trace[e1].time).value <= NextFall(trace, rate, trace[e2].time).value
  {
    NextFallByPosition(trace, rate, e1);
    NextFallByPosition(trace, rate, e2);
  }

  /** Spike times never decrease along find_ap's result. */
  lemma SpikeTimesNonDecreasing(cfg: Config, trace: Trace, rate: seq<real>)
    requires |rate| == |trace| && Increasing(trace) && Spikes(cfg, trace, rate).Ok?
    ensures var sp := Spikes(cfg, trace, rate).value;
            forall k, l :: 0 <= k < l < |sp| ==> sp[k].time <= sp[l].time
  {
    var segs := Segments(cfg, trace, rate);
    EmittedEndsIncreasing(segs);
    SpikesAfterNonDecreasing(trace, rate, EmittedEnds(segs));
  }

  /** Spikes found after increasing run ends come in non-decreasing time order. */
  lemma SpikesAfterNonDecreasing(trace: Trace, rate: seq<real>, ends: seq<nat>)
    requires |rate| == |trace| && Increasing(trace)
    requires forall k :: 0 <= k < |ends| ==> ends[k] < |trace|
    requires forall k, l :: 0 <= k < l < |ends| ==> ends[k] < ends[l]
    requires SpikesAfter(trace, rate, ends).Ok?
    ensures var sp := SpikesAfter(trace, rate, ends).value;
            forall k, l :: 0 <= k < l < |sp| ==> sp[k].time <= sp[l].time
  {
    var sp := SpikesAfter(trace, rate, ends).value;
    forall k, l | 0 <= k < l < |sp| ensures sp[k].time <= sp[l].time {
      NextFallMonotone(trace, rate, ends[k], ends[l]);
    }
  }

  /**
   * Two run ends with no negative rate between them give the same spike, so
   * find_ap can report one spike time twice.
   */
  lemma SameSpikeWithoutFall(trace: Trace, rate: seq<real>, e1: nat, e2: nat)
    requires |rate| == |trace| && Increasing(trace) && e1 <= e2 < |trace|
    requires forall j :: e1 < j <= e2 ==> rate[j] >= 0.0
    ensures NextFall(trace, rate, trace[e1].time) == NextFall(trace, rate, trace[e2].time)
  {
    NextFallByPosition(trace, rate, e1);
    NextFallByPosition(trace, rate, e2);
    var m1 := seq(|rate|, j requires 0 <= j < |rate| => j > e1 && rate[j] < 0.0);
    var m2 := seq(|rate|, j requires 0 <= j < |rate| => j > e2 && rate[j] < 0.0);
    assert m1 == m2;
  }

  // ---------------------------------------------------------------------------
  // find_ap_threshold
  // ---------------------------------------------------------------------------

  /** Position of the first sample whose rate reaches the rate threshold. */
  function ThresholdIndex(cfg: Config, rate: seq<real>): (r: Option<nat>)
    ensures r.None? <==> forall i :: 0 <= i < |rate| ==> rate[i] < cfg.rateThreshold
    ensures r.Some? ==> r.value < |rate| && rate[r.value] >= cfg.rateThreshold
    ensures r.Some? ==> forall i :: 0 <= i < r.value ==> rate[i] < cfg.rateThreshold
  {
    var mask := seq(|rate|, i requires 0 <= i < |rate| => rate[i] >= cfg.rateThreshold);
    assert forall i :: 0 <= i < |rate| ==> (mask[i] <==> rate[i] >= cfg.rateThreshold);
    First(mask)
  }

  /**
   * find_ap_threshold: the voltage at the first sample whose rate reaches the
   * rate threshold, whatever its voltage; ValueError when there is none.
   */
  function FindApThreshold(cfg: Config, trace: Trace, rate: seq<real>): (r: Result<real, Error>)
    requires |rate| == |trace|
    ensures r.Err? <==> forall i :: 0 <= i < |trace| ==> rate[i] < cfg.rateThreshold
    ensures r.Err? ==> r.error == ValueError
    ensures r.Ok? ==> exists i :: 0 <= i < |trace| && r.value == trace[i].value &&
                        rate[i] >= cfg.rateThreshold && forall j :: 0 <= j < i ==> rate[j] < cfg.rateThreshold
  {
    match ThresholdIndex(cfg, rate)
    case None => Err(ValueError)
    case Some(i) => Ok(trace[i].value)
  }

  /**
   * A sweep in which find_ap finds a spike always has an AP threshold, found
   * no later than its first segment sample.
   */
  lemma SpikingSweepHasThreshold(cfg: Config, trace: Trace, rate: seq<real>)
    requires |rate| == |trace| && Spikes(cfg, trace, rate).Ok? && Spikes(cfg, trace, rate).value != []
    ensures FindApThreshold(cfg, trace, rate).Ok?
    ensures |Segments(cfg, trace, rate)| > 0 && ThresholdIndex(cfg, rate).value <= Segments(cfg, trace, rate)[0]
  {
  }

  // ---------------------------------------------------------------------------
  // find_half_width
  // ---------------------------------------------------------------------------

  /** Voltage halfway between the first spike's amplitude and the AP threshold. */
  function HalfWay(amplitude: real, threshold: real): (h: real)
    ensures h - threshold == amplitude - h
    ensures threshold <= amplitude ==> threshold <= h <= amplitude
    ensures amplitude <= threshold ==> amplitude <= h <= threshold
  {
    0.5 * (amplitude + threshold)
  }

  predicate IsHalfStart(cfg: Config, trace: Trace, rate: seq<real>, h: real, s: nat)
    requires |rate| == |trace| && s < |trace|
  {
    rate[s] >= cfg.rateThreshold && trace[s].value >= h
  }

  predicate IsHalfEnd(trace: Trace, peak: real, h: real, e: nat)
    requires e < |trace|
  {
    trace[e].time >= peak && trace[e].value < h
  }

  /** The first sample rising at threshold rate at or above h (the start of the half-width). */
  function HalfStart(cfg: Config, trace: Trace, rate: seq<real>, h: real): (r: Option<nat>)
    requires |rate| == |trace|
    ensures r.None? <==> forall j :: 0 <= j < |trace| ==> !IsHalfStart(cfg, trace, rate, h, j)
    ensures r.Some? ==> r.value < |trace| && IsHalfStart(cfg, trace, rate, h, r.value) &&
                        forall j :: 0 <= j < r.value ==> !IsHalfStart(cfg, trace, rate, h, j)
  {
    var mask := seq(|trace|, j requires 0 <= j < |trace| => IsHalfStart(cfg, trace, rate, h, j));
    assert forall j :: 0 <= j < |trace| ==> mask[j] == IsHalfStart(cfg, trace, rate, h, j);
    First(mask)
  }

  /** The first sample at or after time `peak` below h (the end of the half-width). */
  function HalfEnd(trace: Trace, peak: real, h: real): (r: Option<nat>)
    ensures r.None? <==> forall j :: 0 <= j < |trace| ==> !IsHalfEnd(trace, peak, h, j)
    ensures r.Some? ==> r.value < |trace| && IsHalfEnd(trace, peak, h, r.value) &&
                        forall j :: 0 <= j < r.value ==> !IsHalfEnd(trace, peak, h, j)
  {
    var mask := seq(|trace|, j requires 0 <= j < |trace| => IsHalfEnd(trace, peak, h, j));
    assert forall j :: 0 <= j < |trace| ==> mask[j] == IsHalfEnd(trace, peak, h, j);
    First(mask)
  }

  /**
   * The start and end positions find_half_width measures between, for a first
   * spike at time `peak` and the half-way voltage h; an IndexError exactly when
   * either does not exist.
   */
  function HalfSpan(cfg: Config, trace: Trace, rate: seq<real>, peak: real, h: real): (r: Result<(nat, nat), Error>)
    requires |rate| == |trace|
    ensures r.Err? ==> r.error == IndexError
    ensures r.Err? <==> HalfStart(cfg, trace, rate, h).None? || HalfEnd(trace, peak, h).None?
    ensures r.Ok? ==> r.value == (HalfStart(cfg, trace, rate, h).value, HalfEnd(trace, peak, h).value)
  {
    match HalfStart(cfg, trace, rate, h)
    case None => Err(IndexError)
    case Some(s) =>
      match HalfEnd(trace, peak, h)
      case None => Err(IndexError)
      case Some(e) => Ok((s, e))
  }

  /**
   * find_half_width up to the subtraction: ValueError without an AP threshold,
   * IndexError when find_ap fails or finds no spike, otherwise the span around
   * the first spike at the voltage half-way between its peak and the threshold.
   */
  function HalfWidthBounds(cfg: Config, trace: Trace, rate: seq<real>): (r: Result<(nat, nat), Error>)
    requires |rate| == |trace|
    ensures FindApThreshold(cfg, trace, rate).Err? ==> r == Err(ValueError)
    ensures FindApThreshold(cfg, trace, rate).Ok? && !Spikes(cfg, trace, rate).Ok? ==> r == Err(IndexError)
    ensures FindApThreshold(cfg, trace, rate).Ok? && Spikes(cfg, trace, rate) == Ok([]) ==> r == Err(IndexError)
    ensures r.Ok? ==> FindApThreshold(cfg, trace, rate).Ok? && Spikes(cfg, trace, rate).Ok? &&
                      Spikes(cfg, trace, rate).value != []
    ensures FindApThreshold(cfg, trace, rate).Ok? && Spikes(cfg, trace, rate).Ok? &&
            Spikes(cfg, trace, rate).value != [] ==>
              r == HalfSpan(cfg, trace, rate, Spikes(cfg, trace, rate).value[0].time,
                            HalfWay(Spikes(cfg, trace, rate).value[0].value, FindApThreshold(cfg, trace, rate).value))
  {
    match FindApThreshold(cfg, trace, rate)
    case Err(err) => Err(err)
    case Ok(threshold) =>
      match Spikes(cfg, trace, rate)
      case Err(err) => Err(err)
      case Ok(aps) =>
        if aps == [] then Err(IndexError)
        else HalfSpan(cfg, trace, rate, aps[0].time, HalfWay(aps[0].value, threshold))
  }

  /** find_half_width: end time minus start time, or the error of HalfWidthBounds. */
  function FindHalfWidth(cfg: Config, trace: Trace, rate: seq<real>): (r: Result<real, Error>)
    requires |rate| == |trace|
    ensures r.Err? <==> HalfWidthBounds(cfg, trace, rate).Err?
    ensures r.Err? ==> r.error == HalfWidthBounds(cfg, trace, rate).error
    ensures r.Ok? ==> r.value == trace[HalfWidthBounds(cfg, trace, rate).value.1].time -
                                 trace[HalfWidthBounds(cfg, trace, rate).value.0].time
  {
    match HalfWidthBounds(cfg, trace, rate)
    case Err(err) => Err(err)
    case Ok((s, e)) => Ok(trace[e].time - trace[s].time)
  }

  /**
   * The half-width start is never before the AP threshold sample; when the
   * first spike rises above the threshold voltage, the end comes strictly after
   * the spike.
   */
  lemma HalfWidthBoundsOrder(cfg: Config, trace: Trace, rate: seq<real>)
    requires |rate| == |trace| && Increasing(trace) && HalfWidthBounds(cfg, trace, rate).Ok?
    ensures ThresholdIndex(cfg, rate).Some? &&
            ThresholdIndex(cfg, rate).value <= HalfWidthBounds(cfg, trace, rate).value.0
    ensures Spikes(cfg, trace, rate).Ok? && Spikes(cfg, trace, rate).value != [] &&
            (Spikes(cfg, trace, rate).value[0].value > FindApThreshold(cfg, trace, rate).value ==>
               trace[HalfWidthBounds(cfg, trace, rate).value.1].time > Spikes(cfg, trace, rate).value[0].time)
  {
    var (s, e) := HalfWidthBounds(cfg, trace, rate).value;
    var ends := EmittedEnds(Segments(cfg, trace, rate));
    var f := NextFall(trace, rate, trace[ends[0]].time).value;
    var peak := Spikes(cfg, trace, rate).value[0];
    assert peak == trace[f];
    var h := HalfWay(peak.value, FindApThreshold(cfg, trace, rate).value);
    assert HalfWidthBounds(cfg, trace, rate) == HalfSpan(cfg, trace, rate, peak.time, h);
    if peak.value > FindApThreshold(cfg, trace, rate).value {
      assert trace[e].value < h < trace[f].value;
      assert e != f && trace[e].time >= trace[f].time;
      assert f < e;
    }
  }

  // ---------------------------------------------------------------------------
  // find_current_step and measure_current
  // ---------------------------------------------------------------------------

  /** Python's max over the values of a non-empty Series. */
  function MaxValue(vs: seq<real>): (m: real)
    requires |vs| > 0
    ensures m in vs && forall v :: v in vs ==> v <= m
  {
    if |vs| == 1 then vs[0]
    else
      var rest := MaxValue(vs[1..]);
      assert forall v :: v in vs ==> v == vs[0] || v in vs[1..];
      if vs[0] >= rest then vs[0] else rest
  }

  /** Python's min over the values of a non-empty Series. */
  function MinValue(vs: seq<real>): (m: real)
    requires |vs| > 0
    ensures m in vs && forall v :: v in vs ==> m <= v
  {
    if |vs| == 1 then vs[0]
    else
      var rest := MinValue(vs[1..]);
      assert forall v :: v in vs ==> v == vs[0] || v in vs[1..];
      if vs[0] <= rest then vs[0] else rest
  }

  /** The average of the largest and smallest current. */
  function Midpoint(current: Trace): (m: real)
    requires |current| > 0
    ensures MinValue(Values(current)) <= m <= MaxValue(Values(current))
  {
    (MaxValue(Values(current)) + MinValue(Values(current))) * 0.5
  }

  function StepMask(current: Trace): (mask: seq<bool>)
    requires |current| > 0
    ensures |mask| == |current|
  {
    var avg := Midpoint(current);
    seq(|current|, i requires 0 <= i < |current| => current[i].value >= avg)
  }

  /**
   * find_current_step: the samples at or above the midpoint of the largest and
   * smallest current, in order (not necessarily a contiguous range). Never
   * empty for a non-empty trace; ValueError (from max) for an empty one.
   */
  function FindCurrentStep(current: Trace): (r: Result<Trace, Error>)
    ensures r.Err? <==> current == []
    ensures r.Err? ==> r.error == ValueError
    ensures r.Ok? ==> r.value != []
    ensures r.Ok? ==> forall x :: x in r.value ==> x in current
    ensures r.Ok? ==> forall k :: 0 <= k < |r.value| ==> r.value[k].value >= Midpoint(current)
  {
    if current == [] then Err(ValueError)
    else
      var mask := StepMask(current);
      var vs := Values(current);
      var top :| 0 <= top < |current| && vs[top] == MaxValue(vs);
      assert MinValue(vs) <= MaxValue(vs);
      assert mask[top];
      WhereComplete(current, mask, top);
      WhereSubset(current, mask);
      Ok(Where(current, mask))
  }

  /** Every sample at or above the midpoint belongs to the step. */
  lemma CurrentStepComplete(current: Trace, i: nat)
    requires i < |current| && current[i].value >= Midpoint(current)
    ensures current[i] in FindCurrentStep(current).value
  {
    WhereComplete(current, StepMask(current), i);
  }

  /** The step always holds a sample carrying the largest current. */
  lemma CurrentStepHasMaximum(current: Trace)
    requires current != []
    ensures exists x :: x in FindCurrentStep(current).value && x.value == MaxValue(Values(current))
  {
    var vs := Values(current);
    var top :| 0 <= top < |current| && vs[top] == MaxValue(vs);
    assert MinValue(vs) <= MaxValue(vs);
    CurrentStepComplete(current, top);
  }

  /** A flat current trace is all step. */
  lemma FlatCurrentIsAllStep(current: Trace)
    requires current != []
    requires forall i :: 0 <= i < |current| ==> current[i].value == current[0].value
    ensures FindCurrentStep(current) == Ok(current)
  {
    var vs := Values(current);
    assert MaxValue(vs) == current[0].value && MinValue(vs) == current[0].value by {
      assert forall v :: v in vs ==> v == current[0].value;
    }
    var mask := StepMask(current);
    PositionsAllTrue(mask);
    assert Where(current, mask) == current;
  }

  /** An all-true mask selects every position, in order. */
  lemma {:induction false} PositionsAllTrue(mask: seq<bool>)
    requires forall i :: 0 <= i < |mask| ==> mask[i]
    ensures Positions(mask) == seq(|mask|, i requires 0 <= i < |mask| => i)
    decreases |mask|
  {
    if mask != [] {
      PositionsAllTrue(mask[..|mask| - 1]);
    }
  }

  /** The step keeps the strictly increasing times of a recorded current trace. */
  lemma CurrentStepIncreasing(current: Trace)
    requires current != [] && Increasing(current)
    ensures Increasing(FindCurrentStep(current).value)
  {
    WhereIncreasing(current, StepMask(current));
  }

  /** Python's round on a float: the nearest integer, ties to the even one. */
  function RoundHalfEven(x: real): (r: int)
    ensures x - 0.5 <= r as real <= x + 0.5
    ensures (r as real == x - 0.5 || r as real == x + 0.5) ==> r % 2 == 0
  {
    var f := x.Floor;
    var d := x - f as real;
    if d < 0.5 then f
    else if d > 0.5 then f + 1
    else if f % 2 == 0 then f
    else f + 1
  }

  /**
   * `round(x / 10) * 10`: x quantized to a multiple of 10, off by at most 5;
   * a value exactly between two multiples goes to the one whose tens are even.
   */
  function Quantize(x: real): (r: int)
    ensures r % 10 == 0
    ensures x - 5.0 <= r as real <= x + 5.0
    ensures (r as real == x - 5.0 || r as real == x + 5.0) ==> (r / 10) % 2 == 0
  {
    var q := RoundHalfEven(x / 10.0);
    assert (q * 10) / 10 == q;
    assert (q * 10) as real == 10.0 * q as real;
    q * 10
  }

  function WindowMask(current: Trace, lo: real, hi: real): (mask: seq<bool>)
    ensures |mask| == |current|
  {
    seq(|current|, i requires 0 <= i < |current| => lo <= current[i].time <= hi)
  }

  /** The samples whose time lies in [lo, hi]. */
  function Window(current: Trace, lo: real, hi: real): (w: Trace)
    ensures forall x :: x in w ==> x in current
    ensures forall k :: 0 <= k < |w| ==> lo <= w[k].time <= hi
  {
    WhereSubset(current, WindowMask(current, lo, hi));
    Where(current, WindowMask(current, lo, hi))
  }

  /** Every sample whose time lies in [lo, hi] is in the window. */
  lemma WindowComplete(current: Trace, lo: real, hi: real, i: nat)
    requires i < |current| && lo <= current[i].time <= hi
    ensures current[i] in Window(current, lo, hi)
  {
    WhereComplete(current, WindowMask(current, lo, hi), i);
  }

  /** 40 to 20 ms before the step starts. */
  function BaselineWindow(current: Trace, start: real): (w: Trace)
    ensures forall x :: x in w ==> x in current
    ensures forall k :: 0 <= k < |w| ==> start - 0.04 <= w[k].time <= start - 0.02
  {
    Window(current, start - 0.04, start - 0.02)
  }

  /** The step without its first and last 50 ms. */
  function StimulusWindow(current: Trace, start: real, end: real): (w: Trace)
    ensures forall x :: x in w ==> x in current
    ensures forall k :: 0 <= k < |w| ==> start + 0.05 <= w[k].time <= end - 0.05
  {
    Window(current, start + 0.05, end - 0.05)
  }

  /**
   * measure_current: the median of the stimulus window minus the median of the
   * baseline window, rounded to a multiple of 10; 0 for an empty step. An
   * empty window makes numpy's median NaN, and rounding NaN raises ValueError.
   */
  function MeasureCurrent(current: Trace, median: seq<real> -> real): (r: Result<int, Error>)
    ensures r.Ok? ==> r.value % 10 == 0
    ensures r.Err? ==> r.error == ValueError
    ensures current == [] ==> r == Err(ValueError)
  {
    match FindCurrentStep(current)
    case Err(err) => Err(err)
    case Ok(step) =>
      if |step| == 0 then Ok(0)
      else
        var start, end := step[0].time, step[|step| - 1].time;
        var baseline := BaselineWindow(current, start);
        var stimulus := StimulusWindow(current, start, end);
        if baseline == [] || stimulus == [] then Err(ValueError)
        else Ok(Quantize(median(Values(stimulus)) - median(Values(baseline))))
  }

  /**
   * For a non-empty current trace, measure_current succeeds exactly when both
   * windows hold a sample, and then lies within 5 of the difference of the
   * window medians; its empty-step branch is never taken.
   */
  lemma MeasureCurrentValue(current: Trace, median: seq<real> -> real)
    requires current != []
    ensures var step := FindCurrentStep(current).value;
            var baseline := BaselineWindow(current, step[0].time);
            var stimulus := StimulusWindow(current, step[0].time, step[|step| - 1].time);
            var r := MeasureCurrent(current, median);
            (r.Ok? <==> baseline != [] && stimulus != []) &&
            (r.Err? ==> r.error == ValueError) &&
            (r.Ok? ==> var d := median(Values(stimulus)) - median(Values(baseline));
                       d - 5.0 <= r.value as real <= d + 5.0 &&
                       ((r.value as real == d - 5.0 || r.value as real == d + 5.0) ==> (r.value / 10) % 2 == 0))
  {
  }

  /**
   * On a recorded current trace every baseline sample lies below the midpoint,
   * because the baseline window ends before the first step sample.
   */
  lemma BaselineBelowStep(current: Trace)
    requires current != [] && Increasing(current)
    ensures forall x :: x in BaselineWindow(current, FindCurrentStep(current).value[0].time) ==>
              x.value < Midpoint(current)
  {
    var mask := StepMask(current);
    var ps := Positions(mask);
    var start := FindCurrentStep(current).value[0].time;
    assert start == current[ps[0]].time;
    PositionsLeast(mask);
    forall x | x in BaselineWindow(current, start) ensures x.value < Midpoint(current) {
      var i :| 0 <= i < |current| && current[i] == x;
      assert current[i].time < current[ps[0]].time;
      assert i < ps[0];
      assert mask[i] == (current[i].value >= Midpoint(current));
    }
  }

  // ---------------------------------------------------------------------------
  // find_rheobase
  // ---------------------------------------------------------------------------

  datatype Rheobase = Rheobase(sweep: nat, current: int)

  /** Every sweep's rate has the length of its (sampled) voltage trace. */
  predicate Valid(a: Analyzer) {
    forall i :: 0 <= i < |a.sweeps| ==>
      |a.sweeps[i].rate| == |ApplySampling(a.config, a.sweeps[i].voltage)|
  }

  /** find_ap on sweep i. */
  function SweepSpikes(a: Analyzer, i: nat): (r: Result<Trace, Error>)
    requires Valid(a) && i < |a.sweeps|
    ensures r.Err? ==> r.error == IndexError
  {
    Spikes(a.config, ApplySampling(a.config, a.sweeps[i].voltage), a.sweeps[i].rate)
  }

  /** find_ap finds no spike, and raises nothing, in any of the first n sweeps. */
  ghost predicate QuietBefore(a: Analyzer, n: nat)
    requires Valid(a) && n <= |a.sweeps|
  {
    forall j :: 0 <= j < n ==> SweepSpikes(a, j) == Ok([])
  }

  /** One more sweep without spikes extends the quiet prefix. */
  lemma QuietStep(a: Analyzer, n: nat)
    requires Valid(a) && n < |a.sweeps| && QuietBefore(a, n) && SweepSpikes(a, n) == Ok([])
    ensures QuietBefore(a, n + 1)
  {
  }

  /** measure_current on sweep i. */
  function SweepCurrent(a: Analyzer, i: nat, median: seq<real> -> real): (r: Result<int, Error>)
    requires i < |a.sweeps|
    ensures r.Ok? ==> r.value % 10 == 0
    ensures r.Err? ==> r.error == ValueError
  {
    MeasureCurrent(ApplySampling(a.config, a.sweeps[i].current), median)
  }

  /**
   * find_rheobase: the first sweep, in recorded order, in which find_ap finds a
   * spike, with its stimulus current; None when no sweep spikes. An exception
   * from find_ap or measure_current on the way escapes.
   */
  method FindRheobase(a: Analyzer, median: seq<real> -> real) returns (r: Result<Option<Rheobase>, Error>)
    requires Valid(a)
    ensures r.Ok? && r.value.Some? ==>
              var i := r.value.value.sweep;
              i < |a.sweeps| &&
              SweepSpikes(a, i).Ok? && SweepSpikes(a, i).value != [] &&
              SweepCurrent(a, i, median) == Ok(r.value.value.current) &&
              forall j :: 0 <= j < i ==> SweepSpikes(a, j) == Ok([])
    ensures r == Ok(None) <==> forall j :: 0 <= j < |a.sweeps| ==> SweepSpikes(a, j) == Ok([])
    ensures r.Err? ==>
              exists i :: 0 <= i < |a.sweeps| &&
                (forall j :: 0 <= j < i ==> SweepSpikes(a, j) == Ok([])) &&
                (SweepSpikes(a, i) == Err(r.error) ||
                 (SweepSpikes(a, i).Ok? && SweepSpikes(a, i).value != [] &&
                  SweepCurrent(a, i, median) == Err(r.error)))
  {
    for sweep := 0 to |a.sweeps|
      invariant QuietBefore(a, sweep)
    {
      var trace := ApplySampling(a.config, a.sweeps[sweep].voltage);
      var aps := FindAp(a.config, trace, a.sweeps[sweep].rate);
      assert aps == SweepSpikes(a, sweep);
      if aps.Err? {
        return Err(aps.error);
      }
      if |aps.value| > 0 {
        var amplitude := MeasureCurrent(ApplySampling(a.config, a.sweeps[sweep].current), median);
        if amplitude.Err? {
          return Err(amplitude.error);
        }
        return Ok(Some(Rheobase(sweep, amplitude.value)));
      }
      assert aps.value == [];
      QuietStep(a, sweep);
    }
    return Ok(None);
  }
}
