# APAnalyzer spike detection, modelled in Dafny

This project models the analysis core of `APAnalyzer`, a patch-clamp helper
that reads whole-cell recordings (ABF files) and measures action potentials
(APs). It also models `sample_series`, the downsampling helper that the
analyzer applies to every channel.

- **Recording.** A recording is a sequence of sweeps. Each sweep has a voltage
  trace, a current trace, and the rate (the time derivative of the voltage
  trace after sampling).
- **Series.** A trace is a pandas Series of floats indexed by time. It is
  modelled as a sequence of `Sample(time, value)` with real times and values.
  Recorded traces have strictly increasing times (`Series.Increasing`).
- **Mask selection.** Every step of the analysis is a boolean-mask selection
  on a Series. The module `Series` models this once:
  - `Positions` is `np.where(mask)[0]`.
  - `Where` is `s[mask]`.
  - `First` is `s[mask].index[0]`. An empty selection is `None`, which the
    analyzer turns into `IndexError`.
- **Configuration.** The analyzer's fields are set in its constructor and
  never change. They form an immutable `Config`: the optional sampling rate,
  the trace threshold and the rate threshold.

Modules:

- `Wrappers`: `Option` and `Result`.
- `Series`: samples, traces, positional mask selection and its lemmas.
- `Utils`: `sample_series` as `SampleSeries`, with exact stride and length
  facts.
- `APAnalyzer`:
  - the sampling gate of `get_trace`/`get_current`;
  - `find_ap`: the specification function `Spikes`, and the source's
    imperative loop as the methods `FindAp` and `SpikesOfRuns`, proved equal
    to it;
  - `find_ap_threshold`, `find_half_width`, `find_current_step` and
    `measure_current` as functions;
  - `find_rheobase` as a method with a loop and an early return.

Errors are values. `Error.IndexError` is raised when `.index[0]`/`.iloc[0]`
finds nothing. `Error.ValueError` is raised by `max()` of an empty trace, by
`find_ap_threshold`, and by `round` of the NaN that `np.median` returns for an
empty window.

Behaviour of the source worth noting:

- **Spike rule.** A spike is the first later sample whose rate is negative.
- **Trailing single-sample run.** When the last segment sample follows a gap,
  it is dropped (`TrailingSingleton`).
- **Duplicate spike times.** Two runs with no negative rate between them give
  the same spike time (`SameSpikeWithoutFall`).
- **Current step.** The step is every sample at or above the midpoint, which
  need not be a contiguous range. A flat current trace yields the whole trace
  (`FlatCurrentIsAllStep`).
- **Empty-step branch.** The `len(current_step) == 0` branch of
  `measure_current` cannot be taken: the step is never empty for a non-empty
  trace. A result of 0 also arises whenever the two medians differ by less
  than 5.

## Model

| member | source | states |
|---|---|---|
| Series.Positions | utils.py:18 | every listed position is inside the mask and true there |
| Series.PositionsSorted | utils.py:18 | the positions are strictly increasing |
| Series.PositionsComplete | utils.py:18 | every true position of the mask is listed |
| Series.PositionsLeast | apanalyzer.py:103-104 | no position is listed exactly when the mask is all false; before the first listed position every entry is false |
| Series.PositionsCount | utils.py:18 | the number of positions equals the number of true entries |
| Series.Where | utils.py:19 | the selection has one entry per true position, and entry k is the input's entry at the k-th true position |
| Series.WhereSubset | utils.py:19 | the selection only holds entries of the input |
| Series.WhereComplete | utils.py:19 | every entry at a true position is selected |
| Series.WhereIncreasing | utils.py:19 | selection keeps strictly increasing times |
| Series.First | apanalyzer.py:103-104 | `None` exactly when no entry is true; otherwise the least true position |
| Utils.StrideMask | utils.py:18 | the mask is true exactly at the multiples of \|k\|, for any non-zero stride k (also negative) |
| Utils.SampleSeries | utils.py:14-19 | only entries of the input are kept |
| Utils.StridePositions | utils.py:18 | the kept positions are exactly 0, \|k\|, 2\|k\|, … below n, for any non-zero stride k (also negative) |
| Utils.SampleSeriesAt | utils.py:18-19 | the output has ceil(n/\|k\|) entries, and entry j is the input's entry at position j·\|k\| with its time label and value unchanged |
| Utils.SampleSeriesUnitStride | utils.py:18 | stride 1 returns the input unchanged |
| Utils.SampleSeriesIncreasing | utils.py:19 | strictly increasing times stay strictly increasing |
| Utils.SampleSeriesKeepsFirst | utils.py:18 | the first entry of a non-empty series is always kept |
| APAnalyzer.ApplySampling | apanalyzer.py:25-38 | with a `None` or 0 sampling rate the channel is returned unsampled; sampling never lengthens it |
| APAnalyzer.ApplySamplingAt | apanalyzer.py:41-54 | the sampled channel has ceil(n/stride) samples, and sample j is raw sample j·stride |
| APAnalyzer.ApplySamplingIncreasing | apanalyzer.py:36-37 | sampling keeps a recorded channel's times strictly increasing |
| APAnalyzer.Segments | apanalyzer.py:93-94 | every segment position passes both thresholds; positions are in trace order |
| APAnalyzer.SegmentsComplete | apanalyzer.py:93-94 | every sample passing both thresholds is a segment sample |
| APAnalyzer.NextFall | apanalyzer.py:117-118 | a found sample is later than the run end and has a negative rate |
| APAnalyzer.NextFallFirst | apanalyzer.py:117-118 | the found sample is the first such one, and none is found exactly when no later sample has a negative rate |
| APAnalyzer.SpikesAfter | apanalyzer.py:117-120 | a successful search yields exactly one spike per run end |
| APAnalyzer.Spikes | apanalyzer.py:93-121 | find_ap as a whole: a failure is always IndexError; a result has one spike per emitted run end |
| APAnalyzer.FindAp | apanalyzer.py:80-121 | the method's result, on all three branches (no, one, several segments), equals the specification `Spikes` |
| APAnalyzer.SpikesOfRuns | apanalyzer.py:108-120 | the loop with `continue` records exactly the spikes after the emitted run ends, or raises IndexError exactly as the specification does |
| APAnalyzer.OneRunAtMost | apanalyzer.py:99-106 | with at most one segment sample, that sample is the only run end |
| APAnalyzer.EmitNone | apanalyzer.py:111-116 | an index inside a run emits nothing |
| APAnalyzer.EmitOne | apanalyzer.py:111-114 | a gap emits the previous segment; the last index, if adjacent, emits itself |
| APAnalyzer.RecordSnoc | apanalyzer.py:119-120 | appending the next spike keeps every recorded spike matched to its run end |
| APAnalyzer.SpikesFromRecorded | apanalyzer.py:119-121 | spikes recorded for every emitted run end form the whole result |
| APAnalyzer.SpikesFailAt | apanalyzer.py:117-118 | an emitted run end without a later negative rate makes find_ap raise IndexError |
| APAnalyzer.EmittedEndsExact | apanalyzer.py:110-116 | a segment yields a spike exactly when it ends its run and is not a trailing single-sample run |
| APAnalyzer.EmittedEndsIncreasing | apanalyzer.py:110-116 | emitted run ends keep trace order |
| APAnalyzer.EmitSet | apanalyzer.py:110-116 | the emitting segments are those before a gap, plus the last one when it is adjacent to its predecessor |
| APAnalyzer.EmittedCount | apanalyzer.py:99-116 | spike count: one per segment sample when there is at most one; otherwise one per gap plus one when the last two segment samples are adjacent |
| APAnalyzer.SpikeCount | apanalyzer.py:99-121 | the count of EmittedCount, stated over find_ap's result |
| APAnalyzer.NoSegmentNoSpike | apanalyzer.py:97-121 | with no sample passing both thresholds, find_ap returns an empty result and does not raise |
| APAnalyzer.FirstFallAfter | apanalyzer.py:117-118 | position-based reference: the first position after e with a negative rate, or none exactly when there is none |
| APAnalyzer.NextFallByPosition | apanalyzer.py:117-118 | on increasing times, the source's time-label search equals the position-based reference |
| APAnalyzer.SpikeIsFirstFall | apanalyzer.py:117-120 | each spike is the trace sample at the first negative rate after its run end, strictly later in time |
| APAnalyzer.SpikesFailExactly | apanalyzer.py:110-120 | find_ap raises IndexError exactly when some emitted run end has no later negative rate |
| APAnalyzer.SpikesAfterFailExactly | apanalyzer.py:117-118 | the same for any list of run ends |
| APAnalyzer.NextFallMonotone | apanalyzer.py:117-118 | a later run end never finds an earlier negative-rate sample |
| APAnalyzer.SpikeTimesNonDecreasing | apanalyzer.py:110-121 | spike times never decrease along the result |
| APAnalyzer.SpikesAfterNonDecreasing | apanalyzer.py:117-120 | spikes after increasing run ends have non-decreasing times |
| APAnalyzer.SameSpikeWithoutFall | apanalyzer.py:117-118 | two run ends with no negative rate between them get the same spike |
| APAnalyzer.ThresholdIndex | apanalyzer.py:137 | the first position whose rate reaches the rate threshold, or none exactly when there is none |
| APAnalyzer.FindApThreshold | apanalyzer.py:131-142 | ValueError exactly when no rate reaches the threshold; otherwise the voltage at the first such sample, whatever its voltage |
| APAnalyzer.SpikingSweepHasThreshold | apanalyzer.py:137-142 | a sweep with a spike has an AP threshold, found no later than its first segment sample |
| APAnalyzer.HalfWay | apanalyzer.py:154 | the half-way voltage is equidistant from the amplitude and the threshold and lies between them |
| APAnalyzer.HalfStart | apanalyzer.py:156-157 | the first sample at threshold rate and at or above the half-way voltage, or none exactly when there is none |
| APAnalyzer.HalfEnd | apanalyzer.py:158-159 | the first sample at or after the first spike and below the half-way voltage, or none exactly when there is none |
| APAnalyzer.HalfSpan | apanalyzer.py:156-159 | IndexError exactly when the start or the end is missing; otherwise both positions |
| APAnalyzer.HalfWidthBounds | apanalyzer.py:144-159 | ValueError without an AP threshold, then IndexError when find_ap fails or finds no spike; otherwise exactly HalfSpan at the first spike's time and at the voltage half-way between its amplitude and the threshold, so the start is the first sample at threshold rate and at or above that voltage, and the end the first sample at or after the spike below it |
| APAnalyzer.FindHalfWidth | apanalyzer.py:144-161 | fails exactly as HalfWidthBounds, with its error; otherwise the time of the end sample minus the time of the start sample that HalfWidthBounds determines |
| APAnalyzer.HalfWidthBoundsOrder | apanalyzer.py:154-159 | the start is never before the AP threshold sample; when the spike peaks above the threshold, the end is strictly after the spike |
| APAnalyzer.MaxValue | apanalyzer.py:173 | the maximum is in the values and bounds them all from above |
| APAnalyzer.MinValue | apanalyzer.py:173 | the minimum is in the values and bounds them all from below |
| APAnalyzer.Midpoint | apanalyzer.py:173 | the step threshold lies between the smallest and the largest current |
| APAnalyzer.FindCurrentStep | apanalyzer.py:163-175 | ValueError exactly for an empty trace; otherwise a non-empty subset whose every sample is at or above the midpoint |
| APAnalyzer.CurrentStepComplete | apanalyzer.py:174 | every sample at or above the midpoint is in the step |
| APAnalyzer.CurrentStepHasMaximum | apanalyzer.py:173-174 | the step contains a sample with the largest current |
| APAnalyzer.FlatCurrentIsAllStep | apanalyzer.py:173-174 | a flat trace is all step |
| APAnalyzer.PositionsAllTrue | apanalyzer.py:174 | an all-true mask selects every position in order |
| APAnalyzer.CurrentStepIncreasing | apanalyzer.py:174 | the step keeps strictly increasing times |
| APAnalyzer.RoundHalfEven | apanalyzer.py:200 | Python's round: within 0.5 of its argument, and even on a tie |
| APAnalyzer.Quantize | apanalyzer.py:200 | `round(x/10)*10` is a multiple of 10 within 5 of x; on a tie its tens are even |
| APAnalyzer.Window | apanalyzer.py:190-198 | a window holds only samples of the trace, each with a time inside the bounds |
| APAnalyzer.WindowComplete | apanalyzer.py:190-198 | every sample with a time inside the bounds is in the window |
| APAnalyzer.BaselineWindow | apanalyzer.py:190-192 | the baseline holds only samples of the trace, timed from 40 to 20 ms before the step starts |
| APAnalyzer.StimulusWindow | apanalyzer.py:195-197 | the stimulus window holds only samples of the trace, timed from 50 ms after the step starts to 50 ms before it ends |
| APAnalyzer.MeasureCurrent | apanalyzer.py:177-202 | a result is a multiple of 10; every failure is ValueError; an empty trace raises ValueError |
| APAnalyzer.MeasureCurrentValue | apanalyzer.py:183-200 | for a non-empty trace: success exactly when both windows are non-empty, and then within 5 of the difference of the medians, with even tens on a tie; otherwise ValueError |
| APAnalyzer.BaselineBelowStep | apanalyzer.py:188-192 | on a recorded trace every baseline sample lies below the midpoint |
| APAnalyzer.SweepSpikes | apanalyzer.py:125 | find_ap on one sweep fails only with IndexError |
| APAnalyzer.SweepCurrent | apanalyzer.py:127 | measure_current on one sweep gives a multiple of 10 or fails with ValueError |
| APAnalyzer.QuietStep | apanalyzer.py:124-129 | one more sweep without spikes extends the prefix of spike-free sweeps |
| APAnalyzer.FindRheobase | apanalyzer.py:123-129 | the first sweep in order with a spike, with its measure_current; every earlier sweep has no spike; `None` exactly when no sweep spikes; an escaping error is the error of find_ap, or of measure_current after find_ap found a spike, on the first sweep that does not have zero spikes |

## Left out

- `read_sweep` and the `pyabf.ABF` constructor: file I/O through a foreign
  library. Sweeps are given as sequences, in `sweep_list` order, and a sweep
  is identified by its position.
- `get_rate` and `get_shape` (`np.gradient`): a foreign floating-point routine.
  The rate is an input per sweep. The model only requires it to be as long as
  the sampled voltage trace (`Valid`).
- `np.median`: an abstract function parameter. Python floats are modelled as
  exact reals, so rounding error, infinities and NaN are not modelled. The one
  NaN path, `round` of the median of an empty window, is modelled as its
  ValueError.
- `all_ind`, the lookup of each segment's time label in the trace
  (`np.where(trace.index == t)[0][0]`), is modelled as the segment's position.
  The two agree whenever times are distinct, as they are in a recording.
  Duplicate labels are not modelled.
- The returned pandas Series of spikes is modelled as a sequence of
  `Sample(time, amplitude)`. `find_rheobase` returns the sweep's position
  rather than its label in `sweep_list`.
- `sample_series`'s default stride of 10 is not modelled, since the analyzer
  always passes its sampling rate. A stride of 0 is excluded by a
  precondition, because the analyzer's truthiness gate never passes it.
- `plot.py` (matplotlib drawing) and `summary.py` (a batch loop over files
  with console output) are not part of this model.
