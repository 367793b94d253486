/**
 * A pandas Series of floats indexed by time, and the boolean-mask selection
 * (`series[mask]`, `np.where(mask)[0]`, `.index[0]`) that every analysis step
 * of the analyzer is built from.
 */
module Series {
  import opened Wrappers

  /** One entry of a Series: its index label (a time in seconds) and its value. */
  datatype Sample = Sample(time: real, value: real)

  /** A time-indexed Series, in positional order. */
  type Trace = seq<Sample>

  /** Recorded traces have strictly increasing times. */
  ghost predicate Increasing(t: Trace) {
    forall i, j :: 0 <= i < j < |t| ==> t[i].time < t[j].time
  }

  /** The values of a Series, without their time labels. */
  function Values(t: Trace): (vs: seq<real>)
    ensures |vs| == |t|
    ensures forall i :: 0 <= i < |t| ==> vs[i] == t[i].value
  {
    seq(|t|, i requires 0 <= i < |t| => t[i].value)
  }

  /**
   * The positions at which a boolean mask is true, in increasing order
   * (numpy's `where(mask)[0]`).
   */
  function Positions(mask: seq<bool>): (ps: seq<nat>)
    ensures |ps| <= |mask|
    ensures forall k :: 0 <= k < |ps| ==> ps[k] < |mask| && mask[ps[k]]
    decreases |mask|
  {
    if mask == [] then []
    else
      var n := |mask| - 1;
      Positions(mask[..n]) + (if mask[n] then [n] else [])
  }

  /** The positions come in strictly increasing order. */
  lemma {:induction false} PositionsSorted(mask: seq<bool>)
    ensures forall k, l :: 0 <= k < l < |Positions(mask)| ==> Positions(mask)[k] < Positions(mask)[l]
    decreases |mask|
  {
    if mask != [] {
      PositionsSorted(mask[..|mask| - 1]);
    }
  }

  /** Every true position of a mask is among its positions. */
  lemma {:induction false} PositionsComplete(mask: seq<bool>, i: nat)
    requires i < |mask| && mask[i]
    ensures i in Positions(mask)
    decreases |mask|
  {
    var n := |mask| - 1;
    if i < n {
      PositionsComplete(mask[..n], i);
    }
  }

  /** The first position is the least true position; there is none exactly when no entry is true. */
  lemma PositionsLeast(mask: seq<bool>)
    ensures Positions(mask) == [] ==> forall i :: 0 <= i < |mask| ==> !mask[i]
    ensures Positions(mask) != [] ==> forall i :: 0 <= i < Positions(mask)[0] ==> !mask[i]
  {
    var ps := Positions(mask);
    forall i | 0 <= i < |mask| && (ps == [] || i < ps[0])
      ensures !mask[i]
    {
      if mask[i] {
        PositionsComplete(mask, i);
      }
    }
  }

  /** Extending a mask by one entry extends its positions by at most that entry. */
  lemma PositionsSnoc(mask: seq<bool>, j: nat)
    requires j < |mask|
    ensures Positions(mask[..j + 1]) == Positions(mask[..j]) + (if mask[j] then [j] else [])
  {
    assert mask[..j + 1][..j] == mask[..j];
  }

  /** The set of positions at which a mask is true. */
  ghost function TrueSet(mask: seq<bool>): set<nat> {
    set i: nat | i < |mask| && mask[i]
  }

  /** Selection keeps one entry per true position of the mask. */
  lemma {:induction false} PositionsCount(mask: seq<bool>)
    ensures |Positions(mask)| == |TrueSet(mask)|
    decreases |mask|
  {
    if mask == [] {
      assert TrueSet(mask) == {};
    } else {
      var n := |mask| - 1;
      var prev := mask[..n];
      PositionsCount(prev);
      var extra: set<nat> := if mask[n] then {n} else {};
      assert |Positions(mask)| == |Positions(prev)| + |extra|;
      forall i: nat ensures i in TrueSet(mask) <==> i in TrueSet(prev) + extra {
        if i < n {
          assert mask[i] == prev[i];
        }
      }
      assert TrueSet(mask) == TrueSet(prev) + extra;
      assert TrueSet(prev) !! extra;
    }
  }

  /** The entries of `s` at which `mask` is true, in order (pandas `s[mask]`). */
  function Where<T>(s: seq<T>, mask: seq<bool>): (r: seq<T>)
    requires |mask| == |s|
    ensures |r| == |Positions(mask)|
    ensures forall k :: 0 <= k < |r| ==> r[k] == s[Positions(mask)[k]]
  {
    var ps := Positions(mask);
    seq(|ps|, k requires 0 <= k < |ps| => s[ps[k]])
  }

  /** Selection only keeps entries of the original Series. */
  lemma WhereSubset<T>(s: seq<T>, mask: seq<bool>)
    requires |mask| == |s|
    ensures forall x :: x in Where(s, mask) ==> x in s
  {
  }

  /** Every entry at a true position of the mask is selected. */
  lemma WhereComplete<T>(s: seq<T>, mask: seq<bool>, i: nat)
    requires |mask| == |s| && i < |s| && mask[i]
    ensures s[i] in Where(s, mask)
  {
    var ps := Positions(mask);
    PositionsComplete(mask, i);
    var k :| 0 <= k < |ps| && ps[k] == i;
    assert Where(s, mask)[k] == s[i];
  }

  /** Selecting from a Series keeps its times strictly increasing. */
  lemma WhereIncreasing(t: Trace, mask: seq<bool>)
    requires |mask| == |t| && Increasing(t)
    ensures Increasing(Where(t, mask))
  {
    PositionsSorted(mask);
  }

  /** The first position at which a mask is true (`s[mask].index[0]`), None when there is none. */
  function First(mask: seq<bool>): (r: Option<nat>)
    ensures r.None? <==> forall i :: 0 <= i < |mask| ==> !mask[i]
    ensures r.Some? ==> r.value < |mask| && mask[r.value]
    ensures r.Some? ==> forall i :: 0 <= i < r.value ==> !mask[i]
  {
    var ps := Positions(mask);
    PositionsLeast(mask);
    if ps == [] then None else Some(ps[0])
  }
}
