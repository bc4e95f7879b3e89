/**
 * The degree range filter of the topology filters: it observes the smallest
 * and largest degree of the visible graph and keeps the user's range inside
 * those bounds.
 */
module DegreeRange {
  import opened Numbers

  /** A node degree as the host graph reports it: a non-negative Java int. */
  type Degree = d: int | 0 <= d <= 0x7fff_ffff

  /** An integer range [lower, upper] of the filter (the Range value object). */
  datatype Range = Range(lower: int, upper: int)

  /** The smallest degree, or Integer.MAX_VALUE for a graph without nodes. */
  function MinDegree(degrees: seq<Degree>): (m: int)
    ensures degrees == [] ==> m == IntMax
    ensures forall i :: 0 <= i < |degrees| ==> m <= degrees[i]
    ensures degrees != [] ==> exists i :: 0 <= i < |degrees| && m == degrees[i]
  {
    if degrees == [] then IntMax
    else Min(MinDegree(degrees[..|degrees| - 1]), degrees[|degrees| - 1])
  }

  /** The largest degree, or Integer.MIN_VALUE for a graph without nodes. */
  function MaxDegree(degrees: seq<Degree>): (m: int)
    ensures degrees == [] ==> m == IntMin
    ensures forall i :: 0 <= i < |degrees| ==> degrees[i] <= m
    ensures degrees != [] ==> exists i :: 0 <= i < |degrees| && m == degrees[i]
  {
    if degrees == [] then IntMin
    else Max(MaxDegree(degrees[..|degrees| - 1]), degrees[|degrees| - 1])
  }

  /**
   * The range repair at the end of refreshMinMax. The lower bound is checked
   * first; the upper bound is then checked against the already repaired
   * lower bound.
   */
  function Repair(lo: int, hi: int, r: Range): (repaired: Range)
    ensures lo <= hi ==> lo <= repaired.lower <= hi && lo <= repaired.upper <= hi
  {
    var lower := if lo > r.lower || hi < r.lower || r.lower == r.upper then lo else r.lower;
    var upper := if lo > r.upper || hi < r.upper || lower == r.upper then hi else r.upper;
    Range(lower, upper)
  }

  /** The lower bound survives exactly when it is inside [lo, hi] and differs from the upper bound. */
  lemma RepairLower(lo: int, hi: int, r: Range)
    ensures lo <= r.lower <= hi && r.lower != r.upper ==> Repair(lo, hi, r).lower == r.lower
    ensures !(lo <= r.lower <= hi && r.lower != r.upper) ==> Repair(lo, hi, r).lower == lo
  {
  }

  /**
   * The upper bound survives exactly when it is inside [lo, hi] and differs
   * from the repaired lower bound.
   */
  lemma RepairUpper(lo: int, hi: int, r: Range)
    ensures var l := Repair(lo, hi, r).lower;
      (lo <= r.upper <= hi && l != r.upper ==> Repair(lo, hi, r).upper == r.upper) &&
      (!(lo <= r.upper <= hi && l != r.upper) ==> Repair(lo, hi, r).upper == hi)
  {
  }

  /** With at least one node (lo <= hi) both repaired bounds lie inside the observed bounds. */
  lemma RepairWithinBounds(lo: int, hi: int, r: Range)
    requires lo <= hi
    ensures lo <= Repair(lo, hi, r).lower <= hi
    ensures lo <= Repair(lo, hi, r).upper <= hi
  {
  }

  /** Repairing a range that already lies strictly inside the bounds changes nothing. */
  lemma RepairKeepsValid(lo: int, hi: int, r: Range)
    requires lo <= r.lower <= hi && lo <= r.upper <= hi && r.lower != r.upper
    ensures Repair(lo, hi, r) == r
  {
  }

  /**
   * A new filter starts from the range (0, 0); over a graph with at least one
   * node its range becomes exactly (min degree, max degree).
   */
  lemma {:induction false} FreshRangeIsObservedBounds(degrees: seq<Degree>)
    requires degrees != []
    ensures Repair(MinDegree(degrees), MaxDegree(degrees), Range(0, 0))
         == Range(MinDegree(degrees), MaxDegree(degrees))
  {
    assert MinDegree(degrees) <= degrees[0] <= MaxDegree(degrees);
    var i :| 0 <= i < |degrees| && MinDegree(degrees) == degrees[i];
    assert MinDegree(degrees) >= 0;
  }

  /** DegreeRangeBuilder.DegreeRangeFilter: the observed bounds and the current range. */
  class DegreeRangeFilter {
    var min: int
    var max: int
    var range: Range

    /** The filter is built over the visible graph, given as its node degrees in iteration order. */
    constructor (degrees: seq<Degree>)
      ensures min == MinDegree(degrees) && max == MaxDegree(degrees)
      ensures range == Repair(min, max, Range(0, 0))
      ensures degrees != [] ==> range == Range(min, max)
    {
      min := 0;
      max := 0;
      range := Range(0, 0);
      new;
      RefreshMinMax(degrees);
      if degrees != [] {
        FreshRangeIsObservedBounds(degrees);
      }
    }

    /** Recompute min and max over the visible nodes and repair the range. */
    method RefreshMinMax(degrees: seq<Degree>)
      modifies this
      ensures min == MinDegree(degrees) && max == MaxDegree(degrees)
      ensures range == Repair(min, max, old(range))
      ensures degrees != [] ==> min <= range.lower <= max && min <= range.upper <= max
    {
      min := IntMax;
      max := IntMin;
      for i := 0 to |degrees|
        invariant min == MinDegree(degrees[..i]) && max == MaxDegree(degrees[..i])
        invariant range == old(range)
      {
        assert degrees[..i + 1][..i] == degrees[..i];
        var degree := degrees[i];
        min := Min(min, degree);
        max := Max(max, degree);
      }
      assert degrees[..|degrees|] == degrees;
      var lowerBound := range.lower;
      var upperBound := range.upper;
      if min > lowerBound || max < lowerBound || lowerBound == upperBound {
        lowerBound := min;
      }
      if min > upperBound || max < upperBound || lowerBound == upperBound {
        upperBound := max;
      }
      range := Range(lowerBound, upperBound);
      if degrees != [] {
        RepairWithinBounds(min, max, old(range));
      }
    }

    /** One degree per visible node, in node iteration order. */
    method GetValues(degrees: seq<Degree>) returns (values: seq<int>)
      ensures |values| == |degrees|
      ensures forall i :: 0 <= i < |degrees| ==> values[i] == degrees[i]
    {
      values := [];
      for i := 0 to |degrees|
        invariant values == degrees[..i]
      {
        values := values + [degrees[i]];
      }
    }

    function GetMinimum(): (m: int)
      reads this
      ensures m == min
    {
      min
    }

    function GetMaximum(): (m: int)
      reads this
      ensures m == max
    {
      max
    }

    function GetRange(): (r: Range)
      reads this
      ensures r == range
    {
      range
    }

    /** The range is stored verbatim; min and max are left alone. */
    method SetRange(r: Range)
      modifies this
      ensures GetRange() == r
      ensures min == old(min) && max == old(max)
    {
      range := r;
    }
  }
}
