/** The wrapper part of `solve_assignment_problem`: the dense cost matrix
    filled from the triples, the total cost of a matching and the warning
    that the average cost is above the threshold. The matching itself comes
    from an external solver and is an input here. */
module Solver {
  import opened Ranks
  import opened Loader
  import opened LoaderProperties

  /** Cell (s, t) of a zero matrix after the triples are written into it in
      order: the cost of the last triple for that pair, or 0 if there is none. */
  function Written(prefs: seq<Preference>, s: nat, t: nat): int
  {
    if prefs == [] then 0
    else
      var last := prefs[|prefs| - 1];
      if last.student == s && last.topic == t then last.cost
      else Written(prefs[..|prefs| - 1], s, t)
  }

  /** The matching the external solver returns: equally many row and column
      indices, in range, no row and no column used twice. */
  predicate IsMatching(rows: seq<nat>, cols: seq<nat>, n: nat, m: nat)
  {
    |rows| == |cols| &&
    (forall i :: 0 <= i < |rows| ==> rows[i] < n && cols[i] < m) &&
    (forall i, j :: 0 <= i < j < |rows| ==> rows[i] != rows[j] && cols[i] != cols[j])
  }

  /** The cost of a matching on the matrix the triples describe. */
  function MatchedCost(prefs: seq<Preference>, rows: seq<nat>, cols: seq<nat>): int
    requires |rows| == |cols|
  {
    if rows == [] then 0
    else MatchedCost(prefs, rows[..|rows| - 1], cols[..|cols| - 1]) + Written(prefs, rows[|rows| - 1], cols[|cols| - 1])
  }

  /** `cost_matrix[row_indices, col_indices].sum()`. */
  function MatchedTotal(costs: array2<int>, rows: seq<nat>, cols: seq<nat>): int
    reads costs
    requires |rows| == |cols|
    requires forall i :: 0 <= i < |rows| ==> rows[i] < costs.Length0 && cols[i] < costs.Length1
  {
    if rows == [] then 0
    else MatchedTotal(costs, rows[..|rows| - 1], cols[..|cols| - 1]) + costs[rows[|rows| - 1], cols[|cols| - 1]]
  }

  /** `average_cost > penalize_below_n_preferences` with the average taken
      as `total_cost / len(students)`. With no students the numpy division
      gives NaN, and a comparison with NaN is false. */
  function AverageExceeds(total: int, n: nat, penalize: int): bool
  {
    n > 0 && (total as real) / (n as real) > penalize as real
  }

  /** Lines 41-44: a zero matrix of #students x #topics, then one write per
      triple. */
  method BuildCostMatrix(n: nat, m: nat, prefs: seq<Preference>) returns (costs: array2<int>)
    requires forall j :: 0 <= j < |prefs| ==> prefs[j].student < n && prefs[j].topic < m
    ensures fresh(costs) && costs.Length0 == n && costs.Length1 == m
    ensures forall s, t :: 0 <= s < n && 0 <= t < m ==> costs[s, t] == Written(prefs, s, t)
  {
    costs := new int[n, m]((_, _) => 0);
    var i := 0;
    while i < |prefs|
      invariant i <= |prefs|
      invariant forall s, t :: 0 <= s < n && 0 <= t < m ==> costs[s, t] == Written(prefs[..i], s, t)
    {
      var item := prefs[i];
      costs[item.student, item.topic] := item.cost;
      assert prefs[..i + 1][..i] == prefs[..i];
      i := i + 1;
    }
    assert prefs[..i] == prefs;
  }

  /** The statistics of `solve_assignment_problem`: the total cost of the
      matching on the cost matrix built from the triples, and whether the
      average cost per student is above the threshold. */
  method SolveAssignmentProblem(students: seq<string>, topics: seq<string>, prefs: seq<Preference>,
                                rows: seq<nat>, cols: seq<nat>, penalize: int)
      returns (total: int, warning: bool)
    requires forall j :: 0 <= j < |prefs| ==> prefs[j].student < |students| && prefs[j].topic < |topics|
    requires IsMatching(rows, cols, |students|, |topics|)
    ensures total == MatchedCost(prefs, rows, cols)
    ensures warning <==> |students| > 0 && total > penalize * |students|
  {
    var costs := BuildCostMatrix(|students|, |topics|, prefs);
    total := MatchedTotal(costs, rows, cols);
    MatchedTotalIsCost(costs, prefs, rows, cols);
    var averageExceeds := false;
    if |students| > 0 {
      var averageCost := (total as real) / (|students| as real);
      averageExceeds := averageCost > penalize as real;
    }
    AverageExceedsIff(total, |students|, penalize);
    warning := averageExceeds;
  }

  // ---------------------------------------------------------------------
  // Properties.

  /** Summing the matched cells of the matrix gives the matched cost. */
  lemma {:induction false} MatchedTotalIsCost(costs: array2<int>, prefs: seq<Preference>, rows: seq<nat>, cols: seq<nat>)
    requires |rows| == |cols|
    requires forall i :: 0 <= i < |rows| ==> rows[i] < costs.Length0 && cols[i] < costs.Length1
    requires forall s, t :: 0 <= s < costs.Length0 && 0 <= t < costs.Length1 ==> costs[s, t] == Written(prefs, s, t)
    ensures MatchedTotal(costs, rows, cols) == MatchedCost(prefs, rows, cols)
  {
    if rows != [] {
      MatchedTotalIsCost(costs, prefs, rows[..|rows| - 1], cols[..|cols| - 1]);
    }
  }

  /** The average is above the threshold exactly when the total is above
      the threshold times the number of students. */
  lemma AverageExceedsIff(total: int, n: nat, penalize: int)
    ensures AverageExceeds(total, n, penalize) <==> n > 0 && total > penalize * n
  {
    if n > 0 {
      var average := (total as real) / (n as real);
      assert average * (n as real) == total as real;
      assert (penalize * n) as real == (penalize as real) * (n as real);
      if average > penalize as real {
        assert average * (n as real) > (penalize as real) * (n as real);
      } else {
        assert average * (n as real) <= (penalize as real) * (n as real);
      }
    }
  }

  /** A pair written exactly once keeps the cost it was written with. */
  lemma {:induction false} WrittenOnce(prefs: seq<Preference>, s: nat, t: nat, j: nat)
    requires j < |prefs| && prefs[j].student == s && prefs[j].topic == t
    requires forall k :: 0 <= k < |prefs| && k != j ==> prefs[k].student != s || prefs[k].topic != t
    ensures Written(prefs, s, t) == prefs[j].cost
  {
    if j < |prefs| - 1 {
      var init := prefs[..|prefs| - 1];
      assert forall k :: 0 <= k < |init| ==> init[k] == prefs[k];
      WrittenOnce(init, s, t, j);
    }
  }

  /** Filling the matrix from the loader's triples sets every cell to the
      cost the loader gives that pair, so no cell keeps the initial 0 when
      the threshold is at least 0. */
  lemma FilledFromLoader(fields: Table, penalize: int, s: nat, t: nat)
    requires WellFormed(fields) && Normalise(fields, penalize).Ok?
    requires s < |fields.rows| && t < |Topics(fields.header)|
    ensures var prefs := Normalise(fields, penalize).value.preferences;
      Written(prefs, s, t) == CostOf(fields.rows[s].cells, |Topics(fields.header)|, penalize, t)
    ensures penalize >= 0 ==> Written(Normalise(fields, penalize).value.preferences, s, t) != 0
  {
    var prefs := Normalise(fields, penalize).value.preferences;
    NormaliseOutput(fields, penalize);
    assert HasTriple(prefs, s, t);
    var j :| 0 <= j < |prefs| && prefs[j].student == s && prefs[j].topic == t;
    forall k | 0 <= k < |prefs| && k != j ensures prefs[k].student != s || prefs[k].topic != t {
      if k < j {
        assert prefs[k].student != prefs[j].student || prefs[k].topic != prefs[j].topic;
      } else {
        assert prefs[j].student != prefs[k].student || prefs[j].topic != prefs[k].topic;
      }
    }
    WrittenOnce(prefs, s, t, j);
    if penalize >= 0 {
      AcceptedCostsPositive(fields, penalize, s, t);
    }
  }

  /** A matching whose every cell costs at most c costs at most c per pair. */
  lemma {:induction false} MatchedCostAtMost(prefs: seq<Preference>, rows: seq<nat>, cols: seq<nat>, c: int)
    requires |rows| == |cols|
    requires forall i :: 0 <= i < |rows| ==> Written(prefs, rows[i], cols[i]) <= c
    ensures MatchedCost(prefs, rows, cols) <= |rows| * c
  {
    if rows != [] {
      MatchedCostAtMost(prefs, rows[..|rows| - 1], cols[..|cols| - 1], c);
      assert (|rows| - 1) * c + c == |rows| * c;
    }
  }

  /** When every student is matched to a topic that costs the student at
      most the threshold, the warning does not fire. */
  lemma NoWarningWithinThreshold(prefs: seq<Preference>, rows: seq<nat>, cols: seq<nat>, n: nat, penalize: int)
    requires |rows| == |cols| == n
    requires forall i :: 0 <= i < n ==> Written(prefs, rows[i], cols[i]) <= penalize
    ensures !AverageExceeds(MatchedCost(prefs, rows, cols), n, penalize)
  {
    MatchedCostAtMost(prefs, rows, cols, penalize);
    AverageExceedsIff(MatchedCost(prefs, rows, cols), n, penalize);
  }
}
