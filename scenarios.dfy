/** Worked examples: a small table run through the loader and the solver
    statistics, and the three kinds of rejected ranks. */
module Scenarios {
  import opened Ranks
  import opened Loader
  import opened LoaderProperties
  import opened Solver

  /** Three students, three topics; s2 ranks only B, s3 ranks A second and
      C first. */
  const FirstCells := [Rank(1), Rank(2), Rank(3)]
  const SecondCells := [Empty, Rank(1), Empty]
  const ThirdCells := [Rank(2), Empty, Rank(1)]
  const ExampleRows := [Row("s1", FirstCells), Row("s2", SecondCells), Row("s3", ThirdCells)]

  /** The triples of the example with threshold 3, student by student. */
  const FirstTriplesOf := [Preference(0, 0, 1), Preference(0, 1, 2), Preference(0, 2, 3)]
  const SecondTriplesOf := [Preference(1, 1, 1), Preference(1, 0, 4), Preference(1, 2, 4)]
  const ThirdTriplesOf := [Preference(2, 0, 2), Preference(2, 2, 1), Preference(2, 1, 5)]
  const ExampleTriples := FirstTriplesOf + SecondTriplesOf + ThirdTriplesOf

  lemma FirstStudent()
    ensures Specified(FirstCells, 3) == [Entry(0, 1), Entry(1, 2), Entry(2, 3)]
    ensures Unspecified(FirstCells, 3) == []
    ensures ScanError(0, FirstCells, 3) == None
    ensures Sum(Values(Specified(FirstCells, 3))) == Tri(|Values(Specified(FirstCells, 3))|)
  {
    assert Specified(FirstCells, 1) == [Entry(0, 1)];
    assert Specified(FirstCells, 2) == [Entry(0, 1), Entry(1, 2)];
    assert Values(Specified(FirstCells, 1)) == [1];
    assert Values(Specified(FirstCells, 2)) == [1, 2];
    assert ScanError(0, FirstCells, 1) == None;
    assert ScanError(0, FirstCells, 2) == None;
    assert Values(Specified(FirstCells, 3)) == [1, 2, 3];
    assert Sum([1, 2, 3]) == 6 == Tri(3);
  }

  lemma SecondStudent()
    ensures Specified(SecondCells, 3) == [Entry(1, 1)]
    ensures Unspecified(SecondCells, 3) == [0, 2]
    ensures ScanError(1, SecondCells, 3) == None
    ensures Sum(Values(Specified(SecondCells, 3))) == Tri(|Values(Specified(SecondCells, 3))|)
  {
    assert Specified(SecondCells, 2) == [Entry(1, 1)];
    assert Unspecified(SecondCells, 2) == [0];
    assert ScanError(1, SecondCells, 2) == None;
    assert Values(Specified(SecondCells, 3)) == [1];
    assert Sum([1]) == 1 == Tri(1);
  }

  lemma ThirdStudent()
    ensures Specified(ThirdCells, 3) == [Entry(0, 2), Entry(2, 1)]
    ensures Unspecified(ThirdCells, 3) == [1]
    ensures ScanError(2, ThirdCells, 3) == None
    ensures Sum(Values(Specified(ThirdCells, 3))) == Tri(|Values(Specified(ThirdCells, 3))|)
  {
    assert Specified(ThirdCells, 2) == [Entry(0, 2)];
    assert Values(Specified(ThirdCells, 2)) == [2];
    assert Unspecified(ThirdCells, 2) == [1];
    assert ScanError(2, ThirdCells, 2) == None;
    assert Values(Specified(ThirdCells, 3)) == [2, 1];
    assert Sum([2, 1]) == 3 == Tri(2);
  }

  /** Three students who each pass the per-cell checks pass the first pass. */
  lemma ScanThree(rows: seq<Row>)
    requires |rows| == 3 && Wide(rows, 3)
    requires ScanError(0, rows[0].cells, 3) == None
    requires ScanError(1, rows[1].cells, 3) == None
    requires ScanError(2, rows[2].cells, 3) == None
    ensures FirstScanError(rows, 3, 3) == None
  {
    assert FirstScanError(rows, 3, 1) == None;
    assert FirstScanError(rows, 3, 2) == None;
  }

  /** When the first two of three students' ranks sum to k(k+1)/2, the
      second pass blames the third student exactly when that student's sum
      is off. */
  lemma SumThree(rows: seq<Row>)
    requires |rows| == 3 && Wide(rows, 3)
    requires Sum(RankValues(rows, 3, 0)) == Tri(|RankValues(rows, 3, 0)|)
    requires Sum(RankValues(rows, 3, 1)) == Tri(|RankValues(rows, 3, 1)|)
    ensures FirstSumError(rows, 3, 3) == None <==> Sum(RankValues(rows, 3, 2)) == Tri(|RankValues(rows, 3, 2)|)
    ensures FirstSumError(rows, 3, 3) != None ==> FirstSumError(rows, 3, 3) == Some(NotSequence(2))
  {
    assert FirstSumError(rows, 3, 1) == None;
    assert FirstSumError(rows, 3, 2) == None;
  }

  /** Every row of a table with these cells is wide enough. */
  lemma ThreeWide(rows: seq<Row>)
    requires |rows| == 3 && |rows[0].cells| == |rows[1].cells| == |rows[2].cells| == 3
    ensures Wide(rows, 3)
  {
    forall s | 0 <= s < 3 ensures 3 <= |rows[s].cells| {
      if s == 0 {} else if s == 1 {} else {}
    }
  }

  lemma ExampleScanPasses(rows: seq<Row>)
    requires rows == ExampleRows
    ensures FirstScanError(rows, 3, 3) == None
  {
    FirstStudent();
    SecondStudent();
    ThirdStudent();
    assert rows[0].cells == FirstCells && rows[1].cells == SecondCells && rows[2].cells == ThirdCells;
    ThreeWide(rows);
    ScanThree(rows);
  }

  lemma ExampleSumPasses(rows: seq<Row>)
    requires rows == ExampleRows
    ensures FirstSumError(rows, 3, 3) == None
  {
    FirstStudent();
    SecondStudent();
    ThirdStudent();
    assert rows[0].cells == FirstCells && rows[1].cells == SecondCells && rows[2].cells == ThirdCells;
    ThreeWide(rows);
    SumThree(rows);
  }

  /** The triples of one student, given as the student's ranked entries
      followed by the unranked topics at the default cost. */
  lemma FirstShape()
    ensures Tag(0, [Entry(0, 1), Entry(1, 2), Entry(2, 3)] + Defaults([], 6)) == FirstTriplesOf
  {
    assert [Entry(0, 1), Entry(1, 2), Entry(2, 3)] + Defaults([], 6) == [Entry(0, 1), Entry(1, 2), Entry(2, 3)];
  }

  lemma SecondShape()
    ensures Tag(1, [Entry(1, 1)] + Defaults([0, 2], 4)) == SecondTriplesOf
  {
    assert [Entry(1, 1)] + Defaults([0, 2], 4) == [Entry(1, 1), Entry(0, 4), Entry(2, 4)];
  }

  lemma ThirdShape()
    ensures Tag(2, [Entry(0, 2), Entry(2, 1)] + Defaults([1], 5)) == ThirdTriplesOf
  {
    assert [Entry(0, 2), Entry(2, 1)] + Defaults([1], 5) == [Entry(0, 2), Entry(2, 1), Entry(1, 5)];
  }

  /** The default costs: the largest rank plus the threshold 3. */
  lemma ExampleDefaults()
    ensures DefaultCost(Values([Entry(0, 1), Entry(1, 2), Entry(2, 3)]), 3) == 6
    ensures DefaultCost(Values([Entry(1, 1)]), 3) == 4
    ensures DefaultCost(Values([Entry(0, 2), Entry(2, 1)]), 3) == 5
  {
    assert Values([Entry(0, 1), Entry(1, 2), Entry(2, 3)]) == [1, 2, 3];
    assert [1, 2, 3][1..] == [2, 3] && [2, 3][1..] == [3];
    assert Values([Entry(1, 1)]) == [1];
    assert Values([Entry(0, 2), Entry(2, 1)]) == [2, 1];
    assert [2, 1][1..] == [1];
  }

  lemma FirstTriples()
    ensures Tag(0, Completed(FirstCells, 3, 3)) == FirstTriplesOf
  {
    FirstStudent();
    ExampleDefaults();
    FirstShape();
  }

  lemma SecondTriples()
    ensures Tag(1, Completed(SecondCells, 3, 3)) == SecondTriplesOf
  {
    SecondStudent();
    ExampleDefaults();
    SecondShape();
  }

  lemma ThirdTriples()
    ensures Tag(2, Completed(ThirdCells, 3, 3)) == ThirdTriplesOf
  {
    ThirdStudent();
    ExampleDefaults();
    ThirdShape();
  }

  lemma FirstMerged(rows: seq<Row>)
    requires rows == ExampleRows
    ensures AllTriples(rows, 3, 3, 1) == FirstTriplesOf
  {
    ThreeWide(rows);
    var lists := CompletedAll(rows, 3, 3);
    assert lists[0] == Completed(FirstCells, 3, 3);
    FirstTriples();
    assert TagAll(lists, 1) == TagAll(lists, 0) + Tag(0, lists[0]);
  }

  lemma SecondMerged(rows: seq<Row>)
    requires rows == ExampleRows
    ensures AllTriples(rows, 3, 3, 2) == FirstTriplesOf + SecondTriplesOf
  {
    FirstMerged(rows);
    ThreeWide(rows);
    var lists := CompletedAll(rows, 3, 3);
    assert lists[1] == Completed(SecondCells, 3, 3);
    SecondTriples();
    assert TagAll(lists, 2) == TagAll(lists, 1) + Tag(1, lists[1]);
  }

  lemma ExampleTriplesMerged(rows: seq<Row>)
    requires rows == ExampleRows
    ensures AllTriples(rows, 3, 3, 3) == ExampleTriples
  {
    SecondMerged(rows);
    ThreeWide(rows);
    var lists := CompletedAll(rows, 3, 3);
    assert lists[2] == Completed(ThirdCells, 3, 3);
    ThirdTriples();
    assert TagAll(lists, 3) == TagAll(lists, 2) + Tag(2, lists[2]);
  }

  lemma ExampleStudents(rows: seq<Row>)
    requires rows == ExampleRows
    ensures Students(rows) == ["s1", "s2", "s3"]
  {
    var r := Students(rows);
    assert r[0] == "s1" && r[1] == "s2" && r[2] == "s3";
  }

  /** With threshold 3, s2's unranked topics cost 1 + 3 and s3's unranked
      topic costs 2 + 3; the rank 1 is used by all three students. */
  lemma ExampleNormalised(fields: Table)
    requires fields == Table(["X", "A", "B", "C"], ExampleRows)
    ensures Normalise(fields, 3) == Ok(Parsed(["s1", "s2", "s3"], ["A", "B", "C"], ExampleTriples))
  {
    var rows := fields.rows;
    assert rows[0].cells == FirstCells && rows[1].cells == SecondCells && rows[2].cells == ThirdCells;
    ThreeWide(rows);
    assert Topics(fields.header) == ["A", "B", "C"];
    ExampleScanPasses(rows);
    ExampleSumPasses(rows);
    ExampleTriplesMerged(rows);
    ExampleStudents(rows);
    NormaliseFrom(fields, 3, ["s1", "s2", "s3"], ["A", "B", "C"], ExampleTriples);
  }

  /** Matching every student of the example to the topic the student ranked
      first costs 3 in total, an average of 1, so there is no warning. */
  lemma ExampleStatistics()
    ensures MatchedCost(ExampleTriples, [0, 1, 2], [0, 1, 2]) == 3
    ensures !AverageExceeds(3, 3, 3)
  {
    WrittenOnce(ExampleTriples, 0, 0, 0);
    WrittenOnce(ExampleTriples, 1, 1, 3);
    WrittenOnce(ExampleTriples, 2, 2, 7);
    var rows, cols: seq<nat> := [0, 1, 2], [0, 1, 2];
    assert rows[..2] == [0, 1] && rows[..2][..1] == [0] && [0][..0] == [];
    assert MatchedCost(ExampleTriples, [0], [0]) == 1;
    assert MatchedCost(ExampleTriples, [0, 1], [0, 1]) == 2;
    AverageExceedsIff(3, 3, 3);
  }

  /** A student who ranks A third and C first: {1, 3}, with nothing ranked
      second. */
  const GapCells := [Rank(3), Empty, Rank(1)]

  lemma GapStudent()
    ensures ScanError(2, GapCells, 3) == None
    ensures Sum(Values(Specified(GapCells, 3))) != Tri(|Values(Specified(GapCells, 3))|)
  {
    assert Specified(GapCells, 2) == [Entry(0, 3)];
    assert Values(Specified(GapCells, 2)) == [3];
    assert ScanError(2, GapCells, 2) == None;
    assert Values(Specified(GapCells, 3)) == [3, 1];
    assert Sum([3, 1]) == 4 != Tri(2);
  }

  /** The student with ranks {1, 3} passes the per-cell checks but is
      rejected by the sum check: 1 + 3 is not 2 * 3 / 2. */
  lemma GapRejected(fields: Table)
    requires fields == Table(["X", "A", "B", "C"],
      [Row("s1", FirstCells), Row("s2", SecondCells), Row("s3", GapCells)])
    ensures Normalise(fields, 3) == Err(NotSequence(2))
  {
    var rows := fields.rows;
    FirstStudent();
    SecondStudent();
    GapStudent();
    assert rows[0].cells == FirstCells && rows[1].cells == SecondCells && rows[2].cells == GapCells;
    ThreeWide(rows);
    ScanThree(rows);
    SumThree(rows);
  }

  /** The ranks {1, 1} repeat a rank: the second cell is blamed. */
  lemma RepeatExample()
    ensures Normalise(Table(["X", "A", "B"], [Row("s", [Rank(1), Rank(1)])]), 3) == Err(NotUnique(0, 1, 1))
  {
    var cells := [Rank(1), Rank(1)];
    assert Specified(cells, 1) == [Entry(0, 1)];
    assert Values(Specified(cells, 1)) == [1];
    assert ScanError(0, cells, 1) == None;
    assert ScanError(0, cells, 2) == Some(NotUnique(0, 1, 1));
  }

  /** The rank 0 is below 1. */
  lemma BelowOneExample()
    ensures Normalise(Table(["X", "A"], [Row("s", [Rank(0)])]), 3) == Err(BelowOne(0, 0, 0))
  {
    assert ScanError(0, [Rank(0)], 1) == Some(BelowOne(0, 0, 0));
  }
}
