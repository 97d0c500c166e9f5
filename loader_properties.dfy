/** What the loader guarantees: which tables it accepts, what each error it
    raises points at, and the shape and costs of the triples it returns. */
module LoaderProperties {
  import opened Ranks
  import opened Loader

  // ---------------------------------------------------------------------
  // The split of one student's columns.

  /** The ranked entries lie within the first t columns, each on a ranked
      cell with that cell's value. */
  lemma {:induction false} SpecifiedInRange(cells: seq<Cell>, t: nat)
    requires t <= |cells|
    ensures forall i :: 0 <= i < |Specified(cells, t)| ==>
      Specified(cells, t)[i].topic < t && cells[Specified(cells, t)[i].topic] == Rank(Specified(cells, t)[i].value)
  {
    if t > 0 {
      SpecifiedInRange(cells, t - 1);
      var prev := Specified(cells, t - 1);
      assert forall i :: 0 <= i < |prev| ==> Specified(cells, t)[i] == prev[i];
    }
  }

  /** The ranked entries come in column order. */
  lemma {:induction false} SpecifiedIncreasing(cells: seq<Cell>, t: nat)
    requires t <= |cells|
    ensures forall i, j :: 0 <= i < j < |Specified(cells, t)| ==>
      Specified(cells, t)[i].topic < Specified(cells, t)[j].topic
  {
    if t > 0 {
      SpecifiedIncreasing(cells, t - 1);
      SpecifiedInRange(cells, t - 1);
      var prev := Specified(cells, t - 1);
      assert forall i :: 0 <= i < |prev| ==> Specified(cells, t)[i] == prev[i];
    }
  }

  /** Every ranked cell of the first t columns has its entry. */
  lemma {:induction false} SpecifiedCovers(cells: seq<Cell>, t: nat)
    requires t <= |cells|
    ensures forall u :: 0 <= u < t && cells[u].Rank? ==> Entry(u, cells[u].value) in Specified(cells, t)
  {
    if t > 0 {
      SpecifiedCovers(cells, t - 1);
    }
  }

  /** The unranked topics lie within the first t columns, each on an empty cell. */
  lemma {:induction false} UnspecifiedInRange(cells: seq<Cell>, t: nat)
    requires t <= |cells|
    ensures forall i :: 0 <= i < |Unspecified(cells, t)| ==>
      Unspecified(cells, t)[i] < t && cells[Unspecified(cells, t)[i]] == Empty
  {
    if t > 0 {
      UnspecifiedInRange(cells, t - 1);
      var prev := Unspecified(cells, t - 1);
      assert forall i :: 0 <= i < |prev| ==> Unspecified(cells, t)[i] == prev[i];
    }
  }

  /** The unranked topics come in column order. */
  lemma {:induction false} UnspecifiedIncreasing(cells: seq<Cell>, t: nat)
    requires t <= |cells|
    ensures forall i, j :: 0 <= i < j < |Unspecified(cells, t)| ==>
      Unspecified(cells, t)[i] < Unspecified(cells, t)[j]
  {
    if t > 0 {
      UnspecifiedIncreasing(cells, t - 1);
      UnspecifiedInRange(cells, t - 1);
      var prev := Unspecified(cells, t - 1);
      assert forall i :: 0 <= i < |prev| ==> Unspecified(cells, t)[i] == prev[i];
    }
  }

  /** Every empty cell of the first t columns is an unranked topic. */
  lemma {:induction false} UnspecifiedCovers(cells: seq<Cell>, t: nat)
    requires t <= |cells|
    ensures forall u :: 0 <= u < t && cells[u] == Empty ==> u in Unspecified(cells, t)
  {
    if t > 0 {
      UnspecifiedCovers(cells, t - 1);
    }
  }

  /** Every column is either ranked or unranked. */
  lemma {:induction false} SplitSize(cells: seq<Cell>, t: nat)
    requires t <= |cells|
    ensures |Specified(cells, t)| + |Unspecified(cells, t)| == t
  {
    if t > 0 {
      SplitSize(cells, t - 1);
    }
  }

  /** The ranks of a student with only empty cells are none at all. */
  lemma {:induction false} NoRanksWhenAllEmpty(cells: seq<Cell>, m: nat)
    requires m <= |cells| && forall u :: 0 <= u < m ==> cells[u] == Empty
    ensures Specified(cells, m) == []
  {
    if m > 0 {
      NoRanksWhenAllEmpty(cells, m - 1);
    }
  }

  // ---------------------------------------------------------------------
  // The per-cell checks of the first pass.

  lemma DistinctSnoc(xs: seq<int>, p: int)
    ensures Distinct(xs + [p]) <==> Distinct(xs) && p !in xs
  {
    var ys := xs + [p];
    assert forall i :: 0 <= i < |xs| ==> ys[i] == xs[i];
    if Distinct(xs) && p !in xs {
      forall i, j | 0 <= i < j < |ys| ensures ys[i] != ys[j] {
        if j == |xs| {
          assert ys[i] in xs;
        }
      }
    }
    if Distinct(ys) {
      assert forall i :: 0 <= i < |xs| ==> xs[i] != ys[|xs|];
    }
  }

  lemma AllPositiveSnoc(xs: seq<int>, p: int)
    ensures AllPositive(xs + [p]) <==> AllPositive(xs) && p >= 1
  {
    var ys := xs + [p];
    assert forall i :: 0 <= i < |xs| ==> ys[i] == xs[i];
    assert ys[|xs|] == p;
  }

  /** A student passes the per-cell checks exactly when all the student's
      ranks are at least 1 and none repeats. */
  lemma {:induction false} ScanPasses(s: nat, cells: seq<Cell>, t: nat)
    requires t <= |cells|
    ensures ScanError(s, cells, t) == None <==>
      AllPositive(Values(Specified(cells, t))) && Distinct(Values(Specified(cells, t)))
  {
    if t > 0 {
      ScanPasses(s, cells, t - 1);
      var prev := Values(Specified(cells, t - 1));
      if cells[t - 1].Rank? {
        var p := cells[t - 1].value;
        assert Values(Specified(cells, t)) == prev + [p];
        DistinctSnoc(prev, p);
        AllPositiveSnoc(prev, p);
      }
    }
  }

  /** What a per-cell error of student s over the first t columns points at. */
  predicate CellBlamed(s: nat, cells: seq<Cell>, t: nat, e: Error)
    requires t <= |cells|
  {
    match e
    case BelowOne(s', u, v) => s' == s && u < t && cells[u] == Rank(v) && v < 1
    case NotUnique(s', u, v) =>
      s' == s && u < t && cells[u] == Rank(v) && exists w :: 0 <= w < u && cells[w] == Rank(v)
    case NotSequence(_) => false
  }

  lemma {:induction false} ScanErrorBlames(s: nat, cells: seq<Cell>, t: nat)
    requires t <= |cells| && ScanError(s, cells, t).Some?
    ensures CellBlamed(s, cells, t, ScanError(s, cells, t).value)
  {
    if ScanError(s, cells, t - 1).Some? {
      ScanErrorBlames(s, cells, t - 1);
    } else {
      var e := ScanError(s, cells, t).value;
      if e.NotUnique? {
        var prev := Specified(cells, t - 1);
        SpecifiedInRange(cells, t - 1);
        var i :| 0 <= i < |prev| && Values(prev)[i] == e.value;
        assert cells[prev[i].topic] == Rank(e.value);
      }
    }
  }

  lemma {:induction false} FirstScanPasses(rows: seq<Row>, m: nat, i: nat)
    requires i <= |rows| && Wide(rows, m)
    ensures FirstScanError(rows, m, i) == None <==>
      forall s :: 0 <= s < i ==> ScanError(s, rows[s].cells, m) == None
  {
    if i > 0 {
      FirstScanPasses(rows, m, i - 1);
    }
  }

  lemma {:induction false} FirstScanErrorFrom(rows: seq<Row>, m: nat, i: nat)
    requires i <= |rows| && Wide(rows, m) && FirstScanError(rows, m, i).Some?
    ensures exists s :: 0 <= s < i && ScanError(s, rows[s].cells, m) == FirstScanError(rows, m, i)
  {
    if FirstScanError(rows, m, i - 1).Some? {
      FirstScanErrorFrom(rows, m, i - 1);
    }
  }

  lemma FirstSumPasses(rows: seq<Row>, m: nat, i: nat)
    requires i <= |rows| && Wide(rows, m)
    ensures FirstSumError(rows, m, i) == None <==>
      forall s :: 0 <= s < i ==> Sum(RankValues(rows, m, s)) == Tri(|RankValues(rows, m, s)|)
  {
    if FirstSumError(rows, m, i) == None {
      SumsPass(rows, m, i);
    } else {
      FirstSumErrorFrom(rows, m, i);
    }
  }

  lemma {:induction false} SumsPass(rows: seq<Row>, m: nat, i: nat)
    requires i <= |rows| && Wide(rows, m) && FirstSumError(rows, m, i) == None
    ensures forall s :: 0 <= s < i ==> Sum(RankValues(rows, m, s)) == Tri(|RankValues(rows, m, s)|)
  {
    if i > 0 {
      assert FirstSumError(rows, m, i - 1) == None;
      SumsPass(rows, m, i - 1);
    }
  }

  lemma {:induction false} FirstSumErrorFrom(rows: seq<Row>, m: nat, i: nat)
    requires i <= |rows| && Wide(rows, m) && FirstSumError(rows, m, i).Some?
    ensures exists s :: 0 <= s < i && FirstSumError(rows, m, i) == Some(NotSequence(s)) &&
                        Sum(RankValues(rows, m, s)) != Tri(|RankValues(rows, m, s)|)
  {
    if FirstSumError(rows, m, i - 1).Some? {
      FirstSumErrorFrom(rows, m, i - 1);
    }
  }

  // ---------------------------------------------------------------------
  // Acceptance and rejection.

  /** The loader accepts a table exactly when every student's ranks are
      1..k for some k, each once: the three checks of `parse_csv` say no
      more and no less, and each student is judged on the student's own
      ranks alone. */
  lemma Accepted(fields: Table, penalize: int)
    requires WellFormed(fields)
    ensures Normalise(fields, penalize).Ok? <==>
      forall s :: 0 <= s < |fields.rows| ==> IsRanking(RankValues(fields.rows, |Topics(fields.header)|, s))
  {
    var rows, m := fields.rows, |Topics(fields.header)|;
    FirstScanPasses(rows, m, |rows|);
    FirstSumPasses(rows, m, |rows|);
    forall s | 0 <= s < |rows|
      ensures (ScanError(s, rows[s].cells, m) == None &&
               Sum(RankValues(rows, m, s)) == Tri(|RankValues(rows, m, s)|)) <==>
              IsRanking(RankValues(rows, m, s))
    {
      ScanPasses(s, rows[s].cells, m);
      RanksAccepted(RankValues(rows, m, s));
    }
  }

  /** What the error the loader raises points at. */
  predicate Blamed(fields: Table, e: Error)
    requires WellFormed(fields)
  {
    var rows, m := fields.rows, |Topics(fields.header)|;
    match e
    case BelowOne(s, _, _) => s < |rows| && CellBlamed(s, rows[s].cells, m, e)
    case NotUnique(s, _, _) => s < |rows| && CellBlamed(s, rows[s].cells, m, e)
    case NotSequence(s) =>
      s < |rows| && !IsRanking(RankValues(rows, m, s)) &&
      forall s' :: 0 <= s' < |rows| ==>
        AllPositive(RankValues(rows, m, s')) && Distinct(RankValues(rows, m, s'))
  }

  /** Every error names a real offence: a rank below 1 at the named cell; a
      rank at the named cell that the same student already gave in a column
      further left; or a student whose ranks are not 1..k although no rank of
      any student is below 1 or repeated. */
  lemma Rejected(fields: Table, penalize: int)
    requires WellFormed(fields) && Normalise(fields, penalize).Err?
    ensures Blamed(fields, Normalise(fields, penalize).error)
  {
    var rows, m := fields.rows, |Topics(fields.header)|;
    if FirstScanError(rows, m, |rows|).Some? {
      FirstScanErrorFrom(rows, m, |rows|);
      var s :| 0 <= s < |rows| && ScanError(s, rows[s].cells, m) == FirstScanError(rows, m, |rows|);
      ScanErrorBlames(s, rows[s].cells, m);
    } else {
      FirstSumErrorFrom(rows, m, |rows|);
      var s :| 0 <= s < |rows| && FirstSumError(rows, m, |rows|) == Some(NotSequence(s)) &&
        Sum(RankValues(rows, m, s)) != Tri(|RankValues(rows, m, s)|);
      RanksAccepted(RankValues(rows, m, s));
      FirstScanPasses(rows, m, |rows|);
      forall s' | 0 <= s' < |rows|
        ensures AllPositive(RankValues(rows, m, s')) && Distinct(RankValues(rows, m, s'))
      {
        ScanPasses(s', rows[s'].cells, m);
      }
    }
  }

  /** A rank below 1 anywhere is rejected. */
  lemma BelowOneRejected(fields: Table, penalize: int, s: nat, t: nat)
    requires WellFormed(fields) && s < |fields.rows| && t < |Topics(fields.header)|
    requires fields.rows[s].cells[t].Rank? && fields.rows[s].cells[t].value < 1
    ensures Normalise(fields, penalize).Err?
  {
    var rows, m := fields.rows, |Topics(fields.header)|;
    Accepted(fields, penalize);
    SpecifiedCovers(rows[s].cells, m);
    var i :| 0 <= i < |Specified(rows[s].cells, m)| &&
      Specified(rows[s].cells, m)[i] == Entry(t, rows[s].cells[t].value);
    assert RankValues(rows, m, s)[i] < 1;
  }

  /** A rank that a student gives twice is rejected. */
  lemma RepeatRejected(fields: Table, penalize: int, s: nat, t1: nat, t2: nat)
    requires WellFormed(fields) && s < |fields.rows| && t1 < t2 < |Topics(fields.header)|
    requires fields.rows[s].cells[t1].Rank? && fields.rows[s].cells[t1] == fields.rows[s].cells[t2]
    ensures Normalise(fields, penalize).Err?
  {
    var rows, m := fields.rows, |Topics(fields.header)|;
    var sp := Specified(rows[s].cells, m);
    Accepted(fields, penalize);
    SpecifiedCovers(rows[s].cells, m);
    var i1 :| 0 <= i1 < |sp| && sp[i1] == Entry(t1, rows[s].cells[t1].value);
    var i2 :| 0 <= i2 < |sp| && sp[i2] == Entry(t2, rows[s].cells[t2].value);
    assert RankValues(rows, m, s)[i1] == RankValues(rows, m, s)[i2];
    assert !Distinct(RankValues(rows, m, s)) by {
      if i1 < i2 {
        assert RankValues(rows, m, s)[i1] == RankValues(rows, m, s)[i2];
      } else {
        assert RankValues(rows, m, s)[i2] == RankValues(rows, m, s)[i1];
      }
    }
  }

  // ---------------------------------------------------------------------
  // The triples on success.

  /** A student's completed entries: one per topic, each with the cost the
      loader gives that topic. */
  lemma CompletedCosts(cells: seq<Cell>, m: nat, penalize: int)
    requires m <= |cells|
    ensures |Completed(cells, m, penalize)| == m
    ensures forall i :: 0 <= i < m ==>
      Completed(cells, m, penalize)[i].topic < m &&
      Completed(cells, m, penalize)[i].value == CostOf(cells, m, penalize, Completed(cells, m, penalize)[i].topic)
  {
    var sp := Specified(cells, m);
    var un := Unspecified(cells, m);
    var d := DefaultCost(Values(sp), penalize);
    var c := Completed(cells, m, penalize);
    SplitSize(cells, m);
    SpecifiedInRange(cells, m);
    UnspecifiedInRange(cells, m);
    forall i | 0 <= i < m ensures c[i].topic < m && c[i].value == CostOf(cells, m, penalize, c[i].topic) {
      if i < |sp| {
        assert c[i] == sp[i];
      } else {
        assert c[i] == Entry(un[i - |sp|], d);
      }
    }
  }

  /** A student's completed entries come in the emit order. */
  lemma CompletedOrder(cells: seq<Cell>, m: nat, penalize: int)
    requires m <= |cells|
    ensures forall i :: 0 <= i < |Completed(cells, m, penalize)| ==> Completed(cells, m, penalize)[i].topic < m
    ensures forall i, j :: 0 <= i < j < |Completed(cells, m, penalize)| ==>
      Before(cells, Completed(cells, m, penalize)[i].topic, Completed(cells, m, penalize)[j].topic)
  {
    var sp := Specified(cells, m);
    var un := Unspecified(cells, m);
    var d := DefaultCost(Values(sp), penalize);
    var c := Completed(cells, m, penalize);
    CompletedCosts(cells, m, penalize);
    SpecifiedInRange(cells, m);
    UnspecifiedInRange(cells, m);
    SpecifiedIncreasing(cells, m);
    UnspecifiedIncreasing(cells, m);
    forall i, j | 0 <= i < j < |c| ensures Before(cells, c[i].topic, c[j].topic) {
      if j < |sp| {
        assert c[i] == sp[i] && c[j] == sp[j];
      } else if i < |sp| {
        assert c[i] == sp[i] && c[j] == Entry(un[j - |sp|], d);
      } else {
        assert c[i] == Entry(un[i - |sp|], d) && c[j] == Entry(un[j - |sp|], d);
      }
    }
  }

  /** Every topic has an entry among a student's completed entries. */
  lemma CompletedCovers(cells: seq<Cell>, m: nat, penalize: int)
    requires m <= |cells|
    ensures forall t :: 0 <= t < m ==> HasTopic(Completed(cells, m, penalize), t)
  {
    var sp := Specified(cells, m);
    var un := Unspecified(cells, m);
    var c := Completed(cells, m, penalize);
    SpecifiedCovers(cells, m);
    UnspecifiedCovers(cells, m);
    forall t | 0 <= t < m ensures HasTopic(c, t) {
      if cells[t].Rank? {
        var i :| 0 <= i < |sp| && sp[i] == Entry(t, cells[t].value);
        assert c[i].topic == t;
      } else {
        var i :| 0 <= i < |un| && un[i] == t;
        assert c[|sp| + i].topic == t;
      }
    }
  }

  lemma {:induction false} TagAllSize(lists: seq<seq<Entry>>, m: nat, i: nat)
    requires i <= |lists| && forall s :: 0 <= s < |lists| ==> |lists[s]| == m
    ensures |TagAll(lists, i)| == i * m
  {
    if i > 0 {
      TagAllSize(lists, m, i - 1);
      MulStep(|TagAll(lists, i - 1)|, |TagAll(lists, i)|, i, m);
    }
  }

  lemma AllTriplesSize(rows: seq<Row>, m: nat, penalize: int, i: nat)
    requires i <= |rows| && Wide(rows, m)
    ensures |AllTriples(rows, m, penalize, i)| == i * m
  {
    var lists: seq<seq<Entry>> := CompletedAll(rows, m, penalize);
    forall s | 0 <= s < |lists| ensures |lists[s]| == m {
      CompletedSize(rows[s].cells, m, penalize);
    }
    TagAllSize(lists, m, i);
  }

  lemma CompletedSize(cells: seq<Cell>, m: nat, penalize: int)
    requires m <= |cells|
    ensures |Completed(cells, m, penalize)| == m
  {
    SplitSize(cells, m);
  }

  lemma MulStep(before: int, after: int, i: nat, m: nat)
    requires i > 0 && before == (i - 1) * m && after == before + m
    ensures after == i * m
  {
  }

  /** Appending the triples of student s to those of the students before s
      keeps every triple in range and with the loader's cost. */
  lemma CostsStep(rows: seq<Row>, m: nat, penalize: int, prev: seq<Preference>, last: seq<Preference>, s: nat)
    requires s < |rows| && Wide(rows, m)
    requires forall j :: 0 <= j < |prev| ==>
      prev[j].student < s && prev[j].topic < m && prev[j].cost == CostOf(rows[prev[j].student].cells, m, penalize, prev[j].topic)
    requires forall j :: 0 <= j < |last| ==>
      last[j].student == s && last[j].topic < m && last[j].cost == CostOf(rows[s].cells, m, penalize, last[j].topic)
    ensures forall j :: 0 <= j < |prev + last| ==>
      var p := (prev + last)[j];
      p.student < s + 1 && p.topic < m && p.cost == CostOf(rows[p.student].cells, m, penalize, p.topic)
  {
    forall j | 0 <= j < |prev + last|
      ensures var p := (prev + last)[j];
        p.student < s + 1 && p.topic < m && p.cost == CostOf(rows[p.student].cells, m, penalize, p.topic)
    {
      if j < |prev| {
        assert (prev + last)[j] == prev[j];
      } else {
        assert (prev + last)[j] == last[j - |prev|];
      }
    }
  }

  /** Tagging entry lists that are in range and carry the loader's costs
      gives triples that are in range and carry the loader's costs. */
  lemma {:induction false} TagAllCosts(rows: seq<Row>, m: nat, penalize: int, lists: seq<seq<Entry>>, i: nat)
    requires Wide(rows, m) && |lists| == |rows| && i <= |lists|
    requires forall s, j :: 0 <= s < |lists| && 0 <= j < |lists[s]| ==>
      lists[s][j].topic < m && lists[s][j].value == CostOf(rows[s].cells, m, penalize, lists[s][j].topic)
    ensures forall j :: 0 <= j < |TagAll(lists, i)| ==>
      var p := TagAll(lists, i)[j];
      p.student < i && p.topic < m && p.cost == CostOf(rows[p.student].cells, m, penalize, p.topic)
  {
    if i > 0 {
      TagAllCosts(rows, m, penalize, lists, i - 1);
      var entries := lists[i - 1];
      var last := Tag(i - 1, entries);
      forall j | 0 <= j < |last|
        ensures last[j].student == i - 1 && last[j].topic < m &&
          last[j].cost == CostOf(rows[i - 1].cells, m, penalize, last[j].topic)
      {
        assert last[j] == Preference(i - 1, entries[j].topic, entries[j].value);
      }
      CostsStep(rows, m, penalize, TagAll(lists, i - 1), last, i - 1);
    }
  }

  /** Every triple of the first i students is in range and carries the cost
      the loader gives its pair. */
  lemma AllTriplesCosts(rows: seq<Row>, m: nat, penalize: int, i: nat)
    requires i <= |rows| && Wide(rows, m)
    ensures forall j :: 0 <= j < |AllTriples(rows, m, penalize, i)| ==>
      var p := AllTriples(rows, m, penalize, i)[j];
      p.student < i && p.topic < m && p.cost == CostOf(rows[p.student].cells, m, penalize, p.topic)
  {
    var lists: seq<seq<Entry>> := CompletedAll(rows, m, penalize);
    forall s, j | 0 <= s < |lists| && 0 <= j < |lists[s]|
      ensures lists[s][j].topic < m && lists[s][j].value == CostOf(rows[s].cells, m, penalize, lists[s][j].topic)
    {
      CompletedCosts(rows[s].cells, m, penalize);
    }
    TagAllCosts(rows, m, penalize, lists, i);
  }

  /** Appending the triples of student s, in the emit order, to those of the
      students before s keeps the triples student by student and each
      student's in the emit order. */
  lemma OrderStep(rows: seq<Row>, m: nat, prev: seq<Preference>, last: seq<Preference>, s: nat)
    requires s < |rows| && Wide(rows, m)
    requires forall j :: 0 <= j < |prev| ==> prev[j].student < s && prev[j].topic < m
    requires forall j, k :: 0 <= j < k < |prev| ==>
      prev[j].student < prev[k].student ||
      (prev[j].student == prev[k].student && Before(rows[prev[j].student].cells, prev[j].topic, prev[k].topic))
    requires forall j :: 0 <= j < |last| ==> last[j].student == s && last[j].topic < m
    requires forall j, k :: 0 <= j < k < |last| ==> Before(rows[s].cells, last[j].topic, last[k].topic)
    ensures forall j :: 0 <= j < |prev + last| ==> (prev + last)[j].student < s + 1 && (prev + last)[j].topic < m
    ensures forall j, k :: 0 <= j < k < |prev + last| ==>
      var a := prev + last;
      a[j].student < a[k].student ||
      (a[j].student == a[k].student && Before(rows[a[j].student].cells, a[j].topic, a[k].topic))
  {
    var a := prev + last;
    forall j | 0 <= j < |a| ensures a[j].student < s + 1 && a[j].topic < m {
      if j < |prev| {
        assert a[j] == prev[j];
      } else {
        assert a[j] == last[j - |prev|];
      }
    }
    forall j, k | 0 <= j < k < |a|
      ensures a[j].student < a[k].student ||
        (a[j].student == a[k].student && Before(rows[a[j].student].cells, a[j].topic, a[k].topic))
    {
      if k < |prev| {
        assert a[j] == prev[j] && a[k] == prev[k];
      } else if j < |prev| {
        assert a[j] == prev[j] && a[k] == last[k - |prev|];
      } else {
        assert a[j] == last[j - |prev|] && a[k] == last[k - |prev|];
      }
    }
  }

  /** Tagging entry lists, each in the emit order of its student, gives
      triples student by student, each student's in the emit order. */
  lemma {:induction false} TagAllOrder(rows: seq<Row>, m: nat, lists: seq<seq<Entry>>, i: nat)
    requires Wide(rows, m) && |lists| == |rows| && i <= |lists|
    requires forall s, j :: 0 <= s < |lists| && 0 <= j < |lists[s]| ==> lists[s][j].topic < m
    requires forall s, j, k :: 0 <= s < |lists| && 0 <= j < k < |lists[s]| ==>
      Before(rows[s].cells, lists[s][j].topic, lists[s][k].topic)
    ensures forall j :: 0 <= j < |TagAll(lists, i)| ==> TagAll(lists, i)[j].student < i && TagAll(lists, i)[j].topic < m
    ensures forall j, k :: 0 <= j < k < |TagAll(lists, i)| ==>
      var a := TagAll(lists, i);
      a[j].student < a[k].student ||
      (a[j].student == a[k].student && Before(rows[a[j].student].cells, a[j].topic, a[k].topic))
  {
    if i > 0 {
      TagAllOrder(rows, m, lists, i - 1);
      var entries := lists[i - 1];
      var last := Tag(i - 1, entries);
      forall j | 0 <= j < |last| ensures last[j].student == i - 1 && last[j].topic < m {
        assert last[j] == Preference(i - 1, entries[j].topic, entries[j].value);
      }
      forall j, k | 0 <= j < k < |last| ensures Before(rows[i - 1].cells, last[j].topic, last[k].topic) {
        assert last[j].topic == entries[j].topic && last[k].topic == entries[k].topic;
      }
      OrderStep(rows, m, TagAll(lists, i - 1), last, i - 1);
    }
  }

  /** The triples of the first i students come student by student, each
      student's in the emit order. */
  lemma AllTriplesOrder(rows: seq<Row>, m: nat, penalize: int, i: nat)
    requires i <= |rows| && Wide(rows, m)
    ensures forall j :: 0 <= j < |AllTriples(rows, m, penalize, i)| ==>
      AllTriples(rows, m, penalize, i)[j].student < i && AllTriples(rows, m, penalize, i)[j].topic < m
    ensures forall j, k :: 0 <= j < k < |AllTriples(rows, m, penalize, i)| ==>
      var a := AllTriples(rows, m, penalize, i);
      a[j].student < a[k].student ||
      (a[j].student == a[k].student && Before(rows[a[j].student].cells, a[j].topic, a[k].topic))
  {
    var lists: seq<seq<Entry>> := CompletedAll(rows, m, penalize);
    forall s | 0 <= s < |lists|
      ensures forall j :: 0 <= j < |lists[s]| ==> lists[s][j].topic < m
      ensures forall j, k :: 0 <= j < k < |lists[s]| ==> Before(rows[s].cells, lists[s][j].topic, lists[s][k].topic)
    {
      CompletedOrder(rows[s].cells, m, penalize);
    }
    TagAllOrder(rows, m, lists, i);
  }

  /** Appending the triples of student s, one per topic, to those of the
      students before s covers every pair of the first s + 1 students. */
  lemma CoverStep(m: nat, prev: seq<Preference>, last: seq<Preference>, s: nat)
    requires forall s', t :: 0 <= s' < s && 0 <= t < m ==> HasTriple(prev, s', t)
    requires forall t :: 0 <= t < m ==> HasTriple(last, s, t)
    ensures forall s', t :: 0 <= s' < s + 1 && 0 <= t < m ==> HasTriple(prev + last, s', t)
  {
    var a := prev + last;
    forall s', t | 0 <= s' < s + 1 && 0 <= t < m ensures HasTriple(a, s', t) {
      if s' < s {
        assert HasTriple(prev, s', t);
        var j :| 0 <= j < |prev| && prev[j].student == s' && prev[j].topic == t;
        assert a[j] == prev[j];
      } else {
        assert HasTriple(last, s, t);
        var j :| 0 <= j < |last| && last[j].student == s && last[j].topic == t;
        assert a[|prev| + j] == last[j];
      }
    }
  }

  /** Tagging entry lists that each have an entry for every topic covers
      every pair of the first i students. */
  lemma {:induction false} TagAllCover(lists: seq<seq<Entry>>, m: nat, i: nat)
    requires i <= |lists|
    requires forall s, t :: 0 <= s < |lists| && 0 <= t < m ==> HasTopic(lists[s], t)
    ensures forall s, t :: 0 <= s < i && 0 <= t < m ==> HasTriple(TagAll(lists, i), s, t)
  {
    if i > 0 {
      TagAllCover(lists, m, i - 1);
      var entries := lists[i - 1];
      var last := Tag(i - 1, entries);
      var s := i - 1;
      forall t | 0 <= t < m ensures HasTriple(last, s, t) {
        assert HasTopic(entries, t);
        var j :| 0 <= j < |entries| && entries[j].topic == t;
        assert last[j] == Preference(s, t, entries[j].value);
      }
      CoverStep(m, TagAll(lists, i - 1), last, i - 1);
    }
  }

  /** Every (student, topic) pair of the first i students has a triple. */
  lemma AllTriplesCover(rows: seq<Row>, m: nat, penalize: int, i: nat)
    requires i <= |rows| && Wide(rows, m)
    ensures forall s, t :: 0 <= s < i && 0 <= t < m ==> HasTriple(AllTriples(rows, m, penalize, i), s, t)
  {
    var lists: seq<seq<Entry>> := CompletedAll(rows, m, penalize);
    forall s, t | 0 <= s < |lists| && 0 <= t < m ensures HasTopic(lists[s], t) {
      CompletedCovers(rows[s].cells, m, penalize);
    }
    TagAllCover(lists, m, i);
  }

  /** The loader's result on a table that passes both checks. */
  lemma NormaliseFrom(fields: Table, penalize: int, students: seq<string>, topics: seq<string>, prefs: seq<Preference>)
    requires WellFormed(fields)
    requires FirstScanError(fields.rows, |Topics(fields.header)|, |fields.rows|) == None
    requires FirstSumError(fields.rows, |Topics(fields.header)|, |fields.rows|) == None
    requires Students(fields.rows) == students && Topics(fields.header) == topics
    requires AllTriples(fields.rows, |Topics(fields.header)|, penalize, |fields.rows|) == prefs
    ensures Normalise(fields, penalize) == Ok(Parsed(students, topics, prefs))
  {
  }

  /** On success the loader returns the students and topics in table order
      and exactly one triple for every (student, topic) pair, so
      #students·#topics triples, each with the cost the loader gives it: the
      student's own rank for a ranked topic, the default cost otherwise. */
  lemma NormaliseOutput(fields: Table, penalize: int)
    requires WellFormed(fields) && Normalise(fields, penalize).Ok?
    ensures var out, rows, m := Normalise(fields, penalize).value, fields.rows, |Topics(fields.header)|;
      var prefs := out.preferences;
      out.students == Students(rows) && out.topics == Topics(fields.header) &&
      |prefs| == |rows| * m &&
      (forall j :: 0 <= j < |prefs| ==>
        prefs[j].student < |rows| && prefs[j].topic < m &&
        prefs[j].cost == CostOf(rows[prefs[j].student].cells, m, penalize, prefs[j].topic)) &&
      (forall s, t :: 0 <= s < |rows| && 0 <= t < m ==> HasTriple(prefs, s, t)) &&
      (forall j, k :: 0 <= j < k < |prefs| ==>
        prefs[j].student != prefs[k].student || prefs[j].topic != prefs[k].topic)
  {
    var rows, m := fields.rows, |Topics(fields.header)|;
    AllTriplesSize(rows, m, penalize, |rows|);
    AllTriplesCosts(rows, m, penalize, |rows|);
    AllTriplesOrder(rows, m, penalize, |rows|);
    AllTriplesCover(rows, m, penalize, |rows|);
  }

  /** On success students appear in index order, and within a student the
      ranked topics come first in column order, then the unranked ones in
      column order. */
  lemma NormaliseOrder(fields: Table, penalize: int)
    requires WellFormed(fields) && Normalise(fields, penalize).Ok?
    ensures var prefs := Normalise(fields, penalize).value.preferences;
      forall j :: 0 <= j < |prefs| ==> prefs[j].student < |fields.rows| && prefs[j].topic < |Topics(fields.header)|
    ensures var prefs := Normalise(fields, penalize).value.preferences;
      forall j, k :: 0 <= j < k < |prefs| ==>
        prefs[j].student <= prefs[k].student &&
        (prefs[j].student == prefs[k].student ==>
          var cells := fields.rows[prefs[j].student].cells;
          (cells[prefs[j].topic].Rank? && cells[prefs[k].topic].Empty?) ||
          (cells[prefs[j].topic].Rank? == cells[prefs[k].topic].Rank? && prefs[j].topic < prefs[k].topic))
  {
    AllTriplesOrder(fields.rows, |Topics(fields.header)|, penalize, |fields.rows|);
  }

  // ---------------------------------------------------------------------
  // Default costs.

  /** A student who ranked nothing gets the threshold plus 1 for every topic. */
  lemma UnrankedStudentCost(fields: Table, penalize: int, s: nat)
    requires WellFormed(fields) && Normalise(fields, penalize).Ok? && s < |fields.rows|
    requires forall u :: 0 <= u < |Topics(fields.header)| ==> fields.rows[s].cells[u] == Empty
    ensures var prefs := Normalise(fields, penalize).value.preferences;
      forall j :: 0 <= j < |prefs| && prefs[j].student == s ==> prefs[j].cost == penalize + 1
  {
    NormaliseOutput(fields, penalize);
    NoRanksWhenAllEmpty(fields.rows[s].cells, |Topics(fields.header)|);
  }

  /** A student who ranked k >= 1 topics keeps those ranks, and every other
      topic costs the student's largest rank plus the threshold, which on an
      accepted table is k plus the threshold. */
  lemma RankedStudentCost(fields: Table, penalize: int, s: nat)
    requires WellFormed(fields) && Normalise(fields, penalize).Ok? && s < |fields.rows|
    requires RankValues(fields.rows, |Topics(fields.header)|, s) != []
    ensures var prefs, cells := Normalise(fields, penalize).value.preferences, fields.rows[s].cells;
      var ranks := RankValues(fields.rows, |Topics(fields.header)|, s);
      Max(ranks) == |ranks| &&
      forall j :: 0 <= j < |prefs| && prefs[j].student == s ==>
        prefs[j].topic < |cells| &&
        prefs[j].cost == (if cells[prefs[j].topic].Rank? then cells[prefs[j].topic].value
                          else Max(ranks) + penalize)
  {
    NormaliseOutput(fields, penalize);
    Accepted(fields, penalize);
    RankingMax(RankValues(fields.rows, |Topics(fields.header)|, s));
  }

  /** With a positive threshold every unranked topic costs a student more than
      any topic the student ranked, which biases the assignment towards
      ranked topics. */
  lemma UnrankedCostsMore(fields: Table, penalize: int, s: nat, t1: nat, t2: nat)
    requires WellFormed(fields) && penalize >= 1
    requires s < |fields.rows| && t1 < |Topics(fields.header)| && t2 < |Topics(fields.header)|
    requires fields.rows[s].cells[t1].Rank? && fields.rows[s].cells[t2].Empty?
    ensures var cells, m := fields.rows[s].cells, |Topics(fields.header)|;
      CostOf(cells, m, penalize, t1) < CostOf(cells, m, penalize, t2)
  {
    var cells, m := fields.rows[s].cells, |Topics(fields.header)|;
    SpecifiedCovers(cells, m);
    var i :| 0 <= i < |Specified(cells, m)| && Specified(cells, m)[i] == Entry(t1, cells[t1].value);
    assert Values(Specified(cells, m))[i] == cells[t1].value;
  }

  /** With a threshold of at least 0 every cost on an accepted table is at
      least 1. */
  lemma AcceptedCostsPositive(fields: Table, penalize: int, s: nat, t: nat)
    requires WellFormed(fields) && Normalise(fields, penalize).Ok? && penalize >= 0
    requires s < |fields.rows| && t < |Topics(fields.header)|
    ensures CostOf(fields.rows[s].cells, |Topics(fields.header)|, penalize, t) >= 1
  {
    var cells, m := fields.rows[s].cells, |Topics(fields.header)|;
    Accepted(fields, penalize);
    RankingSum(RankValues(fields.rows, m, s));
    if cells[t].Rank? {
      SpecifiedCovers(cells, m);
      var i :| 0 <= i < |Specified(cells, m)| && Specified(cells, m)[i] == Entry(t, cells[t].value);
      assert Values(Specified(cells, m))[i] == cells[t].value;
    } else if RankValues(fields.rows, m, s) != [] {
      assert Max(RankValues(fields.rows, m, s)) in RankValues(fields.rows, m, s);
    }
  }
}
