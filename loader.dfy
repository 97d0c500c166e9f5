/** The preference table loader of `parse_csv`: the table already split into
    cells, every student's topics split into ranked and unranked ones, the
    per-student rank checks, the default cost of unranked topics and the
    flattening into (student, topic, cost) triples. */
module Loader {
  import opened Ranks

  /** A preference cell after `int()` parsing: empty, or an integer. */
  datatype Cell = Empty | Rank(value: int)

  /** A data row: the student label, then one cell per topic column. */
  datatype Row = Row(name: string, cells: seq<Cell>)

  /** The table: the header row (its first cell is ignored, the others name
      the topics) and the student rows. */
  datatype Table = Table(header: seq<string>, rows: seq<Row>)

  /** The `ValueError`s the loader raises, with the student, topic and value
      each message names. */
  datatype Error =
    | BelowOne(student: nat, topic: nat, value: int)
    | NotUnique(student: nat, topic: nat, value: int)
    | NotSequence(student: nat)

  datatype Option<T> = None | Some(value: T)

  datatype Result<T> = Ok(value: T) | Err(error: Error)

  /** An item `(topic_index, preference)` of `specified_preferences[student]`. */
  datatype Entry = Entry(topic: nat, value: int)

  /** An item `(student, topic, cost)` of the resulting preference list. */
  datatype Preference = Preference(student: nat, topic: nat, cost: int)

  /** What `parse_csv` returns: students, topics and preferences. */
  datatype Parsed = Parsed(students: seq<string>, topics: seq<string>, preferences: seq<Preference>)

  /** `fields[0][1:]`: the header without its first cell. */
  function Topics(header: seq<string>): (r: seq<string>)
    ensures |r| == if header == [] then 0 else |header| - 1
    ensures forall i :: 0 <= i < |r| ==> r[i] == header[i + 1]
  {
    if header == [] then [] else header[1..]
  }

  /** `[row[0] for row in fields[1:]]`: the student labels in row order. */
  function Students(rows: seq<Row>): (r: seq<string>)
    ensures |r| == |rows|
    ensures forall i :: 0 <= i < |rows| ==> r[i] == rows[i].name
  {
    seq(|rows|, i requires 0 <= i < |rows| => rows[i].name)
  }

  /** Every row has a cell for each of the first m topic columns. */
  predicate Wide(rows: seq<Row>, m: nat)
  {
    forall s :: 0 <= s < |rows| ==> m <= |rows[s].cells|
  }

  /** The loader reads `fields[student+1][topic+1]` for every topic, so no
      row may be shorter than the header; longer rows are read no further. */
  predicate WellFormed(fields: Table)
  {
    Wide(fields.rows, |Topics(fields.header)|)
  }

  /** The ranked cells among the first t columns, in column order. */
  function Specified(cells: seq<Cell>, t: nat): seq<Entry>
    requires t <= |cells|
  {
    if t == 0 then []
    else match cells[t - 1]
      case Empty => Specified(cells, t - 1)
      case Rank(p) => Specified(cells, t - 1) + [Entry(t - 1, p)]
  }

  /** The empty cells among the first t columns, in column order. */
  function Unspecified(cells: seq<Cell>, t: nat): seq<nat>
    requires t <= |cells|
  {
    if t == 0 then []
    else match cells[t - 1]
      case Empty => Unspecified(cells, t - 1) + [t - 1]
      case Rank(_) => Unspecified(cells, t - 1)
  }

  /** `[q for (t, q) in entries]`. */
  function Values(entries: seq<Entry>): (r: seq<int>)
    ensures |r| == |entries|
    ensures forall i :: 0 <= i < |entries| ==> r[i] == entries[i].value
  {
    seq(|entries|, i requires 0 <= i < |entries| => entries[i].value)
  }

  /** The ranks student s gave, in column order. */
  function RankValues(rows: seq<Row>, m: nat, s: nat): seq<int>
    requires s < |rows| && Wide(rows, m)
  {
    Values(Specified(rows[s].cells, m))
  }

  /** The first error the per-cell checks raise for student s in the first t
      columns: a rank below 1, or one the student already gave further left. */
  function ScanError(s: nat, cells: seq<Cell>, t: nat): Option<Error>
    requires t <= |cells|
  {
    if t == 0 then None
    else match ScanError(s, cells, t - 1)
      case Some(e) => Some(e)
      case None =>
        match cells[t - 1]
        case Empty => None
        case Rank(p) =>
          if p < 1 then Some(BelowOne(s, t - 1, p))
          else if p in Values(Specified(cells, t - 1)) then Some(NotUnique(s, t - 1, p))
          else None
  }

  /** The first per-cell error over the first i students, row by row. */
  function FirstScanError(rows: seq<Row>, m: nat, i: nat): Option<Error>
    requires i <= |rows| && Wide(rows, m)
  {
    if i == 0 then None
    else match FirstScanError(rows, m, i - 1)
      case Some(e) => Some(e)
      case None => ScanError(i - 1, rows[i - 1].cells, m)
  }

  /** The first of the first i students whose ranks do not sum to k(k+1)/2. */
  function FirstSumError(rows: seq<Row>, m: nat, i: nat): Option<Error>
    requires i <= |rows| && Wide(rows, m)
  {
    if i == 0 then None
    else match FirstSumError(rows, m, i - 1)
      case Some(e) => Some(e)
      case None =>
        var vs := RankValues(rows, m, i - 1);
        if Sum(vs) != Tri(|vs|) then Some(NotSequence(i - 1)) else None
  }

  /** The cost of an unranked topic: the student's largest rank plus the
      threshold, or the threshold plus 1 when the student ranked nothing. */
  function DefaultCost(ranks: seq<int>, penalize: int): int
  {
    if |ranks| > 0 then Max(ranks) + penalize else penalize + 1
  }

  /** One entry per unranked topic, each with the default cost. */
  function Defaults(topics: seq<nat>, cost: int): (r: seq<Entry>)
    ensures |r| == |topics|
  {
    seq(|topics|, i requires 0 <= i < |topics| => Entry(topics[i], cost))
  }

  /** A student's entries once the defaults are appended: ranked topics in
      column order, then unranked topics in column order. */
  function Completed(cells: seq<Cell>, m: nat, penalize: int): seq<Entry>
    requires m <= |cells|
  {
    var ranked := Specified(cells, m);
    ranked + Defaults(Unspecified(cells, m), DefaultCost(Values(ranked), penalize))
  }

  /** The entries of student s as preference triples. */
  function Tag(s: nat, entries: seq<Entry>): (r: seq<Preference>)
    ensures |r| == |entries|
  {
    seq(|entries|, i requires 0 <= i < |entries| => Preference(s, entries[i].topic, entries[i].value))
  }

  /** The triples of the first i students, student by student. */
  function AllTriples(rows: seq<Row>, m: nat, penalize: int, i: nat): seq<Preference>
    requires i <= |rows| && Wide(rows, m)
  {
    TagAll(CompletedAll(rows, m, penalize), i)
  }

  /** Every student's completed entries, in student order. */
  function CompletedAll(rows: seq<Row>, m: nat, penalize: int): seq<seq<Entry>>
    requires Wide(rows, m)
  {
    seq(|rows|, s requires 0 <= s < |rows| => Completed(rows[s].cells, m, penalize))
  }

  /** The triples of the first i entry lists, list s tagged with student s. */
  function TagAll(lists: seq<seq<Entry>>, i: nat): seq<Preference>
    requires i <= |lists|
  {
    if i == 0 then [] else TagAll(lists, i - 1) + Tag(i - 1, lists[i - 1])
  }

  /** What `parse_csv` computes from the table: the first per-cell error in
      row order, else the first student whose ranks fail the sum check, else
      the students, the topics and every student's triples. */
  function Normalise(fields: Table, penalize: int): Result<Parsed>
    requires WellFormed(fields)
  {
    var m := |Topics(fields.header)|;
    var rows := fields.rows;
    match FirstScanError(rows, m, |rows|)
    case Some(e) => Err(e)
    case None =>
      match FirstSumError(rows, m, |rows|)
      case Some(e) => Err(e)
      case None => Ok(Parsed(Students(rows), Topics(fields.header), AllTriples(rows, m, penalize, |rows|)))
  }

  /** The cost the loader gives student row `cells` for topic t. */
  function CostOf(cells: seq<Cell>, m: nat, penalize: int, t: nat): int
    requires t < m <= |cells|
  {
    match cells[t]
    case Rank(p) => p
    case Empty => DefaultCost(Values(Specified(cells, m)), penalize)
  }

  /** Some entry is for topic t. */
  predicate HasTopic(entries: seq<Entry>, t: nat)
  {
    exists i :: 0 <= i < |entries| && entries[i].topic == t
  }

  /** Some triple is for the pair (s, t). */
  predicate HasTriple(prefs: seq<Preference>, s: nat, t: nat)
  {
    exists j :: 0 <= j < |prefs| && prefs[j].student == s && prefs[j].topic == t
  }

  /** In the order the loader emits a student's topics, topic a comes before
      topic b: ranked topics first, each group in column order. */
  predicate Before(cells: seq<Cell>, a: nat, b: nat)
    requires a < |cells| && b < |cells|
  {
    (cells[a].Rank? && cells[b].Empty?) || (cells[a].Rank? == cells[b].Rank? && a < b)
  }

  /** The loader itself: three passes over the students, as in `parse_csv`.
      It returns exactly what Normalise describes. */
  method ParseCsv(fields: Table, penalize: int) returns (r: Result<Parsed>)
    requires WellFormed(fields)
    ensures r == Normalise(fields, penalize)
  {
    var topics := Topics(fields.header);
    var students := Students(fields.rows);
    var rows := fields.rows;
    var m := |topics|;
    var error, specified, unspecified := ReadPreferences(rows, m);
    if error.Some? {
      return Err(error.value);
    }
    error := CheckSequences(rows, m, specified);
    if error.Some? {
      return Err(error.value);
    }
    var preferences := MergePreferences(rows, m, penalize, specified, unspecified);
    r := Ok(Parsed(students, topics, preferences));
  }

  /** First pass: split every student's topics into ranked and unranked ones,
      stopping at the first rank below 1 or repeated by the same student. */
  method ReadPreferences(rows: seq<Row>, m: nat)
      returns (error: Option<Error>, specified: seq<seq<Entry>>, unspecified: seq<seq<nat>>)
    requires Wide(rows, m)
    ensures error == FirstScanError(rows, m, |rows|)
    ensures error == None ==> |specified| == |rows| && |unspecified| == |rows|
    ensures error == None ==> forall s :: 0 <= s < |rows| ==>
      specified[s] == Specified(rows[s].cells, m) && unspecified[s] == Unspecified(rows[s].cells, m)
  {
    var n := |rows|;
    unspecified := seq(n, _ => []);
    specified := seq(n, _ => []);
    var student := 0;
    while student < n
      invariant student <= n && |specified| == n && |unspecified| == n
      invariant FirstScanError(rows, m, student) == None
      invariant forall s :: 0 <= s < student ==>
        specified[s] == Specified(rows[s].cells, m) && unspecified[s] == Unspecified(rows[s].cells, m)
    {
      var failure, ranked, unranked := ReadStudent(student, rows[student].cells, m);
      if failure.Some? {
        FirstScanErrorStable(rows, m, student + 1, n);
        return failure, specified, unspecified;
      }
      specified := specified[student := ranked];
      unspecified := unspecified[student := unranked];
      student := student + 1;
    }
    error := None;
  }

  /** One student of the first pass, column by column: an empty cell is an
      unranked topic, a rank below 1 or one the student already gave is an
      error, any other rank is recorded with its topic. */
  method ReadStudent(student: nat, cells: seq<Cell>, m: nat)
      returns (error: Option<Error>, ranked: seq<Entry>, unranked: seq<nat>)
    requires m <= |cells|
    ensures error == ScanError(student, cells, m)
    ensures error == None ==> ranked == Specified(cells, m) && unranked == Unspecified(cells, m)
  {
    ranked, unranked := [], [];
    var topic := 0;
    while topic < m
      invariant topic <= m
      invariant ScanError(student, cells, topic) == None
      invariant ranked == Specified(cells, topic) && unranked == Unspecified(cells, topic)
    {
      if cells[topic].Empty? {
        unranked := unranked + [topic];
      } else {
        var p := cells[topic].value;
        if p < 1 {
          ScanErrorStable(student, cells, topic + 1, m);
          return Some(BelowOne(student, topic, p)), ranked, unranked;
        }
        if p in Values(ranked) {
          ScanErrorStable(student, cells, topic + 1, m);
          return Some(NotUnique(student, topic, p)), ranked, unranked;
        }
        ranked := ranked + [Entry(topic, p)];
      }
      topic := topic + 1;
    }
    error := None;
  }

  /** Second pass: every student's ranks must sum to k(k+1)/2. */
  method CheckSequences(rows: seq<Row>, m: nat, specified: seq<seq<Entry>>) returns (error: Option<Error>)
    requires Wide(rows, m) && |specified| == |rows|
    requires forall s :: 0 <= s < |rows| ==> specified[s] == Specified(rows[s].cells, m)
    ensures error == FirstSumError(rows, m, |rows|)
  {
    var student := 0;
    while student < |rows|
      invariant student <= |rows|
      invariant FirstSumError(rows, m, student) == None
    {
      var preferenceSum := Sum(Values(specified[student]));
      var preferenceCount := |specified[student]|;
      var expectedSum := preferenceCount * (preferenceCount + 1) / 2;
      TriExact(preferenceCount);
      if expectedSum != preferenceSum {
        SumRejects(rows, m, student);
        return Some(NotSequence(student));
      }
      student := student + 1;
    }
    error := None;
  }

  /** Third pass: complete every student's entries with the default cost of
      the unranked topics and flatten them into (student, topic, cost) triples. */
  method MergePreferences(rows: seq<Row>, m: nat, penalize: int,
                          specified: seq<seq<Entry>>, unspecified: seq<seq<nat>>)
      returns (preferences: seq<Preference>)
    requires Wide(rows, m) && |specified| == |rows| && |unspecified| == |rows|
    requires forall s :: 0 <= s < |rows| ==>
      specified[s] == Specified(rows[s].cells, m) && unspecified[s] == Unspecified(rows[s].cells, m)
    ensures preferences == AllTriples(rows, m, penalize, |rows|)
  {
    preferences := [];
    var student := 0;
    while student < |rows|
      invariant student <= |rows|
      invariant preferences == AllTriples(rows, m, penalize, student)
    {
      var entries := CompleteStudent(rows[student].cells, m, penalize, specified[student], unspecified[student]);
      preferences := AppendTriples(preferences, student, entries);
      student := student + 1;
    }
  }

  /** The end of the third pass for one student: one triple per completed
      entry, appended in order. */
  method AppendTriples(preferences: seq<Preference>, student: nat, entries: seq<Entry>)
      returns (extended: seq<Preference>)
    ensures extended == preferences + Tag(student, entries)
  {
    extended := preferences;
    var i := 0;
    while i < |entries|
      invariant i <= |entries|
      invariant extended == preferences + Tag(student, entries[..i])
    {
      TagSnoc(student, entries, i);
      extended := extended + [Preference(student, entries[i].topic, entries[i].value)];
      i := i + 1;
    }
    assert entries[..i] == entries;
  }

  /** One student of the third pass: the default cost of the student's
      unranked topics, appended to the ranked entries topic by topic. */
  method CompleteStudent(cells: seq<Cell>, m: nat, penalize: int, ranked: seq<Entry>, unranked: seq<nat>)
      returns (entries: seq<Entry>)
    requires m <= |cells| && ranked == Specified(cells, m) && unranked == Unspecified(cells, m)
    ensures entries == Completed(cells, m, penalize)
  {
    var valueForUnspecified := penalize + 1;
    if |ranked| > 0 {
      var maxPreference := Max(Values(ranked));
      valueForUnspecified := maxPreference + penalize;
    }
    entries := ranked;
    var j := 0;
    while j < |unranked|
      invariant j <= |unranked|
      invariant entries == ranked + Defaults(unranked[..j], valueForUnspecified)
    {
      assert unranked[..j + 1] == unranked[..j] + [unranked[j]];
      entries := entries + [Entry(unranked[j], valueForUnspecified)];
      j := j + 1;
    }
    assert unranked[..j] == unranked;
  }

  lemma TagSnoc(s: nat, entries: seq<Entry>, i: nat)
    requires i < |entries|
    ensures Tag(s, entries[..i + 1]) == Tag(s, entries[..i]) + [Preference(s, entries[i].topic, entries[i].value)]
  {
  }

  // ---------------------------------------------------------------------
  // Error propagation: the first error found is the one reported.

  lemma {:induction false} ScanErrorStable(s: nat, cells: seq<Cell>, t: nat, u: nat)
    requires t <= u <= |cells| && ScanError(s, cells, t).Some?
    ensures ScanError(s, cells, u) == ScanError(s, cells, t)
  {
    if u > t {
      ScanErrorStable(s, cells, t, u - 1);
    }
  }

  lemma {:induction false} FirstScanErrorStable(rows: seq<Row>, m: nat, i: nat, j: nat)
    requires i <= j <= |rows| && Wide(rows, m) && FirstScanError(rows, m, i).Some?
    ensures FirstScanError(rows, m, j) == FirstScanError(rows, m, i)
  {
    if j > i {
      FirstScanErrorStable(rows, m, i, j - 1);
    }
  }

  lemma {:induction false} FirstSumErrorStable(rows: seq<Row>, m: nat, i: nat, j: nat)
    requires i <= j <= |rows| && Wide(rows, m) && FirstSumError(rows, m, i).Some?
    ensures FirstSumError(rows, m, j) == FirstSumError(rows, m, i)
  {
    if j > i {
      FirstSumErrorStable(rows, m, i, j - 1);
    }
  }

  /** A sum error of student s, with none in the students before it, is the
      error of the whole second pass. */
  lemma SumRejects(rows: seq<Row>, m: nat, s: nat)
    requires s < |rows| && Wide(rows, m)
    requires FirstSumError(rows, m, s) == None
    requires Sum(RankValues(rows, m, s)) != Tri(|RankValues(rows, m, s)|)
    ensures FirstSumError(rows, m, |rows|) == Some(NotSequence(s))
  {
    FirstSumErrorStable(rows, m, s + 1, |rows|);
  }
}
