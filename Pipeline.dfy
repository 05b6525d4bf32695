/**
  The whole script: the tree held in one object, cleaned, pruned from the
  inside out and flattened in place, then the two aggregations over the rows.
*/
module Pipeline {
  import opened Wrappers
  import opened Dicts
  import opened Hierarchy
  import opened Validation
  import opened Passes
  import opened Flattening
  import opened Aggregation

  // ---------------------------------------------------------------------
  // The stages as functions of the tree
  // ---------------------------------------------------------------------

  /** The tree after the cleaning step. */
  function Cleaned(s: Continents): Continents {
    OnContinents(s, Validate)
  }

  /** The pruning pass that acts on the mappings at `depth`. */
  function PruneAt(depth: nat): (pass: Pass)
    requires depth < 5
    ensures pass.Depth() == depth
  {
    match depth
    case 0 => PruneContinents
    case 1 => PruneCountries
    case 2 => PruneUniversities
    case 3 => PruneFaculties
    case 4 => PruneDepartments
  }

  /** The tree after the pruning passes from depth 4 (departments) up to `depth`, in that order. */
  function PrunedFrom(s: Continents, depth: nat): Continents
    requires depth < 5
    decreases 5 - depth
  {
    var below := if depth == 4 then s else PrunedFrom(s, depth + 1);
    OnContinents(below, PruneAt(depth))
  }

  /** The tree after the five pruning passes, departments first and continents last. */
  function Pruned(s: Continents): Continents {
    PrunedFrom(s, 0)
  }

  /** Cleaning followed by pruning: the tree the flattening step sees. */
  function Tidied(s: Continents): Continents {
    Pruned(Cleaned(s))
  }

  /** Every student left in the tree passes the three checks. */
  predicate AllValid(s: Continents) {
    ContinentsSettled(s, Validate)
  }

  /** No department, faculty, university, country or continent has an empty child mapping. */
  predicate NoEmptyContainers(s: Continents) {
    ContinentsSettled(s, PruneDepartments) && ContinentsSettled(s, PruneFaculties) &&
    ContinentsSettled(s, PruneUniversities) && ContinentsSettled(s, PruneCountries) &&
    ContinentsSettled(s, PruneContinents)
  }

  // ---------------------------------------------------------------------
  // Cleaning
  // ---------------------------------------------------------------------

  /**
    Cleaning leaves only valid students, and the leaves it keeps are exactly
    the valid leaves of the input, records unchanged and in the same order.
  */
  lemma {:induction false} CleanedKeepsExactlyValid(s: Continents)
    ensures AllValid(Cleaned(s))
    ensures ContinentsEntries(Cleaned(s)) == ValidOnly(ContinentsEntries(s))
    ensures forall e :: e in ContinentsEntries(Cleaned(s)) <==> e in ContinentsEntries(s) && !IsInvalid(e.student)
  {
    ContinentsSettles(s, Validate);
    ContinentsEntriesAfter(s, Validate);
  }

  /**
    A student is kept exactly when it has a name and both scores lie in
    [0, 100], the bounds included.
  */
  lemma ValidMeansInRange(st: Student)
    ensures !IsInvalid(st) <==>
      st.name.Some? &&
      st.calcScore.Some? && 0 <= st.calcScore.value <= 100 &&
      st.algebraScore.Some? && 0 <= st.algebraScore.value <= 100
  {
  }

  // ---------------------------------------------------------------------
  // Pruning
  // ---------------------------------------------------------------------

  /**
    One pruning pass leaves no empty container at its own depth, and keeps
    every deeper level free of empty containers.
  */
  lemma {:induction false} PruneStep(s: Continents, pass: Pass)
    requires pass.Depth() < 5
    requires forall p: Pass :: pass.Depth() < p.Depth() < 5 ==> ContinentsSettled(s, p)
    ensures forall p: Pass :: pass.Depth() <= p.Depth() < 5 ==> ContinentsSettled(OnContinents(s, pass), p)
  {
    ContinentsSettles(s, pass);
    forall p: Pass | pass.Depth() < p.Depth() < 5 ensures ContinentsSettled(OnContinents(s, pass), p) {
      ContinentsKeepsSettled(s, pass, p);
    }
  }

  /**
    Once the passes from depth 4 up to `depth` have run, no container at
    `depth` or below is empty: inside-out order is what makes this hold.
  */
  lemma {:induction false} PrunedFromSettled(s: Continents, depth: nat)
    requires depth < 5
    ensures forall p: Pass :: depth <= p.Depth() < 5 ==> ContinentsSettled(PrunedFrom(s, depth), p)
    decreases 5 - depth
  {
    if depth < 4 {
      PrunedFromSettled(s, depth + 1);
      PruneStep(PrunedFrom(s, depth + 1), PruneAt(depth));
    } else {
      PruneStep(s, PruneAt(depth));
    }
  }

  /** After the five passes no department, faculty, university, country or continent is empty. */
  lemma {:induction false} PrunedHasNoEmptyContainers(s: Continents)
    ensures NoEmptyContainers(Pruned(s))
  {
    PrunedFromSettled(s, 0);
  }

  /** The pruning passes delete no student: the leaves, with their paths, stay the same and in order. */
  lemma {:induction false} PrunedFromKeepsLeaves(s: Continents, depth: nat)
    requires depth < 5
    ensures ContinentsEntries(PrunedFrom(s, depth)) == ContinentsEntries(s)
    decreases 5 - depth
  {
    var below := if depth == 4 then s else PrunedFrom(s, depth + 1);
    if depth < 4 {
      PrunedFromKeepsLeaves(s, depth + 1);
    }
    ContinentsEntriesAfter(below, PruneAt(depth));
  }

  /** Pruning deletes no student. */
  lemma {:induction false} PruningKeepsLeaves(s: Continents)
    ensures ContinentsEntries(Pruned(s)) == ContinentsEntries(s)
  {
    PrunedFromKeepsLeaves(s, 0);
  }

  /** One pruning pass keeps a tree of valid students valid. */
  lemma PruneKeepsValid(t: Continents, pass: Pass)
    requires pass.Depth() < 5 && AllValid(t)
    ensures AllValid(OnContinents(t, pass))
  {
    ContinentsKeepsSettled(t, pass, Validate);
  }

  /** The pruning passes keep a tree of valid students valid. */
  lemma {:induction false} PrunedFromKeepsValid(s: Continents, depth: nat)
    requires depth < 5
    requires AllValid(s)
    ensures AllValid(PrunedFrom(s, depth))
    decreases 5 - depth
  {
    if depth == 4 {
      PruneKeepsValid(s, PruneAt(4));
    } else {
      PrunedFromKeepsValid(s, depth + 1);
      PruneKeepsValid(PrunedFrom(s, depth + 1), PruneAt(depth));
    }
  }

  /** On a tree without empty containers the pruning passes delete nothing. */
  lemma {:induction false} PrunedFromUnchanged(t: Continents, depth: nat)
    requires depth < 5
    requires NoEmptyContainers(t)
    ensures PrunedFrom(t, depth) == t
    decreases 5 - depth
  {
    if depth < 4 {
      PrunedFromUnchanged(t, depth + 1);
    }
    ContinentsFixedPoint(t, PruneAt(depth));
  }

  // ---------------------------------------------------------------------
  // Cleaning and pruning together
  // ---------------------------------------------------------------------

  /**
    The tidied tree holds only valid students and no empty container, and
    its leaves are the valid leaves of the input, in order.
  */
  lemma {:induction false} TidiedShape(s: Continents)
    ensures AllValid(Tidied(s)) && NoEmptyContainers(Tidied(s))
    ensures ContinentsEntries(Tidied(s)) == ValidOnly(ContinentsEntries(s))
  {
    CleanedKeepsExactlyValid(s);
    PrunedFromKeepsValid(Cleaned(s), 0);
    PrunedHasNoEmptyContainers(Cleaned(s));
    PruningKeepsLeaves(Cleaned(s));
  }

  /** On a tree with only valid students and no empty container, every pass deletes nothing. */
  lemma {:induction false} SettledTreeUnchanged(t: Continents)
    requires AllValid(t) && NoEmptyContainers(t)
    ensures Cleaned(t) == t && Pruned(t) == t
  {
    ContinentsFixedPoint(t, Validate);
    PrunedFromUnchanged(t, 0);
  }

  /** Running cleaning and pruning a second time deletes nothing. */
  lemma {:induction false} TidiedIdempotent(s: Continents)
    ensures Tidied(Tidied(s)) == Tidied(s)
  {
    TidiedShape(s);
    SettledTreeUnchanged(Tidied(s));
  }

  /** A student the cleaning step keeps has both scores, so the flattening arithmetic is defined. */
  lemma {:induction false} TidiedLeavesScored(s: Continents)
    ensures AllScored(ContinentsEntries(Tidied(s)))
  {
    TidiedShape(s);
    var es := ContinentsEntries(Tidied(s));
    forall i | 0 <= i < |es| ensures HasScores(es[i].student) {
      assert es[i] in ValidOnly(ContinentsEntries(s));
    }
  }

  // ---------------------------------------------------------------------
  // Flattening
  // ---------------------------------------------------------------------

  /** The rows of a tree whose students all have both scores. */
  function FlatRows(s: Continents): seq<Row>
    requires AllScored(ContinentsEntries(s))
  {
    RowsOf(ContinentsEntries(s))
  }

  /**
    One row per student: as many rows as the department sizes add up to,
    each carrying its student's path, id, name and scores, with the average
    of the two scores.
  */
  lemma {:induction false} FlatRowsDescribeStudents(s: Continents)
    requires AllScored(ContinentsEntries(s))
    ensures |FlatRows(s)| == ContinentsStudentCount(s)
    ensures forall i :: 0 <= i < |FlatRows(s)| ==>
      var row := FlatRows(s)[i];
      StudentAt(s, row.continent, row.country, row.university, row.faculty, row.department, row.studentId)
        == Some(Student(row.name, Some(row.calcScore), Some(row.algebraScore), ContinentsEntries(s)[i].student.otherScores)) &&
      row.avgScore == (row.calcScore + row.algebraScore) as real / 2.0
  {
    var es := ContinentsEntries(s);
    ContinentsEntriesCount(s);
    forall i | 0 <= i < |es|
      ensures StudentAt(s, es[i].continent, es[i].country, es[i].university, es[i].faculty, es[i].department, es[i].id)
        == Some(es[i].student)
    {
      ContinentsEntriesMember(s, es[i]);
    }
  }

  /** Every student reachable in the tree has its row. */
  lemma {:induction false} EveryStudentHasRow(s: Continents, e: Entry)
    requires AllScored(ContinentsEntries(s))
    requires StudentAt(s, e.continent, e.country, e.university, e.faculty, e.department, e.id) == Some(e.student)
    ensures HasScores(e.student) && RowOf(e) in FlatRows(s)
  {
    ContinentsEntriesMember(s, e);
    var es := ContinentsEntries(s);
    var i :| 0 <= i < |es| && es[i] == e;
    assert FlatRows(s)[i] == RowOf(e);
  }

  /**
    No two rows name the same student: any two rows differ in their path or
    their id. With `EveryStudentHasRow`, each student has exactly one row.
  */
  lemma {:induction false} RowsNameDistinctStudents(s: Continents)
    requires AllScored(ContinentsEntries(s))
    ensures forall i, j :: 0 <= i < j < |FlatRows(s)| ==>
      (FlatRows(s)[i].continent, FlatRows(s)[i].country, FlatRows(s)[i].university,
       FlatRows(s)[i].faculty, FlatRows(s)[i].department, FlatRows(s)[i].studentId) !=
      (FlatRows(s)[j].continent, FlatRows(s)[j].country, FlatRows(s)[j].university,
       FlatRows(s)[j].faculty, FlatRows(s)[j].department, FlatRows(s)[j].studentId)
  {
    ContinentsEntriesUnique(s);
  }

  // ---------------------------------------------------------------------
  // The script, on one object
  // ---------------------------------------------------------------------

  /** The `continents` mapping the script mutates in place, and the `rows` list it fills. */
  class EducationSystem {
    var continents: Continents
    var rows: seq<Row>

    constructor(data: Continents)
      ensures continents == data && rows == []
    {
      continents := data;
      rows := [];
    }

    /** Part A: clean every department. */
    method Clean()
      modifies this
      ensures continents == Cleaned(old(continents)) && rows == old(rows)
    {
      continents := ApplyToContinents(continents, Validate);
    }

    /** Part B: the five collect-then-delete passes, inside out. */
    method Prune()
      modifies this
      ensures continents == Pruned(old(continents)) && rows == old(rows)
    {
      ghost var s := continents;
      continents := ApplyToContinents(continents, PruneAt(4));  // departments
      assert continents == PrunedFrom(s, 4);
      continents := ApplyToContinents(continents, PruneAt(3));  // faculties
      assert continents == PrunedFrom(s, 3);
      continents := ApplyToContinents(continents, PruneAt(2));  // universities
      assert continents == PrunedFrom(s, 2);
      continents := ApplyToContinents(continents, PruneAt(1));  // countries
      assert continents == PrunedFrom(s, 1);
      continents := ApplyToContinents(continents, PruneAt(0));  // continents
    }

    /** Part C: `rows = []`, then one row appended per student, in order. */
    method Flatten()
      requires AllScored(ContinentsEntries(continents))
      modifies this
      ensures continents == old(continents) && rows == FlatRows(continents)
    {
      rows := [];
      rows := AppendContinentsRows(continents, rows);
    }
  }

  // ---------------------------------------------------------------------
  // The report
  // ---------------------------------------------------------------------

  /** What the final report prints. */
  datatype Report = Report(
    averageByCountry: Dict<string, real>,
    bestDepartment: string,
    bestAverage: real,
    studentsProcessed: nat)

  /** The outcome of the whole script on an input tree. */
  function Analytics(data: Continents): Result<Report, AggregationError> {
    TidiedLeavesScored(data);
    var rows := FlatRows(Tidied(data));
    match BestDepartment(rows)
    case Failure(e) => Failure(e)
    case Success((dept, mean)) => Success(Report(AverageByCountry(rows), dept, mean, |rows|))
  }

  /**
    The script fails exactly when no student survives cleaning; otherwise it
    reports one row per valid student, the country means over those rows and
    the first department of highest mean.
  */
  lemma {:induction false} AnalyticsOutcome(data: Continents)
    ensures AllScored(ContinentsEntries(Tidied(data)))
    ensures Analytics(data).Failure? <==> ValidOnly(ContinentsEntries(data)) == []
    ensures Analytics(data).Success? ==>
      var report := Analytics(data).value;
      var rows := FlatRows(Tidied(data));
      report.studentsProcessed == |ValidOnly(ContinentsEntries(data))| &&
      report.averageByCountry == AverageByCountry(rows) &&
      (report.bestDepartment, report.bestAverage) == BestDepartment(rows).value
  {
    TidiedLeavesScored(data);
    TidiedShape(data);
  }

  /** The script from start to end. */
  method RunCapstone(data: Continents) returns (report: Result<Report, AggregationError>)
    ensures report == Analytics(data)
  {
    var system := new EducationSystem(data);
    system.Clean();
    system.Prune();
    TidiedLeavesScored(data);
    system.Flatten();
    var rows := system.rows;

    var byCountry := GroupScores(rows, ByCountry);
    GroupedScores(rows, ByCountry);
    var averageByCountry := Means(byCountry);

    var byDepartment := GroupScores(rows, ByDepartment);
    GroupedScores(rows, ByDepartment);
    var averageByDepartment := Means(byDepartment);

    if |averageByDepartment| == 0 {
      report := Failure(EmptyInput);
    } else {
      var best := FirstMaxIndex(averageByDepartment);
      report := Success(Report(averageByCountry, averageByDepartment[best].0, averageByDepartment[best].1, |rows|));
    }
  }
}
