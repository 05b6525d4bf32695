/**
  The sample data the script is shipped with, run through the model: two
  continents, three valid students out of six records, one department that
  the cleaning step empties.
*/
module Scenario {
  import opened Wrappers
  import opened Dicts
  import opened Hierarchy
  import opened Flattening
  import opened Aggregation
  import opened Pipeline
  import opened Containers

  function Ada(): Student { Student(Some("Ada"), Some(85), Some(78), map[]) }
  function Unnamed(): Student { Student(None, Some(90), Some(88), map[]) }
  function Tunde(): Student { Student(Some("Tunde"), Some(-10), Some(65), map[]) }
  function Bola(): Student { Student(Some("Bola"), Some(92), None, map[]) }
  function Hans(): Student { Student(Some("Hans"), Some(88), Some(90), map[]) }
  function Lena(): Student { Student(Some("Lena"), Some(95), Some(93), map[]) }

  function Math(): Department { [(1, Ada()), (2, Unnamed()), (3, Tunde())] }
  function Physics(): Department { [(4, Bola())] }
  function Cs(): Department { [(1, Hans()), (5, Lena())] }

  function Sample(): Continents {
    [("Africa", [("Nigeria", [("UniLagos", [("Science", [("Math", Math()), ("Physics", Physics())])])])]),
     ("Europe", [("Germany", [("UniBerlin", [("Engineering", [("CS", Cs())])])])])]
  }


  function AdaEntry(): Entry { Entry("Africa", "Nigeria", "UniLagos", "Science", "Math", 1, Ada()) }
  function HansEntry(): Entry { Entry("Europe", "Germany", "UniBerlin", "Engineering", "CS", 1, Hans()) }
  function LenaEntry(): Entry { Entry("Europe", "Germany", "UniBerlin", "Engineering", "CS", 5, Lena()) }

  /** The six records of the sample, as leaves, in insertion order. */
  function SampleEntries(): seq<Entry> {
    [AdaEntry(),
     Entry("Africa", "Nigeria", "UniLagos", "Science", "Math", 2, Unnamed()),
     Entry("Africa", "Nigeria", "UniLagos", "Science", "Math", 3, Tunde()),
     Entry("Africa", "Nigeria", "UniLagos", "Science", "Physics", 4, Bola()),
     HansEntry(),
     LenaEntry()]
  }

  // Leaves of small mappings, one helper per shape the sample uses.

  lemma DepartmentOne(continent: string, country: string, university: string, faculty: string, department: string,
                      id: StudentId, st: Student)
    ensures DepartmentEntries(continent, country, university, faculty, department, [(id, st)]) ==
      [Entry(continent, country, university, faculty, department, id, st)]
  {
    assert [(id, st)][..0] == [];
  }

  lemma DepartmentTwo(continent: string, country: string, university: string, faculty: string, department: string,
                      id1: StudentId, st1: Student, id2: StudentId, st2: Student)
    requires id1 != id2
    ensures DepartmentEntries(continent, country, university, faculty, department, [(id1, st1), (id2, st2)]) ==
      [Entry(continent, country, university, faculty, department, id1, st1),
       Entry(continent, country, university, faculty, department, id2, st2)]
  {
    DepartmentOne(continent, country, university, faculty, department, id1, st1);
    assert [(id1, st1), (id2, st2)][..1] == [(id1, st1)];
  }

  lemma DepartmentThree(continent: string, country: string, university: string, faculty: string, department: string,
                        id1: StudentId, st1: Student, id2: StudentId, st2: Student, id3: StudentId, st3: Student)
    requires id1 != id2 && id1 != id3 && id2 != id3
    ensures DepartmentEntries(continent, country, university, faculty, department, [(id1, st1), (id2, st2), (id3, st3)]) ==
      [Entry(continent, country, university, faculty, department, id1, st1),
       Entry(continent, country, university, faculty, department, id2, st2),
       Entry(continent, country, university, faculty, department, id3, st3)]
  {
    DepartmentTwo(continent, country, university, faculty, department, id1, st1, id2, st2);
    assert [(id1, st1), (id2, st2), (id3, st3)][..2] == [(id1, st1), (id2, st2)];
  }

  lemma FacultyOne(continent: string, country: string, university: string, faculty: string, k: string, d: Department)
    ensures FacultyEntries(continent, country, university, faculty, [(k, d)]) ==
      DepartmentEntries(continent, country, university, faculty, k, d)
  {
    assert [(k, d)][..0] == [];
  }

  lemma FacultyTwo(continent: string, country: string, university: string, faculty: string,
                   k1: string, d1: Department, k2: string, d2: Department)
    requires k1 != k2
    ensures FacultyEntries(continent, country, university, faculty, [(k1, d1), (k2, d2)]) ==
      DepartmentEntries(continent, country, university, faculty, k1, d1) +
      DepartmentEntries(continent, country, university, faculty, k2, d2)
  {
    FacultyOne(continent, country, university, faculty, k1, d1);
    assert [(k1, d1), (k2, d2)][..1] == [(k1, d1)];
  }

  lemma UniversityOne(continent: string, country: string, university: string, k: string, f: Faculty)
    ensures UniversityEntries(continent, country, university, [(k, f)]) == FacultyEntries(continent, country, university, k, f)
  {
    assert [(k, f)][..0] == [];
  }

  lemma CountryOne(continent: string, country: string, k: string, u: University)
    ensures CountryEntries(continent, country, [(k, u)]) == UniversityEntries(continent, country, k, u)
  {
    assert [(k, u)][..0] == [];
  }

  lemma ContinentOne(continent: string, k: string, n: Country)
    ensures ContinentEntries(continent, [(k, n)]) == CountryEntries(continent, k, n)
  {
    assert [(k, n)][..0] == [];
  }

  lemma ContinentsTwo(k1: string, c1: Continent, k2: string, c2: Continent)
    requires k1 != k2
    ensures ContinentsEntries([(k1, c1), (k2, c2)]) == ContinentEntries(k1, c1) + ContinentEntries(k2, c2)
  {
    assert [(k1, c1)][..0] == [];
    assert ContinentsEntries([(k1, c1)]) == ContinentEntries(k1, c1);
    assert [(k1, c1), (k2, c2)][..1] == [(k1, c1)];
  }

  function Africa(): Continent {
    [("Nigeria", [("UniLagos", [("Science", [("Math", Math()), ("Physics", Physics())])])])]
  }

  function Europe(): Continent {
    [("Germany", [("UniBerlin", [("Engineering", [("CS", Cs())])])])]
  }

  /** The four African records, as leaves. */
  lemma AfricaLeaves()
    ensures ContinentEntries("Africa", Africa()) == SampleEntries()[..4]
  {
    DepartmentThree("Africa", "Nigeria", "UniLagos", "Science", "Math", 1, Ada(), 2, Unnamed(), 3, Tunde());
    DepartmentOne("Africa", "Nigeria", "UniLagos", "Science", "Physics", 4, Bola());
    FacultyTwo("Africa", "Nigeria", "UniLagos", "Science", "Math", Math(), "Physics", Physics());
    var science: Faculty := [("Math", Math()), ("Physics", Physics())];
    UniversityOne("Africa", "Nigeria", "UniLagos", "Science", science);
    var uniLagos: University := [("Science", science)];
    CountryOne("Africa", "Nigeria", "UniLagos", uniLagos);
    ContinentOne("Africa", "Nigeria", [("UniLagos", uniLagos)]);
  }

  /** The two European records, as leaves. */
  lemma EuropeLeaves()
    ensures ContinentEntries("Europe", Europe()) == SampleEntries()[4..]
  {
    DepartmentTwo("Europe", "Germany", "UniBerlin", "Engineering", "CS", 1, Hans(), 5, Lena());
    FacultyOne("Europe", "Germany", "UniBerlin", "Engineering", "CS", Cs());
    var engineering: Faculty := [("CS", Cs())];
    UniversityOne("Europe", "Germany", "UniBerlin", "Engineering", engineering);
    var uniBerlin: University := [("Engineering", engineering)];
    CountryOne("Europe", "Germany", "UniBerlin", uniBerlin);
    ContinentOne("Europe", "Germany", [("UniBerlin", uniBerlin)]);
  }

  /** The six records of the sample, as leaves, in insertion order. */
  lemma SampleLeaves()
    ensures ContinentsEntries(Sample()) == SampleEntries()
  {
    AfricaLeaves();
    EuropeLeaves();
    assert Sample() == [("Africa", Africa()), ("Europe", Europe())];
    ContinentsTwo("Africa", Africa(), "Europe", Europe());
    assert SampleEntries() == SampleEntries()[..4] + SampleEntries()[4..];
  }

  /** The three rows the script prints its report from. */
  function SampleRows(): seq<Row> {
    [Row("Africa", "Nigeria", "UniLagos", "Science", "Math", 1, Some("Ada"), 85, 78, 81.5),
     Row("Europe", "Germany", "UniBerlin", "Engineering", "CS", 1, Some("Hans"), 88, 90, 89.0),
     Row("Europe", "Germany", "UniBerlin", "Engineering", "CS", 5, Some("Lena"), 95, 93, 94.0)]
  }

  /** Filtering six leaves of which the first, fifth and sixth are valid. */
  lemma ValidOnlySix(e1: Entry, e2: Entry, e3: Entry, e4: Entry, e5: Entry, e6: Entry)
    requires !IsInvalid(e1.student) && IsInvalid(e2.student) && IsInvalid(e3.student)
    requires IsInvalid(e4.student) && !IsInvalid(e5.student) && !IsInvalid(e6.student)
    ensures ValidOnly([e1, e2, e3, e4, e5, e6]) == [e1, e5, e6]
  {
    var es := [e1, e2, e3, e4, e5, e6];
    assert es[..5] == [e1, e2, e3, e4, e5];
    assert es[..5][..4] == [e1, e2, e3, e4];
    assert es[..5][..4][..3] == [e1, e2, e3];
    assert es[..5][..4][..3][..2] == [e1, e2];
    assert es[..5][..4][..3][..2][..1] == [e1];
    assert es[..5][..4][..3][..2][..1][..0] == [];
    assert ValidOnly([e1]) == [e1];
    assert ValidOnly([e1, e2]) == [e1];
    assert ValidOnly([e1, e2, e3]) == [e1];
    assert ValidOnly([e1, e2, e3, e4]) == [e1];
    assert ValidOnly([e1, e2, e3, e4, e5]) == [e1, e5];
  }

  /**
    Cleaning drops the unnamed student, Tunde (calc -10) and Bola (no
    algebra score); Ada, Hans and Lena stay, in that order.
  */
  lemma SampleValidEntries()
    ensures ValidOnly(SampleEntries()) == [AdaEntry(), HansEntry(), LenaEntry()]
  {
    var es := SampleEntries();
    ValidOnlySix(es[0], es[1], es[2], es[3], es[4], es[5]);
  }

  /** The rows of three scored leaves. */
  lemma RowsOfThree(a: Entry, b: Entry, c: Entry)
    requires HasScores(a.student) && HasScores(b.student) && HasScores(c.student)
    ensures AllScored([a, b, c]) && RowsOf([a, b, c]) == [RowOf(a), RowOf(b), RowOf(c)]
  {
  }

  /** A tree none of whose leaves lies in department d holds no student under d. */
  lemma AbsentDepartment(t: Continents, continent: string, country: string, university: string,
                         faculty: string, department: string, id: StudentId)
    requires forall i :: 0 <= i < |ContinentsEntries(t)| ==> ContinentsEntries(t)[i].department != department
    ensures StudentAt(t, continent, country, university, faculty, department, id) == None
  {
    match StudentAt(t, continent, country, university, faculty, department, id)
    case None =>
    case Some(st) =>
      ContinentsEntriesMember(t, Entry(continent, country, university, faculty, department, id, st));
  }

  /** The rows of the three valid sample leaves. */
  lemma SampleRowsOf()
    ensures AllScored([AdaEntry(), HansEntry(), LenaEntry()])
    ensures RowsOf([AdaEntry(), HansEntry(), LenaEntry()]) == SampleRows()
  {
    RowsOfThree(AdaEntry(), HansEntry(), LenaEntry());
    assert Average(85, 78) == 81.5 && Average(88, 90) == 89.0 && Average(95, 93) == 94.0;
  }

  /** After cleaning and pruning, a tree whose valid leaves are Ada, Hans and Lena holds exactly those. */
  lemma TidiedLeaves(s: Continents)
    requires ValidOnly(ContinentsEntries(s)) == [AdaEntry(), HansEntry(), LenaEntry()]
    ensures ContinentsEntries(Tidied(s)) == [AdaEntry(), HansEntry(), LenaEntry()]
  {
    TidiedShape(s);
  }

  /** Any tree with the sample's leaves flattens to three rows and, tidied, holds nothing under Physics. */
  lemma SampleShapeFlattened(s: Continents)
    requires ContinentsEntries(s) == SampleEntries()
    ensures AllScored(ContinentsEntries(Tidied(s)))
    ensures FlatRows(Tidied(s)) == SampleRows()
  {
    SampleValidEntries();
    TidiedLeaves(s);
    SampleRowsOf();
  }

  lemma SampleNoPhysics(s: Continents)
    requires ContinentsEntries(s) == [AdaEntry(), HansEntry(), LenaEntry()]
    ensures StudentAt(s, "Africa", "Nigeria", "UniLagos", "Science", "Physics", 4) == None
  {
    var es := ContinentsEntries(s);
    assert es[0].department == "Math" && es[1].department == "CS" && es[2].department == "CS";
    AbsentDepartment(s, "Africa", "Nigeria", "UniLagos", "Science", "Physics", 4);
  }

  function MathPath(): seq<string> { ["Africa", "Nigeria", "UniLagos", "Science", "Math"] }
  function PhysicsPath(): seq<string> { ["Africa", "Nigeria", "UniLagos", "Science", "Physics"] }

  /** Ada, Hans and Lena all lie outside Physics; Ada lies in Math. */
  lemma ValidLeavesPlaces()
    ensures !Occupied([AdaEntry(), HansEntry(), LenaEntry()], PhysicsPath())
    ensures Occupied([AdaEntry(), HansEntry(), LenaEntry()], MathPath())
  {
    var valid := [AdaEntry(), HansEntry(), LenaEntry()];
    assert MathPath() <= PathOf(valid[0]);
    forall i | 0 <= i < |valid|
      ensures !(PhysicsPath() <= PathOf(valid[i]))
    {
      assert PathOf(valid[i])[4] != "Physics";
    }
  }

  /** Bola's leaf puts the Physics department in any tree with the sample's leaves. */
  lemma SampleShapeHasPhysics(s: Continents)
    requires ContinentsEntries(s) == SampleEntries()
    ensures ContainerAt(s, PhysicsPath())
  {
    assert PhysicsPath() <= PathOf(SampleEntries()[3]);
    OccupiedIsContainer(s, PhysicsPath());
  }

  /**
    In any tree with the sample's leaves, the Physics department exists but
    does not survive cleaning and pruning, while Math does.
  */
  lemma SampleShapeContainers(s: Continents)
    requires ContinentsEntries(s) == SampleEntries()
    ensures ContainerAt(s, PhysicsPath())
    ensures !ContainerAt(Tidied(s), PhysicsPath())
    ensures ContainerAt(Tidied(s), MathPath())
  {
    SampleShapeHasPhysics(s);
    SampleValidEntries();
    ValidLeavesPlaces();
    TidiedContainers(s, MathPath());
    TidiedContainers(s, PhysicsPath());
  }

  /** The sample flattens to three rows, and Bola's record is gone from the tree. */
  lemma SampleFlattened()
    ensures AllScored(ContinentsEntries(Tidied(Sample())))
    ensures FlatRows(Tidied(Sample())) == SampleRows()
    ensures StudentAt(Tidied(Sample()), "Africa", "Nigeria", "UniLagos", "Science", "Physics", 4) == None
  {
    SampleLeaves();
    SampleShapeFlattened(Sample());
    SampleValidEntries();
    TidiedLeaves(Sample());
    SampleNoPhysics(Tidied(Sample()));
  }

  /** One more row whose key is new adds a one-score group at the end. */
  lemma GroupedSnocNew(rows: seq<Row>, r: Row, field: GroupKey)
    requires KeyOf(r, field) !in KeySet(Grouped(rows, field))
    ensures Grouped(rows + [r], field) == Grouped(rows, field) + [(KeyOf(r, field), [r.avgScore])]
  {
    assert (rows + [r])[..|rows|] == rows;
    AddScoreNew(Grouped(rows, field), KeyOf(r, field), r.avgScore);
  }
  /** One more row whose key is the i-th group's appends its score to that group. */
  lemma GroupedSnocKnown(rows: seq<Row>, r: Row, field: GroupKey, i: nat)
    requires i < |Grouped(rows, field)| && Grouped(rows, field)[i].0 == KeyOf(r, field)
    ensures Grouped(rows + [r], field) == Grouped(rows, field)[i := (KeyOf(r, field), Grouped(rows, field)[i].1 + [r.avgScore])]
  {
    assert (rows + [r])[..|rows|] == rows;
    AddScoreKnown(Grouped(rows, field), KeyOf(r, field), r.avgScore, i);
  }
  lemma GroupedOne(r1: Row, field: GroupKey)
    ensures Grouped([r1], field) == [(KeyOf(r1, field), [r1.avgScore])]
  {
    var e: seq<Row> := [];
    assert e + [r1] == [r1];
    GroupedSnocNew(e, r1, field);
  }
  lemma GroupedTwo(r1: Row, r2: Row, field: GroupKey)
    requires KeyOf(r1, field) != KeyOf(r2, field)
    ensures Grouped([r1, r2], field) == [(KeyOf(r1, field), [r1.avgScore]), (KeyOf(r2, field), [r2.avgScore])]
  {
    GroupedOne(r1, field);
    var g1: seq<(string, seq<real>)> := [(KeyOf(r1, field), [r1.avgScore])];
    assert KeyOf(r2, field) !in KeySet(g1) by {
      assert forall i :: 0 <= i < |g1| ==> g1[i].0 == KeyOf(r1, field);
    }
    assert [r1] + [r2] == [r1, r2];
    GroupedSnocNew([r1], r2, field);
  }
  /** Grouping three rows whose last two share a key that the first does not have. */
  lemma GroupedThree(r1: Row, r2: Row, r3: Row, field: GroupKey)
    requires KeyOf(r1, field) != KeyOf(r2, field) && KeyOf(r2, field) == KeyOf(r3, field)
    ensures Grouped([r1, r2, r3], field) ==
      [(KeyOf(r1, field), [r1.avgScore]), (KeyOf(r2, field), [r2.avgScore, r3.avgScore])]
  {
    GroupedTwo(r1, r2, field);
    assert [r1, r2] + [r3] == [r1, r2, r3];
    GroupedSnocKnown([r1, r2], r3, field, 1);
    assert [r2.avgScore] + [r3.avgScore] == [r2.avgScore, r3.avgScore];
  }

  /** The mean of one score, and of two. */
  lemma MeanOfFew(x: real, y: real)
    ensures Mean([x]) == x
    ensures Mean([x, y]) == (x + y) / 2.0
  {
    assert [x][..0] == [];
    assert Sum([x]) == x;
    assert [x, y][..1] == [x];
  }

  /** The means of a one-score group and a two-score group. */
  lemma MeansOfTwo(k1: string, x: real, k2: string, y: real, z: real)
    requires k1 != k2
    ensures Means([(k1, [x]), (k2, [y, z])]) == [(k1, x), (k2, (y + z) / 2.0)]
  {
    MeanOfFew(x, x);
    MeanOfFew(y, z);
    var means := Means([(k1, [x]), (k2, [y, z])]);
    assert means[0] == (k1, x) && means[1] == (k2, (y + z) / 2.0);
  }

  /** The country and department means of the sample rows. */
  lemma SampleAverages()
    ensures AverageByCountry(SampleRows()) == [("Nigeria", 81.5), ("Germany", 91.5)]
    ensures AverageByDepartment(SampleRows()) == [("Math", 81.5), ("CS", 91.5)]
  {
    var rows := SampleRows();
    assert rows == [rows[0], rows[1], rows[2]];
    GroupMeansAreMeans(rows, ByCountry);
    GroupedThree(rows[0], rows[1], rows[2], ByCountry);
    MeansOfTwo("Nigeria", 81.5, "Germany", 89.0, 94.0);
    GroupMeansAreMeans(rows, ByDepartment);
    GroupedThree(rows[0], rows[1], rows[2], ByDepartment);
    MeansOfTwo("Math", 81.5, "CS", 89.0, 94.0);
  }

  /** Of two values, the strictly larger second one is the maximum. */
  lemma FirstMaxOfTwo(d: Dict<string, real>)
    requires |d| == 2 && d[0].1 < d[1].1
    ensures FirstMaxIndex(d) == 1
  {
    assert d[..1] == [d[0]];
  }

  /** With two departments, the second wins when its mean is strictly larger. */
  lemma BestOfTwo(rows: seq<Row>, k1: string, m1: real, k2: string, m2: real)
    requires k1 != k2 && m1 < m2
    requires AverageByDepartment(rows) == [(k1, m1), (k2, m2)]
    ensures BestDepartment(rows) == Success((k2, m2))
  {
    var means := AverageByDepartment(rows);
    FirstMaxOfTwo(means);
    assert means[1] == (k2, m2);
  }

  /** The best department of the sample rows: CS, whose mean 91.5 beats Math's 81.5. */
  lemma SampleBest()
    ensures BestDepartment(SampleRows()) == Success(("CS", 91.5))
  {
    SampleAverages();
    BestOfTwo(SampleRows(), "Math", 81.5, "CS", 91.5);
  }

  /** Any tree with the sample's leaves yields the sample report. */
  lemma SampleShapeReport(s: Continents)
    requires ContinentsEntries(s) == SampleEntries()
    ensures Analytics(s) == Success(Report([("Nigeria", 81.5), ("Germany", 91.5)], "CS", 91.5, 3))
  {
    SampleShapeFlattened(s);
    SampleBest();
    SampleAverages();
  }

  /**
    The report on the sample: Nigeria 81.5 and Germany 91.5, best department
    CS with 91.5, three students processed.
  */
  lemma SampleReport()
    ensures Analytics(Sample()) == Success(Report([("Nigeria", 81.5), ("Germany", 91.5)], "CS", 91.5, 3))
  {
    SampleLeaves();
    SampleShapeReport(Sample());
  }

  /** The sample's Physics department, emptied by cleaning, is pruned; Math stays. */
  lemma SamplePhysicsPruned()
    ensures ContainerAt(Sample(), PhysicsPath())
    ensures !ContainerAt(Tidied(Sample()), PhysicsPath())
    ensures ContainerAt(Tidied(Sample()), MathPath())
  {
    SampleLeaves();
    SampleShapeContainers(Sample());
  }
}
