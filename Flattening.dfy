/**
  Flattening: every student left in the tree becomes one row carrying the
  keys of its whole path, in the insertion order of every mapping.
*/
module Flattening {
  import opened Wrappers
  import opened Dicts
  import opened Hierarchy
  import opened Validation
  import opened Passes

  /** A leaf together with the keys on its path. */
  datatype Entry = Entry(
    continent: string, country: string, university: string, faculty: string, department: string,
    id: StudentId, student: Student)

  /**
    The 10-tuple `(continent, country, university, faculty, department,
    student_id, name, calc, algebra, avg_score)`.
  */
  datatype Row = Row(
    continent: string, country: string, university: string, faculty: string, department: string,
    studentId: StudentId, name: Option<string>, calcScore: int, algebraScore: int, avgScore: real)

  /** `(calc + algebra) / 2`, exactly: the midpoint, which lies between the two scores. */
  function Average(calcScore: int, algebraScore: int): (avg: real)
    ensures avg - calcScore as real == algebraScore as real - avg
    ensures calcScore <= algebraScore ==> calcScore as real <= avg <= algebraScore as real
    ensures algebraScore <= calcScore ==> algebraScore as real <= avg <= calcScore as real
  {
    (calcScore + algebraScore) as real / 2.0
  }

  /** One row; the arithmetic needs both scores (None would make the script fail). */
  function RowOf(e: Entry): (r: Row)
    requires HasScores(e.student)
    ensures (r.continent, r.country, r.university, r.faculty, r.department, r.studentId) == LeafKey(e)
    ensures r.name == e.student.name
    ensures e.student.calcScore == Some(r.calcScore) && e.student.algebraScore == Some(r.algebraScore)
    ensures r.avgScore == Average(r.calcScore, r.algebraScore)
  {
    Row(e.continent, e.country, e.university, e.faculty, e.department, e.id, e.student.name,
        e.student.calcScore.value, e.student.algebraScore.value,
        Average(e.student.calcScore.value, e.student.algebraScore.value))
  }

  predicate AllScored(es: seq<Entry>) {
    forall i :: 0 <= i < |es| ==> HasScores(es[i].student)
  }

  /** The rows of a sequence of leaves, one each, in the same order. */
  function RowsOf(es: seq<Entry>): (rows: seq<Row>)
    requires AllScored(es)
  {
    seq(|es|, i requires 0 <= i < |es| && AllScored(es) => RowOf(es[i]))
  }

  lemma {:induction false} AllScoredAppend(a: seq<Entry>, b: seq<Entry>)
    ensures AllScored(a + b) <==> AllScored(a) && AllScored(b)
  {
    if AllScored(a) && AllScored(b) {
      forall i | 0 <= i < |a + b| ensures HasScores((a + b)[i].student) {
        if i >= |a| { assert (a + b)[i] == b[i - |a|]; }
      }
    }
    if AllScored(a + b) {
      forall i | 0 <= i < |a| ensures HasScores(a[i].student) {
        assert (a + b)[i] == a[i];
      }
      forall i | 0 <= i < |b| ensures HasScores(b[i].student) {
        assert (a + b)[|a| + i] == b[i];
      }
    }
  }

  /** Rows are built leaf by leaf, so flattening two runs of leaves is concatenating their rows. */
  lemma {:induction false} RowsOfAppend(a: seq<Entry>, b: seq<Entry>)
    requires AllScored(a) && AllScored(b)
    ensures AllScored(a + b) && RowsOf(a + b) == RowsOf(a) + RowsOf(b)
  {
    AllScoredAppend(a, b);
  }

  /** The leaves a cleaning step keeps: the valid ones, in order. */
  function ValidOnly(es: seq<Entry>): (r: seq<Entry>)
    ensures forall e :: e in r <==> e in es && !IsInvalid(e.student)
    decreases |es|
  {
    if |es| == 0 then []
    else
      var last := es[|es| - 1];
      assert es == es[..|es| - 1] + [last];
      ValidOnly(es[..|es| - 1]) + (if IsInvalid(last.student) then [] else [last])
  }

  lemma {:induction false} ValidOnlyAppend(a: seq<Entry>, b: seq<Entry>)
    ensures ValidOnly(a + b) == ValidOnly(a) + ValidOnly(b)
    decreases |b|
  {
    if |b| > 0 {
      var init := b[..|b| - 1];
      assert (a + b)[..|a + b| - 1] == a + init;
      ValidOnlyAppend(a, init);
    } else {
      assert a + b == a;
    }
  }

  /** What a pass does to the sequence of leaves below the mappings it acts on. */
  function LeavesAfter(pass: Pass, es: seq<Entry>): seq<Entry> {
    if pass == Validate then ValidOnly(es) else es
  }

  lemma {:induction false} LeavesAfterAppend(pass: Pass, a: seq<Entry>, b: seq<Entry>)
    ensures LeavesAfter(pass, a + b) == LeavesAfter(pass, a) + LeavesAfter(pass, b)
  {
    if pass == Validate { ValidOnlyAppend(a, b); }
  }

  /** What names a leaf: its five path keys and its id. */
  function LeafKey(e: Entry): (string, string, string, string, string, StudentId) {
    (e.continent, e.country, e.university, e.faculty, e.department, e.id)
  }

  /** No two leaves share their path and id. */
  predicate UniqueLeaves(es: seq<Entry>) {
    forall i, j :: 0 <= i < j < |es| ==> LeafKey(es[i]) != LeafKey(es[j])
  }

  /** Two runs of unique leaves, no leaf of one named like a leaf of the other, make one run of unique leaves. */
  lemma {:induction false} UniqueLeavesAppend(a: seq<Entry>, b: seq<Entry>)
    requires UniqueLeaves(a) && UniqueLeaves(b)
    requires forall i, j :: 0 <= i < |a| && 0 <= j < |b| ==> LeafKey(a[i]) != LeafKey(b[j])
    ensures UniqueLeaves(a + b)
  {
    forall i, j | 0 <= i < j < |a + b| ensures LeafKey((a + b)[i]) != LeafKey((a + b)[j]) {
      if j < |a| {
        assert (a + b)[i] == a[i] && (a + b)[j] == a[j];
      } else if i < |a| {
        assert (a + b)[i] == a[i] && (a + b)[j] == b[j - |a|];
      } else {
        assert (a + b)[i] == b[i - |a|] && (a + b)[j] == b[j - |a|];
      }
    }
  }

  // ---------------------------------------------------------------------
  // Department (the student mapping)
  // ---------------------------------------------------------------------

  /** The leaves of one department, in insertion order. */
  function DepartmentEntries(continent: string, country: string, university: string, faculty: string, department: string, d: Department): seq<Entry>
    decreases |d|
  {
    if |d| == 0 then []
    else DepartmentEntries(continent, country, university, faculty, department, d[..|d| - 1]) + [Entry(continent, country, university, faculty, department, d[|d| - 1].0, d[|d| - 1].1)]
  }

  /** One leaf per student. */
  function DepartmentStudentCount(d: Department): nat {
    |d|
  }

  lemma {:induction false} DepartmentEntriesCount(continent: string, country: string, university: string, faculty: string, department: string, d: Department)
    ensures |DepartmentEntries(continent, country, university, faculty, department, d)| == DepartmentStudentCount(d)
    decreases |d|
  {
    if |d| > 0 {
      DepartmentEntriesCount(continent, country, university, faculty, department, d[..|d| - 1]);
    }
  }

  /** e is a leaf of d exactly when its path ends here and its id maps to its record. */
  lemma {:induction false} DepartmentEntriesMember(continent: string, country: string, university: string, faculty: string, department: string, d: Department, e: Entry)
    ensures e in DepartmentEntries(continent, country, university, faculty, department, d) <==>
      e.continent == continent && e.country == country && e.university == university && e.faculty == faculty && e.department == department && Get(d, e.id) == Some(e.student)
    decreases |d|
  {
    if |d| > 0 {
      var init := d[..|d| - 1];
      DepartmentEntriesMember(continent, country, university, faculty, department, init, e);
      PrefixKeyFresh(d, |d| - 1);
    }
  }

  /** Student ids are keys of the department, so no two of its leaves share one. */
  lemma {:induction false} DepartmentEntriesUnique(continent: string, country: string, university: string, faculty: string, department: string, d: Department)
    ensures UniqueLeaves(DepartmentEntries(continent, country, university, faculty, department, d))
    decreases |d|
  {
    if |d| > 0 {
      var init := d[..|d| - 1];
      var before := DepartmentEntries(continent, country, university, faculty, department, init);
      var last := Entry(continent, country, university, faculty, department, d[|d| - 1].0, d[|d| - 1].1);
      DepartmentEntriesUnique(continent, country, university, faculty, department, init);
      PrefixKeyFresh(d, |d| - 1);
      forall i, j | 0 <= i < |before| && 0 <= j < 1 ensures LeafKey(before[i]) != LeafKey([last][j]) {
        DepartmentEntriesMember(continent, country, university, faculty, department, init, before[i]);
      }
      UniqueLeavesAppend(before, [last]);
    }
  }

  lemma {:induction false} DepartmentEntriesSplit(continent: string, country: string, university: string, faculty: string, department: string, d: Department, k: nat)
    requires k <= |d|
    ensures DepartmentEntries(continent, country, university, faculty, department, d) == DepartmentEntries(continent, country, university, faculty, department, d[..k]) + DepartmentEntries(continent, country, university, faculty, department, d[k..])
    decreases |d|
  {
    if k < |d| {
      var init := d[..|d| - 1];
      DepartmentEntriesSplit(continent, country, university, faculty, department, init, k);
      assert init[..k] == d[..k];
      assert d[k..][..|d[k..]| - 1] == init[k..];
    } else {
      assert d[..k] == d;
    }
  }

  /** Deleting the ids that fail a check deletes exactly the invalid leaves. */
  lemma {:induction false} DepartmentEntriesWithout(continent: string, country: string, university: string, faculty: string, department: string, d: Department, ks: set<StudentId>)
    requires forall i :: 0 <= i < |d| ==> (d[i].0 in ks <==> IsInvalid(d[i].1))
    ensures DepartmentEntries(continent, country, university, faculty, department, Without(d, ks)) == ValidOnly(DepartmentEntries(continent, country, university, faculty, department, d))
    decreases |d|
  {
    if |d| > 0 {
      var init := d[..|d| - 1];
      DepartmentEntriesWithout(continent, country, university, faculty, department, init, ks);
      var w := Without(init, ks);
      PrefixKeyFresh(d, |d| - 1);
      if d[|d| - 1].0 !in ks {
        assert Put(w, d[|d| - 1].0, d[|d| - 1].1)[..|w|] == w;
      }
      ValidOnlyAppend(DepartmentEntries(continent, country, university, faculty, department, init), [Entry(continent, country, university, faculty, department, d[|d| - 1].0, d[|d| - 1].1)]);
    }
  }

  /** The cleaning step's effect on a department's leaves. */
  lemma {:induction false} DepartmentEntriesAfter(continent: string, country: string, university: string, faculty: string, department: string, d: Department, pass: Pass)
    requires pass.Depth() >= 5
    ensures DepartmentEntries(continent, country, university, faculty, department, OnDepartment(d, pass)) == LeavesAfter(pass, DepartmentEntries(continent, country, university, faculty, department, d))
  {
    DepartmentEntriesWithout(continent, country, university, faculty, department, d, InvalidIds(d));
  }

  /** The innermost loop: `rows.append(...)` for every student of d. */
  method AppendDepartmentRows(continent: string, country: string, university: string, faculty: string, department: string, d: Department, rows: seq<Row>) returns (out: seq<Row>)
    requires AllScored(DepartmentEntries(continent, country, university, faculty, department, d))
    ensures out == rows + RowsOf(DepartmentEntries(continent, country, university, faculty, department, d))
  {
    out := rows;
    var i := 0;
    while i < |d|
      invariant 0 <= i <= |d|
      invariant AllScored(DepartmentEntries(continent, country, university, faculty, department, d[..i]))
      invariant out == rows + RowsOf(DepartmentEntries(continent, country, university, faculty, department, d[..i]))
    {
      DepartmentEntriesSplit(continent, country, university, faculty, department, d, i + 1);
      assert d[..i + 1][..i] == d[..i];
      var entry := Entry(continent, country, university, faculty, department, d[i].0, d[i].1);
      assert DepartmentEntries(continent, country, university, faculty, department, d[..i + 1]) == DepartmentEntries(continent, country, university, faculty, department, d[..i]) + [entry];
      AllScoredAppend(DepartmentEntries(continent, country, university, faculty, department, d[..i + 1]), DepartmentEntries(continent, country, university, faculty, department, d[i + 1..]));
      AllScoredAppend(DepartmentEntries(continent, country, university, faculty, department, d[..i]), [entry]);
      RowsOfAppend(DepartmentEntries(continent, country, university, faculty, department, d[..i]), [entry]);
      assert [entry][0] == entry;
      out := out + [RowOf(entry)];
      i := i + 1;
    }
    assert d[..|d|] == d;
  }

  // ---------------------------------------------------------------------
  // Faculty (depth 4)
  // ---------------------------------------------------------------------

  /** The student reached from f through the keys department and the id, if any. */
  function FacultyStudentAt(f: Faculty, department: string, id: StudentId): Option<Student> {
    match Get(f, department)
    case None => None
    case Some(child) => Get(child, id)
  }

  /** The leaves below f, mapping by mapping in insertion order. */
  function FacultyEntries(continent: string, country: string, university: string, faculty: string, f: Faculty): seq<Entry>
    decreases |f|
  {
    if |f| == 0 then []
    else FacultyEntries(continent, country, university, faculty, f[..|f| - 1]) + DepartmentEntries(continent, country, university, faculty, f[|f| - 1].0, f[|f| - 1].1)
  }

  /** The sum of the department sizes below f. */
  function FacultyStudentCount(f: Faculty): nat
    decreases |f|
  {
    if |f| == 0 then 0
    else FacultyStudentCount(f[..|f| - 1]) + DepartmentStudentCount(f[|f| - 1].1)
  }

  /** One leaf per student: as many leaves as the department sizes add up to. */
  lemma {:induction false} FacultyEntriesCount(continent: string, country: string, university: string, faculty: string, f: Faculty)
    ensures |FacultyEntries(continent, country, university, faculty, f)| == FacultyStudentCount(f)
    decreases |f|
  {
    if |f| > 0 {
      FacultyEntriesCount(continent, country, university, faculty, f[..|f| - 1]);
      DepartmentEntriesCount(continent, country, university, faculty, f[|f| - 1].0, f[|f| - 1].1);
    }
  }

  /** e is a leaf below f exactly when its path starts here and its keys lead to its record. */
  lemma {:induction false} FacultyEntriesMember(continent: string, country: string, university: string, faculty: string, f: Faculty, e: Entry)
    ensures e in FacultyEntries(continent, country, university, faculty, f) <==>
      e.continent == continent && e.country == country && e.university == university && e.faculty == faculty && FacultyStudentAt(f, e.department, e.id) == Some(e.student)
    decreases |f|
  {
    if |f| > 0 {
      var init := f[..|f| - 1];
      var last := f[|f| - 1];
      FacultyEntriesMember(continent, country, university, faculty, init, e);
      DepartmentEntriesMember(continent, country, university, faculty, last.0, last.1, e);
      PrefixKeyFresh(f, |f| - 1);
    }
  }

  /** Keys are unique in f and in every mapping below it, so no two leaves below f share their path and id. */
  lemma {:induction false} FacultyEntriesUnique(continent: string, country: string, university: string, faculty: string, f: Faculty)
    ensures UniqueLeaves(FacultyEntries(continent, country, university, faculty, f))
    decreases |f|
  {
    if |f| > 0 {
      var init := f[..|f| - 1];
      var last := f[|f| - 1];
      var before := FacultyEntries(continent, country, university, faculty, init);
      var child := DepartmentEntries(continent, country, university, faculty, last.0, last.1);
      FacultyEntriesUnique(continent, country, university, faculty, init);
      DepartmentEntriesUnique(continent, country, university, faculty, last.0, last.1);
      PrefixKeyFresh(f, |f| - 1);
      forall i, j | 0 <= i < |before| && 0 <= j < |child| ensures LeafKey(before[i]) != LeafKey(child[j]) {
        FacultyEntriesMember(continent, country, university, faculty, init, before[i]);
        DepartmentEntriesMember(continent, country, university, faculty, last.0, last.1, child[j]);
      }
      UniqueLeavesAppend(before, child);
    }
  }

  lemma {:induction false} FacultyEntriesSplit(continent: string, country: string, university: string, faculty: string, f: Faculty, k: nat)
    requires k <= |f|
    ensures FacultyEntries(continent, country, university, faculty, f) == FacultyEntries(continent, country, university, faculty, f[..k]) + FacultyEntries(continent, country, university, faculty, f[k..])
    decreases |f|
  {
    if k < |f| {
      var init := f[..|f| - 1];
      FacultyEntriesSplit(continent, country, university, faculty, init, k);
      assert init[..k] == f[..k];
      assert f[k..][..|f[k..]| - 1] == init[k..];
    } else {
      assert f[..k] == f;
    }
  }

  /** Deleting entries whose child mapping is empty loses no leaf. */
  lemma {:induction false} FacultyEntriesWithout(continent: string, country: string, university: string, faculty: string, f: Faculty, ks: set<string>)
    requires forall i :: 0 <= i < |f| && f[i].0 in ks ==> |f[i].1| == 0
    ensures FacultyEntries(continent, country, university, faculty, Without(f, ks)) == FacultyEntries(continent, country, university, faculty, f)
    decreases |f|
  {
    if |f| > 0 {
      var init := f[..|f| - 1];
      FacultyEntriesWithout(continent, country, university, faculty, init, ks);
      var w := Without(init, ks);
      PrefixKeyFresh(f, |f| - 1);
      if f[|f| - 1].0 !in ks {
        assert Put(w, f[|f| - 1].0, f[|f| - 1].1)[..|w|] == w;
      }
    }
  }

  /** Above its own depth a pass works child by child: on the last child, and on all the others. */
  lemma FacultyPassShape(f: Faculty, pass: Pass)
    requires pass.Depth() > 4 && |f| > 0
    ensures OnFaculty(f, pass)[..|f| - 1] == OnFaculty(f[..|f| - 1], pass)
    ensures OnFaculty(f, pass)[|f| - 1] == (f[|f| - 1].0, OnDepartment(f[|f| - 1].1, pass))
  {
    var r := OnFaculty(f, pass);
    var init := OnFaculty(f[..|f| - 1], pass);
    forall i | 0 <= i < |f| - 1
      ensures r[i] == init[i]
    {
      assert r[i] == (f[i].0, OnDepartment(f[i].1, pass));
    }
    assert r[..|r| - 1] == init;
  }

  /** So the leaves after such a pass are those of the other children, then those of the last. */
  lemma FacultyPassSplit(continent: string, country: string, university: string, faculty: string, f: Faculty, pass: Pass)
    requires pass.Depth() > 4 && |f| > 0
    ensures FacultyEntries(continent, country, university, faculty, OnFaculty(f, pass)) ==
      FacultyEntries(continent, country, university, faculty, OnFaculty(f[..|f| - 1], pass)) + DepartmentEntries(continent, country, university, faculty, f[|f| - 1].0, OnDepartment(f[|f| - 1].1, pass))
  {
    FacultyPassShape(f, pass);
    var r := OnFaculty(f, pass);
    assert FacultyEntries(continent, country, university, faculty, r) == FacultyEntries(continent, country, university, faculty, r[..|r| - 1]) + DepartmentEntries(continent, country, university, faculty, r[|r| - 1].0, r[|r| - 1].1);
  }

  /**
    The leaves below f after a pass: a pruning pass keeps them all, in
    order; the cleaning step keeps exactly the valid ones, in order.
  */
  lemma {:induction false} FacultyEntriesAfter(continent: string, country: string, university: string, faculty: string, f: Faculty, pass: Pass)
    requires pass.Depth() >= 4
    ensures FacultyEntries(continent, country, university, faculty, OnFaculty(f, pass)) == LeavesAfter(pass, FacultyEntries(continent, country, university, faculty, f))
    decreases |f|
  {
    if pass.Depth() == 4 {
      assert pass != Validate;
      FacultyEntriesWithout(continent, country, university, faculty, f, EmptyKeys(f));
    } else if |f| > 0 {
      var init := f[..|f| - 1];
      var last := f[|f| - 1];
      FacultyPassSplit(continent, country, university, faculty, f, pass);
      FacultyEntriesAfter(continent, country, university, faculty, init, pass);
      DepartmentEntriesAfter(continent, country, university, faculty, last.0, last.1, pass);
      var before, child := FacultyEntries(continent, country, university, faculty, init), DepartmentEntries(continent, country, university, faculty, last.0, last.1);
      assert FacultyEntries(continent, country, university, faculty, f) == before + child;
      LeavesAfterAppend(pass, before, child);
    }
  }

  /** One turn of the loop below: the rows of the first i + 1 children are those of the first i, then child i's. */
  lemma {:induction false} FacultyRowsStep(continent: string, country: string, university: string, faculty: string, f: Faculty, i: nat)
    requires i < |f| && AllScored(FacultyEntries(continent, country, university, faculty, f))
    ensures AllScored(FacultyEntries(continent, country, university, faculty, f[..i])) && AllScored(DepartmentEntries(continent, country, university, faculty, f[i].0, f[i].1))
    ensures AllScored(FacultyEntries(continent, country, university, faculty, f[..i + 1]))
    ensures RowsOf(FacultyEntries(continent, country, university, faculty, f[..i + 1]))
      == RowsOf(FacultyEntries(continent, country, university, faculty, f[..i])) + RowsOf(DepartmentEntries(continent, country, university, faculty, f[i].0, f[i].1))
  {
    var before := FacultyEntries(continent, country, university, faculty, f[..i]);
    var child := DepartmentEntries(continent, country, university, faculty, f[i].0, f[i].1);
    var after := FacultyEntries(continent, country, university, faculty, f[i + 1..]);
    assert FacultyEntries(continent, country, university, faculty, f) == FacultyEntries(continent, country, university, faculty, f[..i + 1]) + after by {
      FacultyEntriesSplit(continent, country, university, faculty, f, i + 1);
    }
    assert FacultyEntries(continent, country, university, faculty, f[..i + 1]) == before + child by {
      assert f[..i + 1][..i] == f[..i];
    }
    AllScoredAppend(before + child, after);
    AllScoredAppend(before, child);
    RowsOfAppend(before, child);
  }

  /** The flattening loop at this level: visit each child in insertion order, appending its rows. */
  method AppendFacultyRows(continent: string, country: string, university: string, faculty: string, f: Faculty, rows: seq<Row>) returns (out: seq<Row>)
    requires AllScored(FacultyEntries(continent, country, university, faculty, f))
    ensures out == rows + RowsOf(FacultyEntries(continent, country, university, faculty, f))
  {
    out := rows;
    var i := 0;
    while i < |f|
      invariant 0 <= i <= |f|
      invariant AllScored(FacultyEntries(continent, country, university, faculty, f[..i]))
      invariant out == rows + RowsOf(FacultyEntries(continent, country, university, faculty, f[..i]))
    {
      FacultyRowsStep(continent, country, university, faculty, f, i);
      out := AppendDepartmentRows(continent, country, university, faculty, f[i].0, f[i].1, out);
      i := i + 1;
    }
    assert f[..|f|] == f;
  }

  // ---------------------------------------------------------------------
  // University (depth 3)
  // ---------------------------------------------------------------------

  /** The student reached from u through the keys faculty, department and the id, if any. */
  function UniversityStudentAt(u: University, faculty: string, department: string, id: StudentId): Option<Student> {
    match Get(u, faculty)
    case None => None
    case Some(child) => FacultyStudentAt(child, department, id)
  }

  /** The leaves below u, mapping by mapping in insertion order. */
  function UniversityEntries(continent: string, country: string, university: string, u: University): seq<Entry>
    decreases |u|
  {
    if |u| == 0 then []
    else UniversityEntries(continent, country, university, u[..|u| - 1]) + FacultyEntries(continent, country, university, u[|u| - 1].0, u[|u| - 1].1)
  }

  /** The sum of the department sizes below u. */
  function UniversityStudentCount(u: University): nat
    decreases |u|
  {
    if |u| == 0 then 0
    else UniversityStudentCount(u[..|u| - 1]) + FacultyStudentCount(u[|u| - 1].1)
  }

  /** One leaf per student: as many leaves as the department sizes add up to. */
  lemma {:induction false} UniversityEntriesCount(continent: string, country: string, university: string, u: University)
    ensures |UniversityEntries(continent, country, university, u)| == UniversityStudentCount(u)
    decreases |u|
  {
    if |u| > 0 {
      UniversityEntriesCount(continent, country, university, u[..|u| - 1]);
      FacultyEntriesCount(continent, country, university, u[|u| - 1].0, u[|u| - 1].1);
    }
  }

  /** e is a leaf below u exactly when its path starts here and its keys lead to its record. */
  lemma {:induction false} UniversityEntriesMember(continent: string, country: string, university: string, u: University, e: Entry)
    ensures e in UniversityEntries(continent, country, university, u) <==>
      e.continent == continent && e.country == country && e.university == university && UniversityStudentAt(u, e.faculty, e.department, e.id) == Some(e.student)
    decreases |u|
  {
    if |u| > 0 {
      var init := u[..|u| - 1];
      var last := u[|u| - 1];
      UniversityEntriesMember(continent, country, university, init, e);
      FacultyEntriesMember(continent, country, university, last.0, last.1, e);
      PrefixKeyFresh(u, |u| - 1);
    }
  }

  /** Keys are unique in u and in every mapping below it, so no two leaves below u share their path and id. */
  lemma {:induction false} UniversityEntriesUnique(continent: string, country: string, university: string, u: University)
    ensures UniqueLeaves(UniversityEntries(continent, country, university, u))
    decreases |u|
  {
    if |u| > 0 {
      var init := u[..|u| - 1];
      var last := u[|u| - 1];
      var before := UniversityEntries(continent, country, university, init);
      var child := FacultyEntries(continent, country, university, last.0, last.1);
      UniversityEntriesUnique(continent, country, university, init);
      FacultyEntriesUnique(continent, country, university, last.0, last.1);
      PrefixKeyFresh(u, |u| - 1);
      forall i, j | 0 <= i < |before| && 0 <= j < |child| ensures LeafKey(before[i]) != LeafKey(child[j]) {
        UniversityEntriesMember(continent, country, university, init, before[i]);
        FacultyEntriesMember(continent, country, university, last.0, last.1, child[j]);
      }
      UniqueLeavesAppend(before, child);
    }
  }

  lemma {:induction false} UniversityEntriesSplit(continent: string, country: string, university: string, u: University, k: nat)
    requires k <= |u|
    ensures UniversityEntries(continent, country, university, u) == UniversityEntries(continent, country, university, u[..k]) + UniversityEntries(continent, country, university, u[k..])
    decreases |u|
  {
    if k < |u| {
      var init := u[..|u| - 1];
      UniversityEntriesSplit(continent, country, university, init, k);
      assert init[..k] == u[..k];
      assert u[k..][..|u[k..]| - 1] == init[k..];
    } else {
      assert u[..k] == u;
    }
  }

  /** Deleting entries whose child mapping is empty loses no leaf. */
  lemma {:induction false} UniversityEntriesWithout(continent: string, country: string, university: string, u: University, ks: set<string>)
    requires forall i :: 0 <= i < |u| && u[i].0 in ks ==> |u[i].1| == 0
    ensures UniversityEntries(continent, country, university, Without(u, ks)) == UniversityEntries(continent, country, university, u)
    decreases |u|
  {
    if |u| > 0 {
      var init := u[..|u| - 1];
      UniversityEntriesWithout(continent, country, university, init, ks);
      var w := Without(init, ks);
      PrefixKeyFresh(u, |u| - 1);
      if u[|u| - 1].0 !in ks {
        assert Put(w, u[|u| - 1].0, u[|u| - 1].1)[..|w|] == w;
      }
    }
  }

  /** Above its own depth a pass works child by child: on the last child, and on all the others. */
  lemma UniversityPassShape(u: University, pass: Pass)
    requires pass.Depth() > 3 && |u| > 0
    ensures OnUniversity(u, pass)[..|u| - 1] == OnUniversity(u[..|u| - 1], pass)
    ensures OnUniversity(u, pass)[|u| - 1] == (u[|u| - 1].0, OnFaculty(u[|u| - 1].1, pass))
  {
    var r := OnUniversity(u, pass);
    var init := OnUniversity(u[..|u| - 1], pass);
    forall i | 0 <= i < |u| - 1
      ensures r[i] == init[i]
    {
      assert r[i] == (u[i].0, OnFaculty(u[i].1, pass));
    }
    assert r[..|r| - 1] == init;
  }

  /** So the leaves after such a pass are those of the other children, then those of the last. */
  lemma UniversityPassSplit(continent: string, country: string, university: string, u: University, pass: Pass)
    requires pass.Depth() > 3 && |u| > 0
    ensures UniversityEntries(continent, country, university, OnUniversity(u, pass)) ==
      UniversityEntries(continent, country, university, OnUniversity(u[..|u| - 1], pass)) + FacultyEntries(continent, country, university, u[|u| - 1].0, OnFaculty(u[|u| - 1].1, pass))
  {
    UniversityPassShape(u, pass);
    var r := OnUniversity(u, pass);
    assert UniversityEntries(continent, country, university, r) == UniversityEntries(continent, country, university, r[..|r| - 1]) + FacultyEntries(continent, country, university, r[|r| - 1].0, r[|r| - 1].1);
  }

  /**
    The leaves below u after a pass: a pruning pass keeps them all, in
    order; the cleaning step keeps exactly the valid ones, in order.
  */
  lemma {:induction false} UniversityEntriesAfter(continent: string, country: string, university: string, u: University, pass: Pass)
    requires pass.Depth() >= 3
    ensures UniversityEntries(continent, country, university, OnUniversity(u, pass)) == LeavesAfter(pass, UniversityEntries(continent, country, university, u))
    decreases |u|
  {
    if pass.Depth() == 3 {
      assert pass != Validate;
      UniversityEntriesWithout(continent, country, university, u, EmptyKeys(u));
    } else if |u| > 0 {
      var init := u[..|u| - 1];
      var last := u[|u| - 1];
      UniversityPassSplit(continent, country, university, u, pass);
      UniversityEntriesAfter(continent, country, university, init, pass);
      FacultyEntriesAfter(continent, country, university, last.0, last.1, pass);
      var before, child := UniversityEntries(continent, country, university, init), FacultyEntries(continent, country, university, last.0, last.1);
      assert UniversityEntries(continent, country, university, u) == before + child;
      LeavesAfterAppend(pass, before, child);
    }
  }

  /** One turn of the loop below: the rows of the first i + 1 children are those of the first i, then child i's. */
  lemma {:induction false} UniversityRowsStep(continent: string, country: string, university: string, u: University, i: nat)
    requires i < |u| && AllScored(UniversityEntries(continent, country, university, u))
    ensures AllScored(UniversityEntries(continent, country, university, u[..i])) && AllScored(FacultyEntries(continent, country, university, u[i].0, u[i].1))
    ensures AllScored(UniversityEntries(continent, country, university, u[..i + 1]))
    ensures RowsOf(UniversityEntries(continent, country, university, u[..i + 1]))
      == RowsOf(UniversityEntries(continent, country, university, u[..i])) + RowsOf(FacultyEntries(continent, country, university, u[i].0, u[i].1))
  {
    var before := UniversityEntries(continent, country, university, u[..i]);
    var child := FacultyEntries(continent, country, university, u[i].0, u[i].1);
    var after := UniversityEntries(continent, country, university, u[i + 1..]);
    assert UniversityEntries(continent, country, university, u) == UniversityEntries(continent, country, university, u[..i + 1]) + after by {
      UniversityEntriesSplit(continent, country, university, u, i + 1);
    }
    assert UniversityEntries(continent, country, university, u[..i + 1]) == before + child by {
      assert u[..i + 1][..i] == u[..i];
    }
    AllScoredAppend(before + child, after);
    AllScoredAppend(before, child);
    RowsOfAppend(before, child);
  }

  /** The flattening loop at this level: visit each child in insertion order, appending its rows. */
  method AppendUniversityRows(continent: string, country: string, university: string, u: University, rows: seq<Row>) returns (out: seq<Row>)
    requires AllScored(UniversityEntries(continent, country, university, u))
    ensures out == rows + RowsOf(UniversityEntries(continent, country, university, u))
  {
    out := rows;
    var i := 0;
    while i < |u|
      invariant 0 <= i <= |u|
      invariant AllScored(UniversityEntries(continent, country, university, u[..i]))
      invariant out == rows + RowsOf(UniversityEntries(continent, country, university, u[..i]))
    {
      UniversityRowsStep(continent, country, university, u, i);
      out := AppendFacultyRows(continent, country, university, u[i].0, u[i].1, out);
      i := i + 1;
    }
    assert u[..|u|] == u;
  }

  // ---------------------------------------------------------------------
  // Country (depth 2)
  // ---------------------------------------------------------------------

  /** The student reached from n through the keys university, faculty, department and the id, if any. */
  function CountryStudentAt(n: Country, university: string, faculty: string, department: string, id: StudentId): Option<Student> {
    match Get(n, university)
    case None => None
    case Some(child) => UniversityStudentAt(child, faculty, department, id)
  }

  /** The leaves below n, mapping by mapping in insertion order. */
  function CountryEntries(continent: string, country: string, n: Country): seq<Entry>
    decreases |n|
  {
    if |n| == 0 then []
    else CountryEntries(continent, country, n[..|n| - 1]) + UniversityEntries(continent, country, n[|n| - 1].0, n[|n| - 1].1)
  }

  /** The sum of the department sizes below n. */
  function CountryStudentCount(n: Country): nat
    decreases |n|
  {
    if |n| == 0 then 0
    else CountryStudentCount(n[..|n| - 1]) + UniversityStudentCount(n[|n| - 1].1)
  }

  /** One leaf per student: as many leaves as the department sizes add up to. */
  lemma {:induction false} CountryEntriesCount(continent: string, country: string, n: Country)
    ensures |CountryEntries(continent, country, n)| == CountryStudentCount(n)
    decreases |n|
  {
    if |n| > 0 {
      CountryEntriesCount(continent, country, n[..|n| - 1]);
      UniversityEntriesCount(continent, country, n[|n| - 1].0, n[|n| - 1].1);
    }
  }

  /** e is a leaf below n exactly when its path starts here and its keys lead to its record. */
  lemma {:induction false} CountryEntriesMember(continent: string, country: string, n: Country, e: Entry)
    ensures e in CountryEntries(continent, country, n) <==>
      e.continent == continent && e.country == country && CountryStudentAt(n, e.university, e.faculty, e.department, e.id) == Some(e.student)
    decreases |n|
  {
    if |n| > 0 {
      var init := n[..|n| - 1];
      var last := n[|n| - 1];
      CountryEntriesMember(continent, country, init, e);
      UniversityEntriesMember(continent, country, last.0, last.1, e);
      PrefixKeyFresh(n, |n| - 1);
    }
  }

  /** Keys are unique in n and in every mapping below it, so no two leaves below n share their path and id. */
  lemma {:induction false} CountryEntriesUnique(continent: string, country: string, n: Country)
    ensures UniqueLeaves(CountryEntries(continent, country, n))
    decreases |n|
  {
    if |n| > 0 {
      var init := n[..|n| - 1];
      var last := n[|n| - 1];
      var before := CountryEntries(continent, country, init);
      var child := UniversityEntries(continent, country, last.0, last.1);
      CountryEntriesUnique(continent, country, init);
      UniversityEntriesUnique(continent, country, last.0, last.1);
      PrefixKeyFresh(n, |n| - 1);
      forall i, j | 0 <= i < |before| && 0 <= j < |child| ensures LeafKey(before[i]) != LeafKey(child[j]) {
        CountryEntriesMember(continent, country, init, before[i]);
        UniversityEntriesMember(continent, country, last.0, last.1, child[j]);
      }
      UniqueLeavesAppend(before, child);
    }
  }

  lemma {:induction false} CountryEntriesSplit(continent: string, country: string, n: Country, k: nat)
    requires k <= |n|
    ensures CountryEntries(continent, country, n) == CountryEntries(continent, country, n[..k]) + CountryEntries(continent, country, n[k..])
    decreases |n|
  {
    if k < |n| {
      var init := n[..|n| - 1];
      CountryEntriesSplit(continent, country, init, k);
      assert init[..k] == n[..k];
      assert n[k..][..|n[k..]| - 1] == init[k..];
    } else {
      assert n[..k] == n;
    }
  }

  /** Deleting entries whose child mapping is empty loses no leaf. */
  lemma {:induction false} CountryEntriesWithout(continent: string, country: string, n: Country, ks: set<string>)
    requires forall i :: 0 <= i < |n| && n[i].0 in ks ==> |n[i].1| == 0
    ensures CountryEntries(continent, country, Without(n, ks)) == CountryEntries(continent, country, n)
    decreases |n|
  {
    if |n| > 0 {
      var init := n[..|n| - 1];
      CountryEntriesWithout(continent, country, init, ks);
      var w := Without(init, ks);
      PrefixKeyFresh(n, |n| - 1);
      if n[|n| - 1].0 !in ks {
        assert Put(w, n[|n| - 1].0, n[|n| - 1].1)[..|w|] == w;
      }
    }
  }

  /** Above its own depth a pass works child by child: on the last child, and on all the others. */
  lemma CountryPassShape(n: Country, pass: Pass)
    requires pass.Depth() > 2 && |n| > 0
    ensures OnCountry(n, pass)[..|n| - 1] == OnCountry(n[..|n| - 1], pass)
    ensures OnCountry(n, pass)[|n| - 1] == (n[|n| - 1].0, OnUniversity(n[|n| - 1].1, pass))
  {
    var r := OnCountry(n, pass);
    var init := OnCountry(n[..|n| - 1], pass);
    forall i | 0 <= i < |n| - 1
      ensures r[i] == init[i]
    {
      assert r[i] == (n[i].0, OnUniversity(n[i].1, pass));
    }
    assert r[..|r| - 1] == init;
  }

  /** So the leaves after such a pass are those of the other children, then those of the last. */
  lemma CountryPassSplit(continent: string, country: string, n: Country, pass: Pass)
    requires pass.Depth() > 2 && |n| > 0
    ensures CountryEntries(continent, country, OnCountry(n, pass)) ==
      CountryEntries(continent, country, OnCountry(n[..|n| - 1], pass)) + UniversityEntries(continent, country, n[|n| - 1].0, OnUniversity(n[|n| - 1].1, pass))
  {
    CountryPassShape(n, pass);
    var r := OnCountry(n, pass);
    assert CountryEntries(continent, country, r) == CountryEntries(continent, country, r[..|r| - 1]) + UniversityEntries(continent, country, r[|r| - 1].0, r[|r| - 1].1);
  }

  /**
    The leaves below n after a pass: a pruning pass keeps them all, in
    order; the cleaning step keeps exactly the valid ones, in order.
  */
  lemma {:induction false} CountryEntriesAfter(continent: string, country: string, n: Country, pass: Pass)
    requires pass.Depth() >= 2
    ensures CountryEntries(continent, country, OnCountry(n, pass)) == LeavesAfter(pass, CountryEntries(continent, country, n))
    decreases |n|
  {
    if pass.Depth() == 2 {
      assert pass != Validate;
      CountryEntriesWithout(continent, country, n, EmptyKeys(n));
    } else if |n| > 0 {
      var init := n[..|n| - 1];
      var last := n[|n| - 1];
      CountryPassSplit(continent, country, n, pass);
      CountryEntriesAfter(continent, country, init, pass);
      UniversityEntriesAfter(continent, country, last.0, last.1, pass);
      var before, child := CountryEntries(continent, country, init), UniversityEntries(continent, country, last.0, last.1);
      assert CountryEntries(continent, country, n) == before + child;
      LeavesAfterAppend(pass, before, child);
    }
  }

  /** One turn of the loop below: the rows of the first i + 1 children are those of the first i, then child i's. */
  lemma {:induction false} CountryRowsStep(continent: string, country: string, n: Country, i: nat)
    requires i < |n| && AllScored(CountryEntries(continent, country, n))
    ensures AllScored(CountryEntries(continent, country, n[..i])) && AllScored(UniversityEntries(continent, country, n[i].0, n[i].1))
    ensures AllScored(CountryEntries(continent, country, n[..i + 1]))
    ensures RowsOf(CountryEntries(continent, country, n[..i + 1]))
      == RowsOf(CountryEntries(continent, country, n[..i])) + RowsOf(UniversityEntries(continent, country, n[i].0, n[i].1))
  {
    var before := CountryEntries(continent, country, n[..i]);
    var child := UniversityEntries(continent, country, n[i].0, n[i].1);
    var after := CountryEntries(continent, country, n[i + 1..]);
    assert CountryEntries(continent, country, n) == CountryEntries(continent, country, n[..i + 1]) + after by {
      CountryEntriesSplit(continent, country, n, i + 1);
    }
    assert CountryEntries(continent, country, n[..i + 1]) == before + child by {
      assert n[..i + 1][..i] == n[..i];
    }
    AllScoredAppend(before + child, after);
    AllScoredAppend(before, child);
    RowsOfAppend(before, child);
  }

  /** The flattening loop at this level: visit each child in insertion order, appending its rows. */
  method AppendCountryRows(continent: string, country: string, n: Country, rows: seq<Row>) returns (out: seq<Row>)
    requires AllScored(CountryEntries(continent, country, n))
    ensures out == rows + RowsOf(CountryEntries(continent, country, n))
  {
    out := rows;
    var i := 0;
    while i < |n|
      invariant 0 <= i <= |n|
      invariant AllScored(CountryEntries(continent, country, n[..i]))
      invariant out == rows + RowsOf(CountryEntries(continent, country, n[..i]))
    {
      CountryRowsStep(continent, country, n, i);
      out := AppendUniversityRows(continent, country, n[i].0, n[i].1, out);
      i := i + 1;
    }
    assert n[..|n|] == n;
  }

  // ---------------------------------------------------------------------
  // Continent (depth 1)
  // ---------------------------------------------------------------------

  /** The student reached from c through the keys country, university, faculty, department and the id, if any. */
  function ContinentStudentAt(c: Continent, country: string, university: string, faculty: string, department: string, id: StudentId): Option<Student> {
    match Get(c, country)
    case None => None
    case Some(child) => CountryStudentAt(child, university, faculty, department, id)
  }

  /** The leaves below c, mapping by mapping in insertion order. */
  function ContinentEntries(continent: string, c: Continent): seq<Entry>
    decreases |c|
  {
    if |c| == 0 then []
    else ContinentEntries(continent, c[..|c| - 1]) + CountryEntries(continent, c[|c| - 1].0, c[|c| - 1].1)
  }

  /** The sum of the department sizes below c. */
  function ContinentStudentCount(c: Continent): nat
    decreases |c|
  {
    if |c| == 0 then 0
    else ContinentStudentCount(c[..|c| - 1]) + CountryStudentCount(c[|c| - 1].1)
  }

  /** One leaf per student: as many leaves as the department sizes add up to. */
  lemma {:induction false} ContinentEntriesCount(continent: string, c: Continent)
    ensures |ContinentEntries(continent, c)| == ContinentStudentCount(c)
    decreases |c|
  {
    if |c| > 0 {
      ContinentEntriesCount(continent, c[..|c| - 1]);
      CountryEntriesCount(continent, c[|c| - 1].0, c[|c| - 1].1);
    }
  }

  /** e is a leaf below c exactly when its path starts here and its keys lead to its record. */
  lemma {:induction false} ContinentEntriesMember(continent: string, c: Continent, e: Entry)
    ensures e in ContinentEntries(continent, c) <==>
      e.continent == continent && ContinentStudentAt(c, e.country, e.university, e.faculty, e.department, e.id) == Some(e.student)
    decreases |c|
  {
    if |c| > 0 {
      var init := c[..|c| - 1];
      var last := c[|c| - 1];
      ContinentEntriesMember(continent, init, e);
      CountryEntriesMember(continent, last.0, last.1, e);
      PrefixKeyFresh(c, |c| - 1);
    }
  }

  /** Keys are unique in c and in every mapping below it, so no two leaves below c share their path and id. */
  lemma {:induction false} ContinentEntriesUnique(continent: string, c: Continent)
    ensures UniqueLeaves(ContinentEntries(continent, c))
    decreases |c|
  {
    if |c| > 0 {
      var init := c[..|c| - 1];
      var last := c[|c| - 1];
      var before := ContinentEntries(continent, init);
      var child := CountryEntries(continent, last.0, last.1);
      ContinentEntriesUnique(continent, init);
      CountryEntriesUnique(continent, last.0, last.1);
      PrefixKeyFresh(c, |c| - 1);
      forall i, j | 0 <= i < |before| && 0 <= j < |child| ensures LeafKey(before[i]) != LeafKey(child[j]) {
        ContinentEntriesMember(continent, init, before[i]);
        CountryEntriesMember(continent, last.0, last.1, child[j]);
      }
      UniqueLeavesAppend(before, child);
    }
  }

  lemma {:induction false} ContinentEntriesSplit(continent: string, c: Continent, k: nat)
    requires k <= |c|
    ensures ContinentEntries(continent, c) == ContinentEntries(continent, c[..k]) + ContinentEntries(continent, c[k..])
    decreases |c|
  {
    if k < |c| {
      var init := c[..|c| - 1];
      ContinentEntriesSplit(continent, init, k);
      assert init[..k] == c[..k];
      assert c[k..][..|c[k..]| - 1] == init[k..];
    } else {
      assert c[..k] == c;
    }
  }

  /** Deleting entries whose child mapping is empty loses no leaf. */
  lemma {:induction false} ContinentEntriesWithout(continent: string, c: Continent, ks: set<string>)
    requires forall i :: 0 <= i < |c| && c[i].0 in ks ==> |c[i].1| == 0
    ensures ContinentEntries(continent, Without(c, ks)) == ContinentEntries(continent, c)
    decreases |c|
  {
    if |c| > 0 {
      var init := c[..|c| - 1];
      ContinentEntriesWithout(continent, init, ks);
      var w := Without(init, ks);
      PrefixKeyFresh(c, |c| - 1);
      if c[|c| - 1].0 !in ks {
        assert Put(w, c[|c| - 1].0, c[|c| - 1].1)[..|w|] == w;
      }
    }
  }

  /** Above its own depth a pass works child by child: on the last child, and on all the others. */
  lemma ContinentPassShape(c: Continent, pass: Pass)
    requires pass.Depth() > 1 && |c| > 0
    ensures OnContinent(c, pass)[..|c| - 1] == OnContinent(c[..|c| - 1], pass)
    ensures OnContinent(c, pass)[|c| - 1] == (c[|c| - 1].0, OnCountry(c[|c| - 1].1, pass))
  {
    var r := OnContinent(c, pass);
    var init := OnContinent(c[..|c| - 1], pass);
    forall i | 0 <= i < |c| - 1
      ensures r[i] == init[i]
    {
      assert r[i] == (c[i].0, OnCountry(c[i].1, pass));
    }
    assert r[..|r| - 1] == init;
  }

  /** So the leaves after such a pass are those of the other children, then those of the last. */
  lemma ContinentPassSplit(continent: string, c: Continent, pass: Pass)
    requires pass.Depth() > 1 && |c| > 0
    ensures ContinentEntries(continent, OnContinent(c, pass)) ==
      ContinentEntries(continent, OnContinent(c[..|c| - 1], pass)) + CountryEntries(continent, c[|c| - 1].0, OnCountry(c[|c| - 1].1, pass))
  {
    ContinentPassShape(c, pass);
    var r := OnContinent(c, pass);
    assert ContinentEntries(continent, r) == ContinentEntries(continent, r[..|r| - 1]) + CountryEntries(continent, r[|r| - 1].0, r[|r| - 1].1);
  }

  /**
    The leaves below c after a pass: a pruning pass keeps them all, in
    order; the cleaning step keeps exactly the valid ones, in order.
  */
  lemma {:induction false} ContinentEntriesAfter(continent: string, c: Continent, pass: Pass)
    requires pass.Depth() >= 1
    ensures ContinentEntries(continent, OnContinent(c, pass)) == LeavesAfter(pass, ContinentEntries(continent, c))
    decreases |c|
  {
    if pass.Depth() == 1 {
      assert pass != Validate;
      ContinentEntriesWithout(continent, c, EmptyKeys(c));
    } else if |c| > 0 {
      var init := c[..|c| - 1];
      var last := c[|c| - 1];
      ContinentPassSplit(continent, c, pass);
      ContinentEntriesAfter(continent, init, pass);
      CountryEntriesAfter(continent, last.0, last.1, pass);
      var before, child := ContinentEntries(continent, init), CountryEntries(continent, last.0, last.1);
      assert ContinentEntries(continent, c) == before + child;
      LeavesAfterAppend(pass, before, child);
    }
  }

  /** One turn of the loop below: the rows of the first i + 1 children are those of the first i, then child i's. */
  lemma {:induction false} ContinentRowsStep(continent: string, c: Continent, i: nat)
    requires i < |c| && AllScored(ContinentEntries(continent, c))
    ensures AllScored(ContinentEntries(continent, c[..i])) && AllScored(CountryEntries(continent, c[i].0, c[i].1))
    ensures AllScored(ContinentEntries(continent, c[..i + 1]))
    ensures RowsOf(ContinentEntries(continent, c[..i + 1]))
      == RowsOf(ContinentEntries(continent, c[..i])) + RowsOf(CountryEntries(continent, c[i].0, c[i].1))
  {
    var before := ContinentEntries(continent, c[..i]);
    var child := CountryEntries(continent, c[i].0, c[i].1);
    var after := ContinentEntries(continent, c[i + 1..]);
    assert ContinentEntries(continent, c) == ContinentEntries(continent, c[..i + 1]) + after by {
      ContinentEntriesSplit(continent, c, i + 1);
    }
    assert ContinentEntries(continent, c[..i + 1]) == before + child by {
      assert c[..i + 1][..i] == c[..i];
    }
    AllScoredAppend(before + child, after);
    AllScoredAppend(before, child);
    RowsOfAppend(before, child);
  }

  /** The flattening loop at this level: visit each child in insertion order, appending its rows. */
  method AppendContinentRows(continent: string, c: Continent, rows: seq<Row>) returns (out: seq<Row>)
    requires AllScored(ContinentEntries(continent, c))
    ensures out == rows + RowsOf(ContinentEntries(continent, c))
  {
    out := rows;
    var i := 0;
    while i < |c|
      invariant 0 <= i <= |c|
      invariant AllScored(ContinentEntries(continent, c[..i]))
      invariant out == rows + RowsOf(ContinentEntries(continent, c[..i]))
    {
      ContinentRowsStep(continent, c, i);
      out := AppendCountryRows(continent, c[i].0, c[i].1, out);
      i := i + 1;
    }
    assert c[..|c|] == c;
  }

  // ---------------------------------------------------------------------
  // Continents (depth 0)
  // ---------------------------------------------------------------------

  /** The student reached from s through the keys continent, country, university, faculty, department and the id, if any. */
  function StudentAt(s: Continents, continent: string, country: string, university: string, faculty: string, department: string, id: StudentId): Option<Student> {
    match Get(s, continent)
    case None => None
    case Some(child) => ContinentStudentAt(child, country, university, faculty, department, id)
  }

  /** The leaves below s, mapping by mapping in insertion order. */
  function ContinentsEntries(s: Continents): seq<Entry>
    decreases |s|
  {
    if |s| == 0 then []
    else ContinentsEntries(s[..|s| - 1]) + ContinentEntries(s[|s| - 1].0, s[|s| - 1].1)
  }

  /** The sum of the department sizes below s. */
  function ContinentsStudentCount(s: Continents): nat
    decreases |s|
  {
    if |s| == 0 then 0
    else ContinentsStudentCount(s[..|s| - 1]) + ContinentStudentCount(s[|s| - 1].1)
  }

  /** One leaf per student: as many leaves as the department sizes add up to. */
  lemma {:induction false} ContinentsEntriesCount(s: Continents)
    ensures |ContinentsEntries(s)| == ContinentsStudentCount(s)
    decreases |s|
  {
    if |s| > 0 {
      ContinentsEntriesCount(s[..|s| - 1]);
      ContinentEntriesCount(s[|s| - 1].0, s[|s| - 1].1);
    }
  }

  /** e is a leaf below s exactly when its path starts here and its keys lead to its record. */
  lemma {:induction false} ContinentsEntriesMember(s: Continents, e: Entry)
    ensures e in ContinentsEntries(s) <==>
      StudentAt(s, e.continent, e.country, e.university, e.faculty, e.department, e.id) == Some(e.student)
    decreases |s|
  {
    if |s| > 0 {
      var init := s[..|s| - 1];
      var last := s[|s| - 1];
      ContinentsEntriesMember(init, e);
      ContinentEntriesMember(last.0, last.1, e);
      PrefixKeyFresh(s, |s| - 1);
    }
  }

  /** Keys are unique in s and in every mapping below it, so no two leaves below s share their path and id. */
  lemma {:induction false} ContinentsEntriesUnique(s: Continents)
    ensures UniqueLeaves(ContinentsEntries(s))
    decreases |s|
  {
    if |s| > 0 {
      var init := s[..|s| - 1];
      var last := s[|s| - 1];
      var before := ContinentsEntries(init);
      var child := ContinentEntries(last.0, last.1);
      ContinentsEntriesUnique(init);
      ContinentEntriesUnique(last.0, last.1);
      PrefixKeyFresh(s, |s| - 1);
      forall i, j | 0 <= i < |before| && 0 <= j < |child| ensures LeafKey(before[i]) != LeafKey(child[j]) {
        ContinentsEntriesMember(init, before[i]);
        ContinentEntriesMember(last.0, last.1, child[j]);
      }
      UniqueLeavesAppend(before, child);
    }
  }

  lemma {:induction false} ContinentsEntriesSplit(s: Continents, k: nat)
    requires k <= |s|
    ensures ContinentsEntries(s) == ContinentsEntries(s[..k]) + ContinentsEntries(s[k..])
    decreases |s|
  {
    if k < |s| {
      var init := s[..|s| - 1];
      ContinentsEntriesSplit(init, k);
      assert init[..k] == s[..k];
      assert s[k..][..|s[k..]| - 1] == init[k..];
    } else {
      assert s[..k] == s;
    }
  }

  /** Deleting entries whose child mapping is empty loses no leaf. */
  lemma {:induction false} ContinentsEntriesWithout(s: Continents, ks: set<string>)
    requires forall i :: 0 <= i < |s| && s[i].0 in ks ==> |s[i].1| == 0
    ensures ContinentsEntries(Without(s, ks)) == ContinentsEntries(s)
    decreases |s|
  {
    if |s| > 0 {
      var init := s[..|s| - 1];
      ContinentsEntriesWithout(init, ks);
      var w := Without(init, ks);
      PrefixKeyFresh(s, |s| - 1);
      if s[|s| - 1].0 !in ks {
        assert Put(w, s[|s| - 1].0, s[|s| - 1].1)[..|w|] == w;
      }
    }
  }

  /** Above its own depth a pass works child by child: on the last child, and on all the others. */
  lemma ContinentsPassShape(s: Continents, pass: Pass)
    requires pass.Depth() > 0 && |s| > 0
    ensures OnContinents(s, pass)[..|s| - 1] == OnContinents(s[..|s| - 1], pass)
    ensures OnContinents(s, pass)[|s| - 1] == (s[|s| - 1].0, OnContinent(s[|s| - 1].1, pass))
  {
    var r := OnContinents(s, pass);
    var init := OnContinents(s[..|s| - 1], pass);
    forall i | 0 <= i < |s| - 1
      ensures r[i] == init[i]
    {
      assert r[i] == (s[i].0, OnContinent(s[i].1, pass));
    }
    assert r[..|r| - 1] == init;
  }

  /** So the leaves after such a pass are those of the other children, then those of the last. */
  lemma ContinentsPassSplit(s: Continents, pass: Pass)
    requires pass.Depth() > 0 && |s| > 0
    ensures ContinentsEntries(OnContinents(s, pass)) ==
      ContinentsEntries(OnContinents(s[..|s| - 1], pass)) + ContinentEntries(s[|s| - 1].0, OnContinent(s[|s| - 1].1, pass))
  {
    ContinentsPassShape(s, pass);
    var r := OnContinents(s, pass);
    assert ContinentsEntries(r) == ContinentsEntries(r[..|r| - 1]) + ContinentEntries(r[|r| - 1].0, r[|r| - 1].1);
  }

  /**
    The leaves below s after a pass: a pruning pass keeps them all, in
    order; the cleaning step keeps exactly the valid ones, in order.
  */
  lemma {:induction false} ContinentsEntriesAfter(s: Continents, pass: Pass)
    requires pass.Depth() >= 0
    ensures ContinentsEntries(OnContinents(s, pass)) == LeavesAfter(pass, ContinentsEntries(s))
    decreases |s|
  {
    if pass.Depth() == 0 {
      assert pass != Validate;
      ContinentsEntriesWithout(s, EmptyKeys(s));
    } else if |s| > 0 {
      var init := s[..|s| - 1];
      var last := s[|s| - 1];
      ContinentsPassSplit(s, pass);
      ContinentsEntriesAfter(init, pass);
      ContinentEntriesAfter(last.0, last.1, pass);
      var before, child := ContinentsEntries(init), ContinentEntries(last.0, last.1);
      assert ContinentsEntries(s) == before + child;
      LeavesAfterAppend(pass, before, child);
    }
  }

  /** One turn of the loop below: the rows of the first i + 1 children are those of the first i, then child i's. */
  lemma {:induction false} ContinentsRowsStep(s: Continents, i: nat)
    requires i < |s| && AllScored(ContinentsEntries(s))
    ensures AllScored(ContinentsEntries(s[..i])) && AllScored(ContinentEntries(s[i].0, s[i].1))
    ensures AllScored(ContinentsEntries(s[..i + 1]))
    ensures RowsOf(ContinentsEntries(s[..i + 1]))
      == RowsOf(ContinentsEntries(s[..i])) + RowsOf(ContinentEntries(s[i].0, s[i].1))
  {
    var before := ContinentsEntries(s[..i]);
    var child := ContinentEntries(s[i].0, s[i].1);
    var after := ContinentsEntries(s[i + 1..]);
    assert ContinentsEntries(s) == ContinentsEntries(s[..i + 1]) + after by {
      ContinentsEntriesSplit(s, i + 1);
    }
    assert ContinentsEntries(s[..i + 1]) == before + child by {
      assert s[..i + 1][..i] == s[..i];
    }
    AllScoredAppend(before + child, after);
    AllScoredAppend(before, child);
    RowsOfAppend(before, child);
  }

  /** The flattening loop at this level: visit each child in insertion order, appending its rows. */
  method AppendContinentsRows(s: Continents, rows: seq<Row>) returns (out: seq<Row>)
    requires AllScored(ContinentsEntries(s))
    ensures out == rows + RowsOf(ContinentsEntries(s))
  {
    out := rows;
    var i := 0;
    while i < |s|
      invariant 0 <= i <= |s|
      invariant AllScored(ContinentsEntries(s[..i]))
      invariant out == rows + RowsOf(ContinentsEntries(s[..i]))
    {
      ContinentsRowsStep(s, i);
      out := AppendContinentRows(s[i].0, s[i].1, out);
      i := i + 1;
    }
    assert s[..|s|] == s;
  }
}
