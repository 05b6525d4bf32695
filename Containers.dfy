/**
  Which containers (continent, country, university, faculty and department
  mappings) a tree holds, and how pruning decides which of them survive:
  exactly those with at least one student somewhere below them.
*/
module Containers {
  import opened Wrappers
  import opened Dicts
  import opened Hierarchy
  import opened Passes
  import opened Flattening
  import opened Pipeline

  /** The keys from the root down to e's department. */
  function PathOf(e: Entry): (p: seq<string>)
    ensures |p| == 5
  {
    [e.continent, e.country, e.university, e.faculty, e.department]
  }

  /** Some leaf lies in the container at `path` or below it. */
  predicate Occupied(es: seq<Entry>, path: seq<string>) {
    exists i :: 0 <= i < |es| && path <= PathOf(es[i])
  }

  // Looking a container up by the keys leading to it, level by level.

  predicate FacultyHas(f: Faculty, path: seq<string>)
    requires |path| == 1
  {
    Get(f, path[0]).Some?
  }

  predicate UniversityHas(u: University, path: seq<string>)
    requires 1 <= |path| <= 2
  {
    match Get(u, path[0])
    case None => false
    case Some(f) => |path| == 1 || FacultyHas(f, path[1..])
  }

  predicate CountryHas(n: Country, path: seq<string>)
    requires 1 <= |path| <= 3
  {
    match Get(n, path[0])
    case None => false
    case Some(u) => |path| == 1 || UniversityHas(u, path[1..])
  }

  predicate ContinentHas(c: Continent, path: seq<string>)
    requires 1 <= |path| <= 4
  {
    match Get(c, path[0])
    case None => false
    case Some(n) => |path| == 1 || CountryHas(n, path[1..])
  }

  /** The tree holds a continent (1 key), country (2), university (3), faculty (4) or department (5) at `path`. */
  predicate ContainerAt(s: Continents, path: seq<string>)
    requires 1 <= |path| <= 5
  {
    match Get(s, path[0])
    case None => false
    case Some(c) => |path| == 1 || ContinentHas(c, path[1..])
  }

  // ---------------------------------------------------------------------
  // A student's record keeps every container on its path
  // ---------------------------------------------------------------------

  lemma UniversityReaches(u: University, faculty: string, department: string, id: StudentId, path: seq<string>)
    requires UniversityStudentAt(u, faculty, department, id).Some?
    requires 1 <= |path| <= 2 && path <= [faculty, department]
    ensures UniversityHas(u, path)
  {
    assert path[0] == faculty;
    if |path| == 2 {
      assert path[1..] == [department];
    }
  }

  lemma CountryReaches(n: Country, university: string, faculty: string, department: string, id: StudentId, path: seq<string>)
    requires CountryStudentAt(n, university, faculty, department, id).Some?
    requires 1 <= |path| <= 3 && path <= [university, faculty, department]
    ensures CountryHas(n, path)
  {
    assert path[0] == university;
    if |path| > 1 {
      assert path[1..] <= [faculty, department];
      UniversityReaches(Get(n, university).value, faculty, department, id, path[1..]);
    }
  }

  lemma ContinentReaches(c: Continent, country: string, university: string, faculty: string, department: string,
                         id: StudentId, path: seq<string>)
    requires ContinentStudentAt(c, country, university, faculty, department, id).Some?
    requires 1 <= |path| <= 4 && path <= [country, university, faculty, department]
    ensures ContinentHas(c, path)
  {
    assert path[0] == country;
    if |path| > 1 {
      assert path[1..] <= [university, faculty, department];
      CountryReaches(Get(c, country).value, university, faculty, department, id, path[1..]);
    }
  }

  /** Every container on the path of a leaf is in the tree. */
  lemma OccupiedIsContainer(s: Continents, path: seq<string>)
    requires 1 <= |path| <= 5 && Occupied(ContinentsEntries(s), path)
    ensures ContainerAt(s, path)
  {
    var es := ContinentsEntries(s);
    var i :| 0 <= i < |es| && path <= PathOf(es[i]);
    var e := es[i];
    ContinentsEntriesMember(s, e);
    assert path[0] == e.continent;
    if |path| > 1 {
      assert path[1..] <= [e.country, e.university, e.faculty, e.department];
      ContinentReaches(Get(s, e.continent).value, e.country, e.university, e.faculty, e.department, e.id, path[1..]);
    }
  }

  // ---------------------------------------------------------------------
  // Without empty containers, every container has a student below it
  // ---------------------------------------------------------------------

  lemma FacultyLeafBelow(continent: string, country: string, university: string, faculty: string, f: Faculty,
                         path: seq<string>) returns (e: Entry)
    requires |path| == 1 && FacultyHas(f, path)
    requires FacultySettled(f, PruneDepartments)
    ensures e in FacultyEntries(continent, country, university, faculty, f) && path <= PathOf(e)[4..]
  {
    var d := Get(f, path[0]).value;
    var i := GetIndex(f, path[0]);
    assert |d| > 0;
    e := Entry(continent, country, university, faculty, path[0], d[0].0, d[0].1);
    FacultyEntriesMember(continent, country, university, faculty, f, e);
  }

  lemma UniversityLeafBelow(continent: string, country: string, university: string, u: University,
                            path: seq<string>) returns (e: Entry)
    requires 1 <= |path| <= 2 && UniversityHas(u, path)
    requires UniversitySettled(u, PruneFaculties) && UniversitySettled(u, PruneDepartments)
    ensures e in UniversityEntries(continent, country, university, u) && path <= PathOf(e)[3..]
  {
    var f := Get(u, path[0]).value;
    var i := GetIndex(u, path[0]);
    assert FacultySettled(f, PruneDepartments) && |f| > 0;
    var below := if |path| == 2 then path[1..] else [f[0].0];
    e := FacultyLeafBelow(continent, country, university, path[0], f, below);
    FacultyEntriesMember(continent, country, university, path[0], f, e);
    UniversityEntriesMember(continent, country, university, u, e);
  }

  lemma CountryLeafBelow(continent: string, country: string, n: Country, path: seq<string>) returns (e: Entry)
    requires 1 <= |path| <= 3 && CountryHas(n, path)
    requires CountrySettled(n, PruneUniversities) && CountrySettled(n, PruneFaculties) && CountrySettled(n, PruneDepartments)
    ensures e in CountryEntries(continent, country, n) && path <= PathOf(e)[2..]
  {
    var u := Get(n, path[0]).value;
    var i := GetIndex(n, path[0]);
    assert UniversitySettled(u, PruneFaculties) && UniversitySettled(u, PruneDepartments) && |u| > 0;
    var below := if |path| > 1 then path[1..] else [u[0].0];
    e := UniversityLeafBelow(continent, country, path[0], u, below);
    UniversityEntriesMember(continent, country, path[0], u, e);
    CountryEntriesMember(continent, country, n, e);
  }

  lemma ContinentLeafBelow(continent: string, c: Continent, path: seq<string>) returns (e: Entry)
    requires 1 <= |path| <= 4 && ContinentHas(c, path)
    requires ContinentSettled(c, PruneCountries) && ContinentSettled(c, PruneUniversities)
    requires ContinentSettled(c, PruneFaculties) && ContinentSettled(c, PruneDepartments)
    ensures e in ContinentEntries(continent, c) && path <= PathOf(e)[1..]
  {
    var n := Get(c, path[0]).value;
    var i := GetIndex(c, path[0]);
    assert CountrySettled(n, PruneUniversities) && CountrySettled(n, PruneFaculties);
    assert CountrySettled(n, PruneDepartments) && |n| > 0;
    var below := if |path| > 1 then path[1..] else [n[0].0];
    e := CountryLeafBelow(continent, path[0], n, below);
    CountryEntriesMember(continent, path[0], n, e);
    ContinentEntriesMember(continent, c, e);
  }

  /** In a tree with no empty container, every container holds a student somewhere below it. */
  lemma ContainerIsOccupied(s: Continents, path: seq<string>)
    requires 1 <= |path| <= 5 && ContainerAt(s, path) && NoEmptyContainers(s)
    ensures Occupied(ContinentsEntries(s), path)
  {
    var c := Get(s, path[0]).value;
    var i := GetIndex(s, path[0]);
    assert ContinentSettled(c, PruneCountries) && ContinentSettled(c, PruneUniversities);
    assert ContinentSettled(c, PruneFaculties) && ContinentSettled(c, PruneDepartments) && |c| > 0;
    var below := if |path| > 1 then path[1..] else [c[0].0];
    var e := ContinentLeafBelow(path[0], c, below);
    ContinentEntriesMember(path[0], c, e);
    ContinentsEntriesMember(s, e);
    var es := ContinentsEntries(s);
    var j :| 0 <= j < |es| && es[j] == e;
    assert path <= PathOf(es[j]);
  }

  // ---------------------------------------------------------------------
  // Cleaning deletes students only: every container stays
  // ---------------------------------------------------------------------

  /** Above its own depth a pass keeps every key of this level and works on the child found under it. */
  lemma GetOnContinents(s: Continents, pass: Pass, k: string)
    requires pass.Depth() > 0
    ensures Get(OnContinents(s, pass), k) == if Get(s, k).Some? then Some(OnContinent(Get(s, k).value, pass)) else None
  {
    var r := OnContinents(s, pass);
    if Get(s, k).Some? {
      var i := GetIndex(s, k);
      assert r[i] == (k, OnContinent(s[i].1, pass));
    } else {
      forall j | 0 <= j < |r|
        ensures r[j].0 != k
      {
        assert r[j].0 == s[j].0;
      }
    }
  }

  /** Above its own depth a pass keeps every key of this level and works on the child found under it. */
  lemma GetOnContinent(c: Continent, pass: Pass, k: string)
    requires pass.Depth() > 1
    ensures Get(OnContinent(c, pass), k) == if Get(c, k).Some? then Some(OnCountry(Get(c, k).value, pass)) else None
  {
    var r := OnContinent(c, pass);
    if Get(c, k).Some? {
      var i := GetIndex(c, k);
      assert r[i] == (k, OnCountry(c[i].1, pass));
    } else {
      forall j | 0 <= j < |r|
        ensures r[j].0 != k
      {
        assert r[j].0 == c[j].0;
      }
    }
  }

  /** Above its own depth a pass keeps every key of this level and works on the child found under it. */
  lemma GetOnCountry(n: Country, pass: Pass, k: string)
    requires pass.Depth() > 2
    ensures Get(OnCountry(n, pass), k) == if Get(n, k).Some? then Some(OnUniversity(Get(n, k).value, pass)) else None
  {
    var r := OnCountry(n, pass);
    if Get(n, k).Some? {
      var i := GetIndex(n, k);
      assert r[i] == (k, OnUniversity(n[i].1, pass));
    } else {
      forall j | 0 <= j < |r|
        ensures r[j].0 != k
      {
        assert r[j].0 == n[j].0;
      }
    }
  }

  /** Above its own depth a pass keeps every key of this level and works on the child found under it. */
  lemma GetOnUniversity(u: University, pass: Pass, k: string)
    requires pass.Depth() > 3
    ensures Get(OnUniversity(u, pass), k) == if Get(u, k).Some? then Some(OnFaculty(Get(u, k).value, pass)) else None
  {
    var r := OnUniversity(u, pass);
    if Get(u, k).Some? {
      var i := GetIndex(u, k);
      assert r[i] == (k, OnFaculty(u[i].1, pass));
    } else {
      forall j | 0 <= j < |r|
        ensures r[j].0 != k
      {
        assert r[j].0 == u[j].0;
      }
    }
  }

  /** Above its own depth a pass keeps every key of this level and works on the child found under it. */
  lemma GetOnFaculty(f: Faculty, pass: Pass, k: string)
    requires pass.Depth() > 4
    ensures Get(OnFaculty(f, pass), k) == if Get(f, k).Some? then Some(OnDepartment(Get(f, k).value, pass)) else None
  {
    var r := OnFaculty(f, pass);
    if Get(f, k).Some? {
      var i := GetIndex(f, k);
      assert r[i] == (k, OnDepartment(f[i].1, pass));
    } else {
      forall j | 0 <= j < |r|
        ensures r[j].0 != k
      {
        assert r[j].0 == f[j].0;
      }
    }
  }

  lemma FacultyHasCleaned(f: Faculty, path: seq<string>)
    requires |path| == 1
    ensures FacultyHas(OnFaculty(f, Validate), path) == FacultyHas(f, path)
  {
    GetOnFaculty(f, Validate, path[0]);
  }

  lemma UniversityHasCleaned(u: University, path: seq<string>)
    requires 1 <= |path| <= 2
    ensures UniversityHas(OnUniversity(u, Validate), path) == UniversityHas(u, path)
  {
    GetOnUniversity(u, Validate, path[0]);
    if |path| > 1 && Get(u, path[0]).Some? {
      FacultyHasCleaned(Get(u, path[0]).value, path[1..]);
    }
  }

  lemma CountryHasCleaned(n: Country, path: seq<string>)
    requires 1 <= |path| <= 3
    ensures CountryHas(OnCountry(n, Validate), path) == CountryHas(n, path)
  {
    GetOnCountry(n, Validate, path[0]);
    if |path| > 1 && Get(n, path[0]).Some? {
      UniversityHasCleaned(Get(n, path[0]).value, path[1..]);
    }
  }

  lemma ContinentHasCleaned(c: Continent, path: seq<string>)
    requires 1 <= |path| <= 4
    ensures ContinentHas(OnContinent(c, Validate), path) == ContinentHas(c, path)
  {
    GetOnContinent(c, Validate, path[0]);
    if |path| > 1 && Get(c, path[0]).Some? {
      CountryHasCleaned(Get(c, path[0]).value, path[1..]);
    }
  }

  /** Cleaning deletes no continent, country, university, faculty or department, however many students it deletes. */
  lemma CleanedKeepsContainers(s: Continents, path: seq<string>)
    requires 1 <= |path| <= 5
    ensures ContainerAt(Cleaned(s), path) <==> ContainerAt(s, path)
  {
    GetOnContinents(s, Validate, path[0]);
    if |path| > 1 && Get(s, path[0]).Some? {
      ContinentHasCleaned(Get(s, path[0]).value, path[1..]);
    }
  }

  // ---------------------------------------------------------------------
  // What pruning keeps
  // ---------------------------------------------------------------------

  /**
    Pruning keeps exactly the containers with a student somewhere below them:
    it adds none, and it deletes a container only when the container is
    empty, directly or because everything under it was.
  */
  lemma PrunedContainers(s: Continents, path: seq<string>)
    requires 1 <= |path| <= 5
    ensures ContainerAt(Pruned(s), path) <==> Occupied(ContinentsEntries(s), path)
    ensures ContainerAt(Pruned(s), path) ==> ContainerAt(s, path)
  {
    PrunedHasNoEmptyContainers(s);
    PruningKeepsLeaves(s);
    if ContainerAt(Pruned(s), path) {
      ContainerIsOccupied(Pruned(s), path);
    }
    if Occupied(ContinentsEntries(s), path) {
      OccupiedIsContainer(Pruned(s), path);
      OccupiedIsContainer(s, path);
    }
  }

  /** After cleaning and pruning, the containers left are those with a valid student below them. */
  lemma TidiedContainers(s: Continents, path: seq<string>)
    requires 1 <= |path| <= 5
    ensures ContainerAt(Tidied(s), path) <==> Occupied(ValidOnly(ContinentsEntries(s)), path)
    ensures ContainerAt(Tidied(s), path) ==> ContainerAt(s, path)
  {
    CleanedKeepsExactlyValid(s);
    PrunedContainers(Cleaned(s), path);
    CleanedKeepsContainers(s, path);
  }
}
