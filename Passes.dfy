/**
  The cleaning step and the five pruning passes, as one walk over the tree.
  A pass descends, level by level and in insertion order, to the mappings at
  its depth; there it collects the keys to delete from the unmodified mapping
  and then deletes them.
*/
module Passes {
  import opened Dicts
  import opened Hierarchy
  import opened Validation

  // ---------------------------------------------------------------------
  // Students: the cleaning step proper (depth 5)
  // ---------------------------------------------------------------------

  /**
    A department's students after `pass`. Validate keeps exactly the valid
    students, unchanged and in order; every other pass acts higher up.
  */
  function OnDepartment(d: Department, pass: Pass): (r: Department)
    ensures pass.Depth() == 5 ==> forall i :: 0 <= i < |r| ==> r[i] in d && !IsInvalid(r[i].1)
    ensures pass.Depth() == 5 ==> forall i :: 0 <= i < |d| && !IsInvalid(d[i].1) ==> d[i] in r
    ensures pass.Depth() != 5 ==> |r| == |d| && forall i :: 0 <= i < |d| ==> r[i].0 == d[i].0
  {
    if pass.Depth() == 5 then Without(d, InvalidIds(d)) else d
  }

  /** `pass` would delete nothing from d. */
  predicate DepartmentSettled(d: Department, pass: Pass) {
    pass.Depth() == 5 ==> forall i :: 0 <= i < |d| ==> !IsInvalid(d[i].1)
  }

  /** The script's loop body for one department: collect the invalid ids, then delete them. */
  method ApplyToDepartment(d: Department, pass: Pass) returns (r: Department)
    ensures r == OnDepartment(d, pass)
  {
    if pass.Depth() == 5 {
      var doomed := CollectInvalid(d);
      r := DeleteKeys(d, doomed);
    } else {
      r := d;
    }
  }

  lemma {:induction false} DepartmentSettles(d: Department, pass: Pass)
    requires pass.Depth() >= 5
    ensures DepartmentSettled(OnDepartment(d, pass), pass)
  {
  }

  /** The cleaning step deletes nothing from d exactly when every student of d is valid. */
  lemma {:induction false} DepartmentFixedPoint(d: Department, pass: Pass)
    requires pass.Depth() >= 5
    ensures OnDepartment(d, pass) == d <==> DepartmentSettled(d, pass)
  {
    var r := OnDepartment(d, pass);
    if DepartmentSettled(d, pass) {
      assert InvalidIds(d) == {};
      WithoutNothing(d, {});
    }
    if r == d {
      forall i | 0 <= i < |d| ensures !IsInvalid(d[i].1) {
        assert d[i] == r[i];
      }
    }
  }

  // ---------------------------------------------------------------------
  // Continents (depth 0): the mapping of continents
  // ---------------------------------------------------------------------

  /**
    s after `pass`. A pass of depth 0 keeps exactly the entries whose
    child mapping is non-empty, unchanged and in order; a deeper pass keeps
    every key in place and applies itself to each child.
  */
  function OnContinents(s: Continents, pass: Pass): (r: Continents)
    ensures pass.Depth() == 0 ==> forall i :: 0 <= i < |r| ==> r[i] in s && |r[i].1| > 0
    ensures pass.Depth() == 0 ==> forall i :: 0 <= i < |s| && |s[i].1| > 0 ==> s[i] in r
    ensures pass.Depth() != 0 ==> |r| == |s| && forall i :: 0 <= i < |s| ==> r[i].0 == s[i].0
  {
    if pass.Depth() == 0 then Without(s, EmptyKeys(s))
    else
      var r := seq(|s|, i requires 0 <= i < |s| => (s[i].0, OnContinent(s[i].1, pass)));
      assert forall i :: 0 <= i < |s| ==> r[i].0 == s[i].0;
      r
  }

  /** `pass` would delete nothing from s or from anything below it. */
  predicate ContinentsSettled(s: Continents, pass: Pass) {
    if pass.Depth() == 0 then forall i :: 0 <= i < |s| ==> |s[i].1| > 0
    else forall i :: 0 <= i < |s| ==> ContinentSettled(s[i].1, pass)
  }

  /**
    The script's nested loop at this level: at the pass's own depth, collect
    the keys with an empty child and delete them; below it, visit every child
    in insertion order.
  */
  method ApplyToContinents(s: Continents, pass: Pass) returns (r: Continents)
    ensures r == OnContinents(s, pass)
  {
    if pass.Depth() == 0 {
      var doomed := CollectEmpty(s);
      r := DeleteKeys(s, doomed);
    } else {
      var acc: seq<(string, Continent)> := [];
      var i := 0;
      while i < |s|
        invariant 0 <= i <= |s|
        invariant |acc| == i
        invariant forall j :: 0 <= j < i ==> acc[j] == (s[j].0, OnContinent(s[j].1, pass))
      {
        var child := ApplyToContinent(s[i].1, pass);
        acc := acc + [(s[i].0, child)];
        i := i + 1;
      }
      assert acc == OnContinents(s, pass);
      r := acc;
    }
  }

  /** After `pass`, that pass would delete nothing more. */
  lemma {:induction false} ContinentsSettles(s: Continents, pass: Pass)
    requires pass.Depth() >= 0
    ensures ContinentsSettled(OnContinents(s, pass), pass)
  {
    if pass.Depth() != 0 {
      forall i | 0 <= i < |s| ensures ContinentSettled(OnContinent(s[i].1, pass), pass) {
        ContinentSettles(s[i].1, pass);
      }
    }
  }

  /** A pass never undoes what a deeper pass achieved: it only deletes whole subtrees. */
  lemma {:induction false} ContinentsKeepsSettled(s: Continents, pass: Pass, deeper: Pass)
    requires 0 <= pass.Depth() < deeper.Depth()
    requires ContinentsSettled(s, deeper)
    ensures ContinentsSettled(OnContinents(s, pass), deeper)
  {
    var r := OnContinents(s, pass);
    if pass.Depth() == 0 {
      forall i | 0 <= i < |r| ensures ContinentSettled(r[i].1, deeper) {
          var j :| 0 <= j < |s| && s[j] == r[i];
        }
    } else {
      forall i | 0 <= i < |s| ensures ContinentSettled(OnContinent(s[i].1, pass), deeper) {
        ContinentKeepsSettled(s[i].1, pass, deeper);
      }
    }
  }

  /** `pass` changes s exactly when it finds something to delete. */
  lemma {:induction false} ContinentsFixedPoint(s: Continents, pass: Pass)
    requires pass.Depth() >= 0
    ensures OnContinents(s, pass) == s <==> ContinentsSettled(s, pass)
  {
    var r := OnContinents(s, pass);
    if pass.Depth() == 0 {
      if ContinentsSettled(s, pass) {
        assert EmptyKeys(s) == {};
        WithoutNothing(s, {});
      }
      if r == s {
        forall i | 0 <= i < |s| ensures |s[i].1| > 0 {
          assert s[i] == r[i];
        }
      }
    } else {
      forall i | 0 <= i < |s|
        ensures OnContinent(s[i].1, pass) == s[i].1 <==> ContinentSettled(s[i].1, pass)
      {
        ContinentFixedPoint(s[i].1, pass);
      }
      if ContinentsSettled(s, pass) {
        assert forall i :: 0 <= i < |s| ==> r[i] == s[i];
      }
      if r == s {
        forall i | 0 <= i < |s| ensures ContinentSettled(s[i].1, pass) {
          assert r[i] == s[i];
        }
      }
    }
  }

  // ---------------------------------------------------------------------
  // Continent (depth 1): the mapping of countries
  // ---------------------------------------------------------------------

  /**
    c after `pass`. A pass of depth 1 keeps exactly the entries whose
    child mapping is non-empty, unchanged and in order; a deeper pass keeps
    every key in place and applies itself to each child.
  */
  function OnContinent(c: Continent, pass: Pass): (r: Continent)
    ensures pass.Depth() == 1 ==> forall i :: 0 <= i < |r| ==> r[i] in c && |r[i].1| > 0
    ensures pass.Depth() == 1 ==> forall i :: 0 <= i < |c| && |c[i].1| > 0 ==> c[i] in r
    ensures pass.Depth() != 1 ==> |r| == |c| && forall i :: 0 <= i < |c| ==> r[i].0 == c[i].0
  {
    if pass.Depth() == 1 then Without(c, EmptyKeys(c))
    else
      var r := seq(|c|, i requires 0 <= i < |c| => (c[i].0, OnCountry(c[i].1, pass)));
      assert forall i :: 0 <= i < |c| ==> r[i].0 == c[i].0;
      r
  }

  /** `pass` would delete nothing from c or from anything below it. */
  predicate ContinentSettled(c: Continent, pass: Pass) {
    if pass.Depth() == 1 then forall i :: 0 <= i < |c| ==> |c[i].1| > 0
    else forall i :: 0 <= i < |c| ==> CountrySettled(c[i].1, pass)
  }

  /**
    The script's nested loop at this level: at the pass's own depth, collect
    the keys with an empty child and delete them; below it, visit every child
    in insertion order.
  */
  method ApplyToContinent(c: Continent, pass: Pass) returns (r: Continent)
    ensures r == OnContinent(c, pass)
  {
    if pass.Depth() == 1 {
      var doomed := CollectEmpty(c);
      r := DeleteKeys(c, doomed);
    } else {
      var acc: seq<(string, Country)> := [];
      var i := 0;
      while i < |c|
        invariant 0 <= i <= |c|
        invariant |acc| == i
        invariant forall j :: 0 <= j < i ==> acc[j] == (c[j].0, OnCountry(c[j].1, pass))
      {
        var child := ApplyToCountry(c[i].1, pass);
        acc := acc + [(c[i].0, child)];
        i := i + 1;
      }
      assert acc == OnContinent(c, pass);
      r := acc;
    }
  }

  /** After `pass`, that pass would delete nothing more. */
  lemma {:induction false} ContinentSettles(c: Continent, pass: Pass)
    requires pass.Depth() >= 1
    ensures ContinentSettled(OnContinent(c, pass), pass)
  {
    if pass.Depth() != 1 {
      forall i | 0 <= i < |c| ensures CountrySettled(OnCountry(c[i].1, pass), pass) {
        CountrySettles(c[i].1, pass);
      }
    }
  }

  /** A pass never undoes what a deeper pass achieved: it only deletes whole subtrees. */
  lemma {:induction false} ContinentKeepsSettled(c: Continent, pass: Pass, deeper: Pass)
    requires 1 <= pass.Depth() < deeper.Depth()
    requires ContinentSettled(c, deeper)
    ensures ContinentSettled(OnContinent(c, pass), deeper)
  {
    var r := OnContinent(c, pass);
    if pass.Depth() == 1 {
      forall i | 0 <= i < |r| ensures CountrySettled(r[i].1, deeper) {
          var j :| 0 <= j < |c| && c[j] == r[i];
        }
    } else {
      forall i | 0 <= i < |c| ensures CountrySettled(OnCountry(c[i].1, pass), deeper) {
        CountryKeepsSettled(c[i].1, pass, deeper);
      }
    }
  }

  /** `pass` changes c exactly when it finds something to delete. */
  lemma {:induction false} ContinentFixedPoint(c: Continent, pass: Pass)
    requires pass.Depth() >= 1
    ensures OnContinent(c, pass) == c <==> ContinentSettled(c, pass)
  {
    var r := OnContinent(c, pass);
    if pass.Depth() == 1 {
      if ContinentSettled(c, pass) {
        assert EmptyKeys(c) == {};
        WithoutNothing(c, {});
      }
      if r == c {
        forall i | 0 <= i < |c| ensures |c[i].1| > 0 {
          assert c[i] == r[i];
        }
      }
    } else {
      forall i | 0 <= i < |c|
        ensures OnCountry(c[i].1, pass) == c[i].1 <==> CountrySettled(c[i].1, pass)
      {
        CountryFixedPoint(c[i].1, pass);
      }
      if ContinentSettled(c, pass) {
        assert forall i :: 0 <= i < |c| ==> r[i] == c[i];
      }
      if r == c {
        forall i | 0 <= i < |c| ensures CountrySettled(c[i].1, pass) {
          assert r[i] == c[i];
        }
      }
    }
  }

  // ---------------------------------------------------------------------
  // Country (depth 2): the mapping of universities
  // ---------------------------------------------------------------------

  /**
    n after `pass`. A pass of depth 2 keeps exactly the entries whose
    child mapping is non-empty, unchanged and in order; a deeper pass keeps
    every key in place and applies itself to each child.
  */
  function OnCountry(n: Country, pass: Pass): (r: Country)
    ensures pass.Depth() == 2 ==> forall i :: 0 <= i < |r| ==> r[i] in n && |r[i].1| > 0
    ensures pass.Depth() == 2 ==> forall i :: 0 <= i < |n| && |n[i].1| > 0 ==> n[i] in r
    ensures pass.Depth() != 2 ==> |r| == |n| && forall i :: 0 <= i < |n| ==> r[i].0 == n[i].0
  {
    if pass.Depth() == 2 then Without(n, EmptyKeys(n))
    else
      var r := seq(|n|, i requires 0 <= i < |n| => (n[i].0, OnUniversity(n[i].1, pass)));
      assert forall i :: 0 <= i < |n| ==> r[i].0 == n[i].0;
      r
  }

  /** `pass` would delete nothing from n or from anything below it. */
  predicate CountrySettled(n: Country, pass: Pass) {
    if pass.Depth() == 2 then forall i :: 0 <= i < |n| ==> |n[i].1| > 0
    else forall i :: 0 <= i < |n| ==> UniversitySettled(n[i].1, pass)
  }

  /**
    The script's nested loop at this level: at the pass's own depth, collect
    the keys with an empty child and delete them; below it, visit every child
    in insertion order.
  */
  method ApplyToCountry(n: Country, pass: Pass) returns (r: Country)
    ensures r == OnCountry(n, pass)
  {
    if pass.Depth() == 2 {
      var doomed := CollectEmpty(n);
      r := DeleteKeys(n, doomed);
    } else {
      var acc: seq<(string, University)> := [];
      var i := 0;
      while i < |n|
        invariant 0 <= i <= |n|
        invariant |acc| == i
        invariant forall j :: 0 <= j < i ==> acc[j] == (n[j].0, OnUniversity(n[j].1, pass))
      {
        var child := ApplyToUniversity(n[i].1, pass);
        acc := acc + [(n[i].0, child)];
        i := i + 1;
      }
      assert acc == OnCountry(n, pass);
      r := acc;
    }
  }

  /** After `pass`, that pass would delete nothing more. */
  lemma {:induction false} CountrySettles(n: Country, pass: Pass)
    requires pass.Depth() >= 2
    ensures CountrySettled(OnCountry(n, pass), pass)
  {
    if pass.Depth() != 2 {
      forall i | 0 <= i < |n| ensures UniversitySettled(OnUniversity(n[i].1, pass), pass) {
        UniversitySettles(n[i].1, pass);
      }
    }
  }

  /** A pass never undoes what a deeper pass achieved: it only deletes whole subtrees. */
  lemma {:induction false} CountryKeepsSettled(n: Country, pass: Pass, deeper: Pass)
    requires 2 <= pass.Depth() < deeper.Depth()
    requires CountrySettled(n, deeper)
    ensures CountrySettled(OnCountry(n, pass), deeper)
  {
    var r := OnCountry(n, pass);
    if pass.Depth() == 2 {
      forall i | 0 <= i < |r| ensures UniversitySettled(r[i].1, deeper) {
          var j :| 0 <= j < |n| && n[j] == r[i];
        }
    } else {
      forall i | 0 <= i < |n| ensures UniversitySettled(OnUniversity(n[i].1, pass), deeper) {
        UniversityKeepsSettled(n[i].1, pass, deeper);
      }
    }
  }

  /** `pass` changes n exactly when it finds something to delete. */
  lemma {:induction false} CountryFixedPoint(n: Country, pass: Pass)
    requires pass.Depth() >= 2
    ensures OnCountry(n, pass) == n <==> CountrySettled(n, pass)
  {
    var r := OnCountry(n, pass);
    if pass.Depth() == 2 {
      if CountrySettled(n, pass) {
        assert EmptyKeys(n) == {};
        WithoutNothing(n, {});
      }
      if r == n {
        forall i | 0 <= i < |n| ensures |n[i].1| > 0 {
          assert n[i] == r[i];
        }
      }
    } else {
      forall i | 0 <= i < |n|
        ensures OnUniversity(n[i].1, pass) == n[i].1 <==> UniversitySettled(n[i].1, pass)
      {
        UniversityFixedPoint(n[i].1, pass);
      }
      if CountrySettled(n, pass) {
        assert forall i :: 0 <= i < |n| ==> r[i] == n[i];
      }
      if r == n {
        forall i | 0 <= i < |n| ensures UniversitySettled(n[i].1, pass) {
          assert r[i] == n[i];
        }
      }
    }
  }

  // ---------------------------------------------------------------------
  // University (depth 3): the mapping of faculties
  // ---------------------------------------------------------------------

  /**
    u after `pass`. A pass of depth 3 keeps exactly the entries whose
    child mapping is non-empty, unchanged and in order; a deeper pass keeps
    every key in place and applies itself to each child.
  */
  function OnUniversity(u: University, pass: Pass): (r: University)
    ensures pass.Depth() == 3 ==> forall i :: 0 <= i < |r| ==> r[i] in u && |r[i].1| > 0
    ensures pass.Depth() == 3 ==> forall i :: 0 <= i < |u| && |u[i].1| > 0 ==> u[i] in r
    ensures pass.Depth() != 3 ==> |r| == |u| && forall i :: 0 <= i < |u| ==> r[i].0 == u[i].0
  {
    if pass.Depth() == 3 then Without(u, EmptyKeys(u))
    else
      var r := seq(|u|, i requires 0 <= i < |u| => (u[i].0, OnFaculty(u[i].1, pass)));
      assert forall i :: 0 <= i < |u| ==> r[i].0 == u[i].0;
      r
  }

  /** `pass` would delete nothing from u or from anything below it. */
  predicate UniversitySettled(u: University, pass: Pass) {
    if pass.Depth() == 3 then forall i :: 0 <= i < |u| ==> |u[i].1| > 0
    else forall i :: 0 <= i < |u| ==> FacultySettled(u[i].1, pass)
  }

  /**
    The script's nested loop at this level: at the pass's own depth, collect
    the keys with an empty child and delete them; below it, visit every child
    in insertion order.
  */
  method ApplyToUniversity(u: University, pass: Pass) returns (r: University)
    ensures r == OnUniversity(u, pass)
  {
    if pass.Depth() == 3 {
      var doomed := CollectEmpty(u);
      r := DeleteKeys(u, doomed);
    } else {
      var acc: seq<(string, Faculty)> := [];
      var i := 0;
      while i < |u|
        invariant 0 <= i <= |u|
        invariant |acc| == i
        invariant forall j :: 0 <= j < i ==> acc[j] == (u[j].0, OnFaculty(u[j].1, pass))
      {
        var child := ApplyToFaculty(u[i].1, pass);
        acc := acc + [(u[i].0, child)];
        i := i + 1;
      }
      assert acc == OnUniversity(u, pass);
      r := acc;
    }
  }

  /** After `pass`, that pass would delete nothing more. */
  lemma {:induction false} UniversitySettles(u: University, pass: Pass)
    requires pass.Depth() >= 3
    ensures UniversitySettled(OnUniversity(u, pass), pass)
  {
    if pass.Depth() != 3 {
      forall i | 0 <= i < |u| ensures FacultySettled(OnFaculty(u[i].1, pass), pass) {
        FacultySettles(u[i].1, pass);
      }
    }
  }

  /** A pass never undoes what a deeper pass achieved: it only deletes whole subtrees. */
  lemma {:induction false} UniversityKeepsSettled(u: University, pass: Pass, deeper: Pass)
    requires 3 <= pass.Depth() < deeper.Depth()
    requires UniversitySettled(u, deeper)
    ensures UniversitySettled(OnUniversity(u, pass), deeper)
  {
    var r := OnUniversity(u, pass);
    if pass.Depth() == 3 {
      forall i | 0 <= i < |r| ensures FacultySettled(r[i].1, deeper) {
          var j :| 0 <= j < |u| && u[j] == r[i];
        }
    } else {
      forall i | 0 <= i < |u| ensures FacultySettled(OnFaculty(u[i].1, pass), deeper) {
        FacultyKeepsSettled(u[i].1, pass, deeper);
      }
    }
  }

  /** `pass` changes u exactly when it finds something to delete. */
  lemma {:induction false} UniversityFixedPoint(u: University, pass: Pass)
    requires pass.Depth() >= 3
    ensures OnUniversity(u, pass) == u <==> UniversitySettled(u, pass)
  {
    var r := OnUniversity(u, pass);
    if pass.Depth() == 3 {
      if UniversitySettled(u, pass) {
        assert EmptyKeys(u) == {};
        WithoutNothing(u, {});
      }
      if r == u {
        forall i | 0 <= i < |u| ensures |u[i].1| > 0 {
          assert u[i] == r[i];
        }
      }
    } else {
      forall i | 0 <= i < |u|
        ensures OnFaculty(u[i].1, pass) == u[i].1 <==> FacultySettled(u[i].1, pass)
      {
        FacultyFixedPoint(u[i].1, pass);
      }
      if UniversitySettled(u, pass) {
        assert forall i :: 0 <= i < |u| ==> r[i] == u[i];
      }
      if r == u {
        forall i | 0 <= i < |u| ensures FacultySettled(u[i].1, pass) {
          assert r[i] == u[i];
        }
      }
    }
  }

  // ---------------------------------------------------------------------
  // Faculty (depth 4): the mapping of departments
  // ---------------------------------------------------------------------

  /**
    f after `pass`. A pass of depth 4 keeps exactly the entries whose
    child mapping is non-empty, unchanged and in order; a deeper pass keeps
    every key in place and applies itself to each child.
  */
  function OnFaculty(f: Faculty, pass: Pass): (r: Faculty)
    ensures pass.Depth() == 4 ==> forall i :: 0 <= i < |r| ==> r[i] in f && |r[i].1| > 0
    ensures pass.Depth() == 4 ==> forall i :: 0 <= i < |f| && |f[i].1| > 0 ==> f[i] in r
    ensures pass.Depth() != 4 ==> |r| == |f| && forall i :: 0 <= i < |f| ==> r[i].0 == f[i].0
  {
    if pass.Depth() == 4 then Without(f, EmptyKeys(f))
    else
      var r := seq(|f|, i requires 0 <= i < |f| => (f[i].0, OnDepartment(f[i].1, pass)));
      assert forall i :: 0 <= i < |f| ==> r[i].0 == f[i].0;
      r
  }

  /** `pass` would delete nothing from f or from anything below it. */
  predicate FacultySettled(f: Faculty, pass: Pass) {
    if pass.Depth() == 4 then forall i :: 0 <= i < |f| ==> |f[i].1| > 0
    else forall i :: 0 <= i < |f| ==> DepartmentSettled(f[i].1, pass)
  }

  /**
    The script's nested loop at this level: at the pass's own depth, collect
    the keys with an empty child and delete them; below it, visit every child
    in insertion order.
  */
  method ApplyToFaculty(f: Faculty, pass: Pass) returns (r: Faculty)
    ensures r == OnFaculty(f, pass)
  {
    if pass.Depth() == 4 {
      var doomed := CollectEmpty(f);
      r := DeleteKeys(f, doomed);
    } else {
      var acc: seq<(string, Department)> := [];
      var i := 0;
      while i < |f|
        invariant 0 <= i <= |f|
        invariant |acc| == i
        invariant forall j :: 0 <= j < i ==> acc[j] == (f[j].0, OnDepartment(f[j].1, pass))
      {
        var child := ApplyToDepartment(f[i].1, pass);
        acc := acc + [(f[i].0, child)];
        i := i + 1;
      }
      assert acc == OnFaculty(f, pass);
      r := acc;
    }
  }

  /** After `pass`, that pass would delete nothing more. */
  lemma {:induction false} FacultySettles(f: Faculty, pass: Pass)
    requires pass.Depth() >= 4
    ensures FacultySettled(OnFaculty(f, pass), pass)
  {
    if pass.Depth() != 4 {
      forall i | 0 <= i < |f| ensures DepartmentSettled(OnDepartment(f[i].1, pass), pass) {
        DepartmentSettles(f[i].1, pass);
      }
    }
  }

  /** A pass never undoes what a deeper pass achieved: it only deletes whole subtrees. */
  lemma {:induction false} FacultyKeepsSettled(f: Faculty, pass: Pass, deeper: Pass)
    requires 4 <= pass.Depth() < deeper.Depth()
    requires FacultySettled(f, deeper)
    ensures FacultySettled(OnFaculty(f, pass), deeper)
  {
    var r := OnFaculty(f, pass);
    forall i | 0 <= i < |r| ensures DepartmentSettled(r[i].1, deeper) {
        var j :| 0 <= j < |f| && f[j] == r[i];
      }
  }

  /** `pass` changes f exactly when it finds something to delete. */
  lemma {:induction false} FacultyFixedPoint(f: Faculty, pass: Pass)
    requires pass.Depth() >= 4
    ensures OnFaculty(f, pass) == f <==> FacultySettled(f, pass)
  {
    var r := OnFaculty(f, pass);
    if pass.Depth() == 4 {
      if FacultySettled(f, pass) {
        assert EmptyKeys(f) == {};
        WithoutNothing(f, {});
      }
      if r == f {
        forall i | 0 <= i < |f| ensures |f[i].1| > 0 {
          assert f[i] == r[i];
        }
      }
    } else {
      forall i | 0 <= i < |f|
        ensures OnDepartment(f[i].1, pass) == f[i].1 <==> DepartmentSettled(f[i].1, pass)
      {
        DepartmentFixedPoint(f[i].1, pass);
      }
      if FacultySettled(f, pass) {
        assert forall i :: 0 <= i < |f| ==> r[i] == f[i];
      }
      if r == f {
        forall i | 0 <= i < |f| ensures DepartmentSettled(f[i].1, pass) {
          assert r[i] == f[i];
        }
      }
    }
  }
}
