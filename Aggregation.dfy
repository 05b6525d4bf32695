/**
  The two grouped reductions over the flat rows: the mean `avg_score` per
  country, and the department (by name alone) with the highest mean.
*/
module Aggregation {
  import opened Wrappers
  import opened Dicts
  import opened Flattening

  /** Which field a grouping uses: `row[1]` or `row[4]`. */
  datatype GroupKey = ByCountry | ByDepartment

  function KeyOf(row: Row, field: GroupKey): string {
    match field
    case ByCountry => row.country
    case ByDepartment => row.department
  }

  /** The keys that occur in the rows. */
  function KeysIn(rows: seq<Row>, field: GroupKey): set<string> {
    set i | 0 <= i < |rows| :: KeyOf(rows[i], field)
  }

  /** Adding a row adds its key. */
  lemma KeysInSnoc(rows: seq<Row>, field: GroupKey)
    requires |rows| > 0
    ensures KeysIn(rows, field) == KeysIn(rows[..|rows| - 1], field) + {KeyOf(rows[|rows| - 1], field)}
  {
    var init := rows[..|rows| - 1];
    forall k | k in KeysIn(rows, field) ensures k in KeysIn(init, field) + {KeyOf(rows[|rows| - 1], field)} {
      var i :| 0 <= i < |rows| && KeyOf(rows[i], field) == k;
      if i < |rows| - 1 { assert init[i] == rows[i]; }
    }
    forall k | k in KeysIn(init, field) ensures k in KeysIn(rows, field) {
      var i :| 0 <= i < |init| && KeyOf(init[i], field) == k;
      assert rows[i] == init[i];
    }
  }

  /** The `avg_score` of every row whose key is k, in row order. */
  function ScoresOf(rows: seq<Row>, field: GroupKey, k: string): seq<real>
    decreases |rows|
  {
    if |rows| == 0 then []
    else
      var last := rows[|rows| - 1];
      ScoresOf(rows[..|rows| - 1], field, k) + (if KeyOf(last, field) == k then [last.avgScore] else [])
  }

  /** A key that occurs in no row has no scores. */
  lemma {:induction false} ScoresOfAbsent(rows: seq<Row>, field: GroupKey, k: string)
    requires k !in KeysIn(rows, field)
    ensures ScoresOf(rows, field, k) == []
    decreases |rows|
  {
    if |rows| > 0 {
      KeysInSnoc(rows, field);
      ScoresOfAbsent(rows[..|rows| - 1], field, k);
    }
  }

  /** A key that occurs in some row has at least one score. */
  lemma {:induction false} ScoresOfPresent(rows: seq<Row>, field: GroupKey, k: string)
    requires k in KeysIn(rows, field)
    ensures |ScoresOf(rows, field, k)| > 0
    decreases |rows|
  {
    KeysInSnoc(rows, field);
    if k in KeysIn(rows[..|rows| - 1], field) {
      ScoresOfPresent(rows[..|rows| - 1], field, k);
    }
  }

  /** The position of the first row whose key is k. */
  function FirstIndex(rows: seq<Row>, field: GroupKey, k: string): (a: nat)
    requires k in KeysIn(rows, field)
    ensures a < |rows| && KeyOf(rows[a], field) == k
    ensures forall b :: 0 <= b < a ==> KeyOf(rows[b], field) != k
    decreases |rows|
  {
    var init := rows[..|rows| - 1];
    KeysInSnoc(rows, field);
    if k in KeysIn(init, field) then FirstIndex(init, field, k)
    else
      assert forall b :: 0 <= b < |init| ==> KeyOf(init[b], field) in KeysIn(init, field);
      |rows| - 1
  }

  /** One turn of the grouping loop: `if key not in groups: groups[key] = []`, then `groups[key].append(score)`. */
  function AddScore(groups: Dict<string, seq<real>>, key: string, score: real): Dict<string, seq<real>> {
    var g := if key in KeySet(groups) then groups else Put(groups, key, []);
    Update(g, key, Get(g, key).value + [score])
  }

  /** One turn appends the score to the key's group, creating it last if it is new, and touches no other group. */
  lemma AddScoreEffect(groups: Dict<string, seq<real>>, key: string, score: real)
    ensures var r := AddScore(groups, key, score);
      KeySet(r) == KeySet(groups) + {key} &&
      |r| == |groups| + (if key in KeySet(groups) then 0 else 1) &&
      (forall i :: 0 <= i < |groups| ==>
         r[i].0 == groups[i].0 && r[i].1 == if groups[i].0 == key then groups[i].1 + [score] else groups[i].1) &&
      (key !in KeySet(groups) ==> r[|groups|] == (key, [score]))
  {
    var g := if key in KeySet(groups) then groups else Put(groups, key, []);
    assert forall i :: 0 <= i < |groups| ==> g[i] == groups[i] by {
      if key !in KeySet(groups) {
        assert forall i :: 0 <= i < |groups| ==> g[i] == g[..|groups|][i];
      }
    }
    assert key !in KeySet(groups) ==> g[|groups|] == (key, []) && Get(g, key) == Some([]);
    assert [] + [score] == [score];
  }

  /** A new key is listed last; a known key keeps its place. */
  lemma AddScoreKeys(groups: Dict<string, seq<real>>, key: string, score: real)
    ensures Keys(AddScore(groups, key, score)) == Keys(groups) + (if key in KeySet(groups) then [] else [key])
  {
    AddScoreEffect(groups, key, score);
  }

  /** `score_by_x[key] = []` then append: a new key gets a one-score group at the end. */
  lemma AddScoreNew(groups: Dict<string, seq<real>>, key: string, score: real)
    requires key !in KeySet(groups)
    ensures AddScore(groups, key, score) == groups + [(key, [score])]
  {
    AddScoreEffect(groups, key, score);
    var r := AddScore(groups, key, score);
    assert forall i :: 0 <= i < |groups| ==> groups[i].0 != key;
    assert forall i :: 0 <= i < |r| ==> r[i] == (groups + [(key, [score])])[i];
  }

  /** A known key's group grows by the score in place; nothing else changes. */
  lemma AddScoreKnown(groups: Dict<string, seq<real>>, key: string, score: real, i: nat)
    requires i < |groups| && groups[i].0 == key
    ensures AddScore(groups, key, score) == groups[i := (key, groups[i].1 + [score])]
  {
    AddScoreEffect(groups, key, score);
    assert key in KeySet(groups);
    var r := AddScore(groups, key, score);
    forall j | 0 <= j < |r| ensures r[j] == groups[i := (key, groups[i].1 + [score])][j] {
      if j != i {
        assert groups[j].0 != key by {
          assert groups[j].0 != groups[i].0;
        }
      }
    }
  }

  /** The grouping dictionary after the loop over all rows. */
  function Grouped(rows: seq<Row>, field: GroupKey): Dict<string, seq<real>>
    decreases |rows|
  {
    if |rows| == 0 then []
    else AddScore(Grouped(rows[..|rows| - 1], field), KeyOf(rows[|rows| - 1], field), rows[|rows| - 1].avgScore)
  }

  /** One turn of the grouping loop adds row i's score under its key. */
  lemma GroupedStep(rows: seq<Row>, field: GroupKey, i: nat)
    requires i < |rows|
    ensures Grouped(rows[..i + 1], field) == AddScore(Grouped(rows[..i], field), KeyOf(rows[i], field), rows[i].avgScore)
  {
    assert rows[..i + 1][..i] == rows[..i];
  }

  /** The grouping loop (`score_by_country`, `score_by_department`). */
  method GroupScores(rows: seq<Row>, field: GroupKey) returns (groups: Dict<string, seq<real>>)
    ensures groups == Grouped(rows, field)
  {
    groups := [];
    var i := 0;
    while i < |rows|
      invariant 0 <= i <= |rows|
      invariant groups == Grouped(rows[..i], field)
    {
      GroupedStep(rows, field, i);
      var key := KeyOf(rows[i], field);
      groups := AddScore(groups, key, rows[i].avgScore);
      i := i + 1;
    }
    assert rows[..|rows|] == rows;
  }

  /** The groups are exactly the keys that occur in the rows. */
  lemma {:induction false} GroupedKeys(rows: seq<Row>, field: GroupKey)
    ensures KeySet(Grouped(rows, field)) == KeysIn(rows, field)
    decreases |rows|
  {
    if |rows| > 0 {
      var init := rows[..|rows| - 1];
      GroupedKeys(init, field);
      KeysInSnoc(rows, field);
      AddScoreEffect(Grouped(init, field), KeyOf(rows[|rows| - 1], field), rows[|rows| - 1].avgScore);
    }
  }

  /** Group i holds the scores of exactly its own rows, in row order, and is not empty. */
  lemma {:induction false} GroupedScoresAt(rows: seq<Row>, field: GroupKey, i: nat)
    requires i < |Grouped(rows, field)|
    ensures Grouped(rows, field)[i].1 == ScoresOf(rows, field, Grouped(rows, field)[i].0)
    ensures |Grouped(rows, field)[i].1| > 0
    decreases |rows|
  {
    var init := rows[..|rows| - 1];
    var last := rows[|rows| - 1];
    var key := KeyOf(last, field);
    var g0 := Grouped(init, field);
    var g := Grouped(rows, field);
    AddScoreEffect(g0, key, last.avgScore);
    var k := g[i].0;
    assert ScoresOf(rows, field, k) == ScoresOf(init, field, k) + (if key == k then [last.avgScore] else []);
    if i < |g0| {
      GroupedScoresAt(init, field, i);
    } else {
      GroupedKeys(init, field);
      assert key !in KeySet(g0) && k == key;
      ScoresOfAbsent(init, field, key);
    }
  }

  /** Each group holds the scores of exactly its own rows, in row order, and is never empty. */
  lemma GroupedScores(rows: seq<Row>, field: GroupKey)
    ensures forall i :: 0 <= i < |Grouped(rows, field)| ==>
      Grouped(rows, field)[i].1 == ScoresOf(rows, field, Grouped(rows, field)[i].0) && |Grouped(rows, field)[i].1| > 0
  {
    forall i | 0 <= i < |Grouped(rows, field)|
      ensures Grouped(rows, field)[i].1 == ScoresOf(rows, field, Grouped(rows, field)[i].0) && |Grouped(rows, field)[i].1| > 0
    {
      GroupedScoresAt(rows, field, i);
    }
  }

  /** The keys as they are first met, going through the rows in order. */
  function FirstOccurrences(rows: seq<Row>, field: GroupKey): seq<string>
    decreases |rows|
  {
    if |rows| == 0 then []
    else
      var init := rows[..|rows| - 1];
      var key := KeyOf(rows[|rows| - 1], field);
      FirstOccurrences(init, field) + (if key in KeysIn(init, field) then [] else [key])
  }

  /** The groups appear in the order in which their keys are first met. */
  lemma {:induction false} GroupedOrder(rows: seq<Row>, field: GroupKey)
    ensures Keys(Grouped(rows, field)) == FirstOccurrences(rows, field)
    decreases |rows|
  {
    if |rows| > 0 {
      var init := rows[..|rows| - 1];
      var key := KeyOf(rows[|rows| - 1], field);
      GroupedOrder(init, field);
      GroupedKeys(init, field);
      var g0 := Grouped(init, field);
      var g := Grouped(rows, field);
      AddScoreKeys(g0, key, rows[|rows| - 1].avgScore);
    }
  }

  /** A key met earlier in the sequence of first occurrences occurs earlier in the rows. */
  lemma {:induction false} FirstOccurrencesOrder(rows: seq<Row>, field: GroupKey)
    ensures forall i :: 0 <= i < |FirstOccurrences(rows, field)| ==> FirstOccurrences(rows, field)[i] in KeysIn(rows, field)
    ensures forall i, j :: 0 <= i < j < |FirstOccurrences(rows, field)| ==>
      FirstOccurrences(rows, field)[i] in KeysIn(rows, field) && FirstOccurrences(rows, field)[j] in KeysIn(rows, field) &&
      FirstIndex(rows, field, FirstOccurrences(rows, field)[i]) < FirstIndex(rows, field, FirstOccurrences(rows, field)[j])
    decreases |rows|
  {
    if |rows| > 0 {
      var init := rows[..|rows| - 1];
      var last := rows[|rows| - 1];
      assert rows == init + [last];
      FirstOccurrencesOrder(init, field);
      var fs0 := FirstOccurrences(init, field);
      var fs := FirstOccurrences(rows, field);
      forall i | 0 <= i < |fs0| ensures fs0[i] in KeysIn(init, field) && fs0[i] in KeysIn(rows, field) && FirstIndex(rows, field, fs0[i]) == FirstIndex(init, field, fs0[i]) {
        FirstIndexExtend(init, field, fs0[i], last);
      }
      if |fs| > |fs0| {
        var key := KeyOf(last, field);
        assert fs[|fs0|] == key && key !in KeysIn(init, field);
        KeysInSnoc(rows, field);
        assert FirstIndex(rows, field, key) == |init|;
      }
    }
  }

  /** FirstOccurrencesOrder at two given positions. */
  lemma FirstOccurrencesOrderAt(rows: seq<Row>, field: GroupKey, i: nat, j: nat)
    requires i < j < |FirstOccurrences(rows, field)|
    ensures FirstOccurrences(rows, field)[i] in KeysIn(rows, field) && FirstOccurrences(rows, field)[j] in KeysIn(rows, field)
    ensures FirstIndex(rows, field, FirstOccurrences(rows, field)[i]) < FirstIndex(rows, field, FirstOccurrences(rows, field)[j])
  {
    FirstOccurrencesOrder(rows, field);
  }

  /**
    If row a comes before the first row of the key at position k of the first
    occurrences, then row a's key sits at an earlier position.
  */
  lemma EarlierRowEarlierKey(rows: seq<Row>, field: GroupKey, a: nat, j: nat, k: nat)
    requires a < |rows| && j < |FirstOccurrences(rows, field)| && k < |FirstOccurrences(rows, field)|
    requires KeyOf(rows[a], field) == FirstOccurrences(rows, field)[j]
    requires FirstOccurrences(rows, field)[k] in KeysIn(rows, field)
    requires a < FirstIndex(rows, field, FirstOccurrences(rows, field)[k])
    ensures j < k
  {
    var fs := FirstOccurrences(rows, field);
    assert fs[j] in KeysIn(rows, field);
    assert FirstIndex(rows, field, fs[j]) <= a;
    if k < j {
      FirstOccurrencesOrderAt(rows, field, k, j);
    }
  }

  /** Appending a row does not move the first occurrence of a key already present. */
  lemma FirstIndexExtend(rows: seq<Row>, field: GroupKey, k: string, row: Row)
    requires k in KeysIn(rows, field)
    ensures k in KeysIn(rows + [row], field) && FirstIndex(rows + [row], field, k) == FirstIndex(rows, field, k)
  {
    assert (rows + [row])[..|rows|] == rows;
    KeysInSnoc(rows + [row], field);
  }

  function Sum(xs: seq<real>): real
    decreases |xs|
  {
    if |xs| == 0 then 0.0 else Sum(xs[..|xs| - 1]) + xs[|xs| - 1]
  }

  /** `sum(scores) / len(scores)`, exactly. */
  function Mean(xs: seq<real>): real
    requires |xs| > 0
  {
    Sum(xs) / |xs| as real
  }

  /** The mean of every group, keys in the same order (the dict comprehension). */
  function Means(groups: Dict<string, seq<real>>): (means: Dict<string, real>)
    requires forall i :: 0 <= i < |groups| ==> |groups[i].1| > 0
    ensures |means| == |groups|
    ensures forall i :: 0 <= i < |groups| ==> means[i].0 == groups[i].0 && means[i].1 == Mean(groups[i].1)
  {
    var means := seq(|groups|, i requires 0 <= i < |groups| => (groups[i].0, Mean(groups[i].1)));
    assert forall i :: 0 <= i < |groups| ==> means[i].0 == groups[i].0;
    means
  }

  /**
    The mean `avg_score` per key: one entry for each key that occurs in the
    rows, holding the mean over exactly that key's rows, in order of first
    occurrence. No group is empty, so no division by zero can occur.
  */
  function GroupMeans(rows: seq<Row>, field: GroupKey): (means: Dict<string, real>)
    ensures KeySet(means) == KeysIn(rows, field)
    ensures forall i :: 0 <= i < |means| ==>
      |ScoresOf(rows, field, means[i].0)| > 0 && means[i].1 == Mean(ScoresOf(rows, field, means[i].0))
    ensures Keys(means) == FirstOccurrences(rows, field)
  {
    GroupedScores(rows, field);
    GroupedKeys(rows, field);
    GroupedOrder(rows, field);
    var means := Means(Grouped(rows, field));
    assert Keys(means) == Keys(Grouped(rows, field));
    SameKeysSameKeySet(means, Grouped(rows, field));
    means
  }

  /** The means are taken group by group over the grouping dictionary. */
  lemma GroupMeansAreMeans(rows: seq<Row>, field: GroupKey)
    ensures forall i :: 0 <= i < |Grouped(rows, field)| ==> |Grouped(rows, field)[i].1| > 0
    ensures GroupMeans(rows, field) == Means(Grouped(rows, field))
  {
    GroupedScores(rows, field);
  }

  /** `average_score_by_country`: one entry per country that some row names. */
  function AverageByCountry(rows: seq<Row>): Dict<string, real> {
    GroupMeans(rows, ByCountry)
  }

  /** `avg_score_by_department`: departments are grouped by name alone, one entry per name some row carries. */
  function AverageByDepartment(rows: seq<Row>): Dict<string, real> {
    GroupMeans(rows, ByDepartment)
  }

  /**
    `max(d, key=d.get)`: the position of the largest value; among equal
    largest values, the first one.
  */
  function FirstMaxIndex(d: Dict<string, real>): (k: nat)
    requires |d| > 0
    ensures k < |d|
    ensures forall j :: 0 <= j < |d| ==> d[j].1 <= d[k].1
    ensures forall j :: 0 <= j < k ==> d[j].1 < d[k].1
    decreases |d|
  {
    if |d| == 1 then 0
    else
      var k := FirstMaxIndex(d[..|d| - 1]);
      if d[|d| - 1].1 > d[k].1 then |d| - 1 else k
  }

  /** The error `max` raises on an empty mapping. */
  datatype AggregationError = EmptyInput

  /** `best_department` with its mean; fails when there are no rows. */
  function BestDepartment(rows: seq<Row>): (r: Result<(string, real), AggregationError>)
    ensures r.Failure? <==> |rows| == 0
  {
    var means := AverageByDepartment(rows);
    assert |rows| > 0 ==> KeyOf(rows[0], ByDepartment) in KeySet(means);
    if |means| == 0 then Failure(EmptyInput)
    else
      Success(means[FirstMaxIndex(means)])
  }

  /** The mean `avg_score` over the rows of the department named d. */
  function DepartmentMean(rows: seq<Row>, d: string): real
    requires d in KeysIn(rows, ByDepartment)
  {
    ScoresOfPresent(rows, ByDepartment, d);
    Mean(ScoresOf(rows, ByDepartment, d))
  }

  /** Where a key of the rows sits among the group means, and the mean found there. */
  lemma GroupPosition(rows: seq<Row>, field: GroupKey, k: string) returns (j: nat)
    requires k in KeysIn(rows, field)
    ensures j < |GroupMeans(rows, field)| && j < |FirstOccurrences(rows, field)|
    ensures GroupMeans(rows, field)[j].0 == k && FirstOccurrences(rows, field)[j] == k
    ensures |ScoresOf(rows, field, k)| > 0 && GroupMeans(rows, field)[j].1 == Mean(ScoresOf(rows, field, k))
  {
    var means := GroupMeans(rows, field);
    assert k in KeySet(means);
    j :| 0 <= j < |means| && means[j].0 == k;
    assert Keys(means)[j] == k;
  }

  /** One row's department, compared with the chosen entry of the department means. */
  lemma DepartmentAgainstBest(rows: seq<Row>, k: nat, a: nat)
    requires |rows| > 0 && a < |rows|
    requires k == FirstMaxIndex(AverageByDepartment(rows))
    ensures AverageByDepartment(rows)[k].0 in KeysIn(rows, ByDepartment)
    ensures KeyOf(rows[a], ByDepartment) in KeysIn(rows, ByDepartment)
    ensures DepartmentMean(rows, KeyOf(rows[a], ByDepartment)) <= AverageByDepartment(rows)[k].1
    ensures a < FirstIndex(rows, ByDepartment, AverageByDepartment(rows)[k].0) ==>
      DepartmentMean(rows, KeyOf(rows[a], ByDepartment)) < AverageByDepartment(rows)[k].1
  {
    var means := AverageByDepartment(rows);
    assert means[k].0 in KeySet(means);
    var j := GroupPosition(rows, ByDepartment, KeyOf(rows[a], ByDepartment));
    if a < FirstIndex(rows, ByDepartment, means[k].0) {
      assert Keys(means)[k] == means[k].0;
      EarlierRowEarlierKey(rows, ByDepartment, a, j, k);
    }
  }

  /**
    The chosen department has the highest mean of all departments, and every
    department whose first row comes before the chosen one's first row has a
    strictly lower mean: ties go to the department met first.
  */
  lemma BestDepartmentIsFirstMaximum(rows: seq<Row>)
    requires |rows| > 0
    ensures BestDepartment(rows).Success?
    ensures BestDepartment(rows).value.0 in KeysIn(rows, ByDepartment)
    ensures BestDepartment(rows).value.1 == DepartmentMean(rows, BestDepartment(rows).value.0)
    ensures forall a :: 0 <= a < |rows| ==>
      KeyOf(rows[a], ByDepartment) in KeysIn(rows, ByDepartment) &&
      DepartmentMean(rows, KeyOf(rows[a], ByDepartment)) <= BestDepartment(rows).value.1
    ensures forall a :: 0 <= a < FirstIndex(rows, ByDepartment, BestDepartment(rows).value.0) ==>
      DepartmentMean(rows, KeyOf(rows[a], ByDepartment)) < BestDepartment(rows).value.1
  {
    var k := FirstMaxIndex(AverageByDepartment(rows));
    forall a | 0 <= a < |rows|
      ensures KeyOf(rows[a], ByDepartment) in KeysIn(rows, ByDepartment)
      ensures DepartmentMean(rows, KeyOf(rows[a], ByDepartment)) <= BestDepartment(rows).value.1
      ensures a < FirstIndex(rows, ByDepartment, BestDepartment(rows).value.0) ==>
        DepartmentMean(rows, KeyOf(rows[a], ByDepartment)) < BestDepartment(rows).value.1
    {
      DepartmentAgainstBest(rows, k, a);
    }
  }
}
