# Global education nested data pipeline, in Dafny

This project models the pipeline of `global_education_nested_data_capstone.py`. The script works on a five-level
nested record set: continent → country → university → faculty → department → student. It runs four stages:

1. **Cleaning.** Every department collects the ids of its invalid students, then deletes them. A student is invalid
   when its name is missing, or when its `calc` or `algebra` score is missing, below 0 or above 100.
2. **Pruning.** Five collect-then-delete passes remove empty containers from the inside out: departments, then
   faculties, universities, countries and continents.
3. **Flattening.** Every remaining student becomes one 10-field row:
   - the path keys;
   - the student id and name;
   - both scores;
   - `avg_score = (calc + algebra) / 2`.
4. **Aggregation.**
   - Rows are grouped by country and by department, and each group's average score is computed.
   - The best department is the first department whose average is highest (`max` over the department mapping).

Every nested mapping is a `Dict<K, V>`, a sequence of pairs with distinct keys. Python dictionaries keep insertion
order, and so does this type.

The `{"countries": ...}` ... `{"students": ...}` wrapper records are collapsed: a continent *is* its country mapping,
and a department *is* its student mapping.

The modules are:

- `Dicts`: insertion-ordered mappings, key collection and collect-then-delete.
- `Hierarchy`: the tree, the student record, the validity checks, and `Pass`. A `Pass` is either the cleaning sweep
  or one of the five pruning sweeps.
- `Validation`: which students a department deletes.
- `Passes`: each sweep at every level, as a specification function `OnX` and a looping method `ApplyToX`.
- `Flattening`: the leaves of the tree in traversal order, the rows, and the nested `rows.append` loops.
- `Aggregation`: grouping, means and the arg-max.
- `Pipeline`: the stages composed. The `EducationSystem` class holds the `continents` mapping and the `rows` list that
  the script mutates.
- `Containers`: which containers survive, stated by paths.
- `Scenario`: the script's own dataset and the report it produces.

## Model

A mapping is *settled* for a sweep when the sweep has nothing left to delete in it. For the cleaning sweep, every
student below it is valid. For a pruning sweep, every mapping at that sweep's depth has only non-empty children.

| member | source | states |
|---|---|---|
| Dicts.Without | global_education_nested_data_capstone.py:106-107 | deleting a set of keys keeps exactly the entries whose key is outside the set, and the key set shrinks by exactly those keys |
| Dicts.WithoutNothing | global_education_nested_data_capstone.py:106-107 | deleting a key set disjoint from the mapping's keys leaves it unchanged; the script meets this only with an empty deletion set, which is what makes a sweep over a settled mapping the identity |
| Dicts.WithoutWithout | global_education_nested_data_capstone.py:106-107 | two deletions in a row equal one deletion of the union of the key sets |
| Dicts.DeleteStep | global_education_nested_data_capstone.py:106-107 | at each turn of the delete loop the next key is still present, and deleting it extends the deletions made so far |
| Dicts.DeleteKeys | global_education_nested_data_capstone.py:106-107 | the delete loop, given only keys that are present (`del` fails on a missing one), returns the mapping without them, whatever order the set yields |
| Dicts.Update | global_education_nested_data_capstone.py:222 | assigning to a present key keeps the key set and every position, and changes only that key's value |
| Dicts.EmptyKeys | global_education_nested_data_capstone.py:119-123 | an entry's key is collected if and only if its child mapping is empty |
| Dicts.CollectEmpty | global_education_nested_data_capstone.py:119-123 | the scanning loop collects exactly the keys of the empty children |
| Hierarchy.IsInvalid | global_education_nested_data_capstone.py:95-104 | the three checks in the script's order; `Pipeline.ValidMeansInRange` states which students pass them |
| Validation.InvalidIds | global_education_nested_data_capstone.py:88-104 | a student id is marked if and only if its record fails one of the three checks |
| Validation.CollectInvalid | global_education_nested_data_capstone.py:88-104 | the loop over a department's students collects exactly the invalid ids |
| Pipeline.ValidMeansInRange | global_education_nested_data_capstone.py:95-104 | a student is kept exactly when it has a name and both scores lie in [0, 100], the bounds 0 and 100 included |
| Passes.OnDepartment | global_education_nested_data_capstone.py:88-107 | cleaning keeps exactly the valid students, with unchanged records; a pruning sweep leaves a department's keys alone |
| Passes.ApplyToDepartment | global_education_nested_data_capstone.py:88-107 | the collect-then-delete loop over a department computes `OnDepartment` |
| Passes.DepartmentSettles | global_education_nested_data_capstone.py:88-107 | after cleaning, a department holds no invalid student |
| Passes.DepartmentFixedPoint | global_education_nested_data_capstone.py:88-107 | cleaning changes a department if and only if it holds an invalid student |
| Passes.OnFaculty | global_education_nested_data_capstone.py:113-126 | the department sweep keeps exactly the non-empty departments; a deeper sweep keeps the department keys |
| Passes.ApplyToFaculty | global_education_nested_data_capstone.py:113-126 | the loop over a faculty computes `OnFaculty`, deleting after the scan |
| Passes.FacultySettles | global_education_nested_data_capstone.py:113-126 | after a sweep, the faculty is settled for that sweep |
| Passes.FacultyKeepsSettled | global_education_nested_data_capstone.py:113-126 | a shallower sweep keeps a faculty settled for a deeper sweep |
| Passes.FacultyFixedPoint | global_education_nested_data_capstone.py:113-126 | a sweep leaves a faculty unchanged if and only if the faculty is settled for it |
| Passes.OnUniversity | global_education_nested_data_capstone.py:128-140 | the faculty sweep keeps exactly the faculties with a department; other sweeps keep the faculty keys |
| Passes.ApplyToUniversity | global_education_nested_data_capstone.py:128-140 | the loop over a university computes `OnUniversity` |
| Passes.UniversitySettles | global_education_nested_data_capstone.py:128-140 | after a sweep, the university is settled for that sweep |
| Passes.UniversityKeepsSettled | global_education_nested_data_capstone.py:128-140 | a shallower sweep keeps a university settled for a deeper sweep |
| Passes.UniversityFixedPoint | global_education_nested_data_capstone.py:128-140 | a sweep leaves a university unchanged if and only if it is settled for it |
| Passes.OnCountry | global_education_nested_data_capstone.py:142-153 | the university sweep keeps exactly the universities with a faculty; other sweeps keep the keys |
| Passes.ApplyToCountry | global_education_nested_data_capstone.py:142-153 | the loop over a country computes `OnCountry` |
| Passes.CountrySettles | global_education_nested_data_capstone.py:142-153 | after a sweep, the country is settled for that sweep |
| Passes.CountryKeepsSettled | global_education_nested_data_capstone.py:142-153 | a shallower sweep keeps a country settled for a deeper sweep |
| Passes.CountryFixedPoint | global_education_nested_data_capstone.py:142-153 | a sweep leaves a country unchanged if and only if it is settled for it |
| Passes.OnContinent | global_education_nested_data_capstone.py:155-165 | the country sweep keeps exactly the countries with a university; other sweeps keep the keys |
| Passes.ApplyToContinent | global_education_nested_data_capstone.py:155-165 | the loop over a continent computes `OnContinent` |
| Passes.ContinentSettles | global_education_nested_data_capstone.py:155-165 | after a sweep, the continent is settled for that sweep |
| Passes.ContinentKeepsSettled | global_education_nested_data_capstone.py:155-165 | a shallower sweep keeps a continent settled for a deeper sweep |
| Passes.ContinentFixedPoint | global_education_nested_data_capstone.py:155-165 | a sweep leaves a continent unchanged if and only if it is settled for it |
| Passes.OnContinents | global_education_nested_data_capstone.py:167-175 | the continent sweep keeps exactly the continents with a country; other sweeps keep the continent keys |
| Passes.ApplyToContinents | global_education_nested_data_capstone.py:167-175 | the loop over the root mapping computes `OnContinents` |
| Passes.ContinentsSettles | global_education_nested_data_capstone.py:167-175 | after a sweep, the whole tree is settled for that sweep |
| Passes.ContinentsKeepsSettled | global_education_nested_data_capstone.py:113-175 | a shallower sweep keeps the tree settled for a deeper sweep, which is why the inside-out order works |
| Passes.ContinentsFixedPoint | global_education_nested_data_capstone.py:167-175 | a sweep leaves the tree unchanged if and only if the tree is settled for it |
| Flattening.Average | global_education_nested_data_capstone.py:192 | `(calc + algebra) / 2` is the midpoint of the two scores: equally far from both, and between them |
| Flattening.RowOf | global_education_nested_data_capstone.py:190-207 | the 10-tuple carries the student's path keys, id, name and both scores, and the average of the scores |
| Flattening.ValidOnly | global_education_nested_data_capstone.py:88-107 | a leaf is kept if and only if it was present and valid |
| Flattening.ValidOnlyAppend | global_education_nested_data_capstone.py:88-107 | cleaning the leaves of two subtrees is cleaning each and concatenating |
| Flattening.RowsOfAppend | global_education_nested_data_capstone.py:181-207 | the rows of two runs of leaves are the concatenation of their rows |
| Flattening.ContinentsEntriesCount | global_education_nested_data_capstone.py:181-207 | there are as many leaves as the department sizes add up to |
| Flattening.ContinentsEntriesMember | global_education_nested_data_capstone.py:183-188 | a leaf is listed if and only if its five keys and id lead to its record in the tree |
| Flattening.ContinentsEntriesUnique | global_education_nested_data_capstone.py:183-188 | no two leaves of the tree share their five path keys and id, because every mapping holds each key once |
| Flattening.DepartmentEntriesUnique | global_education_nested_data_capstone.py:188 | no two leaves of a department share an id |
| Flattening.ContinentsEntriesWithout | global_education_nested_data_capstone.py:167-175 | deleting empty continents loses no leaf |
| Flattening.ContinentsEntriesAfter | global_education_nested_data_capstone.py:82-175 | cleaning turns the leaves into their valid ones, in order; a pruning sweep leaves the leaves unchanged |
| Flattening.DepartmentEntriesAfter | global_education_nested_data_capstone.py:88-107 | the same, for the students of one department |
| Flattening.AppendDepartmentRows | global_education_nested_data_capstone.py:188-207 | the student loop appends one row per student, in order |
| Flattening.AppendFacultyRows | global_education_nested_data_capstone.py:187-207 | the department loop appends the rows of every department of a faculty, in order |
| Flattening.AppendUniversityRows | global_education_nested_data_capstone.py:186-207 | the faculty loop appends the rows of every faculty of a university, in order |
| Flattening.AppendCountryRows | global_education_nested_data_capstone.py:185-207 | the university loop appends the rows of every university of a country, in order |
| Flattening.AppendContinentRows | global_education_nested_data_capstone.py:184-207 | the country loop appends the rows of every country of a continent, in order |
| Flattening.AppendContinentsRows | global_education_nested_data_capstone.py:181-207 | the outer loop appends one row per leaf of the tree, in traversal order |
| Aggregation.KeysInSnoc | global_education_nested_data_capstone.py:215-222 | one more row adds exactly its own key to the set of group keys |
| Aggregation.ScoresOfPresent | global_education_nested_data_capstone.py:215-222 | a key that occurs in the rows has at least one score |
| Aggregation.FirstIndex | global_education_nested_data_capstone.py:219-220 | the first row with a given key: it has that key, and no earlier row does |
| Aggregation.AddScore | global_education_nested_data_capstone.py:219-222 | one turn of the grouping loop; `AddScoreNew`, `AddScoreKnown` and `AddScoreKeys` state its effect |
| Aggregation.AddScoreNew | global_education_nested_data_capstone.py:219-222 | an unseen key is appended with a one-score list |
| Aggregation.AddScoreKnown | global_education_nested_data_capstone.py:222 | a seen key keeps its position, and its list gets the score appended |
| Aggregation.AddScoreKeys | global_education_nested_data_capstone.py:219-222 | the key order grows only by a new key, at the end |
| Aggregation.Grouped | global_education_nested_data_capstone.py:213-222 | the grouping after the loop over all rows; `GroupedKeys`, `GroupedScores` and `GroupedOrder` relate it to the rows |
| Aggregation.GroupScores | global_education_nested_data_capstone.py:213-222 | the grouping loop computes the grouping of the rows |
| Aggregation.GroupedKeys | global_education_nested_data_capstone.py:213-222 | the group keys are exactly the keys that occur in the rows |
| Aggregation.GroupedScoresAt | global_education_nested_data_capstone.py:213-222 | each group holds, in row order, the scores of exactly the rows with its key, and is non-empty |
| Aggregation.GroupedScores | global_education_nested_data_capstone.py:233-242 | the same, for every group at once |
| Aggregation.GroupedOrder | global_education_nested_data_capstone.py:213-222 | groups appear in the order in which their keys first occur in the rows |
| Aggregation.FirstOccurrencesOrder | global_education_nested_data_capstone.py:219-220 | an earlier group's key first occurs in an earlier row than a later group's key |
| Aggregation.GroupMeans | global_education_nested_data_capstone.py:224-227 | the keys are exactly those in the rows, in first-occurrence order, and each value is the mean over that key's rows |
| Aggregation.GroupMeansAreMeans | global_education_nested_data_capstone.py:244-247 | every group is non-empty, so no mean divides by zero, and the means are the means of the grouping |
| Aggregation.AverageByCountry | global_education_nested_data_capstone.py:224-227 | `GroupMeans` by country: the countries of the rows, in first-occurrence order, each with the mean of its rows |
| Aggregation.AverageByDepartment | global_education_nested_data_capstone.py:244-247 | `GroupMeans` by department name: the departments of the rows, in first-occurrence order, each with the mean of its rows |
| Aggregation.FirstMaxIndex | global_education_nested_data_capstone.py:249-252 | the chosen value is at least every value, and strictly greater than every earlier one |
| Aggregation.BestDepartment | global_education_nested_data_capstone.py:249-252 | the selection fails if and only if there are no rows |
| Aggregation.GroupPosition | global_education_nested_data_capstone.py:244-247 | every department of the rows has its position among the means, holding the mean of its rows |
| Aggregation.BestDepartmentIsFirstMaximum | global_education_nested_data_capstone.py:233-252 | the best department is a department of the rows, its value is its mean, no department has a larger mean, and every department first met earlier has a smaller mean |
| Pipeline.Cleaned | global_education_nested_data_capstone.py:80-107 | the tree after cleaning; `CleanedKeepsExactlyValid` and `Containers.CleanedKeepsContainers` state what it keeps |
| Pipeline.CleanedKeepsExactlyValid | global_education_nested_data_capstone.py:80-107 | after cleaning all students are valid; the surviving leaves are exactly the valid leaves, with the same records in the same order |
| Pipeline.Pruned | global_education_nested_data_capstone.py:113-175 | the tree after the five sweeps, departments first; `PrunedHasNoEmptyContainers`, `PruningKeepsLeaves` and `Containers.PrunedContainers` state what it keeps |
| Pipeline.PruneStep | global_education_nested_data_capstone.py:113-175 | after one sweep, the tree is settled for it and stays settled for every deeper pruning sweep |
| Pipeline.PrunedFromSettled | global_education_nested_data_capstone.py:113-175 | after the sweeps from depth 4 up to some depth, no container at that depth or deeper is empty |
| Pipeline.PrunedHasNoEmptyContainers | global_education_nested_data_capstone.py:113-175 | after the five sweeps, no department, faculty, university, country or continent is empty |
| Pipeline.PruningKeepsLeaves | global_education_nested_data_capstone.py:113-175 | pruning deletes no student: the leaves, with their paths, stay the same and in order |
| Pipeline.PruneKeepsValid | global_education_nested_data_capstone.py:113-175 | one pruning sweep keeps a tree of valid students valid |
| Pipeline.PrunedFromKeepsValid | global_education_nested_data_capstone.py:113-175 | pruning keeps a tree of valid students valid |
| Pipeline.PrunedFromUnchanged | global_education_nested_data_capstone.py:113-175 | on a tree without empty containers, the sweeps delete nothing |
| Pipeline.Tidied | global_education_nested_data_capstone.py:80-175 | cleaning then pruning; `TidiedShape`, `TidiedIdempotent` and `Containers.TidiedContainers` state its result |
| Pipeline.TidiedShape | global_education_nested_data_capstone.py:80-175 | after cleaning and pruning, all students are valid, no container is empty, and the leaves are the valid leaves of the input |
| Pipeline.SettledTreeUnchanged | global_education_nested_data_capstone.py:80-175 | on a valid tree without empty containers, cleaning and pruning change nothing |
| Pipeline.TidiedIdempotent | global_education_nested_data_capstone.py:80-175 | running cleaning and pruning a second time deletes nothing |
| Pipeline.TidiedLeavesScored | global_education_nested_data_capstone.py:99-104 | every student that survives cleaning has both scores, so the average is defined |
| Pipeline.FlatRowsDescribeStudents | global_education_nested_data_capstone.py:181-207 | one row per student; each row's path and id lead to a record with its name and scores; the row's average is (calc + algebra) / 2 |
| Pipeline.EveryStudentHasRow | global_education_nested_data_capstone.py:181-207 | every student reachable in the tree has its row |
| Pipeline.RowsNameDistinctStudents | global_education_nested_data_capstone.py:181-207 | no two rows share their path and student id; with `EveryStudentHasRow`, every student has exactly one row |
| Pipeline.EducationSystem.constructor | global_education_nested_data_capstone.py:80 | the object holds the input tree and no rows |
| Pipeline.EducationSystem.Clean | global_education_nested_data_capstone.py:82-107 | the tree becomes its cleaned version, and the rows are untouched |
| Pipeline.EducationSystem.Prune | global_education_nested_data_capstone.py:113-175 | the five sweeps in inside-out order turn the tree into its pruned version |
| Pipeline.EducationSystem.Flatten | global_education_nested_data_capstone.py:181-207 | the rows become the rows of the tree, and the tree is untouched |
| Pipeline.Analytics | global_education_nested_data_capstone.py:80-252 | the outcome of the whole script; `AnalyticsOutcome` states when it fails and what it reports |
| Pipeline.AnalyticsOutcome | global_education_nested_data_capstone.py:80-252 | the run fails if and only if no student survives cleaning; otherwise it reports the number of valid students, the country means and the first department of highest mean |
| Pipeline.RunCapstone | global_education_nested_data_capstone.py:80-252 | the script, run statement by statement on the object, produces the outcome of `Analytics` |
| Containers.OccupiedIsContainer | global_education_nested_data_capstone.py:183-188 | a path above some student names a container that exists |
| Containers.ContainerIsOccupied | global_education_nested_data_capstone.py:113-175 | in a tree without empty containers, every container has a student below it |
| Containers.CleanedKeepsContainers | global_education_nested_data_capstone.py:88-107 | cleaning deletes students only: a container exists after cleaning if and only if it existed before |
| Containers.PrunedContainers | global_education_nested_data_capstone.py:113-175 | a container survives pruning if and only if some student lies below it; pruning creates no container |
| Containers.TidiedContainers | global_education_nested_data_capstone.py:80-175 | a container survives cleaning and pruning if and only if some valid student lies below it; none is created |
| Scenario.SampleLeaves | global_education_nested_data_capstone.py:21-74 | the dataset's six students, with their paths, in order |
| Scenario.SampleValidEntries | global_education_nested_data_capstone.py:88-107 | cleaning the dataset keeps Ada, Hans and Lena |
| Scenario.SampleFlattened | global_education_nested_data_capstone.py:181-207 | the dataset flattens to three rows, with averages 81.5, 89.0 and 94.0; Bola's Physics record is gone |
| Scenario.SamplePhysicsPruned | global_education_nested_data_capstone.py:113-126 | Physics exists in the input, is pruned once its only student is removed, and Math survives |
| Scenario.SampleAverages | global_education_nested_data_capstone.py:213-247 | the country means are Nigeria 81.5 then Germany 91.5; the department means are Math 81.5 then CS 91.5 |
| Scenario.SampleBest | global_education_nested_data_capstone.py:249-252 | the best department is CS with 91.5 |
| Scenario.SampleReport | global_education_nested_data_capstone.py:21-252 | the report on the dataset: Nigeria 81.5, Germany 91.5, best department CS with 91.5, three students processed |

## Left out

- Printing the report (lines 258-265) is not modelled. `Pipeline.Report` holds the values that are printed.
- Floating point is not modelled. Averages and means are exact `real` numbers, so rounding in `sum(...) / len(...)`
  is not captured.
- The `{"countries": ...}` ... `{"students": ...}` wrapper records are collapsed into the mappings they hold.
  - A tree in which such a key is missing is not representable.
  - The `KeyError` that Python would raise on such a tree is therefore not modelled.
  - The same holds for a student record without a `name` or `scores` key.
- `del` on a missing key raises `KeyError`. `Dicts.DeleteKeys` requires every key to be present, and every call site
  passes keys it has just collected from the same mapping, so that error path cannot occur in the script.
- Python compares scores of any type. The model only handles integer scores or `None`.
- Scores other than `calc` and `algebra` sit in `Student.otherScores`. The pipeline never reads them.
- Flattening a student with a missing score raises `TypeError` in Python. The model states this as a precondition:
  `Flattening.RowOf`, `Pipeline.FlatRows` and `Pipeline.EducationSystem.Flatten` require both scores.
  - `Pipeline.TidiedLeavesScored` proves that cleaning guarantees this precondition.
- The script mutates nested dictionaries in place. The model instead reassigns each level's mapping with its
  updated value.
  - `EducationSystem.continents` is the field that is reassigned.
  - Aliasing between sub-mappings cannot be expressed; the nested literal has none.
- The order of the collected deletion sets is not modelled. Python sets are unordered, and every deletion order gives
  the same result, so the model keeps a `set`.
- Pipeline.PrunedHasNoEmptyContainers: the root `continents` mapping itself may end up empty. The script never checks
  it, so the model does not claim otherwise.
- The input dataset is modelled only as the `Scenario.Sample` value, used for the end-to-end lemmas. The pipeline
  lemmas hold for every tree.
