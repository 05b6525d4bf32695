/**
  The five-level nested record set: continent -> country -> university ->
  faculty -> department -> student. Every level is an insertion-ordered
  mapping; the single-key wrappers of the script (`{"countries": ...}`,
  `{"students": ...}`) are collapsed, so a continent *is* its country mapping
  and a department *is* its student mapping.
*/
module Hierarchy {
  import opened Wrappers
  import opened Dicts

  /** Student ids are unique only inside one department. */
  type StudentId = int

  /**
    A student record. `calcScore` and `algebraScore` hold the two scores (`calc`, `algebra`) the pipeline
    reads; any other subject sits in `otherScores` and is never inspected.
  */
  datatype Student = Student(
    name: Option<string>,
    calcScore: Option<int>,
    algebraScore: Option<int>,
    otherScores: map<string, Option<int>>)

  type Department = Dict<StudentId, Student>
  type Faculty = Dict<string, Department>
  type University = Dict<string, Faculty>
  type Country = Dict<string, University>
  type Continent = Dict<string, Country>
  /** The root mapping `system["continents"]`. */
  type Continents = Dict<string, Continent>

  /** A score fails the check when it is missing, below 0 or above 100. */
  predicate ScoreRejected(score: Option<int>) {
    score.None? || score.value < 0 || score.value > 100
  }

  /** The three checks of the cleaning step, in the order the script makes them. */
  predicate IsInvalid(s: Student) {
    if s.name.None? then true
    else if ScoreRejected(s.calcScore) then true
    else ScoreRejected(s.algebraScore)
  }

  /** Both scores are present: what the flattening step's arithmetic needs. */
  predicate HasScores(s: Student) {
    s.calcScore.Some? && s.algebraScore.Some?
  }

  /**
    One collect-then-delete sweep of the pipeline. Each pass acts on the
    mappings at one depth: 0 is the root continent mapping, 5 the student
    mapping of a department. `Validate` deletes invalid students; each Prune
    pass deletes the entries of its mappings whose child mapping is empty.
  */
  datatype Pass = Validate | PruneDepartments | PruneFaculties | PruneUniversities | PruneCountries | PruneContinents
  {
    function Depth(): nat {
      match this
      case PruneContinents => 0
      case PruneCountries => 1
      case PruneUniversities => 2
      case PruneFaculties => 3
      case PruneDepartments => 4
      case Validate => 5
    }
  }
}
