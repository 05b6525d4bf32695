/** The leaf check: which students of one department are to be deleted. */
module Validation {
  import opened Wrappers
  import opened Dicts
  import opened Hierarchy

  /** The ids the cleaning step collects in `students_to_delete`. */
  function InvalidIds(d: Department): (ids: set<StudentId>)
    ensures forall i :: 0 <= i < |d| ==> (d[i].0 in ids <==> IsInvalid(d[i].1))
    ensures ids <= KeySet(d)
    decreases |d|
  {
    if |d| == 0 then {}
    else
      PrefixKeyFresh(d, |d| - 1);
      InvalidIds(d[..|d| - 1]) + (if IsInvalid(d[|d| - 1].1) then {d[|d| - 1].0} else {})
  }

  /**
    The scan over one department's students, with the script's early
    `continue`s: the first failing check adds the id and skips the rest.
  */
  method CollectInvalid(d: Department) returns (doomed: set<StudentId>)
    ensures doomed == InvalidIds(d)
  {
    doomed := {};
    var i := 0;
    while i < |d|
      invariant 0 <= i <= |d|
      invariant doomed == InvalidIds(d[..i])
    {
      assert d[..i + 1][..i] == d[..i];
      var (id, info) := d[i];
      if info.name.None? {
        doomed := doomed + {id};
      } else if info.calcScore.None? || info.calcScore.value < 0 || info.calcScore.value > 100 {
        doomed := doomed + {id};
      } else if info.algebraScore.None? || info.algebraScore.value < 0 || info.algebraScore.value > 100 {
        doomed := doomed + {id};
      }
      i := i + 1;
    }
    assert d[..|d|] == d;
  }
}
