/**
 * `isContinental`: which basemap features are drawn, by the numeric
 * state id (a FIPS state code).
 */
module Geography {
  import opened Seqs

  /**
   * `id < 60 && id !== 2 && id !== 15`. Among the state codes it keeps all
   * but Alaska (2) and Hawaii (15), i.e. the 48 contiguous states and DC; it
   * drops every code from 60 on, the territories (60 American Samoa, 66 Guam,
   * 69 Northern Marianas, 72 Puerto Rico, 78 Virgin Islands) among them.
   */
  function IsContinental(id: int): (keep: bool)
    ensures IsStateCode(id) ==> (keep <==> id != 2 && id != 15)
    ensures id >= 60 ==> !keep
  {
    id < 60 && id != 2 && id != 15
  }

  /** FIPS codes of the fifty states and the District of Columbia (11): 1..56 without the unused 3, 7, 14, 43 and 52. */
  predicate IsStateCode(id: int)
  {
    1 <= id <= 56 && id != 3 && id != 7 && id != 14 && id != 43 && id != 52
  }

  /** `geometries.filter(isContinental)` on the features' ids. */
  function ContinentalOnly(ids: seq<int>): (r: seq<int>)
    ensures IsSubsequence(r, ids)
    ensures forall id :: id in r <==> id in ids && IsContinental(id)
  {
    FilterSpec(ids, IsContinental);
    Filter(ids, IsContinental)
  }
}
