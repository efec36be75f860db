/** The client's eligibility filter and chance wrapper (`calculations.ts`). The module-level
    `branches` variable, which `filterColleges` overwrites and `calculateAdmissionChance`
    reads, is a field of `Calculator`; the estimator's table is a constant field. */
module Calculations {
  import opened Wrappers
  import opened Schema
  import opened Seqs
  import opened MlPredictor

  // ---------------------------------------------------------------------------------------
  // The chance of a college for a branch that is not known

  /** `100 - (max(0, rank - 1000) / 500) * 100`, clamped to [0, 100]. */
  function RankPercentage(rank: int): (p: real)
    ensures 0.0 <= p <= 100.0
    ensures rank <= 1000 ==> p == 100.0
    ensures rank >= 1500 ==> p == 0.0
    ensures 1000 <= rank <= 1500 ==> p == (1500 - rank) as real / 5.0
  {
    var raw := 100.0 - ((if rank - 1000 > 0 then rank - 1000 else 0) as real / 500.0) * 100.0;
    if raw > 100.0 then 100.0 else if raw < 0.0 then 0.0 else raw
  }

  /** The percentage given when the branch is not found: the clamped rank percentage
      weighted by the placement rate (75 when absent or zero). */
  function UnmatchedPercentage(college: College, rank: int): (p: real)
    ensures 0.0 <= PlacementWeight(college) <= 1.0 ==> 0.0 <= p <= 100.0
    ensures rank <= 1000 ==> p == 100.0 * PlacementWeight(college)
  {
    var w := PlacementWeight(college);
    var q := RankPercentage(rank);
    WeightedInRange(q, w);
    q * w
  }

  lemma WeightedInRange(q: real, w: real)
    requires 0.0 <= q <= 100.0
    ensures 0.0 <= w <= 1.0 ==> 0.0 <= q * w <= 100.0
  {
    if 0.0 <= w <= 1.0 {
      NonNegativeProduct(q, w);
      NonNegativeProduct(q, 1.0 - w);
      assert q * w == q - q * (1.0 - w);
    }
  }

  lemma NonNegativeProduct(a: real, b: real)
    requires 0.0 <= a && 0.0 <= b
    ensures 0.0 <= a * b
  {
    if b > 0.0 {
      DivideMonotone(0.0, a * b, b);
      assert (a * b) / b == a;
    }
  }

  /** A placement rate between 0 and 100 gives a weight between 0 and 1. */
  lemma PlacementWeightInUnitInterval(college: College)
    requires college.placementRate.Some? ==> 0.0 <= college.placementRate.value <= 100.0
    ensures 0.0 <= PlacementWeight(college) <= 1.0
  {
  }

  /** The result when no branch of that name belongs to the college. */
  function UnmatchedChance(college: College, rank: int): (r: Prediction)
    ensures rank == 0 ==> r == Prediction(Medium, 50)
    ensures rank != 0 ==>
              var p := UnmatchedPercentage(college, rank);
              r.chance == LabelOf(p) && p - 0.5 < r.percentage as real <= p + 0.5
    ensures LabelConsistent(r)
  {
    if rank == 0 then Prediction(Medium, 50)
    else Labelled(UnmatchedPercentage(college, rank))
  }

  /** With a placement rate between 0 and 100 the percentage is a whole number in [0, 100]. */
  lemma UnmatchedChanceInRange(college: College, rank: int)
    requires college.placementRate.Some? ==> 0.0 <= college.placementRate.value <= 100.0
    ensures 0 <= UnmatchedChance(college, rank).percentage <= 100
  {
    PlacementWeightInUnitInterval(college);
  }

  // ---------------------------------------------------------------------------------------
  // Filtering without a rank

  /** Some branch of the college is acceptable: any branch when no branch names are
      selected, otherwise one whose name is selected and whose course is the requested one. */
  predicate HasMatchingBranch(college: College, branches: seq<Branch>, filters: FilterValues) {
    exists b :: b in branches && b.collegeId == college.id &&
      (filters.selectedBranches == [] || (b.name in filters.selectedBranches && b.course == filters.course))
  }

  /** Some "collegeId-branchId" entry names the college (its branch part is not looked at). */
  predicate HasSelectedCombination(college: College, filters: FilterValues) {
    exists e :: e in filters.selectedInstituteBranches && TextBeforeDash(e) == IdToString(college.id)
  }

  /** The checks applied to each college when no rank is given. */
  predicate PassesBasicFilters(college: College, branches: seq<Branch>, filters: FilterValues) {
    && !(filters.maxFee != 0 && college.annualFee > filters.maxFee)
    && !(filters.selectedCollegeTypes != [] && college.collegeType !in filters.selectedCollegeTypes)
    && !(filters.selectedInstitutes != [] && IdToString(college.id) !in filters.selectedInstitutes)
    && (filters.selectedInstituteBranches == [] || HasSelectedCombination(college, filters))
    && HasMatchingBranch(college, branches, filters)
  }

  /** The colleges kept when no rank is given: those passing every check, in their order. */
  function FilterWithoutRank(colleges: seq<College>, branches: seq<Branch>, filters: FilterValues): (r: seq<College>)
    ensures forall c :: c in r <==> c in colleges && PassesBasicFilters(c, branches, filters)
    ensures forall c {:trigger multiset(r)[c]} ::
              multiset(r)[c] == if PassesBasicFilters(c, branches, filters) then multiset(colleges)[c] else 0
    ensures Subsequence(r, colleges)
  {
    var keep := c => PassesBasicFilters(c, branches, filters);
    FilterIsSubsequence(colleges, keep);
    Filter(colleges, keep)
  }

  /** A college whose fee is over a non-zero ceiling is never kept. */
  lemma FeeCeilingExcludes(colleges: seq<College>, branches: seq<Branch>, filters: FilterValues, c: College)
    requires filters.maxFee != 0 && c.annualFee > filters.maxFee
    ensures c !in FilterWithoutRank(colleges, branches, filters)
  {
  }

  /** A college none of whose branches is in `branches` is never kept. */
  lemma CollegeWithoutBranchesExcluded(colleges: seq<College>, branches: seq<Branch>, filters: FilterValues,
                                       c: College)
    requires forall b :: b in branches ==> b.collegeId != c.id
    ensures c !in FilterWithoutRank(colleges, branches, filters)
  {
  }

  /** An entry "collegeId-branchId" selects the college whatever its branch part: the entry
      built from any branch id, even one of no branch of that college, lets the college through
      the institute-branch check. */
  lemma InstituteBranchEntryIgnoresBranch(college: College, branchId: int, filters: FilterValues)
    requires college.id >= 0
    requires IdToString(college.id) + "-" + IdToString(branchId) in filters.selectedInstituteBranches
    ensures HasSelectedCombination(college, filters)
  {
    InstituteBranchKeyNamesCollege(college.id, branchId);
  }

  // ---------------------------------------------------------------------------------------
  // Filtering with a rank

  /** The colleges of `recs` in order, each college id kept at its first occurrence only,
      skipping ids already in `seen`. */
  function FirstPerCollege(recs: seq<Recommendation>, seen: set<int>): seq<College> {
    if recs == [] then []
    else if recs[0].college.id in seen then FirstPerCollege(recs[1..], seen)
    else [recs[0].college] + FirstPerCollege(recs[1..], seen + {recs[0].college.id})
  }

  /** No college id is kept twice, and none of `seen` is kept. */
  lemma {:induction false} FirstPerCollegeDistinct(recs: seq<Recommendation>, seen: set<int>)
    ensures forall i :: 0 <= i < |FirstPerCollege(recs, seen)| ==> FirstPerCollege(recs, seen)[i].id !in seen
    ensures forall i, j :: 0 <= i < j < |FirstPerCollege(recs, seen)| ==>
              FirstPerCollege(recs, seen)[i].id != FirstPerCollege(recs, seen)[j].id
  {
    if recs != [] {
      var id := recs[0].college.id;
      if id in seen {
        FirstPerCollegeDistinct(recs[1..], seen);
        assert FirstPerCollege(recs, seen) == FirstPerCollege(recs[1..], seen);
      } else {
        FirstPerCollegeDistinct(recs[1..], seen + {id});
        var rest := FirstPerCollege(recs[1..], seen + {id});
        var r := [recs[0].college] + rest;
        assert FirstPerCollege(recs, seen) == r;
        assert forall i :: 1 <= i < |r| ==> r[i] == rest[i - 1];
      }
    }
  }

  /** Every college kept is the college of some entry. */
  lemma {:induction false} FirstPerCollegeFromRecs(recs: seq<Recommendation>, seen: set<int>)
    ensures forall i :: 0 <= i < |FirstPerCollege(recs, seen)| ==>
              exists k :: 0 <= k < |recs| && recs[k].college == FirstPerCollege(recs, seen)[i]
  {
    if recs == [] {
      assert FirstPerCollege(recs, seen) == [];
    } else {
      var id := recs[0].college.id;
      var seen' := if id in seen then seen else seen + {id};
      FirstPerCollegeFromRecs(recs[1..], seen');
      var rest := FirstPerCollege(recs[1..], seen');
      forall i | 0 <= i < |rest|
        ensures exists k :: 0 <= k < |recs| && recs[k].college == rest[i]
      {
        var k :| 0 <= k < |recs[1..]| && recs[1..][k].college == rest[i];
        assert recs[k + 1].college == rest[i];
      }
      if id !in seen {
        var r := [recs[0].college] + rest;
        assert FirstPerCollege(recs, seen) == r;
        assert forall i :: 1 <= i < |r| ==> r[i] == rest[i - 1];
      } else {
        assert FirstPerCollege(recs, seen) == rest;
      }
    }
  }

  /** The ids of a list of colleges. */
  function CollegeIds(s: seq<College>): set<int> {
    set i | 0 <= i < |s| :: s[i].id
  }

  /** Every college id of the entries that is not in `seen` is kept. */
  lemma {:induction false} FirstPerCollegeComplete(recs: seq<Recommendation>, seen: set<int>)
    ensures forall k :: 0 <= k < |recs| && recs[k].college.id !in seen ==>
              recs[k].college.id in CollegeIds(FirstPerCollege(recs, seen))
  {
    if recs != [] {
      var id := recs[0].college.id;
      var seen' := if id in seen then seen else seen + {id};
      FirstPerCollegeComplete(recs[1..], seen');
      var rest := FirstPerCollege(recs[1..], seen');
      var r := FirstPerCollege(recs, seen);
      if id in seen {
        assert r == rest;
      } else {
        assert r == [recs[0].college] + rest;
        assert r[0].id == id;
        assert id in CollegeIds(r);
        assert CollegeIds(rest) <= CollegeIds(r) by {
          forall x | x in CollegeIds(rest) ensures x in CollegeIds(r) {
            var i :| 0 <= i < |rest| && rest[i].id == x;
            assert r[i + 1].id == x;
          }
        }
      }
      forall k | 0 <= k < |recs| && recs[k].college.id !in seen
        ensures recs[k].college.id in CollegeIds(r)
      {
        if k > 0 {
          assert recs[1..][k - 1] == recs[k];
        }
      }
    }
  }

  /** The colleges of `recs` in order, each college id once. */
  function DistinctColleges(recs: seq<Recommendation>): seq<College> {
    FirstPerCollege(recs, {})
  }

  /** The loop over the ranked list with the set `uniqueCollegeIds`: the college of each
      entry whose id has not been seen yet, in order. */
  method UniqueColleges(recs: seq<Recommendation>) returns (r: seq<College>)
    ensures r == DistinctColleges(recs)
    ensures forall i, j :: 0 <= i < j < |r| ==> r[i].id != r[j].id
    ensures forall i :: 0 <= i < |r| ==> exists k :: 0 <= k < |recs| && recs[k].college == r[i]
    ensures forall k :: 0 <= k < |recs| ==> recs[k].college.id in CollegeIds(r)
  {
    var uniqueCollegeIds: set<int> := {};
    r := [];
    for i := 0 to |recs|
      invariant r + FirstPerCollege(recs[i..], uniqueCollegeIds) == DistinctColleges(recs)
    {
      var item := recs[i];
      assert recs[i..] == [item] + recs[i + 1..];
      if item.college.id !in uniqueCollegeIds {
        uniqueCollegeIds := uniqueCollegeIds + {item.college.id};
        r := r + [item.college];
      }
    }
    assert recs[|recs|..] == [];
    FirstPerCollegeDistinct(recs, {});
    FirstPerCollegeFromRecs(recs, {});
    FirstPerCollegeComplete(recs, {});
  }

  // ---------------------------------------------------------------------------------------
  // The module state

  /** The module of `calculations.ts`, with its mutable `branches`. */
  class Calculator {
    /** The historical cutoff table the estimator reads. */
    const history: seq<CutoffData>
    /** The module-level `branches`, last set by `FilterColleges`. */
    var branches: seq<Branch>

    /** The estimator's table is the one shipped with it; `branches` starts empty. */
    constructor ()
      ensures history == HistoricalTable
      ensures branches == []
    {
      history := HistoricalTable;
      branches := [];
    }

    /** `calculateAdmissionChance`: the estimator on the first stored branch with this name
        and college, or a rank-and-placement formula when there is none. */
    method CalculateAdmissionChance(college: College, branchName: string, filters: FilterValues)
      returns (r: Prediction)
      ensures var found := FindFirst(branches, (b: Branch) => b.name == branchName && b.collegeId == college.id);
              && (found.Some? ==> r == PredictAdmissionChance(history, college, found.value, filters))
              && (found.None? ==> r == UnmatchedChance(college, RankOf(filters)))
    {
      var branchObj := FindFirst(branches, (b: Branch) => b.name == branchName && b.collegeId == college.id);
      if branchObj.None? {
        var rank := RankOf(filters);
        if rank == 0 {
          return Prediction(Medium, 50);
        }
        var placementWeight := PlacementWeight(college);
        var threshold := 1000;
        var deviation := 500;
        var percentage := 100.0 - ((if rank - threshold > 0 then rank - threshold else 0) as real / deviation as real) * 100.0;
        percentage := if percentage < 0.0 then 0.0 else percentage;
        percentage := if percentage > 100.0 then 100.0 else percentage;
        percentage := percentage * placementWeight;
        var chance;
        if percentage >= 70.0 {
          chance := High;
        } else if percentage >= 40.0 {
          chance := Medium;
        } else {
          chance := Low;
        }
        return Prediction(chance, MathRound(percentage));
      }
      r := PredictAdmissionChance(history, college, branchObj.value, filters);
    }

    /** `filterColleges`: stores `branchesData`, then with a positive rank returns the
        colleges of the ranked recommendations, each once, in rank order; without one, the
        colleges passing the basic checks. */
    method FilterColleges(colleges: seq<College>, branchesData: seq<Branch>, filters: FilterValues)
      returns (r: seq<College>)
      modifies this
      ensures branches == branchesData
      ensures RankedMode(filters) ==>
                exists recs :: IsRanking(history, recs, colleges, branchesData, filters) &&
                               r == DistinctColleges(recs)
      ensures RankedMode(filters) ==>
                forall c :: c in r ==> c in colleges && CollegePasses(c, filters)
      ensures RankedMode(filters) ==> forall i, j :: 0 <= i < j < |r| ==> r[i].id != r[j].id
      ensures !RankedMode(filters) ==> r == FilterWithoutRank(colleges, branchesData, filters)
    {
      branches := branchesData;
      if RankedMode(filters) {
        var recommendations := GetRankedRecommendations(history, colleges, branchesData, filters);
        r := UniqueColleges(recommendations);
        forall c | c in r
          ensures c in colleges && CollegePasses(c, filters)
        {
          var i :| 0 <= i < |r| && r[i] == c;
          var k :| 0 <= k < |recommendations| && recommendations[k].college == c;
          var rec := recommendations[k];
          assert rec in multiset(Candidates(history, colleges, branchesData, filters));
          CandidatesMembership(history, colleges, branchesData, filters, rec);
        }
        return;
      }
      var bs := branches;
      r := FilterWithoutRank(colleges, bs, filters);
    }
  }

  /** `filters.acpcRank && filters.acpcRank > 0`. */
  predicate RankedMode(filters: FilterValues) {
    filters.acpcRank.Some? && filters.acpcRank.value > 0
  }
}
