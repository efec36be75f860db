/** The admission-chance estimator and the recommendation ranker of the client
    (`mlPredictor.ts`). The historical cutoff table the source keeps as a module constant
    is the parameter `history`; the source's own table is `HistoricalTable`.
    Percentages are exact reals and `Math.round(x)` is `Floor(x + 1/2)`. */
module MlPredictor {
  import opened Wrappers
  import opened Schema
  import opened Seqs
  import Sorting

  datatype Chance = High | Medium | Low

  /** `{ chance, percentage }`; the percentage is a whole number once rounded. */
  datatype Prediction = Prediction(chance: Chance, percentage: int)

  /** One row of the historical cutoff table. */
  datatype CutoffData = CutoffData(
    collegeId: int,
    branchId: int,
    year: int,
    round: Round,
    category: Category,
    closingRank: int,
    openingRank: int)

  /** An entry of the ranked list handed to the caller. */
  datatype Recommendation = Recommendation(college: College, branch: Branch, chance: Prediction)

  /** An entry of the ranker's working list: a recommendation and the score it is ordered by. */
  datatype ScoredRecommendation = Scored(rec: Recommendation, score: real)

  /** The table shipped with the estimator. */
  const HistoricalTable: seq<CutoffData> := [
    CutoffData(1, 1, 2023, Mock, General, 500, 1),
    CutoffData(1, 1, 2022, Mock, General, 520, 1),
    CutoffData(1, 1, 2021, Mock, General, 480, 1),
    CutoffData(2, 2, 2023, Mock, General, 1000, 501),
    CutoffData(2, 2, 2022, Mock, General, 1050, 521),
    CutoffData(2, 2, 2021, Mock, General, 980, 481),
    CutoffData(2, 3, 2023, Mock, General, 1200, 1001),
    CutoffData(2, 3, 2022, Mock, General, 1250, 1051),
    CutoffData(2, 3, 2021, Mock, General, 1180, 981),
    CutoffData(3, 8, 2023, Mock, General, 800, 600),
    CutoffData(3, 8, 2022, Mock, General, 820, 580),
    CutoffData(3, 8, 2021, Mock, General, 810, 590)
  ]

  // ---------------------------------------------------------------------------------------
  // Percentages and labels

  /** `Math.round(x)`: the nearest integer, halves rounded up. */
  function MathRound(x: real): (r: int)
    ensures x - 0.5 < r as real <= x + 0.5
  {
    (x + 0.5).Floor
  }

  /** The label of an unrounded percentage: at least 70 is High, at least 40 is Medium. */
  function LabelOf(p: real): Chance {
    if p >= 70.0 then High else if p >= 40.0 then Medium else Low
  }

  /** The label computed from `p` before rounding, paired with the rounded `p`. */
  function Labelled(p: real): (r: Prediction)
    ensures r.chance == LabelOf(p)
    ensures p - 0.5 < r.percentage as real <= p + 0.5
  {
    Prediction(LabelOf(p), MathRound(p))
  }

  /** The label agrees with the thresholds applied to the returned percentage, except that a
      percentage rounded up onto a threshold (to 70 or to 40) keeps the lower label. */
  predicate LabelConsistent(r: Prediction) {
    || r.chance == LabelOf(r.percentage as real)
    || (r.percentage == 70 && r.chance == Medium)
    || (r.percentage == 40 && r.chance == Low)
  }

  lemma LabelledIsConsistent(p: real)
    ensures LabelConsistent(Labelled(p))
  {
  }

  // ---------------------------------------------------------------------------------------
  // The estimator with historical data

  predicate Relevant(d: CutoffData, college: College, branch: Branch, filters: FilterValues) {
    && d.collegeId == college.id
    && d.branchId == branch.id
    && d.round == filters.round
    && d.category == filters.category
  }

  /** The records of `history` for this college, branch, round and category. */
  function RelevantData(history: seq<CutoffData>, college: College, branch: Branch, filters: FilterValues)
    : (r: seq<CutoffData>)
    ensures forall d :: d in r <==> d in history && Relevant(d, college, branch, filters)
    ensures forall d {:trigger multiset(r)[d]} ::
              multiset(r)[d] == if Relevant(d, college, branch, filters) then multiset(history)[d] else 0
    ensures |r| <= |history|
  {
    Filter(history, d => Relevant(d, college, branch, filters))
  }

  function SumClosing(s: seq<CutoffData>): int {
    if s == [] then 0 else s[0].closingRank + SumClosing(s[1..])
  }

  function SumOpening(s: seq<CutoffData>): int {
    if s == [] then 0 else s[0].openingRank + SumOpening(s[1..])
  }

  function AvgClosing(s: seq<CutoffData>): real
    requires s != []
  {
    SumClosing(s) as real / |s| as real
  }

  function AvgOpening(s: seq<CutoffData>): real
    requires s != []
  {
    SumOpening(s) as real / |s| as real
  }

  lemma {:induction false} SumOpeningAtMostSumClosing(s: seq<CutoffData>)
    requires forall i :: 0 <= i < |s| ==> s[i].openingRank <= s[i].closingRank
    ensures SumOpening(s) <= SumClosing(s)
  {
    if s != [] {
      SumOpeningAtMostSumClosing(s[1..]);
    }
  }

  /** When every record has its opening rank at or below its closing rank, so do the averages. */
  lemma AveragesOrdered(s: seq<CutoffData>)
    requires s != []
    requires forall i :: 0 <= i < |s| ==> s[i].openingRank <= s[i].closingRank
    ensures AvgOpening(s) <= AvgClosing(s)
  {
    SumOpeningAtMostSumClosing(s);
    var n := |s| as real;
    assert SumOpening(s) as real / n <= SumClosing(s) as real / n by {
      DivideMonotone(SumOpening(s) as real, SumClosing(s) as real, n);
    }
  }

  lemma DivideMonotone(a: real, b: real, n: real)
    requires a <= b && n > 0.0
    ensures a / n <= b / n
  {
    assert b / n - a / n == (b - a) / n;
  }

  /** The linear scale between the average opening and closing ranks. It is only used
      strictly above the average opening rank and at or below the average closing rank, so
      its divisor `avgClosing - avgOpening` is positive. */
  function HistoricalPercentage(rank: int, avgOpening: real, avgClosing: real): (p: real)
    requires avgOpening < rank as real <= avgClosing
    ensures 35.0 <= p < 95.0
  {
    var range := avgClosing - avgOpening;
    var position := rank as real - avgOpening;
    RatioInUnitInterval(position, range);
    95.0 - (position / range) * 60.0
  }

  /** `position / range` lies in (0, 1] when 0 < position <= range. */
  lemma RatioInUnitInterval(position: real, range: real)
    requires 0.0 < position <= range
    ensures 0.0 < position / range <= 1.0
  {
    DivideMonotone(position, range, range);
    assert range / range == 1.0;
  }

  /** The decision rule on the averages of the relevant records. */
  function HistoricalDecision(rank: int, avgOpening: real, avgClosing: real): (r: Prediction)
    ensures rank as real <= avgOpening ==> r == Prediction(High, 95)
    ensures avgOpening < rank as real && avgClosing < rank as real ==> r == Prediction(Low, 15)
    ensures avgOpening < rank as real <= avgClosing ==>
              var p := HistoricalPercentage(rank, avgOpening, avgClosing);
              && 35 <= r.percentage <= 95
              && r.chance == LabelOf(p)
              && p - 0.5 < r.percentage as real <= p + 0.5
    ensures 15 <= r.percentage <= 95 && LabelConsistent(r)
  {
    if rank as real <= avgOpening then Prediction(High, 95)
    else if rank as real > avgClosing then Prediction(Low, 15)
    else Labelled(HistoricalPercentage(rank, avgOpening, avgClosing))
  }

  /** With equal averages the rule is a step: High at or below them, Low above. */
  lemma EqualAveragesIsStep(rank: int, avg: real)
    ensures HistoricalDecision(rank, avg, avg) in {Prediction(High, 95), Prediction(Low, 15)}
  {
  }

  // ---------------------------------------------------------------------------------------
  // The fallback estimator

  /** `branch.cutoffRank || 1500`. */
  function CutoffOrDefault(branch: Branch): int {
    IntOr(branch.cutoffRank, 1500)
  }

  /** `(college.placementRate || 75) / 100`. */
  function PlacementWeight(college: College): real {
    RealOr(college.placementRate, 75.0) / 100.0
  }

  function TypeWeight(t: CollegeType): real {
    match t
    case Government => 1.1
    case GrantInAid => 1.0
    case Private => 0.9
  }

  function AdjustedCutoff(college: College, branch: Branch): real {
    CutoffOrDefault(branch) as real * PlacementWeight(college) * TypeWeight(college.collegeType)
  }

  /** The fallback's linear scale. It is only used strictly above 0.6 and at or below 1.1
      times the adjusted cutoff, which forces that cutoff, and the divisor, to be positive. */
  function FallbackPercentage(rank: int, adjusted: real): (p: real)
    requires adjusted * 0.6 < rank as real <= adjusted * 1.1
    ensures adjusted > 0.0
    ensures 40.0 <= p < 90.0
  {
    RatioInUnitInterval(rank as real - adjusted * 0.6, adjusted * 0.5);
    90.0 - ((rank as real - adjusted * 0.6) / (adjusted * 0.5)) * 50.0
  }

  /** The heuristic used when no historical record matches. */
  function FallbackCalculation(college: College, branch: Branch, rank: int): (r: Prediction)
    ensures rank as real <= AdjustedCutoff(college, branch) * 0.6 ==> r == Prediction(High, 90)
    ensures (rank as real > AdjustedCutoff(college, branch) * 0.6 &&
             rank as real > AdjustedCutoff(college, branch) * 1.1) ==> r == Prediction(Low, 20)
    ensures AdjustedCutoff(college, branch) * 0.6 < rank as real <= AdjustedCutoff(college, branch) * 1.1 ==>
              var p := FallbackPercentage(rank, AdjustedCutoff(college, branch));
              r.chance == LabelOf(p) && p - 0.5 < r.percentage as real <= p + 0.5
    ensures r.chance == Low ==> r == Prediction(Low, 20)
    ensures 20 <= r.percentage <= 90 && LabelConsistent(r)
  {
    var adjustedCutoff := AdjustedCutoff(college, branch);
    if rank as real <= adjustedCutoff * 0.6 then Prediction(High, 90)
    else if rank as real > adjustedCutoff * 1.1 then Prediction(Low, 20)
    else Labelled(FallbackPercentage(rank, adjustedCutoff))
  }

  // ---------------------------------------------------------------------------------------
  // The estimator

  /** `predictAdmissionChance(college, branch, filters)` over the table `history`. */
  function PredictAdmissionChance(history: seq<CutoffData>, college: College, branch: Branch, filters: FilterValues)
    : (r: Prediction)
    ensures RankOf(filters) == 0 ==> r == Prediction(Medium, 50)
    ensures RankOf(filters) != 0 && RelevantData(history, college, branch, filters) == [] ==>
              r == FallbackCalculation(college, branch, RankOf(filters))
    ensures RankOf(filters) != 0 && RelevantData(history, college, branch, filters) != [] ==>
              var s := RelevantData(history, college, branch, filters);
              var rank := RankOf(filters) as real;
              && (rank <= AvgOpening(s) ==> r == Prediction(High, 95))
              && (rank > AvgOpening(s) && rank > AvgClosing(s) ==> r == Prediction(Low, 15))
              && (AvgOpening(s) < rank <= AvgClosing(s) ==>
                    var p := HistoricalPercentage(RankOf(filters), AvgOpening(s), AvgClosing(s));
                    r.chance == LabelOf(p) && p - 0.5 < r.percentage as real <= p + 0.5)
    ensures 15 <= r.percentage <= 95 && LabelConsistent(r)
  {
    var rank := RankOf(filters);
    if rank == 0 then Prediction(Medium, 50)
    else
      var relevantData := RelevantData(history, college, branch, filters);
      if |relevantData| == 0 then FallbackCalculation(college, branch, rank)
      else HistoricalDecision(rank, AvgOpening(relevantData), AvgClosing(relevantData))
  }

  /** With relevant records, the decision is taken on their averages. */
  lemma PredictionFromHistory(history: seq<CutoffData>, college: College, branch: Branch, filters: FilterValues)
    requires RankOf(filters) != 0
    requires RelevantData(history, college, branch, filters) != []
    ensures var s := RelevantData(history, college, branch, filters);
            PredictAdmissionChance(history, college, branch, filters) ==
              HistoricalDecision(RankOf(filters), AvgOpening(s), AvgClosing(s))
  {
  }

  /** The estimator only reads the rank, round and category of the filters. */
  lemma {:induction false} PredictionIgnoresOtherFilters(history: seq<CutoffData>, college: College, branch: Branch,
                                                        f: FilterValues, g: FilterValues)
    requires f.acpcRank == g.acpcRank && f.round == g.round && f.category == g.category
    ensures PredictAdmissionChance(history, college, branch, f) == PredictAdmissionChance(history, college, branch, g)
  {
    var p := d => Relevant(d, college, branch, f);
    var q := d => Relevant(d, college, branch, g);
    FilterSamePredicate(history, p, q);
  }

  // ---------------------------------------------------------------------------------------
  // The ranker

  /** The college-level checks of the ranker: type and fee ceiling (a zero `maxFee` is none). */
  predicate CollegePasses(college: College, filters: FilterValues) {
    && (filters.selectedCollegeTypes == [] || college.collegeType in filters.selectedCollegeTypes)
    && (filters.maxFee == 0 || college.annualFee <= filters.maxFee)
  }

  /** The branch-level checks of the ranker: the branch belongs to the college, its name is
      selected (when names are selected) and its course is the requested one. */
  predicate BranchPasses(branch: Branch, college: College, filters: FilterValues) {
    && branch.collegeId == college.id
    && (filters.selectedBranches == [] || branch.name in filters.selectedBranches)
    && branch.course == filters.course
  }

  /** The score recommendations are ordered by: percentage, plus half the placement rate,
      plus the average package over 200000, minus the annual fee over 50000. */
  function RankScore(college: College, chance: Prediction): real {
    chance.percentage as real
      + (if TruthyReal(college.placementRate) then college.placementRate.value / 2.0 else 0.0)
      + (if TruthyReal(college.averagePackage) then college.averagePackage.value / 200000.0 else 0.0)
      - college.annualFee as real / 50000.0
  }

  ghost predicate SortedByScore(s: seq<Recommendation>) {
    forall i, j :: 0 <= i < j < |s| ==> RankScore(s[i].college, s[i].chance) >= RankScore(s[j].college, s[j].chance)
  }

  /** `recs` is what the ranker may return for these inputs: the collected entries, ordered by
      score from highest to lowest. */
  ghost predicate IsRanking(history: seq<CutoffData>, recs: seq<Recommendation>, colleges: seq<College>,
                            branches: seq<Branch>, filters: FilterValues) {
    && multiset(recs) == multiset(Candidates(history, colleges, branches, filters))
    && SortedByScore(recs)
  }

  /** One recommendation per branch of `branches`, for `college`, in order. */
  function RecsFor(history: seq<CutoffData>, college: College, branches: seq<Branch>, filters: FilterValues)
    : seq<Recommendation>
  {
    if branches == [] then []
    else
      var last := branches[|branches| - 1];
      RecsFor(history, college, branches[..|branches| - 1], filters)
        + [Recommendation(college, last, PredictAdmissionChance(history, college, last, filters))]
  }

  /** The branches of `branches` the ranker keeps for `college`, in order. */
  function CollegeBranches(college: College, branches: seq<Branch>, filters: FilterValues): (r: seq<Branch>)
    ensures forall b :: b in r <==> b in branches && BranchPasses(b, college, filters)
  {
    Filter(branches, b => BranchPasses(b, college, filters))
  }

  /** The entries the ranker collects for one college. */
  function ForCollege(history: seq<CutoffData>, college: College, branches: seq<Branch>, filters: FilterValues)
    : seq<Recommendation>
  {
    if CollegePasses(college, filters) then
      RecsFor(history, college, CollegeBranches(college, branches, filters), filters)
    else []
  }

  /** The entries the ranker collects before sorting, college by college. */
  function Candidates(history: seq<CutoffData>, colleges: seq<College>, branches: seq<Branch>, filters: FilterValues)
    : seq<Recommendation>
  {
    if colleges == [] then []
    else
      Candidates(history, colleges[..|colleges| - 1], branches, filters)
        + ForCollege(history, colleges[|colleges| - 1], branches, filters)
  }

  /** What makes `x` a candidate: its college and branch pass the filters, and its chance is
      the estimator's for them. */
  ghost predicate IsCandidate(history: seq<CutoffData>, x: Recommendation, filters: FilterValues) {
    && CollegePasses(x.college, filters)
    && BranchPasses(x.branch, x.college, filters)
    && x.chance == PredictAdmissionChance(history, x.college, x.branch, filters)
  }

  lemma {:induction false} RecsForCount(history: seq<CutoffData>, college: College, branches: seq<Branch>,
                                        filters: FilterValues, x: Recommendation)
    ensures multiset(RecsFor(history, college, branches, filters))[x] ==
              if x.college == college && x.chance == PredictAdmissionChance(history, college, x.branch, filters)
              then multiset(branches)[x.branch] else 0
  {
    if branches != [] {
      var init := branches[..|branches| - 1];
      RecsForCount(history, college, init, filters, x);
      assert branches == init + [branches[|branches| - 1]];
    }
  }

  /** Each pair of a college and a branch that pass the filters gives one entry per occurrence
      of the college and of the branch in the inputs, and nothing else is collected. */
  lemma {:induction false} CandidatesCount(history: seq<CutoffData>, colleges: seq<College>, branches: seq<Branch>,
                                           filters: FilterValues, x: Recommendation)
    ensures multiset(Candidates(history, colleges, branches, filters))[x] ==
              if IsCandidate(history, x, filters)
              then multiset(colleges)[x.college] * multiset(branches)[x.branch] else 0
  {
    if colleges == [] {
      assert multiset(colleges)[x.college] == 0;
      assert 0 * multiset(branches)[x.branch] == 0;
    } else {
      var init, c := colleges[..|colleges| - 1], colleges[|colleges| - 1];
      CandidatesCount(history, init, branches, filters, x);
      assert colleges == init + [c];
      ForCollegeCount(history, c, branches, filters, x);
      var m, k := multiset(init)[x.college], multiset(branches)[x.branch];
      var here := ForCollege(history, c, branches, filters);
      var earlier := Candidates(history, init, branches, filters);
      assert Candidates(history, colleges, branches, filters) == earlier + here;
      assert multiset(earlier + here)[x] == multiset(earlier)[x] + multiset(here)[x];
      if !IsCandidate(history, x, filters) {
      } else if x.college == c {
        assert multiset(colleges)[x.college] == m + 1;
        MultiplyStep(m, k);
      } else {
        assert multiset(colleges)[x.college] == m;
      }
    }
  }

  lemma MultiplyStep(m: int, k: int)
    ensures (m + 1) * k == m * k + k
  {
  }

  lemma ForCollegeCount(history: seq<CutoffData>, college: College, branches: seq<Branch>,
                        filters: FilterValues, x: Recommendation)
    ensures multiset(ForCollege(history, college, branches, filters))[x] ==
              if x.college == college && IsCandidate(history, x, filters)
              then multiset(branches)[x.branch] else 0
  {
    if CollegePasses(college, filters) {
      var bs := CollegeBranches(college, branches, filters);
      assert multiset(bs)[x.branch] == if BranchPasses(x.branch, college, filters) then multiset(branches)[x.branch] else 0;
      RecsForCount(history, college, bs, filters, x);
    }
  }

  /** An entry is collected exactly for the pairs that pass the filters. */
  lemma CandidatesMembership(history: seq<CutoffData>, colleges: seq<College>, branches: seq<Branch>,
                             filters: FilterValues, x: Recommendation)
    ensures x in Candidates(history, colleges, branches, filters) <==>
              x.college in colleges && x.branch in branches && IsCandidate(history, x, filters)
  {
    CandidatesCount(history, colleges, branches, filters, x);
    var m, k := multiset(colleges)[x.college], multiset(branches)[x.branch];
    assert x.college in colleges <==> m > 0;
    assert x.branch in branches <==> k > 0;
    ProductPositive(m, k);
  }

  lemma ProductPositive(m: nat, k: nat)
    ensures m * k > 0 <==> m > 0 && k > 0
  {
    if m > 0 && k > 0 {
      assert m * k >= k;
    }
  }

  /** The score of one entry, built up term by term as the ranker does. */
  method ComputeScore(college: College, chance: Prediction) returns (score: real)
    ensures score == RankScore(college, chance)
  {
    score := chance.percentage as real;
    if TruthyReal(college.placementRate) {
      score := score + college.placementRate.value / 2.0;
    }
    if TruthyReal(college.averagePackage) {
      var packageBoost := college.averagePackage.value / 200000.0;
      score := score + packageBoost;
    }
    var feePenalty := college.annualFee as real / 50000.0;
    score := score - feePenalty;
  }

  /** Every entry carries the score of its college and chance. */
  ghost predicate ScoresHold(s: seq<ScoredRecommendation>) {
    forall k :: 0 <= k < |s| ==> s[k].score == RankScore(s[k].rec.college, s[k].rec.chance)
  }

  /** The inner loop of the ranker: estimate and score each branch of one college, in order. */
  method ScoreBranches(history: seq<CutoffData>, college: College, collegeBranches: seq<Branch>, filters: FilterValues)
    returns (entries: seq<ScoredRecommendation>)
    ensures MapSeq(entries, Unscored) == RecsFor(history, college, collegeBranches, filters)
    ensures ScoresHold(entries)
  {
    entries := [];
    for j := 0 to |collegeBranches|
      invariant MapSeq(entries, Unscored) == RecsFor(history, college, collegeBranches[..j], filters)
      invariant ScoresHold(entries)
    {
      var branch := collegeBranches[j];
      RecsForStep(history, college, collegeBranches, filters, j);
      var chance := PredictAdmissionChance(history, college, branch, filters);
      var score := ComputeScore(college, chance);
      var entry := Scored(Recommendation(college, branch, chance), score);
      MapSeqConcat(entries, [entry], Unscored);
      entries := entries + [entry];
    }
    assert collegeBranches[..|collegeBranches|] == collegeBranches;
  }

  /** `getRankedRecommendations`: nothing without a rank; otherwise the collected entries,
      sorted by score from highest to lowest. */
  method GetRankedRecommendations(history: seq<CutoffData>, colleges: seq<College>, branches: seq<Branch>,
                                  filters: FilterValues)
    returns (r: seq<Recommendation>)
    ensures RankOf(filters) == 0 ==> r == []
    ensures RankOf(filters) != 0 ==> multiset(r) == multiset(Candidates(history, colleges, branches, filters))
    ensures SortedByScore(r)
  {
    if RankOf(filters) == 0 {
      return [];
    }
    var results: seq<ScoredRecommendation> := [];
    for i := 0 to |colleges|
      invariant MapSeq(results, Unscored) == Candidates(history, colleges[..i], branches, filters)
      invariant ScoresHold(results)
    {
      var college := colleges[i];
      CandidatesStep(history, colleges, branches, filters, i);
      if CollegePasses(college, filters) {
        var collegeBranches := CollegeBranches(college, branches, filters);
        var entries := ScoreBranches(history, college, collegeBranches, filters);
        MapSeqConcat(results, entries, Unscored);
        results := results + entries;
      }
    }
    assert colleges[..|colleges|] == colleges;
    var sorted := Sorting.SortSeq(results, (a: ScoredRecommendation, b: ScoredRecommendation) => a.score >= b.score);
    MapSeqPermutation(sorted, results, Unscored);
    assert ScoresHold(results);
    forall k | 0 <= k < |sorted|
      ensures sorted[k].score == RankScore(sorted[k].rec.college, sorted[k].rec.chance)
    {
      assert sorted[k] in multiset(results);
    }
    r := MapSeq(sorted, Unscored);
  }

  function Unscored(s: ScoredRecommendation): Recommendation {
    s.rec
  }

  lemma CandidatesStep(history: seq<CutoffData>, colleges: seq<College>, branches: seq<Branch>,
                       filters: FilterValues, i: nat)
    requires i < |colleges|
    ensures Candidates(history, colleges[..i + 1], branches, filters) ==
              Candidates(history, colleges[..i], branches, filters) + ForCollege(history, colleges[i], branches, filters)
  {
    assert colleges[..i + 1][..i] == colleges[..i];
  }

  lemma RecsForStep(history: seq<CutoffData>, college: College, branches: seq<Branch>,
                    filters: FilterValues, j: nat)
    requires j < |branches|
    ensures RecsFor(history, college, branches[..j + 1], filters) ==
              RecsFor(history, college, branches[..j], filters)
                + [Recommendation(college, branches[j], PredictAdmissionChance(history, college, branches[j], filters))]
  {
    assert branches[..j + 1][..j] == branches[..j];
  }

  // ---------------------------------------------------------------------------------------
  // Examples

  /** A Government college with a placement rate of 90 and a branch cutoff of 1000 has an
      adjusted cutoff of 990, and a rank of 500 is within 0.6 of it. */
  lemma FallbackExample()
    ensures var college := College(1, "", Government, "", Some(90.0), None, 0, "");
            var branch := Branch(1, 1, "", BETech, 120, Some(1000));
            AdjustedCutoff(college, branch) == 990.0 &&
            FallbackCalculation(college, branch, 500) == Prediction(High, 90)
  {
  }

  /** A label taken before rounding can disagree with the rounded percentage: averages 100 and
      700 and a rank of 354 give 69.6 percent, reported as 70 with the label Medium. */
  lemma LabelBeforeRounding()
    ensures HistoricalDecision(354, 100.0, 700.0) == Prediction(Medium, 70)
  {
    assert HistoricalPercentage(354, 100.0, 700.0) == 69.6;
  }
}
