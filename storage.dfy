/** The server's in-memory store (`MemStorage` in `storage.ts`): one table per entity, keyed by
    id, and one id counter per table. Every table lists its rows in insertion order; since
    its keys come from a counter that starts at 1 and only grows, and a row updated in place
    keeps its place, that order is ascending key order (`Rows`). */
module Storage {
  import opened Wrappers
  import opened Schema
  import opened Seqs
  import Sorting

  // ---------------------------------------------------------------------------------------
  // Listing a table

  /** `Array.from(m.values())` for a table whose keys all lie in `[1, next)`: the rows in
      ascending key order. */
  function Rows<T>(m: map<int, T>, next: int): seq<T>
    decreases next
  {
    if next <= 1 then []
    else Rows(m, next - 1) + (if next - 1 in m then [m[next - 1]] else [])
  }

  lemma {:induction false} RowsMembership<T>(m: map<int, T>, next: int, x: T)
    ensures x in Rows(m, next) <==> exists k :: k in m && 1 <= k < next && m[k] == x
    decreases next
  {
    if next > 1 {
      RowsMembership(m, next - 1, x);
    }
  }

  /** In a table keyed by its rows' ids, the listing is in strictly ascending id order. */
  lemma {:induction false} RowsAscending<T>(m: map<int, T>, next: int, id: T -> int)
    requires forall k :: k in m ==> id(m[k]) == k
    ensures forall i :: 0 <= i < |Rows(m, next)| ==> 1 <= id(Rows(m, next)[i]) < next
    ensures forall i, j :: 0 <= i < j < |Rows(m, next)| ==> id(Rows(m, next)[i]) < id(Rows(m, next)[j])
    decreases next
  {
    if next > 1 {
      RowsAscending(m, next - 1, id);
    }
  }

  /** Changing or removing keys at or above `next` does not change the listing below it. */
  lemma {:induction false} RowsIgnoreHighKeys<T>(m: map<int, T>, m': map<int, T>, next: int)
    requires forall k :: 1 <= k < next ==> (k in m <==> k in m') && (k in m ==> m[k] == m'[k])
    ensures Rows(m, next) == Rows(m', next)
    decreases next
  {
    if next > 1 {
      RowsIgnoreHighKeys(m, m', next - 1);
    }
  }

  /** Storing a row under the next key appends it to the listing. */
  lemma RowsAppend<T>(m: map<int, T>, next: int, v: T)
    requires next >= 1
    ensures Rows(m[next := v], next + 1) == Rows(m, next) + [v]
  {
    RowsIgnoreHighKeys(m, m[next := v], next);
  }

  /** Giving the choice stored under `id` a new priority changes that row of the listing
      only. */
  lemma {:induction false} ChoiceRowsReprioritize(m: map<int, Choice>, next: int, id: int, priority: int)
    requires forall k :: k in m ==> m[k].id == k
    requires id in m
    ensures |Rows(m[id := m[id].(priority := priority)], next)| == |Rows(m, next)|
    ensures forall i :: 0 <= i < |Rows(m, next)| ==>
              Rows(m[id := m[id].(priority := priority)], next)[i] ==
                if Rows(m, next)[i].id == id then Rows(m, next)[i].(priority := priority) else Rows(m, next)[i]
    decreases next
  {
    if next > 1 {
      ChoiceRowsReprioritize(m, next - 1, id, priority);
    }
  }

  /** Deleting a key of a table keyed by its rows' ids removes exactly that row from the
      listing. */
  lemma {:induction false} ChoiceRowsRemove(m: map<int, Choice>, next: int, id: int)
    requires forall k :: k in m ==> m[k].id == k
    ensures Rows(m - {id}, next) == Filter(Rows(m, next), (c: Choice) => c.id != id)
    decreases next
  {
    if next > 1 {
      ChoiceRowsRemove(m, next - 1, id);
      var last := if next - 1 in m then [m[next - 1]] else [];
      FilterConcat(Rows(m, next - 1), last, (c: Choice) => c.id != id);
    }
  }

  // ---------------------------------------------------------------------------------------
  // Queries on historical cutoffs

  /** The optional conditions of `getHistoricalCutoffs`. */
  datatype CutoffConditions = CutoffConditions(
    collegeId: Option<int>,
    branchId: Option<int>,
    year: Option<int>,
    round: Option<Round>,
    category: Option<Category>)

  /** A row passes the conditions when it equals every condition that is present and truthy
      (round and category names are never empty, so present means truthy for them). */
  predicate MatchesConditions(h: HistoricalCutoff, conditions: Option<CutoffConditions>) {
    conditions.None? ||
    var c := conditions.value;
    && (TruthyInt(c.collegeId) ==> h.collegeId == c.collegeId.value)
    && (TruthyInt(c.branchId) ==> h.branchId == c.branchId.value)
    && (TruthyInt(c.year) ==> h.year == c.year.value)
    && (c.round.Some? ==> h.round == c.round.value)
    && (c.category.Some? ==> h.category == c.category.value)
  }

  /** Whether `getHistoricalCutoffs` filters on its `stage`-th condition (1 to 5): the
      condition is present and truthy. */
  predicate StageApplies(c: CutoffConditions, stage: nat) {
    match stage
    case 1 => TruthyInt(c.collegeId)
    case 2 => TruthyInt(c.branchId)
    case 3 => TruthyInt(c.year)
    case 4 => c.round.Some?
    case 5 => c.category.Some?
    case _ => false
  }

  /** The test of the `stage`-th condition. */
  predicate StageTest(h: HistoricalCutoff, c: CutoffConditions, stage: nat) {
    match stage
    case 1 => c.collegeId == Some(h.collegeId)
    case 2 => c.branchId == Some(h.branchId)
    case 3 => c.year == Some(h.year)
    case 4 => c.round == Some(h.round)
    case 5 => c.category == Some(h.category)
    case _ => true
  }

  /** `h` passes the first `stage` conditions that apply. */
  ghost predicate MatchesFirst(h: HistoricalCutoff, c: CutoffConditions, stage: nat) {
    stage == 0 || (MatchesFirst(h, c, stage - 1) && (StageApplies(c, stage) ==> StageTest(h, c, stage)))
  }

  /** `s` holds exactly the rows of `rows` that pass the first `stage` conditions, each as
      often as in `rows`. */
  ghost predicate Narrowed(s: seq<HistoricalCutoff>, rows: seq<HistoricalCutoff>, c: CutoffConditions, stage: nat) {
    forall x :: multiset(s)[x] == if MatchesFirst(x, c, stage) then multiset(rows)[x] else 0
  }

  /** Filtering by a condition that applies moves `Narrowed` to the next stage. */
  lemma NarrowStep(s: seq<HistoricalCutoff>, rows: seq<HistoricalCutoff>, c: CutoffConditions,
                   stage: nat, p: HistoricalCutoff -> bool)
    requires 1 <= stage && Narrowed(s, rows, c, stage - 1)
    requires StageApplies(c, stage) && forall x :: p(x) == StageTest(x, c, stage)
    ensures Narrowed(Filter(s, p), rows, c, stage)
  {
    forall x ensures multiset(Filter(s, p))[x] == if MatchesFirst(x, c, stage) then multiset(rows)[x] else 0 {
      assert multiset(s)[x] == if MatchesFirst(x, c, stage - 1) then multiset(rows)[x] else 0;
    }
  }

  /** A condition that does not apply leaves `Narrowed` true at the next stage unfiltered. */
  lemma NarrowSkip(s: seq<HistoricalCutoff>, rows: seq<HistoricalCutoff>, c: CutoffConditions, stage: nat)
    requires 1 <= stage && Narrowed(s, rows, c, stage - 1)
    requires !StageApplies(c, stage)
    ensures Narrowed(s, rows, c, stage)
  {
    forall x ensures multiset(s)[x] == if MatchesFirst(x, c, stage) then multiset(rows)[x] else 0 {
      assert multiset(s)[x] == if MatchesFirst(x, c, stage - 1) then multiset(rows)[x] else 0;
    }
  }

  /** One step `if (conditions.<field>) filtered = filtered.filter(...)` of
      `getHistoricalCutoffs`: narrows `s` by the `stage`-th condition when it applies. */
  method NarrowBy(s: seq<HistoricalCutoff>, ghost rows: seq<HistoricalCutoff>, c: CutoffConditions, stage: nat)
    returns (r: seq<HistoricalCutoff>)
    requires 1 <= stage && Narrowed(s, rows, c, stage - 1)
    ensures Narrowed(r, rows, c, stage)
  {
    if StageApplies(c, stage) {
      var p := (h: HistoricalCutoff) => StageTest(h, c, stage);
      NarrowStep(s, rows, c, stage, p);
      r := Filter(s, p);
    } else {
      NarrowSkip(s, rows, c, stage);
      r := s;
    }
  }

  /** The filtering half of `getHistoricalCutoffs`: each condition that is present and
      truthy narrows the rows in turn, which keeps exactly the rows passing all of them. */
  method ApplyConditions(rows: seq<HistoricalCutoff>, conditions: Option<CutoffConditions>)
    returns (filteredCutoffs: seq<HistoricalCutoff>)
    ensures multiset(filteredCutoffs) == multiset(Filter(rows, h => MatchesConditions(h, conditions)))
  {
    filteredCutoffs := rows;
    if conditions.Some? {
      var c := conditions.value;
      assert Narrowed(filteredCutoffs, rows, c, 0);
      filteredCutoffs := NarrowBy(filteredCutoffs, rows, c, 1);
      filteredCutoffs := NarrowBy(filteredCutoffs, rows, c, 2);
      filteredCutoffs := NarrowBy(filteredCutoffs, rows, c, 3);
      filteredCutoffs := NarrowBy(filteredCutoffs, rows, c, 4);
      filteredCutoffs := NarrowBy(filteredCutoffs, rows, c, 5);
      NarrowedFully(filteredCutoffs, rows, conditions);
    } else {
      FilterKeepsAll(rows, h => MatchesConditions(h, conditions));
    }
  }

  /** After all five stages, `Narrowed` is the filter by every condition. */
  lemma NarrowedFully(s: seq<HistoricalCutoff>, rows: seq<HistoricalCutoff>, conditions: Option<CutoffConditions>)
    requires conditions.Some? && Narrowed(s, rows, conditions.value, 5)
    ensures multiset(s) == multiset(Filter(rows, h => MatchesConditions(h, conditions)))
  {
    var expected := Filter(rows, h => MatchesConditions(h, conditions));
    var c := conditions.value;
    forall x ensures multiset(s)[x] == multiset(expected)[x] {
      assert MatchesFirst(x, c, 5) == MatchesConditions(x, conditions) by {
        assert MatchesFirst(x, c, 1) == (TruthyInt(c.collegeId) ==> x.collegeId == c.collegeId.value);
        assert MatchesFirst(x, c, 2) == (MatchesFirst(x, c, 1) && (TruthyInt(c.branchId) ==> x.branchId == c.branchId.value));
        assert MatchesFirst(x, c, 3) == (MatchesFirst(x, c, 2) && (TruthyInt(c.year) ==> x.year == c.year.value));
        assert MatchesFirst(x, c, 4) == (MatchesFirst(x, c, 3) && (c.round.Some? ==> x.round == c.round.value));
      }
    }
  }

  /** The position of a round under `localeCompare`: digits before letters. */
  function RoundOrder(r: Round): int {
    match r
    case Round1 => 1
    case Round2 => 2
    case Round3 => 3
    case Mock => 4
  }

  /** `b.year - a.year || a.round.localeCompare(b.round)` is at most zero: newer years first,
      then rounds in ascending order. */
  predicate CutoffBefore(a: HistoricalCutoff, b: HistoricalCutoff) {
    a.year > b.year || (a.year == b.year && RoundOrder(a.round) <= RoundOrder(b.round))
  }

  // ---------------------------------------------------------------------------------------
  // Ordering colleges by their best cutoff

  /** A cutoff rank or `Infinity`. */
  datatype Extended = Finite(n: int) | Infinity

  predicate ExtLe(a: Extended, b: Extended) {
    b.Infinity? || (a.Finite? && a.n <= b.n)
  }

  /** `b.cutoffRank || Infinity`. */
  function CutoffOrInfinity(b: Branch): (e: Extended)
    ensures e.Finite? ==> e.n != 0
  {
    if TruthyInt(b.cutoffRank) then Finite(b.cutoffRank.value) else Infinity
  }

  /** `Math.min(...s)`, which is `Infinity` for an empty `s`. */
  function MinOf(s: seq<Extended>): (m: Extended)
    ensures forall i :: 0 <= i < |s| ==> ExtLe(m, s[i])
    ensures m == Infinity || m in s
  {
    if s == [] then Infinity
    else
      var rest := MinOf(s[1..]);
      assert forall i :: 1 <= i < |s| ==> s[i] == s[1..][i - 1];
      if ExtLe(s[0], rest) then s[0] else rest
  }

  /** The smallest truthy cutoff rank among the branches of the college, or `Infinity`. */
  function CollegeMinCutoff(collegeId: int, branches: seq<Branch>): (m: Extended)
    ensures m.Finite? ==> m.n != 0
  {
    MinOf(MapSeq(Filter(branches, (b: Branch) => b.collegeId == collegeId), CutoffOrInfinity))
  }

  /** `CollegeMinCutoff` is the minimum: no branch of the college has a smaller cutoff, and
      unless it is `Infinity` some branch of the college has exactly that cutoff. */
  lemma CollegeMinCutoffIsMinimum(collegeId: int, branches: seq<Branch>)
    ensures forall b :: b in branches && b.collegeId == collegeId ==>
              ExtLe(CollegeMinCutoff(collegeId, branches), CutoffOrInfinity(b))
    ensures CollegeMinCutoff(collegeId, branches) == Infinity ||
            exists b :: b in branches && b.collegeId == collegeId &&
                        CutoffOrInfinity(b) == CollegeMinCutoff(collegeId, branches)
  {
    var collegeBranches := Filter(branches, (b: Branch) => b.collegeId == collegeId);
    var cutoffs := MapSeq(collegeBranches, CutoffOrInfinity);
    var m := MinOf(cutoffs);
    forall b | b in branches && b.collegeId == collegeId
      ensures ExtLe(m, CutoffOrInfinity(b))
    {
      assert b in collegeBranches;
      var i :| 0 <= i < |collegeBranches| && collegeBranches[i] == b;
      assert cutoffs[i] == CutoffOrInfinity(b);
    }
    if m != Infinity {
      var i :| 0 <= i < |cutoffs| && cutoffs[i] == m;
      assert collegeBranches[i] in collegeBranches;
    }
  }

  /** `collegeMinCutoffs.get(id) || Infinity`. */
  function LookupOrInfinity(mins: map<int, Extended>, id: int): Extended {
    if id in mins && mins[id] != Finite(0) then mins[id] else Infinity
  }

  // ---------------------------------------------------------------------------------------
  // The store

  class MemStorage {
    var colleges: map<int, College>
    var branches: map<int, Branch>
    var choices: map<int, Choice>
    var admins: map<int, Admin>
    var historicalCutoffs: map<int, HistoricalCutoff>
    var currentCollegeId: int
    var currentBranchId: int
    var currentChoiceId: int
    var currentAdminId: int
    var currentHistoricalCutoffId: int

    /** Every table is keyed by the ids of its rows, and every key lies below its counter. */
    ghost predicate Valid()
      reads this
    {
      && 1 <= currentCollegeId && 1 <= currentBranchId && 1 <= currentChoiceId
      && 1 <= currentAdminId && 1 <= currentHistoricalCutoffId
      && (forall k :: k in colleges ==> 1 <= k < currentCollegeId && colleges[k].id == k)
      && (forall k :: k in branches ==> 1 <= k < currentBranchId && branches[k].id == k)
      && (forall k :: k in choices ==> 1 <= k < currentChoiceId && choices[k].id == k)
      && (forall k :: k in admins ==> 1 <= k < currentAdminId && admins[k].id == k)
      && (forall k :: k in historicalCutoffs ==> 1 <= k < currentHistoricalCutoffId && historicalCutoffs[k].id == k)
    }

    function CollegeRows(): seq<College> reads this {
      Rows(colleges, currentCollegeId)
    }

    function BranchRows(): seq<Branch> reads this {
      Rows(branches, currentBranchId)
    }

    function ChoiceRows(): seq<Choice> reads this {
      Rows(choices, currentChoiceId)
    }

    function AdminRows(): seq<Admin> reads this {
      Rows(admins, currentAdminId)
    }

    function CutoffRows(): seq<HistoricalCutoff> reads this {
      Rows(historicalCutoffs, currentHistoricalCutoffId)
    }

    /** The store starts with the given colleges and branches, numbered 1, 2, ... in order,
        and with no choices, admins or historical cutoffs. */
    constructor (collegeData: seq<College>, branchData: seq<Branch>)
      ensures Valid()
      ensures forall k :: k in colleges <==> 1 <= k <= |collegeData|
      ensures forall k :: 1 <= k <= |collegeData| ==> colleges[k] == collegeData[k - 1].(id := k)
      ensures forall k :: k in branches <==> 1 <= k <= |branchData|
      ensures forall k :: 1 <= k <= |branchData| ==> branches[k] == branchData[k - 1].(id := k)
      ensures choices == map[] && admins == map[] && historicalCutoffs == map[]
      ensures currentCollegeId == |collegeData| + 1 && currentBranchId == |branchData| + 1
      ensures currentChoiceId == 1 && currentAdminId == 1 && currentHistoricalCutoffId == 1
    {
      choices, admins, historicalCutoffs := map[], map[], map[];
      currentChoiceId, currentAdminId, currentHistoricalCutoffId := 1, 1, 1;
      var cs: map<int, College> := map[];
      var nextCollege := 1;
      for i := 0 to |collegeData|
        invariant nextCollege == i + 1
        invariant forall k :: k in cs <==> 1 <= k <= i
        invariant forall k :: 1 <= k <= i ==> cs[k] == collegeData[k - 1].(id := k)
      {
        cs := cs[nextCollege := collegeData[i].(id := nextCollege)];
        nextCollege := nextCollege + 1;
      }
      var bs: map<int, Branch> := map[];
      var nextBranch := 1;
      for i := 0 to |branchData|
        invariant nextBranch == i + 1
        invariant forall k :: k in bs <==> 1 <= k <= i
        invariant forall k :: 1 <= k <= i ==> bs[k] == branchData[k - 1].(id := k)
      {
        bs := bs[nextBranch := branchData[i].(id := nextBranch)];
        nextBranch := nextBranch + 1;
      }
      colleges, currentCollegeId := cs, nextCollege;
      branches, currentBranchId := bs, nextBranch;
    }

    /** `getHistoricalCutoffs(conditions)`: the stored rows passing the conditions, newest
        year first and, within a year, by round. */
    method GetHistoricalCutoffs(conditions: Option<CutoffConditions>) returns (r: seq<HistoricalCutoff>)
      requires Valid()
      ensures multiset(r) == multiset(Filter(CutoffRows(), h => MatchesConditions(h, conditions)))
      ensures forall i, j :: 0 <= i < j < |r| ==> CutoffBefore(r[i], r[j])
      ensures forall h :: h in r ==> h.id in historicalCutoffs && historicalCutoffs[h.id] == h
    {
      var rows := CutoffRows();
      var filteredCutoffs := ApplyConditions(rows, conditions);
      var expected := Filter(rows, h => MatchesConditions(h, conditions));
      r := Sorting.SortSeq(filteredCutoffs, CutoffBefore);
      forall h | h in r
        ensures h.id in historicalCutoffs && historicalCutoffs[h.id] == h
      {
        assert h in multiset(expected);
        RowsMembership(historicalCutoffs, currentHistoricalCutoffId, h);
      }
    }

    /** `getHistoricalCutoffsForCollegeAndBranch`: the query with only these two conditions. */
    method GetHistoricalCutoffsForCollegeAndBranch(collegeId: int, branchId: int) returns (r: seq<HistoricalCutoff>)
      requires Valid()
      ensures var conditions := Some(CutoffConditions(Some(collegeId), Some(branchId), None, None, None));
              multiset(r) == multiset(Filter(CutoffRows(), h => MatchesConditions(h, conditions)))
      ensures forall i, j :: 0 <= i < j < |r| ==> CutoffBefore(r[i], r[j])
      ensures forall h :: h in r ==> (collegeId != 0 ==> h.collegeId == collegeId) &&
                                     (branchId != 0 ==> h.branchId == branchId)
    {
      var conditions := Some(CutoffConditions(Some(collegeId), Some(branchId), None, None, None));
      r := GetHistoricalCutoffs(conditions);
      forall h | h in r
        ensures (collegeId != 0 ==> h.collegeId == collegeId) && (branchId != 0 ==> h.branchId == branchId)
      {
        assert h in multiset(Filter(CutoffRows(), h => MatchesConditions(h, conditions)));
      }
    }

    /** `getColleges`: every stored college, ordered by the smallest cutoff rank among its
        branches, colleges with none last. */
    method GetColleges() returns (r: seq<College>)
      requires Valid()
      ensures multiset(r) == multiset(CollegeRows())
      ensures forall i, j :: 0 <= i < j < |r| ==>
                ExtLe(CollegeMinCutoff(r[i].id, BranchRows()), CollegeMinCutoff(r[j].id, BranchRows()))
    {
      var colleges := CollegeRows();
      var branches := BranchRows();
      var collegeMinCutoffs: map<int, Extended> := map[];
      for i := 0 to |colleges|
        invariant forall k :: k in collegeMinCutoffs ==> collegeMinCutoffs[k] == CollegeMinCutoff(k, branches)
        invariant forall j :: 0 <= j < i ==> colleges[j].id in collegeMinCutoffs
      {
        var college := colleges[i];
        var minCutoff := CollegeMinCutoff(college.id, branches);
        collegeMinCutoffs := collegeMinCutoffs[college.id := minCutoff];
      }
      var byCutoff := (a: College, b: College) =>
        ExtLe(LookupOrInfinity(collegeMinCutoffs, a.id), LookupOrInfinity(collegeMinCutoffs, b.id));
      r := Sorting.SortSeq(colleges, byCutoff);
      forall i | 0 <= i < |r|
        ensures LookupOrInfinity(collegeMinCutoffs, r[i].id) == CollegeMinCutoff(r[i].id, branches)
      {
        assert r[i] in multiset(colleges);
      }
    }

    /** `getBranches`: the stored branches in insertion order. */
    method GetBranches() returns (r: seq<Branch>)
      requires Valid()
      ensures forall b :: b in r <==> b in branches.Values
      ensures forall i, j :: 0 <= i < j < |r| ==> r[i].id < r[j].id
    {
      r := BranchRows();
      RowsAscending(branches, currentBranchId, (b: Branch) => b.id);
      forall b ensures b in r <==> b in branches.Values {
        RowsMembership(branches, currentBranchId, b);
      }
    }

    /** `getChoices`: the stored choices in insertion order. */
    method GetChoices() returns (r: seq<Choice>)
      requires Valid()
      ensures forall c :: c in r <==> c in choices.Values
      ensures forall i, j :: 0 <= i < j < |r| ==> r[i].id < r[j].id
    {
      r := ChoiceRows();
      RowsAscending(choices, currentChoiceId, (c: Choice) => c.id);
      forall c ensures c in r <==> c in choices.Values {
        RowsMembership(choices, currentChoiceId, c);
      }
    }

    /** `addChoice`: the choice under the next id, which is then used up. */
    method AddChoice(choice: Choice) returns (r: Choice)
      requires Valid()
      modifies this
      ensures Valid()
      ensures r == choice.(id := old(currentChoiceId))
      ensures forall k :: k in old(choices) ==> k < r.id
      ensures choices == old(choices)[r.id := r]
      ensures currentChoiceId == old(currentChoiceId) + 1
      ensures ChoiceRows() == old(ChoiceRows()) + [r]
      ensures colleges == old(colleges) && branches == old(branches) && admins == old(admins)
      ensures historicalCutoffs == old(historicalCutoffs)
      ensures currentCollegeId == old(currentCollegeId) && currentBranchId == old(currentBranchId)
      ensures currentAdminId == old(currentAdminId) && currentHistoricalCutoffId == old(currentHistoricalCutoffId)
    {
      var id := currentChoiceId;
      currentChoiceId := currentChoiceId + 1;
      var newChoice := choice.(id := id);
      RowsAppend(choices, id, newChoice);
      choices := choices[id := newChoice];
      r := newChoice;
    }

    /** `removeChoice`: deletes that key only; a missing key changes nothing. */
    method RemoveChoice(id: int)
      requires Valid()
      modifies this
      ensures Valid()
      ensures choices == old(choices) - {id}
      ensures id !in old(choices) ==> choices == old(choices)
      ensures forall k :: k in choices ==> choices[k] == old(choices)[k]
      ensures ChoiceRows() == Filter(old(ChoiceRows()), (c: Choice) => c.id != id)
      ensures currentChoiceId == old(currentChoiceId)
      ensures colleges == old(colleges) && branches == old(branches) && admins == old(admins)
      ensures historicalCutoffs == old(historicalCutoffs)
      ensures currentCollegeId == old(currentCollegeId) && currentBranchId == old(currentBranchId)
      ensures currentAdminId == old(currentAdminId) && currentHistoricalCutoffId == old(currentHistoricalCutoffId)
    {
      ChoiceRowsRemove(choices, currentChoiceId, id);
      choices := choices - {id};
    }

    /** `updateChoicePriority`: fails when the id is not stored; otherwise gives that choice
        the new priority and changes nothing else. */
    method UpdateChoicePriority(id: int, priority: int) returns (r: Result<Choice, string>)
      requires Valid()
      modifies this
      ensures Valid()
      ensures id !in old(choices) ==> r == Failure("Choice not found") && choices == old(choices)
      ensures id in old(choices) ==>
                && r == Success(old(choices)[id].(priority := priority))
                && choices == old(choices)[id := r.value]
      ensures |ChoiceRows()| == |old(ChoiceRows())|
      ensures forall i :: 0 <= i < |ChoiceRows()| ==>
                ChoiceRows()[i] == if old(ChoiceRows())[i].id == id then old(ChoiceRows())[i].(priority := priority)
                                   else old(ChoiceRows())[i]
      ensures currentChoiceId == old(currentChoiceId)
      ensures colleges == old(colleges) && branches == old(branches) && admins == old(admins)
      ensures historicalCutoffs == old(historicalCutoffs)
      ensures currentCollegeId == old(currentCollegeId) && currentBranchId == old(currentBranchId)
      ensures currentAdminId == old(currentAdminId) && currentHistoricalCutoffId == old(currentHistoricalCutoffId)
    {
      if id !in choices {
        forall i | 0 <= i < |ChoiceRows()|
          ensures ChoiceRows()[i].id != id
        {
          RowsMembership(choices, currentChoiceId, ChoiceRows()[i]);
        }
        return Failure("Choice not found");
      }
      var choice := choices[id];
      var updatedChoice := choice.(priority := priority);
      ChoiceRowsReprioritize(choices, currentChoiceId, id, priority);
      choices := choices[id := updatedChoice];
      r := Success(updatedChoice);
    }

    /** `getAdminByInstituteCode`: the first stored admin with that code, or none. */
    method GetAdminByInstituteCode(instituteCode: string) returns (r: Option<Admin>)
      requires Valid()
      ensures r == FindFirst(AdminRows(), (a: Admin) => a.instituteCode == instituteCode)
      ensures r.Some? ==> r.value.instituteCode == instituteCode && r.value.id in admins && admins[r.value.id] == r.value
      ensures r.None? <==> forall k :: k in admins ==> admins[k].instituteCode != instituteCode
    {
      r := FindFirst(AdminRows(), (a: Admin) => a.instituteCode == instituteCode);
      if r.Some? {
        RowsMembership(admins, currentAdminId, r.value);
      } else {
        forall k | k in admins
          ensures admins[k].instituteCode != instituteCode
        {
          RowsMembership(admins, currentAdminId, admins[k]);
        }
      }
    }

    /** `createAdmin`: the admin under the next id, which is then used up. */
    method CreateAdmin(admin: Admin) returns (r: Admin)
      requires Valid()
      modifies this
      ensures Valid()
      ensures r == admin.(id := old(currentAdminId))
      ensures forall k :: k in old(admins) ==> k < r.id
      ensures admins == old(admins)[r.id := r]
      ensures currentAdminId == old(currentAdminId) + 1
      ensures AdminRows() == old(AdminRows()) + [r]
      ensures colleges == old(colleges) && branches == old(branches) && choices == old(choices)
      ensures historicalCutoffs == old(historicalCutoffs)
      ensures currentCollegeId == old(currentCollegeId) && currentBranchId == old(currentBranchId)
      ensures currentChoiceId == old(currentChoiceId) && currentHistoricalCutoffId == old(currentHistoricalCutoffId)
    {
      var id := currentAdminId;
      currentAdminId := currentAdminId + 1;
      var newAdmin := admin.(id := id);
      RowsAppend(admins, id, newAdmin);
      admins := admins[id := newAdmin];
      r := newAdmin;
    }

    /** `addHistoricalCutoff`: the row under the next id, which is then used up. */
    method AddHistoricalCutoff(cutoff: HistoricalCutoff) returns (r: HistoricalCutoff)
      requires Valid()
      modifies this
      ensures Valid()
      ensures r == cutoff.(id := old(currentHistoricalCutoffId))
      ensures forall k :: k in old(historicalCutoffs) ==> k < r.id
      ensures historicalCutoffs == old(historicalCutoffs)[r.id := r]
      ensures currentHistoricalCutoffId == old(currentHistoricalCutoffId) + 1
      ensures CutoffRows() == old(CutoffRows()) + [r]
      ensures colleges == old(colleges) && branches == old(branches) && choices == old(choices)
      ensures admins == old(admins)
      ensures currentCollegeId == old(currentCollegeId) && currentBranchId == old(currentBranchId)
      ensures currentChoiceId == old(currentChoiceId) && currentAdminId == old(currentAdminId)
    {
      var id := currentHistoricalCutoffId;
      currentHistoricalCutoffId := currentHistoricalCutoffId + 1;
      var newCutoff := cutoff.(id := id);
      RowsAppend(historicalCutoffs, id, newCutoff);
      historicalCutoffs := historicalCutoffs[id := newCutoff];
      r := newCutoff;
    }
  }
}
