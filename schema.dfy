/** The records shared by client and server (colleges, branches, historical cutoffs, choices,
    admins), the student's filter values, and the JavaScript conversions the core relies on:
    truthiness of optional numbers, `number.toString()` and `string.split("-")[0]`. */
module Schema {
  import opened Wrappers

  datatype CollegeType = Government | GrantInAid | Private

  datatype Course = BETech | DiplomaEngineering | Pharmacy | Architecture | MCA | MBA

  /** Counselling rounds "Mock", "1", "2", "3". */
  datatype Round = Mock | Round1 | Round2 | Round3

  datatype Category = General | EWS | OBC | SC | ST | PWD

  datatype College = College(
    id: int,
    name: string,
    collegeType: CollegeType,
    city: string,
    placementRate: Option<real>,
    averagePackage: Option<real>,
    annualFee: int,
    instituteCode: string)

  datatype Branch = Branch(
    id: int,
    collegeId: int,
    name: string,
    course: Course,
    seats: int,
    cutoffRank: Option<int>)

  datatype HistoricalCutoff = HistoricalCutoff(
    id: int,
    collegeId: int,
    branchId: int,
    year: int,
    round: Round,
    category: Category,
    closingRank: int,
    openingRank: int)

  datatype Choice = Choice(id: int, collegeId: int, branchId: int, priority: int)

  datatype Admin = Admin(id: int, collegeId: int, instituteCode: string, password: string)

  /** The student's query. `maxFee == 0` means no fee ceiling; `selectedInstituteBranches`
      holds strings of the form "collegeId-branchId". */
  datatype FilterValues = FilterValues(
    acpcRank: Option<int>,
    course: Course,
    selectedBranches: seq<string>,
    round: Round,
    category: Category,
    selectedCollegeTypes: seq<CollegeType>,
    maxFee: int,
    selectedInstituteBranches: seq<string>,
    selectedInstitutes: seq<string>)

  /** JavaScript truthiness of an optional number: absent and zero are falsy. */
  predicate TruthyInt(o: Option<int>) {
    o.Some? && o.value != 0
  }

  predicate TruthyReal(o: Option<real>) {
    o.Some? && o.value != 0.0
  }

  /** `o || d` on an optional number. */
  function IntOr(o: Option<int>, d: int): int {
    if TruthyInt(o) then o.value else d
  }

  function RealOr(o: Option<real>, d: real): real {
    if TruthyReal(o) then o.value else d
  }

  /** The student's rank as `filters.acpcRank || 0`. */
  function RankOf(f: FilterValues): int {
    IntOr(f.acpcRank, 0)
  }

  function DigitChar(d: int): char
    requires 0 <= d < 10
  {
    "0123456789"[d]
  }

  function NatToString(n: nat): (s: string)
    ensures |s| > 0
    ensures forall i :: 0 <= i < |s| ==> '0' <= s[i] <= '9'
  {
    if n < 10 then [DigitChar(n)] else NatToString(n / 10) + [DigitChar(n % 10)]
  }

  /** `n.toString()` for an integer `n`. */
  function IdToString(n: int): string {
    if n < 0 then "-" + NatToString(-n) else NatToString(n)
  }

  /** `s.split("-")[0]`: the text before the first '-', or all of `s` when it has none. */
  function TextBeforeDash(s: string): (r: string)
    ensures '-' !in r
    ensures r <= s
    ensures r == s || (|r| < |s| && s[|r|] == '-')
  {
    if s == [] || s[0] == '-' then [] else [s[0]] + TextBeforeDash(s[1..])
  }

  lemma {:induction false} TextBeforeDashOfJoin(a: string, b: string)
    requires '-' !in a
    ensures TextBeforeDash(a + "-" + b) == a
  {
    if a != [] {
      assert (a + "-" + b)[1..] == a[1..] + "-" + b;
      TextBeforeDashOfJoin(a[1..], b);
    }
  }

  /** An entry "collegeId-branchId" built from a non-negative college id names that college. */
  lemma InstituteBranchKeyNamesCollege(collegeId: nat, branchId: int)
    ensures TextBeforeDash(IdToString(collegeId) + "-" + IdToString(branchId)) == IdToString(collegeId)
  {
    var s := NatToString(collegeId);
    assert forall i :: 0 <= i < |s| ==> s[i] != '-';
    TextBeforeDashOfJoin(s, IdToString(branchId));
  }
}
