/** The client's comparison list (`useCompareStore` in `compareStore.ts`): the college and
    branch pairs the student has put side by side, in the order they were added. */
module CompareStore {
  import opened Schema
  import opened Seqs

  /** One `{ college, branch }` item of the list. */
  datatype CompareEntry = CompareEntry(college: College, branch: Branch)

  /** The item is the pair named by these two ids. */
  predicate IsPair(e: CompareEntry, collegeId: int, branchId: int) {
    e.college.id == collegeId && e.branch.id == branchId
  }

  /** The list without any item naming the pair, the rest kept in order. */
  function WithoutPair(entries: seq<CompareEntry>, collegeId: int, branchId: int): (r: seq<CompareEntry>)
    ensures forall e :: e in r <==> e in entries && !IsPair(e, collegeId, branchId)
    ensures forall e {:trigger multiset(r)[e]} ::
              multiset(r)[e] == if IsPair(e, collegeId, branchId) then 0 else multiset(entries)[e]
    ensures |r| <= |entries|
  {
    Filter(entries, (e: CompareEntry) => !IsPair(e, collegeId, branchId))
  }

  /** Removal keeps the surviving items in their original order. */
  lemma WithoutPairKeepsOrder(entries: seq<CompareEntry>, collegeId: int, branchId: int)
    ensures Subsequence(WithoutPair(entries, collegeId, branchId), entries)
  {
    FilterIsSubsequence(entries, (e: CompareEntry) => !IsPair(e, collegeId, branchId));
  }

  /** Removing a pair that is not in the list leaves the list as it was. */
  lemma WithoutAbsentPair(entries: seq<CompareEntry>, collegeId: int, branchId: int)
    requires forall i :: 0 <= i < |entries| ==> !IsPair(entries[i], collegeId, branchId)
    ensures WithoutPair(entries, collegeId, branchId) == entries
  {
    FilterKeepsAll(entries, (e: CompareEntry) => !IsPair(e, collegeId, branchId));
  }

  /** Removing the pair just added undoes the addition when the pair was not already listed. */
  lemma RemoveUndoesAdd(entries: seq<CompareEntry>, college: College, branch: Branch)
    requires forall i :: 0 <= i < |entries| ==> !IsPair(entries[i], college.id, branch.id)
    ensures WithoutPair(entries + [CompareEntry(college, branch)], college.id, branch.id) == entries
  {
    var keep := (e: CompareEntry) => !IsPair(e, college.id, branch.id);
    FilterConcat(entries, [CompareEntry(college, branch)], keep);
    WithoutAbsentPair(entries, college.id, branch.id);
    assert Filter([CompareEntry(college, branch)], keep) == [];
  }

  /** Removing a pair twice is the same as removing it once. */
  lemma WithoutPairIdempotent(entries: seq<CompareEntry>, collegeId: int, branchId: int)
    ensures WithoutPair(WithoutPair(entries, collegeId, branchId), collegeId, branchId) ==
            WithoutPair(entries, collegeId, branchId)
  {
    var once := WithoutPair(entries, collegeId, branchId);
    forall i | 0 <= i < |once|
      ensures !IsPair(once[i], collegeId, branchId)
    {
      assert once[i] in once;
    }
    WithoutAbsentPair(once, collegeId, branchId);
  }

  class CompareList {
    var colleges: seq<CompareEntry>

    /** The list starts empty. */
    constructor ()
      ensures colleges == []
    {
      colleges := [];
    }

    /** `addCollege`: appends the pair, even when it is already listed. */
    method AddCollege(college: College, branch: Branch)
      modifies this
      ensures colleges == old(colleges) + [CompareEntry(college, branch)]
    {
      colleges := colleges + [CompareEntry(college, branch)];
    }

    /** `removeCollege`: drops every item naming the pair and keeps the rest in order. */
    method RemoveCollege(collegeId: int, branchId: int)
      modifies this
      ensures colleges == WithoutPair(old(colleges), collegeId, branchId)
      ensures forall e :: e in colleges ==> !IsPair(e, collegeId, branchId)
      ensures Subsequence(colleges, old(colleges))
    {
      WithoutPairKeepsOrder(colleges, collegeId, branchId);
      colleges := WithoutPair(colleges, collegeId, branchId);
    }
  }
}
