/** `hasDuplicate` of findDuplicates.py: an index loop over a list, with a
    set of the values passed. */
module FindDuplicatesPy {
  import opened Duplicates

  /** Visits the positions 0 .. len(nums)-1 in turn; answers True at the
      first value already in `seen`, False after the last. */
  method HasDuplicate<T(==)>(nums: seq<T>) returns (found: bool)
    ensures found <==> Repeats(nums)
  {
    var seen: set<T> := {};
    for i := 0 to |nums|
      invariant i <= FirstRepeat(nums)
      invariant forall x :: x in seen <==> x in nums[..i]
      invariant forall a, b :: 0 <= a < b < i ==> nums[a] != nums[b]
    {
      var num := nums[i];
      FirstRepeatAt(nums, i);
      if num in seen {
        FirstRepeatFinds(nums);
        return true;
      }
      assert nums[..i + 1] == nums[..i] + [num];
      seen := seen + {num};
    }
    FirstRepeatFinds(nums);
    return false;
  }
}
