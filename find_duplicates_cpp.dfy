/** `hasDuplicate` of findDuplicates.cpp: a range-for over a vector of
    ints, with an `unordered_set` of the values passed. */
module FindDuplicatesCpp {
  import opened Duplicates

  /** Walks an iterator from the first element to the end; answers true at
      the first value already in `seen`, false at the end. */
  method HasDuplicate(nums: seq<int>) returns (found: bool)
    ensures found <==> Repeats(nums)
  {
    var seen: set<int> := {};
    var it := 0;
    while it != |nums|
      invariant it <= |nums| && it <= FirstRepeat(nums)
      invariant forall x :: x in seen <==> x in nums[..it]
      invariant forall a, b :: 0 <= a < b < it ==> nums[a] != nums[b]
      decreases |nums| - it
    {
      var num := nums[it];
      FirstRepeatAt(nums, it);
      if num in seen {
        FirstRepeatFinds(nums);
        return true;
      }
      assert nums[..it + 1] == nums[..it] + [num];
      seen := seen + {num};
      it := it + 1;
    }
    FirstRepeatFinds(nums);
    return false;
  }
}
