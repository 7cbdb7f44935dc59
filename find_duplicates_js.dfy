/** `hasDuplicate` of findDuplicates.js: a `for...of` loop over an array,
    with a `Set` of the values passed. The `Set`'s own equality is the
    equality of the element type here. */
module FindDuplicatesJs {
  import opened Duplicates

  /** Takes the elements one by one from what remains to iterate; answers
      true at the first value the `Set` already has, false when nothing
      remains. */
  method HasDuplicate<T(==)>(nums: seq<T>) returns (found: bool)
    ensures found <==> Repeats(nums)
  {
    var seen: set<T> := {};
    var rest := nums;
    while rest != []
      invariant |rest| <= |nums| && rest == nums[|nums| - |rest|..]
      invariant |nums| - |rest| <= FirstRepeat(nums)
      invariant forall x :: x in seen <==> x in nums[..|nums| - |rest|]
      invariant forall a, b :: 0 <= a < b < |nums| - |rest| ==> nums[a] != nums[b]
    {
      var num, done := rest[0], |nums| - |rest|;
      assert num == nums[done];
      FirstRepeatAt(nums, done);
      if num in seen {
        FirstRepeatFinds(nums);
        return true;
      }
      assert nums[..done + 1] == nums[..done] + [num];
      seen := seen + {num};
      rest := rest[1..];
    }
    FirstRepeatFinds(nums);
    return false;
  }
}
