/** `sum` of sum.rs: `slice.iter().sum()` over `i32`, a left fold from 0
    whose additions are checked for overflow (a debug build panics on the
    first one that leaves the range). */
module SliceSum {

  newtype i32 = x: int | -0x8000_0000 <= x < 0x8000_0000

  /** The mathematical total of `s`, taken from the front. */
  function Total(s: seq<i32>): int {
    if s == [] then 0 else s[0] as int + Total(s[1..])
  }

  /** Adding one more element at the back adds it to the total. */
  lemma {:induction false} TotalAppend(s: seq<i32>, x: i32)
    ensures Total(s + [x]) == Total(s) + x as int
  {
    if s != [] {
      assert (s + [x])[1..] == s[1..] + [x];
      TotalAppend(s[1..], x);
    }
  }

  /** Every running total of the fold fits in `i32`: the fold never
      overflows. */
  ghost predicate FoldFits(s: seq<i32>) {
    forall k :: 0 <= k <= |s| ==> -0x8000_0000 <= Total(s[..k]) < 0x8000_0000
  }

  /** The sum of the slice, added up from the first element to the last. */
  function Sum(slice: seq<i32>): (total: i32)
    requires FoldFits(slice)
    ensures total as int == Total(slice)
  {
    if slice == [] then 0
    else
      var init, last := slice[..|slice| - 1], slice[|slice| - 1];
      assert slice == init + [last];
      assert FoldFits(init) by {
        forall k | 0 <= k <= |init| ensures init[..k] == slice[..k] { }
      }
      TotalAppend(init, last);
      assert slice[..|slice|] == slice;
      Sum(init) + last
  }

  /** The sum of no elements is 0. */
  lemma SumEmpty()
    ensures Sum([]) == 0
  {
  }

  /** A fold: the sum with one more element is the earlier sum plus it. */
  lemma SumAppend(s: seq<i32>, x: i32)
    requires FoldFits(s + [x])
    ensures FoldFits(s) && Sum(s + [x]) as int == Sum(s) as int + x as int
  {
    assert FoldFits(s) by {
      forall k | 0 <= k <= |s| ensures (s + [x])[..k] == s[..k] { }
    }
    TotalAppend(s, x);
  }

  /** The program's vector of 1 .. 5: five elements summing to 15. */
  lemma ExampleSum()
    ensures var v: seq<i32> := [1, 2, 3, 4, 5]; |v| == 5 && FoldFits(v) && Sum(v) == 15
  {
    var v: seq<i32> := [1, 2, 3, 4, 5];
    forall k | 0 <= k < |v| ensures Total(v[..k + 1]) == Total(v[..k]) + v[k] as int {
      assert v[..k + 1] == v[..k] + [v[k]];
      TotalAppend(v[..k], v[k]);
    }
    assert v[..0] == [] && v[..5] == v;
    assert Total(v[..1]) == 1 && Total(v[..2]) == 3 && Total(v[..3]) == 6 && Total(v[..4]) == 10;
    assert Total(v) == 15;
  }
}
