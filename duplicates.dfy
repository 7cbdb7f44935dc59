/** What the three `hasDuplicate` functions compute: whether a value occurs
    twice, and where a scan that remembers the values it has passed first
    meets one it has seen before. */
module Duplicates {

  /** Some value occurs at two different positions of `s`. */
  ghost predicate Repeats<T>(s: seq<T>) {
    exists i, j :: 0 <= i < j < |s| && s[i] == s[j]
  }

  /** The position of the first element of `s` equal to an earlier one,
      or |s| when the elements are pairwise distinct. */
  function FirstRepeat<T(==)>(s: seq<T>): (k: nat)
    ensures k <= |s|
    ensures forall i, j :: 0 <= i < j < k ==> s[i] != s[j]
    ensures k < |s| ==> s[k] in s[..k]
  {
    if s == [] then 0
    else
      var init := s[..|s| - 1];
      var k := FirstRepeat(init);
      if k < |init| then
        assert s[..k] == init[..k];
        k
      else if s[|s| - 1] in init then |init|
      else |s|
  }

  /** A value occurs twice exactly when the scan stops before the end. */
  lemma FirstRepeatFinds<T>(s: seq<T>)
    ensures Repeats(s) <==> FirstRepeat(s) < |s|
  {
    var k := FirstRepeat(s);
    if k < |s| {
      var i :| 0 <= i < k && s[..k][i] == s[k];
      assert s[i] == s[k];
    }
  }

  /** A scan that has passed the first i elements without meeting a value
      seen before has not passed the first repeat; meeting one at i, it
      is at the first repeat. */
  lemma FirstRepeatAt<T>(s: seq<T>, i: nat)
    requires i < |s| && i <= FirstRepeat(s)
    ensures s[i] in s[..i] <==> i == FirstRepeat(s)
  {
    if i < FirstRepeat(s) {
      forall j | 0 <= j < i ensures s[..i][j] != s[i] {
        assert s[..i][j] == s[j];
      }
    }
  }

  /** An empty list has no repeated value. */
  lemma EmptyHasNone<T>()
    ensures !Repeats<T>([])
  {
  }

  /** In [1, 2, 3, 4, 1] the first repeat is the last element. */
  lemma ExampleRepeats()
    ensures FirstRepeat([1, 2, 3, 4, 1]) == 4 && Repeats([1, 2, 3, 4, 1])
  {
    var s := [1, 2, 3, 4, 1];
    assert s[..1] == [1] && s[..2] == [1, 2] && s[..3] == [1, 2, 3] && s[..4] == [1, 2, 3, 4];
    FirstRepeatFinds(s);
  }
}
