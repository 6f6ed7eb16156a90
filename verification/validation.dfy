/** Checking the claimed numbers against the hand.

    The hand's values are copied into a working list; each claimed number, in
    the order the formula gives them, removes the first equal value still in
    the list, and the first number that finds none rejects the whole formula.
    Taken together this is multiset inclusion, whatever the order of the
    numbers.
 */
module Validation {

  datatype MatchResult =
    | Matched(leftover: seq<int>)  // every number found a card; the unused values
    | Unmatched(missing: int)      // a claimed number the hand holds fewer copies of than claimed

  /** `indexOf`: the first position holding x, or -1 when x is absent. */
  function IndexOf(xs: seq<int>, x: int): (k: int)
    ensures -1 <= k < |xs|
    ensures k == -1 <==> x !in xs
    ensures k >= 0 ==> xs[k] == x && x !in xs[..k]
  {
    if xs == [] then -1
    else if xs[0] == x then 0
    else
      var k := IndexOf(xs[1..], x);
      assert k >= 0 ==> xs[..k + 1] == [xs[0]] + xs[1..][..k];
      if k == -1 then -1 else k + 1
  }

  /** `splice(k, 1)`: the list one shorter, having lost exactly one copy of
      the element at position k. */
  function RemoveAt(xs: seq<int>, k: nat): (r: seq<int>)
    requires k < |xs|
    ensures |r| == |xs| - 1
    ensures multiset(r) + multiset{xs[k]} == multiset(xs)
  {
    assert xs == xs[..k] + [xs[k]] + xs[k + 1..];
    xs[..k] + xs[k + 1..]
  }

  /** The greedy check: numbers are matched left to right, each against the
      first remaining equal value. It succeeds exactly when the numbers, as a
      multiset, fit inside the hand, and then every number has used up one
      value of its own. */
  function Match(nums: seq<int>, hand: seq<int>): (r: MatchResult)
    ensures r.Matched? <==> multiset(nums) <= multiset(hand)
    ensures r.Matched? ==> multiset(r.leftover) + multiset(nums) == multiset(hand)
    ensures r.Unmatched? ==> r.missing in nums && multiset(nums)[r.missing] > multiset(hand)[r.missing]
    decreases |nums|
  {
    if nums == [] then Matched(hand)
    else
      var x := nums[0];
      assert nums == [x] + nums[1..];
      var k := IndexOf(hand, x);
      if k == -1 then
        assert multiset(nums)[x] > 0 == multiset(hand)[x];
        Unmatched(x)
      else
        var rest := RemoveAt(hand, k);
        var r := Match(nums[1..], rest);
        SubMultisetStep(nums[1..], rest, x);
        r
  }

  /** Removing one copy of x from both sides keeps inclusion as it was. */
  lemma SubMultisetStep(more: seq<int>, rest: seq<int>, x: int)
    ensures multiset([x] + more) <= multiset(rest) + multiset{x} <==> multiset(more) <= multiset(rest)
  {
    var A, B := multiset(more), multiset(rest);
    assert multiset([x] + more) == A + multiset{x};
    if A + multiset{x} <= B + multiset{x} {
      forall y ensures A[y] <= B[y] {
        assert (A + multiset{x})[y] <= (B + multiset{x})[y];
      }
    }
  }

  /** One round of the greedy check, unfolded. */
  lemma MatchFrom(nums: seq<int>, hand: seq<int>, i: nat)
    requires i < |nums|
    ensures var k := IndexOf(hand, nums[i]);
      Match(nums[i..], hand) == if k == -1 then Unmatched(nums[i]) else Match(nums[i + 1..], RemoveAt(hand, k))
  {
    assert nums[i..][0] == nums[i] && nums[i..][1..] == nums[i + 1..];
  }

  /** The loop of the source, over a working copy of the hand values: it
      `break`s at the first number that finds no card. The caller's list is
      a value and is never changed. */
  method ValidateCards(nums: seq<int>, handValues: seq<int>) returns (valid: bool)
    ensures valid <==> multiset(nums) <= multiset(handValues)
    ensures valid <==> Match(nums, handValues).Matched?
  {
    var temp := handValues;
    valid := true;
    var i := 0;
    assert nums[0..] == nums;
    while i < |nums|
      invariant 0 <= i <= |nums|
      invariant valid && Match(nums[i..], temp) == Match(nums, handValues)
    {
      var index := IndexOf(temp, nums[i]);
      MatchFrom(nums, temp, i);
      if index > -1 {
        temp := RemoveAt(temp, index);
      } else {
        valid := false;
        break;
      }
      i := i + 1;
    }
    assert valid ==> nums[i..] == [];
  }

  /** Validity does not depend on the order in which the formula mentions the
      numbers. */
  lemma MatchIgnoresOrder(nums: seq<int>, other: seq<int>, hand: seq<int>)
    requires multiset(nums) == multiset(other)
    ensures Match(nums, hand).Matched? <==> Match(other, hand).Matched?
  {
  }

  /** Two 2s fit a hand holding two 2s; three do not. */
  lemma DuplicateValues()
    ensures Match([2, 2], [2, 2, 5, 7, 9]) == Matched([5, 7, 9])
    ensures Match([2, 2, 2], [2, 2, 5, 7, 9]) == Unmatched(2)
  {
    assert [2, 2][1..] == [2];
    assert [2, 2, 2][1..] == [2, 2];
    assert [2, 2, 5, 7, 9][..0] + [2, 2, 5, 7, 9][1..] == [2, 5, 7, 9];
    assert [2, 5, 7, 9][..0] + [2, 5, 7, 9][1..] == [5, 7, 9];
  }
}
