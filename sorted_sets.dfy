/**
 * `sorted(set(nums))`: the distinct values of a list in ascending order.
 */
module SortedSets {

  /** Every element is smaller than every later one (so there are no repeats). */
  predicate StrictlyIncreasing(u: seq<int>) {
    forall i, j :: 0 <= i < j < |u| ==> u[i] < u[j]
  }

  /** Put `x` into its place in an ascending list, unless it is already there. */
  function Insert(u: seq<int>, x: int): (r: seq<int>)
    requires StrictlyIncreasing(u)
    ensures StrictlyIncreasing(r)
    ensures forall v :: v in r <==> v in u || v == x
  {
    if u == [] then [x]
    else if x < u[0] then [x] + u
    else if x == u[0] then u
    else
      var rest := Insert(u[1..], x);
      assert forall j :: 0 <= j < |rest| ==> rest[j] in u[1..] || rest[j] == x;
      [u[0]] + rest
  }

  /** The distinct values of `nums`, ascending. */
  function SortedDistinct(nums: seq<int>): (u: seq<int>)
    ensures StrictlyIncreasing(u)
    ensures forall v :: v in u <==> v in nums
  {
    if nums == [] then []
    else Insert(SortedDistinct(nums[..|nums| - 1]), nums[|nums| - 1])
  }

  /** In an ascending list, the values before position `i` are exactly those
      below the value at `i`. */
  lemma {:induction false} BelowIsPrefix(u: seq<int>, i: nat)
    requires StrictlyIncreasing(u) && i < |u|
    ensures forall v :: v in u[..i] <==> v in u && v < u[i]
  {
    forall v | v in u && v < u[i]
      ensures v in u[..i]
    {
      var k :| 0 <= k < |u| && u[k] == v;
      assert k < i;
    }
  }
}
