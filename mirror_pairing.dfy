/**
 * Mirror pairing inside one stamp group.
 *
 * The group's distinct values are walked in ascending order while a set of
 * visited values grows. A value not yet visited whose mirror differs from it
 * and is present in the group is emitted together with that mirror, and both
 * are marked visited; any other unvisited value is emitted alone.
 */
module MirrorPairing {
  import opened Digits
  import opened SortedSets

  /** One entry of a stamp group's output list. */
  datatype Entry =
    | Unpaired(number: int, count: int)
    | Paired(number: int, count: int, mirror: int, mirrorCount: int)

  /** `counts.get(v, 0)`. */
  function Get(counts: map<int, int>, v: int): int {
    if v in counts then counts[v] else 0
  }

  predicate AllTwoDigit(s: seq<int>) {
    forall v :: v in s ==> TwoDigit(v)
  }

  /** The values one entry accounts for. */
  function Covers(e: Entry): seq<int> {
    match e
    case Unpaired(n, _) => [n]
    case Paired(n, _, m, _) => [n, m]
  }

  /** The values a list of entries accounts for, in order. */
  function Members(es: seq<Entry>): seq<int> {
    if es == [] then [] else Members(es[..|es| - 1]) + Covers(es[|es| - 1])
  }

  /** `v` is the larger value of a mirror pair present in `bucket`: the walk has
      met its partner first and marked `v` visited. */
  predicate IsUpperPartner(v: int, bucket: seq<int>)
    requires TwoDigit(v)
  {
    Mirror(v) != v && Mirror(v) in bucket && Mirror(v) < v
  }

  /** The entry the walk emits when it reaches an unvisited `v`. */
  function EntryFor(v: int, bucket: seq<int>, counts: map<int, int>): Entry
    requires TwoDigit(v)
  {
    var m := Mirror(v);
    if m != v && m in bucket then Paired(v, Get(counts, v), m, Get(counts, m))
    else Unpaired(v, Get(counts, v))
  }

  /** Reference definition of the walk, without a visited set: over `prefix`,
      one entry for every value that is not the upper partner of a pair. */
  function EntriesOf(prefix: seq<int>, bucket: seq<int>, counts: map<int, int>): seq<Entry>
    requires AllTwoDigit(prefix)
  {
    if prefix == [] then []
    else
      var v := prefix[|prefix| - 1];
      EntriesOf(prefix[..|prefix| - 1], bucket, counts)
        + (if IsUpperPartner(v, bucket) then [] else [EntryFor(v, bucket, counts)])
  }

  /** The output list of a stamp group whose occurrences are `nums`. */
  function MirrorEntries(nums: seq<int>, counts: map<int, int>): seq<Entry>
    requires AllTwoDigit(nums)
  {
    var u := SortedDistinct(nums);
    EntriesOf(u, u, counts)
  }

  /** The walk with its visited set, over `sorted(set(nums))`. */
  method PairMirrors(nums: seq<int>, counts: map<int, int>) returns (grp: seq<Entry>)
    requires AllTwoDigit(nums)
    ensures grp == MirrorEntries(nums, counts)
  {
    var unique := SortedDistinct(nums);
    var visited: set<int> := {};
    grp := [];
    for i := 0 to |unique|
      invariant grp == EntriesOf(unique[..i], unique, counts)
      invariant VisitedUpTo(unique, i, visited)
    {
      var num := unique[i];
      WalkStep(unique, i, visited, counts);
      if num in visited {
        continue;
      }
      var mirror := Mirror(num);
      var cnt := Get(counts, num);
      if mirror != num && mirror in unique {
        var cntMirr := Get(counts, mirror);
        grp := grp + [Paired(num, cnt, mirror, cntMirr)];
        visited := visited + {num, mirror};
      } else {
        grp := grp + [Unpaired(num, cnt)];
        visited := visited + {num};
      }
    }
    assert unique[..|unique|] == unique;
  }

  /** The walk's visited set after the first `i` values of `u`: a later value has
      been visited exactly when its mirror is a different value already passed. */
  predicate VisitedUpTo(u: seq<int>, i: nat, visited: set<int>)
    requires i <= |u| && AllTwoDigit(u)
  {
    forall k :: i <= k < |u| ==>
      (u[k] in visited <==> Mirror(u[k]) != u[k] && Mirror(u[k]) in u[..i])
  }

  /** One step of the walk: the value at `i` has been visited exactly when it is
      an upper partner, the reference definition grows by the entry the walk
      emits, and the visited set the walk builds is the one for `i + 1`. */
  lemma WalkStep(u: seq<int>, i: nat, visited: set<int>, counts: map<int, int>)
    requires StrictlyIncreasing(u) && AllTwoDigit(u) && i < |u|
    requires VisitedUpTo(u, i, visited)
    ensures u[i] in visited <==> IsUpperPartner(u[i], u)
    ensures EntriesOf(u[..i + 1], u, counts)
            == EntriesOf(u[..i], u, counts)
               + (if IsUpperPartner(u[i], u) then [] else [EntryFor(u[i], u, counts)])
    ensures u[i] in visited ==> VisitedUpTo(u, i + 1, visited)
    ensures u[i] !in visited && Mirror(u[i]) != u[i] && Mirror(u[i]) in u
            ==> VisitedUpTo(u, i + 1, visited + {u[i], Mirror(u[i])})
    ensures u[i] !in visited && !(Mirror(u[i]) != u[i] && Mirror(u[i]) in u)
            ==> VisitedUpTo(u, i + 1, visited + {u[i]})
  {
    var num := u[i];
    BelowIsPrefix(u, i);
    assert u[..i + 1][..i] == u[..i];
    assert u[..i + 1] == u[..i] + [num];
    forall k | i < k < |u|
      ensures Mirror(u[k]) == num <==> Mirror(num) == u[k]
    {
      MirrorSymmetric(num, u[k]);
    }
  }

  /** What every entry of the walk over `prefix` is: a value of `prefix` with
      its count; a pair holds a value and its distinct, larger mirror present
      in the bucket; a single value has no other mirror in the bucket. */
  predicate EntryFacts(e: Entry, prefix: seq<int>, bucket: seq<int>, counts: map<int, int>) {
    && e.number in prefix
    && TwoDigit(e.number)
    && e.count == Get(counts, e.number)
    && (e.Paired? ==>
          && e.mirror == Mirror(e.number)
          && e.mirror != e.number
          && e.mirror in bucket
          && e.number < e.mirror
          && e.mirrorCount == Get(counts, e.mirror))
    && (e.Unpaired? ==> Mirror(e.number) == e.number || Mirror(e.number) !in bucket)
  }

  lemma {:induction false} EntriesOfFacts(prefix: seq<int>, bucket: seq<int>, counts: map<int, int>)
    requires AllTwoDigit(prefix)
    ensures forall e :: e in EntriesOf(prefix, bucket, counts) ==> EntryFacts(e, prefix, bucket, counts)
  {
    if prefix != [] {
      var init := prefix[..|prefix| - 1];
      EntriesOfFacts(init, bucket, counts);
      forall e | e in EntriesOf(init, bucket, counts)
        ensures EntryFacts(e, prefix, bucket, counts)
      {
        assert e.number in init;
      }
    }
  }

  /** Every entry's `number` is below any bound of the walked values. */
  lemma {:induction false} EntriesOfBelow(prefix: seq<int>, bucket: seq<int>, counts: map<int, int>, bound: int)
    requires AllTwoDigit(prefix)
    requires forall v :: v in prefix ==> v < bound
    ensures forall e :: e in EntriesOf(prefix, bucket, counts) ==> e.number < bound
  {
    if prefix != [] {
      var init, v := prefix[..|prefix| - 1], prefix[|prefix| - 1];
      assert forall x :: x in init ==> x in prefix;
      EntriesOfBelow(init, bucket, counts, bound);
      assert v in prefix;
    }
  }

  /** Entries whose `number`s strictly increase along the list. */
  predicate AscendingNumbers(es: seq<Entry>) {
    forall a, b :: 0 <= a < b < |es| ==> es[a].number < es[b].number
  }

  /** Entries are listed in ascending order of their `number`. */
  lemma {:induction false} EntriesOfAscending(prefix: seq<int>, bucket: seq<int>, counts: map<int, int>)
    requires AllTwoDigit(prefix) && StrictlyIncreasing(prefix)
    ensures AscendingNumbers(EntriesOf(prefix, bucket, counts))
  {
    if prefix != [] {
      var init := prefix[..|prefix| - 1];
      var v := prefix[|prefix| - 1];
      assert forall k :: 0 <= k < |init| ==> init[k] == prefix[k];
      EntriesOfAscending(init, bucket, counts);
      EntriesOfBelow(init, bucket, counts, v);
      var es := EntriesOf(init, bucket, counts);
      var all := EntriesOf(prefix, bucket, counts);
      if IsUpperPartner(v, bucket) {
        assert all == es;
      } else {
        assert all == es + [EntryFor(v, bucket, counts)];
        forall a, b | 0 <= a < b < |all|
          ensures all[a].number < all[b].number
        {
          assert all[a] == es[a] && es[a] in es;
          if b < |es| {
            assert all[b] == es[b];
          }
        }
      }
    }
  }

  /** A value is accounted for by the walk over prefix `p` of `bucket`: it lies in
      `p`, or it is the distinct mirror of a value in `p`. */
  predicate Accounted(x: int, p: seq<int>, bucket: seq<int>) {
    x in p || (x in bucket && TwoDigit(x) && Mirror(x) != x && Mirror(x) in p)
  }

  /** The values the walk emits on reaching an unvisited `v`. */
  function Partners(v: int, bucket: seq<int>): seq<int>
    requires TwoDigit(v)
  {
    if Mirror(v) != v && Mirror(v) in bucket then [v, Mirror(v)] else [v]
  }

  /** One step of the walk over an ascending bucket: the values newly
      accounted for are exactly the partners emitted for `v` (none if `v` is an
      upper partner), they are distinct, and none was accounted for before. */
  lemma AccountedStep(u: seq<int>, i: nat)
    requires StrictlyIncreasing(u) && AllTwoDigit(u) && 0 < i <= |u|
    ensures var p, v := u[..i - 1], u[i - 1];
            && (forall x :: Accounted(x, u[..i], u) <==>
                  Accounted(x, p, u) || (!IsUpperPartner(v, u) && x in Partners(v, u)))
            && (!IsUpperPartner(v, u) ==> forall x :: x in Partners(v, u) ==> !Accounted(x, p, u))
            && (forall x :: multiset(Partners(v, u))[x] == if x in Partners(v, u) then 1 else 0)
  {
    var p, v := u[..i - 1], u[i - 1];
    assert u[..i] == p + [v];
    BelowIsPrefix(u, i - 1);
    forall x | x in u
      ensures Mirror(x) == v <==> Mirror(v) == x
    {
      MirrorSymmetric(x, v);
    }
    if IsUpperPartner(v, u) {
      assert Mirror(v) in p;
    }
  }

  /** The values the walk has emitted over a prefix, counted with multiplicity. */
  function Emitted(p: seq<int>, u: seq<int>, counts: map<int, int>): multiset<int>
    requires AllTwoDigit(p)
  {
    multiset(Members(EntriesOf(p, u, counts)))
  }

  /** Reaching a value that is not an upper partner emits its partners. */
  lemma EmittedStep(u: seq<int>, i: nat, counts: map<int, int>)
    requires AllTwoDigit(u) && 0 < i <= |u|
    ensures Emitted(u[..i], u, counts) ==
            Emitted(u[..i - 1], u, counts)
              + (if IsUpperPartner(u[i - 1], u) then multiset{} else multiset(Partners(u[i - 1], u)))
  {
    var p, v := u[..i - 1], u[i - 1];
    assert u[..i][..i - 1] == p;
    var before := EntriesOf(p, u, counts);
    var after := EntriesOf(u[..i], u, counts);
    if IsUpperPartner(v, u) {
      assert after == before;
    } else {
      var e := EntryFor(v, u, counts);
      assert after == before + [e];
      assert after[..|after| - 1] == before;
      assert Members(after) == Members(before) + Partners(v, u);
    }
  }

  /** After the walk has passed the first `i` distinct values, each accounted
      value has been emitted exactly once and nothing else has been emitted. */
  lemma {:induction false} MembersUpTo(u: seq<int>, i: nat, counts: map<int, int>)
    requires StrictlyIncreasing(u) && AllTwoDigit(u) && i <= |u|
    ensures forall x :: Emitted(u[..i], u, counts)[x] == if Accounted(x, u[..i], u) then 1 else 0
    decreases i
  {
    if i > 0 {
      MembersUpTo(u, i - 1, counts);
      AccountedStep(u, i);
      EmittedStep(u, i, counts);
    }
  }

  /** Partition: every distinct value of the group appears in exactly one entry,
      exactly once, and no other value appears. */
  lemma MirrorEntriesPartition(nums: seq<int>, counts: map<int, int>)
    requires AllTwoDigit(nums)
    ensures forall x :: multiset(Members(MirrorEntries(nums, counts)))[x] == if x in nums then 1 else 0
  {
    var u := SortedDistinct(nums);
    MembersUpTo(u, |u|, counts);
    assert u[..|u|] == u;
    assert Emitted(u, u, counts) == multiset(Members(MirrorEntries(nums, counts)));
    forall x
      ensures Accounted(x, u, u) <==> x in nums
    {
    }
  }

  /** Every entry of a group: the value with its count and, for a pair, the
      value's mirror, which reverses back to it, differs from it, is larger,
      shares its stamp, is present in the group and carries its own count. An
      entry is single exactly when the value is its own mirror or its mirror is
      absent. Entries come in ascending order of `number`. */
  lemma MirrorEntriesFacts(nums: seq<int>, counts: map<int, int>)
    requires AllTwoDigit(nums)
    ensures AscendingNumbers(MirrorEntries(nums, counts))
    ensures forall e :: e in MirrorEntries(nums, counts) ==>
                 && e.number in nums
                 && e.count == Get(counts, e.number)
                 && (e.Paired? ==>
                       && e.mirror == Mirror(e.number)
                       && e.mirror in nums
                       && Mirror(e.mirror) == e.number
                       && Stamp(e.mirror) == Stamp(e.number)
                       && e.number < e.mirror
                       && e.mirrorCount == Get(counts, e.mirror))
                 && (e.Unpaired? ==> Mirror(e.number) == e.number || Mirror(e.number) !in nums)
  {
    var u := SortedDistinct(nums);
    EntriesOfFacts(u, u, counts);
    EntriesOfAscending(u, u, counts);
    forall e | e in EntriesOf(u, u, counts) && e.Paired?
      ensures Mirror(e.mirror) == e.number && Stamp(e.mirror) == Stamp(e.number)
    {
      MirrorInvolutive(e.number);
      MirrorKeepsStamp(e.number);
    }
  }

  /** A digit palindrome is always emitted alone, with its own count. */
  lemma {:induction false} PalindromeUnpaired(prefix: seq<int>, bucket: seq<int>, counts: map<int, int>, v: int)
    requires AllTwoDigit(prefix) && v in prefix && Mirror(v) == v
    ensures Unpaired(v, Get(counts, v)) in EntriesOf(prefix, bucket, counts)
  {
    var init := prefix[..|prefix| - 1];
    if v != prefix[|prefix| - 1] {
      PalindromeUnpaired(init, bucket, counts, v);
    }
  }

  /** The palindrome rule for a whole group. */
  lemma MirrorEntriesPalindrome(nums: seq<int>, counts: map<int, int>, v: int)
    requires AllTwoDigit(nums) && v in nums && Mirror(v) == v
    ensures Unpaired(v, Get(counts, v)) in MirrorEntries(nums, counts)
  {
    var u := SortedDistinct(nums);
    PalindromeUnpaired(u, u, counts, v);
  }
}
