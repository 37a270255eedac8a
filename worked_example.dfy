/**
 * A small analysis worked through by hand: the records [12, 21, 33, 45] and
 * [21, 21] of one range, without the SKAT adjustment.
 */
module AnalysisExample {
  import opened Digits
  import opened SortedSets
  import opened MirrorPairing
  import opened RangeAnalysis

  /** The buckets of the occurrences 12, 21, 33, 45, 21, 21. */
  lemma ExampleBucket(d: int)
    ensures WithStamp([12, 21, 33, 45, 21, 21], d) ==
            if d == 0 then [33] else if d == 1 then [12, 21, 45, 21, 21] else []
  {
    assert Stamp(12) == 1 && Stamp(21) == 1 && Stamp(33) == 0 && Stamp(45) == 1;
    WithStampSnoc([], 12, d);
    assert [] + [12] == [12];
    WithStampSnoc([12], 21, d);
    assert [12] + [21] == [12, 21];
    WithStampSnoc([12, 21], 33, d);
    assert [12, 21] + [33] == [12, 21, 33];
    WithStampSnoc([12, 21, 33], 45, d);
    assert [12, 21, 33] + [45] == [12, 21, 33, 45];
    WithStampSnoc([12, 21, 33, 45], 21, d);
    assert [12, 21, 33, 45] + [21] == [12, 21, 33, 45, 21];
    WithStampSnoc([12, 21, 33, 45, 21], 21, d);
    assert [12, 21, 33, 45, 21] + [21] == [12, 21, 33, 45, 21, 21];
  }

  lemma ExampleGroups()
    ensures StampGroups([12, 21, 33, 45, 21, 21]) == map[0 := [33], 1 := [12, 21, 45, 21, 21]]
  {
    var flat := [12, 21, 33, 45, 21, 21];
    var expected := map[0 := [33], 1 := [12, 21, 45, 21, 21]];
    forall d
      ensures d in StampGroups(flat) <==> d in expected
      ensures d in expected ==> StampGroups(flat)[d] == expected[d]
    {
      ExampleBucket(d);
    }
  }

  lemma ExampleMembers()
    ensures forall v :: v in [12, 21, 33, 45, 21, 21] <==> v in {12, 21, 33, 45}
  {
  }

  lemma ExampleTally()
    ensures Counted([12, 21, 33, 45, 21, 21]) == map[12 := 1, 21 := 3, 33 := 1, 45 := 1]
  {
    assert [12, 21, 33, 45, 21, 21][..5] == [12, 21, 33, 45, 21];
    assert [12, 21, 33, 45, 21][..4] == [12, 21, 33, 45];
    assert [12, 21, 33, 45][..3] == [12, 21, 33];
    assert [12, 21, 33][..2] == [12, 21];
    assert [12, 21][..1] == [12];
    assert [12][..0] == [];
    assert Counted([12]) == map[12 := 1];
    assert Counted([12, 21]) == map[12 := 1, 21 := 1];
    assert Counted([12, 21, 33]) == map[12 := 1, 21 := 1, 33 := 1];
    assert Counted([12, 21, 33, 45]) == map[12 := 1, 21 := 1, 33 := 1, 45 := 1];
    assert Counted([12, 21, 33, 45, 21]) == map[12 := 1, 21 := 2, 33 := 1, 45 := 1];
  }

  lemma ExampleMultiplicities()
    ensures var m := multiset([12, 21, 33, 45, 21, 21]);
            m[12] == 1 && m[21] == 3 && m[33] == 1 && m[45] == 1
  {
    ExampleTally();
    CountedMultiplicity([12, 21, 33, 45, 21, 21]);
  }

  lemma ExampleCounts()
    ensures DoubledCounts([12, 21, 33, 45, 21, 21]) == map[12 := 2, 21 := 6, 33 := 2, 45 := 2]
  {
    var flat := [12, 21, 33, 45, 21, 21];
    ExampleMembers();
    ExampleMultiplicities();
    var expected := map[12 := 2, 21 := 6, 33 := 2, 45 := 2];
    assert DoubledCounts(flat).Keys == expected.Keys;
    assert DoubledCounts(flat)[12] == 2 && DoubledCounts(flat)[21] == 6;
    assert DoubledCounts(flat)[33] == 2 && DoubledCounts(flat)[45] == 2;
  }

  lemma ExampleWalkPalindrome()
    ensures EntriesOf([33], [33], map[12 := 2, 21 := 6, 33 := 2, 45 := 2]) == [Unpaired(33, 2)]
  {
    assert Mirror(33) == 33;
    assert [33][..0] == [];
  }

  lemma ExampleWalkPair()
    ensures EntriesOf([12, 21], [12, 21, 45], map[12 := 2, 21 := 6, 33 := 2, 45 := 2])
            == [Paired(12, 2, 21, 6)]
  {
    assert Mirror(12) == 21 && Mirror(21) == 12;
    assert [12, 21][..1] == [12] && [12][..0] == [];
    assert EntriesOf([12], [12, 21, 45], map[12 := 2, 21 := 6, 33 := 2, 45 := 2]) == [Paired(12, 2, 21, 6)];
  }

  lemma ExampleWalk()
    ensures EntriesOf([12, 21, 45], [12, 21, 45], map[12 := 2, 21 := 6, 33 := 2, 45 := 2])
            == [Paired(12, 2, 21, 6), Unpaired(45, 2)]
  {
    ExampleWalkPair();
    assert Mirror(45) == 54;
    assert [12, 21, 45][..2] == [12, 21];
  }

  lemma ExampleInserts()
    ensures Insert([], 12) == [12]
    ensures Insert([12], 21) == [12, 21]
    ensures Insert([12, 21], 45) == [12, 21, 45]
    ensures Insert([12, 21, 45], 21) == [12, 21, 45]
  {
    assert [12, 21][1..] == [21];
    assert [12, 21, 45][1..] == [21, 45];
    assert Insert([21], 45) == [21, 45];
    assert Insert([21, 45], 21) == [21, 45];
  }

  lemma ExampleSortedPrefix()
    ensures SortedDistinct([12, 21, 45]) == [12, 21, 45]
  {
    ExampleInserts();
    assert [12, 21, 45][..2] == [12, 21];
    assert [12, 21][..1] == [12];
    assert [12][..0] == [];
    assert SortedDistinct([12]) == [12];
    assert SortedDistinct([12, 21]) == [12, 21];
  }

  lemma ExampleSorted()
    ensures SortedDistinct([33]) == [33]
    ensures SortedDistinct([12, 21, 45, 21, 21]) == [12, 21, 45]
  {
    ExampleInserts();
    ExampleSortedPrefix();
    assert [33][..0] == [];
    assert [12, 21, 45, 21, 21][..4] == [12, 21, 45, 21];
    assert [12, 21, 45, 21][..3] == [12, 21, 45];
    assert SortedDistinct([12, 21, 45, 21]) == [12, 21, 45];
  }

  lemma ExampleStampZero()
    ensures 0 in MirrorGroups([12, 21, 33, 45, 21, 21])
    ensures MirrorGroups([12, 21, 33, 45, 21, 21])[0] == [Unpaired(33, 2)]
  {
    ExampleGroups();
    ExampleCounts();
    ExampleSorted();
    ExampleWalkPalindrome();
  }

  lemma ExampleStampOne()
    ensures 1 in MirrorGroups([12, 21, 33, 45, 21, 21])
    ensures MirrorGroups([12, 21, 33, 45, 21, 21])[1] == [Paired(12, 2, 21, 6), Unpaired(45, 2)]
  {
    ExampleGroups();
    ExampleCounts();
    ExampleSorted();
    ExampleWalk();
  }

  lemma ExampleStamps()
    ensures MirrorGroups([12, 21, 33, 45, 21, 21]).Keys == {0, 1}
  {
    ExampleGroups();
  }

  /** The occurrences of two records, [12, 21, 33, 45] and [21, 21]: 21 pairs
      with 12 under stamp 1 with the doubled counts 6 and 2, 45 has no mirror,
      33 stands alone under stamp 0, and no other stamp has a group. */
  lemma WorkedExample()
    ensures MirrorGroups([12, 21, 33, 45, 21, 21])
            == map[0 := [Unpaired(33, 2)],
                   1 := [Paired(12, 2, 21, 6), Unpaired(45, 2)]]
  {
    ExampleStamps();
    ExampleStampZero();
    ExampleStampOne();
  }
}
