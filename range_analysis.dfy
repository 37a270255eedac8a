/**
 * Analysis of a closed range of the corpus: keep the records whose identifier
 * lies between two bounds, optionally drop each record's last value (the SKAT
 * mode), count every value with its count doubled, bucket every occurrence by
 * stamp, and pair mirrors inside each bucket.
 */
module RangeAnalysis {
  import opened Wrappers
  import opened Digits
  import opened LexOrder
  import opened Corpus
  import opened MirrorPairing

  /** Why a request for an analysis is refused. */
  datatype AnalysisError = NoStoredData | InvalidRangeInput

  // ---------------------------------------------------------------- filter

  /** The records of `rs` whose identifier lies in `[start, end]`, in corpus order. */
  function Filtered(rs: seq<Record>, start: string, end: string): seq<Record> {
    if rs == [] then []
    else
      var last := rs[|rs| - 1];
      Filtered(rs[..|rs| - 1], start, end) + (if InRange(last.id, start, end) then [last] else [])
  }

  /** The list comprehension that copies the records of the range out of the corpus. */
  method Filter(corpus: seq<Record>, start: string, end: string) returns (view: seq<Record>)
    ensures view == Filtered(corpus, start, end)
  {
    view := [];
    for i := 0 to |corpus|
      invariant view == Filtered(corpus[..i], start, end)
    {
      assert corpus[..i + 1][..i] == corpus[..i];
      if InRange(corpus[i].id, start, end) {
        view := view + [corpus[i]];
      }
    }
    assert corpus[..|corpus|] == corpus;
  }

  /** A record is kept exactly when its identifier lies between the bounds. */
  lemma {:induction false} FilteredMembers(rs: seq<Record>, start: string, end: string)
    ensures forall r :: r in Filtered(rs, start, end) <==> r in rs && InRange(r.id, start, end)
  {
    if rs != [] {
      var init := rs[..|rs| - 1];
      FilteredMembers(init, start, end);
      assert rs == init + [rs[|rs| - 1]];
    }
  }

  /** Filtering keeps the relative order of the records: it distributes over
      concatenation. */
  lemma {:induction false} FilteredConcat(a: seq<Record>, b: seq<Record>, start: string, end: string)
    ensures Filtered(a + b, start, end) == Filtered(a, start, end) + Filtered(b, start, end)
    decreases |b|
  {
    if b != [] {
      var init := b[..|b| - 1];
      FilteredConcat(a, init, start, end);
      assert (a + b)[..|a + b| - 1] == a + init;
      assert (a + b)[|a + b| - 1] == b[|b| - 1];
    } else {
      assert a + b == a;
    }
  }

  // ---------------------------------------------------------------- drop last

  /** A record with its last value removed, unless that would leave it empty. */
  function DropLast(r: Record): Record {
    if |r.values| > 1 then r.(values := r.values[..|r.values| - 1]) else r
  }

  /** Every record of a view after the SKAT adjustment. */
  function Trimmed(view: seq<Record>): seq<Record> {
    seq(|view|, i requires 0 <= i < |view| => DropLast(view[i]))
  }

  /** The in-place SKAT loop, record by record. */
  method DropLastEach(view: seq<Record>) returns (trimmed: seq<Record>)
    ensures trimmed == Trimmed(view)
  {
    trimmed := view;
    for i := 0 to |trimmed|
      invariant |trimmed| == |view|
      invariant forall k :: 0 <= k < i ==> trimmed[k] == DropLast(view[k])
      invariant forall k :: i <= k < |view| ==> trimmed[k] == view[k]
    {
      if |trimmed[i].values| > 1 {
        trimmed := trimmed[i := trimmed[i].(values := trimmed[i].values[..|trimmed[i].values| - 1])];
      }
    }
  }

  /** Under the SKAT adjustment each record with more than one value loses
      exactly its last value; any other record is left as it is, so none is
      emptied, and records keep their identifiers and their places. */
  lemma TrimmedFacts(view: seq<Record>)
    ensures |Trimmed(view)| == |view|
    ensures forall i :: 0 <= i < |view| ==> Trimmed(view)[i].id == view[i].id
    ensures forall i :: 0 <= i < |view| && |view[i].values| > 1 ==>
              Trimmed(view)[i].values == view[i].values[..|view[i].values| - 1]
    ensures forall i :: 0 <= i < |view| && |view[i].values| <= 1 ==> Trimmed(view)[i] == view[i]
    ensures forall i :: 0 <= i < |view| ==> (|Trimmed(view)[i].values| == 0 <==> |view[i].values| == 0)
  {
  }

  /** The view the counting steps read. */
  function View(corpus: seq<Record>, start: string, end: string, skat: bool): seq<Record> {
    var kept := Filtered(corpus, start, end);
    if skat then Trimmed(kept) else kept
  }

  // ---------------------------------------------------------------- counts

  /** All values of a view, record after record. */
  function Flatten(view: seq<Record>): seq<int> {
    if view == [] then [] else Flatten(view[..|view| - 1]) + view[|view| - 1].values
  }

  lemma FlattenStep(view: seq<Record>, i: nat)
    requires i < |view|
    ensures Flatten(view[..i + 1]) == Flatten(view[..i]) + view[i].values
  {
    assert view[..i + 1][..i] == view[..i];
  }

  lemma {:induction false} FlattenConcat(a: seq<Record>, b: seq<Record>)
    ensures Flatten(a + b) == Flatten(a) + Flatten(b)
    decreases |b|
  {
    if b != [] {
      var init := b[..|b| - 1];
      FlattenConcat(a, init);
      assert (a + b)[..|a + b| - 1] == a + init;
      assert (a + b)[|a + b| - 1] == b[|b| - 1];
    } else {
      assert a + b == a;
    }
  }

  /** The values of the record at `i` are among the values of the view. */
  lemma FlattenHolds(view: seq<Record>, i: nat)
    requires i < |view|
    ensures forall v :: v in view[i].values ==> v in Flatten(view)
  {
    FlattenStep(view, i);
    FlattenConcat(view[..i + 1], view[i + 1..]);
    assert view == view[..i + 1] + view[i + 1..];
  }

  /** The doubled occurrence count of every value that occurs in `flat`. */
  function DoubledCounts(flat: seq<int>): map<int, int> {
    map v | v in flat :: 2 * multiset(flat)[v]
  }

  /** The tally `counts[num] = counts.get(num, 0) + 1` builds over `s`, value
      after value. */
  function Counted(s: seq<int>): map<int, int> {
    if s == [] then map[]
    else
      var c, num := Counted(s[..|s| - 1]), s[|s| - 1];
      c[num := Get(c, num) + 1]
  }

  /** The tally holds exactly the values of `s`, each with its multiplicity. */
  lemma {:induction false} CountedMultiplicity(s: seq<int>)
    ensures forall v :: (v in Counted(s) <==> v in s) && Get(Counted(s), v) == multiset(s)[v]
  {
    if s != [] {
      var init, num := s[..|s| - 1], s[|s| - 1];
      CountedMultiplicity(init);
      assert s == init + [num];
      assert multiset(s) == multiset(init) + multiset{num};
    }
  }

  /** Doubling the tally of `flat` gives the doubled counts. */
  lemma CountedDoubled(flat: seq<int>)
    ensures (map v | v in Counted(flat) :: Counted(flat)[v] * 2) == DoubledCounts(flat)
  {
    CountedMultiplicity(flat);
    var doubled, expected := map v | v in Counted(flat) :: Counted(flat)[v] * 2, DoubledCounts(flat);
    assert forall v :: v in doubled <==> v in expected;
    assert forall v :: v in doubled ==> doubled[v] == expected[v];
  }

  /** The counting loops: every value of the view maps to twice the number of
      its occurrences, and values that do not occur are absent. */
  method CountValues(view: seq<Record>) returns (counts: map<int, int>)
    ensures counts == DoubledCounts(Flatten(view))
  {
    var raw: map<int, int> := map[];
    ghost var seen: seq<int> := [];
    for i := 0 to |view|
      invariant seen == Flatten(view[..i])
      invariant raw == Counted(seen)
    {
      var vals := view[i].values;
      FlattenStep(view, i);
      ghost var before := seen;
      for j := 0 to |vals|
        invariant seen == before + vals[..j]
        invariant raw == Counted(seen)
      {
        var num := vals[j];
        assert vals[..j + 1] == vals[..j] + [num];
        assert (seen + [num])[..|seen|] == seen;
        raw, seen := raw[num := Get(raw, num) + 1], seen + [num];
      }
      assert vals[..|vals|] == vals;
    }
    assert view[..|view|] == view;
    CountedDoubled(Flatten(view));
    counts := map v | v in raw :: raw[v] * 2;
  }

  // ---------------------------------------------------------------- stamp groups

  /** The occurrences in `flat` whose stamp is `d`, in order. */
  function WithStamp(flat: seq<int>, d: int): (r: seq<int>)
    requires AllTwoDigit(flat)
    ensures AllTwoDigit(r)
  {
    if flat == [] then []
    else
      var init, v := flat[..|flat| - 1], flat[|flat| - 1];
      assert forall x :: x in init ==> x in flat;
      WithStamp(init, d) + (if Stamp(v) == d then [v] else [])
  }

  /** A bucket holds exactly the occurrences of its stamp. */
  lemma {:induction false} WithStampMembers(flat: seq<int>, d: int)
    requires AllTwoDigit(flat)
    ensures forall v :: v in WithStamp(flat, d) <==> v in flat && Stamp(v) == d
  {
    if flat != [] {
      var init, v := flat[..|flat| - 1], flat[|flat| - 1];
      assert flat == init + [v];
      WithStampMembers(init, d);
    }
  }

  /** Bucketing one more occurrence appends it to the bucket of its stamp only. */
  lemma WithStampSnoc(flat: seq<int>, v: int, d: int)
    requires AllTwoDigit(flat) && TwoDigit(v)
    ensures AllTwoDigit(flat + [v])
    ensures WithStamp(flat + [v], d) == WithStamp(flat, d) + (if Stamp(v) == d then [v] else [])
  {
    assert (flat + [v])[..|flat|] == flat;
  }

  /** The buckets of the occurrences `flat`: bucket `d` holds, in order, the
      occurrences of stamp `d`, and exists exactly when it is not empty. */
  function StampGroups(flat: seq<int>): map<int, seq<int>>
    requires AllTwoDigit(flat)
  {
    map d | 0 <= d <= 9 && WithStamp(flat, d) != [] :: WithStamp(flat, d)
  }

  /** `groups.setdefault(diff, []).append(num)` keeps the buckets in step with
      one more occurrence. */
  lemma StampGroupsSnoc(flat: seq<int>, num: int)
    requires AllTwoDigit(flat) && TwoDigit(num)
    ensures AllTwoDigit(flat + [num])
    ensures var groups, diff := StampGroups(flat), Stamp(num);
            StampGroups(flat + [num]) == groups[diff := (if diff in groups then groups[diff] else []) + [num]]
  {
    var groups, diff := StampGroups(flat), Stamp(num);
    var next := groups[diff := (if diff in groups then groups[diff] else []) + [num]];
    var after := StampGroups(flat + [num]);
    forall d
      ensures d in after <==> d in next
      ensures d in after ==> after[d] == next[d]
    {
      WithStampSnoc(flat, num, d);
    }
  }

  /** Bucket `d` holds exactly the occurrences of stamp `d`, every occurring
      value has its bucket, and only the stamps 0 to 9 have one. */
  lemma StampGroupsFacts(flat: seq<int>)
    requires AllTwoDigit(flat)
    ensures forall v :: v in flat ==> Stamp(v) in StampGroups(flat)
    ensures forall d :: d in StampGroups(flat) ==> 0 <= d <= 9 && StampGroups(flat)[d] != []
    ensures forall d, v :: d in StampGroups(flat) ==>
              (v in StampGroups(flat)[d] <==> v in flat && Stamp(v) == d)
  {
    forall d {
      WithStampMembers(flat, d);
    }
  }

  /** The grouping loops: the buckets of every occurrence of the view. */
  method GroupByStamp(view: seq<Record>) returns (groups: map<int, seq<int>>)
    requires AllTwoDigit(Flatten(view))
    ensures groups == StampGroups(Flatten(view))
  {
    groups := map[];
    ghost var seen: seq<int> := [];
    for i := 0 to |view|
      invariant seen == Flatten(view[..i]) && AllTwoDigit(seen)
      invariant groups == StampGroups(seen)
    {
      var vals := view[i].values;
      FlattenStep(view, i);
      FlattenHolds(view, i);
      ghost var before := seen;
      for j := 0 to |vals|
        invariant seen == before + vals[..j] && AllTwoDigit(seen)
        invariant groups == StampGroups(seen)
      {
        var num := vals[j];
        assert vals[..j + 1] == vals[..j] + [num];
        StampGroupsSnoc(seen, num);
        var diff := Stamp(num);
        groups := groups[diff := (if diff in groups then groups[diff] else []) + [num]];
        seen := seen + [num];
      }
      assert vals[..|vals|] == vals;
    }
    assert view[..|view|] == view;
  }

  // ---------------------------------------------------------------- mirror groups

  /** The analysis result for the occurrences `flat`: for every stamp that
      occurs, the mirror-paired entries of its bucket, with doubled counts. */
  function MirrorGroups(flat: seq<int>): map<int, seq<Entry>>
    requires AllTwoDigit(flat)
  {
    StampGroupsTwoDigit(flat);
    PairedGroups(StampGroups(flat), DoubledCounts(flat))
  }

  /** Every bucket holds only two-digit values. */
  lemma StampGroupsTwoDigit(flat: seq<int>)
    requires AllTwoDigit(flat)
    ensures forall d :: d in StampGroups(flat) ==> AllTwoDigit(StampGroups(flat)[d])
  {
  }

  /** Every bucket of `groups` replaced by its mirror-paired entries. */
  function PairedGroups(groups: map<int, seq<int>>, counts: map<int, int>): map<int, seq<Entry>>
    requires forall d :: d in groups ==> AllTwoDigit(groups[d])
  {
    map d | d in groups :: MirrorEntries(groups[d], counts)
  }

  /** The loop over `groups.items()` that builds `mirror_groups`. */
  method PairAllGroups(groups: map<int, seq<int>>, counts: map<int, int>) returns (result: map<int, seq<Entry>>)
    requires forall d :: d in groups ==> AllTwoDigit(groups[d])
    ensures result == PairedGroups(groups, counts)
  {
    result := map[];
    var pending := groups.Keys;
    while pending != {}
      invariant pending <= groups.Keys
      invariant result.Keys == groups.Keys - pending
      invariant forall d :: d in result ==> result[d] == MirrorEntries(groups[d], counts)
      decreases pending
    {
      if forall d :: d !in pending {
        assert false;
      }
      var diff :| diff in pending;
      var grp := PairMirrors(groups[diff], counts);
      result := result[diff := grp];
      pending := pending - {diff};
    }
    assert result.Keys == PairedGroups(groups, counts).Keys;
    assert forall d :: d in result ==> result[d] == PairedGroups(groups, counts)[d];
  }

  /** The whole request over the stored corpus (None when nothing was ever
      stored): refuse when there is no corpus or a bound is empty, otherwise
      filter, apply the SKAT adjustment when asked, count, bucket by stamp and
      pair mirrors. */
  method Analyze(stored: Option<seq<Record>>, start: string, end: string, skat: bool)
    returns (outcome: Result<map<int, seq<Entry>>, AnalysisError>)
    requires stored.Some? && start != [] && end != [] ==>
               AllTwoDigit(Flatten(View(stored.value, start, end, skat)))
    ensures stored.None? ==> outcome == Failure(NoStoredData)
    ensures stored.Some? && (start == [] || end == []) ==> outcome == Failure(InvalidRangeInput)
    ensures outcome.Success? <==> stored.Some? && start != [] && end != []
    ensures outcome.Success? ==> outcome.value == MirrorGroups(Flatten(View(stored.value, start, end, skat)))
  {
    if stored.None? {
      return Failure(NoStoredData);
    }
    if start == [] || end == [] {
      return Failure(InvalidRangeInput);
    }
    var corpus := stored.value;
    var filtered := Filter(corpus, start, end);
    if skat {
      filtered := DropLastEach(filtered);
    }
    var counts := CountValues(filtered);
    var groups := GroupByStamp(filtered);
    StampGroupsTwoDigit(Flatten(filtered));
    var result := PairAllGroups(groups, counts);
    return Success(result);
  }

  // ---------------------------------------------------------------- guarantees

  /** A stamp has a group exactly when some occurring value has that stamp. */
  lemma AnalysisStamps(flat: seq<int>)
    requires AllTwoDigit(flat)
    ensures forall v :: v in flat ==> Stamp(v) in MirrorGroups(flat)
    ensures forall d :: d in MirrorGroups(flat) ==> 0 <= d <= 9 && exists v :: v in flat && Stamp(v) == d
  {
    forall d {
      WithStampMembers(flat, d);
    }
    forall d | d in MirrorGroups(flat)
      ensures exists v :: v in flat && Stamp(v) == d
    {
      assert WithStamp(flat, d)[0] in WithStamp(flat, d);
    }
  }

  /** Partition: every distinct value that occurs appears in exactly one entry
      of exactly one group, the group of its stamp, and nothing else appears. */
  lemma AnalysisPartition(flat: seq<int>)
    requires AllTwoDigit(flat)
    ensures forall d, x :: d in MirrorGroups(flat) ==>
              multiset(Members(MirrorGroups(flat)[d]))[x] == if x in flat && Stamp(x) == d then 1 else 0
  {
    var counts, groups := DoubledCounts(flat), StampGroups(flat);
    forall d | d in MirrorGroups(flat)
      ensures forall x :: multiset(Members(MirrorGroups(flat)[d]))[x] == if x in flat && Stamp(x) == d then 1 else 0
    {
      WithStampMembers(flat, d);
      MirrorEntriesPartition(groups[d], counts);
    }
  }

  /** Every entry carries the doubled occurrence count of its value; a pair
      holds a value and its larger mirror, both occurring, under the same stamp,
      each with its own doubled count; a single value's mirror is itself or does
      not occur; and the entries of a group ascend by `number`. */
  lemma AnalysisEntries(flat: seq<int>)
    requires AllTwoDigit(flat)
    ensures forall d :: d in MirrorGroups(flat) ==> AscendingNumbers(MirrorGroups(flat)[d])
    ensures forall d, e :: d in MirrorGroups(flat) && e in MirrorGroups(flat)[d] ==>
              && e.number in flat
              && Stamp(e.number) == d
              && e.count == 2 * multiset(flat)[e.number]
              && (e.Paired? ==>
                    && e.mirror == Mirror(e.number)
                    && e.mirror in flat
                    && Stamp(e.mirror) == d
                    && e.number < e.mirror
                    && e.mirrorCount == 2 * multiset(flat)[e.mirror])
              && (e.Unpaired? ==> Mirror(e.number) == e.number || Mirror(e.number) !in flat)
  {
    var counts, groups := DoubledCounts(flat), StampGroups(flat);
    forall d | d in MirrorGroups(flat)
      ensures AscendingNumbers(MirrorGroups(flat)[d])
      ensures forall e :: e in MirrorGroups(flat)[d] ==>
              && e.number in flat
              && Stamp(e.number) == d
              && e.count == 2 * multiset(flat)[e.number]
              && (e.Paired? ==>
                    && e.mirror == Mirror(e.number)
                    && e.mirror in flat
                    && Stamp(e.mirror) == d
                    && e.number < e.mirror
                    && e.mirrorCount == 2 * multiset(flat)[e.mirror])
              && (e.Unpaired? ==> Mirror(e.number) == e.number || Mirror(e.number) !in flat)
    {
      WithStampMembers(flat, d);
      MirrorEntriesFacts(groups[d], counts);
      forall e | e in MirrorGroups(flat)[d] && e.Unpaired? && Mirror(e.number) in flat
        ensures Mirror(e.number) == e.number
      {
        MirrorTwoDigit(e.number);
        MirrorKeepsStamp(e.number);
      }
    }
  }

  /** Palindromes: a value with two equal digits always stands alone in the
      group of stamp 0, with its doubled count. */
  lemma AnalysisPalindromes(flat: seq<int>)
    requires AllTwoDigit(flat)
    ensures forall v :: v in flat && Mirror(v) == v ==>
              0 in MirrorGroups(flat) && Unpaired(v, 2 * multiset(flat)[v]) in MirrorGroups(flat)[0]
  {
    var counts, groups := DoubledCounts(flat), StampGroups(flat);
    forall v | v in flat && Mirror(v) == v
      ensures 0 in MirrorGroups(flat) && Unpaired(v, 2 * multiset(flat)[v]) in MirrorGroups(flat)[0]
    {
      PalindromeIff(v);
      WithStampMembers(flat, 0);
      MirrorEntriesPalindrome(groups[0], counts, v);
    }
  }
}
