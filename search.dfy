/**
  What the searches return, over the store's records in iteration order: the
  sequential filter, the concurrent search as the code computes it, and the
  concurrent search with the partition end it evidently meant.

  The store's `forEachRecord` hands every record it visits to a filter; the
  structural facts are stated for any filter `keep`, the column match being
  one such filter.
*/
module Search {
  import opened Decimal
  import opened Records
  import opened Partitions

  /** The filter the searches pass to `forEachRecord`: does column `c` match `t`. */
  function Matching(c: ColumnIndex, t: string): QbRecord -> bool {
    r => ColumnContentMatches(r, c, t)
  }

  /** The records of `rs` that `keep` accepts, in the order of `rs`. */
  function Select(rs: seq<QbRecord>, keep: QbRecord -> bool): (out: seq<QbRecord>)
    ensures |out| <= |rs|
  {
    if rs == [] then []
    else
      var prev := Select(rs[..|rs| - 1], keep);
      if keep(rs[|rs| - 1]) then prev + [rs[|rs| - 1]] else prev
  }

  /**
    The records of `rs` whose column `c` matches `t`: the sequential
    `matchingRecords`. Every record it returns is a stored record that matches.
  */
  function Filter(rs: seq<QbRecord>, c: ColumnIndex, t: string): (out: seq<QbRecord>)
    ensures |out| <= |rs|
    ensures forall k :: 0 <= k < |out| ==> out[k] in rs && ColumnContentMatches(out[k], c, t)
  {
    MatchingSelectSound(rs, c, t);
    Select(rs, Matching(c, t))
  }

  /** A record is in the result exactly when it is in `rs` and the filter accepts it. */
  lemma {:induction false} SelectMembership(rs: seq<QbRecord>, keep: QbRecord -> bool, r: QbRecord)
    ensures r in Select(rs, keep) <==> r in rs && keep(r)
  {
    if rs != [] {
      SelectMembership(rs[..|rs| - 1], keep, r);
      assert rs == rs[..|rs| - 1] + [rs[|rs| - 1]];
    }
  }



  /** Selecting distributes over concatenation, so the result keeps the order of `rs`. */
  lemma {:induction false} SelectAppend(a: seq<QbRecord>, b: seq<QbRecord>, keep: QbRecord -> bool)
    ensures Select(a + b, keep) == Select(a, keep) + Select(b, keep)
    decreases |b|
  {
    if b == [] {
      assert a + b == a;
    } else {
      assert (a + b)[..|a + b| - 1] == a + b[..|b| - 1];
      SelectAppend(a, b[..|b| - 1], keep);
    }
  }

  /** When the filter accepts every record, all of them are kept. */
  lemma {:induction false} SelectAll(rs: seq<QbRecord>, keep: QbRecord -> bool)
    requires forall i :: 0 <= i < |rs| ==> keep(rs[i])
    ensures Select(rs, keep) == rs
  {
    if rs != [] {
      SelectAll(rs[..|rs| - 1], keep);
    }
  }

  /** When the filter accepts no record, the result is empty. */
  lemma {:induction false} SelectNone(rs: seq<QbRecord>, keep: QbRecord -> bool)
    requires forall i :: 0 <= i < |rs| ==> !keep(rs[i])
    ensures Select(rs, keep) == []
  {
    if rs != [] {
      SelectNone(rs[..|rs| - 1], keep);
    }
  }

  /** Extending the input by one record extends the result by that record exactly when it is accepted. */
  lemma SelectSnoc(rs: seq<QbRecord>, r: QbRecord, keep: QbRecord -> bool)
    ensures Select(rs + [r], keep) == if keep(r) then Select(rs, keep) + [r] else Select(rs, keep)
  {
    assert (rs + [r])[..|rs|] == rs;
  }

  /** Selecting from a slice one position longer appends that position's record exactly when it is accepted. */
  lemma SelectSliceStep(rs: seq<QbRecord>, lo: nat, i: nat, keep: QbRecord -> bool)
    requires lo <= i < |rs|
    ensures Select(rs[lo..i + 1], keep)
      == if keep(rs[i]) then Select(rs[lo..i], keep) + [rs[i]] else Select(rs[lo..i], keep)
  {
    assert rs[lo..i + 1] == rs[lo..i] + [rs[i]];
    SelectSnoc(rs[lo..i], rs[i], keep);
  }

  /** When the filter accepts exactly one position, the result is that record alone. */
  lemma {:induction false} SelectOnlyOne(rs: seq<QbRecord>, keep: QbRecord -> bool, p: nat)
    requires p < |rs| && keep(rs[p])
    requires forall i :: 0 <= i < |rs| && i != p ==> !keep(rs[i])
    ensures Select(rs, keep) == [rs[p]]
  {
    var init := rs[..|rs| - 1];
    if p == |rs| - 1 {
      forall i | 0 <= i < |init|
        ensures !keep(init[i])
      {
        assert init[i] == rs[i];
      }
      SelectNone(init, keep);
    } else {
      assert init[p] == rs[p];
      forall i | 0 <= i < |init| && i != p
        ensures !keep(init[i])
      {
        assert init[i] == rs[i];
      }
      SelectOnlyOne(init, keep, p);
    }
  }

  /** An unknown column name resolves to `Invalid`, which matches no record. */
  lemma UnknownColumnFindsNothing(rs: seq<QbRecord>, name: string, t: string)
    requires !IsColumnIndexValid(ColumnIndexOf(name))
    ensures Filter(rs, ColumnIndexOf(name), t) == []
  {
    var keep := Matching(ColumnIndexOf(name), t);
    forall i | 0 <= i < |rs|
      ensures !keep(rs[i])
    {
      InvalidColumnNeverMatches(rs[i], ColumnIndexOf(name), t);
    }
    SelectNone(rs, keep);
  }

  /** Searching the id column for the decimal form of an id no record has finds nothing. */
  lemma FilterIdAbsent(rs: seq<QbRecord>, k: nat)
    requires forall i :: 0 <= i < |rs| ==> rs[i].column0 != k
    ensures Filter(rs, Column0, NatToString(k)) == []
  {
    var keep := Matching(Column0, NatToString(k));
    forall i | 0 <= i < |rs|
      ensures !keep(rs[i])
    {
      IdColumnMatchesDecimal(rs[i], k);
    }
    SelectNone(rs, keep);
  }

  /** Searching the id column for the decimal form of a unique id finds exactly that record. */
  lemma FilterIdUnique(rs: seq<QbRecord>, p: nat)
    requires p < |rs|
    requires forall i :: 0 <= i < |rs| && i != p ==> rs[i].column0 != rs[p].column0
    ensures Filter(rs, Column0, NatToString(rs[p].column0)) == [rs[p]]
  {
    var k := rs[p].column0;
    var keep := Matching(Column0, NatToString(k));
    forall i | 0 <= i < |rs|
      ensures keep(rs[i]) <==> i == p
    {
      IdColumnMatchesDecimal(rs[i], k);
    }
    SelectOnlyOne(rs, keep, p);
  }

  /** Every range lies within `[0, n)` and is not reversed. */
  predicate RangesWithin(ranges: seq<Range>, n: nat) {
    forall j :: 0 <= j < |ranges| ==> 0 <= ranges[j].lo <= ranges[j].hi <= n
  }

  /** The per-range results, concatenated in range order. */
  function ScanRanges(rs: seq<QbRecord>, keep: QbRecord -> bool, ranges: seq<Range>): seq<QbRecord>
    requires RangesWithin(ranges, |rs|)
  {
    if ranges == [] then []
    else
      var last := ranges[|ranges| - 1];
      ScanRanges(rs, keep, ranges[..|ranges| - 1]) + Select(rs[last.lo..last.hi], keep)
  }

  /** Scanning one more range appends that range's result. */
  lemma ScanRangesStep(rs: seq<QbRecord>, keep: QbRecord -> bool, ranges: seq<Range>, i: nat)
    requires RangesWithin(ranges, |rs|) && i < |ranges|
    ensures ScanRanges(rs, keep, ranges[..i + 1])
      == ScanRanges(rs, keep, ranges[..i]) + Select(rs[ranges[i].lo..ranges[i].hi], keep)
  {
    assert ranges[..i + 1][..i] == ranges[..i];
  }

  /** Everything the scan returns is accepted and sits at a position inside one of the ranges. */
  lemma {:induction false} ScanRangesSound(rs: seq<QbRecord>, keep: QbRecord -> bool, ranges: seq<Range>, r: QbRecord)
    requires RangesWithin(ranges, |rs|)
    requires r in ScanRanges(rs, keep, ranges)
    ensures keep(r)
    ensures exists p :: 0 <= p < |rs| && InSomeRange(ranges, p) && rs[p] == r
  {
    var init := ranges[..|ranges| - 1];
    var last := ranges[|ranges| - 1];
    var piece := rs[last.lo..last.hi];
    if r in ScanRanges(rs, keep, init) {
      ScanRangesSound(rs, keep, init, r);
      var p :| 0 <= p < |rs| && InSomeRange(init, p) && rs[p] == r;
      var j :| 0 <= j < |init| && init[j].lo <= p < init[j].hi;
      assert ranges[j] == init[j];
      assert InSomeRange(ranges, p);
    } else {
      assert r in Select(piece, keep);
      SelectMembership(piece, keep, r);
      var q :| 0 <= q < |piece| && piece[q] == r;
      var p := last.lo + q;
      assert rs[p] == r;
      assert ranges[|ranges| - 1].lo <= p < ranges[|ranges| - 1].hi;
      assert InSomeRange(ranges, p);
    }
  }

  /** Every record the column filter's scan returns is a record of `rs` whose column matches. */
  lemma MatchingScanSound(rs: seq<QbRecord>, c: ColumnIndex, t: string, ranges: seq<Range>)
    requires RangesWithin(ranges, |rs|)
    ensures forall k :: 0 <= k < |ScanRanges(rs, Matching(c, t), ranges)| ==>
      ScanRanges(rs, Matching(c, t), ranges)[k] in rs &&
      ColumnContentMatches(ScanRanges(rs, Matching(c, t), ranges)[k], c, t)
  {
    var keep := Matching(c, t);
    var out := ScanRanges(rs, keep, ranges);
    forall k | 0 <= k < |out|
      ensures out[k] in rs && ColumnContentMatches(out[k], c, t)
    {
      ScanRangesSound(rs, keep, ranges, out[k]);
      assert keep(out[k]);
    }
  }


  /** Every record the column filter selects is a record of `rs` whose column matches. */
  lemma MatchingSelectSound(rs: seq<QbRecord>, c: ColumnIndex, t: string)
    ensures forall k :: 0 <= k < |Select(rs, Matching(c, t))| ==>
      Select(rs, Matching(c, t))[k] in rs && ColumnContentMatches(Select(rs, Matching(c, t))[k], c, t)
  {
    var keep := Matching(c, t);
    var out := Select(rs, keep);
    forall k | 0 <= k < |out|
      ensures out[k] in rs && ColumnContentMatches(out[k], c, t)
    {
      SelectMembership(rs, keep, out[k]);
      assert keep(out[k]);
    }
  }

  /** Every accepted record at a position inside one of the ranges is returned. */
  lemma {:induction false} ScanRangesComplete(rs: seq<QbRecord>, keep: QbRecord -> bool, ranges: seq<Range>, p: int)
    requires RangesWithin(ranges, |rs|)
    requires 0 <= p < |rs| && InSomeRange(ranges, p) && keep(rs[p])
    ensures rs[p] in ScanRanges(rs, keep, ranges)
  {
    var init := ranges[..|ranges| - 1];
    var last := ranges[|ranges| - 1];
    var piece := rs[last.lo..last.hi];
    var j :| 0 <= j < |ranges| && ranges[j].lo <= p < ranges[j].hi;
    if j < |ranges| - 1 {
      assert init[j] == ranges[j];
      assert InSomeRange(init, p);
      ScanRangesComplete(rs, keep, init, p);
    } else {
      assert piece[p - last.lo] == rs[p];
      SelectMembership(piece, keep, rs[p]);
    }
  }

  /** Over ranges that tile `[0, hi)` in order, the scan is the sequential result over that prefix. */
  lemma {:induction false} ScanTilingRanges(rs: seq<QbRecord>, keep: QbRecord -> bool, ranges: seq<Range>)
    requires RangesWithin(ranges, |rs|) && ranges != []
    requires ranges[0].lo == 0
    requires forall j :: 0 <= j < |ranges| - 1 ==> ranges[j].hi == ranges[j + 1].lo
    ensures ScanRanges(rs, keep, ranges) == Select(rs[..ranges[|ranges| - 1].hi], keep)
  {
    var last := ranges[|ranges| - 1];
    var init := ranges[..|ranges| - 1];
    if init == [] {
      assert ScanRanges(rs, keep, init) == [];
      assert rs[last.lo..last.hi] == rs[..last.hi];
    } else {
      ScanTilingRanges(rs, keep, init);
      var mid := init[|init| - 1].hi;
      assert mid == last.lo;
      assert rs[..mid] + rs[mid..last.hi] == rs[..last.hi];
      SelectAppend(rs[..mid], rs[mid..last.hi], keep);
    }
  }

  /**
    `matchingRecordsConcurrent` with w workers, the workers' results taken in
    worker order. Whatever it misses, every record it returns is a stored
    record that matches.
  */
  function ConcurrentSearch(rs: seq<QbRecord>, c: ColumnIndex, t: string, w: nat): (out: seq<QbRecord>)
    requires w >= 1
    ensures forall k :: 0 <= k < |out| ==> out[k] in rs && ColumnContentMatches(out[k], c, t)
  {
    if |rs| == 0 then []
    else if |rs| < w then Filter(rs, c, t)
    else
      var ranges := WorkerRanges(|rs|, w);
      var out := ScanRanges(rs, Matching(c, t), ranges);
      MatchingScanSound(rs, c, t, ranges);
      out
  }

  /** An empty store gives an empty result; fewer records than workers gives the sequential result. */
  lemma ConcurrentSearchSmallStores(rs: seq<QbRecord>, c: ColumnIndex, t: string, w: nat)
    requires w >= 1
    ensures rs == [] ==> ConcurrentSearch(rs, c, t, w) == []
    ensures |rs| < w ==> ConcurrentSearch(rs, c, t, w) == Filter(rs, c, t)
  {
  }

  /**
    With at least as many records as workers, a record is in the concurrent
    result exactly when it matches and sits at a position that is not the last
    position of a partition: those positions are never examined.
  */
  lemma ConcurrentSearchMembership(rs: seq<QbRecord>, c: ColumnIndex, t: string, w: nat, r: QbRecord)
    requires 1 <= w <= |rs|
    ensures r in ConcurrentSearch(rs, c, t, w) <==>
      ColumnContentMatches(r, c, t) &&
      exists p :: 0 <= p < |rs| && rs[p] == r && !IsPartitionEnd(|rs|, w, p)
  {
    var n := |rs|;
    var ranges := WorkerRanges(n, w);
    var keep := Matching(c, t);
    if r in ConcurrentSearch(rs, c, t, w) {
      ScanRangesSound(rs, keep, ranges, r);
      var p :| 0 <= p < n && InSomeRange(ranges, p) && rs[p] == r;
      ScannedIffNotPartitionEnd(n, w, p);
    }
    if p :| 0 <= p < n && rs[p] == r && !IsPartitionEnd(n, w, p) && ColumnContentMatches(r, c, t) {
      ScannedIffNotPartitionEnd(n, w, p);
      assert keep(rs[p]);
      ScanRangesComplete(rs, keep, ranges, p);
    }
  }

  /** The record at a partition's last position is never returned, whatever matches. */
  lemma ConcurrentSearchSkipsPartitionEnds(rs: seq<QbRecord>, c: ColumnIndex, t: string, w: nat, i: nat)
    requires 1 <= w <= |rs| && i < w
    requires forall p, q :: 0 <= p < q < |rs| ==> rs[p] != rs[q]
    ensures 0 <= PartitionEndArg(|rs|, w, i) < |rs|
    ensures rs[PartitionEndArg(|rs|, w, i)] !in ConcurrentSearch(rs, c, t, w)
  {
    var n := |rs|;
    var e := PartitionEndArg(n, w, i);
    PartitionBounds(n, w, i);
    ConcurrentSearchMembership(rs, c, t, w, rs[e]);
    assert IsPartitionEnd(n, w, e);
  }

  /** With exactly as many records as workers the concurrent search returns nothing. */
  lemma ConcurrentSearchEmptyWhenCountEqualsWorkers(rs: seq<QbRecord>, c: ColumnIndex, t: string)
    requires |rs| >= 1
    ensures ConcurrentSearch(rs, c, t, |rs|) == []
  {
    var n := |rs|;
    var result := ConcurrentSearch(rs, c, t, n);
    if result != [] {
      ScanRangesSound(rs, Matching(c, t), WorkerRanges(n, n), result[0]);
      var p :| 0 <= p < n && InSomeRange(WorkerRanges(n, n), p) && rs[p] == result[0];
      NothingScannedWhenCountEqualsWorkers(n, p);
    }
  }

  /** One record, one worker, the empty text on a text column: the sequential search finds it, the concurrent one does not. */
  lemma ConcurrentSearchMissesAMatch()
    ensures var rs := [QbRecord(0, "", 0, "")];
      Filter(rs, Column1, "") == rs && ConcurrentSearch(rs, Column1, "", 1) == []
  {
    var rs := [QbRecord(0, "", 0, "")];
    EmptyTextMatchesTextColumns(rs[0]);
    SelectAll(rs, Matching(Column1, ""));
    ConcurrentSearchEmptyWhenCountEqualsWorkers(rs, Column1, "");
  }

  /**
    The concurrent search with each worker handed `start + size` as its
    exclusive end: it returns exactly the sequential result.
  */
  function CorrectedConcurrentSearch(rs: seq<QbRecord>, c: ColumnIndex, t: string, w: nat): (out: seq<QbRecord>)
    requires w >= 1
    ensures out == Filter(rs, c, t)
  {
    if |rs| == 0 then []
    else if |rs| < w then Filter(rs, c, t)
    else
      ScanTilingRanges(rs, Matching(c, t), PartitionRanges(|rs|, w));
      assert rs[..|rs|] == rs;
      ScanRanges(rs, Matching(c, t), PartitionRanges(|rs|, w))
  }
}
