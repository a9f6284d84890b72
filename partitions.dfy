/**
  The partition arithmetic of the concurrent search: n records split among w
  workers. Each of the first w - 1 workers gets n / w records, the last one the
  rest; worker i starts at i * (n / w) and is handed `start + size - 1` as the
  end of its range, a range whose end the ranged iteration treats as exclusive.
*/
module Partitions {

  /** A half-open range of positions `[lo, hi)` of the iteration sequence. */
  datatype Range = Range(lo: int, hi: int)

  /** Position p lies in one of the ranges. */
  predicate InSomeRange(ranges: seq<Range>, p: int) {
    exists j :: 0 <= j < |ranges| && ranges[j].lo <= p < ranges[j].hi
  }

  /** `maxRecordsPerFiltrator`: the largest k with k workers' shares fitting in n. */
  function PerWorker(n: nat, w: nat): (k: nat)
    requires w >= 1
    ensures k * w <= n < (k + 1) * w
  {
    n / w
  }

  /** `lastFiltratorRecordsCount`: the regular share plus the remainder, fewer than w extra. */
  function LastWorkerCount(n: nat, w: nat): (k: int)
    requires w >= 1
    ensures PerWorker(n, w) <= k < PerWorker(n, w) + w
  {
    n - PerWorker(n, w) * (w - 1)
  }

  function PartitionStart(n: nat, w: nat, i: nat): nat
    requires w >= 1
  {
    i * PerWorker(n, w)
  }

  function PartitionSize(n: nat, w: nat, i: nat): int
    requires w >= 1
  {
    if i == w - 1 then LastWorkerCount(n, w) else PerWorker(n, w)
  }

  /** The exclusive end of partition i: `start + size`. */
  function PartitionEnd(n: nat, w: nat, i: nat): int
    requires w >= 1
  {
    PartitionStart(n, w, i) + PartitionSize(n, w, i)
  }

  /**
    The end index handed to worker i: `start + size - 1`, one before the
    partition's exclusive end. With at least as many records as workers it is
    the partition's own last position, and for the last worker it is n - 1.
  */
  function PartitionEndArg(n: nat, w: nat, i: nat): (e: int)
    requires w >= 1
    ensures e + 1 == PartitionEnd(n, w, i)
    ensures w <= n && i < w ==> PartitionStart(n, w, i) <= e
    ensures i == w - 1 ==> e == n - 1
  {
    PartitionStart(n, w, i) + PartitionSize(n, w, i) - 1
  }


  /** The ranges the workers scan, in worker order: worker i scans `[start_i, start_i + size_i - 1)`. */
  function WorkerRanges(n: nat, w: nat): (ranges: seq<Range>)
    requires 1 <= w <= n
    ensures |ranges| == w
    ensures forall i :: 0 <= i < w ==> 0 <= ranges[i].lo <= ranges[i].hi <= n
    ensures forall i :: 0 <= i < w ==> ranges[i] == Range(PartitionStart(n, w, i), PartitionEndArg(n, w, i))
  {
    forall i | 0 <= i < w
      ensures 0 <= PartitionStart(n, w, i) <= PartitionEndArg(n, w, i) <= n
    {
      PartitionBounds(n, w, i);
    }
    seq(w, i requires 0 <= i < w => Range(PartitionStart(n, w, i), PartitionEndArg(n, w, i)))
  }

  /** Position p lies in the range some worker scans. */
  predicate Scanned(n: nat, w: nat, p: int)
    requires 1 <= w <= n
  {
    InSomeRange(WorkerRanges(n, w), p)
  }

  /** The partitions themselves, `[start_i, start_i + size_i)`: they tile `[0, n)` in order. */
  function PartitionRanges(n: nat, w: nat): (ranges: seq<Range>)
    requires 1 <= w <= n
    ensures |ranges| == w && ranges[0].lo == 0 && ranges[w - 1].hi == n
    ensures forall i :: 0 <= i < w ==> 0 <= ranges[i].lo <= ranges[i].hi <= n
    ensures forall i :: 0 <= i < w - 1 ==> ranges[i].hi == ranges[i + 1].lo
    ensures forall i :: 0 <= i < w ==> ranges[i] == Range(PartitionStart(n, w, i), PartitionEnd(n, w, i))
  {
    forall i | 0 <= i < w
      ensures 0 <= PartitionStart(n, w, i) <= PartitionEnd(n, w, i) <= n
      ensures i < w - 1 ==> PartitionEnd(n, w, i) == PartitionStart(n, w, i + 1)
      ensures i == w - 1 ==> PartitionEnd(n, w, i) == n
    {
      PartitionBounds(n, w, i);
    }
    assert PartitionStart(n, w, 0) == 0;
    seq(w, i requires 0 <= i < w => Range(PartitionStart(n, w, i), PartitionEnd(n, w, i)))
  }

  /** Position p is the last position of some worker's partition. */
  predicate IsPartitionEnd(n: nat, w: nat, p: int)
    requires w >= 1
  {
    exists i :: 0 <= i < w && p == PartitionEndArg(n, w, i)
  }

  /** The sizes: the first w - 1 partitions and the last add up to n, and the last is the largest. */
  lemma PartitionSizes(n: nat, w: nat)
    requires w >= 1
    ensures PerWorker(n, w) * (w - 1) + LastWorkerCount(n, w) == n
    ensures LastWorkerCount(n, w) == PerWorker(n, w) + n % w
    ensures LastWorkerCount(n, w) >= PerWorker(n, w)
    ensures n >= w ==> PerWorker(n, w) >= 1
  {
    var per := n / w;
    assert n == per * w + n % w;
    assert per * (w - 1) == per * w - per;
  }

  lemma MulMonotone(a: nat, b: nat, k: nat)
    requires a <= b
    ensures a * k <= b * k
  {
  }

  /** Partition i ends where partition i + 1 starts, and never beyond n. */
  lemma PartitionBounds(n: nat, w: nat, i: nat)
    requires 1 <= w <= n && i < w
    ensures 0 <= PartitionStart(n, w, i) <= PartitionEndArg(n, w, i)
    ensures PartitionEndArg(n, w, i) < PartitionEnd(n, w, i) <= n
    ensures i < w - 1 ==> PartitionEnd(n, w, i) == PartitionStart(n, w, i + 1)
    ensures i == w - 1 ==> PartitionEndArg(n, w, i) == n - 1
  {
    PartitionSizes(n, w);
    var per := PerWorker(n, w);
    assert (i + 1) * per == i * per + per;
    if i < w - 1 {
      MulMonotone(i + 1, w - 1, per);
    }
  }

  /** Ranges of different workers do not overlap: an earlier one ends before a later one starts. */
  lemma PartitionsDisjoint(n: nat, w: nat, i: nat, j: nat)
    requires 1 <= w <= n && i < j < w
    ensures PartitionEnd(n, w, i) <= PartitionStart(n, w, j)
  {
    PartitionBounds(n, w, i);
    MulMonotone(i + 1, j, PerWorker(n, w));
  }

  /** The last position of a partition lies in [0, n) and is scanned by no worker. */
  lemma PartitionEndNeverScanned(n: nat, w: nat, p: int)
    requires 1 <= w <= n
    requires IsPartitionEnd(n, w, p)
    ensures 0 <= p < n && !Scanned(n, w, p)
  {
    var i :| 0 <= i < w && p == PartitionEndArg(n, w, i);
    PartitionBounds(n, w, i);
    forall j | 0 <= j < w
      ensures !(PartitionStart(n, w, j) <= p < PartitionEndArg(n, w, j))
    {
      PartitionBounds(n, w, j);
      if j < i {
        PartitionsDisjoint(n, w, j, i);
      } else if i < j {
        PartitionsDisjoint(n, w, i, j);
      }
    }
  }

  /** Euclidean division by a positive divisor brackets the dividend. */
  lemma DivBounds(p: nat, d: nat)
    requires d >= 1
    ensures (p / d) * d <= p < (p / d) * d + d
  {
  }

  /** Every position of [0, n) lies in some worker's partition. */
  lemma PartitionContaining(n: nat, w: nat, p: int) returns (i: nat)
    requires 1 <= w <= n && 0 <= p < n
    ensures i < w && PartitionStart(n, w, i) <= p < PartitionEnd(n, w, i)
  {
    PartitionSizes(n, w);
    var per := PerWorker(n, w);
    DivBounds(p, per);
    var q := p / per;
    if q < w - 1 {
      i := q;
    } else {
      i := w - 1;
      MulMonotone(w - 1, q, per);
    }
  }

  /** Every other position in [0, n) is scanned by some worker. */
  lemma NonEndPositionScanned(n: nat, w: nat, p: int)
    requires 1 <= w <= n && 0 <= p < n
    requires !IsPartitionEnd(n, w, p)
    ensures Scanned(n, w, p)
  {
    var i := PartitionContaining(n, w, p);
    assert p != PartitionEndArg(n, w, i);
    var ranges := WorkerRanges(n, w);
    assert ranges[i].lo <= p < ranges[i].hi;
  }

  /** With n >= w, the workers scan exactly the positions of [0, n) that are not a partition's last. */
  lemma ScannedIffNotPartitionEnd(n: nat, w: nat, p: int)
    requires 1 <= w <= n && 0 <= p < n
    ensures Scanned(n, w, p) <==> !IsPartitionEnd(n, w, p)
  {
    if IsPartitionEnd(n, w, p) {
      PartitionEndNeverScanned(n, w, p);
    } else {
      NonEndPositionScanned(n, w, p);
    }
  }

  /** With as many records as workers every partition has one record, and nothing is scanned. */
  lemma NothingScannedWhenCountEqualsWorkers(n: nat, p: int)
    requires n >= 1
    ensures !Scanned(n, n, p)
  {
    PartitionSizes(n, n);
    assert PerWorker(n, n) == 1;
    forall i | 0 <= i < n
      ensures PartitionEndArg(n, n, i) == PartitionStart(n, n, i)
    {
    }
  }
}
