/**
  The record store: a map from id to record plus the order in which the hash
  map iterates its entries, which is what positional ranges index into.
  Locks are not modelled; every operation runs alone.
*/
module Store {
  import opened Decimal
  import opened Records
  import opened Partitions
  import opened Search

  /** `order` lists every key of `keys` exactly once. */
  predicate IsIterationOrder(order: seq<KeyType>, keys: set<KeyType>) {
    && (forall i, j :: 0 <= i < j < |order| ==> order[i] != order[j])
    && (forall i :: 0 <= i < |order| ==> order[i] in keys)
    && (forall k :: k in keys ==> k in order)
  }

  /** The conversion of an `int` argument to the unsigned key type. */
  function KeyOf(id: Int32): (k: KeyType)
    ensures 0 <= id ==> k == id
    ensures id < 0 ==> k == id + 0x1_0000_0000
  {
    id % 0x1_0000_0000
  }

  /** Each record is stored under its own id. */
  predicate KeyedById(records: map<KeyType, QbRecord>) {
    forall k :: k in records ==> records[k].column0 == k
  }

  /** An iteration order visits as many entries as there are keys. */
  lemma {:induction false} IterationOrderLength(order: seq<KeyType>, keys: set<KeyType>)
    requires IsIterationOrder(order, keys)
    ensures |order| == |keys|
    decreases |order|
  {
    if order != [] {
      var last := order[|order| - 1];
      var init := order[..|order| - 1];
      assert IsIterationOrder(init, keys - {last}) by {
        forall k | k in keys - {last}
          ensures k in init
        {
          var i :| 0 <= i < |order| && order[i] == k;
          assert i != |order| - 1;
          assert init[i] == k;
        }
      }
      IterationOrderLength(init, keys - {last});
    } else {
      assert keys == {};
    }
  }

  /** Some iteration order over the keys; which one is up to the hash map. */
  method EnumerateKeys(keys: set<KeyType>) returns (order: seq<KeyType>)
    ensures IsIterationOrder(order, keys)
  {
    order := [];
    var rest := keys;
    while rest != {}
      invariant rest <= keys
      invariant forall i, j :: 0 <= i < j < |order| ==> order[i] != order[j]
      invariant forall i :: 0 <= i < |order| ==> order[i] in keys - rest
      invariant forall k :: k in keys - rest ==> k in order
      decreases rest
    {
      var k :| k in rest;
      order := order + [k];
      rest := rest - {k};
    }
  }

  /** The iteration order with key k erased; the other keys keep their relative order. */
  function Erase(order: seq<KeyType>, k: KeyType): (out: seq<KeyType>)
    ensures forall x :: x in out <==> x in order && x != k
  {
    if order == [] then []
    else if order[0] == k then Erase(order[1..], k)
    else [order[0]] + Erase(order[1..], k)
  }

  /** Dropping the first key of an iteration order leaves an iteration order of the other keys. */
  lemma IterationOrderTail(order: seq<KeyType>, keys: set<KeyType>)
    requires IsIterationOrder(order, keys) && order != []
    ensures IsIterationOrder(order[1..], keys - {order[0]})
  {
    var tail := order[1..];
    forall x | x in keys - {order[0]}
      ensures x in tail
    {
      var i :| 0 <= i < |order| && order[i] == x;
      assert tail[i - 1] == x;
    }
  }

  /** Putting a new key in front of an iteration order gives an iteration order of the larger set. */
  lemma IterationOrderCons(x: KeyType, order: seq<KeyType>, keys: set<KeyType>)
    requires IsIterationOrder(order, keys) && x !in keys
    ensures IsIterationOrder([x] + order, keys + {x})
  {
    var out := [x] + order;
    forall i, j | 0 <= i < j < |out|
      ensures out[i] != out[j]
    {
      if i == 0 {
        assert out[j] == order[j - 1];
      } else {
        assert out[i] == order[i - 1] && out[j] == order[j - 1];
      }
    }
  }

  lemma {:induction false} EraseKeepsIterationOrder(order: seq<KeyType>, keys: set<KeyType>, k: KeyType)
    requires IsIterationOrder(order, keys)
    ensures IsIterationOrder(Erase(order, k), keys - {k})
    ensures k !in keys ==> Erase(order, k) == order
    decreases |order|
  {
    if order != [] {
      var x, tail := order[0], order[1..];
      IterationOrderTail(order, keys);
      EraseKeepsIterationOrder(tail, keys - {x}, k);
      if x != k {
        assert Erase(order, k) == [x] + Erase(tail, k);
        IterationOrderCons(x, Erase(tail, k), keys - {x} - {k});
        assert keys - {x} - {k} + {x} == keys - {k};
        assert order == [x] + tail;
      } else {
        assert keys - {x} - {k} == keys - {k};
      }
    } else {
      assert keys == {};
    }
  }

  /** Removing a key from a map removes exactly that key, and one entry if it was there. */
  lemma MapRemoveKey(records: map<KeyType, QbRecord>, key: KeyType)
    ensures (records - {key}).Keys == records.Keys - {key}
    ensures key in records ==> |records - {key}| == |records| - 1
    ensures key !in records ==> records - {key} == records
  {
    var rest := records - {key};
    assert rest.Keys == records.Keys - {key};
    if key in records {
      assert records.Keys == rest.Keys + {key};
    }
  }

  /** Removing a key from a well-formed store leaves a well-formed store. */
  lemma RemoveKeepsStore(records: map<KeyType, QbRecord>, order: seq<KeyType>, key: KeyType)
    requires IsIterationOrder(order, records.Keys) && KeyedById(records)
    ensures IsIterationOrder(Erase(order, key), (records - {key}).Keys) && KeyedById(records - {key})
    ensures key in records ==> |records - {key}| == |records| - 1
    ensures key !in records ==> records - {key} == records && Erase(order, key) == order
  {
    MapRemoveKey(records, key);
    EraseKeepsIterationOrder(order, records.Keys, key);
  }

  /** `createArbitraryRecords`: ids 0 .. count - 1 built from the prefix and the id's decimal form. */
  method CreateArbitraryRecords(prefix: string, count: Int32) returns (records: map<KeyType, QbRecord>)
    ensures forall i: int :: i in records <==> 0 <= i < count
    ensures forall i :: i in records ==>
      records[i] == QbRecord(i, prefix + NatToString(i), i % 100, NatToString(i) + prefix)
    ensures KeyedById(records)
  {
    records := map[];
    if count < 1 {
      return;
    }
    var i: KeyType := 0;
    while i < count
      invariant 0 <= i <= count
      invariant forall j: int :: j in records <==> 0 <= j < i
      invariant forall j :: j in records ==>
        records[j] == QbRecord(j, prefix + NatToString(j), j % 100, NatToString(j) + prefix)
    {
      records := records[i := QbRecord(i, prefix + NatToString(i), i % 100, NatToString(i) + prefix)];
      i := i + 1;
    }
  }

  /** The decimal form of the id 5003. */
  lemma DecimalOf5003()
    ensures NatToString(5003) == "5003"
  {
    assert NatToString(5) == "5";
    assert NatToString(50) == NatToString(5) + [DigitChar(0)];
    assert NatToString(500) == NatToString(50) + [DigitChar(0)];
    assert NatToString(5003) == NatToString(500) + [DigitChar(3)];
  }

  /**
    With the prefix "testdata", searching column1 for "testdata500" is a
    substring search: besides record 500 it matches, for one, record 5003.
  */
  lemma GeneratedTextSearchIsSubstring()
    ensures ColumnContentMatches(QbRecord(5003, "testdata" + NatToString(5003), 5003 % 100, NatToString(5003) + "testdata"), Column1, "testdata500")
  {
    DecimalOf5003();
    var r := QbRecord(5003, "testdata" + "5003", 3, "5003" + "testdata");
    assert r.column1[..11] == "testdata500";
    assert OccursAt("testdata500", r.column1, 0);
    TextColumnMatchesIffSubstring(r, "testdata500");
  }

  /** `QbDatabase`: the records by id, and the order the map iterates them in. */
  class QbDatabase {
    var records: map<KeyType, QbRecord>
    var order: seq<KeyType>

    ghost predicate Valid()
      reads this
    {
      IsIterationOrder(order, records.Keys) && KeyedById(records)
    }

    /** The records in the order the map's iterators visit them. */
    function Contents(): (rs: seq<QbRecord>)
      reads this
      requires Valid()
      ensures |rs| == |order| == |records|
      ensures forall i :: 0 <= i < |rs| ==> rs[i] == records[order[i]]
    {
      IterationOrderLength(order, records.Keys);
      var o, m := order, records;
      seq(|o|, i requires 0 <= i < |o| => m[o[i]])
    }

    constructor ()
      ensures Valid() && records == map[] && order == []
    {
      records := map[];
      order := [];
    }

    /** The private constructor that takes over a prepared map. */
    constructor FromRecords(rs: map<KeyType, QbRecord>)
      requires KeyedById(rs)
      ensures Valid() && records == rs
    {
      var o := EnumerateKeys(rs.Keys);
      records := rs;
      order := o;
    }

    /** The move constructor: `*this = std::move(other)`. */
    constructor FromMoved(other: QbDatabase)
      requires other.Valid()
      modifies other
      ensures Valid() && records == old(other.records) && order == old(other.order)
      ensures other.Valid() && other.records == map[] && other.order == []
    {
      records := other.records;
      order := other.order;
      other.records := map[];
      other.order := [];
    }

    /** `createFilledWithArbitraryRecords`. */
    static method CreateFilledWithArbitraryRecords(prefix: string, count: Int32) returns (db: QbDatabase)
      ensures fresh(db) && db.Valid()
      ensures forall i: int :: i in db.records <==> 0 <= i < count
      ensures forall i :: i in db.records ==>
        db.records[i] == QbRecord(i, prefix + NatToString(i), i % 100, NatToString(i) + prefix)
    {
      var rs := CreateArbitraryRecords(prefix, count);
      db := new QbDatabase.FromRecords(rs);
    }

    /**
      `addOrReplaceRecord`: the entry at the record's id becomes the record.
      Replacing keeps the iteration order; a new id may rehash the map, so the
      new order is any order of the new keys.
    */
    method AddOrReplaceRecord(r: QbRecord)
      requires Valid()
      modifies this
      ensures Valid()
      ensures records == old(records)[r.column0 := r]
      ensures forall k :: k in old(records) && k != r.column0 ==> k in records && records[k] == old(records)[k]
      ensures r.column0 in old(records) ==> order == old(order) && |records| == old(|records|)
      ensures r.column0 !in old(records) ==> |records| == old(|records|) + 1
    {
      var present := r.column0 in records;
      records := records[r.column0 := r];
      if !present {
        order := EnumerateKeys(records.Keys);
      }
    }

    /**
      `removeRecord`: the `int` id is converted to the unsigned key type, so a
      negative id names the key `id + 2^32`. Erasing keeps the order of the rest.
    */
    method RemoveRecord(id: Int32)
      requires Valid()
      modifies this
      ensures Valid()
      ensures KeyOf(id) !in records
      ensures records == old(records) - {KeyOf(id)}
      ensures order == Erase(old(order), KeyOf(id))
      ensures KeyOf(id) !in old(records) ==> records == old(records) && order == old(order)
      ensures KeyOf(id) in old(records) ==> |records| == old(|records|) - 1
    {
      var key := KeyOf(id);
      RemoveKeepsStore(records, order, key);
      records := records - {key};
      order := Erase(order, key);
    }

    /** `clear`: the store is empty afterwards, whatever it held, so clearing twice is clearing once. */
    method Clear()
      requires Valid()
      modifies this
      ensures Valid() && records == map[] && order == []
    {
      if |records| == 0 {
        IterationOrderLength(order, records.Keys);
        return;
      }
      records := map[];
      order := [];
    }

    /**
      Move assignment: unless it is self-assignment, this store takes over the
      other's entries and order, and the other is left empty.
    */
    method MoveAssign(other: QbDatabase)
      requires Valid() && other.Valid()
      modifies this, other
      ensures Valid() && other.Valid()
      ensures other == this ==> records == old(records) && order == old(order)
      ensures other != this ==> records == old(other.records) && order == old(other.order)
      ensures other != this ==> other.records == map[] && other.order == []
    {
      if other != this {
        Clear();
        records := other.records;
        order := other.order;
        other.records := map[];
        other.order := [];
      }
    }

    /**
      The whole-map `forEachRecord`, with the processor every caller passes:
      collect the records the filter accepts, in iteration order.
    */
    method ForEachRecord(keep: QbRecord -> bool) returns (result: seq<QbRecord>)
      requires Valid()
      ensures result == Select(Contents(), keep)
    {
      var rs := Contents();
      result := [];
      var i := 0;
      while i < |rs|
        invariant 0 <= i <= |rs|
        invariant result == Select(rs[0..i], keep)
      {
        SelectSliceStep(rs, 0, i, keep);
        if keep(rs[i]) {
          result := result + [rs[i]];
        }
        i := i + 1;
      }
      assert rs[0..i] == rs;
    }

    /**
      The ranged `forEachRecord`: advances to position `start`, then visits the
      positions up to `end` exclusive, collecting the records the filter accepts.
    */
    method ForEachRecordInRange(keep: QbRecord -> bool, start: int, end: int) returns (result: seq<QbRecord>)
      requires Valid()
      requires 0 <= start <= end <= |records|
      ensures result == Select(Contents()[start..end], keep)
    {
      var rs := Contents();
      result := [];
      var i := start;
      while i < end
        invariant start <= i <= end
        invariant result == Select(rs[start..i], keep)
      {
        SelectSliceStep(rs, start, i, keep);
        if keep(rs[i]) {
          result := result + [rs[i]];
        }
        i := i + 1;
      }
    }

    /** The private `matchingRecords` overload: the whole-map `forEachRecord` with the column match as filter. */
    method MatchingRecordsByIndex(c: ColumnIndex, t: string) returns (result: seq<QbRecord>)
      requires Valid()
      ensures result == Filter(Contents(), c, t)
    {
      if |records| == 0 {
        return [];
      }
      result := ForEachRecord(Matching(c, t));
    }

    /** The public `matchingRecords`: resolves the column name, then filters. */
    method MatchingRecords(name: string, t: string) returns (result: seq<QbRecord>)
      requires Valid()
      ensures result == Filter(Contents(), ColumnIndexOf(name), t)
    {
      result := MatchingRecordsByIndex(ColumnIndexOf(name), t);
    }

    /** `matchingRecordsInRange`: the ranged `forEachRecord` over positions `[start, end)` with the column match as filter. */
    method MatchingRecordsInRange(c: ColumnIndex, t: string, start: int, end: int) returns (result: seq<QbRecord>)
      requires Valid()
      requires 0 <= start <= end <= |records|
      ensures result == Filter(Contents()[start..end], c, t)
    {
      result := ForEachRecordInRange(Matching(c, t), start, end);
    }

    /**
      `matchingRecordsConcurrent` with `workers` workers run one after another:
      worker i scans from `i * per` up to the end argument it is handed.
    */
    method MatchingRecordsConcurrent(name: string, t: string, workers: nat) returns (result: seq<QbRecord>)
      requires Valid()
      requires workers >= 1
      ensures result == ConcurrentSearch(Contents(), ColumnIndexOf(name), t, workers)
    {
      var n := |records|;
      if n == 0 {
        return [];
      }
      var c := ColumnIndexOf(name);
      if n < workers {
        result := MatchingRecordsByIndex(c, t);
        return;
      }
      ghost var rs := Contents();
      ghost var ranges := WorkerRanges(n, workers);
      result := [];
      var i := 0;
      while i < workers
        invariant 0 <= i <= workers
        invariant result == ScanRanges(rs, Matching(c, t), ranges[..i])
      {
        var start := PartitionStart(n, workers, i);
        var end := PartitionEndArg(n, workers, i);
        var part := MatchingRecordsInRange(c, t, start, end);
        ScanRangesStep(rs, Matching(c, t), ranges, i);
        result := result + part;
        i := i + 1;
      }
      assert ranges[..i] == ranges;
    }

    /**
      The concurrent search with each worker handed `start + size`, the
      exclusive end its range needs: it returns the sequential result.
    */
    method MatchingRecordsConcurrentCorrected(name: string, t: string, workers: nat) returns (result: seq<QbRecord>)
      requires Valid()
      requires workers >= 1
      ensures result == CorrectedConcurrentSearch(Contents(), ColumnIndexOf(name), t, workers)
      ensures result == Filter(Contents(), ColumnIndexOf(name), t)
    {
      var c := ColumnIndexOf(name);
      var n := |records|;
      if n == 0 {
        return [];
      }
      if n < workers {
        result := MatchingRecordsByIndex(c, t);
        return;
      }
      result := RunCorrectedWorkers(c, t, workers);
    }

    /**
      The worker loop of the corrected concurrent search, workers run one
      after another: worker i scans `[start_i, start_i + size_i)`, and their
      results are joined in worker order.
    */
    method RunCorrectedWorkers(c: ColumnIndex, t: string, workers: nat) returns (result: seq<QbRecord>)
      requires Valid()
      requires 1 <= workers <= |records|
      ensures result == ScanRanges(Contents(), Matching(c, t), PartitionRanges(|records|, workers))
    {
      var n := |records|;
      ghost var rs := Contents();
      ghost var ranges := PartitionRanges(n, workers);
      result := [];
      var i := 0;
      while i < workers
        invariant 0 <= i <= workers
        invariant result == ScanRanges(rs, Matching(c, t), ranges[..i])
      {
        var start := PartitionStart(n, workers, i);
        var end := PartitionEnd(n, workers, i);
        var part := MatchingRecordsInRange(c, t, start, end);
        ScanRangesStep(rs, Matching(c, t), ranges, i);
        result := result + part;
        i := i + 1;
      }
      assert ranges[..i] == ranges;
    }
  }

  /** The whole-map iteration visits every stored record once, and no id twice. */
  lemma VisitsEachRecordOnce(db: QbDatabase)
    requires db.Valid()
    ensures forall k :: k in db.records ==> exists i :: 0 <= i < |db.Contents()| && db.Contents()[i] == db.records[k]
    ensures forall i, j :: 0 <= i < j < |db.Contents()| ==> db.Contents()[i].column0 != db.Contents()[j].column0
  {
    var rs := db.Contents();
    forall k | k in db.records
      ensures exists i :: 0 <= i < |rs| && rs[i] == db.records[k]
    {
      var i :| 0 <= i < |db.order| && db.order[i] == k;
      assert rs[i] == db.records[k];
    }
  }

  /** Searching the id column for the decimal form of a stored id finds exactly that record. */
  lemma SearchByStoredId(db: QbDatabase, k: KeyType)
    requires db.Valid() && k in db.records
    ensures Filter(db.Contents(), Column0, NatToString(k)) == [db.records[k]]
  {
    var rs := db.Contents();
    VisitsEachRecordOnce(db);
    var p :| 0 <= p < |rs| && rs[p] == db.records[k];
    FilterIdUnique(rs, p);
  }

  /** Searching the id column for the decimal form of an absent id, a removed one say, finds nothing. */
  lemma SearchByAbsentId(db: QbDatabase, k: KeyType)
    requires db.Valid() && k !in db.records
    ensures Filter(db.Contents(), Column0, NatToString(k)) == []
  {
    FilterIdAbsent(db.Contents(), k);
  }
}
