/** `update_column_in_batches`: one pass over the selected rows of a table, in id order,
    a bounded number of rows at a time. */
module ColumnBatches {
  import opened Wrappers
  import opened SortedSets

  type Rows<Row> = map<int, Row>

  // ---- The queries ----

  /** The ids the block lets through. */
  function Selected<Row>(rows: Rows<Row>, selects: Row -> bool): set<int> {
    set i | i in rows && selects(rows[i])
  }

  function From(ids: set<int>, start: int): set<int> {
    set i | i in ids && i >= start
  }

  /** `ORDER BY id LIMIT 1 OFFSET n`. */
  function Entry(ids: set<int>, n: nat): Option<int> {
    if n < |ids| then Some(Asc(ids)[n]) else None
  }

  /** The ids one UPDATE touches. */
  function Batch(ids: set<int>, start: int, stop: Option<int>): set<int> {
    set i | i in ids && i >= start && (stop.Some? ==> i < stop.value)
  }

  function Updated<Row>(rows: Rows<Row>, ids: set<int>, assign: Row -> Row): Rows<Row> {
    map i | i in rows :: if i in ids then assign(rows[i]) else rows[i]
  }

  function Ceil(x: real): int {
    -((-x).Floor)
  }

  /** 5% of the rows, 1000 at most. */
  function BatchSize(total: nat): (size: nat)
    requires total > 0
    ensures 1 <= size <= 1000
    ensures 100 * (size - 1) < 5 * total
    ensures size < 1000 ==> 5 * total <= 100 * size
  {
    var size := Ceil((total as real / 100.0) * 5.0);
    if size > 1000 then 1000 else size
  }

  // ---- One batch ----

  /** When there is a stop row the batch before it has exactly `n` rows; when there is
      none, what remains is the last batch. */
  lemma BatchSplits(ids: set<int>, start: int, n: nat)
    requires n > 0
    ensures var rest := From(ids, start);
      var stop := Entry(rest, n);
      var batch := Batch(ids, start, stop);
      if stop.Some? then
        && start < stop.value && |batch| == n
        && batch !! From(ids, stop.value) && rest == batch + From(ids, stop.value)
        && From(ids, stop.value) != {}
      else batch == rest && |batch| <= n
  {
    var rest := From(ids, start);
    if n < |rest| {
      var s := Asc(rest);
      var stop := s[n];
      assert stop in s && s[0] in s && s[0] < stop;
      assert stop in From(ids, stop);
      CountBelow(s, rest, n);
      assert Batch(ids, start, Some(stop)) == Below(rest, stop);
    }
  }

  /** `n` members of a listed set are below the entry at index `n`. */
  lemma {:induction false} CountBelow(s: seq<int>, z: set<int>, n: nat)
    requires Ascending(s) && Lists(s, z) && n < |s|
    ensures |Below(z, s[n])| == n
  {
    forall y | y in Below(z, s[n]) ensures n > 0 && (y == s[n - 1] || y < s[n - 1]) {
      assert y in s;
      var i :| 0 <= i < |s| && s[i] == y;
    }
    if n > 0 {
      var x := s[n - 1];
      assert x in s;
      CountBelow(s, z, n - 1);
      assert Below(z, s[n]) == Below(z, x) + {x};
    } else {
      assert Below(z, s[n]) == {};
    }
  }

  // ---- The whole pass ----

  /** `batches` cut `ids` into pieces of exactly `size` ids. */
  ghost predicate FullBatches(batches: seq<set<int>>, ids: set<int>, size: nat) {
    if batches == [] then ids == {}
    else
      var k := |batches| - 1;
      batches[k] <= ids && |batches[k]| == size && FullBatches(batches[..k], ids - batches[k], size)
  }

  /** `batches` cut `ids` into pieces, all but the last of exactly `size` ids. */
  ghost predicate Cut(batches: seq<set<int>>, ids: set<int>, size: nat) {
    && batches != []
    && var k := |batches| - 1;
       batches[k] <= ids && 0 < |batches[k]| <= size && FullBatches(batches[..k], ids - batches[k], size)
  }

  lemma AddBatch(batches: seq<set<int>>, ids: set<int>, size: nat, batch: set<int>, all: set<int>)
    requires FullBatches(batches, ids, size) && batch !! ids && all == ids + batch
    ensures |batch| == size ==> FullBatches(batches + [batch], all, size)
    ensures 0 < |batch| <= size ==> Cut(batches + [batch], all, size)
  {
    assert (batches + [batch])[..|batches|] == batches;
    assert all - batch == ids;
  }

  lemma {:induction false} FullBatchesSize(batches: seq<set<int>>, ids: set<int>, size: nat)
    requires FullBatches(batches, ids, size)
    ensures |ids| == |batches| * size
  {
    if batches != [] {
      var k := |batches| - 1;
      FullBatchesSize(batches[..k], ids - batches[k], size);
      assert |batches| * size == k * size + size;
    }
  }

  lemma {:induction false} FullBatchesOnce(batches: seq<set<int>>, ids: set<int>, size: nat, i: int)
    requires FullBatches(batches, ids, size)
    ensures Occurrences(batches, i) == if i in ids then 1 else 0
  {
    if batches != [] {
      var k := |batches| - 1;
      FullBatchesOnce(batches[..k], ids - batches[k], size, i);
    }
  }

  /** In how many batches an id is. */
  function Occurrences(batches: seq<set<int>>, i: int): nat {
    if batches == [] then 0
    else
      var k := |batches| - 1;
      Occurrences(batches[..k], i) + if i in batches[k] then 1 else 0
  }

  /** Main result on a cut: every selected row is in one batch and no other row in any,
      and there are as many batches as `|ids| / size` rounded up. */
  lemma CutIsExact(batches: seq<set<int>>, ids: set<int>, size: nat)
    requires Cut(batches, ids, size)
    ensures forall i :: Occurrences(batches, i) == if i in ids then 1 else 0
    ensures (|batches| - 1) * size < |ids| <= |batches| * size
  {
    var k := |batches| - 1;
    var last := batches[k];
    forall i ensures Occurrences(batches, i) == if i in ids then 1 else 0 {
      FullBatchesOnce(batches[..k], ids - last, size, i);
    }
    FullBatchesSize(batches[..k], ids - last, size);
    assert |batches| * size == k * size + size;
  }

  /** The rows below `start` have been updated and the others are as they were. */
  ghost predicate UpdatedBelow<Row(!new)>(rows: Rows<Row>, now: Rows<Row>, ids: set<int>, start: int, assign: Row -> Row) {
    now == Updated(rows, ids - From(ids, start), assign)
  }

  /** The block still sees the rows that are left, whatever column it looks at. */
  lemma SelectionAhead<Row(!new)>(rows: Rows<Row>, now: Rows<Row>, selects: Row -> bool, start: int, assign: Row -> Row)
    requires UpdatedBelow(rows, now, Selected(rows, selects), start, assign)
    ensures From(Selected(now, selects), start) == From(Selected(rows, selects), start)
    ensures forall stop :: Batch(Selected(now, selects), start, stop) == Batch(Selected(rows, selects), start, stop)
  {
    forall stop ensures Batch(Selected(now, selects), start, stop) == Batch(Selected(rows, selects), start, stop) {
      assert forall i | i >= start && i in rows :: now[i] == rows[i];
    }
  }

  /** The batches so far have covered the ids below `start` and no others. */
  ghost predicate CoveredBelow(ids: set<int>, batches: seq<set<int>>, size: nat, start: int) {
    FullBatches(batches, ids - From(ids, start), size) && From(ids, start) != {}
  }

  lemma NextCovered(ids: set<int>, batches: seq<set<int>>, size: nat, start: int)
    requires size > 0 && CoveredBelow(ids, batches, size, start)
    ensures var stop := Entry(From(ids, start), size);
      var batch := Batch(ids, start, stop);
      if stop.Some? then
        && start < stop.value && From(ids, stop.value) < From(ids, start)
        && CoveredBelow(ids, batches + [batch], size, stop.value)
      else
        Cut(batches + [batch], ids, size)
  {
    BatchSplits(ids, start, size);
    var stop := Entry(From(ids, start), size);
    var batch := Batch(ids, start, stop);
    var before := ids - From(ids, start);
    if stop.Some? {
      assert before + batch == ids - From(ids, stop.value);
      AddBatch(batches, before, size, batch, ids - From(ids, stop.value));
    } else {
      assert before + batch == ids;
      AddBatch(batches, before, size, batch, ids);
    }
  }

  lemma NextUpdated<Row(!new)>(rows: Rows<Row>, now: Rows<Row>, ids: set<int>, start: int, stop: Option<int>, assign: Row -> Row)
    requires UpdatedBelow(rows, now, ids, start, assign) && (stop.Some? ==> start < stop.value)
    ensures var after := Updated(now, Batch(ids, start, stop), assign);
      if stop.Some? then UpdatedBelow(rows, after, ids, stop.value, assign) else after == Updated(rows, ids, assign)
  {
    var before := ids - From(ids, start);
    var batch := Batch(ids, start, stop);
    UpdatedTwice(rows, before, batch, assign);
    assert before + batch == if stop.Some? then ids - From(ids, stop.value) else ids;
  }

  /** The pass has dealt with the selected rows below `start` and no others. */
  ghost predicate PassAt<Row(!new)>(rows: Rows<Row>, now: Rows<Row>, selects: Row -> bool, assign: Row -> Row,
                                    batches: seq<set<int>>, size: nat, start: int)
  {
    && UpdatedBelow(rows, now, Selected(rows, selects), start, assign)
    && CoveredBelow(Selected(rows, selects), batches, size, start)
  }

  lemma PassStarts<Row(!new)>(rows: Rows<Row>, selects: Row -> bool, assign: Row -> Row, size: nat)
    requires Selected(rows, selects) != {}
    ensures PassAt(rows, rows, selects, assign, [], size, Min(Selected(rows, selects)))
  {
    var ids := Selected(rows, selects);
    assert From(ids, Min(ids)) == ids && ids - ids == {};
  }

  lemma NextBatch<Row(!new)>(rows: Rows<Row>, now: Rows<Row>, selects: Row -> bool, assign: Row -> Row,
                             batches: seq<set<int>>, size: nat, start: int)
    requires size > 0 && PassAt(rows, now, selects, assign, batches, size, start)
    ensures var ids := Selected(rows, selects);
      var stop := Entry(From(Selected(now, selects), start), size);
      var batch := Batch(Selected(now, selects), start, stop);
      var after := Updated(now, batch, assign);
      if stop.Some? then
        && From(ids, stop.value) < From(ids, start)
        && PassAt(rows, after, selects, assign, batches + [batch], size, stop.value)
      else
        after == Updated(rows, ids, assign) && Cut(batches + [batch], ids, size)
  {
    var ids := Selected(rows, selects);
    SelectionAhead(rows, now, selects, start, assign);
    var stop := Entry(From(ids, start), size);
    NextCovered(ids, batches, size, start);
    NextUpdated(rows, now, ids, start, stop, assign);
  }

  /** Updating disjoint sets of rows one after the other updates their union. */
  lemma UpdatedTwice<Row>(rows: Rows<Row>, a: set<int>, b: set<int>, assign: Row -> Row)
    requires a !! b
    ensures Updated(Updated(rows, a, assign), b, assign) == Updated(rows, a + b, assign)
  {
  }

  class Table<Row(!new)> {
    var rows: Rows<Row>

    constructor (rows: Rows<Row>)
      ensures this.rows == rows
    {
      this.rows := rows;
    }

    /** `estimate` is the row count the planner believes in, `selects` the block and
        `assign` the SET clause.  `batches` are the ids of each UPDATE. */
    method UpdateColumnInBatches(estimate: nat, selects: Row -> bool, assign: Row -> Row)
      returns (batchSize: nat, ghost batches: seq<set<int>>)
      modifies this
      ensures rows == Updated(old(rows), Selected(old(rows), selects), assign)
      ensures rows.Keys == old(rows).Keys
      ensures forall i | i in old(rows) ::
        rows[i] == if selects(old(rows)[i]) then assign(old(rows)[i]) else old(rows)[i]
      ensures Selected(old(rows), selects) == {} ==> batches == []
      ensures Selected(old(rows), selects) != {} ==>
        1 <= batchSize <= 1000 && Cut(batches, Selected(old(rows), selects), batchSize)
    {
      batchSize, batches := 0, [];
      ghost var ids := Selected(rows, selects);
      var total := estimate;
      if total == 0 {
        total := |Selected(rows, selects)|;
        if total == 0 {
          return;
        }
      }
      batchSize := BatchSize(total);
      if Selected(rows, selects) == {} {
        return;
      }
      var startId := Min(Selected(rows, selects));
      PassStarts(rows, selects, assign, batchSize);
      while true
        invariant PassAt(old(rows), rows, selects, assign, batches, batchSize, startId)
        decreases From(ids, startId)
      {
        NextBatch(old(rows), rows, selects, assign, batches, batchSize, startId);
        var stopRow := Entry(From(Selected(rows, selects), startId), batchSize);
        var batch := Batch(Selected(rows, selects), startId, stopRow);
        rows := Updated(rows, batch, assign);
        batches := batches + [batch];
        if stopRow.None? {
          break;
        }
        startId := stopRow.value;
      }
    }
  }
}
