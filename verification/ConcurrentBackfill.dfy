/** `update_column_in_batches` on a table that other sessions go on writing to: every
    query and every UPDATE is a step of its own, and anything may happen in between. */
module ConcurrentBackfill {
  import opened Wrappers
  import opened SortedSets
  import opened ColumnBatches

  /** Where the pass is.  `Stopped` is between the query for the stop row and the UPDATE
      of the batch before it. */
  datatype Phase =
    | Started
    | EmptyEstimate
    | Sized(total: nat)
    | Looping(size: nat, start: int)
    | Stopped(size: nat, start: int, stop: Option<int>)
    | Done

  function AfterEstimate(estimate: nat): Phase {
    if estimate == 0 then EmptyEstimate else Sized(estimate)
  }

  /** One step of the pass, without a block. */
  ghost predicate BackfillStep<Row(!new)>(rows: Rows<Row>, phase: Phase, rows': Rows<Row>, phase': Phase, assign: Row -> Row) {
    match phase
    case Started =>
      rows' == rows && exists estimate: nat :: phase' == AfterEstimate(estimate)
    case EmptyEstimate =>
      rows' == rows && phase' == if |rows| == 0 then Done else Sized(|rows|)
    case Sized(total) =>
      && total > 0 && rows' == rows
      && phase' == if rows == map[] then Done else Looping(BatchSize(total), Min(rows.Keys))
    case Looping(size, start) =>
      rows' == rows && phase' == Stopped(size, start, Entry(From(rows.Keys, start), size))
    case Stopped(size, start, stop) =>
      && rows' == Updated(rows, Batch(rows.Keys, start, stop), assign)
      && phase' == if stop.Some? then Looping(size, stop.value) else Done
    case Done =>
      false
  }

  /** Writers may do anything but bring a bad row in or turn a good one bad. */
  ghost predicate NeverSpoils<Row(!new)>(rows: Rows<Row>, rows': Rows<Row>, good: Row -> bool) {
    forall i | i in rows' && !good(rows'[i]) :: i in rows && !good(rows[i])
  }

  ghost predicate GoodBelow<Row(!new)>(rows: Rows<Row>, start: int, good: Row -> bool) {
    forall i | i in rows && i < start :: good(rows[i])
  }

  ghost predicate AllGood<Row(!new)>(rows: Rows<Row>, good: Row -> bool) {
    forall i | i in rows :: good(rows[i])
  }

  ghost predicate BackfillInv<Row(!new)>(rows: Rows<Row>, phase: Phase, good: Row -> bool) {
    match phase
    case Sized(total) => total > 0
    case Looping(size, start) => size > 0 && GoodBelow(rows, start, good)
    case Stopped(size, start, stop) =>
      size > 0 && GoodBelow(rows, start, good) && (stop.Some? ==> start < stop.value)
    case Done => AllGood(rows, good)
    case _ => true
  }

  lemma WriterKeepsBackfill<Row(!new)>(rows: Rows<Row>, rows': Rows<Row>, phase: Phase, good: Row -> bool)
    requires BackfillInv(rows, phase, good) && NeverSpoils(rows, rows', good)
    ensures BackfillInv(rows', phase, good)
  {
  }

  lemma StopIsAhead(ids: set<int>, start: int, size: nat)
    requires size > 0
    ensures var stop := Entry(From(ids, start), size); stop.Some? ==> start < stop.value
  {
    BatchSplits(ids, start, size);
  }

  /** Every step keeps the rows below the cursor good, and every completed batch moves
      the cursor up. */
  lemma StepKeepsBackfill<Row(!new)>(rows: Rows<Row>, phase: Phase, rows': Rows<Row>, phase': Phase,
                                     assign: Row -> Row, good: Row -> bool)
    requires BackfillInv(rows, phase, good) && BackfillStep(rows, phase, rows', phase', assign)
    requires forall row :: good(assign(row))
    ensures BackfillInv(rows', phase', good)
    ensures phase.Stopped? && phase'.Looping? ==> phase'.start > phase.start
  {
    match phase {
      case Looping(size, start) => StopIsAhead(rows.Keys, start, size);
      case _ =>
    }
  }

  // ---- With nobody in between ----

  /** The pass and what it has made of the table. */
  datatype Point<Row> = Point(rows: Rows<Row>, phase: Phase)

  /** A run of the pass alone. */
  ghost predicate Undisturbed<Row(!new)>(run: seq<Point<Row>>, assign: Row -> Row) {
    && run != []
    && forall k | 0 <= k < |run| - 1 ::
         BackfillStep(run[k].rows, run[k].phase, run[k + 1].rows, run[k + 1].phase, assign)
  }

  /** What a pass alone that started on `rows` has done so far. */
  ghost predicate Alone<Row(!new)>(rows: Rows<Row>, p: Point<Row>, assign: Row -> Row) {
    match p.phase
    case Sized(total) => total > 0 && p.rows == rows
    case Looping(size, start) =>
      size > 0 && UpdatedBelow(rows, p.rows, rows.Keys, start, assign)
    case Stopped(size, start, stop) =>
      size > 0 && UpdatedBelow(rows, p.rows, rows.Keys, start, assign) && stop == Entry(From(rows.Keys, start), size)
    case Done => p.rows == Updated(rows, rows.Keys, assign)
    case _ => p.rows == rows
  }

  lemma AloneStep<Row(!new)>(rows: Rows<Row>, p: Point<Row>, p': Point<Row>, assign: Row -> Row)
    requires Alone(rows, p, assign) && BackfillStep(p.rows, p.phase, p'.rows, p'.phase, assign)
    ensures Alone(rows, p', assign)
  {
    match p.phase {
      case Sized(total) =>
        if rows != map[] {
          assert From(rows.Keys, Min(rows.Keys)) == rows.Keys && rows.Keys - rows.Keys == {};
          assert Updated(rows, {}, assign) == rows;
        }
      case Stopped(size, start, stop) =>
        StopIsAhead(rows.Keys, start, size);
        assert p.rows.Keys == rows.Keys;
        NextUpdated(rows, p.rows, rows.Keys, start, stop, assign);
      case _ =>
        assert p.rows.Keys == rows.Keys;
    }
  }

  lemma {:induction false} UndisturbedStaysAlone<Row(!new)>(run: seq<Point<Row>>, assign: Row -> Row, k: nat)
    requires Undisturbed(run, assign) && run[0].phase == Started && k < |run|
    ensures Alone(run[0].rows, run[k], assign)
  {
    if k > 0 {
      UndisturbedStaysAlone(run, assign, k - 1);
      assert BackfillStep(run[k - 1].rows, run[k - 1].phase, run[k - 1 + 1].rows, run[k - 1 + 1].phase, assign);
      AloneStep(run[0].rows, run[k - 1], run[k], assign);
    }
  }

  lemma RunCons<Row(!new)>(p: Point<Row>, run: seq<Point<Row>>, assign: Row -> Row)
    requires Undisturbed(run, assign) && BackfillStep(p.rows, p.phase, run[0].rows, run[0].phase, assign)
    ensures Undisturbed([p] + run, assign)
  {
    var longer := [p] + run;
    forall k | 0 <= k < |longer| - 1
      ensures BackfillStep(longer[k].rows, longer[k].phase, longer[k + 1].rows, longer[k + 1].phase, assign)
    {
      if k > 0 {
        assert longer[k] == run[k - 1] && longer[k + 1] == run[k - 1 + 1];
      }
    }
  }

  /** From any batch on the pass gets to its end. */
  lemma {:induction false} LoopFinishes<Row(!new)>(rows: Rows<Row>, assign: Row -> Row, size: nat, start: int)
    returns (run: seq<Point<Row>>)
    requires size > 0
    ensures Undisturbed(run, assign) && run[0] == Point(rows, Looping(size, start)) && run[|run| - 1].phase == Done
    decreases |From(rows.Keys, start)|
  {
    var stop := Entry(From(rows.Keys, start), size);
    var after := Updated(rows, Batch(rows.Keys, start, stop), assign);
    BatchSplits(rows.Keys, start, size);
    if stop.Some? {
      assert after.Keys == rows.Keys;
      run := LoopFinishes(after, assign, size, stop.value);
    } else {
      run := [Point(after, Done)];
    }
    RunCons(Point(rows, Stopped(size, start, stop)), run, assign);
    run := [Point(rows, Stopped(size, start, stop))] + run;
    RunCons(Point(rows, Looping(size, start)), run, assign);
    run := [Point(rows, Looping(size, start))] + run;
  }

  /** A run of the pass alone from its start on `rows` to its end. */
  ghost predicate WholePass<Row(!new)>(run: seq<Point<Row>>, rows: Rows<Row>, assign: Row -> Row) {
    Undisturbed(run, assign) && run[0] == Point(rows, Started) && run[|run| - 1].phase == Done
  }

  /** From any estimate on the pass gets to its end. */
  lemma PassFinishes<Row(!new)>(rows: Rows<Row>, assign: Row -> Row, estimate: nat) returns (run: seq<Point<Row>>)
    ensures WholePass(run, rows, assign)
  {
    var total := if estimate == 0 then |rows| else estimate;
    run := [Point(rows, Done)];
    if rows != map[] {
      run := LoopFinishes(rows, assign, BatchSize(total), Min(rows.Keys));
    }
    if total > 0 {
      RunCons(Point(rows, Sized(total)), run, assign);
      run := [Point(rows, Sized(total))] + run;
    }
    if estimate == 0 {
      RunCons(Point(rows, EmptyEstimate), run, assign);
      run := [Point(rows, EmptyEstimate)] + run;
    }
    assert run[0].phase == AfterEstimate(estimate);
    RunCons(Point(rows, Started), run, assign);
    run := [Point(rows, Started)] + run;
  }

  /** Main result: with nobody in between the pass can always get to its end, and whenever
      it does it has left what `UpdateColumnInBatches` leaves when the block lets every
      row through. */
  lemma UndisturbedPassIsExact<Row(!new)>(rows: Rows<Row>, assign: Row -> Row)
    ensures exists run: seq<Point<Row>> :: WholePass(run, rows, assign)
    ensures forall run: seq<Point<Row>> | WholePass(run, rows, assign) ::
      run[|run| - 1].rows == Updated(rows, Selected(rows, row => true), assign)
  {
    var some := PassFinishes(rows, assign, 0);
    forall run: seq<Point<Row>> | WholePass(run, rows, assign)
      ensures run[|run| - 1].rows == Updated(rows, Selected(rows, row => true), assign)
    {
      UndisturbedStaysAlone(run, assign, |run| - 1);
      assert Selected(rows, row => true) == rows.Keys;
    }
  }
}
