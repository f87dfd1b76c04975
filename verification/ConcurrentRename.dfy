/** `rename_column_concurrently`: the copy of a column is kept by a trigger and filled in
    by batches while writers go on inserting, updating and deleting rows. */
module ConcurrentRename {
  import opened Wrappers
  import opened ColumnBatches
  import opened ConcurrentBackfill

  datatype Row<V> = Row(oldColumn: V, newColumn: V)

  /** The trigger is in place from `Copying` on. */
  datatype Stage = NoColumn | ColumnAdded | Copying(phase: Phase)

  datatype System<V> = System(rows: Rows<Row<V>>, stage: Stage)

  function CopyOld<V>(row: Row<V>): Row<V> {
    row.(newColumn := row.oldColumn)
  }

  predicate InSync<V(==)>(row: Row<V>) {
    row.newColumn == row.oldColumn
  }

  /** What is stored of a row that is inserted or updated: the BEFORE INSERT OR UPDATE
      trigger copies the column. */
  function Stored<V>(stage: Stage, row: Row<V>): Row<V> {
    if stage.Copying? then CopyOld(row) else row
  }

  // ---- Steps ----

  /** A writer inserts a row, writes both columns of one, or deletes one. */
  ghost predicate WriterStep<V(!new)>(s: System<V>, t: System<V>) {
    && t.stage == s.stage
    && exists i, row ::
         || (i !in s.rows && t.rows == s.rows[i := Stored(s.stage, row)])
         || (i in s.rows && t.rows == s.rows[i := Stored(s.stage, row)])
         || (i in s.rows && t.rows == s.rows - {i})
  }

  ghost predicate MigrationStep<V(!new)>(s: System<V>, t: System<V>) {
    match s.stage
    case NoColumn =>
      // The column comes with NULLs or whatever the database puts there.
      && t.stage == ColumnAdded
      && t.rows.Keys == s.rows.Keys && forall i | i in s.rows :: t.rows[i].oldColumn == s.rows[i].oldColumn
    case ColumnAdded =>
      t == s.(stage := Copying(Started))
    case Copying(phase) =>
      t.stage.Copying? &&
      BackfillStep(s.rows, phase, t.rows, t.stage.phase, row => Stored(s.stage, CopyOld(row)))
  }

  /** A migration that was interrupted anywhere is run again: it drops the trigger and
      the column and starts over. */
  ghost predicate RerunStep<V(!new)>(s: System<V>, t: System<V>) {
    t == s.(stage := NoColumn)
  }

  ghost predicate Step<V(!new)>(s: System<V>, t: System<V>) {
    WriterStep(s, t) || MigrationStep(s, t) || RerunStep(s, t)
  }

  ghost predicate Interleaving<V(!new)>(run: seq<System<V>>) {
    && run != [] && run[0].stage == NoColumn
    && forall k | 0 <= k < |run| - 1 :: Step(run[k], run[k + 1])
  }

  // ---- The invariant ----

  ghost predicate Inv<V(!new)>(s: System<V>) {
    s.stage.Copying? ==> BackfillInv(s.rows, s.stage.phase, row => InSync(row))
  }

  lemma StepKeepsInv<V(!new)>(s: System<V>, t: System<V>)
    requires Inv(s) && Step(s, t)
    ensures Inv(t)
  {
    var good := (row: Row<V>) => InSync(row);
    if WriterStep(s, t) {
      if s.stage.Copying? {
        WriterKeepsBackfill(s.rows, t.rows, s.stage.phase, good);
      }
    } else if MigrationStep(s, t) && s.stage.Copying? {
      StepKeepsBackfill(s.rows, s.stage.phase, t.rows, t.stage.phase, row => Stored(s.stage, CopyOld(row)), good);
    }
  }

  lemma {:induction false} RunKeepsInv<V(!new)>(run: seq<System<V>>, k: nat)
    requires Interleaving(run) && k < |run|
    ensures Inv(run[k])
  {
    if k > 0 {
      RunKeepsInv(run, k - 1);
      assert Step(run[k - 1], run[k - 1 + 1]);
      StepKeepsInv(run[k - 1], run[k]);
    }
  }

  // ---- The values are those of the old column ----

  ghost predicate SameOldColumn<V(!new)>(s: System<V>, t: System<V>) {
    s.rows.Keys == t.rows.Keys && forall i | i in s.rows :: t.rows[i].oldColumn == s.rows[i].oldColumn
  }

  /** The migration never changes the old column, and a writer has in it what it wrote. */
  lemma MigrationKeepsOldColumn<V(!new)>(s: System<V>, t: System<V>)
    requires MigrationStep(s, t) || RerunStep(s, t)
    ensures SameOldColumn(s, t)
    ensures forall stage, row: Row<V> :: Stored(stage, row).oldColumn == row.oldColumn
  {
  }

  lemma {:induction false} OldColumnStays<V(!new)>(run: seq<System<V>>, k: nat)
    requires k < |run|
    requires forall j | 0 <= j < |run| - 1 :: MigrationStep(run[j], run[j + 1]) || RerunStep(run[j], run[j + 1])
    ensures SameOldColumn(run[0], run[k])
  {
    if k > 0 {
      OldColumnStays(run, k - 1);
      assert MigrationStep(run[k - 1], run[k - 1 + 1]) || RerunStep(run[k - 1], run[k - 1 + 1]);
      MigrationKeepsOldColumn(run[k - 1], run[k]);
    }
  }

  /** Main result on values: when nobody writes, the new column ends up with what the old
      one had at the start, in every row, and so does the old one. */
  lemma CopiesTheOldColumn<V(!new)>(run: seq<System<V>>, k: nat)
    requires run != [] && run[0].stage == NoColumn && k < |run| && run[k].stage == Copying(Done)
    requires forall j | 0 <= j < |run| - 1 :: MigrationStep(run[j], run[j + 1]) || RerunStep(run[j], run[j + 1])
    ensures run[k].rows.Keys == run[0].rows.Keys
    ensures forall i | i in run[0].rows ::
      run[k].rows[i] == Row(run[0].rows[i].oldColumn, run[0].rows[i].oldColumn)
  {
    OldColumnStays(run, k);
    assert Interleaving(run);
    CopyIsComplete(run, k);
  }

  /** Main result: in every interleaving, once the copying has finished the two columns
      are equal in every row, and stay so however the writers go on. */
  lemma CopyIsComplete<V(!new)>(run: seq<System<V>>, k: nat)
    requires Interleaving(run) && k < |run| && run[k].stage == Copying(Done)
    ensures forall i | i in run[k].rows :: run[k].rows[i].newColumn == run[k].rows[i].oldColumn
  {
    RunKeepsInv(run, k);
  }

  /** So `change_column_null` finds no NULL in the new column when there is none in the
      old one. */
  lemma NoNullAfterCopy<V(!new)>(run: seq<System<Option<V>>>, k: nat)
    requires Interleaving(run) && k < |run| && run[k].stage == Copying(Done)
    requires forall i | i in run[k].rows :: run[k].rows[i].oldColumn != None
    ensures forall i | i in run[k].rows :: run[k].rows[i].newColumn != None
  {
    CopyIsComplete(run, k);
  }
}
