/** `add_column_with_default` without a block: a nullable column whose default is set
    before the existing rows are filled in by batches, while writers go on. */
module ConcurrentDefault {
  import opened Wrappers
  import opened ColumnBatches
  import opened ConcurrentBackfill

  /** The new column, NULL or a value, and the rest of the row.  `nulled` is not in the
      table: it tells that the last to set the column was a writer who set it to NULL. */
  datatype Row<V, Rest> = Row(column: Option<V>, rest: Rest, nulled: bool)

  /** Column and default come in one transaction. */
  datatype Stage = NoColumn | Filling(phase: Phase)

  datatype System<V, Rest> = System(rows: Rows<Row<V, Rest>>, stage: Stage)

  predicate FilledOrNulled<V, Rest>(row: Row<V, Rest>) {
    row.column.Some? || row.nulled
  }

  function WithColumn<V, Rest>(row: Row<V, Rest>, value: V): Row<V, Rest> {
    row.(column := Some(value), nulled := false)
  }

  // ---- Steps ----

  /** Writers insert without the column, which stores the default once there is one, or
      with a value or NULL; update other columns; give the column a value or NULL; or
      delete. */
  datatype Write<V, Rest> =
    | Insert(id: int, rest: Rest)
    | InsertWith(id: int, rest: Rest, value: Option<V>)
    | UpdateRest(id: int, rest: Rest)
    | UpdateColumn(id: int, value: Option<V>)
    | Delete(id: int)

  predicate WritesNull<V, Rest>(w: Write<V, Rest>) {
    (w.InsertWith? || w.UpdateColumn?) && w.value.None?
  }

  ghost predicate Allowed<V(!new), Rest(!new)>(s: System<V, Rest>, w: Write<V, Rest>) {
    && (w.Insert? || w.InsertWith? <==> w.id !in s.rows)
    && (w.InsertWith? || w.UpdateColumn? ==> s.stage.Filling?)
  }

  function Written<V, Rest>(s: System<V, Rest>, w: Write<V, Rest>, default: V): Rows<Row<V, Rest>> {
    match w
    case Insert(i, rest) => s.rows[i := Row(if s.stage.NoColumn? then None else Some(default), rest, false)]
    case InsertWith(i, rest, value) => s.rows[i := Row(value, rest, value.None?)]
    case UpdateRest(i, rest) => if i in s.rows then s.rows[i := s.rows[i].(rest := rest)] else s.rows
    case UpdateColumn(i, value) =>
      if i in s.rows then s.rows[i := s.rows[i].(column := value, nulled := value.None?)] else s.rows
    case Delete(i) => s.rows - {i}
  }

  /** A write touches one row.  A row inserted without the column has the default once
      there is one; otherwise the column is what the writer gives it, and the rest too. */
  lemma WrittenMeans<V(!new), Rest(!new)>(s: System<V, Rest>, w: Write<V, Rest>, default: V)
    requires Allowed(s, w)
    ensures var rows := Written(s, w, default);
      && (forall j | j != w.id :: (j in rows <==> j in s.rows) && (j in s.rows ==> rows[j] == s.rows[j]))
      && (w.id in rows <==> w.Insert? || w.InsertWith? || (w.id in s.rows && !w.Delete?))
      && (w.id in rows && (w.InsertWith? || w.UpdateColumn?) ==> rows[w.id].column == w.value)
      && (w.Insert? ==> rows[w.id].column == if s.stage.Filling? then Some(default) else None)
      && (w.id in rows && w.UpdateRest? ==> rows[w.id].column == s.rows[w.id].column)
      && (w.id in rows && (w.Insert? || w.InsertWith? || w.UpdateRest?) ==> rows[w.id].rest == w.rest)
      && (w.id in rows && w.UpdateColumn? ==> rows[w.id].rest == s.rows[w.id].rest)
  {
  }

  /** `nulls` tells whether writers may store NULL. */
  ghost predicate WriterStep<V(!new), Rest(!new)>(s: System<V, Rest>, t: System<V, Rest>, default: V, nulls: bool) {
    exists w :: Allowed(s, w) && (WritesNull(w) ==> nulls) && t == s.(rows := Written(s, w, default))
  }

  ghost predicate MigrationStep<V(!new), Rest(!new)>(s: System<V, Rest>, t: System<V, Rest>, default: V) {
    match s.stage
    case NoColumn => t == s.(stage := Filling(Started))
    case Filling(phase) =>
      t.stage.Filling? &&
      BackfillStep(s.rows, phase, t.rows, t.stage.phase, row => WithColumn(row, default))
  }

  /** Any exception takes the column away again. */
  ghost predicate RescueStep<V(!new), Rest(!new)>(s: System<V, Rest>, t: System<V, Rest>) {
    && t.stage == NoColumn && t.rows.Keys == s.rows.Keys
    && forall i | i in s.rows :: t.rows[i] == s.rows[i].(column := None, nulled := false)
  }

  ghost predicate Step<V(!new), Rest(!new)>(s: System<V, Rest>, t: System<V, Rest>, default: V, nulls: bool) {
    WriterStep(s, t, default, nulls) || MigrationStep(s, t, default) || RescueStep(s, t)
  }

  ghost predicate NoneNulled<V(!new), Rest(!new)>(s: System<V, Rest>) {
    forall i | i in s.rows :: !s.rows[i].nulled
  }

  ghost predicate Interleaving<V(!new), Rest(!new)>(run: seq<System<V, Rest>>, default: V, nulls: bool) {
    && run != [] && run[0].stage == NoColumn && NoneNulled(run[0])
    && forall k | 0 <= k < |run| - 1 :: Step(run[k], run[k + 1], default, nulls)
  }

  ghost predicate Inv<V(!new), Rest(!new)>(s: System<V, Rest>, nulls: bool) {
    && (s.stage.Filling? ==> BackfillInv(s.rows, s.stage.phase, row => FilledOrNulled(row)))
    && (forall i | i in s.rows && s.rows[i].nulled :: nulls && s.rows[i].column.None?)
  }

  lemma StepKeepsInv<V(!new), Rest(!new)>(s: System<V, Rest>, t: System<V, Rest>, default: V, nulls: bool)
    requires Inv(s, nulls) && Step(s, t, default, nulls)
    ensures Inv(t, nulls)
  {
    var good := (row: Row<V, Rest>) => FilledOrNulled(row);
    if WriterStep(s, t, default, nulls) {
      if s.stage.Filling? {
        WriterKeepsBackfill(s.rows, t.rows, s.stage.phase, good);
      }
    } else if MigrationStep(s, t, default) && s.stage.Filling? {
      StepKeepsBackfill(s.rows, s.stage.phase, t.rows, t.stage.phase, row => WithColumn(row, default), good);
    }
  }

  lemma {:induction false} RunKeepsInv<V(!new), Rest(!new)>(run: seq<System<V, Rest>>, default: V, nulls: bool, k: nat)
    requires Interleaving(run, default, nulls) && k < |run|
    ensures Inv(run[k], nulls)
  {
    if k > 0 {
      RunKeepsInv(run, default, nulls, k - 1);
      assert Step(run[k - 1], run[k - 1 + 1], default, nulls);
      StepKeepsInv(run[k - 1], run[k], default, nulls);
    }
  }

  /** Main result: when the filling has finished a row has NULL in the column if and only
      if the last to set it was a writer who set it to NULL; so the NOT NULL constraint
      can be set if writers never do that. */
  lemma NoNullAfterFilling<V(!new), Rest(!new)>(run: seq<System<V, Rest>>, default: V, nulls: bool, k: nat)
    requires Interleaving(run, default, nulls) && k < |run| && run[k].stage == Filling(Done)
    ensures forall i | i in run[k].rows :: run[k].rows[i].column.None? <==> run[k].rows[i].nulled
    ensures !nulls ==> forall i | i in run[k].rows :: run[k].rows[i].column.Some?
  {
    RunKeepsInv(run, default, nulls, k);
  }

  // ---- With nobody in between ----

  ghost predicate SameRest<V(!new), Rest(!new)>(s: System<V, Rest>, t: System<V, Rest>) {
    s.rows.Keys == t.rows.Keys && forall i | i in s.rows :: t.rows[i].rest == s.rows[i].rest
  }

  ghost predicate DefaultInv<V(!new), Rest(!new)>(s: System<V, Rest>, default: V) {
    s.stage.Filling? ==> BackfillInv(s.rows, s.stage.phase, (row: Row<V, Rest>) => row.column == Some(default))
  }

  lemma {:induction false} FillingKeepsDefaults<V(!new), Rest(!new)>(run: seq<System<V, Rest>>, default: V, k: nat)
    requires k < |run| && run[0].stage == NoColumn
    requires forall j | 0 <= j < |run| - 1 :: MigrationStep(run[j], run[j + 1], default)
    ensures SameRest(run[0], run[k]) && DefaultInv(run[k], default)
  {
    if k > 0 {
      FillingKeepsDefaults(run, default, k - 1);
      assert MigrationStep(run[k - 1], run[k - 1 + 1], default);
      var s, t := run[k - 1], run[k];
      if s.stage.Filling? {
        StepKeepsBackfill(s.rows, s.stage.phase, t.rows, t.stage.phase, row => WithColumn(row, default),
                          (row: Row<V, Rest>) => row.column == Some(default));
      }
    }
  }

  /** When nobody writes, every row ends up with the default in the new column and with
      everything else as it was. */
  lemma FillsInTheDefault<V(!new), Rest(!new)>(run: seq<System<V, Rest>>, default: V, k: nat)
    requires k < |run| && run[0].stage == NoColumn && run[k].stage == Filling(Done)
    requires forall j | 0 <= j < |run| - 1 :: MigrationStep(run[j], run[j + 1], default)
    ensures run[k].rows.Keys == run[0].rows.Keys
    ensures forall i | i in run[0].rows ::
      run[k].rows[i].column == Some(default) && run[k].rows[i].rest == run[0].rows[i].rest
  {
    FillingKeepsDefaults(run, default, k);
  }
}
