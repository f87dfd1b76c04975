/** Any number of workers running `add_status` and `remove_status` against the same
    table, with version-checked writes and a retry when the row read is stale. */
module ConversationWorkers {
  import opened Wrappers
  import opened Conversations

  /** A worker first reads its row, then sends the write it planned. */
  datatype Worker<Key> =
    | Reading(op: Op<Key>)
    | Writing(op: Op<Key>, seen: Option<Row>)
    | Finished(op: Op<Key>)
    | Failed(op: Op<Key>)

  datatype Entry<Key> = Entry(worker: nat, op: Op<Key>)

  /** `history` lists the operations in the order in which they took effect. */
  datatype System<Key> = System(db: Table<Key>, workers: map<nat, Worker<Key>>, history: seq<Entry<Key>>)

  // ---- Steps ----

  ghost predicate Start<Key(!new)>(s: System<Key>, t: System<Key>) {
    exists w: nat, op :: w !in s.workers && t == s.(workers := s.workers[w := Reading(op)])
  }

  /** The read.  When nothing is left to write the operation is over. */
  ghost predicate Read<Key(!new)>(s: System<Key>, t: System<Key>, w: nat) {
    && w in s.workers && s.workers[w].Reading?
    && var op := s.workers[w].op;
       var seen := Lookup(s.db, op.key);
       if Plan(op, seen) == Nothing then
         t == s.(workers := s.workers[w := Finished(op)], history := s.history + [Entry(w, op)])
       else
         t == s.(workers := s.workers[w := Writing(op, seen)])
  }

  /** The write: it is saved, or found stale and tried again, or refused by the unique
      index and raised to the caller. */
  ghost predicate Write<Key(!new)>(s: System<Key>, t: System<Key>, w: nat) {
    && w in s.workers && s.workers[w].Writing?
    && var Writing(op, seen) := s.workers[w];
       var (db, outcome) := Execute(s.db, op.key, Plan(op, seen));
       match outcome
       case Saved =>
         t == System(db, s.workers[w := Finished(op)], s.history + [Entry(w, op)])
       case StaleObject =>
         t == s.(workers := s.workers[w := Reading(op)])
       case RecordNotUnique =>
         t == s.(workers := s.workers[w := Failed(op)])
  }

  ghost predicate Step<Key(!new)>(s: System<Key>, t: System<Key>) {
    Start(s, t) || exists w: nat :: Read(s, t, w) || Write(s, t, w)
  }

  ghost predicate Interleaving<Key(!new)>(run: seq<System<Key>>) {
    && run != [] && run[0] == System(Table(map[], 0), map[], [])
    && forall k | 0 <= k < |run| - 1 :: Step(run[k], run[k + 1])
  }

  // ---- The sequential reading ----

  /** The operations of the history, one at a time. */
  function Replay<Key>(history: seq<Entry<Key>>): Inbox<Key> {
    if history == [] then map[]
    else Apply(Replay(history[..|history| - 1]), history[|history| - 1].op)
  }

  function CountOf<Key>(history: seq<Entry<Key>>, w: nat): nat {
    if history == [] then 0
    else CountOf(history[..|history| - 1], w) + if history[|history| - 1].worker == w then 1 else 0
  }

  // ---- The invariant ----

  /** What a worker has read is still what is stored as long as key and version match. */
  ghost predicate SeenInv<Key(!new)>(db: Table<Key>, key: Key, seen: Option<Row>) {
    seen.Some? ==>
      && seen.value.pk < db.nextPk
      && (key in db.rows && db.rows[key].pk == seen.value.pk ==>
           && seen.value.lockVersion <= db.rows[key].lockVersion
           && (seen.value.lockVersion == db.rows[key].lockVersion ==> db.rows[key] == seen.value))
  }

  ghost predicate WorkerInv<Key(!new)>(s: System<Key>, w: nat, worker: Worker<Key>) {
    && (worker.Writing? ==> SeenInv(s.db, worker.op.key, worker.seen) && Plan(worker.op, worker.seen) != Nothing)
    && (worker.Failed? ==> worker.op.AddStatus?)
    && CountOf(s.history, w) == (if worker.Finished? then 1 else 0)
  }

  ghost predicate Inv<Key(!new)>(s: System<Key>) {
    && TableInv(s.db)
    && Abstract(s.db) == Replay(s.history)
    && (forall w | w in s.workers :: WorkerInv(s, w, s.workers[w]))
    && (forall i | 0 <= i < |s.history| ::
         s.history[i].worker in s.workers && s.workers[s.history[i].worker] == Finished(s.history[i].op))
  }

  lemma StartKeepsInv<Key(!new)>(s: System<Key>, t: System<Key>)
    requires Inv(s) && Start(s, t)
    ensures Inv(t)
  {
    var w: nat, op :| w !in s.workers && t == s.(workers := s.workers[w := Reading(op)]);
    NotInHistory(s.history, w);
  }

  lemma {:induction false} NotInHistory<Key>(history: seq<Entry<Key>>, w: nat)
    requires forall i | 0 <= i < |history| :: history[i].worker != w
    ensures CountOf(history, w) == 0
  {
    if history != [] {
      NotInHistory(history[..|history| - 1], w);
    }
  }

  lemma ReadKeepsInv<Key(!new)>(s: System<Key>, t: System<Key>, w: nat)
    requires Inv(s) && Read(s, t, w)
    ensures Inv(t)
  {
    var op := s.workers[w].op;
    assert WorkerInv(s, w, s.workers[w]);
    if Plan(op, Lookup(s.db, op.key)) == Nothing {
      SavedWriteApplies(s.db, op);
      Recorded(s, t, w, op);
    }
  }

  /** A step that ends an operation adds it to the history and to nothing else. */
  lemma Recorded<Key(!new)>(s: System<Key>, t: System<Key>, w: nat, op: Op<Key>)
    requires Inv(s) && w in s.workers && s.workers[w].op == op && !s.workers[w].Finished?
    requires t.workers == s.workers[w := Finished(op)] && t.history == s.history + [Entry(w, op)]
    requires forall k, seen | SeenInv(s.db, k, seen) :: SeenInv(t.db, k, seen)
    ensures Replay(t.history) == Apply(Replay(s.history), op)
    ensures forall v | v in t.workers :: WorkerInv(t, v, t.workers[v])
    ensures forall i | 0 <= i < |t.history| ::
      t.history[i].worker in t.workers && t.workers[t.history[i].worker] == Finished(t.history[i].op)
  {
    assert t.history[..|t.history| - 1] == s.history;
    forall v | v in t.workers ensures WorkerInv(t, v, t.workers[v]) {
      assert WorkerInv(s, v, s.workers[v]);
    }
  }

  /** A saved write moves the version of its row up, so whoever read an older version
      cannot mistake the new row for it. */
  lemma WriteKeepsSeen<Key(!new)>(db: Table<Key>, key: Key, write: Write, k: Key, seen: Option<Row>)
    requires TableInv(db) && SeenInv(db, k, seen) && write != Nothing
    ensures SeenInv(Execute(db, key, write).0, k, seen)
  {
  }

  lemma WriteKeepsInv<Key(!new)>(s: System<Key>, t: System<Key>, w: nat)
    requires Inv(s) && Write(s, t, w)
    ensures Inv(t)
  {
    var Writing(op, seen) := s.workers[w];
    var plan := Plan(op, seen);
    assert WorkerInv(s, w, s.workers[w]);
    var (db, outcome) := Execute(s.db, op.key, plan);
    if outcome == Saved {
      assert seen == Lookup(s.db, op.key);
      SavedWriteApplies(s.db, op);
      forall k, old' | SeenInv(s.db, k, old') ensures SeenInv(t.db, k, old') {
        WriteKeepsSeen(s.db, op.key, plan, k, old');
      }
      Recorded(s, t, w, op);
    } else {
      forall v | v in t.workers ensures WorkerInv(t, v, t.workers[v]) {
        assert WorkerInv(s, v, s.workers[v]);
      }
    }
  }

  lemma {:induction false} RunKeepsInv<Key(!new)>(run: seq<System<Key>>, k: nat)
    requires Interleaving(run) && k < |run|
    ensures Inv(run[k])
  {
    if k > 0 {
      RunKeepsInv(run, k - 1);
      var s, t := run[k - 1], run[k];
      assert Step(run[k - 1], run[k - 1 + 1]);
      if Start(s, t) {
        StartKeepsInv(s, t);
      } else {
        var w: nat :| Read(s, t, w) || Write(s, t, w);
        if Read(s, t, w) {
          ReadKeepsInv(s, t, w);
        } else {
          WriteKeepsInv(s, t, w);
        }
      }
    }
  }

  /** Main result: at every moment of every interleaving the table is what the finished
      operations make of an empty one, taken one at a time in the order in which they
      took effect; every row has its status ids in order, each once, at least one, and
      the greatest as its last status; and an operation took effect exactly once if it
      finished and not at all if it did not. */
  lemma WorkersAreLinearizable<Key(!new)>(run: seq<System<Key>>, k: nat)
    requires Interleaving(run) && k < |run|
    ensures Abstract(run[k].db) == Replay(run[k].history)
    ensures forall key | key in run[k].db.rows :: RowInv(run[k].db.rows[key])
    ensures forall w | w in run[k].workers ::
      CountOf(run[k].history, w) == (if run[k].workers[w].Finished? then 1 else 0)
    ensures forall i | 0 <= i < |run[k].history| ::
      run[k].history[i].worker in run[k].workers &&
      run[k].workers[run[k].history[i].worker] == Finished(run[k].history[i].op)
  {
    RunKeepsInv(run, k);
    forall w | w in run[k].workers
      ensures CountOf(run[k].history, w) == (if run[k].workers[w].Finished? then 1 else 0)
    {
      assert WorkerInv(run[k], w, run[k].workers[w]);
    }
  }

  /** The history only grows, so the order of two operations one of which finished
      before the other started is the real one. */
  lemma {:induction false} HistoryGrows<Key(!new)>(run: seq<System<Key>>, j: nat, k: nat)
    requires Interleaving(run) && j <= k < |run|
    ensures run[j].history <= run[k].history
    decreases k - j
  {
    if j < k {
      HistoryGrows(run, j, k - 1);
      assert Step(run[k - 1], run[k - 1 + 1]);
    }
  }

  /** A worker fails exactly when it is about to create a row that somebody else has
      created since it looked; the table keeps the other row untouched. */
  lemma OnlyLostCreationFails<Key(!new)>(run: seq<System<Key>>, k: nat, w: nat)
    requires Interleaving(run) && k + 1 < |run| && Write(run[k], run[k + 1], w)
    ensures var Writing(op, seen) := run[k].workers[w];
      run[k + 1].workers[w].Failed? <==> seen == None && op.key in run[k].db.rows
    ensures run[k + 1].workers[w].Failed? ==>
      run[k].workers[w].op.AddStatus? && run[k + 1].db == run[k].db && run[k + 1].history == run[k].history
  {
    RunKeepsInv(run, k);
    assert WorkerInv(run[k], w, run[k].workers[w]);
  }
}
