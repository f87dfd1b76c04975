/** The rows of account_conversations: what adding and removing a status plans to write,
    what the database makes of it under optimistic locking, and the same operations in
    the abstract. */
module Conversations {
  import opened Wrappers
  import opened SortedSets
  import opened Lists

  /** `statusIds` as stored, `lastStatusId` its last entry.  A row that was destroyed and
      created again has a new primary key. */
  datatype Row = Row(pk: nat, lockVersion: nat, statusIds: seq<int>, lastStatusId: Option<int>, unread: bool)

  /** The table, by the unique index on account, conversation and participants. */
  datatype Table<Key> = Table(rows: map<Key, Row>, nextPk: nat)

  datatype Op<Key> =
    | AddStatus(key: Key, status: int, unread: bool)
    | RemoveStatus(key: Key, status: int)

  /** What a worker is about to send to the database after reading `seen`. */
  datatype Write =
    | Nothing
    | Create(statusIds: seq<int>, unread: bool)
    | Update(seen: Row, statusIds: seq<int>, unread: bool)
    | Destroy(seen: Row)

  datatype Outcome = Saved | StaleObject | RecordNotUnique

  // ---- Participants ----

  function ToSet(s: seq<int>): set<int> {
    set i | 0 <= i < |s| :: s[i]
  }

  /** `participants_from_status`. */
  function Participants(mentioned: seq<int>, author: int, recipient: int): seq<int> {
    Asc(ToSet(mentioned) + {author} - {recipient})
  }

  /** Everybody in the conversation but the recipient is in the key, once and in order. */
  lemma ParticipantsAreCanonical(mentioned: seq<int>, author: int, recipient: int)
    ensures var p := Participants(mentioned, author, recipient);
      && Ascending(p)
      && forall a :: a in p <==> a != recipient && (a == author || a in mentioned)
  {
    var everybody := ToSet(mentioned) + {author} - {recipient};
    forall a ensures a in everybody <==> a != recipient && (a == author || a in mentioned) {
      if a in mentioned {
        var i :| 0 <= i < |mentioned| && mentioned[i] == a;
      }
    }
  }

  // ---- Array operations ----

  function LastOf(s: seq<int>): Option<int> {
    if s == [] then None else Some(s[|s| - 1])
  }

  // ---- What a worker plans ----

  function Plan<Key>(op: Op<Key>, seen: Option<Row>): Write {
    match op
    case AddStatus(_, status, unread) =>
      (match seen
       case None => Create(Sort([status]), unread)
       case Some(row) =>
         if status in row.statusIds then Nothing
         else Update(row, Sort(row.statusIds + [status]), unread))
    case RemoveStatus(_, status) =>
      match seen
      case None => Nothing
      case Some(row) =>
        var rest := Without(row.statusIds, status);
        if rest == [] then Destroy(row)
        else if Sort(rest) == row.statusIds then Nothing  // a save without changes
        else Update(row, Sort(rest), row.unread)
  }

  // ---- What the database does ----

  function Lookup<Key>(db: Table<Key>, key: Key): Option<Row> {
    if key in db.rows then Some(db.rows[key]) else None
  }

  /** `WHERE id = ? AND lock_version = ?` finds the row. */
  predicate Current<Key>(db: Table<Key>, key: Key, seen: Row) {
    key in db.rows && db.rows[key].pk == seen.pk && db.rows[key].lockVersion == seen.lockVersion
  }

  function Execute<Key>(db: Table<Key>, key: Key, write: Write): (Table<Key>, Outcome) {
    match write
    case Nothing => (db, Saved)
    case Create(ids, unread) =>
      if key in db.rows then (db, RecordNotUnique)
      else (Table(db.rows[key := Row(db.nextPk, 0, ids, LastOf(ids), unread)], db.nextPk + 1), Saved)
    case Update(seen, ids, unread) =>
      if !Current(db, key, seen) then (db, StaleObject)
      else (db.(rows := db.rows[key := Row(seen.pk, seen.lockVersion + 1, ids, LastOf(ids), unread)]), Saved)
    case Destroy(seen) =>
      if !Current(db, key, seen) then (db, StaleObject)
      else (db.(rows := db.rows - {key}), Saved)
  }

  // ---- The operations in the abstract ----

  datatype Conversation = Conversation(statuses: set<int>, unread: bool)

  type Inbox<Key> = map<Key, Conversation>

  /** What an operation makes of one conversation, which may not be there. */
  function Resulting<Key>(before: Option<Conversation>, op: Op<Key>): Option<Conversation> {
    match op
    case AddStatus(_, status, unread) =>
      if before.Some? && status in before.value.statuses then before
      else Some(Conversation((if before.Some? then before.value.statuses else {}) + {status}, unread))
    case RemoveStatus(_, status) =>
      if before.None? || before.value.statuses - {status} == {} then None
      else Some(Conversation(before.value.statuses - {status}, before.value.unread))
  }

  function Apply<Key>(inbox: Inbox<Key>, op: Op<Key>): Inbox<Key> {
    match Resulting(if op.key in inbox then Some(inbox[op.key]) else None, op)
    case None => inbox - {op.key}
    case Some(conversation) => inbox[op.key := conversation]
  }

  /** An operation touches its own conversation only.  A new status joins it and decides
      whether it is unread; one that is there changes nothing; a removed one leaves it, and
      the conversation goes with the last. */
  lemma ApplyMeans<Key(!new)>(inbox: Inbox<Key>, op: Op<Key>)
    ensures var (after, k) := (Apply(inbox, op), op.key);
      && (forall j | j != k :: (j in after <==> j in inbox) && (j in inbox ==> after[j] == inbox[j]))
      && (op.AddStatus? ==>
           && k in after
           && (forall x :: x in after[k].statuses <==> x == op.status || (k in inbox && x in inbox[k].statuses))
           && after[k].unread == if k in inbox && op.status in inbox[k].statuses then inbox[k].unread else op.unread)
      && (op.RemoveStatus? ==>
           && (k in after <==> k in inbox && exists x :: x in inbox[k].statuses && x != op.status)
           && (k in after ==> after[k].unread == inbox[k].unread)
           && (k in after ==> forall x :: x in after[k].statuses <==> x in inbox[k].statuses && x != op.status))
  {
    if op.RemoveStatus? && op.key in inbox {
      var rest := inbox[op.key].statuses - {op.status};
      if rest != {} {
        var x := Member(rest);
        assert x in inbox[op.key].statuses && x != op.status;
      }
      if x :| x in inbox[op.key].statuses && x != op.status {
        assert x in rest;
      }
    }
  }

  function View(row: Row): Conversation {
    Conversation(ToSet(row.statusIds), row.unread)
  }

  function Abstract<Key>(db: Table<Key>): Inbox<Key> {
    map k | k in db.rows :: View(db.rows[k])
  }

  // ---- The row invariant ----

  ghost predicate RowInv(row: Row) {
    && row.statusIds != [] && Ascending(row.statusIds)
    && row.lastStatusId.Some? && row.lastStatusId.value in row.statusIds
    && forall x | x in row.statusIds :: x <= row.lastStatusId.value
  }

  ghost predicate TableInv<Key(!new)>(db: Table<Key>) {
    forall k | k in db.rows :: RowInv(db.rows[k]) && db.rows[k].pk < db.nextPk
  }

  lemma LastIsMax(s: seq<int>)
    requires s != [] && Ascending(s)
    ensures LastOf(s).Some? && LastOf(s).value in s && forall x | x in s :: x <= LastOf(s).value
  {
    forall x | x in s ensures x <= s[|s| - 1] {
      var i :| 0 <= i < |s| && s[i] == x;
    }
  }

  lemma {:induction false} WithoutKeepsOrder(s: seq<int>, x: int)
    requires Ascending(s)
    ensures Ascending(Without(s, x))
    ensures forall y :: y in Without(s, x) <==> y in s && y != x
  {
    if s != [] {
      WithoutKeepsOrder(s[1..], x);
      forall y ensures y in s <==> y == s[0] || y in s[1..] {
        TailMembers(s, y);
      }
      if s[0] != x {
        forall y | y in Without(s[1..], x) ensures y > s[0] {
          var i :| 0 <= i < |s[1..]| && s[1..][i] == y;
          assert s[i + 1] == y;
        }
        ConsAscends(s[0], Without(s[1..], x));
      }
    }
  }

  lemma ToSetMembers(s: seq<int>)
    ensures forall y :: y in ToSet(s) <==> y in s
  {
    forall y | y in s ensures y in ToSet(s) {
      var i :| 0 <= i < |s| && s[i] == y;
    }
  }

  // ---- A write that finds its row unchanged does what the operation says ----

  lemma AddedIds(ids: seq<int>, status: int)
    requires Ascending(ids) && status !in ids
    ensures Ascending(Sort(ids + [status])) && LastOf(Sort(ids + [status])).Some?
    ensures ToSet(Sort(ids + [status])) == ToSet(ids) + {status}
  {
    var all := ids + [status];
    forall i, j | 0 <= i < j < |all| ensures all[i] != all[j] {
      if j == |ids| {
        assert all[i] in ids;
      }
    }
    SortOrders(all);
    ToSetMembers(ids);
    ToSetMembers(Sort(all));
    assert status in all && status in Sort(all);
  }

  lemma RemovedIds(ids: seq<int>, status: int)
    requires Ascending(ids)
    ensures Ascending(Sort(Without(ids, status)))
    ensures ToSet(Sort(Without(ids, status))) == ToSet(ids) - {status}
    ensures Without(ids, status) == [] <==> ToSet(ids) - {status} == {}
    ensures Sort(Without(ids, status)) == [] <==> Without(ids, status) == []
  {
    var rest := Without(ids, status);
    WithoutKeepsOrder(ids, status);
    SortOrders(rest);
    ToSetMembers(ids);
    ToSetMembers(Sort(rest));
    EmptyTogether(rest, Sort(rest));
    if rest != [] {
      var x := rest[0];
      assert x in rest && x in ToSet(ids) - {status};
    }
  }

  /** The plan of an operation on a row, or on no row, means its outcome. */
  ghost predicate PlanMeans<Key>(op: Op<Key>, seen: Option<Row>) {
    var before := if seen.Some? then Some(View(seen.value)) else None;
    match Plan(op, seen)
    case Nothing => Resulting(before, op) == before
    case Create(ids, unread) =>
      seen.None? && Ordered(ids) && Resulting(before, op) == Some(Conversation(ToSet(ids), unread))
    case Update(row, ids, unread) =>
      seen == Some(row) && Ordered(ids) && Resulting(before, op) == Some(Conversation(ToSet(ids), unread))
    case Destroy(row) => seen == Some(row) && Resulting(before, op) == None
  }

  ghost predicate Ordered(ids: seq<int>) {
    ids != [] && Ascending(ids)
  }

  lemma AddMeans<Key>(op: Op<Key>, seen: Option<Row>)
    requires op.AddStatus? && (seen.Some? ==> RowInv(seen.value))
    ensures PlanMeans(op, seen)
  {
    match seen {
      case None =>
        assert Sort([op.status]) == [op.status];
        assert ToSet([op.status]) == {} + {op.status} by {
          ToSetMembers([op.status]);
        }
      case Some(row) =>
        ToSetMembers(row.statusIds);
        if op.status !in row.statusIds {
          AddedIds(row.statusIds, op.status);
        }
    }
  }

  lemma RemoveMeans<Key>(op: Op<Key>, seen: Option<Row>)
    requires op.RemoveStatus? && (seen.Some? ==> RowInv(seen.value))
    ensures PlanMeans(op, seen)
  {
    if seen.Some? {
      RemovedIds(seen.value.statusIds, op.status);
    }
  }

  /** Planning on the row as it is and writing at once does what the operation says. */
  ghost predicate Applied<Key(!new)>(db: Table<Key>, op: Op<Key>) {
    var (after, outcome) := Execute(db, op.key, Plan(op, Lookup(db, op.key)));
    outcome == Saved && TableInv(after) && Abstract(after) == Apply(Abstract(db), op)
  }

  lemma SavedWriteApplies<Key(!new)>(db: Table<Key>, op: Op<Key>)
    requires TableInv(db)
    ensures Applied(db, op)
  {
    var seen := Lookup(db, op.key);
    if op.AddStatus? {
      AddMeans(op, seen);
    } else {
      RemoveMeans(op, seen);
    }
    MeantIsApplied(db, op);
  }

  lemma MeantIsApplied<Key(!new)>(db: Table<Key>, op: Op<Key>)
    requires TableInv(db) && PlanMeans(op, Lookup(db, op.key))
    ensures Applied(db, op)
  {
    WriteStores(db, op.key, Plan(op, Lookup(db, op.key)));
    assert op.key in db.rows ==> Abstract(db)[op.key := View(db.rows[op.key])] == Abstract(db);
    assert op.key !in db.rows ==> Abstract(db) - {op.key} == Abstract(db);
  }

  /** The write is about the row as it is stored. */
  ghost predicate Fits<Key(!new)>(db: Table<Key>, key: Key, write: Write) {
    match write
    case Nothing => true
    case Create(ids, _) => key !in db.rows && Ordered(ids)
    case Update(seen, ids, _) => key in db.rows && db.rows[key] == seen && Ordered(ids)
    case Destroy(seen) => key in db.rows && db.rows[key] == seen
  }

  lemma WriteStores<Key(!new)>(db: Table<Key>, key: Key, write: Write)
    requires TableInv(db) && Fits(db, key, write)
    ensures var (after, outcome) := Execute(db, key, write);
      && outcome == Saved && TableInv(after)
      && Abstract(after) ==
         match write
         case Nothing => Abstract(db)
         case Create(ids, unread) => Abstract(db)[key := Conversation(ToSet(ids), unread)]
         case Update(_, ids, unread) => Abstract(db)[key := Conversation(ToSet(ids), unread)]
         case Destroy(_) => Abstract(db) - {key}
  {
    match write {
      case Create(ids, _) => LastIsMax(ids);
      case Update(_, ids, _) => LastIsMax(ids);
      case _ =>
    }
  }

  // ---- The operations on the table in place ----

  class ConversationTable<Key(!new, ==)> {
    var rows: map<Key, Row>
    var nextPk: nat

    ghost function State(): Table<Key>
      reads this
    {
      Table(rows, nextPk)
    }

    constructor ()
      ensures State() == Table(map[], 0)
    {
      rows, nextPk := map[], 0;
    }

    /** `save` of a new record: the unique index may refuse it. */
    method InsertRow(key: Key, statusIds: seq<int>, unread: bool) returns (outcome: Outcome)
      modifies this
      ensures (State(), outcome) == Execute(old(State()), key, Create(Sort(statusIds), unread))
    {
      if key in rows {
        return RecordNotUnique;
      }
      var sorted := Sort(statusIds);
      rows := rows[key := Row(nextPk, 0, sorted, LastOf(sorted), unread)];
      nextPk := nextPk + 1;
      return Saved;
    }

    /** `save` of a record read before: only changes are sent, under the version read. */
    method UpdateRow(key: Key, seen: Row, statusIds: seq<int>, unread: bool) returns (outcome: Outcome)
      modifies this
      ensures var same := Sort(statusIds) == seen.statusIds && unread == seen.unread;
        (State(), outcome) ==
          Execute(old(State()), key, if same then Nothing else Update(seen, Sort(statusIds), unread))
    {
      var sorted := Sort(statusIds);
      if sorted == seen.statusIds && unread == seen.unread {
        return Saved;
      }
      if key !in rows || rows[key].pk != seen.pk || rows[key].lockVersion != seen.lockVersion {
        return StaleObject;
      }
      rows := rows[key := Row(seen.pk, seen.lockVersion + 1, sorted, LastOf(sorted), unread)];
      return Saved;
    }

    method DestroyRow(key: Key, seen: Row) returns (outcome: Outcome)
      modifies this
      ensures (State(), outcome) == Execute(old(State()), key, Destroy(seen))
    {
      if key !in rows || rows[key].pk != seen.pk || rows[key].lockVersion != seen.lockVersion {
        return StaleObject;
      }
      rows := rows - {key};
      return Saved;
    }

    /** One try of `add_status` with nobody in between. */
    method AddStatusTo(key: Key, status: int, unread: bool) returns (outcome: Outcome)
      requires TableInv(State())
      modifies this
      ensures outcome == Saved && TableInv(State())
      ensures Abstract(State()) == Apply(old(Abstract(State())), AddStatus(key, status, unread))
    {
      SavedWriteApplies(State(), AddStatus(key, status, unread));
      if key in rows {
        var conversation := rows[key];
        if status in conversation.statusIds {
          return Saved;
        }
        ghost var ids := conversation.statusIds;
        assert RowInv(conversation);
        AddedIds(ids, status);
        ToSetMembers(ids);
        assert status in ToSet(Sort(ids + [status])) && status !in ToSet(ids);
        outcome := UpdateRow(key, conversation, conversation.statusIds + [status], unread);
      } else {
        outcome := InsertRow(key, [status], unread);
      }
    }

    /** One try of `remove_status` with nobody in between. */
    method RemoveStatusFrom(key: Key, status: int) returns (outcome: Outcome)
      requires TableInv(State())
      modifies this
      ensures outcome == Saved && TableInv(State())
      ensures Abstract(State()) == Apply(old(Abstract(State())), RemoveStatus(key, status))
    {
      SavedWriteApplies(State(), RemoveStatus(key, status));
      if key !in rows {
        return Saved;
      }
      var conversation := rows[key];
      var statusIds := Without(conversation.statusIds, status);
      if statusIds == [] {
        outcome := DestroyRow(key, conversation);
      } else {
        outcome := UpdateRow(key, conversation, statusIds, conversation.unread);
      }
    }
  }
}
