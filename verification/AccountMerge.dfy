/** Merging duplicate accounts: relationships are moved over row by row, rows that the
    unique index refuses are skipped, and what still mentions the duplicate goes with it. */
module AccountMerge {
  import opened SortedSets

  /** (account_id, target_account_id) of a follow, follow request, block or mute. */
  type Pair = (int, int)

  /** A relationship table by primary key. */
  type Rows = map<int, Pair>

  /** The unique index over both columns. */
  ghost predicate Unique(rows: Rows) {
    forall j, k | j in rows && k in rows && rows[j] == rows[k] :: j == k
  }

  function WithAccount(p: Pair, account: int): Pair {
    (account, p.1)
  }

  function WithTarget(p: Pair, target: int): Pair {
    (p.0, target)
  }

  // ---- The two loops ----

  /** The rows by `from` are moved to `to` unless the index already has them there. */
  function AccountsMoved(rows: Rows, from: int, to: int): Rows {
    map k | k in rows ::
      if rows[k].0 == from && WithAccount(rows[k], to) !in rows.Values then WithAccount(rows[k], to) else rows[k]
  }

  function TargetsMoved(rows: Rows, from: int, to: int): Rows {
    map k | k in rows ::
      if rows[k].1 == from && WithTarget(rows[k], to) !in rows.Values then WithTarget(rows[k], to) else rows[k]
  }

  /** `on_delete: :cascade` of both foreign keys. */
  function Cascaded(rows: Rows, account: int): Rows {
    map k | k in rows && rows[k].0 != account && rows[k].1 != account :: rows[k]
  }

  class Relationships {
    var rows: Rows

    constructor (rows: Rows)
      ensures this.rows == rows
    {
      this.rows := rows;
    }

    /** `update_attribute` of one column of one row. */
    method TryUpdate(k: int, p: Pair) returns (ok: bool)
      requires k in rows && Unique(rows) && rows[k] != p
      modifies this
      ensures ok <==> p !in old(rows).Values
      ensures rows == if ok then old(rows)[k := p] else old(rows)
      ensures Unique(rows)
    {
      if p in rows.Values {
        return false;
      }
      rows := rows[k := p];
      return true;
    }

    method MoveAccounts(from: int, to: int)
      requires from != to && Unique(rows)
      modifies this
      ensures rows == AccountsMoved(old(rows), from, to) && Unique(rows)
    {
      var pending := set k | k in rows && rows[k].0 == from;
      while pending != {}
        invariant Unique(rows) && PartlyMoved(old(rows), rows, AccountsMoved(old(rows), from, to), pending)
        invariant forall k | k in pending :: k in rows && rows[k] == old(rows)[k] && rows[k].0 == from
      {
        ghost var any := Member(pending);
        var k :| k in pending;
        AccountDecided(old(rows), rows, from, to, pending, k);
        var ok := TryUpdate(k, WithAccount(rows[k], to));
        pending := pending - {k};
      }
      AllMoved(old(rows), rows, AccountsMoved(old(rows), from, to));
    }

    method MoveTargets(from: int, to: int)
      requires from != to && Unique(rows)
      modifies this
      ensures rows == TargetsMoved(old(rows), from, to) && Unique(rows)
    {
      var pending := set k | k in rows && rows[k].1 == from;
      while pending != {}
        invariant Unique(rows) && PartlyMoved(old(rows), rows, TargetsMoved(old(rows), from, to), pending)
        invariant forall k | k in pending :: k in rows && rows[k] == old(rows)[k] && rows[k].1 == from
      {
        ghost var any := Member(pending);
        var k :| k in pending;
        TargetDecided(old(rows), rows, from, to, pending, k);
        var ok := TryUpdate(k, WithTarget(rows[k], to));
        pending := pending - {k};
      }
      AllMoved(old(rows), rows, TargetsMoved(old(rows), from, to));
    }

    /** `merge_accounts!` and the destruction of the duplicate. */
    method Merge(main: int, duplicate: int)
      requires main != duplicate && Unique(rows)
      modifies this
      ensures rows == Merged(old(rows), main, duplicate) && Unique(rows)
    {
      MoveAccounts(duplicate, main);
      MoveTargets(duplicate, main);
      rows := Cascaded(rows, duplicate);
    }

    /** `deduplicate_account!`: `others` come with whether their key is the reference's. */
    method Deduplicate(reference: int, others: seq<(int, bool)>)
      requires Unique(rows) && forall i | 0 <= i < |others| :: others[i].0 != reference
      modifies this
      ensures rows == Deduplicated(old(rows), reference, others) && Unique(rows)
    {
      for i := 0 to |others|
        invariant Unique(rows)
        invariant Deduplicated(old(rows), reference, others) == Deduplicated(rows, reference, others[i..])
      {
        assert others[i..][1..] == others[i + 1..];
        if others[i].1 {
          Merge(reference, others[i].0);
        } else {
          rows := Cascaded(rows, others[i].0);
        }
      }
    }
  }

  /** Rows that are not pending are as in `after`, pending ones as they were. */
  ghost predicate PartlyMoved(before: Rows, now: Rows, after: Rows, pending: set<int>) {
    && now.Keys == before.Keys == after.Keys
    && forall k | k in now :: now[k] == if k in pending then before[k] else after[k]
  }

  /** The decision about a row does not depend on which rows came before it. */
  lemma AccountDecided(before: Rows, now: Rows, from: int, to: int, pending: set<int>, k: int)
    requires from != to && Unique(before) && k in pending && k in before && before[k].0 == from
    requires PartlyMoved(before, now, AccountsMoved(before, from, to), pending)
    ensures WithAccount(before[k], to) in now.Values <==> WithAccount(before[k], to) in before.Values
  {
    var p := WithAccount(before[k], to);
    if p in before.Values {
      var j := KeyOf(before, p);
      assert now[j] == p;
    }
    if p in now.Values {
      var j := KeyOf(now, p);
      assert j != k;
    }
  }

  lemma TargetDecided(before: Rows, now: Rows, from: int, to: int, pending: set<int>, k: int)
    requires from != to && Unique(before) && k in pending && k in before && before[k].1 == from
    requires PartlyMoved(before, now, TargetsMoved(before, from, to), pending)
    ensures WithTarget(before[k], to) in now.Values <==> WithTarget(before[k], to) in before.Values
  {
    var p := WithTarget(before[k], to);
    if p in before.Values {
      var j := KeyOf(before, p);
      assert now[j] == p;
    }
    if p in now.Values {
      var j := KeyOf(now, p);
      assert j != k;
    }
  }

  lemma AllMoved(before: Rows, now: Rows, after: Rows)
    requires PartlyMoved(before, now, after, {})
    ensures now == after
  {
    forall k | k in now ensures now[k] == after[k] {
      var none: set<int> := {};
      assert k !in none;
    }
  }

  lemma KeyOf<K, V>(m: map<K, V>, v: V) returns (k: K)
    requires v in m.Values
    ensures k in m && m[k] == v
  {
    k :| k in m && m[k] == v;
  }

  // ---- The quotient ----

  function Merged(rows: Rows, main: int, duplicate: int): Rows {
    Cascaded(TargetsMoved(AccountsMoved(rows, duplicate, main), duplicate, main), duplicate)
  }

  function Deduplicated(rows: Rows, reference: int, others: seq<(int, bool)>): Rows
    decreases |others|
  {
    if others == [] then rows
    else
      var (other, sameKey) := others[0];
      Deduplicated(if sameKey then Merged(rows, reference, other) else Cascaded(rows, other), reference, others[1..])
  }

  function Renamed(p: Pair, duplicate: int, main: int): Pair {
    (if p.0 == duplicate then main else p.0, if p.1 == duplicate then main else p.1)
  }

  /** The image of a relation when the duplicate becomes the main account. */
  function Quotient(pairs: set<Pair>, duplicate: int, main: int): set<Pair> {
    set p | p in pairs :: Renamed(p, duplicate, main)
  }

  lemma AccountsMovedCovers(rows: Rows, from: int, to: int, p: Pair)
    requires from != to
    ensures p.0 != from ==> (p in AccountsMoved(rows, from, to).Values <==>
      p in rows.Values || (p.0 == to && (from, p.1) in rows.Values))
    ensures p in AccountsMoved(rows, from, to).Values && p.0 == from ==> p in rows.Values
  {
    var after := AccountsMoved(rows, from, to);
    if p in rows.Values && p.0 != from {
      var k := KeyOf(rows, p);
      assert after[k] == p;
    }
    if (from, p.1) in rows.Values && p.0 == to && p !in rows.Values {
      var k := KeyOf(rows, (from, p.1));
      assert after[k] == p;
    }
    if p in after.Values {
      var k := KeyOf(after, p);
      assert rows[k] in rows.Values;
    }
  }

  lemma TargetsMovedCovers(rows: Rows, from: int, to: int, p: Pair)
    requires from != to && p.1 != from
    ensures p in TargetsMoved(rows, from, to).Values <==>
      p in rows.Values || (p.1 == to && (p.0, from) in rows.Values)
  {
    var after := TargetsMoved(rows, from, to);
    if p in rows.Values {
      var k := KeyOf(rows, p);
      assert after[k] == p;
    }
    if (p.0, from) in rows.Values && p.1 == to && p !in rows.Values {
      var k := KeyOf(rows, (p.0, from));
      assert after[k] == p;
    }
    if p in after.Values {
      var k := KeyOf(after, p);
      assert rows[k] in rows.Values;
    }
  }

  lemma CascadedCovers(rows: Rows, account: int, p: Pair)
    ensures p in Cascaded(rows, account).Values <==> p in rows.Values && p.0 != account && p.1 != account
  {
    if p in rows.Values && p.0 != account && p.1 != account {
      var k := KeyOf(rows, p);
      assert Cascaded(rows, account)[k] == p;
    }
  }

  /** Main result: merging is exactly the quotient, self-relationships included. */
  lemma MergeIsQuotient(rows: Rows, main: int, duplicate: int)
    requires main != duplicate
    ensures Merged(rows, main, duplicate).Values == Quotient(rows.Values, duplicate, main)
  {
    var a := AccountsMoved(rows, duplicate, main);
    var t := TargetsMoved(a, duplicate, main);
    forall p: Pair ensures p in Merged(rows, main, duplicate).Values <==> p in Quotient(rows.Values, duplicate, main) {
      CascadedCovers(t, duplicate, p);
      if p.0 != duplicate && p.1 != duplicate {
        TargetsMovedCovers(a, duplicate, main, p);
        AccountsMovedCovers(rows, duplicate, main, p);
        AccountsMovedCovers(rows, duplicate, main, (p.0, duplicate));
        QuotientMember(rows.Values, duplicate, main, p);
      }
    }
  }

  lemma QuotientMember(pairs: set<Pair>, duplicate: int, main: int, p: Pair)
    requires main != duplicate && p.0 != duplicate && p.1 != duplicate
    ensures p in Quotient(pairs, duplicate, main) <==>
      || p in pairs
      || (p.0 == main && (duplicate, p.1) in pairs)
      || (p.1 == main && (p.0, duplicate) in pairs)
      || (p.0 == main && p.1 == main && (duplicate, duplicate) in pairs)
  {
    if p in pairs { assert Renamed(p, duplicate, main) == p; }
    if p.0 == main && (duplicate, p.1) in pairs { assert Renamed((duplicate, p.1), duplicate, main) == p; }
    if p.1 == main && (p.0, duplicate) in pairs { assert Renamed((p.0, duplicate), duplicate, main) == p; }
    if p.0 == main && p.1 == main && (duplicate, duplicate) in pairs {
      assert Renamed((duplicate, duplicate), duplicate, main) == p;
    }
  }

  // ---- A whole group of duplicates ----

  ghost predicate Distinct(others: seq<(int, bool)>) {
    forall i, j | 0 <= i < j < |others| :: others[i].0 != others[j].0
  }

  /** The account an account ends up as: the reference if it was merged into it. */
  function Representative(a: int, reference: int, others: seq<(int, bool)>): int {
    if others == [] then a
    else if others[0].0 == a then (if others[0].1 then reference else a)
    else Representative(a, reference, others[1..])
  }

  /** The account is deleted with another key. */
  predicate Lost(a: int, others: seq<(int, bool)>) {
    others != [] && ((others[0].0 == a && !others[0].1) || Lost(a, others[1..]))
  }

  function RepresentedBy(pairs: set<Pair>, reference: int, others: seq<(int, bool)>): set<Pair> {
    set p | p in pairs && !Lost(p.0, others) && !Lost(p.1, others) ::
      (Representative(p.0, reference, others), Representative(p.1, reference, others))
  }

  lemma {:induction false} NotAmong(a: int, reference: int, others: seq<(int, bool)>)
    requires forall i | 0 <= i < |others| :: others[i].0 != a
    ensures Representative(a, reference, others) == a && !Lost(a, others)
  {
    if others != [] {
      NotAmong(a, reference, others[1..]);
    }
  }

  /** A duplicate with the key of the reference ends up as the reference; one with another
      key is lost; every other account stays itself. */
  lemma {:induction false} RepresentativeMeans(a: int, reference: int, others: seq<(int, bool)>)
    requires Distinct(others)
    ensures Lost(a, others) <==> exists i :: 0 <= i < |others| && others[i] == (a, false)
    ensures Representative(a, reference, others) ==
      if exists i :: 0 <= i < |others| && others[i] == (a, true) then reference else a
    decreases |others|
  {
    if others != [] {
      RepresentativeMeans(a, reference, others[1..]);
      forall b: bool
        ensures (exists i :: 0 <= i < |others| && others[i] == (a, b)) <==>
          others[0] == (a, b) || exists i :: 0 <= i < |others[1..]| && others[1..][i] == (a, b)
      {
        if i :| 0 <= i < |others| && others[i] == (a, b) && i > 0 {
          assert others[1..][i - 1] == (a, b);
        }
        if i :| 0 <= i < |others[1..]| && others[1..][i] == (a, b) {
          assert others[i + 1] == (a, b);
        }
      }
    }
  }

  /** One duplicate first, then the others, is all of them at once. */
  lemma RepresentativeStep(a: int, reference: int, others: seq<(int, bool)>)
    requires others != [] && Distinct(others) && forall i | 0 <= i < |others| :: others[i].0 != reference
    ensures var (other, sameKey) := others[0];
      var b := if sameKey && a == other then reference else a;
      && (sameKey ==> Lost(a, others) == Lost(b, others[1..]))
      && (sameKey ==> Representative(a, reference, others) == Representative(b, reference, others[1..]))
      && (!sameKey ==> Lost(a, others) == (a == other || Lost(a, others[1..])))
      && (!sameKey && a != other ==> Representative(a, reference, others) == Representative(a, reference, others[1..]))
  {
    NotAmong(reference, reference, others[1..]);
    NotAmong(others[0].0, reference, others[1..]);
  }

  lemma MergedFirst(pairs: set<Pair>, reference: int, others: seq<(int, bool)>)
    requires others != [] && Distinct(others) && forall i | 0 <= i < |others| :: others[i].0 != reference
    requires others[0].1
    ensures RepresentedBy(Quotient(pairs, others[0].0, reference), reference, others[1..]) ==
      RepresentedBy(pairs, reference, others)
  {
    var other := others[0].0;
    forall p | p in pairs
      ensures Renamed(p, other, reference) in Quotient(pairs, other, reference)
      ensures Lost(p.0, others) == Lost(Renamed(p, other, reference).0, others[1..])
      ensures Lost(p.1, others) == Lost(Renamed(p, other, reference).1, others[1..])
      ensures Representative(p.0, reference, others) == Representative(Renamed(p, other, reference).0, reference, others[1..])
      ensures Representative(p.1, reference, others) == Representative(Renamed(p, other, reference).1, reference, others[1..])
    {
      RepresentativeStep(p.0, reference, others);
      RepresentativeStep(p.1, reference, others);
    }
  }

  lemma DroppedFirst(rows: Rows, reference: int, others: seq<(int, bool)>)
    requires others != [] && Distinct(others) && forall i | 0 <= i < |others| :: others[i].0 != reference
    requires !others[0].1
    ensures RepresentedBy(Cascaded(rows, others[0].0).Values, reference, others[1..]) ==
      RepresentedBy(rows.Values, reference, others)
  {
    forall p | p in rows.Values
      ensures p in Cascaded(rows, others[0].0).Values <==> p.0 != others[0].0 && p.1 != others[0].0
      ensures Lost(p.0, others) == (p.0 == others[0].0 || Lost(p.0, others[1..]))
      ensures Lost(p.1, others) == (p.1 == others[0].0 || Lost(p.1, others[1..]))
      ensures p.0 != others[0].0 ==>
        Representative(p.0, reference, others) == Representative(p.0, reference, others[1..])
      ensures p.1 != others[0].0 ==>
        Representative(p.1, reference, others) == Representative(p.1, reference, others[1..])
    {
      CascadedCovers(rows, others[0].0, p);
      RepresentativeStep(p.0, reference, others);
      RepresentativeStep(p.1, reference, others);
    }
  }

  /** Main result: deduplicating a group leaves, for every relationship between accounts
      that were not lost, the one between those that represent them, and nothing else. */
  lemma {:induction false} DeduplicationIsQuotient(rows: Rows, reference: int, others: seq<(int, bool)>)
    requires Distinct(others) && forall i | 0 <= i < |others| :: others[i].0 != reference
    ensures Deduplicated(rows, reference, others).Values == RepresentedBy(rows.Values, reference, others)
    decreases |others|
  {
    if others == [] {
      assert forall p | p in rows.Values :: (Representative(p.0, reference, others), Representative(p.1, reference, others)) == p;
    } else if others[0].1 {
      MergeIsQuotient(rows, reference, others[0].0);
      MergedFirst(rows.Values, reference, others);
      DeduplicationIsQuotient(Merged(rows, reference, others[0].0), reference, others[1..]);
    } else {
      DroppedFirst(rows, reference, others);
      DeduplicationIsQuotient(Cascaded(rows, others[0].0), reference, others[1..]);
    }
  }
}
