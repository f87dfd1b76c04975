/** Ids made of a millisecond timestamp over 16 bits of sequence data: those the database
    draws and those given to backdated records, with their retries. */
module Snowflake {
  import opened Wrappers

  /** One millisecond of ids. */
  const TICK := 65536

  // ---- timestamp_id, in the database ----

  /** On 64-bit words the shift, the mask and the OR are a product, a remainder and a sum:
      the time part has no trailing two bytes and the tail is only the last two. */
  lemma BitsAreArithmetic(millis: bv64, data: bv64)
    ensures (millis << 16) | (data & 65535) == (millis << 16) + (data & 65535)
    ensures data & 65535 == data % 65536
    ensures millis << 16 == millis * 65536
  {
  }

  /** `base` is the first two bytes of the hash, `serial` the next value of the sequence. */
  function TimestampId(millis: nat, base: nat, serial: nat): nat {
    millis * TICK + (base + serial) % TICK
  }

  /** Two draws within one millisecond have the same id exactly when their serials are a
      multiple of 65536 apart; so fewer than 65536 draws never repeat one. */
  lemma SameMillisecondIds(millis: nat, base: nat, serial: nat, draws: nat)
    ensures TimestampId(millis, base, serial) == TimestampId(millis, base, serial + draws) <==> draws % TICK == 0
  {
  }

  /** A later millisecond gives a greater id, whatever the hashes and the serials. */
  lemma MillisecondsAreOrdered(m: nat, n: nat, base: nat, serial: nat, base': nat, serial': nat)
    requires m < n
    ensures TimestampId(m, base, serial) < TimestampId(n, base', serial')
  {
  }

  /** Two ids are the same only within one millisecond, and there only if the tails are. */
  lemma SameIdsIff(m: nat, n: nat, base: nat, serial: nat, base': nat, serial': nat)
    ensures TimestampId(m, base, serial) == TimestampId(n, base', serial') <==>
      m == n && (base + serial) % TICK == (base' + serial') % TICK
  {
    if m < n {
      MillisecondsAreOrdered(m, n, base, serial, base', serial');
    } else if n < m {
      MillisecondsAreOrdered(n, m, base', serial', base, serial);
    }
  }

  // ---- id_at and the retries of around_create ----

  const MAX_TRIES := 101

  /** `id_at`: `millis` is `rand(1000)` and `tail` is `rand(2**16)`. */
  function IdAt(seconds: int, millis: int, tail: int): int {
    (seconds * 1000 + millis) * TICK + tail
  }

  /** The id tells its millisecond and, above that, its second. */
  lemma IdTellsItsTime(seconds: int, millis: int, tail: int)
    requires 0 <= millis < 1000 && 0 <= tail < TICK
    ensures var id := IdAt(seconds, millis, tail);
      id % 65536 == tail && (id / 65536) % 1000 == millis && (id / 65536) / 1000 == seconds
  {
    var id, time := IdAt(seconds, millis, tail), seconds * 1000 + millis;
    assert id == 65536 * time + tail;
    assert id / 65536 == time && id % 65536 == tail;
    assert time / 1000 == seconds && time % 1000 == millis;
  }

  /** What `k` retries have added to the id. */
  function Drift(jumps: seq<int>, k: nat): int
    requires k <= |jumps|
  {
    if k == 0 then 0 else Drift(jumps, k - 1) + jumps[k - 1]
  }

  /** `rand(100)` for every retry there can be. */
  ghost predicate Jumps(jumps: seq<int>) {
    |jumps| == MAX_TRIES && forall i | 0 <= i < |jumps| :: 0 <= jumps[i] < 100
  }

  lemma {:induction false} DriftBound(jumps: seq<int>, k: nat)
    requires Jumps(jumps) && k <= |jumps|
    ensures 0 <= Drift(jumps, k) <= 99 * k
  {
    if k > 0 {
      DriftBound(jumps, k - 1);
    }
  }

  /** The record keeps the id of the database unless it is a backdated one. */
  predicate KeepsDatabaseId(createdAt: Option<int>, updatedAt: Option<int>, now: int, overrideTimestamps: bool) {
    createdAt.None? || createdAt.value >= now || createdAt == updatedAt || overrideTimestamps
  }

  /** The record was created in the past, was updated since, and does not insist on its
      timestamps. */
  ghost predicate Backdated(createdAt: Option<int>, updatedAt: Option<int>, now: int, overrideTimestamps: bool) {
    !overrideTimestamps && createdAt != updatedAt && exists past :: createdAt == Some(past) && past < now
  }

  /** `databaseId` is the default of the column, `millis`, `tail` and `jumps` are the random
      draws, and `refused(k, id)` tells whether the insertion of attempt `k` violates
      uniqueness, however other records come in meanwhile.  No id is an error raised to
      the caller. */
  method AroundCreate(createdAt: Option<int>, updatedAt: Option<int>, now: int, overrideTimestamps: bool,
                      databaseId: int, millis: int, tail: int, jumps: seq<int>, refused: (nat, int) -> bool)
    returns (id: Option<int>, attempts: nat)
    requires Jumps(jumps) && 0 <= millis < 1000 && 0 <= tail < TICK
    ensures !Backdated(createdAt, updatedAt, now, overrideTimestamps) ==>
      attempts == 1 && id == if refused(0, databaseId) then None else Some(databaseId)
    ensures Backdated(createdAt, updatedAt, now, overrideTimestamps) ==>
      Retried(IdAt(createdAt.value, millis, tail), jumps, refused, id, attempts) &&
      attempts <= 102 && (id.None? ==> attempts == 102) &&
      (id.Some? ==> Possible(createdAt.value, id.value))
  {
    if KeepsDatabaseId(createdAt, updatedAt, now, overrideTimestamps) {
      return if refused(0, databaseId) then None else Some(databaseId), 1;
    }
    var start := IdAt(createdAt.value, millis, tail);
    var current := start;
    var tries := 0;
    while true
      invariant 0 <= tries <= MAX_TRIES
      invariant current == start + Drift(jumps, tries)
      invariant forall k | 0 <= k < tries :: refused(k, start + Drift(jumps, k))
      decreases MAX_TRIES - tries
    {
      attempts := tries + 1;
      if !refused(tries, current) {
        DriftBound(jumps, tries);
        assert Draws(createdAt.value, current, millis, tail, Drift(jumps, tries));
        return Some(current), attempts;
      }
      if tries > 100 {
        return None, attempts;
      }
      tries := tries + 1;
      current := current + jumps[tries - 1];
    }
  }

  /** The id is the one of the first attempt that was not refused; there is none only
      when all 102 attempts were. */
  ghost predicate Retried(start: int, jumps: seq<int>, refused: (nat, int) -> bool, id: Option<int>, attempts: nat)
    requires Jumps(jumps)
  {
    && 1 <= attempts <= MAX_TRIES + 1
    && (forall k | 0 <= k < attempts - 1 :: refused(k, start + Drift(jumps, k)))
    && match id
       case Some(i) => i == start + Drift(jumps, attempts - 1) && !refused(attempts - 1, i)
       case None => attempts == MAX_TRIES + 1 && refused(MAX_TRIES, start + Drift(jumps, MAX_TRIES))
  }

  // ---- Order ----

  ghost predicate Draws(seconds: int, id: int, millis: int, tail: int, drift: int) {
    0 <= millis < 1000 && 0 <= tail < TICK && 0 <= drift <= 9999 && id == IdAt(seconds, millis, tail) + drift
  }

  /** An id that a record of that second can end up with. */
  ghost predicate Possible(seconds: int, id: int) {
    exists millis, tail, drift :: Draws(seconds, id, millis, tail, drift)
  }

  /** The retries leave the id within one millisecond of the drawn one. */
  lemma DriftStaysInTick(seconds: int, millis: int, tail: int, drift: int)
    requires 0 <= millis < 1000 && 0 <= tail < TICK && 0 <= drift <= 9999
    ensures (seconds * 1000 + millis) * TICK <= IdAt(seconds, millis, tail) + drift
    ensures IdAt(seconds, millis, tail) + drift < (seconds * 1000 + millis + 2) * TICK
  {
  }

  // ---- Every possible id comes about ----

  /** The draws with which the retries add `drift` as early as they can. */
  function Greedy(drift: int): (jumps: seq<int>)
    ensures |jumps| == MAX_TRIES
  {
    seq(MAX_TRIES, i requires 0 <= i < MAX_TRIES =>
      if drift >= 99 * (i + 1) then 99 else if drift > 99 * i then drift - 99 * i else 0)
  }

  lemma {:induction false} GreedyDrift(drift: int, k: nat)
    requires 0 <= drift && k <= MAX_TRIES
    ensures Drift(Greedy(drift), k) == if drift < 99 * k then drift else 99 * k
  {
    if k > 0 {
      GreedyDrift(drift, k - 1);
    }
  }

  /** An id the retries end with for some draws and some refusals. */
  ghost predicate Reachable(seconds: int, id: int) {
    exists millis, tail, jumps, refused, attempts: nat :: ComesOut(seconds, id, millis, tail, jumps, refused, attempts)
  }

  ghost predicate ComesOut(seconds: int, id: int, millis: int, tail: int, jumps: seq<int>,
                           refused: (nat, int) -> bool, attempts: nat)
  {
    && 0 <= millis < 1000 && 0 <= tail < TICK && Jumps(jumps)
    && Retried(IdAt(seconds, millis, tail), jumps, refused, Some(id), attempts)
  }

  /** The possible ids are exactly those: up to 9999 past a drawn one, and no others. */
  lemma PossibleIffReachable(seconds: int, id: int)
    ensures Possible(seconds, id) <==> Reachable(seconds, id)
  {
    if Possible(seconds, id) {
      var millis, tail, drift :| Draws(seconds, id, millis, tail, drift);
      var jumps := Greedy(drift);
      var refused := (k: nat, i: int) => k < MAX_TRIES;
      GreedyDrift(drift, MAX_TRIES);
      assert ComesOut(seconds, id, millis, tail, jumps, refused, MAX_TRIES + 1);
    }
    if Reachable(seconds, id) {
      var millis, tail, jumps, refused, attempts: nat :|
        ComesOut(seconds, id, millis, tail, jumps, refused, attempts);
      DriftBound(jumps, attempts - 1);
      assert Draws(seconds, id, millis, tail, Drift(jumps, attempts - 1));
    }
  }

  /** Main result: two backdated records with different ids are always in the order of
      their seconds exactly when the seconds are at least two apart. */
  lemma OrderedFromTwoSeconds(s: int, t: int)
    requires s < t
    ensures s + 2 <= t <==> forall i, j | Reachable(s, i) && Reachable(t, j) && i != j :: i < j
  {
    forall k, i ensures Possible(k, i) <==> Reachable(k, i) {
      PossibleIffReachable(k, i);
    }
    if s + 2 <= t {
      forall i, j | Possible(s, i) && Possible(t, j) ensures i < j {
        var m, a, d :| Draws(s, i, m, a, d);
        var n, b, e :| Draws(t, j, n, b, e);
        DriftStaysInTick(s, m, a, d);
        DriftStaysInTick(t, n, b, e);
      }
    } else {
      var i, j := IdAt(s, 999, TICK - 1) + 2, IdAt(t, 0, 0);
      assert Draws(s, i, 999, TICK - 1, 2) && Draws(t, j, 0, 0, 0);
      assert Possible(s, i) && Possible(t, j) && i > j;
    }
  }
}
