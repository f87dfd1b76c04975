/** The rewriting of feeds of the old representation, where a reblog was stored as the
    reblogged id with the score of the reblogging id, into the one of FeedState. */
module FeedMigration {
  import opened SortedSets
  import opened FeedState
  import opened FeedInvariants

  /** A sorted set whose scores need not be its members. */
  type ZSet = map<Id, Id>

  /** `s` is `ZREVRANGE z 0 -1`: every member once, highest score first. */
  ghost predicate InFeedOrder(z: ZSet, s: seq<Id>) {
    && |s| == |z|
    && (forall i | 0 <= i < |s| :: s[i] in z)
    && (forall i, j | 0 <= i < j < |s| :: z[s[i]] > z[s[j]])
  }

  /** `items` is `ZRANGE z 0 -1 WITHSCORES`, as pairs. */
  ghost predicate ItemsOf(z: ZSet, items: seq<(Id, Id)>) {
    && (forall i | 0 <= i < |items| :: items[i].0 in z && z[items[i].0] == items[i].1)
    && (forall m | m in z :: exists i :: 0 <= i < |items| && items[i].0 == m)
    && (forall i, j | 0 <= i < j < |items| :: items[i].0 != items[j].0)
  }

  predicate IsReblog(posts: Posts, id: Id) {
    id in posts && posts[id].reblogOf.Some?
  }

  /** What the old code stored: no member is a reblog, and a score that is not the member
      is a reblog of it. */
  ghost predicate OldFeed(posts: Posts, z: ZSet) {
    forall m | m in z :: !IsReblog(posts, m) && (z[m] == m || IsReblogOf(posts, z[m], m))
  }

  /** The entries of the old feed that are reblogs. */
  function ReblogEntries(z: ZSet): ZSet {
    map o | o in z && z[o] != o :: z[o]
  }

  /** The entries and the index the migration leaves behind. */
  ghost predicate Migrated(z: ZSet, timeline: ZSet, reblogs: ZSet) {
    && timeline.Keys == z.Values
    && (forall t | t in timeline :: timeline[t] == t)
    && reblogs == ReblogEntries(z)
  }

  /** The Lua script over one feed and its index. */
  class OldTimeline {
    var timeline: ZSet
    var reblogs: ZSet

    method Migrate(ghost posts: Posts, items: seq<(Id, Id)>)
      requires OldFeed(posts, timeline) && ItemsOf(timeline, items) && reblogs == map[]
      modifies this
      ensures Migrated(old(timeline), timeline, reblogs)
    {
      ghost var z := timeline;
      ghost var done: set<Id> := {};
      for i := 0 to |items|
        invariant Progress(z, items, i, done, timeline, reblogs)
      {
        var reblogged, reblogging := items[i].0, items[i].1;
        Proceeds(posts, z, items, i, done, timeline, reblogs);
        if reblogged != reblogging {
          timeline := timeline - {reblogged};
          timeline := timeline[reblogging := reblogging];
          reblogs := reblogs[reblogged := reblogging];
        }
        done := done + {reblogged};
      }
      Finished(z, items, done, timeline, reblogs);
    }
  }

  function Scores(z: ZSet, members: set<Id>): set<Id> {
    set m | m in z && m in members :: z[m]
  }

  /** `timeline` is the feed once the entries of the members in `done` are rewritten. */
  ghost predicate PartlyRewritten(z: ZSet, done: set<Id>, timeline: ZSet) {
    && timeline.Keys == (z.Keys - done) + Scores(z, done)
    && forall t | t in timeline :: timeline[t] == if t in z && t !in done then z[t] else t
  }

  function PartlyIndexed(z: ZSet, done: set<Id>): ZSet {
    map o | o in z && o in done && z[o] != o :: z[o]
  }

  lemma Rewritten(posts: Posts, z: ZSet, done: set<Id>, m: Id, timeline: ZSet)
    requires OldFeed(posts, z) && m in z && m !in done && PartlyRewritten(z, done, timeline)
    ensures PartlyRewritten(z, done + {m}, if z[m] != m then (timeline - {m})[z[m] := z[m]] else timeline)
  {
    var s := z[m];
    assert Scores(z, done + {m}) == Scores(z, done) + {s};
    if s == m {
      assert (z.Keys - (done + {m})) + {s} == z.Keys - done;
    } else {
      assert !IsReblog(posts, m) && IsReblog(posts, s);
      assert s !in z;
      NotAScore(posts, z, done, m);
      assert (z.Keys - done) + Scores(z, done) - {m} + {s} == (z.Keys - (done + {m})) + (Scores(z, done) + {s});
    }
  }

  /** A member whose entry is still to come is nobody's new entry yet. */
  lemma NotAScore(posts: Posts, z: ZSet, done: set<Id>, m: Id)
    requires OldFeed(posts, z) && m in z && m !in done
    ensures m !in Scores(z, done)
  {
    if k :| k in z && k in done && z[k] == m {
      assert !IsReblog(posts, m);
      assert k == m || IsReblogOf(posts, m, k);
    }
  }

  /** The members of the first `i` items are done. */
  ghost predicate Progress(z: ZSet, items: seq<(Id, Id)>, i: int, done: set<Id>, timeline: ZSet, reblogs: ZSet) {
    && done <= z.Keys && (forall j | 0 <= j < |items| :: items[j].0 in done <==> j < i)
    && PartlyRewritten(z, done, timeline)
    && reblogs == PartlyIndexed(z, done)
  }

  lemma Proceeds(posts: Posts, z: ZSet, items: seq<(Id, Id)>, i: nat, done: set<Id>, timeline: ZSet, reblogs: ZSet)
    requires OldFeed(posts, z) && ItemsOf(z, items) && i < |items|
    requires Progress(z, items, i, done, timeline, reblogs)
    ensures var (m, s) := (items[i].0, items[i].1);
      Progress(z, items, i + 1, done + {m}, if m != s then (timeline - {m})[s := s] else timeline,
               if m != s then reblogs[m := s] else reblogs)
  {
    Rewritten(posts, z, done, items[i].0, timeline);
    Indexed(z, done, items[i].0);
  }

  lemma Finished(z: ZSet, items: seq<(Id, Id)>, done: set<Id>, timeline: ZSet, reblogs: ZSet)
    requires ItemsOf(z, items) && Progress(z, items, |items|, done, timeline, reblogs)
    ensures Migrated(z, timeline, reblogs)
  {
    assert done == z.Keys;
    assert Scores(z, done) == z.Values;
  }

  lemma Indexed(z: ZSet, done: set<Id>, m: Id)
    requires m in z && m !in done
    ensures PartlyIndexed(z, done + {m}) ==
      if z[m] != m then PartlyIndexed(z, done)[m := z[m]] else PartlyIndexed(z, done)
  {
  }

  /** Every entry of the new feed shows the post the old entry of its score showed. */
  lemma ScoreShowsMember(posts: Posts, z: ZSet, m: Id)
    requires OldFeed(posts, z) && m in z
    ensures Shown(posts, z[m]) == m
  {
  }

  /** Main result: readers see the same posts in the same order. */
  lemma MigrationKeepsDisplay(posts: Posts, z: ZSet, timeline: ZSet, reblogs: ZSet, before: seq<Id>, after: seq<Id>)
    requires OldFeed(posts, z) && Migrated(z, timeline, reblogs)
    requires InFeedOrder(z, before) && InFeedOrder(timeline, after)
    ensures |before| == |after| && forall i | 0 <= i < |after| :: Shown(posts, after[i]) == before[i]
  {
    var scores := ScoresOf(z, before);
    SameScores(z, timeline, before, after);
    SameDescending(scores, after);
    forall i | 0 <= i < |after| ensures Shown(posts, after[i]) == before[i] {
      ScoreShowsMember(posts, z, before[i]);
    }
  }

  function ScoresOf(z: ZSet, s: seq<Id>): (scores: seq<Id>)
    requires forall i | 0 <= i < |s| :: s[i] in z
    ensures |scores| == |s| && forall i | 0 <= i < |s| :: scores[i] == z[s[i]]
  {
    seq(|s|, i requires 0 <= i < |s| => z[s[i]])
  }

  /** Both orders list the same scores. */
  lemma SameScores(z: ZSet, timeline: ZSet, before: seq<Id>, after: seq<Id>)
    requires timeline.Keys == z.Values
    requires InFeedOrder(z, before) && InFeedOrder(timeline, after)
    ensures forall x :: x in ScoresOf(z, before) <==> x in after
  {
    var scores := ScoresOf(z, before);
    OrderListsAll(z, before);
    OrderListsAll(timeline, after);
    forall x ensures x in scores <==> x in z.Values {
      if x in scores {
        var i :| 0 <= i < |scores| && scores[i] == x;
        assert before[i] in z;
      }
      if x in z.Values {
        var m: Id :| m in z && z[m] == x;
        var i :| 0 <= i < |before| && before[i] == m;
        assert scores[i] == x;
      }
    }
  }

  lemma OrderListsAll(z: ZSet, s: seq<Id>)
    requires InFeedOrder(z, s)
    ensures forall m | m in z :: m in s
  {
    var listed := set i | 0 <= i < |s| :: s[i];
    DistinctSize(s, listed);
    assert listed <= z.Keys;
    SubsetSize(listed, z.Keys);
  }

  lemma {:induction false} DistinctSize(s: seq<Id>, z: set<Id>)
    requires forall i, j | 0 <= i < j < |s| :: s[i] != s[j]
    requires forall x :: x in z <==> x in s
    ensures |z| == |s|
  {
    if s == [] {
      assert z == {};
    } else {
      var last := |s| - 1;
      assert s == s[..last] + [s[last]];
      DistinctSize(s[..last], z - {s[last]});
      assert s[last] in s;
    }
  }

  /** Main result: whatever the limits, the migrated feed is one that runs of additions
      and trims may start from, and its index is exactly the reblogs present. */
  lemma MigrationEstablishesInvariant(lim: Limits, posts: Posts, z: ZSet, timeline: ZSet, reblogs: ZSet)
    requires OldFeed(posts, z) && Migrated(z, timeline, reblogs)
    ensures IndexInv(lim, posts, State(timeline.Keys, reblogs, map[]))
    ensures forall o, r :: o in reblogs && reblogs[o] == r <==> r in timeline && IsReblogOf(posts, r, o)
  {
    forall t | t in timeline ensures Shown(posts, t) in z && z[Shown(posts, t)] == t {
      var m :| m in z && z[m] == t;
      ScoreShowsMember(posts, z, m);
    }
    forall o, r ensures o in reblogs && reblogs[o] == r <==> r in timeline && IsReblogOf(posts, r, o) {
      if o in z && z[o] == r && r != o {
        assert r in z.Values;
      }
      if r in timeline && IsReblogOf(posts, r, o) {
        assert Shown(posts, r) == o && !IsReblog(posts, o);
      }
    }
  }
}
