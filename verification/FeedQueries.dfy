/** The questions the feed operations put to the database and to the feed before they add
    or remove anything: which replies a list shows, which statuses are merged in and
    unmerged, and which page of the home timeline comes next. */
module FeedQueries {
  import opened Wrappers
  import opened SortedSets
  import opened FeedState
  import opened FeedRemoval
  import opened Lists

  // ---- Replies on lists ----

  /** A list shows a reply only when it is to its own author, to the owner of the list
      or to somebody on the list. */
  predicate ListShows(s: Status, owner: Id, members: set<Id>) {
    s.reply ==>
      s.inReplyToAccount.Some? && s.inReplyToAccount.value in {s.account, owner} + members
  }

  /** A status is kept from a list exactly when it is a reply to nobody known, or to
      somebody who is not its author, not the owner and not on the list. */
  lemma ListHidesIff(s: Status, owner: Id, members: set<Id>)
    ensures !ListShows(s, owner, members) <==>
      s.reply && forall a | s.inReplyToAccount == Some(a) :: a != s.account && a != owner && a !in members
  {
    if s.inReplyToAccount.Some? {
      var a := s.inReplyToAccount.value;
      assert s.inReplyToAccount == Some(a);
    }
  }

  // ---- What passes the filter ----

  function Additions(list: seq<Status>): (steps: seq<Step>)
    ensures |steps| == |list| && forall i | 0 <= i < |list| :: steps[i] == Add(list[i])
  {
    seq(|list|, i requires 0 <= i < |list| => Add(list[i]))
  }

  lemma AdditionsCons(s: Status, list: seq<Status>)
    ensures Additions([s] + list) == [Add(s)] + Additions(list)
  {
  }

  /** The additions of a loop are those of the posts that are not hidden, all of them, in
      the order of the list. */
  lemma {:induction false} InsertionsAreExact(list: seq<Status>, hidden: Status -> bool) returns (shown: seq<Status>)
    ensures Picks(shown, list, (s: Status) => !hidden(s))
    ensures Insertions(list, hidden) == Additions(shown)
  {
    var keep := (s: Status) => !hidden(s);
    if list == [] {
      shown := [];
      PicksNone(keep);
    } else {
      var rest := InsertionsAreExact(list[1..], hidden);
      PicksCons(list[0], rest, list[1..], keep);
      assert [list[0]] + list[1..] == list;
      AdditionsCons(list[0], rest);
      shown := (if hidden(list[0]) then [] else [list[0]]) + rest;
      assert [] + rest == rest;
    }
  }

  // ---- What is newer than the oldest entry ----

  /** `WHERE id > ?`. */
  function Newer(list: seq<Status>, id: int): seq<Status> {
    if list == [] then []
    else (if list[0].id > id then [list[0]] else []) + Newer(list[1..], id)
  }

  function OldestScore(timeline: set<Id>): int {
    if timeline == {} then 0 else Min(timeline)
  }

  /** The statuses `merge_into_timeline` looks at. */
  function MergedPart(lim: Limits, timeline: set<Id>, statuses: seq<Status>): seq<Status> {
    Limit(if |timeline| >= lim.maxItems / 4 then Newer(statuses, OldestScore(timeline)) else statuses,
          lim.maxItems / 4)
  }

  /** Newer than the oldest entry, if there is one. */
  ghost predicate AboveOldest(timeline: set<Id>, id: Id) {
    forall m | m in timeline && (forall t | t in timeline :: m <= t) :: id > m
  }

  lemma AboveOldestIff(timeline: set<Id>, id: Id)
    ensures AboveOldest(timeline, id) <==> id > OldestScore(timeline)
  {
    if timeline != {} {
      var m: Id := Min(timeline);
      assert m in timeline && forall t | t in timeline :: m <= t;
    }
  }

  /** What is selected are the statuses newer than the oldest entry, all of them and no
      others, in the order they are listed. */
  lemma {:induction false} NewerIsExact(timeline: set<Id>, list: seq<Status>)
    ensures Picks(Newer(list, OldestScore(timeline)), list, (s: Status) => AboveOldest(timeline, s.id))
  {
    var keep := (s: Status) => AboveOldest(timeline, s.id);
    if list == [] {
      PicksNone(keep);
    } else {
      NewerIsExact(timeline, list[1..]);
      AboveOldestIff(timeline, list[0].id);
      PicksCons(list[0], Newer(list[1..], OldestScore(timeline)), list[1..], keep);
      assert [list[0]] + list[1..] == list;
    }
  }

  lemma UnmergedIff(timeline: set<Id>, statuses: seq<Status>)
    ensures forall s :: s in Newer(statuses, OldestScore(timeline)) <==> s in statuses && AboveOldest(timeline, s.id)
  {
    NewerIsExact(timeline, statuses);
    PickedMembers(Newer(statuses, OldestScore(timeline)), statuses, (s: Status) => AboveOldest(timeline, s.id));
  }

  lemma {:induction false} PicksAll<T>(list: seq<T>, keep: T -> bool)
    requires forall i | 0 <= i < |list| :: keep(list[i])
    ensures Picks(list, list, keep)
  {
    if list == [] {
      PicksNone(keep);
    } else {
      PicksAll(list[1..], keep);
      PicksCons(list[0], list[1..], list[1..], keep);
      assert [list[0]] + list[1..] == list;
    }
  }

  /** What may be merged: anything, until the feed is a quarter full. */
  ghost predicate MayBeMerged(lim: Limits, timeline: set<Id>, s: Status) {
    |timeline| < lim.maxItems / 4 || AboveOldest(timeline, s.id)
  }

  /** What is merged is the first quarter of what may be, and no less of it. */
  lemma MergedPartIsExact(lim: Limits, timeline: set<Id>, statuses: seq<Status>) returns (all: seq<Status>)
    ensures Picks(all, statuses, s => MayBeMerged(lim, timeline, s))
    ensures var part := MergedPart(lim, timeline, statuses);
      |part| == (if |all| < lim.maxItems / 4 then |all| else lim.maxItems / 4) && part == all[..|part|]
  {
    var keep := s => MayBeMerged(lim, timeline, s);
    if |timeline| < lim.maxItems / 4 {
      all := statuses;
      PicksAll(statuses, keep);
    } else {
      all := Newer(statuses, OldestScore(timeline));
      NewerIsExact(timeline, statuses);
      SamePicks(all, statuses, (s: Status) => AboveOldest(timeline, s.id), keep);
    }
  }

  lemma MergedAboveOldest(lim: Limits, timeline: set<Id>, statuses: seq<Status>)
    requires |timeline| >= lim.maxItems / 4
    ensures forall t | t in Ids(MergedPart(lim, timeline, statuses)) :: AboveOldest(timeline, t)
  {
    var part := MergedPart(lim, timeline, statuses);
    UnmergedIff(timeline, statuses);
    forall t | t in Ids(part) ensures AboveOldest(timeline, t) {
      var i :| 0 <= i < |part| && part[i].id == t;
      assert part[i] in Newer(statuses, OldestScore(timeline));
    }
  }

  lemma SamePicks<T(!new)>(part: seq<T>, list: seq<T>, p: T -> bool, q: T -> bool)
    requires Picks(part, list, p) && forall x :: p(x) <==> q(x)
    ensures Picks(part, list, q)
  {
    var idx :| At(part, list, idx) && Rising(idx) && AllPlaces(list, p, idx);
    assert AllPlaces(list, q, idx);
  }

  lemma AllByPicked(posts: Posts, account: Id, part: seq<Status>, list: seq<Status>, keep: Status -> bool)
    requires AllBy(posts, account, list) && Picks(part, list, keep)
    ensures AllBy(posts, account, part)
  {
    PickedMembers(part, list, keep);
    forall i | 0 <= i < |part|
      ensures part[i].id in posts && posts[part[i].id] == part[i] && part[i].account == account
    {
      var s := part[i];
      assert s in part && s in list;
    }
  }

  /** Every status of the account is listed, in any order. */
  ghost predicate ListsAccount(posts: Posts, account: Id, statuses: seq<Status>) {
    AllBy(posts, account, statuses) && forall t | t in posts && posts[t].account == account :: posts[t] in statuses
  }

  /** Unmerging takes off every entry by the account but the oldest entry of the feed, which
      stays even when it is by the account, and keeps everybody else's. */
  lemma UnmergingSparesTheOldest(lim: Limits, f: State, posts: Posts, account: Id, statuses: seq<Status>)
    requires lim.falloff > 0
    requires Keyed(posts) && OneReblogPerAccount(posts) && ExtrasKnown(posts, f)
    requires ListsAccount(posts, account, statuses)
    ensures var g := Run(lim, f, Removals(Newer(statuses, OldestScore(f.timeline))));
      && (forall m | m in f.timeline && (forall t | t in f.timeline :: m <= t) :: m in g.timeline)
      && (forall t | t in g.timeline && t in posts && posts[t].account == account ::
           t in f.timeline && forall u | u in f.timeline :: t <= u)
      && (forall t | t in f.timeline && !(t in posts && posts[t].account == account) :: t in g.timeline)
  {
    var gone := Newer(statuses, OldestScore(f.timeline));
    NewerIsExact(f.timeline, statuses);
    AllByPicked(posts, account, gone, statuses, (s: Status) => AboveOldest(f.timeline, s.id));
    RemoveAllBy(lim, f, posts, account, gone);
    UnmergedIff(f.timeline, statuses);
    GoneIff(f.timeline, posts, account, statuses);
  }

  lemma GoneIff(timeline: set<Id>, posts: Posts, account: Id, statuses: seq<Status>)
    requires Keyed(posts) && ListsAccount(posts, account, statuses)
    ensures forall t :: t in Ids(Newer(statuses, OldestScore(timeline))) <==>
      t in posts && posts[t].account == account && AboveOldest(timeline, t)
  {
    var gone := Newer(statuses, OldestScore(timeline));
    UnmergedIff(timeline, statuses);
    forall t ensures t in Ids(gone) <==> t in posts && posts[t].account == account && AboveOldest(timeline, t) {
      if t in Ids(gone) {
        var i :| 0 <= i < |gone| && gone[i].id == t;
        assert gone[i] in gone && gone[i] in statuses;
      }
      if t in posts && posts[t].account == account && AboveOldest(timeline, t) {
        assert posts[t] in gone;
      }
    }
  }

  // ---- Pages ----

  ghost predicate NewestFirst(list: seq<Status>) {
    forall i, j | 0 <= i < j < |list| :: list[i].id > list[j].id
  }

  /** `paginate_by_max_id` without its limit. */
  function Older(list: seq<Status>, maxId: Option<Id>): seq<Status> {
    if maxId.None? || list == [] then list
    else (if list[0].id < maxId.value then [list[0]] else []) + Older(list[1..], maxId)
  }

  lemma {:induction false} OlderAll(list: seq<Status>, m: Id)
    requires forall i | 0 <= i < |list| :: list[i].id < m
    ensures Older(list, Some(m)) == list
  {
    if list != [] {
      OlderAll(list[1..], m);
    }
  }

  /** Asking for what is older than the last post of a page resumes right after it. */
  lemma {:induction false} OlderIsSuffix(list: seq<Status>, k: nat)
    requires NewestFirst(list) && 0 < k <= |list|
    ensures Older(list, Some(list[k - 1].id)) == list[k..]
  {
    if k == 1 {
      OlderAll(list[1..], list[0].id);
    } else {
      OlderIsSuffix(list[1..], k - 1);
      assert list[1..][k - 1..] == list[k..];
    }
  }

  /** The home timeline from `max_id` down: all older posts, in order. */
  lemma {:induction false} OlderIsExact(list: seq<Status>, maxId: Option<Id>)
    ensures Picks(Older(list, maxId), list, (s: Status) => forall m | maxId == Some(m) :: s.id < m)
  {
    var keep := (s: Status) => forall m | maxId == Some(m) :: s.id < m;
    if maxId.None? {
      PicksAll(list, keep);
    } else if list == [] {
      PicksNone(keep);
    } else {
      OlderIsExact(list[1..], maxId);
      PicksCons(list[0], Older(list[1..], maxId), list[1..], keep);
      assert [list[0]] + list[1..] == list;
    }
  }
}
