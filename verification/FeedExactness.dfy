/** What the deduplication invariant is worth: it holds of exactly those feeds whose top
    never repeats a post whatever arrives later, and a removal keeps it exactly when the
    entries that come up with it are harmless. */
module FeedExactness {
  import opened Wrappers
  import opened SortedSets
  import opened FeedState
  import opened FeedInvariants
  import opened FeedRemoval

  // ---- Feeds that stay deduplicated ----

  /** `posts'` is the table some time after `posts`. */
  ghost predicate Extends(posts: Posts, posts': Posts) {
    forall i | i in posts :: i in posts' && posts'[i] == posts[i]
  }

  /** However the table grows, and whatever rows of it are added in whatever order, with
      trims anywhere, no two of the top `falloff` entries show the same post. */
  ghost predicate StaysDeduplicated(lim: Limits, posts: Posts, f: State)
    requires lim.falloff > 0
  {
    forall posts', steps | Extends(posts, posts') && InsertRun(posts', steps) ::
      Deduplicated(lim, posts', Run(lim, f, steps).timeline)
  }

  /** `Status#set_reblog`: a reblog of a reblog is stored as one of the original. */
  ghost predicate Flat(posts: Posts) {
    forall r, o | IsReblogOf(posts, r, o) && o in posts :: posts[o].reblogOf.None?
  }

  /** Every tracked original is tracked under a reblog of it. */
  ghost predicate IndexKnown(posts: Posts, f: State) {
    forall o | o in f.reblogs :: IsReblogOf(posts, f.reblogs[o], o)
  }

  lemma {:induction false} RunKeepsIndexKnown(lim: Limits, posts: Posts, f: State, steps: seq<Step>)
    requires lim.falloff > 0 && IndexKnown(posts, f)
    requires forall i | 0 <= i < |steps| :: About(posts, steps[i])
    ensures IndexKnown(posts, Run(lim, f, steps))
    decreases |steps|
  {
    if steps != [] {
      RunKeepsIndexKnown(lim, posts, AfterStep(lim, f, steps[0]), steps[1..]);
    }
  }

  /** Below an entry above the score its original is tracked under, down to that score,
      there is another entry or an id nobody has. */
  ghost predicate Room(posts: Posts, f: State, t: Id) {
    forall o | IsReblogOf(posts, t, o) && o in f.reblogs && f.reblogs[o] < t ::
      exists x: Id :: f.reblogs[o] <= x < t && Enters(posts, f, x)
  }

  ghost predicate Enters(posts: Posts, f: State, x: Id) {
    x in f.timeline || (x !in posts && x !in f.reblogs)
  }

  function Original(n: Id): Status {
    Status(n, 1, None, false, None)
  }

  function NewReblog(n: Id, o: Id): Status {
    Status(n, 1, Some(o), false, None)
  }

  ghost predicate NewAreOriginals(posts: Posts, posts': Posts) {
    forall i | i in posts' && i !in posts :: posts'[i].reblogOf.None?
  }

  /** No id of the feed, the index or the table is as high as `n`. */
  ghost predicate Fresh(posts: Posts, f: State, n: Id) {
    (forall t | t in f.timeline :: t < n) && (forall o | o in f.reblogs :: o < n) && (forall i | i in posts :: i < n)
  }

  lemma FreshExists(posts: Posts, f: State) returns (n: Id)
    ensures Fresh(posts, f, n)
  {
    var ids := f.timeline + f.reblogs.Keys + posts.Keys + {1};
    assert 1 in ids;
    n := Max(ids) + 1;
  }

  /** A newer reblog of an untracked original joins its reblog near the top. */
  lemma UntrackedClashes(lim: Limits, posts: Posts, g: State, t: Id, o: Id, n: Id)
    requires t in g.timeline && IsReblogOf(posts, t, o) && RevRank(g.timeline, t) < lim.falloff - 1
    requires o !in g.reblogs && (o in posts ==> posts[o].reblogOf.None?)
    requires Fresh(posts, g, n)
    ensures var s := NewReblog(n, o);
      !Deduplicated(lim, posts[n := s], AfterAdd(lim, g, s).0.timeline)
  {
    var s := NewReblog(n, o);
    var posts' := posts[n := s];
    var after := AfterAdd(lim, g, s).0.timeline;
    assert Shown(posts', t) == o;
    if o in g.timeline && RevRank(g.timeline, o) < lim.falloff {
      assert Shown(posts', o) == o;
    } else {
      assert after == g.timeline + {n};
      RankPushed(g.timeline, n, t);
      assert Above(after, n) == {};
      assert RevRank(after, n) == 0;
      assert Shown(posts', n) == o;
    }
  }

  /** A trim untracks an original once an entry not below its score is the falloff entry. */
  lemma TrimUntracks(lim: Limits, f: State, t: Id, o: Id, x: Id)
    requires 0 < lim.falloff <= lim.maxItems
    requires t in f.timeline && x in f.timeline && RevRank(f.timeline, t) == lim.falloff - 2
    requires o in f.reblogs && f.reblogs[o] <= x < t
    ensures var g := AfterTrim(lim, f);
      o !in g.reblogs && t in g.timeline && RevRank(g.timeline, t) < lim.falloff - 1 && g.timeline <= f.timeline &&
      g.reblogs.Keys <= f.reblogs.Keys
  {
    TrimRanks(lim, f);
    var kept := Top(f.timeline, lim.maxItems);
    RankOrder(f.timeline, t, x);
    RankInBounds(f.timeline, x);
    TopSize(f.timeline, lim.maxItems);
    FalloffEntry(lim, kept);
    var e := FalloffScore(lim, kept);
    TopKeepsRank(f.timeline, lim.maxItems, e);
    if e < x {
      RankOrder(f.timeline, x, e);
    }
    assert o in TrackedUpTo(f.reblogs, e);
  }

  lemma InsertRunLater(posts: Posts, posts': Posts, steps: seq<Step>)
    requires Extends(posts, posts') && InsertRun(posts, steps)
    ensures InsertRun(posts', steps)
  {
  }

  lemma AddOriginal(lim: Limits, f: State, n: Id)
    requires lim.falloff > 0 && n !in f.reblogs
    ensures Run(lim, f, [Add(Original(n))]) == f.(timeline := f.timeline + {n})
  {
    PushIsRun(lim, f, Original(n));
  }

  /** `k` new posts push an entry `k` places down and change nothing else. */
  lemma {:induction false} Pushed(lim: Limits, posts: Posts, f: State, t: Id, k: nat)
    returns (posts': Posts, steps: seq<Step>)
    requires lim.falloff > 0 && t in f.timeline
    ensures Extends(posts, posts') && NewAreOriginals(posts, posts') && InsertRun(posts', steps)
    ensures var g := Run(lim, f, steps);
      && g.reblogs == f.reblogs && f.timeline <= g.timeline
      && RevRank(g.timeline, t) == RevRank(f.timeline, t) + k
    decreases k
  {
    posts', steps := posts, [];
    if k > 0 {
      var n := FreshExists(posts, f);
      var g := f.(timeline := f.timeline + {n});
      AddOriginal(lim, f, n);
      RankPushed(f.timeline, n, t);
      posts', steps := Pushed(lim, posts[n := Original(n)], g, t, k - 1);
      RunConcat(lim, f, [Add(Original(n))], steps);
      steps := [Add(Original(n))] + steps;
    }
  }

  /** An entry in the gap below `t`, so that a trim can get between `t` and the score its
      original is tracked under. */
  lemma GapFilled(lim: Limits, posts: Posts, f: State, t: Id, x: Id) returns (posts': Posts, steps: seq<Step>)
    requires lim.falloff > 0 && t in f.timeline && x < t && Enters(posts, f, x)
    ensures Extends(posts, posts') && NewAreOriginals(posts, posts') && InsertRun(posts', steps)
    ensures var g := Run(lim, f, steps);
      && g.reblogs == f.reblogs && f.timeline <= g.timeline && x in g.timeline
      && RevRank(g.timeline, t) == RevRank(f.timeline, t)
  {
    posts', steps := posts, [];
    if x !in f.timeline {
      posts', steps := posts[x := Original(x)], [Add(Original(x))];
      AddOriginal(lim, f, x);
      RankPushed(f.timeline, x, t);
    }
  }

  /** An entry whose original is tracked under a lower score can be made one whose
      original is not tracked. */
  lemma MadeUntracked(lim: Limits, posts: Posts, f: State, t: Id, o: Id)
    returns (posts': Posts, steps: seq<Step>)
    requires 0 < lim.falloff <= lim.maxItems && Room(posts, f, t)
    requires t in f.timeline && IsReblogOf(posts, t, o) && RevRank(f.timeline, t) < lim.falloff - 1
    requires o in f.reblogs && f.reblogs[o] < t
    ensures Extends(posts, posts') && NewAreOriginals(posts, posts') && InsertRun(posts', steps)
    ensures var g := Run(lim, f, steps);
      o !in g.reblogs && t in g.timeline && RevRank(g.timeline, t) < lim.falloff - 1
  {
    var x: Id :| f.reblogs[o] <= x < t && Enters(posts, f, x);
    var posts1, steps1 := GapFilled(lim, posts, f, t, x);
    var f1 := Run(lim, f, steps1);
    var posts2, steps2 := Pushed(lim, posts1, f1, t, lim.falloff - 2 - RevRank(f.timeline, t));
    var f2 := Run(lim, f1, steps2);
    TrimUntracks(lim, f2, t, o, x);
    RunConcat(lim, f, steps1, steps2);
    RunConcat(lim, f, steps1 + steps2, [Trim]);
    assert Run(lim, f2, [Trim]) == AfterTrim(lim, f2);
    InsertRunLater(posts1, posts2, steps1);
    posts', steps := posts2, steps1 + steps2 + [Trim];
  }

  /** An entry near the top that is not covered leads to a repeat. */
  lemma UncoveredRepeats(lim: Limits, posts: Posts, f: State, t: Id) returns (posts': Posts, steps: seq<Step>)
    requires lim.falloff > 0 && Flat(posts) && Room(posts, f, t)
    requires t in f.timeline && RevRank(f.timeline, t) < lim.falloff - 1 && !CoveredEntry(lim, posts, f.reblogs, t)
    ensures Extends(posts, posts') && InsertRun(posts', steps)
    ensures !Deduplicated(lim, posts', Run(lim, f, steps).timeline)
  {
    var o := posts[t].reblogOf.value;
    assert IsReblogOf(posts, t, o);
    posts', steps := posts, [];
    if o in f.reblogs {
      posts', steps := MadeUntracked(lim, posts, f, t, o);
    }
    var g := Run(lim, f, steps);
    var n := FreshExists(posts', g);
    var s := NewReblog(n, o);
    UntrackedClashes(lim, posts', g, t, o, n);
    InsertRunLater(posts', posts'[n := s], steps);
    RunConcat(lim, f, steps, [Add(s)]);
    PushIsRun(lim, g, s);
    posts', steps := posts'[n := s], steps + [Add(s)];
  }

  lemma LaterIsTheSame(lim: Limits, posts: Posts, posts': Posts, f: State)
    requires forall t | t in f.timeline :: (t in posts <==> t in posts') && (t in posts ==> posts[t] == posts'[t])
    ensures NoRepeatInv(lim, posts, f) <==> NoRepeatInv(lim, posts', f)
  {
    forall t | t in f.timeline
      ensures Shown(posts, t) == Shown(posts', t)
      ensures CoveredEntry(lim, posts, f.reblogs, t) == CoveredEntry(lim, posts', f.reblogs, t)
    {
    }
  }

  /** The rows of the entries. */
  function OnFeed(posts: Posts, f: State): Posts {
    map i | i in posts && i in f.timeline :: posts[i]
  }

  /** Every entry has its row. */
  ghost predicate Stored(posts: Posts, f: State) {
    forall t | t in f.timeline :: t in posts
  }

  /** Main result: a feed stays deduplicated, whatever is added to it later, if and only
      if it satisfies the invariant of additions and trims. */
  lemma StaysDeduplicatedIff(lim: Limits, posts: Posts, f: State)
    requires lim.falloff > 0 && Flat(posts) && Stored(posts, f)
    requires forall t | t in f.timeline && RevRank(f.timeline, t) < lim.falloff - 1 :: Room(posts, f, t)
    ensures StaysDeduplicated(lim, posts, f) <==> NoRepeatInv(lim, posts, f)
  {
    if NoRepeatInv(lim, posts, f) {
      forall posts', steps | Extends(posts, posts') && InsertRun(posts', steps)
        ensures Deduplicated(lim, posts', Run(lim, f, steps).timeline)
      {
        LaterIsTheSame(lim, posts, posts', f);
        RunKeepsNoRepeat(lim, posts', f, steps);
      }
    } else if Deduplicated(lim, posts, f.timeline) {
      var t :| t in f.timeline && RevRank(f.timeline, t) < lim.falloff - 1 && !CoveredEntry(lim, posts, f.reblogs, t);
      var posts', steps := UncoveredRepeats(lim, posts, f, t);
    } else {
      assert Run(lim, f, []) == f && Extends(posts, posts) && InsertRun(posts, []);
    }
  }

  lemma ScoreIsUntracked(posts: Posts, f: State, o: Id)
    requires Flat(posts) && IndexKnown(posts, f) && o in f.reblogs
    ensures f.reblogs[o] !in f.reblogs
  {
    forall p | p in f.reblogs ensures p != f.reblogs[o] {
      assert IsReblogOf(posts, f.reblogs[p], p) && IsReblogOf(posts, f.reblogs[o], o);
    }
  }

  /** When rows that are not on the feed may be any, there is always room. */
  lemma StaysDeduplicatedOnFeedIff(lim: Limits, posts: Posts, f: State)
    requires lim.falloff > 0 && Flat(posts) && Stored(posts, f) && IndexKnown(posts, f)
    ensures StaysDeduplicated(lim, OnFeed(posts, f), f) <==> NoRepeatInv(lim, posts, f)
  {
    var rows := OnFeed(posts, f);
    forall t | t in f.timeline ensures Room(rows, f, t) {
      forall o | IsReblogOf(rows, t, o) && o in f.reblogs && f.reblogs[o] < t
        ensures exists x: Id :: f.reblogs[o] <= x < t && Enters(rows, f, x)
      {
        var x := f.reblogs[o];
        ScoreIsUntracked(posts, f, o);
        assert Enters(rows, f, x);
      }
    }
    forall r, o | IsReblogOf(rows, r, o) && o in rows ensures rows[o].reblogOf.None? {
      assert IsReblogOf(posts, r, o);
    }
    LaterIsTheSame(lim, posts, rows, f);
    StaysDeduplicatedIff(lim, rows, f);
  }

  lemma StepKeepsStored(lim: Limits, posts: Posts, f: State, step: Step)
    requires lim.falloff > 0 && Stored(posts, f) && ExtrasKnown(posts, f) && About(posts, step)
    ensures Stored(posts, AfterStep(lim, f, step))
  {
    var g := AfterStep(lim, f, step);
    forall t | t in g.timeline ensures t in posts {
      if t !in f.timeline && step.Remove? {
        assert IsReblogOf(posts, t, step.status.reblogOf.value);
      }
    }
  }

  lemma {:induction false} RunKeepsStored(lim: Limits, posts: Posts, f: State, steps: seq<Step>)
    requires lim.falloff > 0 && Stored(posts, f) && ExtrasKnown(posts, f)
    requires forall i | 0 <= i < |steps| :: About(posts, steps[i])
    ensures Stored(posts, Run(lim, f, steps))
    decreases |steps|
  {
    if steps != [] {
      StepKeepsStored(lim, posts, f, steps[0]);
      StepKeepsExtrasKnown(lim, posts, f, steps[0]);
      RunKeepsStored(lim, posts, AfterStep(lim, f, steps[0]), steps[1..]);
    }
  }

  /** Main result: a feed that came about by additions, removals and trims in any order
      stays deduplicated, whatever is added to it later, if and only if it satisfies the
      invariant of additions and trims. */
  lemma ReachableStaysDeduplicatedIff(lim: Limits, posts: Posts, steps: seq<Step>)
    requires lim.falloff > 0 && Flat(posts)
    requires forall i | 0 <= i < |steps| :: About(posts, steps[i])
    ensures var f := Run(lim, EMPTY, steps);
      StaysDeduplicated(lim, OnFeed(posts, f), f) <==> NoRepeatInv(lim, posts, f)
  {
    RunKeepsStored(lim, posts, EMPTY, steps);
    RunKeepsIndexKnown(lim, posts, EMPTY, steps);
    StaysDeduplicatedOnFeedIff(lim, posts, Run(lim, EMPTY, steps));
  }

  // ---- Removals ----

  /** The reblog a removal uncovers, when it is not an entry already. */
  function Uncovered(f: State, s: Status): set<Id> {
    if s.reblogOf.Some? && s.id in f.timeline && Suppressed(f, s.reblogOf.value) - {s.id} != {} then
      {Min(Suppressed(f, s.reblogOf.value) - {s.id})} - f.timeline
    else {}
  }

  /** The entries once `s` is off the feed. */
  function Without(f: State, s: Status): set<Id> {
    f.timeline - {s.id} + Uncovered(f, s)
  }

  /** An entry below the removed one that no uncovered reblog holds down. */
  ghost predicate Rises(f: State, s: Status, x: Id) {
    s.id in f.timeline && x in f.timeline && x < s.id && forall c | c in Uncovered(f, s) :: c < x
  }

  /** No other of the top `falloff` entries shows the post of `x`. */
  ghost predicate Alone(lim: Limits, posts: Posts, timeline: set<Id>, x: Id) {
    forall y | y in timeline && y != x && RevRank(timeline, y) < lim.falloff :: Shown(posts, y) != Shown(posts, x)
  }

  /** What has to be looked at before a removal: the entry that comes up to be above the
      falloff entry, the one that comes up to be the falloff entry, and the reblog that is
      uncovered, if it is that high. */
  ghost predicate SafeRemoval(lim: Limits, posts: Posts, f: State, s: Status) {
    var after := Without(f, s);
    && (forall x | x in f.timeline && RevRank(f.timeline, x) == lim.falloff - 1 && Rises(f, s, x) ::
         CoveredEntry(lim, posts, f.reblogs, x))
    && (forall x | x in f.timeline && RevRank(f.timeline, x) == lim.falloff && Rises(f, s, x) ::
         Alone(lim, posts, after, x))
    && (forall c | c in Uncovered(f, s) ::
         && (RevRank(after, c) < lim.falloff - 1 ==> CoveredEntry(lim, posts, f.reblogs, c))
         && (RevRank(after, c) < lim.falloff ==> Alone(lim, posts, after, c)))
  }

  lemma RemovalLeaves(f: State, s: Status)
    ensures AfterRemove(f, s).0.timeline == Without(f, s) && AfterRemove(f, s).0.reblogs == f.reblogs
  {
  }

  lemma RankWithout(z: set<Id>, gone: Id, x: Id)
    requires gone in z
    ensures RevRank(z - {gone}, x) == RevRank(z, x) - (if gone > x then 1 else 0)
  {
    assert z - {gone} + {gone} == z;
    RankPushed(z - {gone}, gone, x);
  }

  /** An entry that stays comes up by one place if it rises, and may sink by one below the
      uncovered reblog. */
  lemma RankAfter(f: State, s: Status, x: Id)
    requires s.id in f.timeline && x in f.timeline && x != s.id
    ensures Rises(f, s, x) ==> RevRank(Without(f, s), x) == RevRank(f.timeline, x) - 1
    ensures !Rises(f, s, x) ==> RevRank(Without(f, s), x) >= RevRank(f.timeline, x)
  {
    var rest := f.timeline - {s.id};
    RankWithout(f.timeline, s.id, x);
    if Uncovered(f, s) == {} {
      assert Without(f, s) == rest;
    } else {
      var c := Min(Suppressed(f, s.reblogOf.value) - {s.id});
      assert Uncovered(f, s) == {c} && Without(f, s) == rest + {c};
      assert c !in rest && c in Uncovered(f, s);
      RankPushed(rest, c, x);
    }
  }

  lemma SafeKeepsCovered(lim: Limits, posts: Posts, f: State, s: Status)
    requires s.id in f.timeline && NoRepeatInv(lim, posts, f) && SafeRemoval(lim, posts, f, s)
    ensures Covered(lim, posts, AfterRemove(f, s).0)
  {
    var after := Without(f, s);
    RemovalLeaves(f, s);
    forall x | x in after && RevRank(after, x) < lim.falloff - 1 ensures CoveredEntry(lim, posts, f.reblogs, x) {
      if x in f.timeline {
        RankAfter(f, s, x);
      }
    }
  }

  lemma SafeKeepsDeduplicated(lim: Limits, posts: Posts, f: State, s: Status)
    requires s.id in f.timeline && NoRepeatInv(lim, posts, f) && SafeRemoval(lim, posts, f, s)
    ensures Deduplicated(lim, posts, AfterRemove(f, s).0.timeline)
  {
    var after := Without(f, s);
    RemovalLeaves(f, s);
    forall x | x in after && RevRank(after, x) < lim.falloff
      ensures Alone(lim, posts, after, x) || (x in f.timeline && RevRank(f.timeline, x) < lim.falloff)
    {
      if x in f.timeline {
        RankAfter(f, s, x);
      }
    }
  }

  lemma KeptIsSafe(lim: Limits, posts: Posts, f: State, s: Status)
    requires s.id in f.timeline && NoRepeatInv(lim, posts, AfterRemove(f, s).0)
    ensures SafeRemoval(lim, posts, f, s)
  {
    var after := Without(f, s);
    RemovalLeaves(f, s);
    forall x | x in f.timeline && Rises(f, s, x) ensures RevRank(after, x) == RevRank(f.timeline, x) - 1 {
      RankAfter(f, s, x);
    }
  }

  /** Main result: a removal keeps the invariant of additions and trims if and only if the
      entries that come up are harmless, which can be told before it. */
  lemma RemovalKeepsNoRepeatIff(lim: Limits, posts: Posts, f: State, s: Status)
    requires NoRepeatInv(lim, posts, f)
    ensures NoRepeatInv(lim, posts, AfterRemove(f, s).0) <==> SafeRemoval(lim, posts, f, s)
  {
    RemovalLeaves(f, s);
    if s.id !in f.timeline {
      assert Without(f, s) == f.timeline;
    } else if SafeRemoval(lim, posts, f, s) {
      SafeKeepsCovered(lim, posts, f, s);
      SafeKeepsDeduplicated(lim, posts, f, s);
    } else if NoRepeatInv(lim, posts, AfterRemove(f, s).0) {
      KeptIsSafe(lim, posts, f, s);
    }
  }

  /** So a removal leaves a feed that stays deduplicated whatever is added to it later if
      and only if it is safe. */
  lemma SafeIsExact(lim: Limits, posts: Posts, f: State, s: Status)
    requires lim.falloff > 0 && NoRepeatInv(lim, posts, f)
    requires Flat(posts) && Stored(posts, f) && IndexKnown(posts, f) && ExtrasKnown(posts, f)
    ensures var g := AfterRemove(f, s).0;
      StaysDeduplicated(lim, OnFeed(posts, g), g) <==> SafeRemoval(lim, posts, f, s)
  {
    var g := AfterRemove(f, s).0;
    RemovalLeaves(f, s);
    forall t | t in g.timeline ensures t in posts {
      if t !in f.timeline {
        assert IsReblogOf(posts, t, s.reblogOf.value);
      }
    }
    RemovalKeepsNoRepeatIff(lim, posts, f, s);
    StaysDeduplicatedOnFeedIff(lim, posts, g);
  }

  /** The reblog 30 of 5 was set aside while 10 was tracked; uncovered by the removal of 10
      it is on top, but 5 is still tracked under 10, and the next trim untracks it. */
  lemma ComebackIsUnsafe()
    ensures var f := State({10, 20}, map[5 := 10], map[5 := {30}]);
      NoRepeatInv(SMALL, THREE_POSTS, f) && !SafeRemoval(SMALL, THREE_POSTS, f, SUNK)
  {
    var timeline: set<Id> := {10, 20};
    var aside: set<Id> := {30};
    var f := State(timeline, map[5 := 10], map[5 := aside]);
    assert Above(timeline, 10) == {20} && Above(timeline, 20) == {};
    assert Suppressed(f, 5) - {10} == aside && Min(aside) == 30;
    assert Uncovered(f, SUNK) == {30};
    var after := Without(f, SUNK);
    assert after == {20, 30} && Above(after, 30) == {};
    assert RevRank(after, 30) == 0 && 30 in Uncovered(f, SUNK);
    assert !CoveredEntry(SMALL, THREE_POSTS, f.reblogs, 30);
  }

  /** Every removal of the run is safe on the feed it meets. */
  ghost predicate SafeRun(lim: Limits, posts: Posts, f: State, steps: seq<Step>)
    requires lim.falloff > 0
    decreases |steps|
  {
    steps == [] ||
    (About(posts, steps[0]) && (steps[0].Remove? ==> SafeRemoval(lim, posts, f, steps[0].status)) &&
     SafeRun(lim, posts, AfterStep(lim, f, steps[0]), steps[1..]))
  }

  /** With safe removals among the additions and trims the top never repeats either. */
  lemma {:induction false} SafeRunKeepsNoRepeat(lim: Limits, posts: Posts, f: State, steps: seq<Step>)
    requires lim.falloff > 0 && NoRepeatInv(lim, posts, f) && SafeRun(lim, posts, f, steps)
    ensures NoRepeatInv(lim, posts, Run(lim, f, steps))
    decreases |steps|
  {
    if steps != [] {
      if steps[0].Remove? {
        RemovalKeepsNoRepeatIff(lim, posts, f, steps[0].status);
      } else {
        StepKeepsNoRepeat(lim, posts, f, steps[0]);
      }
      SafeRunKeepsNoRepeat(lim, posts, AfterStep(lim, f, steps[0]), steps[1..]);
    }
  }
}
