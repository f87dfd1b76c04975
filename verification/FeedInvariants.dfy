/** What runs of feed operations keep: the deduplication guarantee, the exact content of
    the tracking index after a trim, and the containment of the suppressed sets. */
module FeedInvariants {
  import opened Wrappers
  import opened SortedSets
  import opened FeedState

  /** No two of the top `falloff` entries show the same post. */
  ghost predicate Deduplicated(lim: Limits, posts: Posts, timeline: set<Id>) {
    forall t, u | t in timeline && u in timeline && t != u &&
      RevRank(timeline, t) < lim.falloff && RevRank(timeline, u) < lim.falloff ::
      Shown(posts, t) != Shown(posts, u)
  }

  /** If the entry is a reblog, its original is tracked, and no trim untracks it while the
      entry is above the falloff entry: the score it is tracked under is not below the
      entry, or trims do not untrack at all. */
  ghost predicate CoveredEntry(lim: Limits, posts: Posts, reblogs: map<Id, Id>, t: Id) {
    t in posts && posts[t].reblogOf.Some? ==>
      var o := posts[t].reblogOf.value;
      o in reblogs && (reblogs[o] >= t || lim.falloff > lim.maxItems)
  }

  /** Every entry above the falloff entry is covered. */
  ghost predicate Covered(lim: Limits, posts: Posts, f: State) {
    forall t | t in f.timeline && RevRank(f.timeline, t) < lim.falloff - 1 :: CoveredEntry(lim, posts, f.reblogs, t)
  }

  /** What additions and trims need, and keep, for the top of a feed not to repeat itself. */
  ghost predicate NoRepeatInv(lim: Limits, posts: Posts, f: State) {
    Deduplicated(lim, posts, f.timeline) && Covered(lim, posts, f)
  }

  /** Every reblog above the falloff entry is tracked. */
  ghost predicate Tracked(lim: Limits, posts: Posts, f: State) {
    forall t, o | t in f.timeline && IsReblogOf(posts, t, o) && RevRank(f.timeline, t) < lim.falloff - 1 ::
      o in f.reblogs && f.reblogs[o] == t
  }

  /** Every tracked reblog is shown. */
  ghost predicate Anchored(posts: Posts, f: State) {
    forall o | o in f.reblogs :: f.reblogs[o] in f.timeline && IsReblogOf(posts, f.reblogs[o], o)
  }

  /** What makes the index exact at the next trim. */
  ghost predicate IndexInv(lim: Limits, posts: Posts, f: State) {
    NoRepeatInv(lim, posts, f) && Tracked(lim, posts, f) && Anchored(posts, f)
  }

  /** The entries that show `o` and are out of the index's sight are too low to clash. */
  ghost predicate Clear(lim: Limits, posts: Posts, timeline: set<Id>, n: Id) {
    forall t | t in timeline && t != n && Shown(posts, t) == Shown(posts, n) ::
      RevRank(timeline, t) >= lim.falloff - 1
  }

  lemma InsertKeepsDedup(lim: Limits, posts: Posts, timeline: set<Id>, n: Id)
    requires Deduplicated(lim, posts, timeline) && Clear(lim, posts, timeline, n)
    ensures Deduplicated(lim, posts, timeline + {n})
  {
    var after := timeline + {n};
    if n in timeline {
      assert after == timeline;
    } else {
      forall t, u | t in after && u in after && t != u &&
        RevRank(after, t) < lim.falloff && RevRank(after, u) < lim.falloff
        ensures Shown(posts, t) != Shown(posts, u)
      {
        RankGrows(timeline, after, t);
        RankGrows(timeline, after, u);
        if t == n {
          NewEntryClashesNot(lim, posts, timeline, n, u);
        } else if u == n {
          NewEntryClashesNot(lim, posts, timeline, n, t);
        }
      }
    }
  }

  lemma NewEntryClashesNot(lim: Limits, posts: Posts, timeline: set<Id>, n: Id, u: Id)
    requires Clear(lim, posts, timeline, n) && n !in timeline && u in timeline
    requires RevRank(timeline + {n}, u) < lim.falloff && RevRank(timeline + {n}, n) < lim.falloff
    ensures Shown(posts, n) != Shown(posts, u)
  {
    RankPushed(timeline, n, u);
    if u > n {
      RankOrder(timeline + {n}, u, n);
    }
  }

  lemma AddKeepsNoRepeat(lim: Limits, posts: Posts, f: State, s: Status)
    requires NoRepeatInv(lim, posts, f) && About(posts, Add(s))
    ensures NoRepeatInv(lim, posts, AfterAdd(lim, f, s).0)
  {
    var g := AfterAdd(lim, f, s).0;
    if g.timeline != f.timeline || g.reblogs != f.reblogs {
      InsertKeepsDedup(lim, posts, f.timeline, s.id);
      forall t | t in g.timeline && RevRank(g.timeline, t) < lim.falloff - 1
        ensures CoveredEntry(lim, posts, g.reblogs, t)
      {
        RankGrows(f.timeline, g.timeline, t);
      }
    }
  }

  lemma AddKeepsIndex(lim: Limits, posts: Posts, f: State, s: Status)
    requires IndexInv(lim, posts, f) && About(posts, Add(s))
    ensures IndexInv(lim, posts, AfterAdd(lim, f, s).0)
  {
    var g := AfterAdd(lim, f, s).0;
    AddKeepsNoRepeat(lim, posts, f, s);
    forall t, o | t in g.timeline && IsReblogOf(posts, t, o) && RevRank(g.timeline, t) < lim.falloff - 1
      ensures o in g.reblogs && g.reblogs[o] == t
    {
      RankGrows(f.timeline, g.timeline, t);
    }
  }

  /** The falloff score is the entry of rank `falloff - 1`, if there is one. */
  lemma FalloffEntry(lim: Limits, timeline: set<Id>)
    requires lim.falloff > 0
    ensures var x := FalloffScore(lim, timeline);
      if lim.falloff <= |timeline| then x in timeline && RevRank(timeline, x) == lim.falloff - 1 else x == 0
  {
    if lim.falloff <= |timeline| {
      DescAt(timeline, lim.falloff - 1);
      assert Desc(timeline)[lim.falloff - 1] in Desc(timeline);
    }
  }

  /** The entries above the falloff score are those of rank below `falloff - 1`. */
  lemma FalloffSplits(lim: Limits, timeline: set<Id>, t: Id)
    requires lim.falloff > 0 && t in timeline
    ensures t > FalloffScore(lim, timeline) <==> RevRank(timeline, t) < lim.falloff - 1
  {
    var x := FalloffScore(lim, timeline);
    FalloffEntry(lim, timeline);
    RankInBounds(timeline, t);
    if lim.falloff <= |timeline| {
      if t > x {
        RankOrder(timeline, t, x);
      } else if x > t {
        RankOrder(timeline, x, t);
      }
    }
  }

  /** `reblogs` holds exactly the reblogs above the falloff entry. */
  ghost predicate IndexExact(lim: Limits, posts: Posts, f: State) {
    forall o, r :: o in f.reblogs && f.reblogs[o] == r <==>
      r in f.timeline && IsReblogOf(posts, r, o) && RevRank(f.timeline, r) < lim.falloff - 1
  }

  /** A trim moves no entry that stays, and splits them at the falloff score. */
  lemma TrimRanks(lim: Limits, f: State)
    requires lim.falloff > 0
    ensures var g := AfterTrim(lim, f);
      && g.timeline == Top(f.timeline, lim.maxItems)
      && (forall t | t in g.timeline :: RevRank(g.timeline, t) == RevRank(f.timeline, t))
      && (forall t | t in g.timeline ::
           t > FalloffScore(lim, g.timeline) <==> RevRank(g.timeline, t) < lim.falloff - 1)
  {
    var g := AfterTrim(lim, f);
    RemLowestBeyondIsTop(f.timeline, lim.maxItems);
    forall t | t in g.timeline ensures RevRank(g.timeline, t) == RevRank(f.timeline, t) {
      TopKeepsRank(f.timeline, lim.maxItems, t);
    }
    forall t | t in g.timeline
      ensures t > FalloffScore(lim, g.timeline) <==> RevRank(g.timeline, t) < lim.falloff - 1
    {
      FalloffSplits(lim, g.timeline, t);
    }
  }

  lemma TrimKeepsNoRepeat(lim: Limits, posts: Posts, f: State)
    requires lim.falloff > 0 && NoRepeatInv(lim, posts, f)
    ensures NoRepeatInv(lim, posts, AfterTrim(lim, f))
  {
    TrimRanks(lim, f);
    if lim.falloff > lim.maxItems {
      FalloffBeyondSizeNeverUntracks(lim, f);
    }
  }

  lemma TrimKeepsIndex(lim: Limits, posts: Posts, f: State)
    requires 0 < lim.falloff <= lim.maxItems
    requires IndexInv(lim, posts, f)
    ensures IndexInv(lim, posts, AfterTrim(lim, f))
    ensures IndexExact(lim, posts, AfterTrim(lim, f))
  {
    var g := AfterTrim(lim, f);
    TrimRanks(lim, f);
    TrimKeepsNoRepeat(lim, posts, f);
    forall o | o in g.reblogs ensures g.reblogs[o] in g.timeline {
      TrackedSurvivesTrim(lim, f, g.reblogs[o]);
    }
  }

  lemma TrackedSurvivesTrim(lim: Limits, f: State, r: Id)
    requires 0 < lim.falloff <= lim.maxItems && r in f.timeline
    requires r > FalloffScore(lim, Top(f.timeline, lim.maxItems))
    ensures r in Top(f.timeline, lim.maxItems)
  {
    var top := Top(f.timeline, lim.maxItems);
    TopSize(f.timeline, lim.maxItems);
    RankInBounds(f.timeline, r);
    FalloffEntry(lim, top);
    if lim.falloff <= |top| {
      var x := FalloffScore(lim, top);
      TopKeepsRank(f.timeline, lim.maxItems, x);
      RankOrder(f.timeline, r, x);
    }
  }

  /** A run of additions and trims of rows of the table. */
  ghost predicate InsertRun(posts: Posts, steps: seq<Step>) {
    forall i | 0 <= i < |steps| :: !steps[i].Remove? && About(posts, steps[i])
  }

  /** The additions of merging and populating are such a run. */
  lemma {:induction false} InsertionsAreInsertRun(posts: Posts, list: seq<Status>, hidden: Status -> bool)
    requires forall i | 0 <= i < |list| :: list[i].id in posts && posts[list[i].id] == list[i]
    ensures InsertRun(posts, Insertions(list, hidden))
  {
    if list != [] {
      InsertionsAreInsertRun(posts, list[1..], hidden);
    }
  }

  lemma StepKeepsNoRepeat(lim: Limits, posts: Posts, f: State, step: Step)
    requires lim.falloff > 0
    requires NoRepeatInv(lim, posts, f) && !step.Remove? && About(posts, step)
    ensures NoRepeatInv(lim, posts, AfterStep(lim, f, step))
  {
    match step {
      case Add(s) => AddKeepsNoRepeat(lim, posts, f, s);
      case Trim => TrimKeepsNoRepeat(lim, posts, f);
    }
  }

  lemma {:induction false} RunKeepsNoRepeat(lim: Limits, posts: Posts, f: State, steps: seq<Step>)
    requires lim.falloff > 0
    requires NoRepeatInv(lim, posts, f) && InsertRun(posts, steps)
    ensures NoRepeatInv(lim, posts, Run(lim, f, steps))
    decreases |steps|
  {
    if steps != [] {
      StepKeepsNoRepeat(lim, posts, f, steps[0]);
      RunKeepsNoRepeat(lim, posts, AfterStep(lim, f, steps[0]), steps[1..]);
    }
  }

  /** Main result: whatever arrives in whatever order, no two of the top `falloff`
      entries of a feed show the same post, as the post itself or as a reblog of it. */
  lemma TopNeverRepeats(lim: Limits, posts: Posts, steps: seq<Step>)
    requires lim.falloff > 0 && InsertRun(posts, steps)
    ensures Deduplicated(lim, posts, Run(lim, EMPTY, steps).timeline)
  {
    RunKeepsNoRepeat(lim, posts, EMPTY, steps);
  }

  lemma StepKeepsIndex(lim: Limits, posts: Posts, f: State, step: Step)
    requires 0 < lim.falloff <= lim.maxItems
    requires IndexInv(lim, posts, f) && !step.Remove? && About(posts, step)
    ensures IndexInv(lim, posts, AfterStep(lim, f, step))
  {
    match step {
      case Add(s) => AddKeepsIndex(lim, posts, f, s);
      case Trim => TrimKeepsIndex(lim, posts, f);
    }
  }

  lemma {:induction false} RunKeepsIndex(lim: Limits, posts: Posts, f: State, steps: seq<Step>)
    requires 0 < lim.falloff <= lim.maxItems
    requires IndexInv(lim, posts, f) && InsertRun(posts, steps)
    ensures IndexInv(lim, posts, Run(lim, f, steps))
    decreases |steps|
  {
    if steps != [] {
      StepKeepsIndex(lim, posts, f, steps[0]);
      RunKeepsIndex(lim, posts, AfterStep(lim, f, steps[0]), steps[1..]);
    }
  }

  /** After a trim the index is exactly the reblogs above the falloff entry, hence has
      fewer than `falloff` entries, and the feed has at most `maxItems`. */
  lemma TrimMakesIndexExact(lim: Limits, posts: Posts, steps: seq<Step>)
    requires 0 < lim.falloff <= lim.maxItems && InsertRun(posts, steps)
    ensures var f := Run(lim, EMPTY, steps + [Trim]);
      IndexExact(lim, posts, f) && |f.reblogs| < lim.falloff && |f.timeline| <= lim.maxItems
  {
    var before := Run(lim, EMPTY, steps);
    RunConcat(lim, EMPTY, steps, [Trim]);
    RunKeepsIndex(lim, posts, EMPTY, steps);
    TrimKeepsIndex(lim, posts, before);
    RemLowestBeyondIsTop(before.timeline, lim.maxItems);
    TopSize(before.timeline, lim.maxItems);
    IndexSize(lim, posts, AfterTrim(lim, before));
  }

  /** The limits the server ships with. */
  lemma ShippedLimits(posts: Posts, steps: seq<Step>)
    requires InsertRun(posts, steps)
    ensures var f := Run(DEFAULT_LIMITS, EMPTY, steps + [Trim]); |f.reblogs| < 40 && |f.timeline| <= 400
  {
    TrimMakesIndexExact(DEFAULT_LIMITS, posts, steps);
  }

  lemma IndexSize(lim: Limits, posts: Posts, f: State)
    requires lim.falloff > 0 && IndexExact(lim, posts, f)
    ensures |f.reblogs| < lim.falloff
  {
    var top := Top(f.timeline, lim.falloff - 1);
    TopSize(f.timeline, lim.falloff - 1);
    MapsInto(f.reblogs, f.reblogs.Keys, top);
  }

  /** An injective map is no larger than a set holding its values. */
  lemma {:induction false} MapsInto(m: map<Id, Id>, keys: set<Id>, values: set<int>)
    requires keys <= m.Keys
    requires forall k | k in keys :: m[k] in values
    requires forall j, k | j in keys && k in keys && m[j] == m[k] :: j == k
    ensures |keys| <= |values|
  {
    if keys != {} {
      var k := Member(keys);
      MapsInto(m, keys - {k}, values - {m[k]});
    }
  }

  // ---- What is added ----

  ghost predicate ReblogNearTop(lim: Limits, posts: Posts, f: State, o: Id) {
    exists r :: r in f.timeline && IsReblogOf(posts, r, o) && RevRank(f.timeline, r) < lim.falloff - 1
  }

  /** On a feed just trimmed a reblog is added exactly when neither the original is among
      the top `falloff` entries nor a reblog of it above the last of these; and an
      original exactly when there is no such reblog. */
  lemma AdditionIsExact(lim: Limits, posts: Posts, f: State, s: Status)
    requires IndexExact(lim, posts, f)
    ensures AfterAdd(lim, f, s).1 <==>
      match s.reblogOf
      case Some(o) =>
        !(o in f.timeline && RevRank(f.timeline, o) < lim.falloff) && !ReblogNearTop(lim, posts, f, o)
      case None => !ReblogNearTop(lim, posts, f, s.id)
    ensures AfterAdd(lim, f, s).1 ==> AfterAdd(lim, f, s).0.timeline == f.timeline + {s.id}
    ensures !AfterAdd(lim, f, s).1 ==> AfterAdd(lim, f, s).0.timeline == f.timeline
  {
    var o := if s.reblogOf.Some? then s.reblogOf.value else s.id;
    if o in f.reblogs {
      var r := f.reblogs[o];
      assert r in f.timeline && IsReblogOf(posts, r, o) && RevRank(f.timeline, r) < lim.falloff - 1;
    }
  }

  // ---- Where the guarantee ends ----

  /** With a falloff beyond the size of a feed nothing is ever untracked. */
  lemma FalloffBeyondSizeNeverUntracks(lim: Limits, f: State)
    requires lim.falloff > lim.maxItems
    ensures AfterTrim(lim, f).reblogs == f.reblogs && AfterTrim(lim, f).extras == f.extras
  {
    RemLowestBeyondIsTop(f.timeline, lim.maxItems);
    TopSize(f.timeline, lim.maxItems);
  }

  /** After a trim the index has at most `bound` entries, whatever was added. */
  ghost predicate IndexBounded(lim: Limits, bound: int)
    requires lim.falloff > 0
  {
    forall posts, steps | InsertRun(posts, steps) :: |Run(lim, EMPTY, steps + [Trim]).reblogs| <= bound
  }

  /** The comment on the constants, exactly: the index stays bounded over all runs if and
      only if `REBLOG_FALLOFF <= MAX_ITEMS`; otherwise it grows forever. */
  lemma IndexBoundedIff(lim: Limits)
    requires lim.falloff > 0
    ensures lim.falloff <= lim.maxItems <==> exists bound :: IndexBounded(lim, bound)
  {
    if lim.falloff <= lim.maxItems {
      forall posts, steps | InsertRun(posts, steps)
        ensures |Run(lim, EMPTY, steps + [Trim]).reblogs| <= lim.falloff
      {
        TrimMakesIndexExact(lim, posts, steps);
      }
      assert IndexBounded(lim, lim.falloff);
    } else {
      forall bound: int ensures !IndexBounded(lim, bound) {
        var n: nat := if bound < 0 then 0 else bound + 1;
        IndexGrows(lim, n);
        RunConcat(lim, EMPTY, Growth(n), [Trim]);
        FalloffBeyondSizeNeverUntracks(lim, Run(lim, EMPTY, Growth(n)));
        GrowthIsInsertRun(n);
      }
    }
  }

  /** Reblog `2 k` of original `2 k - 1`. */
  function GrowthPost(k: nat): Status
    requires k > 0
  {
    Status(2 * k, 1, Some(2 * k - 1), false, None)
  }

  function GrowthPosts(n: nat): Posts {
    if n == 0 then map[] else GrowthPosts(n - 1)[2 * n := GrowthPost(n)]
  }

  /** `n` reblogs of different originals, with a trim after each. */
  function Growth(n: nat): seq<Step> {
    if n == 0 then [] else Growth(n - 1) + [Add(GrowthPost(n)), Trim]
  }

  lemma {:induction false} GrowthIsInsertRun(n: nat)
    ensures InsertRun(GrowthPosts(n), Growth(n))
    ensures forall i | i in GrowthPosts(n) :: i <= 2 * n
  {
    if n > 0 {
      GrowthIsInsertRun(n - 1);
    }
  }

  /** `n` originals are tracked, and the entries are even. */
  ghost predicate Grown(f: State, n: nat) {
    |f.reblogs| == n && (forall o | o in f.reblogs :: o < 2 * n) && (forall t | t in f.timeline :: t % 2 == 0)
  }

  lemma GrowthAdd(lim: Limits, f: State, n: nat)
    requires Grown(f, n)
    ensures Grown(AfterAdd(lim, f, GrowthPost(n + 1)).0, n + 1)
  {
    var o: Id := 2 * (n + 1) - 1;
    assert o % 2 == 1;
    assert o !in f.reblogs && o !in f.timeline;
    var g := AfterAdd(lim, f, GrowthPost(n + 1)).0;
    assert g.reblogs == f.reblogs[o := 2 * (n + 1)];
    assert g.timeline == f.timeline + {2 * (n + 1)};
  }

  lemma GrowthTrim(lim: Limits, f: State, n: nat)
    requires lim.falloff > lim.maxItems && Grown(f, n)
    ensures Grown(AfterTrim(lim, f), n)
  {
    FalloffBeyondSizeNeverUntracks(lim, f);
    assert AfterTrim(lim, f).timeline <= f.timeline;
  }

  lemma GrowthPush(lim: Limits, f: State, n: nat)
    requires lim.falloff > lim.maxItems && Grown(f, n)
    ensures Grown(Run(lim, f, [Add(GrowthPost(n + 1)), Trim]), n + 1)
  {
    PushIsRun(lim, f, GrowthPost(n + 1));
    GrowthAdd(lim, f, n);
    GrowthTrim(lim, AfterAdd(lim, f, GrowthPost(n + 1)).0, n + 1);
  }

  lemma GrowthStep(lim: Limits, steps: seq<Step>, n: nat)
    requires lim.falloff > lim.maxItems && Grown(Run(lim, EMPTY, steps), n)
    ensures Grown(Run(lim, EMPTY, steps + [Add(GrowthPost(n + 1)), Trim]), n + 1)
  {
    GrowthPush(lim, Run(lim, EMPTY, steps), n);
    RunConcat(lim, EMPTY, steps, [Add(GrowthPost(n + 1)), Trim]);
  }

  lemma {:induction false} IndexGrows(lim: Limits, n: nat)
    requires lim.falloff > lim.maxItems
    ensures Grown(Run(lim, EMPTY, Growth(n)), n)
  {
    if n > 0 {
      IndexGrows(lim, n - 1);
      GrowthStep(lim, Growth(n - 1), n - 1);
    }
  }

  const SMALL := Limits(4, 2)
  const SUNK := Status(10, 1, Some(5), false, None)
  const GONE := Status(20, 2, None, false, None)
  const TWIN := Status(30, 3, Some(5), false, None)
  const THREE_POSTS: Posts := map[10 := SUNK, 20 := GONE, 30 := TWIN]

  /** Removals are outside the guarantee: a reblog that was untracked because it had
      sunk rises again when an entry above it goes, and meets a new twin. */
  lemma RemovalBringsRepeat()
    ensures var f1 := AfterAdd(SMALL, EMPTY, SUNK).0;
      var f2 := AfterAdd(SMALL, f1, GONE).0;
      var f3 := AfterTrim(SMALL, f2);
      var f4 := AfterRemove(f3, GONE).0;
      var f5 := AfterAdd(SMALL, f4, TWIN).0;
      Deduplicated(SMALL, THREE_POSTS, f3.timeline) && !Deduplicated(SMALL, THREE_POSTS, f5.timeline)
  {
    var f2 := AfterAdd(SMALL, AfterAdd(SMALL, EMPTY, SUNK).0, GONE).0;
    assert f2 == State({10, 20}, map[5 := 10], map[]);
    SunkIsUntracked();
    var f5 := AfterAdd(SMALL, AfterRemove(AfterTrim(SMALL, f2), GONE).0, TWIN).0;
    assert f5.timeline == {10, 30};
    TwinsOnTop(f5.timeline);
  }

  lemma SunkIsUntracked()
    ensures AfterTrim(SMALL, State({10, 20}, map[5 := 10], map[])) == State({10, 20}, map[], map[])
  {
    var timeline: set<Id> := {10, 20};
    var reblogs: map<Id, Id> := map[5 := 10];
    SunkScore(timeline);
    assert TrackedUpTo(reblogs, FalloffScore(SMALL, timeline)) == {5};
    assert reblogs - {5} == map[];
  }

  lemma SunkScore(timeline: set<Id>)
    requires timeline == {10, 20}
    ensures RemLowestBeyond(timeline, SMALL.maxItems) == timeline
    ensures FalloffScore(SMALL, timeline) >= 10
  {
    assert Above(timeline, 10) == {20};
    FalloffSplits(SMALL, timeline, 10);
  }

  lemma TwinsOnTop(top: set<Id>)
    requires top == {10, 30}
    ensures !Deduplicated(SMALL, THREE_POSTS, top)
  {
    assert Above(top, 10) == {30} && Above(top, 30) == {};
    assert Shown(THREE_POSTS, 10) == Shown(THREE_POSTS, 30);
  }
}
