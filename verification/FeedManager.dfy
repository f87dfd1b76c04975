/** One feed and the FeedManager operations that change it in place.  Each method leaves
    the feed in the state a run of the steps of FeedState leaves it in. */
module FeedManager {
  import opened Wrappers
  import opened SortedSets
  import opened FeedState
  import opened FeedInvariants
  import opened FeedRemoval
  import opened FeedQueries
  import opened Lists

  class Feed {
    const limits: Limits
    var timeline: set<Id>
    var reblogs: map<Id, Id>
    var extras: map<Id, set<Id>>

    ghost function State(): FeedState.State
      reads this
    {
      FeedState.State(timeline, reblogs, extras)
    }

    constructor (limits: Limits)
      ensures this.limits == limits && State() == EMPTY
    {
      this.limits := limits;
      timeline, reblogs, extras := {}, map[], map[];
    }

    method AddToFeed(s: Status) returns (added: bool)
      modifies this
      ensures (State(), added) == AfterAdd(limits, old(State()), s)
    {
      match s.reblogOf {
        case Some(original) =>
          if original in timeline && RevRank(timeline, original) < limits.falloff {
            return false;
          }
          if original !in reblogs {
            timeline := timeline + {s.id};
            reblogs := reblogs[original := s.id];
          } else {
            var extra := if original in extras then extras[original] else {};
            extras := extras[original := extra + {s.id}];
            return false;
          }
        case None =>
          if s.id in reblogs {
            return false;
          }
          timeline := timeline + {s.id};
      }
      return true;
    }

    method RemoveFromFeed(s: Status) returns (removed: bool)
      modifies this
      ensures (State(), removed) == AfterRemove(old(State()), s)
    {
      match s.reblogOf {
        case Some(original) =>
          if s.id !in timeline {
            return false;
          }
          var rest := (if original in extras then extras[original] else {}) - {s.id};
          if rest == {} {
            extras := extras - {original};
          } else {
            extras := extras[original := rest];
            var otherReblog: Id := Min(rest);
            timeline := timeline + {otherReblog};
          }
        case None =>
          extras := extras - {s.id};
      }
      removed := s.id in timeline;
      timeline := timeline - {s.id};
    }

    method Trim()
      requires limits.falloff > 0
      modifies this
      ensures State() == AfterTrim(limits, old(State()))
    {
      timeline := RemLowestBeyond(timeline, limits.maxItems);
      var falloffScore := match RevEntry(timeline, limits.falloff - 1)
        case Some(score) => score
        case None => 0;
      var gone := TrackedUpTo(reblogs, falloffScore);
      var pending := gone;
      while pending != {}
        invariant pending <= gone
        invariant timeline == AfterTrim(limits, old(State())).timeline
        invariant reblogs == old(reblogs) - (gone - pending)
        invariant extras == old(extras) - (gone - pending)
      {
        ghost var any := Member(pending);
        var reblogged :| reblogged in pending;
        reblogs := reblogs - {reblogged};
        extras := extras - {reblogged};
        pending := pending - {reblogged};
      }
    }

    method PushToHome(s: Status) returns (pushed: bool)
      requires limits.falloff > 0
      modifies this
      ensures pushed == AfterAdd(limits, old(State()), s).1
      ensures State() == Run(limits, old(State()), if pushed then [Add(s), Step.Trim] else [Add(s)])
    {
      PushIsRun(limits, State(), s);
      pushed := AddToFeed(s);
      if pushed {
        Trim();
      }
    }

    /** `owner` and `members` are the account of the list and the accounts on it. */
    method PushToList(s: Status, owner: Id, members: set<Id>) returns (pushed: bool)
      requires limits.falloff > 0
      modifies this
      ensures ListShows(s, owner, members) ==>
        pushed == AfterAdd(limits, old(State()), s).1 &&
        State() == Run(limits, old(State()), if pushed then [Add(s), Step.Trim] else [Add(s)])
      ensures !ListShows(s, owner, members) ==> !pushed && State() == old(State())
    {
      if s.reply && s.inReplyToAccount != Some(s.account) {
        var shouldFilter := s.inReplyToAccount != Some(owner);
        shouldFilter := shouldFilter && !(s.inReplyToAccount.Some? && s.inReplyToAccount.value in members);
        if shouldFilter {
          return false;
        }
      }
      pushed := PushToHome(s);
    }

    /** `statuses` are the statuses of the merged account, newest first; `hidden` is the
        visibility test and the home filter. */
    method MergeIntoTimeline(statuses: seq<Status>, hidden: Status -> bool)
      requires limits.falloff > 0
      modifies this
      ensures State() == Run(limits, old(State()),
        Insertions(MergedPart(limits, old(timeline), statuses), hidden) + [Step.Trim])
    {
      var query := statuses;
      if |timeline| >= limits.maxItems / 4 {
        query := Newer(statuses, OldestScore(timeline));
      }
      query := Limit(query, limits.maxItems / 4);
      var n := AddAll(query, hidden);
      RunConcat(limits, old(State()), Insertions(query, hidden), [Step.Trim]);
      Trim();
    }

    method AddAll(list: seq<Status>, hidden: Status -> bool) returns (added: nat)
      requires limits.falloff > 0
      modifies this
      ensures State() == Run(limits, old(State()), Insertions(list, hidden))
      ensures added == AddedCount(limits, old(State()), Insertions(list, hidden))
    {
      added := 0;
      for i := 0 to |list|
        invariant State() == Run(limits, old(State()), Insertions(list[..i], hidden))
        invariant added == AddedCount(limits, old(State()), Insertions(list[..i], hidden))
      {
        InsertionsSnoc(limits, old(State()), list, i, hidden);
        if !hidden(list[i]) {
          var ok := AddToFeed(list[i]);
          if ok {
            added := added + 1;
          }
        }
      }
      assert list[..|list|] == list;
    }

    method RemoveAll(list: seq<Status>)
      requires limits.falloff > 0
      modifies this
      ensures State() == Run(limits, old(State()), Removals(list))
    {
      for i := 0 to |list|
        invariant State() == Run(limits, old(State()), Removals(list[..i]))
      {
        RunConcat(limits, old(State()), Removals(list[..i]), [Remove(list[i])]);
        assert Removals(list[..i + 1]) == Removals(list[..i]) + [Remove(list[i])];
        var ok := RemoveFromFeed(list[i]);
      }
      assert list[..|list|] == list;
    }

    /** `statuses` are all the statuses of the unmerged account. */
    method UnmergeFromTimeline(statuses: seq<Status>)
      requires limits.falloff > 0
      modifies this
      ensures State() == Run(limits, old(State()), Removals(Newer(statuses, OldestScore(old(timeline)))))
    {
      RemoveAll(Newer(statuses, OldestScore(timeline)));
    }

    /** `posts` is the statuses table; the database lists the matches in any order. */
    method ClearFromTimeline(posts: Posts, target: Id) returns (ghost removed: seq<Status>)
      requires limits.falloff > 0 && Keyed(posts)
      modifies this
      ensures AllBy(posts, target, removed)
      ensures Ids(removed) == set t | t in old(timeline) && IsBy(posts, target, t)
      ensures State() == Run(limits, old(State()), Removals(removed))
    {
      var matches := set t | t in timeline && IsBy(posts, target, t);
      var list: seq<Status> := [];
      var pending := matches;
      while pending != {}
        invariant pending <= matches
        invariant AllBy(posts, target, list) && Ids(list) == matches - pending
        invariant State() == old(State())
      {
        ghost var any := Member(pending);
        var t :| t in pending;
        IdsOfSnoc(list, posts[t]);
        list := list + [posts[t]];
        pending := pending - {t};
      }
      RemoveAll(list);
      removed := list;
    }

    /** `home` is the home timeline of the account, newest first. */
    method PopulateFeed(home: seq<Status>, hidden: Status -> bool) returns (added: nat)
      requires limits.falloff > 0 && NewestFirst(home)
      modifies this
      ensures State() == Populated(limits, old(State()), home, hidden)
      ensures added == PopulatedCount(limits, old(State()), home, hidden)
    {
      added := 0;
      var limit := limits.maxItems / 2;
      var maxId: Option<Id> := None;
      ghost var k: nat := 0;
      while true
        invariant k <= |home| && Older(home, maxId) == home[k..]
        invariant added == 0
        invariant SameOutcome(limits, old(State()), home, State(), home[k..], hidden)
        decreases |home| - k
      {
        var statuses := Limit(Older(home, maxId), limit);
        ghost var before := State();
        if statuses == [] {
          LastPage(limits, before, before, home[k..], statuses, hidden);
          break;
        }
        var n := AddAll(statuses, hidden);
        added := added + n;
        if added != 0 {
          LastPage(limits, before, State(), home[k..], statuses, hidden);
          break;
        }
        NextPage(limits, before, State(), home, k, statuses, hidden);
        k := k + |statuses|;
        maxId := Some(statuses[|statuses| - 1].id);
      }
    }

    /** `List#clean_feed_manager`. */
    method CleanFeedManager()
      modifies this
      ensures State() == Cleaned(old(State()))
    {
      var rebloggedIds := reblogs.Keys;
      timeline := {};
      reblogs := map[];
      var pending := rebloggedIds;
      while pending != {}
        invariant pending <= rebloggedIds && timeline == {} && reblogs == map[]
        invariant extras == old(extras) - (rebloggedIds - pending)
      {
        ghost var any := Member(pending);
        var rebloggedId :| rebloggedId in pending;
        extras := extras - {rebloggedId};
        pending := pending - {rebloggedId};
      }
    }
  }

  // ---- Merging and unmerging ----

  /** Additions bring in ids of the list only, and take nothing away. */
  lemma {:induction false} InsertionsAddFrom(lim: Limits, f: FeedState.State, list: seq<Status>, hidden: Status -> bool)
    requires lim.falloff > 0
    ensures var g := Run(lim, f, Insertions(list, hidden));
      f.timeline <= g.timeline <= f.timeline + Ids(list)
    decreases |list|
  {
    if list != [] {
      IdsOfTail(list);
      if hidden(list[0]) {
        assert Insertions(list, hidden) == Insertions(list[1..], hidden);
        InsertionsAddFrom(lim, f, list[1..], hidden);
      } else {
        assert Insertions(list, hidden)[1..] == Insertions(list[1..], hidden);
        InsertionsAddFrom(lim, AfterAdd(lim, f, list[0]).0, list[1..], hidden);
      }
    }
  }

  /** Merging adds at most a quarter of a feed, and once the feed is a quarter full it adds
      nothing below the oldest entry. */
  lemma MergingIsBounded(lim: Limits, f: FeedState.State, statuses: seq<Status>, hidden: Status -> bool)
    requires lim.falloff > 0
    ensures var steps := Insertions(MergedPart(lim, f.timeline, statuses), hidden);
      var g := Run(lim, f, steps);
      && AddedCount(lim, f, steps) <= lim.maxItems / 4
      && f.timeline <= g.timeline
      && (|f.timeline| >= lim.maxItems / 4 ==>
           forall t | t in g.timeline && t !in f.timeline :: AboveOldest(f.timeline, t))
  {
    var part := MergedPart(lim, f.timeline, statuses);
    AddedAtMost(lim, f, part, hidden);
    InsertionsAddFrom(lim, f, part, hidden);
    if |f.timeline| >= lim.maxItems / 4 {
      MergedAboveOldest(lim, f.timeline, statuses);
    }
  }

  // ---- Populating ----

  /** How many posts of the home timeline `populate_feed` looks at: whole pages, up to
      and including the first page that puts something on the feed. */
  function Examined(lim: Limits, f: FeedState.State, home: seq<Status>, hidden: Status -> bool): (k: nat)
    requires lim.falloff > 0
    ensures k <= |home|
    decreases |home|
  {
    var page := Limit(home, lim.maxItems / 2);
    if page == [] then 0
    else if AddedCount(lim, f, Insertions(page, hidden)) > 0 then |page|
    else |page| + Examined(lim, Run(lim, f, Insertions(page, hidden)), home[|page|..], hidden)
  }

  lemma PageJoins(lim: Limits, f: FeedState.State, home: seq<Status>, k: nat, n: nat, hidden: Status -> bool)
    requires lim.falloff > 0 && k + n <= |home|
    ensures var page := home[k..][..n];
      var g := Run(lim, f, Insertions(home[..k], hidden));
      && home[k..][n..] == home[k + n..]
      && Run(lim, f, Insertions(home[..k + n], hidden)) == Run(lim, g, Insertions(page, hidden))
      && AddedCount(lim, f, Insertions(home[..k + n], hidden)) ==
         AddedCount(lim, f, Insertions(home[..k], hidden)) + AddedCount(lim, g, Insertions(page, hidden))
  {
    var page := home[k..][..n];
    assert home[..k + n] == home[..k] + page;
    InsertionsConcat(home[..k], page, hidden);
    RunConcat(lim, f, Insertions(home[..k], hidden), Insertions(page, hidden));
    AddedConcat(lim, f, Insertions(home[..k], hidden), Insertions(page, hidden));
  }

  lemma {:induction false} AddedAtMost(lim: Limits, f: FeedState.State, list: seq<Status>, hidden: Status -> bool)
    requires lim.falloff > 0
    ensures AddedCount(lim, f, Insertions(list, hidden)) <= |list|
    decreases |list|
  {
    if list != [] {
      var rest := Insertions(list[1..], hidden);
      if hidden(list[0]) {
        assert Insertions(list, hidden) == rest;
        AddedAtMost(lim, f, list[1..], hidden);
      } else {
        assert Insertions(list, hidden)[1..] == rest;
        AddedAtMost(lim, AfterAdd(lim, f, list[0]).0, list[1..], hidden);
      }
    }
  }

  function Populated(lim: Limits, f: FeedState.State, home: seq<Status>, hidden: Status -> bool): FeedState.State
    requires lim.falloff > 0
  {
    Run(lim, f, Insertions(home[..Examined(lim, f, home, hidden)], hidden))
  }

  /** How many posts populating a feed from `home` adds. */
  function PopulatedCount(lim: Limits, f: FeedState.State, home: seq<Status>, hidden: Status -> bool): nat
    requires lim.falloff > 0
  {
    AddedCount(lim, f, Insertions(home[..Examined(lim, f, home, hidden)], hidden))
  }

  lemma PopulatedByPages(lim: Limits, f: FeedState.State, home: seq<Status>, hidden: Status -> bool)
    requires lim.falloff > 0
    ensures var page := Limit(home, lim.maxItems / 2);
      var steps := Insertions(page, hidden);
      var n := AddedCount(lim, f, steps);
      PopulatedCount(lim, f, home, hidden) ==
        if page == [] || n > 0 then n else PopulatedCount(lim, Run(lim, f, steps), home[|page|..], hidden)
    ensures var page := Limit(home, lim.maxItems / 2);
      var g := Run(lim, f, Insertions(page, hidden));
      Populated(lim, f, home, hidden) ==
        if page == [] || AddedCount(lim, f, Insertions(page, hidden)) > 0 then g
        else Populated(lim, g, home[|page|..], hidden)
  {
    var page := Limit(home, lim.maxItems / 2);
    var steps := Insertions(page, hidden);
    assert home[..|page|] == page;
    if page != [] && AddedCount(lim, f, steps) == 0 {
      PageJoins(lim, f, home, |page|, Examined(lim, Run(lim, f, steps), home[|page|..], hidden), hidden);
    }
  }

  /** Populating `f` from `home` and `g` from `rest` comes to the same. */
  ghost predicate SameOutcome(lim: Limits, f: FeedState.State, home: seq<Status>,
                              g: FeedState.State, rest: seq<Status>, hidden: Status -> bool)
    requires lim.falloff > 0
  {
    && Populated(lim, f, home, hidden) == Populated(lim, g, rest, hidden)
    && PopulatedCount(lim, f, home, hidden) == PopulatedCount(lim, g, rest, hidden)
  }

  /** Populating stops at an empty page and at a page that adds something. */
  lemma LastPage(lim: Limits, f: FeedState.State, g: FeedState.State, rest: seq<Status>,
                 page: seq<Status>, hidden: Status -> bool)
    requires lim.falloff > 0 && page == Limit(rest, lim.maxItems / 2)
    requires g == Run(lim, f, Insertions(page, hidden))
    requires page == [] || AddedCount(lim, f, Insertions(page, hidden)) > 0
    ensures Populated(lim, f, rest, hidden) == g
    ensures PopulatedCount(lim, f, rest, hidden) == AddedCount(lim, f, Insertions(page, hidden))
  {
    PopulatedByPages(lim, f, rest, hidden);
  }

  /** A page that adds nothing leaves the outcome to the posts after it. */
  lemma NextPage(lim: Limits, f: FeedState.State, g: FeedState.State, home: seq<Status>, k: nat,
                 page: seq<Status>, hidden: Status -> bool)
    requires lim.falloff > 0 && NewestFirst(home) && k <= |home|
    requires page == Limit(home[k..], lim.maxItems / 2) && page != []
    requires g == Run(lim, f, Insertions(page, hidden)) && AddedCount(lim, f, Insertions(page, hidden)) == 0
    ensures SameOutcome(lim, f, home[k..], g, home[k + |page|..], hidden)
    ensures Older(home, Some(page[|page| - 1].id)) == home[k + |page|..]
  {
    PopulatedByPages(lim, f, home[k..], hidden);
    assert home[k..][|page|..] == home[k + |page|..];
    assert page[|page| - 1] == home[k + |page| - 1];
    OlderIsSuffix(home, k + |page|);
  }

  predicate WholePages(page: nat, j: nat) {
    j == 0 || (0 < page <= j && WholePages(page, j - page))
  }

  /** Between two pages, or at the end of the list. */
  predicate PageEnd(page: nat, n: nat, j: nat) {
    j == n || (j < n && WholePages(page, j))
  }

  /** How many of the first `j` posts of the home timeline end up on the feed. */
  function AddedOf(lim: Limits, f: FeedState.State, home: seq<Status>, hidden: Status -> bool, j: nat): nat
    requires lim.falloff > 0 && j <= |home|
  {
    AddedCount(lim, f, Insertions(home[..j], hidden))
  }

  /** `k` is the first page end up to which something is added, or the end of the list if
      there is none. */
  ghost predicate StopsAt(lim: Limits, f: FeedState.State, home: seq<Status>, hidden: Status -> bool, k: nat)
    requires lim.falloff > 0
  {
    && k <= |home| && PageEnd(lim.maxItems / 2, |home|, k)
    && (k < |home| ==> AddedOf(lim, f, home, hidden, k) > 0)
    && (forall j | 0 <= j < k && PageEnd(lim.maxItems / 2, |home|, j) :: AddedOf(lim, f, home, hidden, j) == 0)
  }

  lemma AddedOfRest(lim: Limits, f: FeedState.State, home: seq<Status>, hidden: Status -> bool, n: nat, m: nat)
    requires lim.falloff > 0 && n + m <= |home| && AddedOf(lim, f, home, hidden, n) == 0
    ensures AddedOf(lim, f, home, hidden, n + m) ==
      AddedOf(lim, Run(lim, f, Insertions(home[..n], hidden)), home[n..], hidden, m)
  {
    PageJoins(lim, f, home, n, m, hidden);
  }

  lemma StopsLater(lim: Limits, f: FeedState.State, home: seq<Status>, hidden: Status -> bool, n: nat, m: nat)
    requires lim.falloff > 0 && n == lim.maxItems / 2 && 0 < n < |home|
    requires AddedOf(lim, f, home, hidden, n) == 0
    requires StopsAt(lim, Run(lim, f, Insertions(home[..n], hidden)), home[n..], hidden, m)
    ensures StopsAt(lim, f, home, hidden, n + m)
  {
    var g := Run(lim, f, Insertions(home[..n], hidden));
    var rest := home[n..];
    AddedOfRest(lim, f, home, hidden, n, m);
    forall j | 0 <= j < n + m && PageEnd(n, |home|, j) ensures AddedOf(lim, f, home, hidden, j) == 0 {
      if j < n {
        assert home[..j] == [];
      } else {
        AddedOfRest(lim, f, home, hidden, n, j - n);
        assert PageEnd(n, |rest|, j - n);
      }
    }
  }

  /** Populating looks at whole pages of half a feed, up to the first page end up to which
      something is added; with no room for half a post it looks at nothing. */
  lemma {:induction false} ExaminedIsExact(lim: Limits, f: FeedState.State, home: seq<Status>, hidden: Status -> bool)
    requires lim.falloff > 0
    ensures lim.maxItems >= 2 ==> StopsAt(lim, f, home, hidden, Examined(lim, f, home, hidden))
    ensures lim.maxItems < 2 ==> Examined(lim, f, home, hidden) == 0
    decreases |home|
  {
    var n := lim.maxItems / 2;
    var page := Limit(home, n);
    assert home[..|page|] == page;
    if n == 0 {
      assert page == [];
    } else if n < |home| && AddedOf(lim, f, home, hidden, n) == 0 {
      var g := Run(lim, f, Insertions(page, hidden));
      ExaminedIsExact(lim, g, home[n..], hidden);
      StopsLater(lim, f, home, hidden, n, Examined(lim, g, home[n..], hidden));
    } else {
      FirstPageStops(lim, f, home, hidden);
    }
  }

  lemma FirstPageStops(lim: Limits, f: FeedState.State, home: seq<Status>, hidden: Status -> bool)
    requires lim.falloff > 0 && lim.maxItems >= 2
    requires var n := lim.maxItems / 2; n < |home| ==> AddedOf(lim, f, home, hidden, n) > 0
    ensures StopsAt(lim, f, home, hidden, Examined(lim, f, home, hidden))
  {
    var n := lim.maxItems / 2;
    var page := Limit(home, n);
    var k := Examined(lim, f, home, hidden);
    assert home[..|page|] == page;
    assert k == |page|;
    assert WholePages(n, n - n) && WholePages(n, n);
    forall j | 0 <= j < k && PageEnd(n, |home|, j) ensures AddedOf(lim, f, home, hidden, j) == 0 {
      assert home[..j] == [];
    }
  }

  /** Populating adds at most half a feed. */
  lemma {:induction false} PopulatingIsBounded(lim: Limits, f: FeedState.State, home: seq<Status>, hidden: Status -> bool)
    requires lim.falloff > 0
    ensures PopulatedCount(lim, f, home, hidden) <= lim.maxItems / 2
    decreases |home|
  {
    var page := Limit(home, lim.maxItems / 2);
    AddedAtMost(lim, f, page, hidden);
    PopulatedByPages(lim, f, home, hidden);
    if page != [] {
      PopulatingIsBounded(lim, Run(lim, f, Insertions(page, hidden)), home[|page|..], hidden);
    }
  }

  lemma {:induction false} HiddenInsertNothing(list: seq<Status>, hidden: Status -> bool)
    requires forall i | 0 <= i < |list| :: hidden(list[i])
    ensures Insertions(list, hidden) == []
  {
    if list != [] {
      HiddenInsertNothing(list[1..], hidden);
    }
  }

  lemma {:induction false} VisibleInsertsFirst(lim: Limits, list: seq<Status>, hidden: Status -> bool, i: nat)
    requires lim.falloff > 0 && i < |list| && !hidden(list[i])
    ensures AddedCount(lim, EMPTY, Insertions(list, hidden)) >= 1
  {
    if hidden(list[0]) {
      assert Insertions(list, hidden) == Insertions(list[1..], hidden);
      VisibleInsertsFirst(lim, list[1..], hidden, i - 1);
    }
  }

  ghost predicate Offers(list: seq<Status>, hidden: Status -> bool) {
    exists i | 0 <= i < |list| :: !hidden(list[i])
  }

  lemma OffersSplit(list: seq<Status>, n: nat, hidden: Status -> bool)
    requires n <= |list|
    ensures Offers(list, hidden) <==> Offers(list[..n], hidden) || Offers(list[n..], hidden)
  {
    forall i | 0 <= i < |list| && !hidden(list[i])
      ensures Offers(list[..n], hidden) || Offers(list[n..], hidden)
    {
      if i < n {
        assert list[..n][i] == list[i];
      } else {
        assert list[n..][i - n] == list[i];
      }
    }
  }

  /** A new account gets a feed exactly when some post of its home timeline passes the
      filter, however many pages of hidden posts come first. */
  lemma {:induction false} PopulatingFindsSomething(lim: Limits, home: seq<Status>, hidden: Status -> bool)
    requires lim.falloff > 0 && lim.maxItems >= 2
    ensures PopulatedCount(lim, EMPTY, home, hidden) >= 1 <==> Offers(home, hidden)
    decreases |home|
  {
    var page := Limit(home, lim.maxItems / 2);
    PopulatedByPages(lim, EMPTY, home, hidden);
    if page != [] {
      assert home[..|page|] == page;
      OffersSplit(home, |page|, hidden);
      if i :| 0 <= i < |page| && !hidden(page[i]) {
        VisibleInsertsFirst(lim, page, hidden, i);
      } else {
        HiddenInsertNothing(page, hidden);
        PopulatingFindsSomething(lim, home[|page|..], hidden);
      }
    }
  }

  // ---- The deduplication invariant at the level of the operations ----

  ghost predicate RowsOf(posts: Posts, list: seq<Status>) {
    forall i | 0 <= i < |list| :: list[i].id in posts && posts[list[i].id] == list[i]
  }

  /** Pushing, merging and populating are runs of additions and trims of rows of the
      table, so each of them keeps the deduplication invariant. */
  lemma OperationsKeepNoRepeat(lim: Limits, posts: Posts, f: FeedState.State, s: Status,
                               list: seq<Status>, hidden: Status -> bool)
    requires lim.falloff > 0
    requires NoRepeatInv(lim, posts, f) && RowsOf(posts, [s]) && RowsOf(posts, list)
    ensures NoRepeatInv(lim, posts, Run(lim, f, [Add(s), Step.Trim]))
    ensures NoRepeatInv(lim, posts, Run(lim, f, Insertions(MergedPart(lim, f.timeline, list), hidden) + [Step.Trim]))
    ensures NoRepeatInv(lim, posts, Populated(lim, f, list, hidden))
  {
    assert [s][0] == s;
    RunKeepsNoRepeat(lim, posts, f, [Add(s), Step.Trim]);
    var merged := MergedPart(lim, f.timeline, list);
    NewerAreRows(posts, list, OldestScore(f.timeline));
    InsertionsAreInsertRun(posts, merged, hidden);
    RunKeepsNoRepeat(lim, posts, f, Insertions(merged, hidden) + [Step.Trim]);
    var examined := list[..Examined(lim, f, list, hidden)];
    InsertionsAreInsertRun(posts, examined, hidden);
    RunKeepsNoRepeat(lim, posts, f, Insertions(examined, hidden));
  }

  lemma {:induction false} NewerAreRows(posts: Posts, list: seq<Status>, id: int)
    requires RowsOf(posts, list)
    ensures RowsOf(posts, Newer(list, id))
  {
    if list != [] {
      NewerAreRows(posts, list[1..], id);
    }
  }

  lemma IdsOfSnoc(list: seq<Status>, s: Status)
    ensures Ids(list + [s]) == Ids(list) + {s.id}
  {
    forall i | 0 <= i < |list| ensures list[i].id in Ids(list + [s]) {
      assert (list + [s])[i] == list[i];
    }
    assert (list + [s])[|list|] == s;
  }
}
