/** What removing entries does: suppressed reblogs come back one at a time, a cleared
    account leaves no entry behind, and no suppressed set outlives its index entry. */
module FeedRemoval {
  import opened Wrappers
  import opened SortedSets
  import opened FeedState

  // ---- Suppressed sets stay reachable from the index ----

  /** A key `reblogs:<o>` exists only for an original the index lists. */
  ghost predicate ExtrasIndexed(f: State) {
    forall o | o in f.extras :: f.extras[o] != {} && o in f.reblogs
  }

  lemma StepKeepsExtrasIndexed(lim: Limits, f: State, step: Step)
    requires lim.falloff > 0 && ExtrasIndexed(f)
    ensures ExtrasIndexed(AfterStep(lim, f, step))
  {
  }

  lemma {:induction false} RunKeepsExtrasIndexed(lim: Limits, f: State, steps: seq<Step>)
    requires lim.falloff > 0 && ExtrasIndexed(f)
    ensures ExtrasIndexed(Run(lim, f, steps))
    decreases |steps|
  {
    if steps != [] {
      StepKeepsExtrasIndexed(lim, f, steps[0]);
      RunKeepsExtrasIndexed(lim, AfterStep(lim, f, steps[0]), steps[1..]);
    }
  }

  /** `List#clean_feed_manager`: drop the feed, the index and the set of every original
      the index lists. */
  function Cleaned(f: State): State {
    State({}, map[], f.extras - f.reblogs.Keys)
  }

  /** Of any feed, only suppressed sets that the index does not list are left. */
  lemma CleaningLeavesUnlisted(f: State)
    ensures var g := Cleaned(f);
      && g.timeline == {} && g.reblogs == map[]
      && forall o :: o in g.extras <==> o in f.extras && o !in f.reblogs
    ensures forall o | o in Cleaned(f).extras :: Cleaned(f).extras[o] == f.extras[o]
  {
  }

  /** Whatever was added, removed and trimmed, cleaning a list leaves no key behind. */
  lemma CleaningLeavesNothing(lim: Limits, steps: seq<Step>)
    requires lim.falloff > 0
    ensures Cleaned(Run(lim, EMPTY, steps)) == EMPTY
  {
    RunKeepsExtrasIndexed(lim, EMPTY, steps);
  }

  // ---- Suppressed sets hold reblogs of their original ----

  ghost predicate ExtrasKnown(posts: Posts, f: State) {
    forall o, r | o in f.extras && r in f.extras[o] :: IsReblogOf(posts, r, o)
  }

  lemma StepKeepsExtrasKnown(lim: Limits, posts: Posts, f: State, step: Step)
    requires lim.falloff > 0 && ExtrasKnown(posts, f) && About(posts, step)
    ensures ExtrasKnown(posts, AfterStep(lim, f, step))
  {
  }

  lemma {:induction false} RunKeepsExtrasKnown(lim: Limits, posts: Posts, f: State, steps: seq<Step>)
    requires lim.falloff > 0 && ExtrasKnown(posts, f)
    requires forall i | 0 <= i < |steps| :: About(posts, steps[i])
    ensures ExtrasKnown(posts, Run(lim, f, steps))
    decreases |steps|
  {
    if steps != [] {
      StepKeepsExtrasKnown(lim, posts, f, steps[0]);
      RunKeepsExtrasKnown(lim, posts, AfterStep(lim, f, steps[0]), steps[1..]);
    }
  }

  // ---- Reblogs of one original come back in order ----

  /** The entries that are reblogs of `o`. */
  function ShownReblogs(posts: Posts, timeline: set<Id>, o: Id): set<Id> {
    set t | t in timeline && IsReblogOf(posts, t, o)
  }

  /** The visible reblog of `o`, then the suppressed ones, oldest first. */
  function ComebackOrder(f: State, o: Id, visible: Id): seq<Id> {
    [visible] + OldestFirst(Suppressed(f, o) - {visible})
  }

  /** The queue starts with the visible reblog and goes on upwards through all suppressed
      ones. */
  lemma ComebackOrderMeans(f: State, o: Id, visible: Id)
    ensures var q := ComebackOrder(f, o, visible);
      && q[0] == visible
      && (forall i, j | 1 <= i < j < |q| :: q[i] < q[j])
      && (forall r :: r in q[1..] <==> r in Suppressed(f, o) && r != visible)
  {
    var q := ComebackOrder(f, o, visible);
    assert q[1..] == OldestFirst(Suppressed(f, o) - {visible});
    forall i, j | 1 <= i < j < |q| ensures q[i] < q[j] {
      assert q[1..][i - 1] == q[i] && q[1..][j - 1] == q[j];
    }
  }

  function OldestFirst(ids: set<Id>): seq<Id> {
    var s := Asc(ids);
    assert forall i | 0 <= i < |s| :: s[i] in s;
    s
  }

  /** `f` differs from `before` in nothing but the entries and the suppressed set of `o`. */
  ghost predicate OnlyTouches(posts: Posts, o: Id, before: State, f: State) {
    && f.timeline - ShownReblogs(posts, f.timeline, o) == before.timeline - ShownReblogs(posts, before.timeline, o)
    && f.reblogs == before.reblogs
    && f.extras - {o} == before.extras - {o}
  }

  lemma OneComeback(f: State, posts: Posts, o: Id, others: set<Id>, visible: Id)
    requires Keyed(posts) && ExtrasKnown(posts, f)
    requires ShownReblogs(posts, f.timeline, o) == others + {visible}
    ensures visible in posts && IsReblogOf(posts, visible, o)
    ensures var g := AfterRemove(f, posts[visible]).0;
      && OnlyTouches(posts, o, f, g) && ExtrasKnown(posts, g)
      && Suppressed(g, o) == Suppressed(f, o) - {visible}
      && ShownReblogs(posts, g.timeline, o) ==
         others - {visible} + (if Suppressed(g, o) == {} then {} else {Min(Suppressed(g, o))})
      && (Suppressed(g, o) == {} ==> o !in g.extras)
  {
    assert visible in ShownReblogs(posts, f.timeline, o);
    var g := AfterRemove(f, posts[visible]).0;
    if Suppressed(g, o) != {} {
      assert IsReblogOf(posts, Min(Suppressed(g, o)), o);
    }
  }

  lemma ComebackTail(f: State, posts: Posts, o: Id, others: set<Id>, visible: Id)
    requires Keyed(posts) && ExtrasKnown(posts, f)
    requires ShownReblogs(posts, f.timeline, o) == others + {visible}
    requires visible in posts
    ensures var g := AfterRemove(f, posts[visible]).0;
      if Suppressed(g, o) == {} then ComebackOrder(f, o, visible) == [visible]
      else ComebackOrder(f, o, visible) == [visible] + ComebackOrder(g, o, Min(Suppressed(g, o)))
  {
    OneComeback(f, posts, o, others, visible);
  }

  /** From `f` on, removing the first of `q`, the second and so on shows the entries of
      `q` one at a time and in that order, beside those of `others` that are not removed
      yet, and then the rest of `others` alone; compared to `before`, nothing but the
      entries and the suppressed set of `o` ever changes. */
  ghost predicate ComesBackAs(posts: Posts, o: Id, before: State, others: set<Id>, f: State, q: seq<Id>)
    decreases |q|
  {
    && OnlyTouches(posts, o, before, f)
    && if q == [] then
         ShownReblogs(posts, f.timeline, o) == others && o !in f.extras
       else
         && ShownReblogs(posts, f.timeline, o) == others + {q[0]}
         && q[0] in posts
         && ComesBackAs(posts, o, before, others - {q[0]}, AfterRemove(f, posts[q[0]]).0, q[1..])
  }

  /** Main result: the suppressed reblogs of `o` come back oldest first, each once, beside
      whatever other reblogs of `o` are on the feed. */
  lemma {:induction false} ComebacksInOrder(posts: Posts, o: Id, before: State, others: set<Id>, f: State, visible: Id)
    requires Keyed(posts) && ExtrasKnown(posts, f) && OnlyTouches(posts, o, before, f)
    requires ShownReblogs(posts, f.timeline, o) == others + {visible}
    ensures ComesBackAs(posts, o, before, others, f, ComebackOrder(f, o, visible))
    decreases |Suppressed(f, o) - {visible}|
  {
    OneComeback(f, posts, o, others, visible);
    ComebackTail(f, posts, o, others, visible);
    var g := AfterRemove(f, posts[visible]).0;
    var rest := Suppressed(g, o);
    if rest != {} {
      SubsetSize(rest - {Min(rest)} + {Min(rest)}, Suppressed(f, o) - {visible});
      ComebacksInOrder(posts, o, before, others - {visible}, g, Min(rest));
    }
  }

  function Ids(list: seq<Status>): set<Id> {
    set i | 0 <= i < |list| :: list[i].id
  }

  lemma IdsOfTail(list: seq<Status>)
    requires list != []
    ensures Ids(list) == {list[0].id} + Ids(list[1..])
  {
    forall i | 0 < i < |list| ensures list[i].id in Ids(list[1..]) {
      assert list[1..][i - 1] == list[i];
    }
  }

  /** Further reblogs of a tracked original that is not itself near the top are put aside,
      all of them, and show nowhere; so removals bring them back in the order above. */
  lemma {:induction false} FurtherReblogsArePutAside(lim: Limits, f: State, o: Id, list: seq<Status>)
    requires lim.falloff > 0 && o in f.reblogs
    requires o in f.timeline ==> RevRank(f.timeline, o) >= lim.falloff
    requires forall i | 0 <= i < |list| :: list[i].reblogOf == Some(o)
    ensures var steps := Insertions(list, s => false);
      var g := Run(lim, f, steps);
      && AddedCount(lim, f, steps) == 0
      && g.timeline == f.timeline && g.reblogs == f.reblogs
      && Suppressed(g, o) == Suppressed(f, o) + Ids(list)
      && g.extras - {o} == f.extras - {o}
    decreases |list|
  {
    if list != [] {
      var hidden := (s: Status) => false;
      var mid := AfterAdd(lim, f, list[0]).0;
      FurtherReblogsArePutAside(lim, mid, o, list[1..]);
      IdsOfTail(list);
      assert Insertions(list, hidden)[1..] == Insertions(list[1..], hidden);
    }
  }

  /** When the original goes its suppressed reblogs go with it: a reblog of it that is
      removed afterwards makes room for nothing. */
  lemma NothingComesBackForDeletedOriginal(f: State, original: Status, reblog: Status)
    requires original.reblogOf == None && reblog.reblogOf == Some(original.id) && reblog.id != original.id
    ensures var g := AfterRemove(AfterRemove(f, original).0, reblog).0;
      g.timeline == f.timeline - {original.id, reblog.id} && g.reblogs == f.reblogs && original.id !in g.extras
  {
  }

  // ---- Removing everything by one account ----

  /** `validates :reblog, uniqueness: { scope: :account }`. */
  ghost predicate OneReblogPerAccount(posts: Posts) {
    forall r, s | r in posts && s in posts && posts[r].reblogOf.Some? &&
      posts[r].reblogOf == posts[s].reblogOf && posts[r].account == posts[s].account :: r == s
  }

  /** `g` came from `f` by taking off the posts `gone` of one account: nothing else left,
      what is new on show was a suppressed reblog by somebody else, and no suppressed
      set grew. */
  ghost predicate TookOff(posts: Posts, target: Id, gone: set<Id>, f: State, g: State) {
    && f.timeline - gone <= g.timeline
    && g.timeline !! gone
    && (forall t | t in g.timeline && t !in f.timeline ::
         IsSuppressed(f, t) && t in posts && posts[t].account != target)
    && (forall o, r | r in Suppressed(g, o) :: r in Suppressed(f, o))
  }

  ghost predicate IsSuppressed(f: State, t: Id) {
    exists o :: t in Suppressed(f, o)
  }

  /** The statuses are rows of the table, by `account`. */
  ghost predicate AllBy(posts: Posts, account: Id, list: seq<Status>) {
    forall i | 0 <= i < |list| ::
      list[i].id in posts && posts[list[i].id] == list[i] && list[i].account == account
  }

  lemma RemoveOneBy(f: State, posts: Posts, s: Status)
    requires Keyed(posts) && OneReblogPerAccount(posts) && ExtrasKnown(posts, f)
    requires s.id in posts && posts[s.id] == s
    ensures var g := AfterRemove(f, s).0;
      TookOff(posts, s.account, {s.id}, f, g) && ExtrasKnown(posts, g)
  {
    var g := AfterRemove(f, s).0;
    forall t | t in g.timeline && t !in f.timeline
      ensures IsSuppressed(f, t) && t in posts && posts[t].account != s.account
    {
      var o := s.reblogOf.value;
      assert t in Suppressed(f, o) && IsReblogOf(posts, t, o);
    }
  }

  lemma {:induction false} RemoveAllBy(lim: Limits, f: State, posts: Posts, target: Id, list: seq<Status>)
    requires lim.falloff > 0
    requires Keyed(posts) && OneReblogPerAccount(posts) && ExtrasKnown(posts, f)
    requires AllBy(posts, target, list)
    ensures TookOff(posts, target, Ids(list), f, Run(lim, f, Removals(list)))
    decreases |list|
  {
    if list != [] {
      var mid := AfterRemove(f, list[0]).0;
      RemoveOneBy(f, posts, list[0]);
      RemoveAllBy(lim, mid, posts, target, list[1..]);
      assert Removals(list)[1..] == Removals(list[1..]);
      TookOffBoth(posts, target, list, f, mid, Run(lim, f, Removals(list)));
    }
  }

  lemma TookOffBoth(posts: Posts, target: Id, list: seq<Status>, f: State, mid: State, g: State)
    requires list != [] && AllBy(posts, target, list)
    requires TookOff(posts, target, {list[0].id}, f, mid)
    requires TookOff(posts, target, Ids(list[1..]), mid, g)
    ensures TookOff(posts, target, Ids(list), f, g)
  {
    IdsOfTail(list);
    forall t | t in g.timeline && t !in f.timeline ensures IsSuppressed(f, t) {
      if t !in mid.timeline {
        var o :| t in Suppressed(mid, o);
        assert t in Suppressed(f, o);
      }
    }
    assert posts[list[0].id].account == target;
  }

  predicate IsBy(posts: Posts, account: Id, t: Id) {
    t in posts && posts[t].account == account
  }

  /** Main result: clearing removes every entry by the target in whatever order the
      database lists them, keeps everybody else's, and can only uncover suppressed
      reblogs by other accounts. */
  lemma ClearingIsExact(lim: Limits, f: State, posts: Posts, target: Id, list: seq<Status>)
    requires lim.falloff > 0
    requires Keyed(posts) && OneReblogPerAccount(posts) && ExtrasKnown(posts, f)
    requires AllBy(posts, target, list)
    requires Ids(list) == set t | t in f.timeline && IsBy(posts, target, t)
    ensures var g := Run(lim, f, Removals(list));
      && (forall t | t in g.timeline && t in posts :: posts[t].account != target)
      && (forall t | t in f.timeline && !(t in posts && posts[t].account == target) :: t in g.timeline)
      && (forall t | t in g.timeline && t !in f.timeline :: IsSuppressed(f, t))
  {
    RemoveAllBy(lim, f, posts, target, list);
  }
}
