/** The three Redis structures of one feed and what each FeedManager operation makes
    of them, as functions on values.  Every operation is one atomic step. */
module FeedState {
  import opened Wrappers
  import opened SortedSets

  type Id = x: int | 0 < x witness 1

  /** `MAX_ITEMS` and `REBLOG_FALLOFF`. */
  datatype Limits = Limits(maxItems: nat, falloff: nat)

  const DEFAULT_LIMITS := Limits(400, 40)

  datatype Status = Status(id: Id, account: Id, reblogOf: Option<Id>, reply: bool, inReplyToAccount: Option<Id>)

  /** `timeline` is the sorted set of shown ids (score = id), `reblogs` maps a tracked
      original to the score of its entry, the reblog that shows it, and `extras` maps an
      original to its set of suppressed reblogs.  Redis has no empty set: a key whose
      last member goes is a key that is gone. */
  datatype State = State(timeline: set<Id>, reblogs: map<Id, Id>, extras: map<Id, set<Id>>)

  const EMPTY := State({}, map[], map[])

  /** The statuses table, by primary key. */
  type Posts = map<Id, Status>

  ghost predicate Keyed(posts: Posts) {
    forall i | i in posts :: posts[i].id == i
  }

  predicate IsReblogOf(posts: Posts, r: Id, o: Id) {
    r in posts && posts[r].reblogOf == Some(o)
  }

  /** The post a reader sees at entry `t`. */
  function Shown(posts: Posts, t: Id): Id {
    if t in posts && posts[t].reblogOf.Some? then posts[t].reblogOf.value else t
  }

  // ---- The operations ----

  function AfterAdd(lim: Limits, f: State, s: Status): (State, bool) {
    match s.reblogOf
    case Some(o) =>
      if o in f.timeline && RevRank(f.timeline, o) < lim.falloff then
        (f, false)
      else if o in f.reblogs then
        (f.(extras := f.extras[o := Suppressed(f, o) + {s.id}]), false)
      else
        (f.(timeline := f.timeline + {s.id}, reblogs := f.reblogs[o := s.id]), true)
    case None =>
      if s.id in f.reblogs then (f, false)
      else (f.(timeline := f.timeline + {s.id}), true)
  }

  function Suppressed(f: State, o: Id): set<Id> {
    if o in f.extras then f.extras[o] else {}
  }

  function AfterRemove(f: State, s: Status): (State, bool) {
    match s.reblogOf
    case Some(o) =>
      if s.id !in f.timeline then (f, false)
      else
        var rest := Suppressed(f, o) - {s.id};
        if rest == {} then
          (f.(timeline := f.timeline - {s.id}, extras := f.extras - {o}), true)
        else
          (f.(timeline := f.timeline + {Min(rest)} - {s.id}, extras := f.extras[o := rest]), true)
    case None =>
      (f.(timeline := f.timeline - {s.id}, extras := f.extras - {s.id}), s.id in f.timeline)
  }

  /** The score of the `REBLOG_FALLOFF`-th entry, 0 when the feed is shorter than that. */
  function FalloffScore(lim: Limits, timeline: set<Id>): int
    requires lim.falloff > 0
  {
    match RevEntry(timeline, lim.falloff - 1)
    case Some(score) => score
    case None => 0
  }

  /** `ZRANGEBYSCORE reblogs 0 score`. */
  function TrackedUpTo(reblogs: map<Id, Id>, score: int): set<Id> {
    set o | o in reblogs && 0 <= reblogs[o] <= score
  }

  function AfterTrim(lim: Limits, f: State): State
    requires lim.falloff > 0
  {
    var kept: set<Id> := RemLowestBeyond(f.timeline, lim.maxItems);
    var gone := TrackedUpTo(f.reblogs, FalloffScore(lim, kept));
    State(kept, f.reblogs - gone, f.extras - gone)
  }

  // ---- Runs ----

  datatype Step = Add(status: Status) | Remove(status: Status) | Trim

  function AfterStep(lim: Limits, f: State, step: Step): State
    requires lim.falloff > 0
  {
    match step
    case Add(s) => AfterAdd(lim, f, s).0
    case Remove(s) => AfterRemove(f, s).0
    case Trim => AfterTrim(lim, f)
  }

  function Run(lim: Limits, f: State, steps: seq<Step>): State
    requires lim.falloff > 0
    decreases |steps|
  {
    if steps == [] then f else Run(lim, AfterStep(lim, f, steps[0]), steps[1..])
  }

  /** The step is about a status of the table. */
  ghost predicate About(posts: Posts, step: Step) {
    step.Trim? || (step.status.id in posts && posts[step.status.id] == step.status)
  }

  lemma {:induction false} RunConcat(lim: Limits, f: State, a: seq<Step>, b: seq<Step>)
    requires lim.falloff > 0
    ensures Run(lim, f, a + b) == Run(lim, Run(lim, f, a), b)
    decreases |a|
  {
    if a == [] {
      assert a + b == b;
    } else {
      assert (a + b)[1..] == a[1..] + b;
      RunConcat(lim, AfterStep(lim, f, a[0]), a[1..], b);
    }
  }

  lemma PushIsRun(lim: Limits, f: State, s: Status)
    requires lim.falloff > 0
    ensures Run(lim, f, [Add(s)]) == AfterAdd(lim, f, s).0
    ensures Run(lim, f, [Add(s), Trim]) == AfterTrim(lim, AfterAdd(lim, f, s).0)
  {
    var g := AfterAdd(lim, f, s).0;
    assert Run(lim, g, [Trim]) == AfterTrim(lim, g);
    assert [Add(s), Trim][1..] == [Trim];
    assert [Add(s)][1..] == [];
  }

  /** The additions a loop over `list` makes when it passes over the hidden posts. */
  function Insertions(list: seq<Status>, hidden: Status -> bool): seq<Step> {
    if list == [] then []
    else (if hidden(list[0]) then [] else [Add(list[0])]) + Insertions(list[1..], hidden)
  }

  function Removals(list: seq<Status>): (steps: seq<Step>)
    ensures |steps| == |list| && forall i | 0 <= i < |list| :: steps[i] == Remove(list[i])
  {
    seq(|list|, i requires 0 <= i < |list| => Remove(list[i]))
  }

  /** How many of the additions of a run put a post on the feed. */
  function AddedCount(lim: Limits, f: State, steps: seq<Step>): nat
    requires lim.falloff > 0
    decreases |steps|
  {
    if steps == [] then 0
    else (if steps[0].Add? && AfterAdd(lim, f, steps[0].status).1 then 1 else 0)
         + AddedCount(lim, AfterStep(lim, f, steps[0]), steps[1..])
  }

  lemma {:induction false} AddedConcat(lim: Limits, f: State, a: seq<Step>, b: seq<Step>)
    requires lim.falloff > 0
    ensures AddedCount(lim, f, a + b) == AddedCount(lim, f, a) + AddedCount(lim, Run(lim, f, a), b)
    decreases |a|
  {
    if a == [] {
      assert a + b == b;
    } else {
      assert (a + b)[1..] == a[1..] + b;
      AddedConcat(lim, AfterStep(lim, f, a[0]), a[1..], b);
    }
  }

  lemma {:induction false} InsertionsConcat(a: seq<Status>, b: seq<Status>, hidden: Status -> bool)
    ensures Insertions(a + b, hidden) == Insertions(a, hidden) + Insertions(b, hidden)
  {
    if a == [] {
      assert a + b == b;
    } else {
      assert (a + b)[1..] == a[1..] + b;
      InsertionsConcat(a[1..], b, hidden);
    }
  }

  /** One more post in the loop is one more step at the end of the run. */
  lemma InsertionsSnoc(lim: Limits, f: State, list: seq<Status>, i: nat, hidden: Status -> bool)
    requires lim.falloff > 0 && i < |list|
    ensures var before := Insertions(list[..i], hidden);
      var after := Insertions(list[..i + 1], hidden);
      var g := Run(lim, f, before);
      && Run(lim, f, after) == (if hidden(list[i]) then g else AfterAdd(lim, g, list[i]).0)
      && AddedCount(lim, f, after) == AddedCount(lim, f, before) +
         (if !hidden(list[i]) && AfterAdd(lim, g, list[i]).1 then 1 else 0)
  {
    var last: seq<Step> := if hidden(list[i]) then [] else [Add(list[i])];
    assert list[..i + 1] == list[..i] + [list[i]];
    assert Insertions([list[i]], hidden) == last;
    InsertionsConcat(list[..i], [list[i]], hidden);
    RunConcat(lim, f, Insertions(list[..i], hidden), last);
    AddedConcat(lim, f, Insertions(list[..i], hidden), last);
  }
}
