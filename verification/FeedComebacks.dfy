/** When a removed reblog is gone for good, and when an original stays without a reblog
    on the feed though the index still lists it. */
module FeedComebacks {
  import opened Wrappers
  import opened SortedSets
  import opened FeedState
  import opened FeedInvariants
  import opened FeedRemoval

  // ---- Removed, and back again ----

  /** The reblog is neither on the feed nor set aside to come back. */
  ghost predicate Forgotten(f: State, s: Status, o: Id) {
    s.id !in f.timeline && s.id !in Suppressed(f, o)
  }

  /** A removal forgets a reblog exactly when it is on the feed or is not set aside: the
      early return of `remove_from_feed` leaves a suppressed reblog where it is. */
  lemma RemovalForgetsIff(f: State, s: Status, o: Id)
    requires s.reblogOf == Some(o)
    ensures Forgotten(AfterRemove(f, s).0, s, o) <==> s.id in f.timeline || s.id !in Suppressed(f, o)
  {
    var rest := Suppressed(f, o) - {s.id};
    if s.id in f.timeline && rest != {} {
      assert Min(rest) in rest;
    }
  }

  /** A run about rows of the table that does not add `s`. */
  ghost predicate RunWithout(posts: Posts, s: Status, steps: seq<Step>) {
    forall i | 0 <= i < |steps| :: About(posts, steps[i]) && steps[i] != Add(s)
  }

  /** Nothing but a new addition of `s` puts it on the feed. */
  ghost predicate StaysAway(lim: Limits, posts: Posts, f: State, s: Status)
    requires lim.falloff > 0
  {
    forall steps | RunWithout(posts, s, steps) :: s.id !in Run(lim, f, steps).timeline
  }

  /** No removal can uncover `s`: it is not set aside, or there is no reblog on the feed
      whose removal would make room for it. */
  ghost predicate OutOfReach(posts: Posts, f: State, s: Status) {
    s.reblogOf.None? || s.id !in Suppressed(f, s.reblogOf.value) ||
    ShownReblogs(posts, f.timeline, s.reblogOf.value) == {}
  }

  ghost predicate AwayInv(posts: Posts, f: State, s: Status) {
    ExtrasKnown(posts, f) && ExtrasIndexed(f) && s.id !in f.timeline && OutOfReach(posts, f, s)
  }

  lemma AddKeepsAway(lim: Limits, posts: Posts, f: State, s: Status, r: Status)
    requires lim.falloff > 0 && AwayInv(posts, f, s)
    requires s.id in posts && posts[s.id] == s && About(posts, Add(r)) && r != s
    ensures AwayInv(posts, AfterAdd(lim, f, r).0, s)
  {
    var g := AfterAdd(lim, f, r).0;
    StepKeepsExtrasKnown(lim, posts, f, Add(r));
    StepKeepsExtrasIndexed(lim, f, Add(r));
    assert r.id != s.id;
    if s.reblogOf.Some? && s.id in Suppressed(g, s.reblogOf.value) {
      var o := s.reblogOf.value;
      assert s.id in Suppressed(f, o) && o in f.reblogs;
      assert ShownReblogs(posts, g.timeline, o) == ShownReblogs(posts, f.timeline, o);
    }
  }

  lemma RemoveKeepsAway(lim: Limits, posts: Posts, f: State, s: Status, r: Status)
    requires lim.falloff > 0 && AwayInv(posts, f, s)
    requires s.id in posts && posts[s.id] == s && About(posts, Remove(r))
    ensures AwayInv(posts, AfterRemove(f, r).0, s)
  {
    var g := AfterRemove(f, r).0;
    StepKeepsExtrasKnown(lim, posts, f, Remove(r));
    StepKeepsExtrasIndexed(lim, f, Remove(r));
    if r.reblogOf.Some? && r.id in f.timeline {
      var o := r.reblogOf.value;
      var rest := Suppressed(f, o) - {r.id};
      assert r.id in ShownReblogs(posts, f.timeline, o);
      if rest != {} {
        assert IsReblogOf(posts, Min(rest), o);
        assert s.id in rest ==> s.reblogOf == Some(o);
        assert Min(rest) != s.id;
      }
    }
    if s.reblogOf.Some? && s.id in Suppressed(g, s.reblogOf.value) {
      var o := s.reblogOf.value;
      assert s.id in Suppressed(f, o);
      assert ShownReblogs(posts, f.timeline, o) == {};
      assert ShownReblogs(posts, g.timeline, o) == {} by {
        if t :| t in ShownReblogs(posts, g.timeline, o) {
          assert t in ShownReblogs(posts, f.timeline, o);
        }
      }
    }
  }

  lemma StepKeepsAway(lim: Limits, posts: Posts, f: State, s: Status, step: Step)
    requires lim.falloff > 0 && AwayInv(posts, f, s)
    requires s.id in posts && posts[s.id] == s && About(posts, step) && step != Add(s)
    ensures AwayInv(posts, AfterStep(lim, f, step), s)
  {
    match step {
      case Add(r) => AddKeepsAway(lim, posts, f, s, r);
      case Remove(r) => RemoveKeepsAway(lim, posts, f, s, r);
      case Trim =>
        StepKeepsExtrasKnown(lim, posts, f, step);
        StepKeepsExtrasIndexed(lim, f, step);
        var g := AfterTrim(lim, f);
        assert g.timeline <= f.timeline;
        forall o ensures ShownReblogs(posts, g.timeline, o) <= ShownReblogs(posts, f.timeline, o) {
        }
    }
  }

  lemma {:induction false} RunKeepsAway(lim: Limits, posts: Posts, f: State, s: Status, steps: seq<Step>)
    requires lim.falloff > 0 && AwayInv(posts, f, s)
    requires s.id in posts && posts[s.id] == s && RunWithout(posts, s, steps)
    ensures AwayInv(posts, Run(lim, f, steps), s)
    decreases |steps|
  {
    if steps != [] {
      StepKeepsAway(lim, posts, f, s, steps[0]);
      RunKeepsAway(lim, posts, AfterStep(lim, f, steps[0]), s, steps[1..]);
    }
  }

  /** Removing one visible reblog after the other gets to any suppressed one. */
  lemma {:induction false} Uncover(lim: Limits, posts: Posts, f: State, s: Status, o: Id, visible: Id)
    returns (steps: seq<Step>)
    requires lim.falloff > 0 && Keyed(posts) && ExtrasKnown(posts, f)
    requires s.reblogOf == Some(o) && s.id in Suppressed(f, o)
    requires visible in ShownReblogs(posts, f.timeline, o)
    ensures RunWithout(posts, s, steps) && s.id in Run(lim, f, steps).timeline
    decreases |Suppressed(f, o) - {visible}|
  {
    steps := [];
    if s.id !in f.timeline {
      var g := AfterRemove(f, posts[visible]).0;
      var shown := ShownReblogs(posts, f.timeline, o);
      assert shown + {visible} == shown;
      OneComeback(f, posts, o, shown, visible);
      var rest := Suppressed(g, o);
      assert s.id in rest;
      SubsetSize(rest - {Min(rest)} + {Min(rest)}, Suppressed(f, o) - {visible});
      assert Min(rest) in ShownReblogs(posts, g.timeline, o);
      steps := Uncover(lim, posts, g, s, o, Min(rest));
      assert ([Remove(posts[visible])] + steps)[1..] == steps;
      steps := [Remove(posts[visible])] + steps;
    }
  }

  /** Main result: once a status of the table was removed, nothing but a new addition of
      it puts it on the feed if and only if it was on the feed, or was not set aside, or
      no reblog of its original was on the feed.  An original is never set aside. */
  lemma RemovalIsFinalIff(lim: Limits, posts: Posts, f: State, s: Status)
    requires lim.falloff > 0 && Keyed(posts) && ExtrasKnown(posts, f) && ExtrasIndexed(f)
    requires s.id in posts && posts[s.id] == s
    ensures StaysAway(lim, posts, AfterRemove(f, s).0, s) <==> s.id in f.timeline || OutOfReach(posts, f, s)
  {
    var g := AfterRemove(f, s).0;
    if s.id in f.timeline || OutOfReach(posts, f, s) {
      RemovedIsAway(lim, posts, f, s);
      forall steps | RunWithout(posts, s, steps) ensures s.id !in Run(lim, g, steps).timeline {
        RunKeepsAway(lim, posts, g, s, steps);
      }
    } else {
      var o := s.reblogOf.value;
      var visible := Member(ShownReblogs(posts, f.timeline, o));
      var steps := Uncover(lim, posts, f, s, o, visible);
      assert g == f && RunWithout(posts, s, steps);
    }
  }

  lemma RemovedIsAway(lim: Limits, posts: Posts, f: State, s: Status)
    requires lim.falloff > 0 && Keyed(posts) && ExtrasKnown(posts, f) && ExtrasIndexed(f)
    requires s.id in posts && posts[s.id] == s
    requires s.id in f.timeline || OutOfReach(posts, f, s)
    ensures AwayInv(posts, AfterRemove(f, s).0, s)
  {
    StepKeepsExtrasKnown(lim, posts, f, Remove(s));
    StepKeepsExtrasIndexed(lim, f, Remove(s));
    if s.reblogOf.Some? {
      RemovalForgetsIff(f, s, s.reblogOf.value);
    }
  }

  const FIRST := Status(10, 1, Some(5), false, None)
  const DELETED := Status(30, 2, Some(5), false, None)

  /** A reblog deleted while it is set aside appears once the visible one goes. */
  lemma DeletedReblogAppears(lim: Limits)
    requires lim.falloff > 0
    ensures Run(lim, EMPTY, [Add(FIRST), Add(DELETED), Remove(DELETED)]) == State({10}, map[5 := 10], map[5 := {30}])
    ensures Run(lim, State({10}, map[5 := 10], map[5 := {30}]), [Remove(FIRST)]).timeline == {30}
  {
    var f: State := State({10}, map[5 := 10], map[]);
    var g: State := State({10}, map[5 := 10], map[5 := {30}]);
    assert AfterAdd(lim, EMPTY, FIRST).0 == f;
    assert Suppressed(f, 5) + {30} == {30};
    assert AfterAdd(lim, f, DELETED).0 == f.(extras := map[5 := {30}]);
    assert AfterRemove(g, DELETED).0 == g;
    var steps := [Add(FIRST), Add(DELETED), Remove(DELETED)];
    assert steps[1..] == [Add(DELETED), Remove(DELETED)] && steps[1..][1..] == [Remove(DELETED)];
    assert Run(lim, g, [Remove(DELETED)]) == g;
    assert Run(lim, f, [Add(DELETED), Remove(DELETED)]) == g;
    var rest: set<Id> := {30};
    assert Suppressed(g, 5) - {10} == rest && Min(rest) == 30;
    assert [Remove(FIRST)][1..] == [];
    assert AfterRemove(g, FIRST).0.timeline == {10} + {30} - {10};
  }

  // ---- Tracked, and without a reblog on the feed ----

  /** Every original of the index has a reblog on the feed. */
  ghost predicate TrackedIsShown(posts: Posts, f: State) {
    forall o | o in f.reblogs :: ShownReblogs(posts, f.timeline, o) != {}
  }

  /** Without removals this always holds. */
  lemma InsertionsShowTheTracked(lim: Limits, posts: Posts, steps: seq<Step>)
    requires 0 < lim.falloff <= lim.maxItems && InsertRun(posts, steps)
    ensures TrackedIsShown(posts, Run(lim, EMPTY, steps))
  {
    var f := Run(lim, EMPTY, steps);
    RunKeepsIndex(lim, posts, EMPTY, steps);
    forall o | o in f.reblogs ensures ShownReblogs(posts, f.timeline, o) != {} {
      assert f.reblogs[o] in ShownReblogs(posts, f.timeline, o);
    }
  }

  /** The removal takes the only reblog of a tracked original and nothing else is set
      aside for it: the index keeps the original, which shows nowhere. */
  ghost predicate TakesTheLast(posts: Posts, f: State, s: Status) {
    s.reblogOf.Some? && s.reblogOf.value in f.reblogs &&
    ShownReblogs(posts, f.timeline, s.reblogOf.value) == {s.id} && Suppressed(f, s.reblogOf.value) <= {s.id}
  }

  /** A removal keeps it exactly when it does not take the last reblog. */
  lemma RemovalShowsTheTrackedIff(posts: Posts, f: State, s: Status)
    requires Keyed(posts) && ExtrasKnown(posts, f) && TrackedIsShown(posts, f)
    requires s.id in posts && posts[s.id] == s
    ensures TrackedIsShown(posts, AfterRemove(f, s).0) <==> !TakesTheLast(posts, f, s)
  {
    var g := AfterRemove(f, s).0;
    if TakesTheLast(posts, f, s) {
      var o := s.reblogOf.value;
      assert s.id in ShownReblogs(posts, f.timeline, o);
      assert Suppressed(f, o) - {s.id} == {};
      assert g.timeline == f.timeline - {s.id};
      assert ShownReblogs(posts, g.timeline, o) == ShownReblogs(posts, f.timeline, o) - {s.id};
    } else {
      forall o | o in g.reblogs ensures ShownReblogs(posts, g.timeline, o) != {} {
        StillShown(posts, f, s, o);
      }
    }
  }

  lemma AnotherMember(z: set<Id>, x: Id) returns (t: Id)
    requires z != {} && z != {x}
    ensures t in z && t != x
  {
    t := Member(z);
    if t == x {
      assert z == {x} + (z - {x});
      t := Member(z - {x});
    }
  }

  lemma StillShown(posts: Posts, f: State, s: Status, o: Id)
    requires Keyed(posts) && ExtrasKnown(posts, f) && TrackedIsShown(posts, f)
    requires s.id in posts && posts[s.id] == s
    requires !TakesTheLast(posts, f, s) && o in f.reblogs
    ensures ShownReblogs(posts, AfterRemove(f, s).0.timeline, o) != {}
  {
    var g := AfterRemove(f, s).0;
    var shown := ShownReblogs(posts, f.timeline, o);
    if s.reblogOf == Some(o) && s.id in f.timeline && Suppressed(f, o) - {s.id} != {} {
      var back := Min(Suppressed(f, o) - {s.id});
      assert IsReblogOf(posts, back, o);
      assert back in ShownReblogs(posts, g.timeline, o);
    } else {
      assert s.id !in shown || shown != {s.id};
      var t := AnotherMember(shown, s.id);
      assert t in ShownReblogs(posts, g.timeline, o);
    }
  }
}
