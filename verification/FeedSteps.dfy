/** What one addition, one removal and one trim do to every entry, every tracked original
    and every suppressed set of a feed, whatever state it is in. */
module FeedSteps {
  import opened Wrappers
  import opened SortedSets
  import opened FeedState
  import opened FeedInvariants

  /** Both keep the same suppressed reblogs of `o`, or both none. */
  ghost predicate SameExtras(f: State, g: State, o: Id) {
    (o in g.extras <==> o in f.extras) && (o in f.extras ==> g.extras[o] == f.extras[o])
  }

  // ---- Additions ----

  /** An original is turned away exactly when a reblog of it is tracked, near the top or
      not, and then nothing changes; otherwise its id joins the entries and that is all. */
  lemma OriginalIsAddedIff(lim: Limits, f: State, s: Status)
    requires s.reblogOf == None
    ensures var (g, added) := AfterAdd(lim, f, s);
      && (added <==> s.id !in f.reblogs)
      && (!added ==> g == f)
      && (added ==> forall t :: t in g.timeline <==> t in f.timeline || t == s.id)
      && g.reblogs == f.reblogs && g.extras == f.extras
  {
  }

  /** The original is an entry, and fewer than `falloff` entries are above it. */
  ghost predicate OriginalNearTop(lim: Limits, f: State, o: Id) {
    o in f.timeline && |set t | t in f.timeline && t > o| < lim.falloff
  }

  /** With its original near the top a reblog changes nothing, tracked or not.  Otherwise
      it is put aside if another one is tracked, and added and tracked if none is. */
  lemma ReblogIsAddedIff(lim: Limits, f: State, s: Status, o: Id)
    requires s.reblogOf == Some(o)
    ensures var (g, added) := AfterAdd(lim, f, s);
      && (added <==> !OriginalNearTop(lim, f, o) && o !in f.reblogs)
      && (forall t :: t in g.timeline <==> t in f.timeline || (added && t == s.id))
      && (forall p :: p in g.reblogs <==> p in f.reblogs || (added && p == o))
      && (forall p | p in g.reblogs :: g.reblogs[p] == if added && p == o then s.id else f.reblogs[p])
      && (forall p | p != o :: SameExtras(f, g, p))
      && (if OriginalNearTop(lim, f, o) || o !in f.reblogs then SameExtras(f, g, o)
          else o in g.extras && forall r :: r in g.extras[o] <==> r == s.id || (o in f.extras && r in f.extras[o]))
    ensures OriginalNearTop(lim, f, o) ==> AfterAdd(lim, f, s) == (f, false)
  {
    assert Above(f.timeline, o) == set t | t in f.timeline && t > o;
  }

  // ---- Removals ----

  /** The least of the suppressed reblogs of `o` other than `gone`. */
  ghost predicate NextInLine(f: State, o: Id, gone: Id, c: Id) {
    o in f.extras && c in f.extras[o] && c != gone && forall r | r in f.extras[o] && r != gone :: c <= r
  }

  /** The post `s` is or reblogs. */
  function Original(s: Status): Id {
    if s.reblogOf.Some? then s.reblogOf.value else s.id
  }

  /** A removal tells whether the status was an entry, leaves the index and the suppressed
      sets of all other originals alone, takes the entry off, and puts the next reblog in
      line on if the status was a reblog on the feed. */
  lemma RemovalMeans(f: State, s: Status)
    ensures var (g, removed) := AfterRemove(f, s);
      && (removed <==> s.id in f.timeline)
      && g.reblogs == f.reblogs
      && (forall o | o != Original(s) :: SameExtras(f, g, o))
      && (forall t :: t in g.timeline <==>
           || (t in f.timeline && t != s.id)
           || (s.reblogOf.Some? && s.id in f.timeline && NextInLine(f, s.reblogOf.value, s.id, t)))
  {
    var (g, removed) := AfterRemove(f, s);
    if s.reblogOf.Some? && s.id in f.timeline {
      var o := s.reblogOf.value;
      var rest := Suppressed(f, o) - {s.id};
      forall t ensures NextInLine(f, o, s.id, t) <==> rest != {} && t == Min(rest) {
        if NextInLine(f, o, s.id, t) {
          assert t in rest;
        }
        if rest != {} && t == Min(rest) {
          assert forall r | r in f.extras[o] && r != s.id :: r in rest;
        }
      }
    }
  }

  /** The suppressed set of its own original: an original takes its set with it; a reblog
      on the feed leaves the set, which goes when it was the last; a reblog that is not on
      the feed changes nothing at all. */
  lemma RemovalOfOwnSet(f: State, s: Status)
    ensures var (g, k) := (AfterRemove(f, s).0, Original(s));
      && (s.reblogOf.None? ==> k !in g.extras)
      && (s.reblogOf.Some? && s.id in f.timeline ==>
           && (k in g.extras <==> exists r :: r in Suppressed(f, k) && r != s.id)
           && (k in g.extras ==> forall r :: r in g.extras[k] <==> r in f.extras[k] && r != s.id))
    ensures s.reblogOf.Some? && s.id !in f.timeline ==> AfterRemove(f, s) == (f, false)
  {
    if s.reblogOf.Some? {
      var rest := Suppressed(f, s.reblogOf.value) - {s.id};
      if rest != {} {
        var r := Member(rest);
        assert r in Suppressed(f, s.reblogOf.value) && r != s.id;
      }
      if r :| r in Suppressed(f, s.reblogOf.value) && r != s.id {
        assert r in rest;
      }
    }
  }

  // ---- Trims ----

  /** The entries from `x` upwards. */
  function AtLeast(timeline: set<Id>, x: Id): set<Id> {
    set t | t in timeline && t >= x
  }

  /** An original stays tracked while fewer than `falloff` entries are at or above the
      reblog it is tracked under; and always if the feed is too short for the falloff. */
  ghost predicate StaysTracked(lim: Limits, f: State, o: Id) {
    o in f.reblogs && (lim.maxItems < lim.falloff || |AtLeast(f.timeline, f.reblogs[o])| < lim.falloff)
  }

  lemma TrackedScoreIff(lim: Limits, f: State, x: Id)
    requires 0 < lim.falloff <= lim.maxItems
    ensures x > FalloffScore(lim, Top(f.timeline, lim.maxItems)) <==> |AtLeast(f.timeline, x)| < lim.falloff
  {
    var kept := Top(f.timeline, lim.maxItems);
    var e := FalloffScore(lim, kept);
    FalloffEntry(lim, kept);
    TopSize(f.timeline, lim.maxItems);
    var up := AtLeast(f.timeline, x);
    if lim.falloff <= |kept| {
      TopKeepsRank(f.timeline, lim.maxItems, e);
      var above := Above(f.timeline, e);
      if x > e {
        SubsetSize(up, above);
      } else {
        assert |above + {e}| == |above| + 1;
        SubsetSize(above + {e}, up);
      }
    } else {
      SubsetSize(up, f.timeline);
    }
  }

  /** A trim keeps the `maxItems` highest entries. */
  lemma TrimKeepsHighest(lim: Limits, f: State)
    requires lim.falloff > 0
    ensures forall t :: t in AfterTrim(lim, f).timeline <==>
      t in f.timeline && |set u | u in f.timeline && u > t| < lim.maxItems
  {
    RemLowestBeyondIsTop(f.timeline, lim.maxItems);
    forall t ensures Above(f.timeline, t) == set u | u in f.timeline && u > t {
    }
  }

  lemma TrimTracksIff(lim: Limits, f: State, o: Id)
    requires lim.falloff > 0
    ensures o in AfterTrim(lim, f).reblogs <==> StaysTracked(lim, f, o)
  {
    if lim.maxItems < lim.falloff {
      FalloffBeyondSizeNeverUntracks(lim, f);
    } else if o in f.reblogs {
      RemLowestBeyondIsTop(f.timeline, lim.maxItems);
      TrackedScoreIff(lim, f, f.reblogs[o]);
    }
  }

  /** A trim untracks the originals whose reblogs have sunk, drops their suppressed sets and
      no others, and leaves every other original its score and its suppressed set. */
  lemma TrimMeans(lim: Limits, f: State)
    requires lim.falloff > 0
    ensures var g := AfterTrim(lim, f);
      && (forall o :: o in g.reblogs <==> StaysTracked(lim, f, o))
      && (forall o | o in g.reblogs :: g.reblogs[o] == f.reblogs[o] && SameExtras(f, g, o))
      && (forall o | o in f.reblogs && o !in g.reblogs :: o !in g.extras)
      && (forall o | o !in f.reblogs :: SameExtras(f, g, o))
  {
    var g := AfterTrim(lim, f);
    forall o ensures o in g.reblogs <==> StaysTracked(lim, f, o) {
      TrimTracksIff(lim, f, o);
    }
  }

  // ---- Runs ----

  /** `stages` are the states a feed goes through in the run. */
  ghost predicate StagesOf(lim: Limits, f: State, steps: seq<Step>, stages: seq<State>)
    requires lim.falloff > 0
  {
    && |stages| == |steps| + 1 && stages[0] == f
    && forall i | 0 <= i < |steps| ::
         stages[i + 1] == match steps[i]
                          case Add(s) => AfterAdd(lim, stages[i], s).0
                          case Remove(s) => AfterRemove(stages[i], s).0
                          case Trim => AfterTrim(lim, stages[i])
  }

  /** A run takes every step, one after the other. */
  lemma {:induction false} RunEndsInLastStage(lim: Limits, f: State, steps: seq<Step>, stages: seq<State>)
    requires lim.falloff > 0 && StagesOf(lim, f, steps, stages)
    ensures Run(lim, f, steps) == stages[|steps|]
    decreases |steps|
  {
    if steps != [] {
      RunEndsInLastStage(lim, stages[1], steps[1..], stages[1..]);
    }
  }
}
