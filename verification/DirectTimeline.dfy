/** `as_direct_timeline`: two limited queries, merged. */
module DirectTimeline {
  import opened Wrappers
  import opened SortedSets
  import opened Lists

  /** `id < max_id` and `id > since_id`, where given. */
  function Window(ids: set<int>, maxId: Option<int>, sinceId: Option<int>): set<int> {
    set i | i in ids && (maxId.Some? ==> i < maxId.value) && (sinceId.Some? ==> i > sinceId.value)
  }

  /** `ORDER BY id DESC LIMIT limit`. */
  function Query(ids: set<int>, maxId: Option<int>, sinceId: Option<int>, limit: nat): seq<int> {
    Limit(Desc(Window(ids, maxId, sinceId)), limit)
  }

  function Uniq(list: seq<int>): seq<int> {
    if list == [] then []
    else
      var k := |list| - 1;
      var before := Uniq(list[..k]);
      if list[k] in before then before else before + [list[k]]
  }

  function Reverse(list: seq<int>): seq<int> {
    if list == [] then [] else Reverse(list[1..]) + [list[0]]
  }

  /** The ids of the statuses from the account and to it, merged. */
  function Merge(fromMe: set<int>, toMe: set<int>, limit: nat, maxId: Option<int>, sinceId: Option<int>): seq<int> {
    Limit(Reverse(Sort(Uniq(Query(fromMe, maxId, sinceId, limit) + Query(toMe, maxId, sinceId, limit)))), limit)
  }

  lemma {:induction false} UniqMembers(list: seq<int>)
    ensures forall x :: x in Uniq(list) <==> x in list
    ensures forall i, j | 0 <= i < j < |Uniq(list)| :: Uniq(list)[i] != Uniq(list)[j]
  {
    if list != [] {
      var k := |list| - 1;
      UniqMembers(list[..k]);
      assert list == list[..k] + [list[k]];
    }
  }

  lemma {:induction false} ReverseDescends(list: seq<int>)
    requires Ascending(list)
    ensures Descending(Reverse(list))
    ensures forall x :: x in Reverse(list) <==> x in list
  {
    if list != [] {
      ReverseDescends(list[1..]);
      var rest := Reverse(list[1..]);
      forall i | 0 <= i < |rest| ensures rest[i] > list[0] {
        var x := rest[i];
        assert x in rest && x in list[1..];
        TailMembers(list, x);
        var j :| 0 <= j < |list| && list[j] == x;
      }
      forall x ensures x in list <==> x == list[0] || x in list[1..] {
        TailMembers(list, x);
      }
    }
  }

  /** Taking the first `n` of the descending list takes the `n` highest. */
  lemma TakeIsTop(z: set<int>, n: nat)
    ensures Limit(Desc(z), n) == Desc(Top(z, n))
  {
    var s := Desc(z);
    var t := Limit(s, n);
    forall x ensures x in t <==> x in Top(z, n) {
      if x in z {
        var i :| 0 <= i < |s| && s[i] == x;
        DescAt(z, i);
        if i < n {
          assert t[i] == x;
        }
      }
    }
    SameDescending(t, Desc(Top(z, n)));
  }

  /** Merging what the two queries list, sorted and turned round, lists the set of both. */
  lemma MergedList(a: set<int>, b: set<int>)
    ensures Reverse(Sort(Uniq(Desc(a) + Desc(b)))) == Desc(a + b)
  {
    var list := Uniq(Desc(a) + Desc(b));
    UniqMembers(Desc(a) + Desc(b));
    SortOrders(list);
    ReverseDescends(Sort(list));
    forall x ensures x in Reverse(Sort(list)) <==> x in Desc(a + b) {
      assert x in Desc(a) + Desc(b) <==> x in a || x in b;
    }
    SameDescending(Reverse(Sort(list)), Desc(a + b));
  }

  /** The id is one of the set within the window. */
  ghost predicate Eligible(ids: set<int>, maxId: Option<int>, sinceId: Option<int>, i: int) {
    i in ids && (forall m | maxId == Some(m) :: i < m) && (forall m | sinceId == Some(m) :: i > m)
  }

  /** `page` lists the newest eligible ids, newest first: as many as there are up to the
      limit, and none that is left out is newer than one that is listed. */
  ghost predicate NewestPage(page: seq<int>, ids: set<int>, maxId: Option<int>, sinceId: Option<int>, limit: nat) {
    && Descending(page) && |page| <= limit
    && (forall x | x in page :: Eligible(ids, maxId, sinceId, x))
    && (forall y | Eligible(ids, maxId, sinceId, y) && y !in page :: |page| == limit && forall x | x in page :: x > y)
  }

  lemma WindowIsExact(ids: set<int>, maxId: Option<int>, sinceId: Option<int>)
    ensures forall i :: i in Window(ids, maxId, sinceId) <==> Eligible(ids, maxId, sinceId, i)
  {
    forall i | Eligible(ids, maxId, sinceId, i) ensures i in Window(ids, maxId, sinceId) {
      assert maxId.Some? ==> maxId == Some(maxId.value);
      assert sinceId.Some? ==> sinceId == Some(sinceId.value);
    }
  }

  lemma QueryIsNewestPage(ids: set<int>, maxId: Option<int>, sinceId: Option<int>, limit: nat)
    ensures NewestPage(Query(ids, maxId, sinceId, limit), ids, maxId, sinceId, limit)
  {
    var all := Desc(Window(ids, maxId, sinceId));
    var page := Limit(all, limit);
    WindowIsExact(ids, maxId, sinceId);
    forall y | Eligible(ids, maxId, sinceId, y) && y !in page
      ensures |page| == limit && forall x | x in page :: x > y
    {
      var j :| 0 <= j < |all| && all[j] == y;
      forall k | 0 <= k < |page| ensures page[k] != y {
        assert page[k] in page;
      }
      forall x | x in page ensures x > y {
        var i :| 0 <= i < |page| && page[i] == x;
        assert all[i] == x;
      }
    }
    forall x | x in page ensures Eligible(ids, maxId, sinceId, x) {
      var i :| 0 <= i < |page| && page[i] == x;
      assert all[i] in all;
    }
  }

  /** Main result: limiting both queries first loses nothing; the merge is the `limit`
      newest statuses of both kinds, within any window. */
  lemma MergeIsTopOfBoth(fromMe: set<int>, toMe: set<int>, limit: nat, maxId: Option<int>, sinceId: Option<int>)
    ensures Merge(fromMe, toMe, limit, maxId, sinceId) == Query(fromMe + toMe, maxId, sinceId, limit)
    ensures NewestPage(Merge(fromMe, toMe, limit, maxId, sinceId), fromMe + toMe, maxId, sinceId, limit)
  {
    MergeIsQuery(fromMe, toMe, limit, maxId, sinceId);
    QueryIsNewestPage(fromMe + toMe, maxId, sinceId, limit);
  }

  lemma MergeIsQuery(fromMe: set<int>, toMe: set<int>, limit: nat, maxId: Option<int>, sinceId: Option<int>)
    ensures Merge(fromMe, toMe, limit, maxId, sinceId) == Query(fromMe + toMe, maxId, sinceId, limit)
  {
    var a, b := Window(fromMe, maxId, sinceId), Window(toMe, maxId, sinceId);
    assert Window(fromMe + toMe, maxId, sinceId) == a + b;
    TakeIsTop(a, limit);
    TakeIsTop(b, limit);
    MergedList(Top(a, limit), Top(b, limit));
    TakeIsTop(Top(a, limit) + Top(b, limit), limit);
    TopOfUnion(a, b, limit);
    TakeIsTop(a + b, limit);
  }
}
