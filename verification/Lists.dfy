/** What the database makes of a list of rows, `LIMIT` and `WHERE`, and taking an item off
    a list wherever it is. */
module Lists {

  /** `LIMIT n`. */
  function Limit<T>(list: seq<T>, n: nat): seq<T> {
    if n < |list| then list[..n] else list
  }

  /** As many rows from the start as there are, `n` at most. */
  lemma LimitIsExact<T>(list: seq<T>, n: nat)
    ensures var page := Limit(list, n);
      page <= list && |page| <= n && (|page| < n ==> page == list)
  {
  }

  ghost predicate Rising(idx: seq<int>) {
    forall i, j | 0 <= i < j < |idx| :: idx[i] < idx[j]
  }

  /** The rows of `part` are those of `list` at the places `idx`. */
  ghost predicate At<T>(part: seq<T>, list: seq<T>, idx: seq<int>) {
    |idx| == |part| && forall i | 0 <= i < |idx| :: 0 <= idx[i] < |list| && part[i] == list[idx[i]]
  }

  /** `idx` are the places of the rows that meet the condition, and no others. */
  ghost predicate AllPlaces<T>(list: seq<T>, keep: T -> bool, idx: seq<int>) {
    forall j :: j in idx <==> 0 <= j < |list| && keep(list[j])
  }

  /** `WHERE`: the rows that meet the condition, in the order of the list. */
  ghost predicate Picks<T>(part: seq<T>, list: seq<T>, keep: T -> bool) {
    exists idx :: At(part, list, idx) && Rising(idx) && AllPlaces(list, keep, idx)
  }

  lemma PicksNone<T>(keep: T -> bool)
    ensures Picks([], [], keep)
  {
    var idx: seq<int> := [];
    var none: seq<T> := [];
    assert At(none, none, idx) && Rising(idx) && AllPlaces(none, keep, idx);
  }

  /** Every place one further on. */
  function Later(idx: seq<int>): (later: seq<int>)
    ensures |later| == |idx| && forall i | 0 <= i < |idx| :: later[i] == idx[i] + 1
  {
    seq(|idx|, i requires 0 <= i < |idx| => idx[i] + 1)
  }

  lemma LaterMembers(idx: seq<int>)
    ensures forall j :: j in Later(idx) <==> j - 1 in idx
  {
    var later := Later(idx);
    forall j ensures j in later <==> j - 1 in idx {
      if j in later {
        var i :| 0 <= i < |later| && later[i] == j;
        assert idx[i] == j - 1;
      }
      if j - 1 in idx {
        var i :| 0 <= i < |idx| && idx[i] == j - 1;
        assert later[i] == j;
      }
    }
  }

  lemma PlacesCons<T>(x: T, list: seq<T>, keep: T -> bool, idx: seq<int>)
    requires AllPlaces(list, keep, idx)
    ensures AllPlaces([x] + list, keep, (if keep(x) then [0] else []) + Later(idx))
  {
    LaterMembers(idx);
    var all := [x] + list;
    var places := (if keep(x) then [0] else []) + Later(idx);
    forall j ensures j in places <==> 0 <= j < |all| && keep(all[j]) {
      assert j in places <==> (keep(x) && j == 0) || j in Later(idx);
      assert j - 1 in idx <==> 0 <= j - 1 < |list| && keep(list[j - 1]);
    }
  }

  lemma RisingCons(idx: seq<int>)
    requires Rising(idx) && forall i | 0 <= i < |idx| :: idx[i] >= 0
    ensures Rising(Later(idx)) && Rising([0] + Later(idx))
  {
  }

  lemma AtLater<T>(x: T, part: seq<T>, list: seq<T>, idx: seq<int>)
    requires At(part, list, idx)
    ensures At(part, [x] + list, Later(idx))
  {
    forall i | 0 <= i < |idx| ensures part[i] == ([x] + list)[Later(idx)[i]] {
      assert ([x] + list)[idx[i] + 1] == list[idx[i]];
    }
  }

  lemma AtFirst<T>(x: T, part: seq<T>, list: seq<T>, idx: seq<int>)
    requires At(part, list, idx) && list != [] && list[0] == x
    ensures At([x] + part, list, [0] + idx)
  {
    var longer, places := [x] + part, [0] + idx;
    forall i | 0 <= i < |places| ensures 0 <= places[i] < |list| && longer[i] == list[places[i]] {
      if i > 0 {
        assert places[i] == idx[i - 1] && longer[i] == part[i - 1];
      }
    }
  }

  /** One more row at the head of the list. */
  lemma PicksCons<T>(x: T, part: seq<T>, list: seq<T>, keep: T -> bool)
    requires Picks(part, list, keep)
    ensures Picks((if keep(x) then [x] else []) + part, [x] + list, keep)
  {
    var idx :| At(part, list, idx) && Rising(idx) && AllPlaces(list, keep, idx);
    AtLater(x, part, list, idx);
    RisingCons(idx);
    PlacesCons(x, list, keep, idx);
    if keep(x) {
      AtFirst(x, part, [x] + list, Later(idx));
    } else {
      assert [] + part == part && [] + Later(idx) == Later(idx);
    }
  }

  lemma PickedMembers<T>(part: seq<T>, list: seq<T>, keep: T -> bool)
    requires Picks(part, list, keep)
    ensures forall x :: x in part <==> x in list && keep(x)
  {
    var idx :| At(part, list, idx) && Rising(idx) && AllPlaces(list, keep, idx);
    forall x ensures x in part <==> x in list && keep(x) {
      if x in part {
        var i :| 0 <= i < |part| && part[i] == x;
        assert idx[i] in idx;
      }
      if x in list && keep(x) {
        var j :| 0 <= j < |list| && list[j] == x;
        assert j in idx;
        var i :| 0 <= i < |idx| && idx[i] == j;
        assert part[i] == x;
      }
    }
  }

  /** `Array#delete`, and `filter` by inequality. */
  function Without<T(==)>(list: seq<T>, item: T): seq<T> {
    if list == [] then []
    else (if list[0] == item then [] else [list[0]]) + Without(list[1..], item)
  }

  lemma WithoutOne<T>(x: T, item: T)
    ensures Without([x], item) == if x == item then [] else [x]
  {
  }

  lemma Regroup<T>(a: seq<T>, b: seq<T>, c: seq<T>)
    ensures a + (b + c) == a + b + c
  {
  }

  /** The item goes wherever it is; the others keep their places. */
  lemma {:induction false} WithoutConcat<T>(a: seq<T>, b: seq<T>, item: T)
    ensures Without(a + b, item) == Without(a, item) + Without(b, item)
  {
    if a == [] {
      assert a + b == b;
    } else {
      assert (a + b)[0] == a[0] && (a + b)[1..] == a[1..] + b;
      WithoutConcat(a[1..], b, item);
      Regroup(if a[0] == item then [] else [a[0]], Without(a[1..], item), Without(b, item));
    }
  }
}
