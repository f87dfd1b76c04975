/** Finite sets of ids, seen as the ordered lists that Redis sorted sets and SQL
    `ORDER BY` queries return.  Redis scores are exact integers here, and in every
    sorted set of this module the score of a member is the member itself. */
module SortedSets {

  import opened Wrappers

  ghost predicate Ascending(s: seq<int>) {
    forall i, j | 0 <= i < j < |s| :: s[i] < s[j]
  }

  ghost predicate Descending(s: seq<int>) {
    forall i, j | 0 <= i < j < |s| :: s[i] > s[j]
  }

  // ---- Extremes and ordered lists ----

  lemma Member<T>(z: set<T>) returns (x: T)
    requires z != {}
    ensures x in z
  {
    x :| x in z;
  }

  lemma {:induction false} MaxExists(z: set<int>)
    requires z != {}
    ensures exists m :: m in z && forall y | y in z :: y <= m
  {
    var x := Member(z);
    var rest := z - {x};
    if rest == {} {
      assert z == {x};
    } else {
      MaxExists(rest);
      var m :| m in rest && forall y | y in rest :: y <= m;
      var top := if x > m then x else m;
      forall y | y in z ensures y <= top {
        assert y == x || y in rest;
      }
    }
  }

  lemma {:induction false} MinExists(z: set<int>)
    requires z != {}
    ensures exists m :: m in z && forall y | y in z :: m <= y
  {
    var x := Member(z);
    var rest := z - {x};
    if rest == {} {
      assert z == {x};
    } else {
      MinExists(rest);
      var m :| m in rest && forall y | y in rest :: m <= y;
      var low := if x < m then x else m;
      forall y | y in z ensures low <= y {
        assert y == x || y in rest;
      }
    }
  }

  function Max(z: set<int>): (m: int)
    requires z != {}
    ensures m in z && forall y | y in z :: y <= m
  {
    MaxExists(z);
    var m :| m in z && forall y | y in z :: y <= m;
    m
  }

  function Min(z: set<int>): (m: int)
    requires z != {}
    ensures m in z && forall y | y in z :: m <= y
  {
    MinExists(z);
    var m :| m in z && forall y | y in z :: m <= y;
    m
  }

  ghost predicate Lists(s: seq<int>, z: set<int>) {
    |s| == |z| && forall x :: x in s <==> x in z
  }

  lemma ConsLists(z: set<int>, m: int, rest: seq<int>)
    requires m in z && Lists(rest, z - {m})
    ensures Lists([m] + rest, z)
    ensures forall x | x in rest :: x in z && x != m
  {
    assert z == (z - {m}) + {m};
    forall x ensures x in [m] + rest <==> x == m || x in rest {
    }
  }

  lemma ConsDescends(m: int, rest: seq<int>)
    requires Descending(rest) && forall y | y in rest :: y < m
    ensures Descending([m] + rest)
  {
    forall i | 0 <= i < |rest| ensures rest[i] < m {
      var y := rest[i];
      assert y in rest;
    }
  }

  lemma ConsAscends(m: int, rest: seq<int>)
    requires Ascending(rest) && forall y | y in rest :: y > m
    ensures Ascending([m] + rest)
  {
    forall i | 0 <= i < |rest| ensures rest[i] > m {
      var y := rest[i];
      assert y in rest;
    }
  }

  /** The members, highest first. */
  function Desc(z: set<int>): (s: seq<int>)
    ensures Lists(s, z)
    ensures Descending(s)
  {
    if z == {} then []
    else
      var m := Max(z);
      var rest := Desc(z - {m});
      ConsLists(z, m, rest);
      ConsDescends(m, rest);
      [m] + rest
  }

  /** The members, lowest first. */
  function Asc(z: set<int>): (s: seq<int>)
    ensures Lists(s, z)
    ensures Ascending(s)
  {
    if z == {} then []
    else
      var m := Min(z);
      var rest := Asc(z - {m});
      ConsLists(z, m, rest);
      ConsAscends(m, rest);
      [m] + rest
  }

  lemma EmptyTogether(s: seq<int>, t: seq<int>)
    requires forall x :: x in s <==> x in t
    ensures s == [] <==> t == []
  {
    if s != [] {
      var x := s[0];
      assert x in s && x in t;
    }
    if t != [] {
      var x := t[0];
      assert x in t && x in s;
    }
  }

  lemma TailMembers(s: seq<int>, x: int)
    requires s != [] && (Ascending(s) || Descending(s))
    ensures x in s[1..] <==> x in s && x != s[0]
  {
    if x in s[1..] {
      var i :| 0 <= i < |s[1..]| && s[1..][i] == x;
      assert s[i + 1] == x;
    }
  }

  /** A strictly descending list is determined by its members. */
  lemma {:induction false} SameDescending(s: seq<int>, t: seq<int>)
    requires Descending(s) && Descending(t)
    requires forall x :: x in s <==> x in t
    ensures s == t
  {
    if s == [] || t == [] {
      EmptyTogether(s, t);
    } else {
      assert s[0] in t && t[0] in s;
      assert s[0] == t[0];
      forall x ensures x in s[1..] <==> x in t[1..] {
        TailMembers(s, x);
        TailMembers(t, x);
      }
      SameDescending(s[1..], t[1..]);
    }
  }

  // ---- Array#sort ----

  function Insert(x: int, s: seq<int>): seq<int> {
    if s == [] || x <= s[0] then [x] + s else [s[0]] + Insert(x, s[1..])
  }

  function Sort(s: seq<int>): seq<int> {
    if s == [] then [] else Insert(s[0], Sort(s[1..]))
  }

  lemma {:induction false} InsertKeepsOrder(x: int, s: seq<int>)
    requires Ascending(s) && x !in s
    ensures Ascending(Insert(x, s))
    ensures forall y :: y in Insert(x, s) <==> y == x || y in s
  {
    if s != [] && x > s[0] {
      InsertKeepsOrder(x, s[1..]);
      forall y | y in Insert(x, s[1..]) ensures y > s[0] {
        if y != x {
          TailMembers(s, y);
          var i :| 0 <= i < |s| && s[i] == y;
        }
      }
      ConsAscends(s[0], Insert(x, s[1..]));
    } else if s != [] {
      assert s[0] in s;
    }
  }

  lemma {:induction false} SortOrders(s: seq<int>)
    requires forall i, j | 0 <= i < j < |s| :: s[i] != s[j]
    ensures Ascending(Sort(s))
    ensures forall y :: y in Sort(s) <==> y in s
  {
    if s != [] {
      SortOrders(s[1..]);
      InsertKeepsOrder(s[0], Sort(s[1..]));
    }
  }

  // ---- Ranks ----

  function Above(z: set<int>, x: int): set<int> {
    set y | y in z && y > x
  }

  function Below(z: set<int>, x: int): set<int> {
    set y | y in z && y < x
  }

  /** `ZREVRANK` of a member: how many members have a higher score. */
  function RevRank(z: set<int>, x: int): nat {
    |Above(z, x)|
  }

  /** The members a top-`n` query keeps. */
  function Top(z: set<int>, n: nat): set<int> {
    set x | x in z && RevRank(z, x) < n
  }

  lemma {:induction false} SubsetSize<T>(a: set<T>, b: set<T>)
    requires a <= b
    ensures |a| <= |b|
    ensures |a| == |b| ==> a == b
  {
    assert b == a + (b - a);
  }

  lemma RankGrows(z: set<int>, z': set<int>, x: int)
    requires z <= z'
    ensures RevRank(z, x) <= RevRank(z', x)
  {
    SubsetSize(Above(z, x), Above(z', x));
  }

  lemma RankOrder(z: set<int>, x: int, y: int)
    requires x in z && x > y
    ensures RevRank(z, x) < RevRank(z, y)
  {
    assert Above(z, x) + {x} <= Above(z, y);
    SubsetSize(Above(z, x) + {x}, Above(z, y));
  }

  /** Adding a higher member pushes a lower one down by one place. */
  lemma RankPushed(z: set<int>, n: int, x: int)
    requires n !in z
    ensures RevRank(z + {n}, x) == RevRank(z, x) + (if n > x then 1 else 0)
  {
    if n > x {
      assert Above(z + {n}, x) == Above(z, x) + {n};
    } else {
      assert Above(z + {n}, x) == Above(z, x);
    }
  }

  /** Cutting off the bottom of a list moves nobody who stays. */
  lemma TopKeepsRank(z: set<int>, n: nat, x: int)
    requires x in Top(z, n)
    ensures RevRank(Top(z, n), x) == RevRank(z, x)
  {
    forall y | y in Above(z, x) ensures y in Top(z, n) {
      RankOrder(z, y, x);
    }
    assert Above(Top(z, n), x) == Above(z, x);
  }

  /** The `k`-th entry of the descending list is the member of rank `k`. */
  lemma DescAt(z: set<int>, k: nat)
    requires k < |z|
    ensures RevRank(z, Desc(z)[k]) == k
  {
    ListedRank(Desc(z), z, k);
  }

  lemma {:induction false} ListedRank(s: seq<int>, z: set<int>, k: nat)
    requires Descending(s) && Lists(s, z) && k < |s|
    ensures RevRank(z, s[k]) == k
  {
    forall y | y in Above(z, s[k]) ensures k > 0 && (y == s[k - 1] || y > s[k - 1]) {
      assert y in s;
      var i :| 0 <= i < |s| && s[i] == y;
    }
    if k > 0 {
      var x := s[k - 1];
      assert x in s;
      ListedRank(s, z, k - 1);
      assert Above(z, s[k]) == Above(z, x) + {x};
    } else {
      assert Above(z, s[k]) == {};
    }
  }

  /** The highest member stays; below it the question is the same with one place less. */
  lemma TopStep(z: set<int>, n: nat)
    requires z != {} && n > 0
    ensures Top(z, n) == {Max(z)} + Top(z - {Max(z)}, n - 1)
  {
    var m := Max(z);
    var rest := z - {m};
    assert z == rest + {m} && Above(z, m) == {};
    forall x | x in rest ensures RevRank(z, x) == RevRank(rest, x) + 1 {
      RankPushed(rest, m, x);
    }
  }

  lemma {:induction false} TopSize(z: set<int>, n: nat)
    ensures |Top(z, n)| == if n < |z| then n else |z|
  {
    if n == 0 {
      assert Top(z, n) == {};
    } else if z != {} {
      var m, rest := Max(z), z - {Max(z)};
      TopStep(z, n);
      TopSize(rest, n - 1);
      assert m !in Top(rest, n - 1);
      assert |z| == |rest| + 1;
    }
  }

  /** Taking the top of a union needs only the tops of its parts. */
  lemma TopOfUnion(a: set<int>, b: set<int>, n: nat)
    ensures Top(Top(a, n) + Top(b, n), n) == Top(a + b, n)
  {
    var u := a + b;
    var v := Top(a, n) + Top(b, n);
    forall x ensures x in Top(v, n) <==> x in Top(u, n) {
      if x in Top(u, n) {
        RankGrows(a, u, x);
        RankGrows(b, u, x);
        RankGrows(v, u, x);
      } else if x in v && x in Top(v, n) {
        // Whoever outranks x from outside v is itself outranked by n members of v.
        TopSize(a, n);
        TopSize(b, n);
        if y: int :| y in Above(u, x) && y !in v {
          OutrankedByTop(if y in a then a else b, v, n, y, x);
        } else {
          SubsetSize(Above(u, x), Above(v, x));
        }
        assert false;
      }
    }
  }

  lemma OutrankedByTop(a: set<int>, v: set<int>, n: nat, y: int, x: int)
    requires y in a && y !in Top(a, n) && Top(a, n) <= v && x < y
    ensures RevRank(v, x) >= n
  {
    forall t | t in Top(a, n) ensures t in Above(v, x) {
      if t < y {
        RankOrder(a, y, t);
      }
    }
    RankInBounds(a, y);
    TopSize(a, n);
    SubsetSize(Top(a, n), Above(v, x));
  }

  lemma RankInBounds(z: set<int>, x: int)
    requires x in z
    ensures RevRank(z, x) < |z|
  {
    assert Above(z, x) <= z - {x};
    SubsetSize(Above(z, x), z - {x});
  }

  // ---- Redis range commands over a set whose scores are its members ----

  /** `ZREMRANGEBYRANK key 0 -(n+1)`: ascending ranks from 0 up to the index that
      counts `n + 1` back from the end are removed. */
  function RemLowestBeyond(z: set<int>, n: nat): set<int> {
    var stop := |z| - (n + 1);
    set x | x in z && !(0 <= |Below(z, x)| <= stop)
  }

  lemma RanksComplement(z: set<int>, x: int)
    requires x in z
    ensures |Below(z, x)| + 1 + RevRank(z, x) == |z|
  {
    assert z == Below(z, x) + {x} + Above(z, x);
  }

  lemma RemLowestBeyondIsTop(z: set<int>, n: nat)
    ensures RemLowestBeyond(z, n) == Top(z, n)
  {
    forall x | x in z ensures x in RemLowestBeyond(z, n) <==> x in Top(z, n) {
      RanksComplement(z, x);
    }
  }

  /** `ZREVRANGE key k k WITHSCORES`: the entry of reverse rank `k`, if there is one. */
  function RevEntry(z: set<int>, k: nat): Option<int> {
    if k < |z| then Some(Desc(z)[k]) else None
  }
}
