/** The array pipeline the TypeScript code is written in: filter, map, find, slice, stable sort. */
module Sequences {
  import opened Options

  function Filter<T>(s: seq<T>, p: T -> bool): (r: seq<T>)
    ensures forall x :: x in r ==> x in s && p(x)
    ensures forall x :: x in s && p(x) ==> x in r
    ensures |r| <= |s|
  {
    if s == [] then [] else (if p(s[0]) then [s[0]] else []) + Filter(s[1..], p)
  }

  lemma {:induction false} FilterNone<T>(s: seq<T>, p: T -> bool)
    requires forall x :: x in s ==> !p(x)
    ensures Filter(s, p) == []
  {
    if s != [] {
      FilterNone(s[1..], p);
    }
  }

  lemma {:induction false} FilterSame<T>(s: seq<T>, p: T -> bool, q: T -> bool)
    requires forall x :: x in s ==> p(x) == q(x)
    ensures Filter(s, p) == Filter(s, q)
  {
    if s != [] {
      FilterSame(s[1..], p, q);
    }
  }

  lemma {:induction false} FilterConcat<T>(a: seq<T>, b: seq<T>, p: T -> bool)
    ensures Filter(a + b, p) == Filter(a, p) + Filter(b, p)
  {
    if a == [] {
      assert a + b == b;
    } else {
      assert (a + b)[1..] == a[1..] + b;
      FilterConcat(a[1..], b, p);
    }
  }

  lemma {:induction false} FilterAll<T>(s: seq<T>, p: T -> bool)
    requires forall x :: x in s ==> p(x)
    ensures Filter(s, p) == s
  {
    if s != [] {
      FilterAll(s[1..], p);
    }
  }

  lemma FilterAppend<T>(s: seq<T>, x: T, p: T -> bool)
    ensures Filter(s + [x], p) == Filter(s, p) + if p(x) then [x] else []
  {
    FilterConcat(s, [x], p);
    assert [x][1..] == [];
  }

  // Where the kept elements sit in the list, in order.
  lemma {:induction false} FilterInOrder<T>(s: seq<T>, p: T -> bool) returns (at: seq<nat>)
    ensures |at| == |Filter(s, p)|
    ensures forall i :: 0 <= i < |at| ==> at[i] < |s| && s[at[i]] == Filter(s, p)[i]
    ensures forall i, j :: 0 <= i < j < |at| ==> at[i] < at[j]
  {
    if s == [] {
      at := [];
    } else {
      var front, last := s[..|s| - 1], s[|s| - 1];
      at := FilterInOrder(front, p);
      assert s == front + [last];
      FilterAppend(front, last, p);
      if p(last) {
        at := at + [|s| - 1];
      }
    }
  }

  ghost predicate DistinctBy<T, U>(s: seq<T>, f: T -> U) {
    forall i, j :: 0 <= i < j < |s| ==> f(s[i]) != f(s[j])
  }

  lemma DistinctTellsApart<T, U>(s: seq<T>, f: T -> U, x: T, y: T)
    requires DistinctBy(s, f) && x in s && y in s && f(x) == f(y)
    ensures x == y
  {
  }

  ghost function Image<T, U>(s: seq<T>, f: T -> U): set<U> {
    set x | x in s :: f(x)
  }

  // The image of a list has at most as many elements, and exactly as many if f tells them apart.
  lemma {:induction false} ImageSize<T, U>(s: seq<T>, f: T -> U)
    ensures |Image(s, f)| <= |s|
    ensures DistinctBy(s, f) ==> |Image(s, f)| == |s|
  {
    if s != [] {
      assert s == [s[0]] + s[1..];
      assert Image(s, f) == Image(s[1..], f) + {f(s[0])};
      ImageSize(s[1..], f);
      if DistinctBy(s, f) {
        forall i, j | 0 <= i < j < |s[1..]| ensures f(s[1..][i]) != f(s[1..][j]) {
          assert f(s[i + 1]) != f(s[j + 1]);
        }
        forall x | x in s[1..] ensures f(x) != f(s[0]) {
          var k :| 0 <= k < |s[1..]| && s[1..][k] == x;
          assert s[k + 1] == x;
        }
      }
    }
  }

  lemma {:induction false} FilterKeepsDistinct<T, U>(s: seq<T>, p: T -> bool, f: T -> U)
    requires DistinctBy(s, f)
    ensures DistinctBy(Filter(s, p), f)
  {
    if s != [] {
      forall i, j | 0 <= i < j < |s[1..]| ensures f(s[1..][i]) != f(s[1..][j]) {
        assert f(s[i + 1]) != f(s[j + 1]);
      }
      FilterKeepsDistinct(s[1..], p, f);
      forall x | x in Filter(s[1..], p) ensures f(x) != f(s[0]) {
        var k :| 0 <= k < |s[1..]| && s[1..][k] == x;
        assert s[k + 1] == x;
      }
    }
  }

  // ----- the first element of each key -----

  // x at the end, unless its key is there already.
  function PushNew<T, U(==)>(s: seq<T>, x: T, key: T -> U): seq<T> {
    if exists i :: 0 <= i < |s| && key(s[i]) == key(x) then s else s + [x]
  }

  function PushAllNew<T, U(==)>(s: seq<T>, t: seq<T>, key: T -> U): seq<T> {
    if t == [] then s else PushNew(PushAllNew(s, t[..|t| - 1], key), t[|t| - 1], key)
  }

  function FirstOfEach<T, U(==)>(s: seq<T>, key: T -> U): seq<T> {
    PushAllNew([], s, key)
  }

  lemma PushOneMore<T, U>(s: seq<T>, t: seq<T>, x: T, key: T -> U)
    ensures PushAllNew(s, t + [x], key) == PushNew(PushAllNew(s, t, key), x, key)
  {
    assert (t + [x])[..|t|] == t;
  }

  lemma {:induction false} PushInTwo<T, U>(s: seq<T>, t: seq<T>, u: seq<T>, key: T -> U)
    ensures PushAllNew(s, t + u, key) == PushAllNew(PushAllNew(s, t, key), u, key)
  {
    if u == [] {
      assert t + u == t;
    } else {
      var front := u[..|u| - 1];
      assert (t + u)[..|t + u| - 1] == t + front;
      PushInTwo(s, t, front, key);
    }
  }

  lemma PushNewMeans<T, U>(s: seq<T>, x: T, key: T -> U)
    requires DistinctBy(s, key)
    ensures var r := PushNew(s, x, key);
      && DistinctBy(r, key)
      && (forall y :: y in r ==> y in s || y == x)
      && Image(r, key) == Image(s, key) + {key(x)}
  {
    var r := PushNew(s, x, key);
    if r == s + [x] {
      forall i | 0 <= i < |s| ensures key(s[i]) != key(x) {
        assert s[i] in s;
      }
    }
  }

  // One element of each key, each from the list.
  lemma {:induction false} FirstOfEachMeans<T, U>(s: seq<T>, key: T -> U)
    ensures var firsts := FirstOfEach(s, key);
      && DistinctBy(firsts, key)
      && (forall x :: x in firsts ==> x in s)
      && Image(firsts, key) == Image(s, key)
  {
    if s != [] {
      var front, last := s[..|s| - 1], s[|s| - 1];
      assert s == front + [last];
      FirstOfEachMeans(front, key);
      PushNewMeans(FirstOfEach(front, key), last, key);
      assert Image(s, key) == Image(front, key) + {key(last)};
    }
  }

  // Where the kept elements sit in the list: in order, and each before any other of its key.
  lemma {:induction false} FirstsInOrder<T, U>(s: seq<T>, key: T -> U) returns (at: seq<nat>)
    ensures |at| == |FirstOfEach(s, key)|
    ensures forall i :: 0 <= i < |at| ==> at[i] < |s| && s[at[i]] == FirstOfEach(s, key)[i]
    ensures forall i, j :: 0 <= i < j < |at| ==> at[i] < at[j]
    ensures forall i, j :: 0 <= i < |at| && 0 <= j < at[i] ==> key(s[j]) != key(s[at[i]])
  {
    if s == [] {
      at := [];
    } else {
      var front, last := s[..|s| - 1], s[|s| - 1];
      at := FirstsInOrder(front, key);
      assert s == front + [last];
      FirstsOneMore(front, last, key);
      if key(last) !in Image(front, key) {
        at := at + [|s| - 1];
        assert forall j :: 0 <= j < |s| - 1 ==> s[j] in front;
      }
    }
  }

  lemma FirstsOneMore<T, U>(s: seq<T>, x: T, key: T -> U)
    ensures FirstOfEach(s + [x], key) ==
              FirstOfEach(s, key) + if key(x) in Image(s, key) then [] else [x]
    ensures Image(s + [x], key) == Image(s, key) + {key(x)}
  {
    PushOneMore([], s, x, key);
    FirstOfEachMeans(s, key);
    var firsts := FirstOfEach(s, key);
    assert key(x) in Image(s, key) <==> exists y :: y in firsts && key(y) == key(x);
  }

  function Map<T, U>(s: seq<T>, f: T -> U): (r: seq<U>)
    ensures |r| == |s|
    ensures forall i :: 0 <= i < |s| ==> r[i] == f(s[i])
  {
    seq(|s|, i requires 0 <= i < |s| => f(s[i]))
  }

  lemma MapConcat<T, U>(a: seq<T>, b: seq<T>, f: T -> U)
    ensures Map(a + b, f) == Map(a, f) + Map(b, f)
  {
  }

  // slice(0, n)
  function Take<T>(s: seq<T>, n: nat): (r: seq<T>)
    ensures r <= s && |r| == if |s| <= n then |s| else n
  {
    if |s| <= n then s else s[..n]
  }

  // find(p)
  function Find<T>(s: seq<T>, p: T -> bool): (r: Option<T>)
    ensures r.Some? ==> r.value in s && p(r.value)
    ensures r.None? ==> forall x :: x in s ==> !p(x)
  {
    if s == [] then None else if p(s[0]) then Some(s[0]) else Find(s[1..], p)
  }

  // The found element is the first match.
  lemma {:induction false} FindsFirst<T>(s: seq<T>, p: T -> bool) returns (k: nat)
    requires Find(s, p).Some?
    ensures k < |s| && s[k] == Find(s, p).value && forall j :: 0 <= j < k ==> !p(s[j])
  {
    if p(s[0]) {
      k := 0;
    } else {
      var rest := FindsFirst(s[1..], p);
      k := rest + 1;
    }
  }

  // ----- stable sort -----

  function Insert<T>(x: T, s: seq<T>, key: T -> int): seq<T> {
    if s == [] || key(x) <= key(s[0]) then [x] + s else [s[0]] + Insert(x, s[1..], key)
  }

  function StableSort<T>(s: seq<T>, key: T -> int): seq<T> {
    if s == [] then [] else Insert(s[0], StableSort(s[1..], key), key)
  }

  ghost predicate Sorted<T>(s: seq<T>, key: T -> int) {
    forall i, j :: 0 <= i < j < |s| ==> key(s[i]) <= key(s[j])
  }

  // The elements of one rank, in order.
  function OfRank<T>(s: seq<T>, key: T -> int, rank: int): seq<T> {
    if s == [] then [] else (if key(s[0]) == rank then [s[0]] else []) + OfRank(s[1..], key, rank)
  }

  ghost predicate SameRanks<T>(s: seq<T>, t: seq<T>, key: T -> int) {
    forall rank :: OfRank(s, key, rank) == OfRank(t, key, rank)
  }

  lemma {:induction false} InsertAdds<T>(x: T, s: seq<T>, key: T -> int)
    ensures multiset(Insert(x, s, key)) == multiset(s) + multiset{x}
    ensures forall y :: y in Insert(x, s, key) ==> y == x || y in s
  {
    if s != [] && key(x) > key(s[0]) {
      InsertAdds(x, s[1..], key);
      assert s == [s[0]] + s[1..];
    }
  }

  lemma {:induction false} InsertSorts<T>(x: T, s: seq<T>, key: T -> int)
    requires Sorted(s, key)
    ensures Sorted(Insert(x, s, key), key)
  {
    if s != [] && key(x) > key(s[0]) {
      InsertSorts(x, s[1..], key);
      InsertAdds(x, s[1..], key);
      var t := Insert(x, s[1..], key);
      forall y | y in t
        ensures key(s[0]) <= key(y)
      {
      }
    }
  }

  lemma {:induction false} InsertKeepsRanks<T>(x: T, s: seq<T>, key: T -> int, rank: int)
    ensures OfRank(Insert(x, s, key), key, rank) == OfRank([x] + s, key, rank)
  {
    assert ([x] + s)[1..] == s;
    if s == [] || key(x) <= key(s[0]) {
    } else {
      InsertKeepsRanks(x, s[1..], key, rank);
      assert ([x] + s[1..])[1..] == s[1..];
      assert ([s[0]] + Insert(x, s[1..], key))[1..] == Insert(x, s[1..], key);
    }
  }

  // The sort orders by key, permutes, and keeps the order of equal keys.
  lemma {:induction false} StableSortSorts<T>(s: seq<T>, key: T -> int)
    ensures Sorted(StableSort(s, key), key)
    ensures multiset(StableSort(s, key)) == multiset(s)
    ensures SameRanks(StableSort(s, key), s, key)
  {
    if s != [] {
      StableSortSorts(s[1..], key);
      var t := StableSort(s[1..], key);
      InsertSorts(s[0], t, key);
      InsertAdds(s[0], t, key);
      assert s == [s[0]] + s[1..];
      forall rank ensures OfRank(StableSort(s, key), key, rank) == OfRank(s, key, rank) {
        InsertKeepsRanks(s[0], t, key, rank);
        assert OfRank(t, key, rank) == OfRank(s[1..], key, rank);
        assert ([s[0]] + t)[1..] == t;
      }
    }
  }

  lemma {:induction false} InsertKeepsDistinct<T, U>(x: T, s: seq<T>, key: T -> int, f: T -> U)
    requires DistinctBy(s, f) && forall y :: y in s ==> f(y) != f(x)
    ensures DistinctBy(Insert(x, s, key), f)
  {
    if s != [] && key(x) > key(s[0]) {
      assert forall i :: 0 <= i < |s[1..]| ==> s[1..][i] == s[i + 1];
      InsertKeepsDistinct(x, s[1..], key, f);
      InsertAdds(x, s[1..], key);
      forall y | y in Insert(x, s[1..], key)
        ensures f(y) != f(s[0])
      {
      }
    }
  }

  lemma {:induction false} SortKeepsDistinct<T, U>(s: seq<T>, key: T -> int, f: T -> U)
    requires DistinctBy(s, f)
    ensures DistinctBy(StableSort(s, key), f)
  {
    if s != [] {
      assert forall i :: 0 <= i < |s[1..]| ==> s[1..][i] == s[i + 1];
      SortKeepsDistinct(s[1..], key, f);
      StableSortSorts(s[1..], key);
      var sorted := StableSort(s[1..], key);
      forall y | y in sorted
        ensures f(y) != f(s[0])
      {
        assert y in multiset(s[1..]);
        var k :| 0 <= k < |s[1..]| && s[1..][k] == y;
        assert s[k + 1] == y;
      }
      InsertKeepsDistinct(s[0], sorted, key, f);
    }
  }

  lemma {:induction false} RankMissing<T>(s: seq<T>, key: T -> int, rank: int)
    requires forall x :: x in s ==> key(x) != rank
    ensures OfRank(s, key, rank) == []
  {
    if s != [] {
      RankMissing(s[1..], key, rank);
    }
  }

  lemma {:induction false} OfRankConcat<T>(a: seq<T>, b: seq<T>, key: T -> int, rank: int)
    ensures OfRank(a + b, key, rank) == OfRank(a, key, rank) + OfRank(b, key, rank)
  {
    if a == [] {
      assert a + b == b;
    } else {
      assert (a + b)[1..] == a[1..] + b;
      OfRankConcat(a[1..], b, key, rank);
      var first := if key(a[0]) == rank then [a[0]] else [];
      var front, back := OfRank(a[1..], key, rank), OfRank(b, key, rank);
      assert OfRank(a, key, rank) == first + front;
      assert OfRank(a + b, key, rank) == first + (front + back) == (first + front) + back;
    }
  }

  // A filter that keeps everything of a rank keeps its order.
  lemma {:induction false} OfRankKept<T>(s: seq<T>, p: T -> bool, key: T -> int, rank: int)
    requires forall x :: x in s && key(x) == rank ==> p(x)
    ensures OfRank(Filter(s, p), key, rank) == OfRank(s, key, rank)
  {
    if s != [] {
      OfRankKept(s[1..], p, key, rank);
      var rest := Filter(s[1..], p);
      if p(s[0]) {
        assert Filter(s, p)[1..] == rest;
      } else {
        assert Filter(s, p) == rest;
      }
    }
  }

  // Only one list has these properties, so any stable sorting algorithm computes this one.
  lemma {:induction false} StableSortUnique<T>(s: seq<T>, t: seq<T>, key: T -> int)
    requires Sorted(s, key) && Sorted(t, key) && SameRanks(s, t, key)
    ensures s == t
    decreases |s| + |t|
  {
    if s == [] {
      BothNonempty(t, s, key);
    } else {
      BothNonempty(s, t, key);
      SameHead(s, t, key);
      forall rank ensures OfRank(s[1..], key, rank) == OfRank(t[1..], key, rank) {
        assert OfRank(s, key, rank) == OfRank(t, key, rank);
        assert OfRank(s, key, rank)[if key(s[0]) == rank then 1 else 0..] == OfRank(s[1..], key, rank);
        assert OfRank(t, key, rank)[if key(t[0]) == rank then 1 else 0..] == OfRank(t[1..], key, rank);
      }
      StableSortUnique(s[1..], t[1..], key);
      assert s == [s[0]] + s[1..] && t == [t[0]] + t[1..];
    }
  }

  lemma BothNonempty<T>(s: seq<T>, t: seq<T>, key: T -> int)
    requires SameRanks(s, t, key)
    ensures s != [] ==> t != []
  {
    if s != [] {
      assert OfRank(s, key, key(s[0])) == OfRank(t, key, key(s[0]));
    }
  }

  lemma SameHead<T>(s: seq<T>, t: seq<T>, key: T -> int)
    requires Sorted(s, key) && Sorted(t, key) && SameRanks(s, t, key)
    requires s != [] && t != []
    ensures s[0] == t[0]
  {
    var a, b := key(s[0]), key(t[0]);
    assert OfRank(s, key, a) == OfRank(t, key, a) && OfRank(s, key, b) == OfRank(t, key, b);
    assert OfRank(s, key, a)[0] == s[0] && OfRank(t, key, b)[0] == t[0];
    if a < b {
      RankMissing(t, key, a);
    } else if b < a {
      RankMissing(s, key, b);
    }
  }

  // ----- find after sort -----

  // The simple form: one scan for a match of least key, the earlier one on ties.
  function Best<T>(s: seq<T>, p: T -> bool, key: T -> int): (r: Option<T>)
    ensures r.Some? ==> r.value in s && p(r.value) && forall x :: x in s && p(x) ==> key(r.value) <= key(x)
    ensures r.None? ==> forall x :: x in s ==> !p(x)
  {
    if s == [] then None else
      var rest := Best(s[1..], p, key);
      if p(s[0]) && (rest.None? || key(s[0]) <= key(rest.value)) then Some(s[0]) else rest
  }

  lemma {:induction false} FindInserted<T>(x: T, s: seq<T>, p: T -> bool, key: T -> int)
    requires Sorted(s, key)
    ensures Find(Insert(x, s, key), p) ==
              var rest := Find(s, p);
              if p(x) && (rest.None? || key(x) <= key(rest.value)) then Some(x) else rest
  {
    assert ([x] + s)[1..] == s;
    if s != [] && key(x) > key(s[0]) {
      FindInserted(x, s[1..], p, key);
      assert ([s[0]] + Insert(x, s[1..], key))[1..] == Insert(x, s[1..], key);
    } else {
      assert Find([x] + s, p) == if p(x) then Some(x) else Find(s, p);
    }
  }

  lemma {:induction false} FindAfterSort<T>(s: seq<T>, p: T -> bool, key: T -> int)
    ensures Find(StableSort(s, key), p) == Best(s, p, key)
  {
    if s != [] {
      FindAfterSort(s[1..], p, key);
      StableSortSorts(s[1..], key);
      FindInserted(s[0], StableSort(s[1..], key), p, key);
    }
  }

  // With distinct keys the scan does not depend on the order of the list.
  lemma BestIgnoresOrder<T>(s: seq<T>, t: seq<T>, p: T -> bool, key: T -> int)
    requires multiset(s) == multiset(t)
    requires DistinctBy(s, key)
    ensures Best(s, p, key) == Best(t, p, key)
  {
    SameElements(s, t);
    var r, q := Best(s, p, key), Best(t, p, key);
    if r.Some? {
      assert r.value in t && q.value in s;
      DistinctTellsApart(s, key, r.value, q.value);
    }
  }

  lemma SameElements<T>(s: seq<T>, t: seq<T>)
    requires multiset(s) == multiset(t)
    ensures forall x :: x in s <==> x in t
  {
    forall x
      ensures x in s <==> x in t
    {
      assert x in s <==> x in multiset(s);
    }
  }
}
