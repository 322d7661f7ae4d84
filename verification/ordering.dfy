/**
 * The orderings the admin's querysets and the aggregate columns use:
 * `order_by("order_index", "id")` and `order_by("id")` on rows identified by
 * integer keys, and `sorted()` on a set of Python strings (code point order).
 * Each is built by repeatedly taking the least remaining element.
 */
module Ordering {

  // ---------------------------------------------------------------- rows by (rank, id)

  /** `a` comes before `b` when rows are ordered by their rank and then by id. */
  predicate RankedBefore(rank: map<int, int>, a: int, b: int)
    requires a in rank && b in rank
  {
    rank[a] < rank[b] || (rank[a] == rank[b] && a < b)
  }

  /** Some element of a non-empty set. */
  lemma PickOne<T>(s: set<T>) returns (x: T)
    requires s != {}
    ensures x in s
  {
    var y :| y in s;
    x := y;
  }

  /** `m` is the first of the rows in `s`. */
  predicate IsLeast(s: set<int>, rank: map<int, int>, m: int)
    requires s <= rank.Keys
  {
    m in s && forall y :: y in s && y != m ==> RankedBefore(rank, m, y)
  }

  lemma {:induction false} LeastExists(s: set<int>, rank: map<int, int>)
    requires s != {} && s <= rank.Keys
    ensures exists m :: IsLeast(s, rank, m)
    decreases |s|
  {
    var x := PickOne(s);
    if s == {x} {
      assert IsLeast(s, rank, x);
    } else {
      LeastExists(s - {x}, rank);
      var rest :| IsLeast(s - {x}, rank, rest);
      if RankedBefore(rank, x, rest) {
        forall y | y in s && y != x ensures RankedBefore(rank, x, y) {
          if y != rest { assert RankedBefore(rank, rest, y); }
        }
        assert IsLeast(s, rank, x);
      } else {
        assert IsLeast(s, rank, rest);
      }
    }
  }

  /** The first of the rows in `s`. */
  function Least(s: set<int>, rank: map<int, int>): (m: int)
    requires s != {} && s <= rank.Keys
    ensures m in s && forall y :: y in s && y != m ==> RankedBefore(rank, m, y)
  {
    LeastExists(s, rank);
    var m :| IsLeast(s, rank, m);
    m
  }

  /** The ids of `s` in (rank, id) order. */
  function SortedBy(s: set<int>, rank: map<int, int>): (r: seq<int>)
    requires s <= rank.Keys
    ensures |r| == |s| && forall x :: x in r <==> x in s
    decreases |s|
  {
    if s == {} then []
    else
      var m := Least(s, rank);
      [m] + SortedBy(s - {m}, rank)
  }

  /** Every earlier row of `r` comes before every later one. */
  predicate Ascending(r: seq<int>, rank: map<int, int>)
    requires forall k :: 0 <= k < |r| ==> r[k] in rank
  {
    forall i, j :: 0 <= i < j < |r| ==> RankedBefore(rank, r[i], r[j])
  }

  lemma {:induction false} SortedByAscending(s: set<int>, rank: map<int, int>)
    requires s <= rank.Keys
    ensures Ascending(SortedBy(s, rank), rank)
    decreases |s|
  {
    if s != {} {
      var m := Least(s, rank);
      SortedByAscending(s - {m}, rank);
      var r := SortedBy(s, rank);
      assert r[1..] == SortedBy(s - {m}, rank);
      forall i, j | 0 <= i < j < |r| ensures RankedBefore(rank, r[i], r[j]) {
        if i > 0 {
          assert r[i] == r[1..][i - 1] && r[j] == r[1..][j - 1];
        } else {
          assert r[j] in s - {m} by { assert r[j] == r[1..][j - 1]; }
        }
      }
    }
  }

  /** The ordering is unique: an ascending listing of exactly the rows of `s` is `SortedBy(s)`. */
  lemma {:induction false} AscendingIsSorted(r: seq<int>, s: set<int>, rank: map<int, int>)
    requires s <= rank.Keys
    requires forall x :: x in r <==> x in s
    requires forall k :: 0 <= k < |r| ==> r[k] in rank
    requires Ascending(r, rank)
    ensures SortedBy(s, rank) == r
    decreases |s|
  {
    if r == [] {
      assert forall x :: x !in s;
    } else {
      assert r[0] in r;
      var m := Least(s, rank);
      assert r[0] == m by {
        assert m in r;
        var k :| 0 <= k < |r| && r[k] == m;
        if k > 0 {
          assert RankedBefore(rank, r[0], r[k]);
          assert r[0] in s;
        }
      }
      var tail := r[1..];
      forall x ensures x in tail <==> x in s - {m} {
        if x in tail {
          var k :| 0 <= k < |tail| && tail[k] == x;
          assert RankedBefore(rank, r[0], r[k + 1]);
        }
      }
      assert Ascending(tail, rank) by {
        forall i, j | 0 <= i < j < |tail| ensures RankedBefore(rank, tail[i], tail[j]) {
          assert tail[i] == r[i + 1] && tail[j] == r[j + 1];
        }
      }
      AscendingIsSorted(tail, s - {m}, rank);
    }
  }

  /** The (rank, id) order of `s` only depends on the ranks of the rows in `s`. */
  lemma SortedByRankFrame(s: set<int>, rank: map<int, int>, rank': map<int, int>)
    requires s <= rank.Keys && s <= rank'.Keys
    requires forall x :: x in s ==> rank[x] == rank'[x]
    ensures SortedBy(s, rank') == SortedBy(s, rank)
  {
    var r := SortedBy(s, rank);
    SortedByAscending(s, rank);
    assert forall i, j :: 0 <= i < j < |r| ==> RankedBefore(rank', r[i], r[j]) by {
      forall i, j | 0 <= i < j < |r| ensures RankedBefore(rank', r[i], r[j]) {
        assert RankedBefore(rank, r[i], r[j]);
      }
    }
    AscendingIsSorted(r, s, rank');
  }

  /** Every row the same rank: `order_by("id")`. */
  function IdRank(s: set<int>): (rank: map<int, int>)
    ensures rank.Keys == s
  {
    map x | x in s :: 0
  }

  /** The ids of `s` in increasing order. */
  function SortedIds(s: set<int>): (r: seq<int>)
    ensures |r| == |s| && forall x :: x in r <==> x in s
    ensures forall i, j :: 0 <= i < j < |r| ==> r[i] < r[j]
  {
    var rank := IdRank(s);
    SortedByAscending(s, rank);
    SortedBy(s, rank)
  }

  /** Increasing ids listing exactly `s` are `SortedIds(s)`. */
  lemma IncreasingIsSortedIds(r: seq<int>, s: set<int>)
    requires forall x :: x in r <==> x in s
    requires forall i, j :: 0 <= i < j < |r| ==> r[i] < r[j]
    ensures SortedIds(s) == r
  {
    AscendingIsSorted(r, s, IdRank(s));
  }

  // ---------------------------------------------------------------- strings

  /** Python's `a < b` on strings: code point order, a proper prefix first. */
  predicate LexLess(a: string, b: string) {
    if a == [] then b != []
    else if b == [] then false
    else if a[0] != b[0] then a[0] < b[0]
    else LexLess(a[1..], b[1..])
  }

  lemma {:induction false} LexIrreflexive(a: string)
    ensures !LexLess(a, a)
  {
    if a != [] { LexIrreflexive(a[1..]); }
  }

  lemma {:induction false} LexTransitive(a: string, b: string, c: string)
    requires LexLess(a, b) && LexLess(b, c)
    ensures LexLess(a, c)
  {
    if a != [] && b != [] && c != [] && a[0] == b[0] && b[0] == c[0] {
      LexTransitive(a[1..], b[1..], c[1..]);
    }
  }

  lemma {:induction false} LexTotal(a: string, b: string)
    requires a != b
    ensures LexLess(a, b) || LexLess(b, a)
  {
    if a != [] && b != [] && a[0] == b[0] {
      assert a == [a[0]] + a[1..] && b == [b[0]] + b[1..];
      LexTotal(a[1..], b[1..]);
    }
  }

  lemma {:induction false} LexAsymmetric(a: string, b: string)
    requires LexLess(a, b)
    ensures !LexLess(b, a)
  {
    if a != [] && b != [] && a[0] == b[0] {
      LexAsymmetric(a[1..], b[1..]);
    }
  }

  /** `m` is the least of the strings in `s`. */
  predicate IsLeastString(s: set<string>, m: string) {
    m in s && forall y :: y in s && y != m ==> LexLess(m, y)
  }

  lemma {:induction false} LeastStringExists(s: set<string>)
    requires s != {}
    ensures exists m :: IsLeastString(s, m)
    decreases |s|
  {
    var x := PickOne(s);
    if s == {x} {
      assert IsLeastString(s, x);
    } else {
      LeastStringExists(s - {x});
      var rest :| IsLeastString(s - {x}, rest);
      if LexLess(x, rest) {
        forall y | y in s && y != x ensures LexLess(x, y) {
          if y != rest { LexTransitive(x, rest, y); }
        }
        assert IsLeastString(s, x);
      } else {
        LexTotal(x, rest);
        assert IsLeastString(s, rest);
      }
    }
  }

  function LeastString(s: set<string>): (m: string)
    requires s != {}
    ensures m in s && forall y :: y in s && y != m ==> LexLess(m, y)
  {
    LeastStringExists(s);
    assert forall a, b :: IsLeastString(s, a) && IsLeastString(s, b) ==> a == b by {
      forall a, b | IsLeastString(s, a) && IsLeastString(s, b) ensures a == b {
        if a != b { LexAsymmetric(a, b); }
      }
    }
    var m :| IsLeastString(s, m);
    m
  }

  /** `sorted(s)` for a set of strings. */
  function SortedStrings(s: set<string>): (r: seq<string>)
    ensures |r| == |s| && forall x :: x in r <==> x in s
    decreases |s|
  {
    if s == {} then []
    else
      var m := LeastString(s);
      [m] + SortedStrings(s - {m})
  }

  /** `sorted` lists the strings in strictly increasing order. */
  lemma {:induction false} SortedStringsIncrease(s: set<string>)
    ensures var r := SortedStrings(s);
      forall i, j :: 0 <= i < j < |r| ==> LexLess(r[i], r[j])
    decreases |s|
  {
    if s != {} {
      var m := LeastString(s);
      SortedStringsIncrease(s - {m});
      var r := SortedStrings(s);
      assert r[1..] == SortedStrings(s - {m});
      forall i, j | 0 <= i < j < |r| ensures LexLess(r[i], r[j]) {
        if i > 0 {
          assert r[i] == r[1..][i - 1] && r[j] == r[1..][j - 1];
        } else {
          assert r[j] in s - {m} by { assert r[j] == r[1..][j - 1]; }
        }
      }
    }
  }
}
