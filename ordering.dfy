/** The query operations a listing is built from, stated over plain sequences
    of rows: ORDER BY a score (a stable sort), WHERE (an order-keeping filter)
    and a join across a multi-valued relation (each row repeated once per
    matching related row). */
module Ordering {

  /** The value an ORDER BY column takes for one row; Null is SQL NULL. */
  datatype Score = Null | Val(v: real)

  /** `a` may stand before `b` in a descending order that lists NULL last. */
  predicate AtLeast(a: Score, b: Score) {
    match a
    case Null => b.Null?
    case Val(x) => b.Null? || x >= b.v
  }

  /** No element occurs twice. */
  predicate Distinct<T(==)>(s: seq<T>) {
    forall i, j :: 0 <= i < j < |s| ==> s[i] != s[j]
  }

  /** Every row is at least every row that follows it. */
  predicate SortedBy<T>(s: seq<T>, score: T -> Score) {
    forall i, j :: 0 <= i < j < |s| ==> AtLeast(score(s[i]), score(s[j]))
  }

  /** Insert `x` before the first row it is at least, so that `x` precedes
      the rows it ties with. */
  function Insert<T>(x: T, s: seq<T>, score: T -> Score): (r: seq<T>)
    requires SortedBy(s, score)
    ensures multiset(r) == multiset(s) + multiset{x}
    ensures SortedBy(r, score)
  {
    if s == [] || AtLeast(score(x), score(s[0])) then
      [x] + s
    else
      var t := Insert(x, s[1..], score);
      assert s == [s[0]] + s[1..];
      assert forall k :: 0 <= k < |t| ==> AtLeast(score(s[0]), score(t[k])) by {
        forall k | 0 <= k < |t|
          ensures AtLeast(score(s[0]), score(t[k]))
        {
          assert t[k] in multiset(t);
          if t[k] != x {
            assert t[k] in multiset(s[1..]);
            var m :| 0 <= m < |s[1..]| && s[1..][m] == t[k];
            assert s[1 + m] == t[k];
          }
        }
      }
      [s[0]] + t
  }

  /** ORDER BY `score` DESC over `s`; rows that tie keep their order in `s`. */
  function Sort<T>(s: seq<T>, score: T -> Score): (r: seq<T>)
    ensures multiset(r) == multiset(s)
    ensures SortedBy(r, score)
  {
    if s == [] then []
    else
      assert s == [s[0]] + s[1..];
      Insert(s[0], Sort(s[1..], score), score)
  }

  /** WHERE `keep`: the rows of `s` that satisfy `keep`, in their order. */
  function Filter<T(!new)>(s: seq<T>, keep: T -> bool): (r: seq<T>)
    ensures |r| <= |s|
    ensures forall x :: x in r <==> x in s && keep(x)
  {
    if s == [] then []
    else (if keep(s[0]) then [s[0]] else []) + Filter(s[1..], keep)
  }

  /** A join with a multi-valued relation: each row of `s` appears once per
      related row that matches, `mult(x)` times in a row. */
  function Join<T(!new)>(s: seq<T>, mult: T -> nat): (r: seq<T>)
    ensures forall x :: x in r <==> x in s && mult(x) > 0
  {
    if s == [] then []
    else
      var head, t := seq(mult(s[0]), _ => s[0]), Join(s[1..], mult);
      assert mult(s[0]) > 0 ==> head[0] == s[0];
      assert forall x :: x in head <==> x == s[0] && mult(s[0]) > 0;
      assert forall x :: x in s <==> x == s[0] || x in s[1..];
      head + t
  }

  /** Filtering keeps every selected row with its multiplicity and drops the
      rest: the result is a permutation of exactly the selected rows. */
  lemma {:induction false} FilterCount<T(!new)>(s: seq<T>, keep: T -> bool, x: T)
    ensures multiset(Filter(s, keep))[x] == if keep(x) then multiset(s)[x] else 0
  {
    if s != [] {
      assert s == [s[0]] + s[1..];
      FilterCount(s[1..], keep, x);
    }
  }

  /** Filtering commutes with concatenation, so it keeps the relative order
      of the rows it selects. */
  lemma {:induction false} FilterAppend<T(!new)>(a: seq<T>, b: seq<T>, keep: T -> bool)
    ensures Filter(a + b, keep) == Filter(a, keep) + Filter(b, keep)
  {
    if a == [] {
      assert a + b == b;
    } else {
      assert (a + b)[0] == a[0];
      assert (a + b)[1..] == a[1..] + b;
      FilterAppend(a[1..], b, keep);
    }
  }

  /** A filter that rejects nothing returns its input unchanged. */
  lemma {:induction false} FilterAll<T(!new)>(s: seq<T>, keep: T -> bool)
    requires forall x :: x in s ==> keep(x)
    ensures Filter(s, keep) == s
  {
    if s != [] {
      assert s == [s[0]] + s[1..];
      FilterAll(s[1..], keep);
    }
  }

  /** Two conditions that agree on every row of `s` select the same rows. */
  lemma {:induction false} FilterSameOn<T(!new)>(s: seq<T>, k1: T -> bool, k2: T -> bool)
    requires forall x :: x in s ==> k1(x) == k2(x)
    ensures Filter(s, k1) == Filter(s, k2)
  {
    if s != [] {
      assert s[0] in s;
      FilterSameOn(s[1..], k1, k2);
    }
  }

  /** A sequence holds no element twice exactly when it holds each element
      at most once as a multiset. */
  lemma {:induction false} DistinctCounts<T>(s: seq<T>)
    ensures Distinct(s) <==> forall x :: multiset(s)[x] <= 1
  {
    if s != [] {
      DistinctCounts(s[1..]);
      assert s == [s[0]] + s[1..];
      assert Distinct(s) <==> s[0] !in s[1..] && Distinct(s[1..]) by {
        if s[0] !in s[1..] && Distinct(s[1..]) {
          forall i, j | 0 <= i < j < |s|
            ensures s[i] != s[j]
          {
            if i == 0 {
              assert s[j] == s[1..][j - 1];
            } else {
              assert s[i] == s[1..][i - 1] && s[j] == s[1..][j - 1];
            }
          }
        }
        if Distinct(s) {
          assert forall m :: 0 <= m < |s[1..]| ==> s[1..][m] == s[1 + m];
          assert s[0] !in s[1..];
          forall i, j | 0 <= i < j < |s[1..]|
            ensures s[1..][i] != s[1..][j]
          {
            assert s[1..][i] == s[i + 1] && s[1..][j] == s[j + 1];
          }
        }
      }
      if forall x :: multiset(s)[x] <= 1 {
        assert multiset(s)[s[0]] == 1 + multiset(s[1..])[s[0]];
        forall x ensures multiset(s[1..])[x] <= 1 {
          assert multiset(s)[x] >= multiset(s[1..])[x];
        }
      }
    }
  }

  /** Taking the same element off two permutations of each other leaves
      permutations of each other. */
  lemma MultisetCancel<T>(a: seq<T>, b: seq<T>, i: int)
    requires 0 <= i < |b| && a != [] && b[i] == a[0]
    requires multiset(a) == multiset(b)
    ensures multiset(a[1..]) == multiset(b[..i] + b[i + 1..])
  {
    assert a == [a[0]] + a[1..];
    assert b == b[..i] + [b[i]] + b[i + 1..];
    assert multiset(b[..i] + b[i + 1..]) == multiset(b[..i]) + multiset(b[i + 1..]);
    assert multiset(b) == multiset(b[..i]) + multiset{b[i]} + multiset(b[i + 1..]);
    assert multiset(a) == multiset{a[0]} + multiset(a[1..]);
    assert multiset(a[1..]) == multiset(a) - multiset{a[0]};
  }

  /** `before` holds of every row and each row that follows it. */
  predicate Pairwise<T>(s: seq<T>, before: (T, T) -> bool) {
    forall i, j :: 0 <= i < j < |s| ==> before(s[i], s[j])
  }

  /** A filter that selects nothing returns nothing. */
  lemma {:induction false} FilterNone<T(!new)>(s: seq<T>, keep: T -> bool)
    requires forall x :: x in s ==> !keep(x)
    ensures Filter(s, keep) == []
  {
    if s != [] {
      assert s[0] in s;
      FilterNone(s[1..], keep);
    }
  }

  /** A filter applied to an ordered listing leaves it ordered. */
  lemma {:induction false} FilterKeepsOrder<T(!new)>(s: seq<T>, keep: T -> bool, before: (T, T) -> bool)
    requires Pairwise(s, before)
    ensures Pairwise(Filter(s, keep), before)
  {
    if s != [] {
      FilterKeepsOrder(s[1..], keep, before);
      var t := Filter(s[1..], keep);
      forall k | 0 <= k < |t|
        ensures before(s[0], t[k])
      {
        assert t[k] in s[1..];
        var m :| 0 <= m < |s[1..]| && s[1..][m] == t[k];
        assert s[1 + m] == t[k];
      }
    }
  }

  /** The number of copies of `x` a join yields is its number of copies in
      the input times its number of matching related rows. */
  lemma {:induction false} JoinCount<T(!new)>(s: seq<T>, mult: T -> nat, x: T)
    ensures multiset(Join(s, mult))[x] == multiset(s)[x] * mult(x)
  {
    if s != [] {
      assert s == [s[0]] + s[1..];
      JoinCount(s[1..], mult, x);
      var head := seq(mult(s[0]), _ => s[0]);
      RepeatCount(s[0], mult(s[0]), x);
      assert Join(s, mult) == head + Join(s[1..], mult);
      var c, m := multiset(s[1..])[x], mult(x);
      assert multiset(Join(s, mult))[x] == multiset(head)[x] + c * m;
      if x == s[0] {
        assert multiset(s)[x] == 1 + c;
        assert (1 + c) * m == m + c * m;
      } else {
        assert multiset(s)[x] == c;
      }
    }
  }

  lemma {:induction false} RepeatCount<T>(y: T, n: nat, x: T)
    ensures multiset(seq(n, _ => y))[x] == if x == y then n else 0
  {
    if n > 0 {
      var r := seq(n, _ => y);
      assert r == [y] + seq(n - 1, _ => y);
      RepeatCount(y, n - 1, x);
    }
  }

  /** A join that matches each row at most once is the filter on "matches
      once": no row is duplicated. */
  lemma {:induction false} JoinAtMostOnce<T(!new)>(s: seq<T>, mult: T -> nat)
    requires forall x :: x in s ==> mult(x) <= 1
    ensures Join(s, mult) == Filter(s, x => mult(x) > 0)
  {
    if s != [] {
      assert s == [s[0]] + s[1..];
      JoinAtMostOnce(s[1..], mult);
      if mult(s[0]) == 0 {
        assert seq(mult(s[0]), _ => s[0]) == [];
      } else {
        assert seq(mult(s[0]), _ => s[0]) == [s[0]];
      }
    }
  }

  /** A join applied to an ordered listing leaves it ordered, provided the
      order relates each row to itself (the copies of one row are adjacent). */
  lemma {:induction false} JoinKeepsOrder<T(!new)>(s: seq<T>, mult: T -> nat, before: (T, T) -> bool)
    requires Pairwise(s, before)
    requires forall x :: x in s ==> before(x, x)
    ensures Pairwise(Join(s, mult), before)
  {
    if s != [] {
      JoinKeepsOrder(s[1..], mult, before);
      var head := seq(mult(s[0]), _ => s[0]);
      var t := Join(s[1..], mult);
      forall k | 0 <= k < |t|
        ensures before(s[0], t[k])
      {
        assert t[k] in s[1..];
        var m :| 0 <= m < |s[1..]| && s[1..][m] == t[k];
        assert s[1 + m] == t[k];
      }
      var r := head + t;
      forall i, j | 0 <= i < j < |r|
        ensures before(r[i], r[j])
      {
        if j < |head| {
          assert r[i] == s[0] && r[j] == s[0];
        } else if i < |head| {
          assert r[i] == s[0] && r[j] == t[j - |head|];
        } else {
          assert r[i] == t[i - |head|] && r[j] == t[j - |head|];
        }
      }
    }
  }
}
