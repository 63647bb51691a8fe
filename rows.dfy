/**
 * Table operations shared by the handlers: the effect of `INSERT ... ON CONFLICT DO NOTHING`
 * on a table whose key is the whole row, `DELETE` of one exact row, and `ORDER BY` on an
 * integer column.
 */
module Rows {

  /** No row occurs twice: the table's primary key covers all its columns. */
  ghost predicate NoDup<T>(s: seq<T>)
  {
    forall i, j :: 0 <= i < j < |s| ==> s[i] != s[j]
  }

  /** In a table without duplicates every row occurs at most once. */
  lemma {:induction false} NoDupCount<T>(s: seq<T>, x: T)
    requires NoDup(s)
    ensures multiset(s)[x] <= 1
  {
    if s != [] {
      assert s == [s[0]] + s[1..];
      assert NoDup(s[1..]) by {
        forall i, j | 0 <= i < j < |s[1..]| ensures s[1..][i] != s[1..][j] {
          assert s[1..][i] == s[i + 1] && s[1..][j] == s[j + 1];
        }
      }
      NoDupCount(s[1..], x);
      if s[0] == x {
        assert x !in s[1..] by {
          forall k | 0 <= k < |s[1..]| ensures s[1..][k] != x {
            assert s[1..][k] == s[k + 1];
          }
        }
      }
    }
  }

  /** `INSERT ... ON CONFLICT DO NOTHING` of the row `x`. */
  function InsertIfAbsent<T(==,!new)>(s: seq<T>, x: T): (r: seq<T>)
    ensures x in r
    ensures forall y :: y in r <==> y in s || y == x
    ensures |s| <= |r| <= |s| + 1 && r[..|s|] == s
    ensures x in s ==> r == s
    ensures x !in s ==> r == s + [x]
  {
    if x in s then s else s + [x]
  }

  /** Inserting the same row twice leaves the table as one insertion does. */
  lemma InsertIfAbsentIdempotent<T(!new)>(s: seq<T>, x: T)
    ensures InsertIfAbsent(InsertIfAbsent(s, x), x) == InsertIfAbsent(s, x)
  {
  }

  /** The insertion keeps the key, and afterwards the row occurs exactly once. */
  lemma InsertIfAbsentOnce<T(!new)>(s: seq<T>, x: T)
    requires NoDup(s)
    ensures NoDup(InsertIfAbsent(s, x))
    ensures multiset(InsertIfAbsent(s, x))[x] == 1
  {
    var r := InsertIfAbsent(s, x);
    NoDupCount(r, x);
  }

  /** `DELETE` of every copy of the row `x`; all other rows keep their multiplicity. */
  function Without<T(==,!new)>(s: seq<T>, x: T): (r: seq<T>)
    ensures forall y :: multiset(r)[y] == if y == x then 0 else multiset(s)[y]
    ensures forall y :: y in r <==> y in s && y != x
  {
    if s == [] then []
    else
      assert s == [s[0]] + s[1..];
      if s[0] == x then Without(s[1..], x) else [s[0]] + Without(s[1..], x)
  }

  /** Deleting an absent row changes nothing; deleting twice is deleting once. */
  lemma {:induction false} WithoutIdempotent<T(!new)>(s: seq<T>, x: T)
    ensures Without(Without(s, x), x) == Without(s, x)
    ensures x !in s ==> Without(s, x) == s
  {
    if s != [] {
      WithoutIdempotent(s[1..], x);
    }
  }

  /** A table in which every row occurs at most once has no duplicates. */
  lemma CountsNoDup<T>(s: seq<T>)
    requires forall y :: multiset(s)[y] <= 1
    ensures NoDup(s)
  {
    forall i, j | 0 <= i < j < |s| ensures s[i] != s[j] {
      TwoCopies(s, i, j);
    }
  }

  /** Equal rows at two positions make two copies. */
  lemma TwoCopies<T>(s: seq<T>, i: int, j: int)
    requires 0 <= i < j < |s|
    ensures s[i] == s[j] ==> multiset(s)[s[i]] >= 2
  {
    assert s == s[..i] + [s[i]] + s[i + 1..j] + [s[j]] + s[j + 1..];
  }

  /** Deleting a row keeps every other row unique. */
  lemma WithoutKeepsNoDup<T(!new)>(s: seq<T>, x: T)
    requires NoDup(s)
    ensures NoDup(Without(s, x))
  {
    forall y ensures multiset(Without(s, x))[y] <= 1 {
      NoDupCount(s, y);
    }
    CountsNoDup(Without(s, x));
  }

  /** Two permutations of each other hold the same rows. */
  lemma SameMembers<T>(a: seq<T>, b: seq<T>)
    requires multiset(a) == multiset(b)
    ensures forall x :: x in a <==> x in b
  {
    forall x ensures x in a <==> x in b {
      assert x in a <==> x in multiset(a);
      assert x in b <==> x in multiset(b);
    }
  }

  /** `s` is ordered by `key`, smallest first. */
  ghost predicate SortedBy<T>(s: seq<T>, key: T -> int)
  {
    forall i, j :: 0 <= i < j < |s| ==> key(s[i]) <= key(s[j])
  }

  /** Insert `x` in front of the first row whose key is not smaller. */
  function InsertSorted<T(!new)>(x: T, s: seq<T>, key: T -> int): (r: seq<T>)
    requires SortedBy(s, key)
    ensures SortedBy(r, key)
    ensures multiset(r) == multiset(s) + multiset{x}
    ensures |r| == |s| + 1
  {
    if s == [] then [x]
    else if key(x) <= key(s[0]) then [x] + s
    else
      SortedTail(s, key);
      var rest := InsertSorted(x, s[1..], key);
      ConsInserted(s[0], s[1..], rest, x, key);
      assert s == [s[0]] + s[1..];
      [s[0]] + rest
  }

  /** The tail of a sorted sequence is sorted, and its head is no larger than any of it. */
  lemma SortedTail<T>(s: seq<T>, key: T -> int)
    requires SortedBy(s, key) && s != []
    ensures SortedBy(s[1..], key)
    ensures forall k :: 0 <= k < |s[1..]| ==> key(s[0]) <= key(s[1..][k])
  {
    forall k | 0 <= k < |s[1..]| ensures key(s[0]) <= key(s[1..][k]) {
      assert s[1..][k] == s[k + 1];
    }
  }

  /** A head no larger than `u` and `x`, put in front of `u` with `x` inserted, keeps the order. */
  lemma ConsInserted<T>(h: T, u: seq<T>, rest: seq<T>, x: T, key: T -> int)
    requires forall k :: 0 <= k < |u| ==> key(h) <= key(u[k])
    requires key(h) <= key(x)
    requires SortedBy(rest, key) && multiset(rest) == multiset(u) + multiset{x}
    ensures SortedBy([h] + rest, key)
    ensures multiset([h] + rest) == multiset{h} + multiset(u) + multiset{x}
  {
    KeysAtLeast(rest, u, x, key, key(h));
    ConsSorted(h, rest, key);
  }

  /** Rows that are `u` plus `x` all have keys at least `b` when `u` and `x` do. */
  lemma KeysAtLeast<T>(t: seq<T>, u: seq<T>, x: T, key: T -> int, b: int)
    requires multiset(t) == multiset(u) + multiset{x}
    requires key(x) >= b && forall k :: 0 <= k < |u| ==> key(u[k]) >= b
    ensures forall k :: 0 <= k < |t| ==> key(t[k]) >= b
  {
    forall k | 0 <= k < |t| ensures key(t[k]) >= b {
      var y := t[k];
      assert y in multiset(t);
      if y != x {
        assert y in multiset(u);
        var m :| 0 <= m < |u| && u[m] == y;
      }
    }
  }

  /** A row no larger than every row of a sorted sequence can go in front of it. */
  lemma ConsSorted<T>(h: T, s: seq<T>, key: T -> int)
    requires SortedBy(s, key)
    requires forall k :: 0 <= k < |s| ==> key(h) <= key(s[k])
    ensures SortedBy([h] + s, key)
  {
    var r := [h] + s;
    forall i, j | 0 <= i < j < |r| ensures key(r[i]) <= key(r[j]) {
      assert r[j] == s[j - 1];
      if i > 0 {
        assert r[i] == s[i - 1];
      }
    }
  }

  /** A stable insertion sort: `ORDER BY key ASC`. */
  function SortBy<T(!new)>(s: seq<T>, key: T -> int): (r: seq<T>)
    ensures SortedBy(r, key)
    ensures multiset(r) == multiset(s)
    ensures |r| == |s|
  {
    if s == [] then []
    else
      assert s == [s[0]] + s[1..];
      InsertSorted(s[0], SortBy(s[1..], key), key)
  }

  /** A sub-multiset of a sequence of the same length is its whole multiset. */
  lemma MultisetSubsetSameSize<T>(a: seq<T>, b: seq<T>)
    requires multiset(a) <= multiset(b) && |a| == |b|
    ensures multiset(a) == multiset(b)
  {
    var d := multiset(b) - multiset(a);
    assert multiset(b) == multiset(a) + d;
    assert |multiset(b)| == |multiset(a)| + |d|;
  }

  /**
   * `ORDER BY key LIMIT n`: the first `n` sorted rows. Every row left out has a key at
   * least as large as every row kept.
   */
  lemma LimitKeepsSmallest<T>(s: seq<T>, key: T -> int, n: nat, y: T)
    requires SortedBy(s, key)
    requires n <= |s|
    requires y in multiset(s) - multiset(s[..n])
    ensures forall k :: 0 <= k < n ==> key(s[k]) <= key(y)
  {
    assert s == s[..n] + s[n..];
    assert multiset(s) == multiset(s[..n]) + multiset(s[n..]);
    assert y in s[n..];
    var j :| 0 <= j < |s[n..]| && s[n..][j] == y;
    assert s[n + j] == y;
  }
}
