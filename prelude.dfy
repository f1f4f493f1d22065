/**
 * Shared vocabulary of the model: optional values and errors, image handles,
 * Go's time arithmetic on integer nanoseconds, and Go's sort.Ints.
 */
module Prelude {

  datatype Option<T> = None | Some(value: T)

  datatype Result<T, E> = Ok(value: T) | Err(error: E)

  /**
   * An ebiten image, as an opaque handle. Two handles are the same image
   * exactly when their tokens are equal; fresh images get fresh tokens.
   */
  datatype Image = Image(token: nat)

  /** A time.Time, as nanoseconds counted from Go's zero time. */
  type Time = int

  /** A time.Duration, in nanoseconds. */
  type Duration = int

  /** time.Time{}, the value an uninitialised time.Time holds. */
  const ZeroTime: Time := 0

  const Millisecond: Duration := 1_000_000
  const Second: Duration := 1000 * Millisecond
  const Hour: Duration := 3600 * Second

  function Min(a: int, b: int): int { if a <= b then a else b }

  function Max(a: int, b: int): int { if a >= b then a else b }

  /**
   * time.Time.Truncate for a positive duration: the latest multiple of d
   * (counted from the zero time) that is not after t.
   */
  function Truncate(t: Time, d: Duration): (r: Time)
    requires d > 0
    ensures r <= t < r + d
    ensures r == d * (t / d)
  {
    t - t % d
  }

  /** Go's `/` on integers: the quotient truncated toward zero. */
  function GoQuo(a: int, b: int): int
    requires b != 0
  {
    if a >= 0 then a / b else -((-a) / b)
  }

  /**
   * Go's `%` on integers: the remainder of truncated division, so
   * `a == (a / b) * b + a % b` with the remainder taking the dividend's sign.
   */
  function GoRem(a: int, b: int): (r: int)
    requires b != 0
    ensures a == GoQuo(a, b) * b + r
    ensures a >= 0 ==> 0 <= r < if b > 0 then b else -b
    ensures a < 0 ==> -(if b > 0 then b else -b) < r <= 0
  {
    if a >= 0 then a % b else -((-a) % b)
  }

  /**
   * One key of a non-empty set, not determined by the model: what a Go
   * `range` over a map visits next.
   */
  method Pick<T>(s: set<T>) returns (x: T)
    requires s != {}
    ensures x in s
  {
    x :| x in s;
  }

  /** A key under which a map holds a given value. */
  lemma KeyOf<K, V>(m: map<K, V>, v: V) returns (k: K)
    requires v in m.Values
    ensures k in m && m[k] == v
  {
    k :| k in m && m[k] == v;
  }

  /** Every element is at most every later one. */
  ghost predicate Sorted(s: seq<int>)
  {
    forall i, j :: 0 <= i < j < |s| ==> s[i] <= s[j]
  }

  /** Every element is below every later one: sorted without repeats. */
  ghost predicate Increasing(s: seq<int>)
  {
    forall i, j :: 0 <= i < j < |s| ==> s[i] < s[j]
  }

  ghost predicate Distinct<T>(s: seq<T>)
  {
    forall i, j :: 0 <= i < j < |s| ==> s[i] != s[j]
  }

  lemma DistinctAppend<T>(s: seq<T>, x: T)
    requires Distinct(s) && x !in s
    ensures Distinct(s + [x])
  {
  }

  /** `s` lists every element of `keys` exactly once, in some order. */
  ghost predicate Enumerates<T(!new)>(s: seq<T>, keys: set<T>)
  {
    Distinct(s) && forall x :: x in s <==> x in keys
  }

  /** In a list without repeats, each member occurs exactly once. */
  lemma {:induction false} DistinctOnce<T>(s: seq<T>, x: T)
    requires Distinct(s)
    ensures multiset(s)[x] == if x in s then 1 else 0
  {
    if s != [] {
      var init := s[..|s| - 1];
      assert s == init + [s[|s| - 1]];
      assert Distinct(init);
      DistinctOnce(init, x);
      assert s[|s| - 1] !in init;
    }
  }

  /** Taking one occurrence of `s[j]` out of `s` leaves a permutation of whatever `s` was `p` plus that element. */
  lemma MultisetRemove<T>(s: seq<T>, j: nat, p: seq<T>)
    requires j < |s| && multiset(p + [s[j]]) == multiset(s)
    ensures multiset(s[..j] + s[j + 1..]) == multiset(p)
  {
    var x := s[j];
    assert s == s[..j] + [x] + s[j + 1..];
    var rest := s[..j] + s[j + 1..];
    assert multiset(s) == multiset(rest) + multiset{x};
    forall y ensures multiset(rest)[y] == multiset(p)[y] {
      assert multiset(p + [x])[y] == multiset(p)[y] + multiset{x}[y];
    }
  }

  /** A block moved into the middle of a permutation's two halves still gives a permutation. */
  lemma MultisetMove<T>(p: seq<T>, front: seq<T>, x: seq<T>, back: seq<T>)
    requires multiset(p) == multiset(front + back)
    ensures multiset(p + x) == multiset(front + x + back)
  {
    calc {
      multiset(front + x + back);
      multiset(front) + multiset(x) + multiset(back);
      multiset(front + back) + multiset(x);
      multiset(p + x);
    }
  }

  /** Two enumerations of the same set are permutations of each other. */
  lemma EnumerationsPermute<T(!new)>(a: seq<T>, b: seq<T>, keys: set<T>)
    requires Enumerates(a, keys) && Enumerates(b, keys)
    ensures multiset(a) == multiset(b)
  {
    forall x ensures multiset(a)[x] == multiset(b)[x] {
      DistinctOnce(a, x);
      DistinctOnce(b, x);
    }
  }

  function InsertSorted(x: int, s: seq<int>): (r: seq<int>)
    requires Sorted(s)
    ensures Sorted(r)
    ensures multiset(r) == multiset(s) + multiset{x}
  {
    if s == [] then [x]
    else if x <= s[0] then [x] + s
    else
      var rest := InsertSorted(x, s[1..]);
      assert s == [s[0]] + s[1..];
      LowerBoundCons(s[0], rest, s[1..], x);
      [s[0]] + rest
  }

  /** Putting a lower bound of a sorted list's elements in front keeps it sorted. */
  lemma LowerBoundCons(a: int, rest: seq<int>, t: seq<int>, x: int)
    requires Sorted(rest) && Sorted([a] + t) && a <= x
    requires multiset(rest) == multiset(t) + multiset{x}
    ensures Sorted([a] + rest)
  {
    forall k | 0 <= k < |rest| ensures a <= rest[k] {
      assert rest[k] in multiset(rest);
      if rest[k] != x {
        assert rest[k] in multiset(t);
        var j :| 0 <= j < |t| && t[j] == rest[k];
        assert ([a] + t)[0] == a && ([a] + t)[j + 1] == t[j];
      }
    }
  }

  /** sort.Ints: the same integers, in ascending order. */
  function SortInts(s: seq<int>): (r: seq<int>)
    ensures Sorted(r)
    ensures multiset(r) == multiset(s)
  {
    if s == [] then []
    else
      assert s == [s[0]] + s[1..];
      InsertSorted(s[0], SortInts(s[1..]))
  }

  /** Sorting a list without repeats yields a strictly increasing list. */
  lemma {:induction false} SortDistinctIncreasing(s: seq<int>)
    requires Distinct(s)
    ensures Increasing(SortInts(s))
  {
    if s != [] {
      assert s == [s[0]] + s[1..];
      SortDistinctIncreasing(s[1..]);
      assert s[0] !in multiset(s[1..]);
      InsertFreshIncreasing(s[0], SortInts(s[1..]));
    }
  }

  lemma {:induction false} InsertFreshIncreasing(x: int, s: seq<int>)
    requires Increasing(s) && x !in s
    ensures Increasing(InsertSorted(x, s))
  {
    if s != [] && x > s[0] {
      assert s == [s[0]] + s[1..];
      InsertFreshIncreasing(x, s[1..]);
      var rest := InsertSorted(x, s[1..]);
      assert forall k :: 0 <= k < |rest| ==> rest[k] in multiset(s[1..]) + multiset{x};
    }
  }

  /** Two increasing lists with the same elements are the same list. */
  lemma {:induction false} IncreasingUnique(a: seq<int>, b: seq<int>)
    requires Increasing(a) && Increasing(b)
    requires forall x :: x in a <==> x in b
    ensures a == b
  {
    if a != [] {
      assert a[0] in a;
    }
    if b != [] {
      assert b[0] in b;
    }
    if a != [] {
      assert a[0] == b[0] by {
        assert b[0] in a && a[0] in b;
      }
      assert forall x :: x in a[1..] <==> x in b[1..] by {
        forall x ensures x in a[1..] <==> x in b[1..] {
          assert x in a[1..] <==> x in a && x != a[0];
          assert x in b[1..] <==> x in b && x != b[0];
        }
      }
      IncreasingUnique(a[1..], b[1..]);
      assert a == [a[0]] + a[1..] && b == [b[0]] + b[1..];
    }
  }

  /** The distinct elements of a list number as many as its positions. */
  lemma {:induction false} DistinctCard<T>(s: seq<T>)
    requires Distinct(s)
    ensures |set x | x in s| == |s|
  {
    if s != [] {
      var last := s[|s| - 1];
      var init := s[..|s| - 1];
      DistinctCard(init);
      assert (set x | x in s) == (set x | x in init) + {last} by {
        assert s == init + [last];
      }
      assert last !in init;
    }
  }

  /**
   * In an increasing list, an element's index is the number of elements
   * below it: the position sort.Ints gives it is its rank.
   */
  lemma IndexIsRank(s: seq<int>, i: int)
    requires Increasing(s) && 0 <= i < |s|
    ensures i == |set x | x in s && x < s[i]|
  {
    assert (set x | x in s && x < s[i]) == (set x | x in s[..i]) by {
      forall x | x in s && x < s[i] ensures x in s[..i] {
        var k :| 0 <= k < |s| && s[k] == x;
        assert k < i;
      }
    }
    DistinctCard(s[..i]);
  }
}
