/** Stable sorting, as Python's `list.sort` and `sorted` perform it.

    `SortBy` is a stable insertion sort. `StableSortUnique` shows that a sorted
    list which keeps the relative order of tied elements is unique, so `SortBy`
    yields exactly what any stable sort (Python's Timsort included) yields. */
module Sorting {

  /** `le` is a total preorder: every two elements compare and `le` is transitive. */
  ghost predicate TotalPreorder<T(!new)>(le: (T, T) -> bool)
  {
    && (forall a, b :: le(a, b) || le(b, a))
    && (forall a, b, c :: le(a, b) && le(b, c) ==> le(a, c))
  }

  /** a and b have equal sort keys. */
  predicate Tied<T>(le: (T, T) -> bool, a: T, b: T)
  {
    le(a, b) && le(b, a)
  }

  ghost predicate SortedBy<T>(s: seq<T>, le: (T, T) -> bool)
  {
    forall i, j :: 0 <= i < j < |s| ==> le(s[i], s[j])
  }

  /** Puts x in front of the first element that does not sort strictly before it. */
  function Insert<T>(x: T, s: seq<T>, le: (T, T) -> bool): seq<T>
    decreases |s|
  {
    if s == [] then [x]
    else if le(x, s[0]) then [x] + s
    else [s[0]] + Insert(x, s[1..], le)
  }

  function SortBy<T>(s: seq<T>, le: (T, T) -> bool): seq<T>
    decreases |s|
  {
    if s == [] then [] else Insert(s[0], SortBy(s[1..], le), le)
  }

  /** The elements of s whose key ties with that of z, in their order in s. */
  function TiedWith<T>(s: seq<T>, le: (T, T) -> bool, z: T): seq<T>
    decreases |s|
  {
    if s == [] then []
    else (if Tied(le, s[0], z) then [s[0]] else []) + TiedWith(s[1..], le, z)
  }

  lemma {:induction false} InsertPermutes<T>(x: T, s: seq<T>, le: (T, T) -> bool)
    ensures multiset(Insert(x, s, le)) == multiset(s) + multiset{x}
    decreases |s|
  {
    if s != [] && !le(x, s[0]) {
      InsertPermutes(x, s[1..], le);
      assert s == [s[0]] + s[1..];
    }
  }

  lemma {:induction false} SortByPermutes<T>(s: seq<T>, le: (T, T) -> bool)
    ensures multiset(SortBy(s, le)) == multiset(s)
    decreases |s|
  {
    if s != [] {
      SortByPermutes(s[1..], le);
      InsertPermutes(s[0], SortBy(s[1..], le), le);
      assert s == [s[0]] + s[1..];
    }
  }

  /** A lower bound of x and of every element of s bounds every element of the
      insertion. */
  lemma {:induction false} InsertBounded<T>(x: T, s: seq<T>, le: (T, T) -> bool, y: T)
    requires le(y, x) && forall k :: 0 <= k < |s| ==> le(y, s[k])
    ensures forall k :: 0 <= k < |Insert(x, s, le)| ==> le(y, Insert(x, s, le)[k])
    decreases |s|
  {
    if s != [] && !le(x, s[0]) {
      InsertBounded(x, s[1..], le, y);
      var r := Insert(x, s[1..], le);
      assert Insert(x, s, le) == [s[0]] + r;
      forall k | 0 <= k < |[s[0]] + r| ensures le(y, ([s[0]] + r)[k]) {
        if k > 0 { assert ([s[0]] + r)[k] == r[k - 1]; }
      }
    }
  }

  lemma {:induction false} InsertSorted<T(!new)>(x: T, s: seq<T>, le: (T, T) -> bool)
    requires TotalPreorder(le)
    requires SortedBy(s, le)
    ensures SortedBy(Insert(x, s, le), le)
    decreases |s|
  {
    if s != [] && !le(x, s[0]) {
      var r := Insert(x, s[1..], le);
      InsertSorted(x, s[1..], le);
      assert le(s[0], x);
      assert forall k :: 0 <= k < |s[1..]| ==> s[1..][k] == s[k + 1];
      InsertBounded(x, s[1..], le, s[0]);
      var t := [s[0]] + r;
      forall i, j | 0 <= i < j < |t| ensures le(t[i], t[j]) {
        if i > 0 {
          assert t[i] == r[i - 1] && t[j] == r[j - 1];
        } else {
          assert t[j] == r[j - 1];
        }
      }
    }
  }

  lemma {:induction false} SortBySorted<T(!new)>(s: seq<T>, le: (T, T) -> bool)
    requires TotalPreorder(le)
    ensures SortedBy(SortBy(s, le), le)
    decreases |s|
  {
    if s != [] {
      SortBySorted(s[1..], le);
      InsertSorted(s[0], SortBy(s[1..], le), le);
    }
  }

  lemma {:induction false} InsertStable<T(!new)>(x: T, s: seq<T>, le: (T, T) -> bool, z: T)
    requires TotalPreorder(le)
    ensures TiedWith(Insert(x, s, le), le, z) == (if Tied(le, x, z) then [x] else []) + TiedWith(s, le, z)
    decreases |s|
  {
    if s == [] {
      TiedWithCons(x, [], le, z);
      assert Insert(x, s, le) == [x] + [];
    } else if le(x, s[0]) {
      TiedWithCons(x, s, le, z);
    } else {
      var s0, tail := s[0], s[1..];
      var rest := Insert(x, tail, le);
      InsertStable(x, tail, le, z);
      assert Insert(x, s, le) == [s0] + rest;
      TiedWithCons(s0, rest, le, z);
      assert s == [s0] + tail;
      TiedWithCons(s0, tail, le, z);
      NotBothTied(le, x, s0, z);
    }
  }

  lemma TiedWithCons<T>(h: T, t: seq<T>, le: (T, T) -> bool, z: T)
    ensures TiedWith([h] + t, le, z) == (if Tied(le, h, z) then [h] else []) + TiedWith(t, le, z)
  {
    assert ([h] + t)[0] == h && ([h] + t)[1..] == t;
  }

  /** An element that sorts strictly after another cannot tie with what that one
      ties with. */
  lemma NotBothTied<T(!new)>(le: (T, T) -> bool, x: T, y: T, z: T)
    requires TotalPreorder(le) && !le(x, y)
    ensures !(Tied(le, x, z) && Tied(le, y, z))
  {
  }

  /** Sorting keeps the relative order of the elements of every tie class. */
  lemma {:induction false} SortByStable<T(!new)>(s: seq<T>, le: (T, T) -> bool, z: T)
    requires TotalPreorder(le)
    ensures TiedWith(SortBy(s, le), le, z) == TiedWith(s, le, z)
    decreases |s|
  {
    if s != [] {
      SortByStable(s[1..], le, z);
      InsertStable(s[0], SortBy(s[1..], le), le, z);
    }
  }

  lemma {:induction false} TiedWithHead<T(!new)>(s: seq<T>, le: (T, T) -> bool, z: T)
    requires TiedWith(s, le, z) != []
    ensures TiedWith(s, le, z)[0] in s && Tied(le, TiedWith(s, le, z)[0], z)
    decreases |s|
  {
    if !Tied(le, s[0], z) {
      TiedWithHead(s[1..], le, z);
    }
  }

  lemma TiedWithOwnHead<T(!new)>(s: seq<T>, le: (T, T) -> bool)
    requires TotalPreorder(le)
    requires s != []
    ensures TiedWith(s, le, s[0]) != []
  {
  }

  /** Two lists sorted by le whose tie classes appear in the same order are equal:
      the result of a stable sort does not depend on the algorithm. */
  lemma {:induction false} StableSortUnique<T(!new)>(a: seq<T>, b: seq<T>, le: (T, T) -> bool)
    requires TotalPreorder(le)
    requires SortedBy(a, le) && SortedBy(b, le)
    requires forall z :: TiedWith(a, le, z) == TiedWith(b, le, z)
    ensures a == b
    decreases |a|
  {
    if a == [] || b == [] {
      if a != [] {
        TiedWithOwnHead(a, le);
        assert false;
      } else if b != [] {
        TiedWithOwnHead(b, le);
        assert false;
      }
    } else {
      var a0, b0 := a[0], b[0];
      assert TiedWith(a, le, a0) != [] && TiedWith(a, le, a0)[0] == a0;
      TiedWithHead(b, le, a0);
      var j :| 0 <= j < |b| && b[j] == a0;
      assert le(b0, a0) by { if j > 0 { assert le(b[0], b[j]); } }
      assert TiedWith(b, le, b0) != [] && TiedWith(b, le, b0)[0] == b0;
      TiedWithHead(a, le, b0);
      var i :| 0 <= i < |a| && a[i] == b0;
      assert le(a0, b0) by { if i > 0 { assert le(a[0], a[i]); } }
      assert TiedWith(b, le, a0)[0] == b0;
      assert a0 == b0;
      forall z ensures TiedWith(a[1..], le, z) == TiedWith(b[1..], le, z) {
        var p := if Tied(le, a0, z) then [a0] else [];
        assert TiedWith(a, le, z) == p + TiedWith(a[1..], le, z);
        assert TiedWith(b, le, z) == p + TiedWith(b[1..], le, z);
        assert (p + TiedWith(a[1..], le, z))[|p|..] == TiedWith(a[1..], le, z);
        assert (p + TiedWith(b[1..], le, z))[|p|..] == TiedWith(b[1..], le, z);
      }
      assert SortedBy(a[1..], le) by {
        forall i, j | 0 <= i < j < |a[1..]| ensures le(a[1..][i], a[1..][j]) { assert a[1..][i] == a[i + 1]; }
      }
      assert SortedBy(b[1..], le) by {
        forall i, j | 0 <= i < j < |b[1..]| ensures le(b[1..][i], b[1..][j]) { assert b[1..][i] == b[i + 1]; }
      }
      StableSortUnique(a[1..], b[1..], le);
      assert a == [a0] + a[1..] && b == [b0] + b[1..];
    }
  }

  /** Sorting an already sorted list changes nothing. */
  lemma SortBySortedIdentity<T(!new)>(s: seq<T>, le: (T, T) -> bool)
    requires TotalPreorder(le)
    requires SortedBy(s, le)
    ensures SortBy(s, le) == s
  {
    SortBySorted(s, le);
    forall z ensures TiedWith(SortBy(s, le), le, z) == TiedWith(s, le, z) {
      SortByStable(s, le, z);
    }
    StableSortUnique(SortBy(s, le), s, le);
  }

  // ---- sorted(set(xs)) ----

  ghost predicate Antisymmetric<T(!new)>(le: (T, T) -> bool)
  {
    forall a, b :: le(a, b) && le(b, a) ==> a == b
  }

  predicate NoDuplicates<T(==)>(s: seq<T>)
  {
    forall i, j :: 0 <= i < j < |s| ==> s[i] != s[j]
  }

  /** The elements of s, each once, in order of first occurrence. */
  function Distinct<T(==,!new)>(s: seq<T>): (r: seq<T>)
    ensures forall x :: x in r <==> x in s
    ensures NoDuplicates(r)
    decreases |s|
  {
    if |s| == 0 then []
    else
      var d := Distinct(s[..|s| - 1]);
      if s[|s| - 1] in d then d else d + [s[|s| - 1]]
  }

  ghost predicate StrictlySortedBy<T>(s: seq<T>, le: (T, T) -> bool)
  {
    SortedBy(s, le) && NoDuplicates(s)
  }

  /** Python's `sorted(set(xs))`, for an order in which only equal elements tie. */
  function SortedSet<T(==,!new)>(xs: seq<T>, le: (T, T) -> bool): seq<T>
  {
    SortBy(Distinct(xs), le)
  }

  lemma SortedSetSpec<T(!new)>(xs: seq<T>, le: (T, T) -> bool)
    requires TotalPreorder(le)
    ensures StrictlySortedBy(SortedSet(xs, le), le)
    ensures forall x :: x in SortedSet(xs, le) <==> x in xs
  {
    var d := Distinct(xs);
    var r := SortBy(d, le);
    SortBySorted(d, le);
    SortByPermutes(d, le);
    assert forall x :: x in r <==> x in multiset(r);
    assert forall x :: x in d <==> x in multiset(d);
    forall x ensures multiset(r)[x] <= 1 {
      NoDuplicatesCount(d, x);
    }
    CountsNoDuplicates(r);
  }

  lemma {:induction false} NoDuplicatesCount<T>(s: seq<T>, x: T)
    requires NoDuplicates(s)
    ensures multiset(s)[x] <= 1
    decreases |s|
  {
    if |s| > 0 {
      NoDuplicatesCount(s[1..], x);
      assert s == [s[0]] + s[1..];
      if s[0] == x {
        assert x !in s[1..];
        assert multiset(s[1..])[x] == 0;
      }
    }
  }

  lemma {:induction false} CountsNoDuplicates<T>(s: seq<T>)
    requires forall x :: multiset(s)[x] <= 1
    ensures NoDuplicates(s)
    decreases |s|
  {
    if |s| > 0 {
      var t := s[1..];
      assert s == [s[0]] + t;
      assert multiset(s) == multiset{s[0]} + multiset(t);
      forall x ensures multiset(t)[x] <= 1 {
        assert multiset(t)[x] <= multiset(s)[x];
      }
      CountsNoDuplicates(t);
      assert s[0] !in t by {
        assert multiset(s)[s[0]] == 1 + multiset(t)[s[0]];
      }
      forall i, j | 0 <= i < j < |s| ensures s[i] != s[j] {
        if i > 0 {
          assert s[i] == t[i - 1] && s[j] == t[j - 1];
        } else {
          assert s[j] == t[j - 1];
        }
      }
    }
  }

  /** Two strictly sorted sequences with the same elements are equal: the result
      of `sorted(set(xs))` does not depend on the set's iteration order. */
  lemma {:induction false} StrictlySortedUnique<T(!new)>(a: seq<T>, b: seq<T>, le: (T, T) -> bool)
    requires Antisymmetric(le)
    requires StrictlySortedBy(a, le) && StrictlySortedBy(b, le)
    requires forall x :: x in a <==> x in b
    ensures a == b
    decreases |a|
  {
    if |a| > 0 {
      assert a[0] in b;
    }
    if |b| > 0 {
      assert b[0] in a;
    }
    if |a| > 0 {
      var ka :| 0 <= ka < |a| && a[ka] == b[0];
      var kb :| 0 <= kb < |b| && b[kb] == a[0];
      assert a[0] == b[0];
      forall x ensures x in a[1..] <==> x in b[1..] {
        if x in a[1..] {
          var k :| 0 <= k < |a| - 1 && a[1..][k] == x;
          assert a[k + 1] == x && x != a[0];
          assert x in b && b == [b[0]] + b[1..];
        }
        if x in b[1..] {
          var k :| 0 <= k < |b| - 1 && b[1..][k] == x;
          assert b[k + 1] == x && x != b[0];
          assert x in a && a == [a[0]] + a[1..];
        }
      }
      StrictlySortedUnique(a[1..], b[1..], le);
      assert a == [a[0]] + a[1..] && b == [b[0]] + b[1..];
    }
  }

  predicate IntLe(a: int, b: int)
  {
    a <= b
  }

  lemma IntLeOrder()
    ensures TotalPreorder(IntLe) && Antisymmetric(IntLe)
  {
  }
}
