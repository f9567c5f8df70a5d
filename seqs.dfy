/**
 * Sequence utilities shared by the pipeline: the sorted, de-duplicated label
 * lists that pandas builds for an index or a set of columns, and the two
 * de-duplication policies (keep the first / keep the last record per key).
 */
module Seqs {
  import opened Wrappers

  ghost predicate StrictTotalOrder<T(!new)>(lt: (T, T) -> bool) {
    && (forall x :: !lt(x, x))
    && (forall x, y, z :: lt(x, y) && lt(y, z) ==> lt(x, z))
    && (forall x, y :: x != y ==> lt(x, y) || lt(y, x))
  }

  predicate StrictlySorted<T>(s: seq<T>, lt: (T, T) -> bool) {
    forall i, j :: 0 <= i < j < |s| ==> lt(s[i], s[j])
  }

  predicate Distinct<T(==)>(s: seq<T>) {
    forall i, j :: 0 <= i < j < |s| ==> s[i] != s[j]
  }

  /** Inserts x into a strictly sorted sequence unless it is already there. */
  function Insert<T(==)>(x: T, s: seq<T>, lt: (T, T) -> bool): seq<T>
  {
    if s == [] then [x]
    else if x == s[0] then s
    else if lt(x, s[0]) then [x] + s
    else [s[0]] + Insert(x, s[1..], lt)
  }

  /** The distinct elements of s in ascending order (what a sorted pandas index of the labels holds). */
  function SortedDistinct<T(==)>(s: seq<T>, lt: (T, T) -> bool): seq<T>
  {
    if s == [] then [] else Insert(s[|s| - 1], SortedDistinct(s[..|s| - 1], lt), lt)
  }

  lemma {:induction false} InsertSorted<T(!new)>(x: T, s: seq<T>, lt: (T, T) -> bool)
    requires StrictTotalOrder(lt) && StrictlySorted(s, lt)
    ensures StrictlySorted(Insert(x, s, lt), lt)
    ensures forall e :: e in Insert(x, s, lt) <==> e == x || e in s
  {
    if s != [] && x != s[0] && !lt(x, s[0]) {
      InsertSorted(x, s[1..], lt);
      var r := Insert(x, s[1..], lt);
      assert lt(s[0], x);
      forall e | e in r ensures lt(s[0], e) {
        if e != x {
          var k :| 1 <= k < |s| && s[k] == e;
        }
      }
    }
  }

  lemma {:induction false} SortedDistinctSpec<T(!new)>(s: seq<T>, lt: (T, T) -> bool)
    requires StrictTotalOrder(lt)
    ensures StrictlySorted(SortedDistinct(s, lt), lt)
    ensures forall e :: e in SortedDistinct(s, lt) <==> e in s
  {
    if s != [] {
      var init := s[..|s| - 1];
      SortedDistinctSpec(init, lt);
      InsertSorted(s[|s| - 1], SortedDistinct(init, lt), lt);
      assert s == init + [s[|s| - 1]];
    }
  }

  lemma StrictlySortedDistinct<T(!new)>(s: seq<T>, lt: (T, T) -> bool)
    requires StrictTotalOrder(lt) && StrictlySorted(s, lt)
    ensures Distinct(s)
  {
  }

  lemma HeadIsLeast<T(!new)>(s: seq<T>, lt: (T, T) -> bool, e: T)
    requires StrictlySorted(s, lt) && e in s
    ensures e == s[0] || lt(s[0], e)
  {
  }

  /** Two strictly sorted sequences with the same elements are equal: the sorted label list is canonical. */
  lemma {:induction false} SortedUnique<T(!new)>(a: seq<T>, b: seq<T>, lt: (T, T) -> bool)
    requires StrictTotalOrder(lt) && StrictlySorted(a, lt) && StrictlySorted(b, lt)
    requires forall e :: e in a <==> e in b
    ensures a == b
  {
    assert a != [] ==> a[0] in a;
    assert b != [] ==> b[0] in b;
    if a != [] && b != [] {
      HeadIsLeast(a, lt, b[0]);
      HeadIsLeast(b, lt, a[0]);
      assert a[0] == b[0];
      forall e ensures e in a[1..] <==> e in b[1..] {
        if e in a[1..] {
          var i :| 1 <= i < |a| && a[i] == e;
          assert lt(a[0], e) && e in a;
          var j :| 0 <= j < |b| && b[j] == e;
          assert j != 0;
          assert b[1..][j - 1] == e;
        }
        if e in b[1..] {
          var i :| 1 <= i < |b| && b[i] == e;
          assert lt(b[0], e) && e in b;
          var j :| 0 <= j < |a| && a[j] == e;
          assert j != 0;
          assert a[1..][j - 1] == e;
        }
      }
      SortedUnique(a[1..], b[1..], lt);
    }
  }

  /** The first element of s whose key is k, if any. */
  function FirstWith<T, K(==)>(s: seq<T>, key: T -> K, k: K): (r: Option<T>)
    ensures r.Some? ==> r.value in s && key(r.value) == k
    ensures r.None? <==> forall i :: 0 <= i < |s| ==> key(s[i]) != k
  {
    if s == [] then None
    else
      var f := FirstWith(s[..|s| - 1], key, k);
      if f.Some? then f else if key(s[|s| - 1]) == k then Some(s[|s| - 1]) else None
  }

  /** The last element of s whose key is k, if any. */
  function LastWith<T, K(==)>(s: seq<T>, key: T -> K, k: K): (r: Option<T>)
    ensures r.Some? ==> r.value in s && key(r.value) == k
    ensures r.None? <==> forall i :: 0 <= i < |s| ==> key(s[i]) != k
  {
    if s == [] then None
    else
      var l := LastWith(s[1..], key, k);
      if l.Some? then l else if key(s[0]) == k then Some(s[0]) else None
  }

  /** The element LastWith picks sits at a position after which no element has key k. */
  lemma {:induction false} LastWithPosition<T, K>(s: seq<T>, key: T -> K, k: K)
    requires LastWith(s, key, k).Some?
    ensures exists j :: (0 <= j < |s| && s[j] == LastWith(s, key, k).value &&
                         forall i :: j < i < |s| ==> key(s[i]) != k)
  {
    var l := LastWith(s[1..], key, k);
    if l.Some? {
      LastWithPosition(s[1..], key, k);
      var j :| 0 <= j < |s[1..]| && s[1..][j] == l.value && forall i :: j < i < |s[1..]| ==> key(s[1..][i]) != k;
      assert s[j + 1] == l.value;
      forall i | j + 1 < i < |s| ensures key(s[i]) != k {
        assert s[i] == s[1..][i - 1];
      }
    } else {
      forall i | 0 < i < |s| ensures key(s[i]) != k {
        assert s[i] == s[1..][i - 1];
      }
    }
  }

  predicate KeysDistinct<T, K(==)>(s: seq<T>, key: T -> K) {
    forall i, j :: 0 <= i < j < |s| ==> key(s[i]) != key(s[j])
  }

  /** Drops every element whose key already occurred earlier (pandas `duplicated(keep='first')`). */
  function KeepFirst<T, K(==)>(s: seq<T>, key: T -> K): seq<T>
  {
    if s == [] then []
    else
      var p := KeepFirst(s[..|s| - 1], key);
      if exists j :: 0 <= j < |p| && key(p[j]) == key(s[|s| - 1]) then p else p + [s[|s| - 1]]
  }

  /** Drops every element whose key occurs again later (pandas `duplicated(keep='last')`). */
  function KeepLast<T, K(==)>(s: seq<T>, key: T -> K): seq<T>
  {
    if s == [] then []
    else
      var r := KeepLast(s[1..], key);
      if exists j :: 0 <= j < |r| && key(r[j]) == key(s[0]) then r else [s[0]] + r
  }

  /** Keep-first de-duplication leaves a sequence whose keys are already distinct as it is. */
  lemma {:induction false} KeepFirstDistinct<T, K>(s: seq<T>, key: T -> K)
    requires KeysDistinct(s, key)
    ensures KeepFirst(s, key) == s
  {
    if s != [] {
      var init := s[..|s| - 1];
      assert KeysDistinct(init, key);
      KeepFirstDistinct(init, key);
      assert s == init + [s[|s| - 1]];
    }
  }

  /** Keep-first de-duplication leaves one element per key, and it is the first one of the input. */
  lemma {:induction false} KeepFirstSpec<T, K>(s: seq<T>, key: T -> K)
    ensures KeysDistinct(KeepFirst(s, key), key)
    ensures forall k :: FirstWith(KeepFirst(s, key), key, k) == FirstWith(s, key, k)
    ensures forall x :: x in KeepFirst(s, key) ==> x in s
  {
    if s != [] {
      var init, x := s[..|s| - 1], s[|s| - 1];
      KeepFirstSpec(init, key);
      var p := KeepFirst(init, key);
      if !(exists j :: 0 <= j < |p| && key(p[j]) == key(x)) {
        assert (p + [x])[..|p|] == p;
        forall k ensures FirstWith(p + [x], key, k) == FirstWith(s, key, k) {
          assert FirstWith(p + [x], key, k) == (if FirstWith(p, key, k).Some? then FirstWith(p, key, k)
                                               else if key(x) == k then Some(x) else None);
        }
      } else {
        var j :| 0 <= j < |p| && key(p[j]) == key(x);
        forall k ensures FirstWith(p, key, k) == FirstWith(s, key, k) {
          if key(x) == k {
            assert key(p[j]) == k;
          }
        }
      }
    }
  }

  /** Keep-last de-duplication leaves one element per key, and it is the last one of the input. */
  lemma {:induction false} KeepLastSpec<T, K>(s: seq<T>, key: T -> K)
    ensures KeysDistinct(KeepLast(s, key), key)
    ensures forall k :: LastWith(KeepLast(s, key), key, k) == LastWith(s, key, k)
    ensures forall x :: x in KeepLast(s, key) ==> x in s
  {
    if s != [] {
      var x, rest := s[0], s[1..];
      KeepLastSpec(rest, key);
      var r := KeepLast(rest, key);
      if !(exists j :: 0 <= j < |r| && key(r[j]) == key(x)) {
        assert ([x] + r)[1..] == r;
      } else {
        var j :| 0 <= j < |r| && key(r[j]) == key(x);
        forall k ensures LastWith(r, key, k) == LastWith(s, key, k) {
          if key(x) == k {
            assert key(r[j]) == k;
          }
        }
      }
    }
  }

  /** With distinct keys the first and the last element with a key are the same element. */
  lemma {:induction false} DistinctFirstIsLast<T, K>(s: seq<T>, key: T -> K, k: K)
    requires KeysDistinct(s, key)
    ensures FirstWith(s, key, k) == LastWith(s, key, k)
  {
    if s != [] {
      var init := s[..|s| - 1];
      DistinctFirstIsLast(init, key, k);
      assert KeysDistinct(s[1..], key);
      DistinctFirstIsLast(s[1..], key, k);
      if |s| > 1 {
        DistinctFirstIsLast(s[1..|s| - 1], key, k);
        assert init[1..] == s[1..|s| - 1];
        assert s[1..][..|s| - 2] == s[1..|s| - 1];
      }
    }
  }

  /** s with every occurrence of x removed, the rest in order. */
  function Without<T(==,!new)>(s: seq<T>, x: T): (r: seq<T>)
    ensures forall e :: e in r <==> e in s && e != x
  {
    if s == [] then [] else (if s[0] == x then [] else [s[0]]) + Without(s[1..], x)
  }

  /** Appending x and then removing it gives back a sequence that did not hold x. */
  lemma {:induction false} WithoutAppended<T(!new)>(s: seq<T>, x: T)
    requires x !in s
    ensures Without(s + [x], x) == s
  {
    if s != [] {
      assert (s + [x])[1..] == s[1..] + [x];
      WithoutAppended(s[1..], x);
    }
  }

  /** The first position of x in s. */
  function IndexOf<T(==)>(s: seq<T>, x: T): (r: Option<nat>)
    ensures r.Some? ==> r.value < |s| && s[r.value] == x && forall i :: 0 <= i < r.value ==> s[i] != x
    ensures r.None? <==> x !in s
  {
    if s == [] then None
    else if s[0] == x then Some(0)
    else match IndexOf(s[1..], x)
      case None => None
      case Some(i) => Some(i + 1)
  }

  function IntLess(a: int, b: int): bool { a < b }

  /** Sorting integers ascending without duplicates keeps exactly the same values. */
  lemma SortedDistinctInts(s: seq<int>)
    ensures StrictlySorted(SortedDistinct(s, IntLess), IntLess)
    ensures forall e :: e in SortedDistinct(s, IntLess) <==> e in s
  {
    IntLessIsStrictTotalOrder();
    SortedDistinctSpec(s, IntLess);
  }

  lemma IntLessIsStrictTotalOrder()
    ensures StrictTotalOrder(IntLess)
  {
  }
}
