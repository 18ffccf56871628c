/** Strict total orders, lexicographic comparison, and the sorting helpers the
    pipeline needs: an insertion sort, `dedup` of a sorted sequence, and the
    unique sorted enumeration of a finite set. */
module Orders {

  ghost predicate Irreflexive<T(!new)>(lt: (T, T) -> bool) {
    forall x :: !lt(x, x)
  }

  ghost predicate Transitive<T(!new)>(lt: (T, T) -> bool) {
    forall x, y, z :: lt(x, y) && lt(y, z) ==> lt(x, z)
  }

  ghost predicate Trichotomous<T(!new)>(lt: (T, T) -> bool) {
    forall x, y :: x != y ==> lt(x, y) || lt(y, x)
  }

  ghost predicate StrictTotalOrder<T(!new)>(lt: (T, T) -> bool) {
    Irreflexive(lt) && Transitive(lt) && Trichotomous(lt)
  }

  /** No element is strictly below an earlier one. */
  predicate Sorted<T>(s: seq<T>, lt: (T, T) -> bool) {
    forall i, j :: 0 <= i < j < |s| ==> !lt(s[j], s[i])
  }

  /** Every element is strictly below every later one (sorted, no duplicates). */
  predicate StrictlySorted<T>(s: seq<T>, lt: (T, T) -> bool) {
    forall i, j :: 0 <= i < j < |s| ==> lt(s[i], s[j])
  }

  // ---------------------------------------------------------------------------
  // Lexicographic order

  /** `a` is a proper prefix of `b`, or at the first position where they differ
      the element of `a` is below that of `b`. */
  predicate LexLess<T(==)>(a: seq<T>, b: seq<T>, lt: (T, T) -> bool)
    decreases |a|
  {
    if |a| == 0 then |b| > 0
    else if |b| == 0 then false
    else if a[0] == b[0] then LexLess(a[1..], b[1..], lt)
    else lt(a[0], b[0])
  }

  lemma {:induction false} LexIrreflexive<T(!new)>(a: seq<T>, lt: (T, T) -> bool)
    requires StrictTotalOrder(lt)
    ensures !LexLess(a, a, lt)
    decreases |a|
  {
    if |a| > 0 {
      LexIrreflexive(a[1..], lt);
    }
  }

  lemma {:induction false} LexTransitive<T(!new)>(a: seq<T>, b: seq<T>, c: seq<T>, lt: (T, T) -> bool)
    requires StrictTotalOrder(lt)
    requires LexLess(a, b, lt) && LexLess(b, c, lt)
    ensures LexLess(a, c, lt)
    decreases |a|
  {
    if |a| > 0 && |c| > 0 {
      if a[0] == b[0] && b[0] == c[0] {
        LexTransitive(a[1..], b[1..], c[1..], lt);
      }
    }
  }

  lemma {:induction false} LexTrichotomous<T(!new)>(a: seq<T>, b: seq<T>, lt: (T, T) -> bool)
    requires StrictTotalOrder(lt)
    requires a != b
    ensures LexLess(a, b, lt) || LexLess(b, a, lt)
    decreases |a|
  {
    if |a| > 0 && |b| > 0 && a[0] == b[0] {
      assert a == [a[0]] + a[1..] && b == [b[0]] + b[1..];
      LexTrichotomous(a[1..], b[1..], lt);
    }
  }

  /** Any relation that agrees with lexicographic comparison over a strict
      total order is itself a strict total order. */
  lemma LexOrderIsStrictTotal<T(!new)>(lt: (T, T) -> bool, lex: (seq<T>, seq<T>) -> bool)
    requires StrictTotalOrder(lt)
    requires forall a, b :: lex(a, b) == LexLess(a, b, lt)
    ensures StrictTotalOrder(lex)
  {
    forall a: seq<T> ensures !lex(a, a) {
      LexIrreflexive(a, lt);
    }
    forall a: seq<T>, b: seq<T>, c: seq<T> | lex(a, b) && lex(b, c) ensures lex(a, c) {
      LexTransitive(a, b, c, lt);
    }
    forall a: seq<T>, b: seq<T> | a != b ensures lex(a, b) || lex(b, a) {
      LexTrichotomous(a, b, lt);
    }
  }

  // ---------------------------------------------------------------------------
  // Insertion sort

  /** Inserts `x` before the first element that is not below it. */
  function Insert<T>(x: T, s: seq<T>, lt: (T, T) -> bool): (r: seq<T>)
    ensures multiset(r) == multiset(s) + multiset{x}
  {
    if s == [] then [x]
    else if lt(s[0], x) then
      assert s == [s[0]] + s[1..];
      [s[0]] + Insert(x, s[1..], lt)
    else [x] + s
  }

  function InsertionSort<T>(s: seq<T>, lt: (T, T) -> bool): (r: seq<T>)
    ensures multiset(r) == multiset(s)
  {
    if s == [] then []
    else
      assert s == [s[0]] + s[1..];
      Insert(s[0], InsertionSort(s[1..], lt), lt)
  }

  lemma {:induction false} InsertSorted<T(!new)>(x: T, s: seq<T>, lt: (T, T) -> bool)
    requires StrictTotalOrder(lt)
    requires Sorted(s, lt)
    ensures Sorted(Insert(x, s, lt), lt)
  {
    if s != [] && lt(s[0], x) {
      InsertSorted(x, s[1..], lt);
      var r := Insert(x, s[1..], lt);
      forall k | 0 <= k < |r| ensures !lt(r[k], s[0]) {
        assert r[k] in multiset(r);
        if r[k] != x {
          assert r[k] in multiset(s[1..]);
          var m :| 0 <= m < |s[1..]| && s[1..][m] == r[k];
          assert s[m + 1] == r[k];
        }
      }
    }
  }

  /** The insertion sort yields a sorted permutation of its input. */
  lemma {:induction false} InsertionSortSorted<T(!new)>(s: seq<T>, lt: (T, T) -> bool)
    requires StrictTotalOrder(lt)
    ensures Sorted(InsertionSort(s, lt), lt)
    ensures multiset(InsertionSort(s, lt)) == multiset(s)
  {
    if s != [] {
      InsertionSortSorted(s[1..], lt);
      InsertSorted(s[0], InsertionSort(s[1..], lt), lt);
    }
  }

  // ---------------------------------------------------------------------------
  // dedup: drop consecutive repeats

  function Dedup<T(==)>(s: seq<T>): (r: seq<T>)
    ensures forall i :: 0 <= i < |r| ==> r[i] in s
    ensures forall i :: 0 <= i < |s| ==> s[i] in r
  {
    if |s| <= 1 then s
    else if s[0] == s[1] then Dedup(s[1..])
    else
      assert s == [s[0]] + s[1..];
      [s[0]] + Dedup(s[1..])
  }

  /** Removing consecutive repeats from a sorted sequence leaves it strictly sorted. */
  lemma {:induction false} DedupStrictlySorted<T(!new)>(s: seq<T>, lt: (T, T) -> bool)
    requires StrictTotalOrder(lt)
    requires Sorted(s, lt)
    ensures StrictlySorted(Dedup(s), lt)
  {
    if |s| > 1 {
      DedupStrictlySorted(s[1..], lt);
      var t := Dedup(s[1..]);
      if s[0] != s[1] {
        forall k | 0 <= k < |t| ensures lt(s[0], t[k]) {
          assert t[k] in s[1..];
          var m :| 0 <= m < |s[1..]| && s[1..][m] == t[k];
          assert !lt(s[m + 1], s[0]);
          assert !lt(s[1], s[0]);
        }
      }
    }
  }

  // ---------------------------------------------------------------------------
  // The unique sorted enumeration of a finite set

  lemma {:induction false} MinimumExists<T(!new)>(s: set<T>, lt: (T, T) -> bool)
    requires StrictTotalOrder(lt)
    requires s != {}
    ensures exists m :: m in s && forall y :: y in s && y != m ==> lt(m, y)
    decreases s
  {
    var x :| x in s;
    if s - {x} == {} {
      assert s == {x};
    } else {
      MinimumExists(s - {x}, lt);
      var m :| m in s - {x} && forall y :: y in s - {x} && y != m ==> lt(m, y);
      if lt(m, x) {
        forall y | y in s && y != m ensures lt(m, y) {
          if y != x {
            assert y in s - {x};
          }
        }
      } else {
        assert lt(x, m);
        forall y | y in s && y != x ensures lt(x, y) {
          if y != m {
            assert y in s - {x} && lt(m, y);
          }
        }
      }
    }
  }

  /** The elements of `s` in increasing order. */
  ghost function Enumerate<T(!new)>(s: set<T>, lt: (T, T) -> bool): (r: seq<T>)
    requires StrictTotalOrder(lt)
    ensures StrictlySorted(r, lt)
    ensures forall x :: x in r <==> x in s
    decreases s
  {
    if s == {} then []
    else
      MinimumExists(s, lt);
      var m :| m in s && forall y :: y in s && y != m ==> lt(m, y);
      var rest := Enumerate(s - {m}, lt);
      assert forall k :: 0 <= k < |rest| ==> rest[k] in s - {m};
      [m] + rest
  }

  /** A strictly sorted sequence is determined by its set of elements. */
  lemma {:induction false} StrictlySortedUnique<T(!new)>(a: seq<T>, b: seq<T>, lt: (T, T) -> bool)
    requires StrictTotalOrder(lt)
    requires StrictlySorted(a, lt) && StrictlySorted(b, lt)
    requires forall x :: x in a <==> x in b
    ensures a == b
    decreases |a|
  {
    if a != [] {
      assert a[0] in b;
    }
    if b != [] {
      assert b[0] in a;
    }
    if a != [] && b != [] {
      assert a[0] in b && b[0] in a;
      assert a[0] == b[0];
      forall x ensures x in a[1..] <==> x in b[1..] {
        if x in a[1..] {
          var i :| 1 <= i < |a| && a[i] == x;
          assert x != a[0];
          assert x in b;
        }
        if x in b[1..] {
          var j :| 1 <= j < |b| && b[j] == x;
          assert x != b[0];
          assert x in a;
        }
      }
      StrictlySortedUnique(a[1..], b[1..], lt);
      assert a == [a[0]] + a[1..] && b == [b[0]] + b[1..];
    }
  }

  // ---------------------------------------------------------------------------
  // Distinct elements

  predicate Distinct<T(==)>(s: seq<T>) {
    forall i, j :: 0 <= i < j < |s| ==> s[i] != s[j]
  }

  lemma {:induction false} DistinctAtMostOnce<T>(s: seq<T>, x: T)
    requires Distinct(s)
    ensures multiset(s)[x] <= 1
  {
    if s != [] {
      assert s == [s[0]] + s[1..];
      assert Distinct(s[1..]) by {
        forall i, j | 0 <= i < j < |s| - 1 ensures s[1..][i] != s[1..][j] {
          assert s[i + 1] != s[j + 1];
        }
      }
      DistinctAtMostOnce(s[1..], x);
      if x == s[0] {
        assert x !in s[1..];
      }
    }
  }

  /** A rearrangement of a sequence without repeats has none either. */
  lemma PermutationKeepsDistinct<T>(a: seq<T>, b: seq<T>)
    requires multiset(a) == multiset(b) && Distinct(a)
    ensures Distinct(b)
  {
    forall i, j | 0 <= i < j < |b| ensures b[i] != b[j] {
      if b[i] == b[j] {
        assert b == b[..i] + [b[i]] + b[i + 1..j] + [b[j]] + b[j + 1..];
        assert multiset(b)[b[i]] >= 2;
        DistinctAtMostOnce(a, b[i]);
        assert false;
      }
    }
  }

  /** Sorted without repeats is strictly sorted. */
  lemma SortedDistinctIsStrict<T(!new)>(s: seq<T>, lt: (T, T) -> bool)
    requires StrictTotalOrder(lt)
    requires Sorted(s, lt) && Distinct(s)
    ensures StrictlySorted(s, lt)
  {
  }
}
