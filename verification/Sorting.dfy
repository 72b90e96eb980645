/**
 * What sort.Slice and sort.Strings promise. The algorithm is an insertion sort; the
 * uniqueness lemmas say when any other algorithm must give the same result.
 */
module Sorting {
  /** The orders sort.Slice accepts. */
  ghost predicate StrictWeak<T(!new)>(less: (T, T) -> bool) {
    && (forall a, b :: less(a, b) ==> !less(b, a))
    && (forall a, b, c :: !less(a, b) && !less(b, c) ==> !less(a, c))
  }

  ghost predicate Sorted<T>(s: seq<T>, less: (T, T) -> bool) {
    forall i, j :: 0 <= i < j < |s| ==> !less(s[j], s[i])
  }

  function Insert<T>(s: seq<T>, x: T, less: (T, T) -> bool): seq<T> {
    if s == [] || less(x, s[0]) then [x] + s else [s[0]] + Insert(s[1..], x, less)
  }

  /** The sorted permutation of s. */
  function Sort<T>(s: seq<T>, less: (T, T) -> bool): seq<T> {
    if s == [] then [] else Insert(Sort(s[..|s| - 1], less), s[|s| - 1], less)
  }

  lemma {:induction false} InsertKeeps<T(!new)>(s: seq<T>, x: T, less: (T, T) -> bool)
    requires StrictWeak(less) && Sorted(s, less)
    ensures Sorted(Insert(s, x, less), less)
    ensures multiset(Insert(s, x, less)) == multiset(s) + multiset{x}
  {
    if s == [] {
    } else if less(x, s[0]) {
      forall j | 0 <= j < |s| ensures !less(s[j], x) {
        assert j > 0 ==> !less(s[j], s[0]);
      }
    } else {
      assert s == [s[0]] + s[1..];
      InsertKeeps(s[1..], x, less);
      var r := Insert(s[1..], x, less);
      forall y | y in r ensures !less(y, s[0]) {
        assert y in multiset(r);
        if y != x {
          assert y in multiset(s[1..]);
          var j :| 0 <= j < |s[1..]| && s[1..][j] == y;
          assert !less(s[j + 1], s[0]);
        }
      }
    }
  }

  lemma {:induction false} SortIsSorted<T(!new)>(s: seq<T>, less: (T, T) -> bool)
    requires StrictWeak(less)
    ensures Sorted(Sort(s, less), less)
    ensures multiset(Sort(s, less)) == multiset(s)
    ensures |Sort(s, less)| == |s|
  {
    if s != [] {
      SortIsSorted(s[..|s| - 1], less);
      InsertKeeps(Sort(s[..|s| - 1], less), s[|s| - 1], less);
      assert s == s[..|s| - 1] + [s[|s| - 1]];
    }
    SameSize(Sort(s, less), s);
  }

  lemma SameSize<T>(a: seq<T>, b: seq<T>)
    requires multiset(a) == multiset(b)
    ensures |a| == |b| && forall x :: x in a <==> x in b
  {
    assert |multiset(a)| == |a| && |multiset(b)| == |b|;
    assert forall x :: x in a <==> x in multiset(a);
    assert forall x :: x in b <==> x in multiset(b);
  }

  /** No two different elements are left undecided. */
  ghost predicate Decided<T>(s: seq<T>, less: (T, T) -> bool) {
    forall x, y :: x in s && y in s && x != y ==> less(x, y) || less(y, x)
  }

  lemma SameFirst<T(!new)>(a: seq<T>, b: seq<T>, less: (T, T) -> bool)
    requires Sorted(a, less) && Sorted(b, less) && a != [] && b != []
    requires a[0] in b && b[0] in a
    requires Decided(a, less)
    ensures a[0] == b[0]
  {
    var i :| 0 <= i < |b| && b[i] == a[0];
    var j :| 0 <= j < |a| && a[j] == b[0];
    assert i > 0 ==> !less(b[i], b[0]);
    assert j > 0 ==> !less(a[j], a[0]);
  }

  lemma SameRest<T>(a: seq<T>, b: seq<T>)
    requires multiset(a) == multiset(b) && a != [] && b != [] && a[0] == b[0]
    ensures multiset(a[1..]) == multiset(b[1..])
  {
    assert a == [a[0]] + a[1..] && b == [b[0]] + b[1..];
    assert multiset(a[1..]) == multiset(a) - multiset{a[0]};
    assert multiset(b[1..]) == multiset(b) - multiset{a[0]};
  }

  /** When every pair is decided there is only one sorted arrangement. */
  lemma {:induction false} SortedUnique<T(!new)>(a: seq<T>, b: seq<T>, less: (T, T) -> bool)
    requires Sorted(a, less) && Sorted(b, less) && multiset(a) == multiset(b)
    requires Decided(a, less)
    ensures a == b
    decreases |a|
  {
    SameSize(a, b);
    if a != [] {
      SameFirst(a, b, less);
      SameRest(a, b);
      SortedUnique(a[1..], b[1..], less);
      assert a == [a[0]] + a[1..] && b == [b[0]] + b[1..];
    }
  }

  /** Swapping two undecided elements of a sorted sequence leaves it sorted. */
  lemma SwapTied<T(!new)>(s: seq<T>, i: nat, j: nat, less: (T, T) -> bool)
    requires StrictWeak(less) && Sorted(s, less)
    requires i < j < |s| && !less(s[i], s[j])
    ensures Sorted(s[i := s[j]][j := s[i]], less)
    ensures multiset(s[i := s[j]][j := s[i]]) == multiset(s)
  {
  }

  lemma TiedIsNotUnique<T(!new)>(r: seq<T>, x: T, y: T, less: (T, T) -> bool)
    requires StrictWeak(less) && Sorted(r, less)
    requires x in r && y in r && x != y && !less(x, y) && !less(y, x)
    ensures exists t :: Sorted(t, less) && multiset(t) == multiset(r) && t != r
  {
    var i :| 0 <= i < |r| && r[i] == x;
    var j :| 0 <= j < |r| && r[j] == y;
    var lo, hi := if i < j then i else j, if i < j then j else i;
    SwapTied(r, lo, hi, less);
    assert r[lo := r[hi]][hi := r[lo]][lo] != r[lo];
  }

  lemma DecidedIsUnique<T(!new)>(s: seq<T>, r: seq<T>, t: seq<T>, less: (T, T) -> bool)
    requires Decided(s, less) && Sorted(r, less) && Sorted(t, less)
    requires multiset(r) == multiset(s) && multiset(t) == multiset(s)
    ensures t == r
  {
    SameSize(t, s);
    SortedUnique(t, r, less);
  }

  /**
   * The result does not depend on the order the elements came in, nor on the algorithm,
   * exactly when every pair is decided.
   */
  lemma UniqueExactly<T(!new)>(s: seq<T>, less: (T, T) -> bool)
    requires StrictWeak(less)
    ensures (forall t :: Sorted(t, less) && multiset(t) == multiset(s) ==> t == Sort(s, less)) <==> Decided(s, less)
  {
    var r := Sort(s, less);
    SortIsSorted(s, less);
    SameSize(r, s);
    if Decided(s, less) {
      forall t | Sorted(t, less) && multiset(t) == multiset(s) ensures t == r {
        DecidedIsUnique(s, r, t, less);
      }
    } else {
      var x, y :| x in s && y in s && x != y && !less(x, y) && !less(y, x);
      TiedIsNotUnique(r, x, y, less);
    }
  }

  // ---------------------------------------------------------------- without repetition

  ghost predicate NoDup<T(!new)>(s: seq<T>) {
    forall i, j :: 0 <= i < j < |s| ==> s[i] != s[j]
  }

  /** A sequence has the elements of a set once each. */
  lemma {:induction false} OnceEach<T(!new)>(s: seq<T>, e: set<T>)
    requires forall x :: x in s <==> x in e
    ensures NoDup(s) <==> multiset(s) == multiset(e)
    decreases |s|
  {
    if s == [] {
      assert e == {};
    } else {
      var x, rest := s[0], s[1..];
      assert s == [x] + rest;
      if x in rest {
        assert multiset(s)[x] >= 2;
        var j :| 0 <= j < |rest| && rest[j] == x;
        assert s[0] == s[j + 1];
      } else {
        OnceEach(rest, e - {x});
        assert multiset(rest) == multiset(s) - multiset{x};
        assert multiset(e - {x}) == multiset(e) - multiset{x};
        NoDupCons(x, rest);
      }
    }
  }

  lemma NoDupCons<T(!new)>(x: T, s: seq<T>)
    requires x !in s
    ensures NoDup([x] + s) <==> NoDup(s)
    ensures NoDup(s) ==> NoDup(s + [x])
  {
    if NoDup([x] + s) {
      forall i, j | 0 <= i < j < |s| ensures s[i] != s[j] {
        assert ([x] + s)[i + 1] == s[i] && ([x] + s)[j + 1] == s[j];
      }
    }
  }

  lemma NoDupPermutes<T(!new)>(a: seq<T>, b: seq<T>, e: set<T>)
    requires forall x :: x in a <==> x in e
    requires multiset(a) == multiset(b) && NoDup(a)
    ensures NoDup(b) && forall x :: x in b <==> x in e
  {
    SameSize(a, b);
    OnceEach(a, e);
    OnceEach(b, e);
  }

  lemma SameElementsSameBag<T(!new)>(a: seq<T>, b: seq<T>, e: set<T>)
    requires NoDup(a) && NoDup(b)
    requires forall x :: x in a <==> x in e
    requires forall x :: x in b <==> x in e
    ensures multiset(a) == multiset(b)
  {
    OnceEach(a, e);
    OnceEach(b, e);
  }

  // ---------------------------------------------------------------- strings

  /** Go's < on strings; comparing UTF-8 bytes is comparing code points. */
  predicate StrLess(a: string, b: string) {
    b != "" && (a == "" || a[0] < b[0] || (a[0] == b[0] && StrLess(a[1..], b[1..])))
  }

  lemma {:induction false} StrTotal(a: string, b: string)
    ensures !(StrLess(a, b) && StrLess(b, a))
    ensures a == b <==> !StrLess(a, b) && !StrLess(b, a)
  {
    if a != "" && b != "" && a[0] == b[0] {
      StrTotal(a[1..], b[1..]);
      assert a == [a[0]] + a[1..] && b == [b[0]] + b[1..];
    }
  }

  lemma {:induction false} StrTrans(a: string, b: string, c: string)
    ensures StrLess(a, b) && StrLess(b, c) ==> StrLess(a, c)
  {
    if a != "" && b != "" && c != "" {
      StrTrans(a[1..], b[1..], c[1..]);
    }
  }

  lemma StrOrder()
    ensures StrictWeak(StrLess)
    ensures forall a, b :: a != b ==> StrLess(a, b) || StrLess(b, a)
  {
    forall a, b ensures StrLess(a, b) ==> !StrLess(b, a) {
      StrTotal(a, b);
    }
    forall a, b ensures a != b ==> StrLess(a, b) || StrLess(b, a) {
      StrTotal(a, b);
    }
    forall a, b, c | !StrLess(a, b) && !StrLess(b, c) ensures !StrLess(a, c) {
      StrTotal(a, b);
      StrTotal(b, c);
      StrTotal(a, c);
      StrTrans(c, b, a);
    }
  }

  ghost predicate Increasing(s: seq<string>) {
    forall i, j :: 0 <= i < j < |s| ==> StrLess(s[i], s[j])
  }

  lemma IncreasingExactly(s: seq<string>)
    ensures Increasing(s) <==> Sorted(s, StrLess) && NoDup(s)
  {
    StrOrder();
    if Increasing(s) {
      forall i, j | 0 <= i < j < |s| ensures !StrLess(s[j], s[i]) && s[i] != s[j] {
        StrTotal(s[i], s[j]);
      }
    }
  }

  /** There is one increasing sequence of a set of strings. */
  lemma IncreasingUnique(a: seq<string>, b: seq<string>, e: set<string>)
    requires Increasing(a) && Increasing(b)
    requires forall x :: x in a <==> x in e
    requires forall x :: x in b <==> x in e
    ensures a == b
  {
    IncreasingExactly(a);
    IncreasingExactly(b);
    SameElementsSameBag(a, b, e);
    StrOrder();
    SortedUnique(a, b, StrLess);
  }

  /** Collects a set in whatever order it yields its elements, then sorts. */
  method SortedElements(e: set<string>) returns (r: seq<string>)
    ensures Increasing(r) && forall x :: x in r <==> x in e
  {
    var todo := e;
    r := [];
    while todo != {}
      invariant todo <= e && NoDup(r)
      invariant forall x :: x in r <==> x in e - todo
      decreases todo
    {
      var x :| x in todo;
      NoDupCons(x, r);
      r, todo := r + [x], todo - {x};
    }
    StrOrder();
    SortIsSorted(r, StrLess);
    NoDupPermutes(r, Sort(r, StrLess), e);
    r := Sort(r, StrLess);
    IncreasingExactly(r);
  }
}
