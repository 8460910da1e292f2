/** The library's stable sort, and the byte order it uses on names. */
module Sorting {

  ghost predicate TotalPreorder<T(!new)>(leq: (T, T) -> bool) {
    (forall x, y :: leq(x, y) || leq(y, x)) &&
    (forall x, y, z :: leq(x, y) && leq(y, z) ==> leq(x, z))
  }

  ghost predicate Antisymmetric<T(!new)>(leq: (T, T) -> bool) {
    forall x, y :: leq(x, y) && leq(y, x) ==> x == y
  }

  ghost predicate SortedBy<T>(xs: seq<T>, leq: (T, T) -> bool) {
    forall i, j | 0 <= i < j < |xs| :: leq(xs[i], xs[j])
  }

  ghost predicate Distinct<T>(xs: seq<T>) {
    forall i, j | 0 <= i < j < |xs| :: xs[i] != xs[j]
  }

  lemma SubsetCount<T>(a: set<T>, b: set<T>)
    requires a <= b
    ensures |a| <= |b|
  {
    assert b == a + (b - a);
  }

  function Insert<T>(x: T, xs: seq<T>, leq: (T, T) -> bool): seq<T> {
    if xs == [] then [x]
    else if leq(x, xs[0]) then [x] + xs
    else [xs[0]] + Insert(x, xs[1..], leq)
  }

  /** Stable: an element goes in front of the later ones it ties with. */
  function Sort<T>(xs: seq<T>, leq: (T, T) -> bool): seq<T> {
    if xs == [] then [] else Insert(xs[0], Sort(xs[1..], leq), leq)
  }

  lemma {:induction false} InsertMembers<T>(x: T, xs: seq<T>, leq: (T, T) -> bool)
    ensures multiset(Insert(x, xs, leq)) == multiset([x] + xs)
  {
    if xs != [] {
      assert xs == [xs[0]] + xs[1..];
      InsertMembers(x, xs[1..], leq);
    }
  }

  lemma ConsSorted<T>(x: T, xs: seq<T>, leq: (T, T) -> bool)
    requires SortedBy(xs, leq) && forall j | 0 <= j < |xs| :: leq(x, xs[j])
    ensures SortedBy([x] + xs, leq)
  {
    var all := [x] + xs;
    assert forall j | 1 <= j < |all| :: all[j] == xs[j - 1];
  }

  lemma {:induction false} InsertKeeps<T(!new)>(x: T, xs: seq<T>, leq: (T, T) -> bool)
    requires TotalPreorder(leq) && SortedBy(xs, leq)
    ensures SortedBy(Insert(x, xs, leq), leq)
  {
    if xs != [] {
      if leq(x, xs[0]) {
        forall j | 0 <= j < |xs| ensures leq(x, xs[j]) {
          assert j > 0 ==> leq(xs[0], xs[j]);
        }
        ConsSorted(x, xs, leq);
      } else {
        var rest := Insert(x, xs[1..], leq);
        InsertKeeps(x, xs[1..], leq);
        InsertMembers(x, xs[1..], leq);
        forall j | 0 <= j < |rest| ensures leq(xs[0], rest[j]) {
          assert rest[j] in multiset(rest);
          assert rest[j] in [x] + xs[1..];
        }
        ConsSorted(xs[0], rest, leq);
      }
    }
  }

  lemma {:induction false} SortSorts<T(!new)>(xs: seq<T>, leq: (T, T) -> bool)
    requires TotalPreorder(leq)
    ensures multiset(Sort(xs, leq)) == multiset(xs)
    ensures SortedBy(Sort(xs, leq), leq)
    ensures |Sort(xs, leq)| == |xs|
    ensures forall x :: x in Sort(xs, leq) <==> x in xs
  {
    if xs != [] {
      SortSorts(xs[1..], leq);
      InsertKeeps(xs[0], Sort(xs[1..], leq), leq);
      InsertMembers(xs[0], Sort(xs[1..], leq), leq);
      assert xs == [xs[0]] + xs[1..];
    }
    SameMembers(Sort(xs, leq), xs);
  }

  lemma SameMembers<T(!new)>(xs: seq<T>, ys: seq<T>)
    requires multiset(xs) == multiset(ys)
    ensures |xs| == |ys| && forall x :: x in xs <==> x in ys
  {
    assert |xs| == |multiset(xs)| && |ys| == |multiset(ys)|;
    forall x ensures x in xs <==> x in ys {
      assert x in xs <==> x in multiset(xs);
      assert x in ys <==> x in multiset(ys);
    }
  }

  /** The elements that tie with `x`, in order. */
  ghost function Ties<T(!new)>(xs: seq<T>, x: T, leq: (T, T) -> bool): seq<T> {
    if xs == [] then []
    else (if leq(x, xs[0]) && leq(xs[0], x) then [xs[0]] else []) + Ties(xs[1..], x, leq)
  }

  lemma {:induction false} InsertIsStable<T(!new)>(y: T, xs: seq<T>, x: T, leq: (T, T) -> bool)
    requires TotalPreorder(leq)
    ensures Ties(Insert(y, xs, leq), x, leq) == Ties([y] + xs, x, leq)
  {
    TiesCons(y, xs, x, leq);
    if xs == [] || leq(y, xs[0]) {
      assert xs == [] ==> [y] + xs == [y];
    } else {
      var rest := Insert(y, xs[1..], leq);
      InsertIsStable(y, xs[1..], x, leq);
      TiesCons(xs[0], rest, x, leq);
      TiesCons(y, xs[1..], x, leq);
      TiesCons(xs[0], xs[1..], x, leq);
      assert xs == [xs[0]] + xs[1..];
    }
  }

  lemma TiesCons<T(!new)>(y: T, ys: seq<T>, x: T, leq: (T, T) -> bool)
    ensures Ties([y] + ys, x, leq) == (if leq(x, y) && leq(y, x) then [y] else []) + Ties(ys, x, leq)
  {
    assert ([y] + ys)[1..] == ys;
  }

  /** Sorting leaves elements that tie in the order they came in. */
  lemma {:induction false} SortIsStable<T(!new)>(xs: seq<T>, x: T, leq: (T, T) -> bool)
    requires TotalPreorder(leq)
    ensures Ties(Sort(xs, leq), x, leq) == Ties(xs, x, leq)
  {
    if xs != [] {
      SortIsStable(xs[1..], x, leq);
      InsertIsStable(xs[0], Sort(xs[1..], leq), x, leq);
      TiesCons(xs[0], Sort(xs[1..], leq), x, leq);
    }
  }

  lemma SameHead<T(!new)>(xs: seq<T>, ys: seq<T>, leq: (T, T) -> bool)
    requires Antisymmetric(leq) && xs != [] && ys != []
    requires SortedBy(xs, leq) && SortedBy(ys, leq) && multiset(xs) == multiset(ys)
    ensures xs[0] == ys[0]
  {
    assert xs[0] in multiset(ys) && ys[0] in multiset(xs);
    assert xs[0] in ys && ys[0] in xs;
  }

  /** A multiset has one sorted listing under an antisymmetric order. */
  lemma {:induction false} SortedIsUnique<T(!new)>(xs: seq<T>, ys: seq<T>, leq: (T, T) -> bool)
    requires Antisymmetric(leq)
    requires SortedBy(xs, leq) && SortedBy(ys, leq) && multiset(xs) == multiset(ys)
    ensures xs == ys
  {
    assert |xs| == |multiset(xs)| && |ys| == |multiset(ys)|;
    if xs != [] {
      SameHead(xs, ys, leq);
      assert xs == [xs[0]] + xs[1..] && ys == [ys[0]] + ys[1..];
      assert multiset(xs[1..]) == multiset(xs) - multiset{xs[0]};
      assert multiset(ys[1..]) == multiset(ys) - multiset{ys[0]};
      SortedIsUnique(xs[1..], ys[1..], leq);
    }
  }

  lemma {:induction false} DistinctIsMultiplicityOne<T>(xs: seq<T>)
    ensures Distinct(xs) <==> forall x | x in xs :: multiset(xs)[x] == 1
  {
    if xs != [] {
      assert xs == [xs[0]] + xs[1..];
      DistinctIsMultiplicityOne(xs[1..]);
      if xs[0] in xs[1..] {
        assert multiset(xs)[xs[0]] >= 2;
      } else {
        assert forall x | x in xs[1..] :: multiset(xs)[x] == multiset(xs[1..])[x];
        assert forall x | x in xs :: x == xs[0] || x in xs[1..];
        assert Distinct(xs) <==> Distinct(xs[1..]);
      }
    }
  }

  /** Listings of the same set without repeats are permutations of each other. */
  lemma SameSetSameMultiset<T>(xs: seq<T>, ys: seq<T>)
    requires Distinct(xs) && Distinct(ys)
    requires forall x :: x in xs <==> x in ys
    ensures multiset(xs) == multiset(ys)
  {
    DistinctIsMultiplicityOne(xs);
    DistinctIsMultiplicityOne(ys);
    forall x ensures multiset(xs)[x] == multiset(ys)[x] {
      if x in xs { assert x in ys; } else { assert x !in ys; }
    }
  }

  lemma SameMultisetDistinct<T>(xs: seq<T>, ys: seq<T>)
    requires Distinct(xs) && multiset(xs) == multiset(ys)
    ensures Distinct(ys)
  {
    DistinctIsMultiplicityOne(xs);
    DistinctIsMultiplicityOne(ys);
    forall y | y in ys ensures multiset(ys)[y] == 1 {
      assert y in multiset(xs);
    }
  }

  // ------------------------------------------------------------ name order

  /** Code-point order, which is the byte order of UTF-8. */
  predicate NameLeq(a: string, b: string) {
    a == [] || (b != [] && (a[0] < b[0] || (a[0] == b[0] && NameLeq(a[1..], b[1..]))))
  }

  /** The names first differ at `k`, where `a` has the smaller character. */
  ghost predicate SmallerAt(a: string, b: string, k: nat) {
    k < |a| && k < |b| && a[k] < b[k] && forall i | 0 <= i < k :: a[i] == b[i]
  }

  /** The smaller name is a prefix of the other, or has the smaller character where they first differ. */
  lemma {:induction false} NameLeqIsLexicographic(a: string, b: string)
    ensures NameLeq(a, b) <==> a <= b || exists k: nat :: SmallerAt(a, b, k)
  {
    if a != [] && b != [] {
      if a[0] == b[0] {
        NameLeqIsLexicographic(a[1..], b[1..]);
        SameHeadLexicographic(a, b);
      } else if a[0] < b[0] {
        assert SmallerAt(a, b, 0);
      }
    }
  }

  lemma SameHeadLexicographic(a: string, b: string)
    requires a != [] && b != [] && a[0] == b[0]
    ensures a <= b <==> a[1..] <= b[1..]
    ensures (exists k: nat :: SmallerAt(a, b, k)) <==> exists k: nat :: SmallerAt(a[1..], b[1..], k)
  {
    assert a == [a[0]] + a[1..] && b == [b[0]] + b[1..];
    if k: nat :| SmallerAt(a, b, k) {
      assert SmallerAt(a[1..], b[1..], k - 1);
    }
    if k: nat :| SmallerAt(a[1..], b[1..], k) {
      forall i | 0 <= i < k + 1 ensures a[i] == b[i] {
        assert i > 0 ==> a[1..][i - 1] == b[1..][i - 1];
      }
      assert SmallerAt(a, b, k + 1);
    }
  }

  lemma {:induction false} NameLeqTotal(a: string, b: string)
    ensures NameLeq(a, b) || NameLeq(b, a)
    ensures NameLeq(a, b) && NameLeq(b, a) ==> a == b
  {
    if a != [] && b != [] && a[0] == b[0] {
      NameLeqTotal(a[1..], b[1..]);
      assert a == [a[0]] + a[1..] && b == [b[0]] + b[1..];
    }
  }

  lemma {:induction false} NameLeqTrans(a: string, b: string, c: string)
    requires NameLeq(a, b) && NameLeq(b, c)
    ensures NameLeq(a, c)
  {
    if a != [] && a[0] == b[0] && b[0] == c[0] {
      NameLeqTrans(a[1..], b[1..], c[1..]);
    }
  }

  lemma NameOrder()
    ensures TotalPreorder(NameLeq) && Antisymmetric(NameLeq)
  {
    forall a, b ensures NameLeq(a, b) || NameLeq(b, a)
      ensures NameLeq(a, b) && NameLeq(b, a) ==> a == b
    {
      NameLeqTotal(a, b);
    }
    forall a, b, c | NameLeq(a, b) && NameLeq(b, c) ensures NameLeq(a, c) {
      NameLeqTrans(a, b, c);
    }
  }
}
