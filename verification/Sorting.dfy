/** Python's `sorted`: a stable sort by a total preorder. */
module Sorting {
  import opened Seqs
  import Lex

  ghost predicate Total<T(!new)>(le: (T, T) -> bool) {
    forall x, y :: le(x, y) || le(y, x)
  }

  ghost predicate Transitive<T(!new)>(le: (T, T) -> bool) {
    forall x, y, z :: le(x, y) && le(y, z) ==> le(x, z)
  }

  ghost predicate Sorted<T>(xs: seq<T>, le: (T, T) -> bool) {
    forall i, j :: 0 <= i < j < |xs| ==> le(xs[i], xs[j])
  }

  /** Equal keys keep their order: `x` goes before the first element it does not exceed. */
  function Insert<T>(x: T, xs: seq<T>, le: (T, T) -> bool): seq<T> {
    if xs == [] || le(x, xs[0]) then [x] + xs
    else [xs[0]] + Insert(x, xs[1..], le)
  }

  function Sort<T>(xs: seq<T>, le: (T, T) -> bool): seq<T> {
    if xs == [] then [] else Insert(xs[0], Sort(xs[1..], le), le)
  }

  lemma {:induction false} InsertMultiset<T>(x: T, xs: seq<T>, le: (T, T) -> bool)
    ensures multiset(Insert(x, xs, le)) == multiset{x} + multiset(xs)
  {
    if xs == [] || le(x, xs[0]) {
    } else {
      InsertMultiset(x, xs[1..], le);
      assert xs == [xs[0]] + xs[1..];
    }
  }

  lemma {:induction false} SortMultiset<T>(xs: seq<T>, le: (T, T) -> bool)
    ensures multiset(Sort(xs, le)) == multiset(xs)
    ensures |Sort(xs, le)| == |xs|
  {
    if xs != [] {
      SortMultiset(xs[1..], le);
      InsertMultiset(xs[0], Sort(xs[1..], le), le);
      assert xs == [xs[0]] + xs[1..];
      assert |multiset(Sort(xs, le))| == |multiset(xs)|;
    }
  }

  lemma {:induction false} InsertSorted<T(!new)>(x: T, xs: seq<T>, le: (T, T) -> bool)
    requires Total(le) && Transitive(le) && Sorted(xs, le)
    ensures Sorted(Insert(x, xs, le), le)
  {
    if xs == [] || le(x, xs[0]) {
    } else {
      InsertSorted(x, xs[1..], le);
      InsertMultiset(x, xs[1..], le);
      var r := Insert(x, xs[1..], le);
      forall i | 0 <= i < |r|
        ensures le(xs[0], r[i])
      {
        assert r[i] in multiset(r);
        assert r[i] == x || r[i] in xs[1..];
      }
    }
  }

  lemma {:induction false} SortSorted<T(!new)>(xs: seq<T>, le: (T, T) -> bool)
    requires Total(le) && Transitive(le)
    ensures Sorted(Sort(xs, le), le)
  {
    if xs != [] {
      SortSorted(xs[1..], le);
      InsertSorted(xs[0], Sort(xs[1..], le), le);
    }
  }

  /** A multiset has one sorted listing when only equal elements tie. */
  lemma {:induction false} UniqueListing<T>(xs: seq<T>, ys: seq<T>, le: (T, T) -> bool)
    requires multiset(xs) == multiset(ys)
    requires Sorted(xs, le) && Sorted(ys, le)
    requires forall x, y :: x in xs && y in xs && le(x, y) && le(y, x) ==> x == y
    ensures xs == ys
  {
    if xs == [] {
      SameLength(xs, ys);
    } else {
      assert xs[0] in multiset(xs);
      SameHead(xs, ys, le);
      HeadMultiset(xs);
      HeadMultiset(ys);
      UniqueListing(xs[1..], ys[1..], le);
    }
  }

  lemma SameHead<T>(xs: seq<T>, ys: seq<T>, le: (T, T) -> bool)
    requires xs != [] && ys != [] && multiset(xs) == multiset(ys)
    requires Sorted(xs, le) && Sorted(ys, le)
    requires forall x, y :: x in xs && y in xs && le(x, y) && le(y, x) ==> x == y
    ensures xs[0] == ys[0]
  {
    assert xs[0] in multiset(xs) && ys[0] in multiset(ys);
    var j :| 0 <= j < |ys| && ys[j] == xs[0];
    var i :| 0 <= i < |xs| && xs[i] == ys[0];
    if 0 < i && 0 < j {
      assert le(xs[0], xs[i]) && le(ys[0], ys[j]);
    }
  }

  // ------------------------------------------------------------------ text

  function Codes(s: string): (codes: seq<int>)
    ensures |codes| == |s| && forall i :: 0 <= i < |s| ==> codes[i] == s[i] as int
  {
    seq(|s|, i requires 0 <= i < |s| => s[i] as int)
  }

  /** The order of strings, by code points. */
  predicate TextLe(a: string, b: string) {
    Lex.AtMost(Codes(a), Codes(b))
  }

  /** A prefix comes first, otherwise the smaller character where the two first differ. */
  lemma TextLeExactly(a: string, b: string)
    ensures TextLe(a, b) <==>
      a <= b || exists k: nat :: k < |a| && k < |b| && a[..k] == b[..k] && a[k] < b[k]
  {
    var x, y := Codes(a), Codes(b);
    Lex.Trichotomy(x, y);
    Lex.LessExactly(x, y);
    CodesPrefix(a, b);
    assert x == y <==> a == b by {
      if x == y { assert a == b by { assert forall i :: 0 <= i < |a| ==> x[i] == y[i]; } }
    }
    forall k: nat
      ensures Lex.SmallerAt(x, y, k) <==> k < |a| && k < |b| && a[..k] == b[..k] && a[k] < b[k]
    {
      if k < |a| && k < |b| {
        SameCodes(a[..k], b[..k]);
        assert Codes(a[..k]) == x[..k] && Codes(b[..k]) == y[..k];
      }
    }
  }

  lemma SameCodes(a: string, b: string)
    ensures Codes(a) == Codes(b) <==> a == b
  {
    if Codes(a) == Codes(b) {
      assert forall i :: 0 <= i < |a| ==> Codes(a)[i] == Codes(b)[i];
    }
  }

  lemma CodesPrefix(a: string, b: string)
    ensures Codes(a) < Codes(b) <==> a < b
  {
    if |a| < |b| {
      assert Codes(b[..|a|]) == Codes(b)[..|a|];
      SameCodes(a, b[..|a|]);
    }
  }

  lemma TextOrder()
    ensures Total(TextLe) && Transitive(TextLe)
  {
    forall a: string, b: string
      ensures TextLe(a, b) || TextLe(b, a)
    {
      Lex.Trichotomy(Codes(a), Codes(b));
    }
    forall a: string, b: string, c: string | TextLe(a, b) && TextLe(b, c)
      ensures TextLe(a, c)
    {
      Lex.AtMostTransitive(Codes(a), Codes(b), Codes(c));
    }
  }

  // ------------------------------------------------------------------ stability

  lemma {:induction false} InsertStable<T>(x: T, xs: seq<T>, le: (T, T) -> bool, p: T -> bool)
    requires p(x) ==> forall y :: y in xs && p(y) ==> le(x, y)
    ensures Filter(Insert(x, xs, le), p) == (if p(x) then [x] else []) + Filter(xs, p)
  {
    if xs == [] || le(x, xs[0]) {
      FilterCons([x] + xs, p);
      assert ([x] + xs)[1..] == xs;
    } else {
      var rest := Insert(x, xs[1..], le);
      InsertStable(x, xs[1..], le, p);
      FilterCons([xs[0]] + rest, p);
      assert ([xs[0]] + rest)[1..] == rest;
      FilterCons(xs, p);
    }
  }

  /** Elements that tie with one another keep their order. */
  lemma {:induction false} SortStable<T>(xs: seq<T>, le: (T, T) -> bool, p: T -> bool)
    requires forall x, y :: x in xs && y in xs && p(x) && p(y) ==> le(x, y)
    ensures Filter(Sort(xs, le), p) == Filter(xs, p)
  {
    if xs != [] {
      SortStable(xs[1..], le, p);
      SortMultiset(xs[1..], le);
      forall y | y in Sort(xs[1..], le)
        ensures y in xs
      {
        assert y in multiset(Sort(xs[1..], le));
        assert y in xs[1..];
      }
      InsertStable(xs[0], Sort(xs[1..], le), le, p);
      FilterCons(xs, p);
    }
  }

  function KeyIs<T, K(==)>(key: T -> K, k: K): T -> bool {
    (x: T) => key(x) == k
  }

  /** Two lists with the same elements under every key, in the same order. */
  ghost predicate SameByKey<T, K(!new)>(xs: seq<T>, ys: seq<T>, key: T -> K) {
    forall k :: Filter(xs, KeyIs(key, k)) == Filter(ys, KeyIs(key, k))
  }

  lemma SameByKeyMembers<T, K(!new)>(xs: seq<T>, ys: seq<T>, key: T -> K, x: T)
    requires SameByKey(xs, ys, key)
    ensures x in xs <==> x in ys
  {
    FilterMember(xs, KeyIs(key, key(x)), x);
    FilterMember(ys, KeyIs(key, key(x)), x);
  }

  lemma SameFirst<T, K(!new)>(xs: seq<T>, ys: seq<T>, le: (T, T) -> bool, key: T -> K)
    requires xs != [] && ys != [] && SameByKey(xs, ys, key) && Sorted(xs, le) && Sorted(ys, le)
    requires forall x, y :: x in xs && y in xs && le(x, y) && le(y, x) ==> key(x) == key(y)
    ensures xs[0] == ys[0]
  {
    SameByKeyMembers(xs, ys, key, xs[0]);
    SameByKeyMembers(xs, ys, key, ys[0]);
    var j :| 0 <= j < |ys| && ys[j] == xs[0];
    var i :| 0 <= i < |xs| && xs[i] == ys[0];
    if 0 < i && 0 < j {
      assert le(xs[0], xs[i]) && le(ys[0], ys[j]);
    }
    var p := KeyIs(key, key(xs[0]));
    FilterCons(xs, p);
    FilterCons(ys, p);
    assert Filter(xs, p)[0] == xs[0] && Filter(ys, p)[0] == ys[0];
  }

  lemma SameRest<T, K(!new)>(xs: seq<T>, ys: seq<T>, key: T -> K)
    requires xs != [] && ys != [] && xs[0] == ys[0] && SameByKey(xs, ys, key)
    ensures SameByKey(xs[1..], ys[1..], key)
  {
    forall k
      ensures Filter(xs[1..], KeyIs(key, k)) == Filter(ys[1..], KeyIs(key, k))
    {
      var p := KeyIs(key, k);
      FilterCons(xs, p);
      FilterCons(ys, p);
      var head := if p(xs[0]) then [xs[0]] else [];
      assert Filter(xs[1..], p) == Filter(xs, p)[|head|..];
      assert Filter(ys[1..], p) == Filter(ys, p)[|head|..];
    }
  }

  /** Sorted lists are the same once ties share a key and every key lists the same elements in order. */
  lemma {:induction false} StableListing<T, K(!new)>(xs: seq<T>, ys: seq<T>, le: (T, T) -> bool, key: T -> K)
    requires SameByKey(xs, ys, key) && Sorted(xs, le) && Sorted(ys, le)
    requires forall x, y :: x in xs && y in xs && le(x, y) && le(y, x) ==> key(x) == key(y)
    ensures xs == ys
  {
    if xs == [] || ys == [] {
      if xs != [] { SameByKeyMembers(xs, ys, key, xs[0]); }
      if ys != [] { SameByKeyMembers(xs, ys, key, ys[0]); }
    } else {
      SameFirst(xs, ys, le, key);
      SameRest(xs, ys, key);
      StableListing(xs[1..], ys[1..], le, key);
    }
  }
}
