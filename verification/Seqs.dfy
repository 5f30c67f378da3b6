/** Sequences without repetition, and the sets of their elements. */
module Seqs {
  ghost predicate Distinct<T>(s: seq<T>) {
    forall i, j :: 0 <= i < j < |s| ==> s[i] != s[j]
  }

  function ToSet<T>(s: seq<T>): set<T> {
    set x | x in s
  }

  /** `s[:k]` for a non-negative cut. */
  function Take<T>(s: seq<T>, k: nat): seq<T> {
    if k < |s| then s[..k] else s
  }

  function Map<S, T>(f: S -> T, s: seq<S>): (r: seq<T>)
    ensures |r| == |s|
    ensures forall i :: 0 <= i < |s| ==> r[i] == f(s[i])
  {
    seq(|s|, i requires 0 <= i < |s| => f(s[i]))
  }

  lemma {:induction false} ToSetSize<T>(s: seq<T>)
    ensures |ToSet(s)| <= |s|
    ensures |ToSet(s)| == |s| <==> Distinct(s)
  {
    if s != [] {
      var p, x := s[..|s| - 1], s[|s| - 1];
      ToSetSize(p);
      if x in p {
        assert ToSet(s) == ToSet(p);
        var i :| 0 <= i < |p| && p[i] == x;
        assert s[i] == s[|s| - 1];
      } else {
        assert ToSet(s) == ToSet(p) + {x};
        assert Distinct(s) <==> Distinct(p) by {
          assert forall i :: 0 <= i < |p| ==> s[i] == p[i];
        }
      }
    }
  }

  lemma SubsetSize<T>(a: set<T>, b: set<T>)
    requires a <= b
    ensures |a| <= |b|
    ensures |a| == |b| ==> a == b
  {
    assert b == a + (b - a);
  }

  lemma DistinctTake<T>(s: seq<T>, k: nat)
    requires Distinct(s)
    ensures Distinct(Take(s, k))
  {
    assert forall i :: 0 <= i < |Take(s, k)| ==> Take(s, k)[i] == s[i];
  }

  function Without<T>(s: seq<T>, j: nat): seq<T>
    requires j < |s|
  {
    s[..j] + s[j + 1..]
  }

  lemma WithoutMultiset<T>(s: seq<T>, j: nat)
    requires j < |s|
    ensures multiset(s) == multiset{s[j]} + multiset(Without(s, j))
    ensures multiset(Without(s, j)) == multiset(s) - multiset{s[j]}
  {
    assert s == s[..j] + ([s[j]] + s[j + 1..]);
  }

  lemma HeadMultiset<T>(s: seq<T>)
    requires s != []
    ensures multiset(s) == multiset{s[0]} + multiset(s[1..])
    ensures multiset(s[1..]) == multiset(s) - multiset{s[0]}
  {
    assert s == [s[0]] + s[1..];
  }

  lemma SameLength<T>(s: seq<T>, t: seq<T>)
    requires multiset(s) == multiset(t)
    ensures |s| == |t|
  {
    assert |multiset(s)| == |s| && |multiset(t)| == |t|;
  }

  /** One more step of a loop that maps its input. */
  lemma MapStep<S, T>(f: S -> T, s: seq<S>, i: nat)
    requires i < |s|
    ensures Map(f, s[..i + 1]) == Map(f, s[..i]) + [f(s[i])]
  {
  }

  lemma MapWithout<S, T>(f: S -> T, s: seq<S>, j: nat)
    requires j < |s|
    ensures Map(f, Without(s, j)) == Without(Map(f, s), j)
  {
  }

  /** Applying a function to every element commutes with forgetting the order. */
  lemma {:induction false} MapMultiset<S, T>(f: S -> T, s: seq<S>, t: seq<S>)
    requires multiset(s) == multiset(t)
    ensures multiset(Map(f, s)) == multiset(Map(f, t))
  {
    if s == [] {
      SameLength(s, t);
    } else {
      assert s[0] in multiset(s);
      var j :| 0 <= j < |t| && t[j] == s[0];
      HeadMultiset(s);
      WithoutMultiset(t, j);
      MapMultiset(f, s[1..], Without(t, j));
      HeadMultiset(Map(f, s));
      assert Map(f, s)[1..] == Map(f, s[1..]);
      WithoutMultiset(Map(f, t), j);
      MapWithout(f, t, j);
    }
  }

  lemma {:induction false} DistinctCounts<T>(s: seq<T>)
    ensures Distinct(s) <==> forall x :: x in multiset(s) ==> multiset(s)[x] == 1
  {
    if s != [] {
      HeadMultiset(s);
      DistinctCounts(s[1..]);
      assert forall j :: 0 < j < |s| ==> s[j] == s[1..][j - 1];
      if Distinct(s) {
        assert s[0] !in s[1..];
      } else if Distinct(s[1..]) {
        assert s[0] in s[1..];
        assert s[0] in multiset(s) && multiset(s)[s[0]] >= 2;
      } else {
        var x :| x in multiset(s[1..]) && multiset(s[1..])[x] != 1;
        assert x in multiset(s) && multiset(s)[x] >= 2;
      }
    }
  }

  // ------------------------------------------------------------------ selecting

  /** The elements that satisfy `p`, in order. */
  function Filter<T>(s: seq<T>, p: T -> bool): seq<T> {
    if s == [] then []
    else Filter(s[..|s| - 1], p) + if p(s[|s| - 1]) then [s[|s| - 1]] else []
  }

  lemma FilterSnoc<T>(s: seq<T>, x: T, p: T -> bool)
    ensures Filter(s + [x], p) == Filter(s, p) + if p(x) then [x] else []
  {
    assert (s + [x])[..|s|] == s;
  }

  lemma {:induction false} FilterConcat<T>(a: seq<T>, b: seq<T>, p: T -> bool)
    ensures Filter(a + b, p) == Filter(a, p) + Filter(b, p)
  {
    if b == [] {
      assert a + b == a;
    } else {
      var c, x := b[..|b| - 1], b[|b| - 1];
      FilterConcat(a, c, p);
      FilterSnoc(a + c, x, p);
      assert a + b == (a + c) + [x];
    }
  }

  lemma FilterCons<T>(s: seq<T>, p: T -> bool)
    requires s != []
    ensures Filter(s, p) == (if p(s[0]) then [s[0]] else []) + Filter(s[1..], p)
  {
    assert s == [s[0]] + s[1..];
    assert [s[0]][..0] == [];
    FilterConcat([s[0]], s[1..], p);
  }

  lemma {:induction false} FilterMember<T>(s: seq<T>, p: T -> bool, x: T)
    ensures x in Filter(s, p) <==> x in s && p(x)
  {
    if s != [] {
      FilterMember(s[..|s| - 1], p, x);
      assert s == s[..|s| - 1] + [s[|s| - 1]];
    }
  }

  lemma {:induction false} FilterMap<S, T>(f: S -> T, s: seq<S>, p: S -> bool, q: T -> bool)
    requires forall x :: x in s ==> p(x) == q(f(x))
    ensures Filter(Map(f, s), q) == Map(f, Filter(s, p))
  {
    if s != [] {
      var c, x := s[..|s| - 1], s[|s| - 1];
      FilterMap(f, c, p, q);
      assert Map(f, s) == Map(f, c) + [f(x)];
      FilterSnoc(Map(f, c), f(x), q);
    }
  }
}
