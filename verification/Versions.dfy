/** The version order on parsed keys. */
module Versions {
  import opened Wrappers
  import Lex

  /** A parsed version: release components, then phase, pre-release and post-release numbers. */
  datatype Version = Version(base: seq<int>, phase: int, pre: int, post: int)

  function Zeros(n: nat): (z: seq<int>)
    ensures |z| == n && forall i :: 0 <= i < n ==> z[i] == 0
  {
    seq(n, _ => 0)
  }

  /** Padding with zeros up to `n` components. */
  function Pad(base: seq<int>, n: nat): seq<int> {
    if |base| < n then base + Zeros(n - |base|) else base
  }

  function Suffix(v: Version): seq<int> {
    [v.phase, v.pre, v.post]
  }

  /** Python's `<` on the nested tuples: the padded release first, then the rest. */
  predicate KeyLess(base: seq<int>, v: Version, base': seq<int>, v': Version) {
    Lex.Less(base, base') || (base == base' && Lex.Less(Suffix(v), Suffix(v')))
  }

  function Compare(a: Version, b: Version): int {
    var n := if |a.base| > |b.base| then |a.base| else |b.base|;
    var pa, pb := Pad(a.base, n), Pad(b.base, n);
    if KeyLess(pa, a, pb, b) then -1
    else if KeyLess(pb, b, pa, a) then 1
    else 0
  }

  // ------------------------------------------------------------------ one padding for all

  /** The flat key at a common width. */
  function Flat(v: Version, n: nat): seq<int> {
    Pad(v.base, n) + Suffix(v)
  }

  lemma {:induction false} LessConcat(p: seq<int>, q: seq<int>, s: seq<int>, t: seq<int>)
    requires |p| == |q|
    ensures Lex.Less(p + s, q + t) <==> Lex.Less(p, q) || (p == q && Lex.Less(s, t))
  {
    if p == [] {
      assert p + s == s && q + t == t;
    } else {
      LessConcat(p[1..], q[1..], s, t);
      assert (p + s)[1..] == p[1..] + s && (q + t)[1..] == q[1..] + t;
      assert p == [p[0]] + p[1..] && q == [q[0]] + q[1..];
    }
  }

  /** The pairwise padding gives the same answer as any width that fits both. */
  lemma CompareAtWidth(a: Version, b: Version, n: nat)
    requires |a.base| <= n && |b.base| <= n
    ensures Compare(a, b) == -1 <==> Lex.Less(Flat(a, n), Flat(b, n))
    ensures Compare(a, b) == 1 <==> Lex.Less(Flat(b, n), Flat(a, n))
    ensures Compare(a, b) == 0 <==> Flat(a, n) == Flat(b, n)
  {
    var m := if |a.base| > |b.base| then |a.base| else |b.base|;
    var pa, pb, z := Pad(a.base, m), Pad(b.base, m), Zeros(n - m);
    assert Pad(a.base, n) == pa + z && Pad(b.base, n) == pb + z;
    Lex.Irreflexive(z);
    LessConcat(pa, pb, z, z);
    LessConcat(pb, pa, z, z);
    LessConcat(pa + z, pb + z, Suffix(a), Suffix(b));
    LessConcat(pb + z, pa + z, Suffix(b), Suffix(a));
    assert pa + z == pb + z <==> pa == pb by {
      if pa + z == pb + z { assert pa == (pa + z)[..m] == (pb + z)[..m] == pb; }
    }
    Lex.Trichotomy(Flat(a, n), Flat(b, n));
  }

  // ------------------------------------------------------------------ a total preorder

  /** Swapping the arguments flips the sign, and a chain of two comparisons composes. */
  lemma CompareIsTotalPreorder(a: Version, b: Version, c: Version)
    ensures Compare(a, b) == -Compare(b, a)
    ensures Compare(a, b) <= 0 && Compare(b, c) <= 0 ==> Compare(a, c) <= 0
    ensures Compare(a, b) <= 0 && Compare(b, c) < 0 ==> Compare(a, c) < 0
    ensures Compare(a, b) < 0 && Compare(b, c) <= 0 ==> Compare(a, c) < 0
  {
    var n := |a.base| + |b.base| + |c.base|;
    CompareAtWidth(a, b, n);
    CompareAtWidth(b, a, n);
    CompareAtWidth(b, c, n);
    CompareAtWidth(a, c, n);
    var x, y, z := Flat(a, n), Flat(b, n), Flat(c, n);
    Lex.Trichotomy(x, y);
    Lex.Trichotomy(y, z);
    Lex.Trichotomy(x, z);
    if Lex.Less(x, y) && Lex.Less(y, z) {
      Lex.Transitive(x, y, z);
    }
  }

  /** The release without its trailing zero components. */
  function Trim(base: seq<int>): seq<int> {
    if base != [] && base[|base| - 1] == 0 then Trim(base[..|base| - 1]) else base
  }

  lemma PadStep(base: seq<int>, n: nat)
    requires |base| <= n
    ensures Pad(base, n + 1) == Pad(base, n) + [0]
  {
  }

  lemma {:induction false} TrimPads(base: seq<int>)
    ensures |Trim(base)| <= |base| && Pad(Trim(base), |base|) == base
  {
    if base != [] && base[|base| - 1] == 0 {
      TrimPads(base[..|base| - 1]);
      PadStep(Trim(base), |base| - 1);
    }
  }

  lemma {:induction false} TrimmedEnd(base: seq<int>)
    ensures Trim(base) != [] ==> Trim(base)[|Trim(base)| - 1] != 0
  {
    if base != [] && base[|base| - 1] == 0 {
      TrimmedEnd(base[..|base| - 1]);
    }
  }

  lemma PadTwice(base: seq<int>, m: nat, n: nat)
    requires |base| <= m <= n
    ensures Pad(Pad(base, m), n) == Pad(base, n)
  {
  }

  /** Two trimmed releases that agree when padded are the same. */
  lemma PadInjectiveOnTrimmed(a: seq<int>, b: seq<int>, n: nat)
    requires |a| <= |b| <= n && Pad(a, n) == Pad(b, n)
    requires b != [] ==> b[|b| - 1] != 0
    ensures a == b
  {
    if b != [] {
      var last := |b| - 1;
      assert Pad(a, n)[last] == Component(a, last) && Pad(b, n)[last] == Component(b, last);
    }
    if |a| == |b| {
      assert forall i :: 0 <= i < |a| ==> a[i] == Pad(a, n)[i] && b[i] == Pad(b, n)[i];
    }
  }

  /** Versions compare equal exactly when they agree up to trailing zero components. */
  lemma CompareZeroIffSameTrimmed(a: Version, b: Version)
    ensures Compare(a, b) == 0 <==> Trim(a.base) == Trim(b.base) && Suffix(a) == Suffix(b)
  {
    var n := |a.base| + |b.base|;
    CompareAtWidth(a, b, n);
    FlatSplits(a, b, n);
    SamePadSameTrim(a.base, b.base, n);
  }

  lemma FlatSplits(a: Version, b: Version, n: nat)
    requires |a.base| <= n && |b.base| <= n
    ensures Flat(a, n) == Flat(b, n) <==> Pad(a.base, n) == Pad(b.base, n) && Suffix(a) == Suffix(b)
  {
    if Flat(a, n) == Flat(b, n) {
      assert Pad(a.base, n) == Flat(a, n)[..n] && Suffix(a) == Flat(a, n)[n..];
      assert Pad(b.base, n) == Flat(b, n)[..n] && Suffix(b) == Flat(b, n)[n..];
    }
  }

  lemma PadTrim(base: seq<int>, n: nat)
    requires |base| <= n
    ensures Pad(Trim(base), n) == Pad(base, n) && |Trim(base)| <= n
  {
    TrimPads(base);
    PadTwice(Trim(base), |base|, n);
  }

  lemma SamePadSameTrim(a: seq<int>, b: seq<int>, n: nat)
    requires |a| <= n && |b| <= n
    ensures Pad(a, n) == Pad(b, n) <==> Trim(a) == Trim(b)
  {
    PadTrim(a, n);
    PadTrim(b, n);
    TrimmedEnd(a);
    TrimmedEnd(b);
    if Pad(Trim(a), n) == Pad(Trim(b), n) {
      PadInjectiveOnEnded(Trim(a), Trim(b), n);
    }
  }

  lemma PadInjectiveOnEnded(x: seq<int>, y: seq<int>, n: nat)
    requires |x| <= n && |y| <= n && Pad(x, n) == Pad(y, n)
    requires x != [] ==> x[|x| - 1] != 0
    requires y != [] ==> y[|y| - 1] != 0
    ensures x == y
  {
    if |x| <= |y| {
      PadInjectiveOnTrimmed(x, y, n);
    } else {
      PadInjectiveOnTrimmed(y, x, n);
    }
  }

  // ------------------------------------------------------------------ what decides

  /** Component `i` of a release, zero past its end. */
  function Component(base: seq<int>, i: nat): int {
    if i < |base| then base[i] else 0
  }

  lemma {:induction false} FirstDifferenceDecides(p: seq<int>, q: seq<int>, i: nat)
    requires i < |p| == |q| && p[..i] == q[..i] && p[i] < q[i]
    ensures Lex.Less(p, q)
  {
    if i > 0 {
      assert p[0] == p[..i][0] == q[..i][0] == q[0];
      assert p[1..][..i - 1] == p[..i][1..] == q[..i][1..] == q[1..][..i - 1];
      FirstDifferenceDecides(p[1..], q[1..], i - 1);
    }
  }

  /** The first component that differs decides, absent components counting as zero; the
      pre- and post-release numbers are looked at only when no component differs. */
  lemma ReleaseDecides(a: Version, b: Version, i: nat)
    requires forall j: nat :: j < i ==> Component(a.base, j) == Component(b.base, j)
    requires Component(a.base, i) < Component(b.base, i)
    ensures Compare(a, b) == -1 && Compare(b, a) == 1
  {
    var n := |a.base| + |b.base| + i + 1;
    CompareAtWidth(a, b, n);
    CompareAtWidth(b, a, n);
    var p, q := Flat(a, n), Flat(b, n);
    assert forall j: nat :: j < n ==> p[j] == Component(a.base, j) && q[j] == Component(b.base, j);
    FirstDifferenceDecides(p, q, i);
  }

  /** Releases that agree up to trailing zeros are told apart by phase first, then by the pre-release number, then
      by the post-release number. */
  lemma SuffixDecides(a: Version, b: Version)
    requires forall i: nat :: Component(a.base, i) == Component(b.base, i)
    ensures Compare(a, b) < 0 <==>
      a.phase < b.phase || (a.phase == b.phase && (a.pre < b.pre || (a.pre == b.pre && a.post < b.post)))
  {
    var n := |a.base| + |b.base|;
    CompareAtWidth(a, b, n);
    var x, y := Pad(a.base, n), Pad(b.base, n);
    assert x == y by {
      assert forall i: nat :: i < n ==> x[i] == Component(a.base, i) && y[i] == Component(b.base, i);
    }
    Lex.Irreflexive(x);
    LessConcat(x, y, Suffix(a), Suffix(b));
    SuffixLess(a, b);
  }

  lemma SuffixLess(a: Version, b: Version)
    ensures Lex.Less(Suffix(a), Suffix(b)) <==>
      a.phase < b.phase || (a.phase == b.phase && (a.pre < b.pre || (a.pre == b.pre && a.post < b.post)))
  {
    var s, t := Suffix(a), Suffix(b);
    var s', t' := [a.pre, a.post], [b.pre, b.post];
    assert s[1..] == s' && t[1..] == t' && s'[1..] == [a.post] && t'[1..] == [b.post];
    assert [a.post][1..] == [] && [b.post][1..] == [];
    assert !Lex.Less([], []);
    assert Lex.Less([a.post], [b.post]) <==> a.post < b.post;
    assert Lex.Less(s', t') <==> a.pre < b.pre || (a.pre == b.pre && Lex.Less([a.post], [b.post]));
  }

  // ------------------------------------------------------------------ from the parsed parts

  /** What the pattern captures: the release, the pre-release word in lower case with its number, and the
      post-release number; a number left out is 0. */
  datatype Parsed = Parsed(release: seq<int>, pre: Option<(string, nat)>, post: Option<nat>)

  function PhaseOf(word: string): int {
    if word == "dev" then -4
    else if word in {"a", "alpha"} then -3
    else if word in {"b", "beta"} then -2
    else -1
  }

  /** A post-release part overrides the phase and leaves the pre-release number. */
  function KeyOf(v: Parsed): Version {
    Version(v.release,
            if v.post.Some? then 1 else if v.pre.Some? then PhaseOf(v.pre.value.0) else 0,
            if v.pre.Some? then v.pre.value.1 else 0,
            if v.post.Some? then v.post.value else 0)
  }

  /** Every pre-release comes before its release and every post-release after it; development releases come
      before alphas, alphas before betas, betas before candidates; and within a phase the number decides. */
  lemma PhasesInOrder(release: seq<int>, x: nat, y: nat, post: nat, word: string)
    ensures var dev, alpha, beta, candidate := Parsed(release, Some(("dev", x)), None),
        Parsed(release, Some(("alpha", y)), None), Parsed(release, Some(("beta", x)), None),
        Parsed(release, Some(("rc", y)), None);
      Compare(KeyOf(dev), KeyOf(alpha)) < 0 && Compare(KeyOf(alpha), KeyOf(beta)) < 0 &&
      Compare(KeyOf(beta), KeyOf(candidate)) < 0
    ensures Compare(KeyOf(Parsed(release, Some((word, x)), None)), KeyOf(Parsed(release, None, None))) < 0
    ensures Compare(KeyOf(Parsed(release, None, None)), KeyOf(Parsed(release, None, Some(post)))) < 0
    ensures Compare(KeyOf(Parsed(release, Some((word, x)), None)), KeyOf(Parsed(release, Some((word, y)), None))) < 0
       <==> x < y
    ensures Compare(KeyOf(Parsed(release, None, Some(x))), KeyOf(Parsed(release, None, Some(y)))) < 0 <==> x < y
  {
    var plain, late := Parsed(release, None, None), Parsed(release, None, Some(post));
    var dev, alpha := Parsed(release, Some(("dev", x)), None), Parsed(release, Some(("alpha", y)), None);
    var beta, candidate := Parsed(release, Some(("beta", x)), None), Parsed(release, Some(("rc", y)), None);
    SuffixDecides(KeyOf(dev), KeyOf(alpha));
    SuffixDecides(KeyOf(alpha), KeyOf(beta));
    SuffixDecides(KeyOf(beta), KeyOf(candidate));
    SuffixDecides(KeyOf(Parsed(release, Some((word, x)), None)), KeyOf(plain));
    SuffixDecides(KeyOf(plain), KeyOf(late));
    SuffixDecides(KeyOf(Parsed(release, Some((word, x)), None)), KeyOf(Parsed(release, Some((word, y)), None)));
    SuffixDecides(KeyOf(Parsed(release, None, Some(x))), KeyOf(Parsed(release, None, Some(y))));
  }
}
