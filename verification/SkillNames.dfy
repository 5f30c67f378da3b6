/** The names in a skill payload: how a path object rewrites them, and which ones are safe. */
module SkillNames {
  import opened Octets
  import opened Seqs

  const SLASH: byte := 0x2f
  const BACKSLASH: byte := 0x5c
  const DOT: byte := 0x2e
  const COLON: byte := 0x3a
  const PYCACHE: Bytes := [0x5f, 0x5f, 0x70, 0x79, 0x63, 0x61, 0x63, 0x68, 0x65, 0x5f, 0x5f]

  // ------------------------------------------------------------------ relative paths

  predicate NoSlash(s: Bytes) {
    forall i :: 0 <= i < |s| ==> s[i] != SLASH
  }

  function Split(n: Bytes): (segments: seq<Bytes>)
    ensures segments != [] && forall i :: 0 <= i < |segments| ==> NoSlash(segments[i])
  {
    if n == [] then [[]] else Grow(n[0], Split(n[1..]))
  }

  /** The segments after reading one more character in front. */
  function Grow(c: byte, segments: seq<Bytes>): (grown: seq<Bytes>)
    requires segments != [] && forall i :: 0 <= i < |segments| ==> NoSlash(segments[i])
    ensures grown != [] && forall i :: 0 <= i < |grown| ==> NoSlash(grown[i])
  {
    if c == SLASH then [[]] + segments
    else
      assert NoSlash(segments[0]);
      [[c] + segments[0]] + segments[1..]
  }

  function Join(segments: seq<Bytes>): Bytes {
    if segments == [] then []
    else if |segments| == 1 then segments[0]
    else segments[0] + [SLASH] + Join(segments[1..])
  }

  function Kept(): Bytes -> bool {
    (segment: Bytes) => segment != [] && segment != [DOT]
  }

  /** `Path(n).parts` of a relative name: empty segments and dots are dropped. */
  function Parts(n: Bytes): seq<Bytes> {
    Filter(Split(n), Kept())
  }

  /** `Path(n).as_posix()`, the name under which a file written to `n` is found again. */
  function PosixPath(n: Bytes): Bytes {
    Join(Parts(n))
  }

  lemma GrowConcat(c: byte, s: seq<Bytes>, t: seq<Bytes>)
    requires s != [] && forall i :: 0 <= i < |s + t| ==> NoSlash((s + t)[i])
    ensures forall i :: 0 <= i < |s| ==> NoSlash(s[i])
    ensures Grow(c, s + t) == Grow(c, s) + t
  {
    assert forall i :: 0 <= i < |s| ==> (s + t)[i] == s[i];
    assert (s + t)[1..] == s[1..] + t;
  }

  lemma {:induction false} SplitConcat(a: Bytes, b: Bytes)
    ensures Split(a + [SLASH] + b) == Split(a) + Split(b)
  {
    var n := a + [SLASH] + b;
    if a == [] {
      assert n[1..] == b;
    } else {
      SplitConcat(a[1..], b);
      assert n[1..] == a[1..] + [SLASH] + b;
      GrowConcat(a[0], Split(a[1..]), Split(b));
    }
  }

  lemma {:induction false} SplitPlain(s: Bytes)
    requires NoSlash(s)
    ensures Split(s) == [s]
  {
    if s != [] {
      SplitPlain(s[1..]);
      assert [s[0]] + s[1..] == s;
    }
  }

  lemma {:induction false} SplitJoin(segments: seq<Bytes>)
    requires segments != [] && forall i :: 0 <= i < |segments| ==> NoSlash(segments[i])
    ensures Split(Join(segments)) == segments
  {
    SplitPlain(segments[0]);
    if |segments| > 1 {
      SplitJoin(segments[1..]);
      SplitConcat(segments[0], Join(segments[1..]));
    }
  }

  lemma {:induction false} JoinSplit(n: Bytes)
    ensures Join(Split(n)) == n
  {
    if n != [] {
      JoinSplit(n[1..]);
      var rest := Split(n[1..]);
      if n[0] == SLASH {
        assert ([[]] + rest)[1..] == rest;
      } else if |rest| > 1 {
        assert ([[n[0]] + rest[0]] + rest[1..])[1..] == rest[1..];
      }
    }
  }

  lemma {:induction false} FilterAll(s: seq<Bytes>, p: Bytes -> bool)
    ensures Filter(s, p) == s <==> forall i :: 0 <= i < |s| ==> p(s[i])
    ensures |Filter(s, p)| <= |s|
  {
    if s != [] {
      var c, x := s[..|s| - 1], s[|s| - 1];
      FilterAll(c, p);
      assert s == c + [x];
    }
  }

  lemma PartsKept(n: Bytes, i: nat)
    requires i < |Parts(n)|
    ensures Kept()(Parts(n)[i]) && NoSlash(Parts(n)[i])
  {
    FilterMember(Split(n), Kept(), Parts(n)[i]);
  }

  /** The rewritten name has the parts of the name it comes from. */
  lemma PartsOfPosixPath(n: Bytes)
    ensures Parts(PosixPath(n)) == Parts(n)
  {
    var parts := Parts(n);
    forall i | 0 <= i < |parts|
      ensures Kept()(parts[i]) && NoSlash(parts[i])
    {
      PartsKept(n, i);
    }
    if parts == [] {
      var empty: seq<Bytes> := [[]];
      assert Split([]) == empty && empty[..0] == [];
    } else {
      SplitJoin(parts);
      FilterAll(parts, Kept());
    }
  }

  /** Path handling leaves a name alone exactly when no segment of it is empty or a dot. */
  lemma NormalNames(n: Bytes)
    requires n != []
    ensures PosixPath(n) == n <==> forall i :: 0 <= i < |Split(n)| ==> Kept()(Split(n)[i])
  {
    var parts := Parts(n);
    FilterAll(Split(n), Kept());
    JoinSplit(n);
    if PosixPath(n) == n {
      forall i | 0 <= i < |parts|
        ensures NoSlash(parts[i])
      {
        PartsKept(n, i);
      }
      SplitJoin(parts);
    }
  }

  // ------------------------------------------------------------------ safe names

  /** The allowlists: top-level files, directories, and names with an allowed extension. */
  datatype SkillRule = SkillRule(topFiles: set<Bytes>, directories: set<Bytes>, extension: Bytes -> bool) {
    ghost predicate Lawful() {
      forall s :: s in topFiles + directories ==> s != [] && s[0] != BACKSLASH
    }

    predicate SafePart(part: Bytes) {
      part != [] && part[0] != DOT && part != PYCACHE && COLON !in part && 0 !in part
    }

    predicate SafeParts(parts: seq<Bytes>) {
      && parts != []
      && (forall i :: 0 <= i < |parts| ==> SafePart(parts[i]))
      && if |parts| == 1 then parts[0] in topFiles
         else parts[0] in directories && extension(parts[|parts| - 1])
    }

    predicate Safe(n: Bytes) {
      n != [] && n[0] != SLASH && n[0] != BACKSLASH && SafeParts(Parts(n))
    }
  }

  /** A rewritten name is rewritten no further, and is as safe as the name it comes from. */
  lemma PosixPathLawful(r: SkillRule, n: Bytes)
    requires r.Lawful()
    ensures PosixPath(PosixPath(n)) == PosixPath(n)
    ensures r.Safe(n) ==> r.Safe(PosixPath(n))
  {
    PartsOfPosixPath(n);
    var parts := Parts(n);
    if r.Safe(n) {
      PartsKept(n, 0);
      assert parts[0] in r.topFiles + r.directories;
      assert PosixPath(n)[0] == parts[0][0];
    }
  }

  lemma SplitDoubled(a: Bytes, b: Bytes)
    ensures Split(a + [SLASH, SLASH] + b) == Split(a) + [[]] + Split(b)
  {
    SplitConcat(a, [SLASH] + b);
    SplitConcat([], b);
    assert [] + [SLASH] + b == [SLASH] + b;
    assert a + [SLASH, SLASH] + b == a + [SLASH] + ([SLASH] + b);
    assert Split(a) + ([[]] + Split(b)) == Split(a) + [[]] + Split(b);
  }

  lemma DoubledParts(a: Bytes, b: Bytes)
    ensures Parts(a + [SLASH, SLASH] + b) == Parts(a + [SLASH] + b)
  {
    var left, right, empty: Bytes := Split(a), Split(b), [];
    SplitConcat(a, b);
    SplitDoubled(a, b);
    FilterConcat(left, right, Kept());
    FilterConcat(left + [empty], right, Kept());
    FilterSnoc(left, empty, Kept());
  }

  /** A doubled slash keeps a name safe and writes to the same place, but is never read back. */
  lemma DoubledSlash(r: SkillRule, a: Bytes, b: Bytes)
    requires a != []
    ensures var single, double := a + [SLASH] + b, a + [SLASH, SLASH] + b;
      (r.Safe(single) <==> r.Safe(double)) && PosixPath(single) == PosixPath(double) != double
  {
    var double := a + [SLASH, SLASH] + b;
    DoubledParts(a, b);
    SplitDoubled(a, b);
    NormalNames(double);
    assert Split(double)[|Split(a)|] == [];
  }

  // ------------------------------------------------------------------ what is refused and what is not

  /** A name is refused for any segment that goes up, is hidden, is a bytecode cache, or holds a colon or a NUL. */
  lemma SegmentsRefused(r: SkillRule, n: Bytes, segment: Bytes)
    requires segment in Split(n)
    requires [DOT, DOT] <= segment || (|segment| > 1 && segment[0] == DOT) || segment == PYCACHE ||
             COLON in segment || 0 in segment
    ensures !r.Safe(n)
  {
    FilterMember(Split(n), Kept(), segment);
    if segment in Parts(n) {
      var i :| 0 <= i < |Parts(n)| && Parts(n)[i] == segment;
      assert !r.SafePart(Parts(n)[i]);
    }
  }

  /** A segment that nothing is wrong with. */
  predicate PlainSegment(s: Bytes) {
    NoSlash(s) && s != [] && s[0] != DOT && s[0] != BACKSLASH && s != PYCACHE && COLON !in s && 0 !in s
  }

  lemma PlainParts(s: Bytes)
    requires NoSlash(s) && s != [] && s != [DOT]
    ensures Parts(s) == [s]
  {
    SplitPlain(s);
    FilterSnoc([], s, Kept());
    assert [] + [s] == [s];
  }

  /** A plain name alone is safe exactly when it is an allowed top-level file; a plain name in a plain directory
      exactly when the directory and the extension are allowed, at any depth in between. */
  lemma PlainNamesSafe(r: SkillRule, directory: Bytes, middle: Bytes, file: Bytes)
    requires PlainSegment(directory) && PlainSegment(middle) && PlainSegment(file)
    ensures r.Safe(file) <==> file in r.topFiles
    ensures r.Safe(directory + [SLASH] + file) <==> directory in r.directories && r.extension(file)
    ensures r.Safe(directory + [SLASH] + (middle + [SLASH] + file)) <==>
      directory in r.directories && r.extension(file)
  {
    PlainParts(directory);
    PlainParts(middle);
    PlainParts(file);
    PartsConcat(directory, file);
    PartsConcat(middle, file);
    PartsConcat(directory, middle + [SLASH] + file);
    assert Parts(directory + [SLASH] + file) == [directory, file];
    assert Parts(directory + [SLASH] + (middle + [SLASH] + file)) == [directory, middle, file];
    assert (directory + [SLASH] + file)[0] == directory[0];
    assert (directory + [SLASH] + (middle + [SLASH] + file))[0] == directory[0];
  }

  lemma PartsConcat(a: Bytes, b: Bytes)
    ensures Parts(a + [SLASH] + b) == Parts(a) + Parts(b)
  {
    SplitConcat(a, b);
    FilterConcat(Split(a), Split(b), Kept());
  }

  /** A name that starts with a slash or a backslash is refused, as is one without any part. */
  lemma StartsRefused(r: SkillRule, n: Bytes)
    requires n == [] || n[0] == SLASH || n[0] == BACKSLASH || Parts(n) == []
    ensures !r.Safe(n)
  {
  }
}
