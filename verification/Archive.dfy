/** The archive canonicaliser: hard-link depths, the member order and the rewritten metadata. */
module Archive {
  import opened Wrappers
  import opened Octets
  import opened Seqs
  import Lex
  import Sorting

  datatype Kind = Regular | Directory | SymbolicLink | HardLink | Unsupported

  /** The type byte of a tar header. `isreg` accepts four of them. */
  function KindOf(flag: byte): Kind {
    if flag in {REGULAR_FLAG, OLD_REGULAR_FLAG, CONTIGUOUS_FLAG, SPARSE_FLAG} then Regular
    else if flag == DIRECTORY_FLAG then Directory
    else if flag == SYMBOLIC_FLAG then SymbolicLink
    else if flag == LINK_FLAG then HardLink
    else Unsupported
  }

  const REGULAR_FLAG: byte := 48
  const OLD_REGULAR_FLAG: byte := 0
  const CONTIGUOUS_FLAG: byte := 55
  const SPARSE_FLAG: byte := 83
  const DIRECTORY_FLAG: byte := 53
  const SYMBOLIC_FLAG: byte := 50
  const LINK_FLAG: byte := 49

  /** Everything the rewriting resets to a fixed value. */
  datatype Metadata = Metadata(
    mtime: int, uid: nat, gid: nat, uname: string, gname: string,
    devmajor: nat, devminor: nat, pax: map<string, string>)

  /** `size` is the header's field, which members without payload carry along. `mapped` says that a sparse
      header holds the map of its content and its real size. */
  datatype Member = Member(
    name: Bytes, flag: byte, linkname: Bytes, mode: nat, size: nat, mapped: bool, payload: Bytes, meta: Metadata)
  {
    function Kind(): Kind {
      KindOf(flag)
    }

    /** What reading the member returns. A sparse header without its map gives the real size 0. */
    function Content(): Bytes {
      if flag == SPARSE_FLAG && !mapped then [] else payload
    }
  }

  datatype Error =
    | UnsupportedType(name: Bytes)
    | MissingTarget(name: Bytes, linkname: Bytes)
    | CyclicLink(name: Bytes)

  type Index = map<Bytes, Member>

  /** What a loop returns that has produced `done` and goes on to `rest`. */
  function After<T>(done: seq<T>, rest: Result<seq<T>, Error>): Result<seq<T>, Error> {
    match rest
    case Err(e) => Err(e)
    case Ok(ys) => Ok(done + ys)
  }

  lemma AfterNothing<T>(rest: Result<seq<T>, Error>)
    ensures After([], rest) == rest
  {
    if rest.Ok? { assert [] + rest.value == rest.value; }
  }

  lemma AfterAll<T>(done: seq<T>)
    ensures After(done, Ok([])) == Ok(done)
  {
    assert done + [] == done;
  }

  lemma AfterOne<T>(done: seq<T>, x: T, rest: Result<seq<T>, Error>)
    ensures After(done, After([x], rest)) == After(done + [x], rest)
  {
    if rest.Ok? { assert done + ([x] + rest.value) == (done + [x]) + rest.value; }
  }

  // ------------------------------------------------------------------ metadata

  /** `mode & 0o111`. */
  predicate AnyExecute(mode: nat) {
    mode % 2 == 1 || mode / 8 % 2 == 1 || mode / 64 % 2 == 1
  }

  const MODE_777: nat := 511
  const MODE_755: nat := 493
  const MODE_644: nat := 420

  function CanonicalMode(m: Member): nat {
    if m.Kind().SymbolicLink? then MODE_777
    else if m.Kind().Directory? then MODE_755
    else if AnyExecute(m.mode) then MODE_755 else MODE_644
  }

  /** The member as it is written: fixed metadata, and bytes for regular files only. The type byte is copied,
      the map of a sparse header is not. */
  function Written(m: Member, timestamp: int): Member {
    m.(mode := CanonicalMode(m),
       size := if m.Kind().Regular? then |m.Content()| else m.size,
       mapped := false,
       payload := if m.Kind().Regular? then m.Content() else [],
       meta := Metadata(timestamp, 0, 0, "root", "root", 0, 0, map[]))
  }

  function Writer(timestamp: int): Member -> Member {
    m => Written(m, timestamp)
  }

  // ------------------------------------------------------------------ hard-link depths

  /** `{member.name: member for member in members}`: a later member replaces an earlier one. */
  function ByName(ms: seq<Member>): Index {
    if ms == [] then map[]
    else ByName(ms[..|ms| - 1])[ms[|ms| - 1].name := ms[|ms| - 1]]
  }

  ghost predicate WellKeyed(byName: Index) {
    forall n :: n in byName ==> byName[n].name == n
  }

  datatype Resolved = Resolved(depth: nat, depths: map<Bytes, nat>)

  /** What one memoised call returns and the cache it leaves. */
  function Resolve(byName: Index, depths: map<Bytes, nat>, resolving: set<Bytes>, m: Member)
    : Result<Resolved, Error>
    requires WellKeyed(byName) && m.name in byName
    decreases byName.Keys - resolving
  {
    if m.name in depths then Ok(Resolved(depths[m.name], depths))
    else if !m.Kind().HardLink? then Ok(Resolved(0, depths[m.name := 0]))
    else if m.name in resolving then Err(CyclicLink(m.name))
    else if m.linkname !in byName then Err(MissingTarget(m.name, m.linkname))
    else
      match Resolve(byName, depths, resolving + {m.name}, byName[m.linkname])
      case Err(e) => Err(e)
      case Ok(r) => Ok(Resolved(r.depth + 1, r.depths[m.name := r.depth + 1]))
  }

  /** The closure's state: the memo table and the names being resolved. */
  class DepthTable {
    const byName: Index
    var depths: map<Bytes, nat>
    var resolving: set<Bytes>

    constructor (byName: Index)
      ensures this.byName == byName && depths == map[] && resolving == {}
    {
      this.byName := byName;
      depths, resolving := map[], {};
    }

    method DependencyDepth(m: Member) returns (r: Result<nat, Error>)
      requires WellKeyed(byName) && m.name in byName
      modifies this
      ensures match Resolve(byName, old(depths), old(resolving), m)
              case Ok(res) => r == Ok(res.depth) && depths == res.depths && resolving == old(resolving)
              case Err(e) => r == Err(e)
      decreases byName.Keys - resolving
    {
      if m.name in depths {
        return Ok(depths[m.name]);
      }
      if !m.Kind().HardLink? {
        depths := depths[m.name := 0];
        return Ok(0);
      }
      if m.name in resolving {
        return Err(CyclicLink(m.name));
      }
      if m.linkname !in byName {
        return Err(MissingTarget(m.name, m.linkname));
      }
      resolving := resolving + {m.name};
      var below := DependencyDepth(byName[m.linkname]);
      if below.Err? {
        return below;
      }
      resolving := resolving - {m.name};
      depths := depths[m.name := below.value + 1];
      return Ok(below.value + 1);
    }
  }

  // ------------------------------------------------------------------ ordering

  datatype Ranked = Ranked(depth: nat, member: Member)

  function Key(depth: nat, name: Bytes): seq<int> {
    [depth] + name
  }

  predicate RankLe(a: Ranked, b: Ranked) {
    Lex.AtMost(Key(a.depth, a.member.name), Key(b.depth, b.member.name))
  }

  /** The sort keys, computed in member order over one shared cache. */
  function Rank(byName: Index, depths: map<Bytes, nat>, ms: seq<Member>): Result<seq<Ranked>, Error>
    requires WellKeyed(byName) && forall m :: m in ms ==> m.name in byName
    decreases ms
  {
    if ms == [] then Ok([])
    else
      match Resolve(byName, depths, {}, ms[0])
      case Err(e) => Err(e)
      case Ok(res) =>
        After([Ranked(res.depth, ms[0])], Rank(byName, res.depths, ms[1..]))
  }

  function Members(rs: seq<Ranked>): (ms: seq<Member>)
    ensures |ms| == |rs|
    ensures forall i :: 0 <= i < |rs| ==> ms[i] == rs[i].member
  {
    seq(|rs|, i requires 0 <= i < |rs| => rs[i].member)
  }

  lemma {:induction false} ByNameKeys(ms: seq<Member>)
    ensures WellKeyed(ByName(ms))
    ensures forall n :: n in ByName(ms) ==> ByName(ms)[n] in ms
    ensures forall m :: m in ms ==> m.name in ByName(ms)
  {
    if ms != [] {
      ByNameKeys(ms[..|ms| - 1]);
      assert ms == ms[..|ms| - 1] + [ms[|ms| - 1]];
    }
  }

  function HasName(n: Bytes): Member -> bool {
    (m: Member) => m.name == n
  }

  /** The members called `n`, in archive order. */
  function Named(ms: seq<Member>, n: Bytes): seq<Member> {
    Filter(ms, HasName(n))
  }

  /** The index holds the last member of each name. */
  lemma {:induction false} ByNameIsLast(ms: seq<Member>, n: Bytes)
    ensures n in ByName(ms) <==> Named(ms, n) != []
    ensures n in ByName(ms) ==> ByName(ms)[n] == Named(ms, n)[|Named(ms, n)| - 1]
  {
    if ms != [] {
      ByNameIsLast(ms[..|ms| - 1], n);
    }
  }

  function Ordered(ms: seq<Member>): Result<seq<Member>, Error> {
    ByNameKeys(ms);
    match Rank(ByName(ms), map[], ms)
    case Err(e) => Err(e)
    case Ok(rs) => Ok(Members(Sorting.Sort(rs, RankLe)))
  }

  method OrderedMembers(ms: seq<Member>) returns (r: Result<seq<Member>, Error>)
    ensures r == Ordered(ms)
  {
    ByNameKeys(ms);
    var table := new DepthTable(ByName(ms));
    var ranked: seq<Ranked> := [];
    assert ms[0..] == ms;
    AfterNothing(Rank(ByName(ms), map[], ms));
    for i := 0 to |ms|
      invariant table.byName == ByName(ms) && table.resolving == {}
      invariant Rank(ByName(ms), map[], ms) == After(ranked, Rank(ByName(ms), table.depths, ms[i..]))
    {
      assert ms[i..][1..] == ms[i + 1..];
      var d := table.DependencyDepth(ms[i]);
      if d.Err? {
        return Err(d.error);
      }
      AfterOne(ranked, Ranked(d.value, ms[i]), Rank(ByName(ms), table.depths, ms[i + 1..]));
      ranked := ranked + [Ranked(d.value, ms[i])];
    }
    AfterAll(ranked);
    return Ok(Members(Sorting.Sort(ranked, RankLe)));
  }

  // ------------------------------------------------------------------ rewriting the archive

  predicate Supported(ms: seq<Member>) {
    forall m :: m in ms ==> !m.Kind().Unsupported?
  }

  function WriteAll(ms: seq<Member>, timestamp: int): Result<seq<Member>, Error> {
    if ms == [] then Ok([])
    else if ms[0].Kind().Unsupported? then Err(UnsupportedType(ms[0].name))
    else
      After([Written(ms[0], timestamp)], WriteAll(ms[1..], timestamp))
  }

  function Normalized(ms: seq<Member>, timestamp: int): Result<seq<Member>, Error> {
    match Ordered(ms)
    case Err(e) => Err(e)
    case Ok(ordered) => WriteAll(ordered, timestamp)
  }

  method NormalizeTar(ms: seq<Member>, timestamp: int) returns (r: Result<seq<Member>, Error>)
    ensures r == Normalized(ms, timestamp)
  {
    var ordered := OrderedMembers(ms);
    if ordered.Err? {
      return ordered;
    }
    var source, out := ordered.value, [];
    assert source[0..] == source;
    AfterNothing(WriteAll(source, timestamp));
    for i := 0 to |source|
      invariant WriteAll(source, timestamp) == After(out, WriteAll(source[i..], timestamp))
    {
      assert source[i..][1..] == source[i + 1..];
      if source[i].Kind().Unsupported? {
        return Err(UnsupportedType(source[i].name));
      }
      AfterOne(out, Written(source[i], timestamp), WriteAll(source[i + 1..], timestamp));
      out := out + [Written(source[i], timestamp)];
    }
    AfterAll(out);
    return Ok(out);
  }

  /** What is supported, by the type byte: `0`, NUL, `7` and `S` are regular files, `5` a directory, `2` a symbolic
      link and `1` a hard link; anything else is refused. */
  lemma FlagsExactly(m: Member)
    ensures m.Kind().Regular? <==> m.flag == 0x30 || m.flag == 0 || m.flag == 0x37 || m.flag == 0x53
    ensures m.Kind().Directory? <==> m.flag == 0x35
    ensures m.Kind().SymbolicLink? <==> m.flag == 0x32
    ensures m.Kind().HardLink? <==> m.flag == 0x31
  {
  }

  /** Writing succeeds exactly on supported members, and rewrites each of them in place. */
  lemma {:induction false} WriteAllOutcome(ms: seq<Member>, timestamp: int)
    ensures WriteAll(ms, timestamp).Ok? <==> Supported(ms)
    ensures Supported(ms) ==> WriteAll(ms, timestamp).value == Map(Writer(timestamp), ms)
  {
    if ms != [] {
      WriteAllOutcome(ms[1..], timestamp);
      assert ms == [ms[0]] + ms[1..];
    }
  }

  // ------------------------------------------------------------------ link chains

  /** Members that mean the same to a link chain. */
  predicate LinksAgree(a: Member, b: Member) {
    a.Kind().HardLink? == b.Kind().HardLink? && (a.Kind().HardLink? ==> a.linkname == b.linkname)
  }

  /** The members of one name are all hard links to one target, or none of them is a hard link. */
  ghost predicate Uniform(ms: seq<Member>) {
    forall a, b :: a in ms && b in ms && a.name == b.name ==> LinksAgree(a, b)
  }

  lemma IndexAgrees(ms: seq<Member>, m: Member)
    requires Uniform(ms) && m in ms
    ensures m.name in ByName(ms) && LinksAgree(ByName(ms)[m.name], m)
    ensures ByName(ms)[m.name] in ms && ByName(ms)[m.name].name == m.name
  {
    ByNameKeys(ms);
  }

  /** Following `k` hard links from `n` leads to the name `t`. */
  ghost predicate Follows(byName: Index, n: Bytes, k: nat, t: Bytes)
    decreases k
  {
    if k == 0 then n == t
    else n in byName && byName[n].Kind().HardLink? && Follows(byName, byName[n].linkname, k - 1, t)
  }

  /** The chain from `n` takes exactly `d` links to a present member that is not a hard link. */
  ghost predicate DepthIs(byName: Index, n: Bytes, d: nat)
    decreases d
  {
    n in byName &&
    if byName[n].Kind().HardLink? then d > 0 && DepthIs(byName, byName[n].linkname, d - 1) else d == 0
  }

  ghost predicate Grounded(byName: Index, n: Bytes) {
    exists d: nat :: DepthIs(byName, n, d)
  }

  ghost predicate Reaches(byName: Index, n: Bytes, t: Bytes) {
    exists k: nat :: k > 0 && Follows(byName, n, k, t)
  }

  lemma {:induction false} DepthUnique(byName: Index, n: Bytes, d: nat, e: nat)
    requires DepthIs(byName, n, d) && DepthIs(byName, n, e)
    ensures d == e
    decreases d
  {
    if d > 0 {
      DepthUnique(byName, byName[n].linkname, d - 1, e - 1);
    }
  }

  lemma {:induction false} FollowsCompose(byName: Index, a: Bytes, i: nat, b: Bytes, j: nat, c: Bytes)
    requires Follows(byName, a, i, b) && Follows(byName, b, j, c)
    ensures Follows(byName, a, i + j, c)
    decreases i
  {
    if i > 0 {
      FollowsCompose(byName, byName[a].linkname, i - 1, b, j, c);
    }
  }

  lemma {:induction false} DepthAlong(byName: Index, n: Bytes, d: nat, k: nat, t: Bytes)
    requires DepthIs(byName, n, d) && Follows(byName, n, k, t)
    ensures k <= d && DepthIs(byName, t, d - k)
    decreases k
  {
    if k > 0 {
      DepthAlong(byName, byName[n].linkname, d - 1, k - 1, t);
    }
  }

  /** What an error says about the chain from `n`. */
  ghost predicate Truthful(byName: Index, n: Bytes, e: Error) {
    match e
    case UnsupportedType(_) => false
    case MissingTarget(m, t) =>
      m in byName && byName[m].Kind().HardLink? && byName[m].linkname == t && t !in byName &&
      exists k: nat :: Follows(byName, n, k, m)
    case CyclicLink(m) =>
      Reaches(byName, m, m) && exists k: nat :: Follows(byName, n, k, m)
  }

  lemma TruthfulStep(byName: Index, n: Bytes, e: Error)
    requires n in byName && byName[n].Kind().HardLink? && Truthful(byName, byName[n].linkname, e)
    ensures Truthful(byName, n, e)
  {
    var m := e.name;
    var k: nat :| Follows(byName, byName[n].linkname, k, m);
    assert Follows(byName, n, k + 1, m);
  }

  /** A missing target or a cycle on the chain leaves it without an end. */
  lemma ErrorMeansUngrounded(byName: Index, n: Bytes, e: Error)
    requires Truthful(byName, n, e)
    ensures !Grounded(byName, n)
  {
    if Grounded(byName, n) {
      var d: nat :| DepthIs(byName, n, d);
      var k: nat :| Follows(byName, n, k, e.name);
      DepthAlong(byName, n, d, k, e.name);
      if e.CyclicLink? {
        var j: nat :| j > 0 && Follows(byName, e.name, j, e.name);
        DepthAlong(byName, e.name, d - k, j, e.name);
        DepthUnique(byName, e.name, d - k, d - k - j);
      }
    }
  }

  ghost predicate CacheRight(byName: Index, depths: map<Bytes, nat>) {
    forall n :: n in depths ==> DepthIs(byName, n, depths[n])
  }

  /** The memoised depth is the true chain length, and every error is a true one. */
  lemma {:induction false} ResolveCorrect(
    byName: Index, depths: map<Bytes, nat>, resolving: set<Bytes>, m: Member)
    requires WellKeyed(byName) && m.name in byName && LinksAgree(byName[m.name], m)
    requires CacheRight(byName, depths)
    requires forall r :: r in resolving ==> Reaches(byName, r, m.name)
    ensures match Resolve(byName, depths, resolving, m)
            case Ok(res) => DepthIs(byName, m.name, res.depth) && CacheRight(byName, res.depths)
            case Err(e) => Truthful(byName, m.name, e)
    decreases byName.Keys - resolving
  {
    if m.name in depths || !m.Kind().HardLink? {
    } else if m.name in resolving {
      assert Follows(byName, m.name, 0, m.name);
    } else if m.linkname !in byName {
      assert Follows(byName, m.name, 0, m.name);
    } else {
      forall r | r in resolving + {m.name}
        ensures Reaches(byName, r, m.linkname)
      {
        assert Follows(byName, m.linkname, 0, m.linkname);
        assert Follows(byName, m.name, 1, m.linkname);
        if r in resolving {
          var k: nat :| k > 0 && Follows(byName, r, k, m.name);
          FollowsCompose(byName, r, k, m.name, 1, m.linkname);
        }
      }
      ResolveCorrect(byName, depths, resolving + {m.name}, byName[m.linkname]);
      var below := Resolve(byName, depths, resolving + {m.name}, byName[m.linkname]);
      if below.Err? {
        TruthfulStep(byName, m.name, below.error);
      }
    }
  }

  ghost predicate RanksRight(byName: Index, rs: seq<Ranked>) {
    forall i :: 0 <= i < |rs| ==> DepthIs(byName, rs[i].member.name, rs[i].depth)
  }

  lemma {:induction false} RankCorrect(byName: Index, depths: map<Bytes, nat>, ms: seq<Member>)
    requires WellKeyed(byName) && CacheRight(byName, depths)
    requires forall m :: m in ms ==> m.name in byName && LinksAgree(byName[m.name], m)
    ensures match Rank(byName, depths, ms)
            case Ok(rs) => Members(rs) == ms && RanksRight(byName, rs)
            case Err(e) => exists m :: m in ms && Truthful(byName, m.name, e)
    decreases ms
  {
    if ms != [] {
      ResolveCorrect(byName, depths, {}, ms[0]);
      var r := Resolve(byName, depths, {}, ms[0]);
      if r.Ok? {
        RankCorrect(byName, r.value.depths, ms[1..]);
      }
    }
  }

  lemma RanksOfArchive(ms: seq<Member>)
    requires Uniform(ms)
    ensures WellKeyed(ByName(ms)) && forall m :: m in ms ==> m.name in ByName(ms)
    ensures match Rank(ByName(ms), map[], ms)
            case Ok(rs) => Members(rs) == ms && RanksRight(ByName(ms), rs)
            case Err(e) => exists m :: m in ms && Truthful(ByName(ms), m.name, e)
  {
    ByNameKeys(ms);
    forall m | m in ms
      ensures LinksAgree(ByName(ms)[m.name], m)
    {
      IndexAgrees(ms, m);
    }
    RankCorrect(ByName(ms), map[], ms);
  }

  /** Ordering succeeds exactly when every chain ends at a present member that is not a hard link;
      a reported error names a missing target or a cycle that is really on some member's chain. */
  lemma OrderedOutcome(ms: seq<Member>)
    requires Uniform(ms)
    ensures Ordered(ms).Ok? <==> forall m :: m in ms ==> Grounded(ByName(ms), m.name)
    ensures Ordered(ms).Err? ==> exists m :: m in ms && Truthful(ByName(ms), m.name, Ordered(ms).error)
  {
    var byName := ByName(ms);
    RanksOfArchive(ms);
    match Rank(byName, map[], ms)
    case Ok(rs) =>
      forall m | m in ms
        ensures Grounded(byName, m.name)
      {
        var i :| 0 <= i < |ms| && ms[i] == m;
        assert DepthIs(byName, rs[i].member.name, rs[i].depth);
      }
    case Err(e) =>
      var m :| m in ms && Truthful(byName, m.name, e);
      ErrorMeansUngrounded(byName, m.name, e);
  }
}
