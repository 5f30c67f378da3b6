/** What an archive extracts to, and what rewriting it keeps. */
module Extraction {
  import opened Wrappers
  import opened Octets
  import opened Seqs
  import opened Archive
  import Lex
  import Sorting

  // ------------------------------------------------------------------ the extractor

  datatype Node = File(content: Bytes, executable: bool) | Folder | Pointer(to: Bytes) | Other

  /** The member that created a node: its name, and how many members of that name came before it. */
  datatype Creator = Creator(name: Bytes, nth: nat)

  /** A directory entry. Two names share a node exactly when their entries carry the same creator. */
  datatype Entry = Entry(creator: Creator, node: Node)

  type Files = map<Bytes, Entry>

  function NodeOf(m: Member): Node {
    match m.Kind()
    case Regular => File(m.Content(), AnyExecute(m.mode))
    case HardLink => Other
    case Directory => Folder
    case SymbolicLink => Pointer(m.linkname)
    case Unsupported => Other
  }

  /** The entry that a member which is not a hard link makes after the members `p`. */
  function Made(p: seq<Member>, m: Member): Entry {
    Entry(Creator(m.name, |Named(p, m.name)|), NodeOf(m))
  }

  /** Extract members in order. A hard link needs its target to be there already; any other member replaces
      what its name was bound to. */
  function Extract(ms: seq<Member>): Option<Files> {
    if ms == [] then Some(map[])
    else
      var p, m := ms[..|ms| - 1], ms[|ms| - 1];
      match Extract(p)
      case None => None
      case Some(fs) =>
        if !m.Kind().HardLink? then Some(fs[m.name := Made(p, m)])
        else if m.linkname in fs then Some(fs[m.name := fs[m.linkname]])
        else None
  }

  // ------------------------------------------------------------------ the meaning of an archive

  ghost predicate EndsAt(byName: Index, n: Bytes, root: Bytes) {
    root in byName && !byName[root].Kind().HardLink? && exists k: nat :: Follows(byName, n, k, root)
  }

  /** The node of `e` comes from the last member of its creator's name. */
  ghost predicate Newest(ms: seq<Member>, e: Entry) {
    e.creator.nth + 1 == |Named(ms, e.creator.name)|
  }

  /** `e` is the node of the last member at the end of the link chain from `n`, as `node` reads it. */
  ghost predicate Bound(ms: seq<Member>, n: Bytes, e: Entry, node: Member -> Node) {
    && EndsAt(ByName(ms), n, e.creator.name)
    && Newest(ms, e)
    && e.node == node(ByName(ms)[e.creator.name])
  }

  ghost predicate MeansAs(ms: seq<Member>, fs: Files, node: Member -> Node) {
    && (forall n :: n in fs <==> n in ByName(ms))
    && (forall n :: n in fs ==> Bound(ms, n, fs[n], node))
  }

  /** Every name is bound to the node at the end of its link chain. */
  ghost predicate Means(ms: seq<Member>, fs: Files) {
    MeansAs(ms, fs, NodeOf)
  }

  lemma {:induction false} EndUnique(byName: Index, n: Bytes, k: nat, r: Bytes, j: nat, q: Bytes)
    requires Follows(byName, n, k, r) && r in byName && !byName[r].Kind().HardLink?
    requires Follows(byName, n, j, q) && q in byName && !byName[q].Kind().HardLink?
    ensures r == q
    decreases k
  {
    if k > 0 && j > 0 {
      EndUnique(byName, byName[n].linkname, k - 1, r, j - 1, q);
    }
  }

  lemma OneEnd(byName: Index, n: Bytes, r: Bytes, q: Bytes)
    requires EndsAt(byName, n, r) && EndsAt(byName, n, q)
    ensures r == q
  {
    var k: nat :| Follows(byName, n, k, r);
    var j: nat :| Follows(byName, n, j, q);
    EndUnique(byName, n, k, r, j, q);
  }

  lemma MeaningUnique(ms: seq<Member>, fs: Files, gs: Files, node: Member -> Node)
    requires MeansAs(ms, fs, node) && MeansAs(ms, gs, node)
    ensures fs == gs
  {
    forall n | n in fs
      ensures fs[n] == gs[n]
    {
      OneEnd(ByName(ms), n, fs[n].creator.name, gs[n].creator.name);
    }
    assert fs.Keys == gs.Keys;
  }

  // ------------------------------------------------------------------ which member binds a name

  /** The last of the first `i` members that is called `n`. */
  function Latest(ms: seq<Member>, i: nat, n: Bytes): (r: Option<nat>)
    requires i <= |ms|
    ensures r.Some? ==> r.value < i && ms[r.value].name == n
    ensures forall k :: (if r.Some? then r.value + 1 else 0) <= k < i ==> ms[k].name != n
  {
    if i == 0 then None else if ms[i - 1].name == n then Some(i - 1) else Latest(ms, i - 1, n)
  }

  /** No later member has the name of member `i`. */
  predicate LastAt(ms: seq<Member>, i: nat) {
    i < |ms| && Latest(ms, |ms|, ms[i].name) == Some(i)
  }

  /** The chain from member `i`, each step taken to the latest earlier member of the target's name, ends at the
      last member of a name. */
  predicate Fresh(ms: seq<Member>, i: nat)
    requires i < |ms|
    decreases i
  {
    if ms[i].Kind().HardLink? then
      var j := Latest(ms, i, ms[i].linkname);
      j.Some? && Fresh(ms, j.value)
    else LastAt(ms, i)
  }

  /** The last member called `n` has a fresh chain. */
  predicate LastFresh(ms: seq<Member>, n: Bytes) {
    Latest(ms, |ms|, n).Some? && Fresh(ms, Latest(ms, |ms|, n).value)
  }

  /** No name is left bound to a node that a later member replaces. */
  ghost predicate AllFresh(ms: seq<Member>) {
    forall n :: n in ByName(ms) ==> LastFresh(ms, n)
  }

  /** The entry that member `i` makes, or None when its chain breaks off. */
  function EntryAt(ms: seq<Member>, i: nat): Option<Entry>
    requires i < |ms|
    decreases i
  {
    if ms[i].Kind().HardLink? then
      var j := Latest(ms, i, ms[i].linkname);
      if j.Some? then EntryAt(ms, j.value) else None
    else Some(Made(ms[..i], ms[i]))
  }

  /** `fs` holds the entries of the latest members. */
  ghost predicate Latests(ms: seq<Member>, i: nat, fs: Files)
    requires i <= |ms|
  {
    forall n :: (n in fs <==> Latest(ms, i, n).Some?) &&
      (n in fs ==> EntryAt(ms, Latest(ms, i, n).value) == Some(fs[n]))
  }

  lemma {:induction false} ExtractsLatest(ms: seq<Member>, i: nat)
    requires i <= |ms| && Extract(ms[..i]).Some?
    ensures Latests(ms, i, Extract(ms[..i]).value)
  {
    if i > 0 {
      assert ms[..i][..i - 1] == ms[..i - 1];
      ExtractsLatest(ms, i - 1);
    }
  }

  lemma {:induction false} NamedNone(s: seq<Member>, n: Bytes)
    requires forall k :: 0 <= k < |s| ==> s[k].name != n
    ensures Named(s, n) == []
  {
    if s != [] { NamedNone(s[..|s| - 1], n); }
  }

  lemma NamedAround(ms: seq<Member>, i: nat)
    requires i < |ms|
    ensures var n := ms[i].name; Named(ms, n) == Named(ms[..i], n) + [ms[i]] + Named(ms[i + 1..], n)
  {
    var n := ms[i].name;
    assert ms == ms[..i] + [ms[i]] + ms[i + 1..];
    FilterConcat(ms[..i] + [ms[i]], ms[i + 1..], HasName(n));
    FilterSnoc(ms[..i], ms[i], HasName(n));
  }

  /** A member is the last of its name exactly when it makes up their number. */
  lemma LastCounts(ms: seq<Member>, i: nat)
    requires i < |ms|
    ensures var n := ms[i].name;
      |Named(ms[..i], n)| < |Named(ms, n)| && (LastAt(ms, i) <==> |Named(ms[..i], n)| + 1 == |Named(ms, n)|)
    ensures LastAt(ms, i) ==> ms[i].name in ByName(ms) && ByName(ms)[ms[i].name] == ms[i]
  {
    var n, rest := ms[i].name, ms[i + 1..];
    NamedAround(ms, i);
    ByNameIsLast(ms, n);
    if LastAt(ms, i) {
      assert forall k :: 0 <= k < |rest| ==> rest[k] == ms[i + 1 + k];
      NamedNone(rest, n);
    } else {
      var j := Latest(ms, |ms|, n).value;
      FilterMember(rest, HasName(n), rest[j - i - 1]);
    }
  }

  /** A member's entry has the creator at the end of its link chain, and the last one exactly when the chain is
      fresh. */
  lemma {:induction false} EntryBound(ms: seq<Member>, i: nat)
    requires Uniform(ms) && i < |ms| && EntryAt(ms, i).Some?
    ensures var e := EntryAt(ms, i).value;
      && EndsAt(ByName(ms), ms[i].name, e.creator.name)
      && (Newest(ms, e) <==> Fresh(ms, i))
      && (Fresh(ms, i) ==> Bound(ms, ms[i].name, e, NodeOf))
    decreases i
  {
    var byName := ByName(ms);
    assert ms[i] in ms;
    IndexAgrees(ms, ms[i]);
    if ms[i].Kind().HardLink? {
      var j := Latest(ms, i, ms[i].linkname).value;
      EntryBound(ms, j);
      var root := EntryAt(ms, i).value.creator.name;
      var k: nat :| Follows(byName, ms[j].name, k, root);
      assert Follows(byName, ms[i].name, k + 1, root);
    } else {
      LastCounts(ms, i);
      assert Follows(byName, ms[i].name, 0, ms[i].name);
    }
  }

  /** The names of an archive are those of its members. */
  lemma NamesAreLatest(ms: seq<Member>, n: Bytes)
    ensures n in ByName(ms) <==> Latest(ms, |ms|, n).Some?
  {
    ByNameKeys(ms);
    var i := Latest(ms, |ms|, n);
    if i.Some? {
      assert ms[i.value] in ms;
    }
    if n in ByName(ms) {
      assert ByName(ms)[n] in ms;
    }
  }

  lemma FreshName(ms: seq<Member>, n: Bytes)
    requires Uniform(ms) && Extract(ms).Some?
    ensures n in Extract(ms).value <==> n in ByName(ms)
    ensures n in Extract(ms).value ==>
      var e := Extract(ms).value[n];
      EndsAt(ByName(ms), n, e.creator.name) && (Newest(ms, e) <==> LastFresh(ms, n)) &&
      (LastFresh(ms, n) ==> Bound(ms, n, e, NodeOf))
  {
    assert ms[..|ms|] == ms;
    ExtractsLatest(ms, |ms|);
    NamesAreLatest(ms, n);
    if n in Extract(ms).value {
      EntryBound(ms, Latest(ms, |ms|, n).value);
    }
  }

  /** An archive that extracts, extracts to its meaning exactly when all its chains are fresh. */
  lemma FreshMeans(ms: seq<Member>)
    requires Uniform(ms) && Extract(ms).Some?
    ensures AllFresh(ms) <==> forall n :: n in Extract(ms).value ==> Newest(ms, Extract(ms).value[n])
    ensures AllFresh(ms) <==> Means(ms, Extract(ms).value)
  {
    var fs := Extract(ms).value;
    forall n
      ensures n in fs <==> n in ByName(ms)
      ensures n in fs ==> (Newest(ms, fs[n]) <==> LastFresh(ms, n))
      ensures n in fs && LastFresh(ms, n) ==> Bound(ms, n, fs[n], NodeOf)
    {
      FreshName(ms, n);
    }
    if Means(ms, fs) {
      forall n | n in ByName(ms)
        ensures LastFresh(ms, n)
      {
        assert Bound(ms, n, fs[n], NodeOf);
      }
    }
  }

  // ------------------------------------------------------------------ the order of the output

  /** Sorted by true chain length, then by name. */
  ghost predicate SortedByDepth(byName: Index, out: seq<Member>) {
    forall i, j, d: nat, e: nat ::
      0 <= i < j < |out| && DepthIs(byName, out[i].name, d) && DepthIs(byName, out[j].name, e) ==>
        Lex.AtMost(Key(d, out[i].name), Key(e, out[j].name))
  }

  /** The same members, those of one name in the same order. */
  ghost predicate SameArchive(ms: seq<Member>, out: seq<Member>) {
    Sorting.SameByKey(ms, out, NameOf())
  }

  function NameOf(): Member -> Bytes {
    (m: Member) => m.name
  }

  ghost predicate IsOrdering(ms: seq<Member>, out: seq<Member>) {
    && SameArchive(ms, out)
    && SortedByDepth(ByName(ms), out)
    && forall m :: m in ms ==> Grounded(ByName(ms), m.name)
  }

  lemma {:induction false} FilterSame<T>(s: seq<T>, p: T -> bool, q: T -> bool)
    requires forall x :: x in s ==> p(x) == q(x)
    ensures Filter(s, p) == Filter(s, q)
  {
    if s != [] { FilterSame(s[..|s| - 1], p, q); }
  }

  lemma SameArchiveNamed(ms: seq<Member>, out: seq<Member>)
    ensures SameArchive(ms, out) <==> forall n :: Named(ms, n) == Named(out, n)
  {
    forall n: Bytes
      ensures Named(ms, n) == Filter(ms, Sorting.KeyIs(NameOf(), n))
      ensures Named(out, n) == Filter(out, Sorting.KeyIs(NameOf(), n))
    {
      FilterSame(ms, HasName(n), Sorting.KeyIs(NameOf(), n));
      FilterSame(out, HasName(n), Sorting.KeyIs(NameOf(), n));
    }
  }

  /** What only depends on the members of each name. */
  lemma SameArchiveSameIndex(ms: seq<Member>, out: seq<Member>)
    requires SameArchive(ms, out)
    ensures ByName(out) == ByName(ms)
    ensures forall m :: m in ms <==> m in out
    ensures Uniform(ms) <==> Uniform(out)
    ensures Supported(ms) <==> Supported(out)
  {
    SameArchiveNamed(ms, out);
    forall m
      ensures m in ms <==> m in out
    {
      Sorting.SameByKeyMembers(ms, out, NameOf(), m);
    }
    forall n
      ensures n in ByName(out) <==> n in ByName(ms)
      ensures n in ByName(ms) ==> ByName(out)[n] == ByName(ms)[n]
    {
      ByNameIsLast(ms, n);
      ByNameIsLast(out, n);
    }
    assert ByName(out).Keys == ByName(ms).Keys;
  }

  lemma RankOrder()
    ensures Sorting.Total(RankLe) && Sorting.Transitive(RankLe)
  {
    forall a: Ranked, b: Ranked
      ensures RankLe(a, b) || RankLe(b, a)
    {
      Lex.Trichotomy(Key(a.depth, a.member.name), Key(b.depth, b.member.name));
    }
    forall a: Ranked, b: Ranked, c: Ranked | RankLe(a, b) && RankLe(b, c)
      ensures RankLe(a, c)
    {
      Lex.AtMostTransitive(Key(a.depth, a.member.name), Key(b.depth, b.member.name),
                           Key(c.depth, c.member.name));
    }
  }

  function MemberOf(): Ranked -> Member {
    (r: Ranked) => r.member
  }

  // Members of one name get one sort key, whatever the archive, because the cache never changes its mind.

  lemma {:induction false} ResolveExtends(byName: Index, depths: map<Bytes, nat>, resolving: set<Bytes>, m: Member)
    requires WellKeyed(byName) && m.name in byName && Resolve(byName, depths, resolving, m).Ok?
    ensures var res := Resolve(byName, depths, resolving, m).value;
      m.name in res.depths && res.depths[m.name] == res.depth &&
      forall n :: n in depths ==> n in res.depths && res.depths[n] == depths[n]
    decreases byName.Keys - resolving
  {
    if m.name !in depths && m.Kind().HardLink? {
      ResolveExtends(byName, depths, resolving + {m.name}, byName[m.linkname]);
    }
  }

  lemma {:induction false} RankedOnce(byName: Index, depths: map<Bytes, nat>, ms: seq<Member>, n: Bytes)
    requires WellKeyed(byName) && (forall m :: m in ms ==> m.name in byName) && Rank(byName, depths, ms).Ok?
    ensures Members(Rank(byName, depths, ms).value) == ms
    ensures var rs := Rank(byName, depths, ms).value;
      && (forall i :: 0 <= i < |rs| && rs[i].member.name == n && n in depths ==> rs[i].depth == depths[n])
      && (forall i, j :: 0 <= i < |rs| && 0 <= j < |rs| && rs[i].member.name == rs[j].member.name == n ==>
            rs[i].depth == rs[j].depth)
    decreases ms
  {
    if ms != [] {
      var res := Resolve(byName, depths, {}, ms[0]).value;
      ResolveExtends(byName, depths, {}, ms[0]);
      RankedOnce(byName, res.depths, ms[1..], n);
      var rest := Rank(byName, res.depths, ms[1..]).value;
      assert Rank(byName, depths, ms).value == [Ranked(res.depth, ms[0])] + rest;
    }
  }

  function RankNamed(n: Bytes): Ranked -> bool {
    (r: Ranked) => r.member.name == n
  }

  /** Whatever the archive, ordering keeps its members, and those of one name in their order. */
  lemma OrderingKeepsMembers(ms: seq<Member>)
    requires Ordered(ms).Ok?
    ensures SameArchive(ms, Ordered(ms).value)
  {
    var byName, out := ByName(ms), Ordered(ms).value;
    ByNameKeys(ms);
    var rs := Rank(byName, map[], ms).value;
    var sorted := Sorting.Sort(rs, RankLe);
    assert out == Map(MemberOf(), sorted);
    forall n: Bytes
      ensures Named(ms, n) == Named(out, n)
    {
      RankedOnce(byName, map[], ms, n);
      assert ms == Map(MemberOf(), rs);
      forall x, y | x in rs && y in rs && RankNamed(n)(x) && RankNamed(n)(y)
        ensures RankLe(x, y)
      {
        Lex.Irreflexive(Key(x.depth, n));
      }
      Sorting.SortStable(rs, RankLe, RankNamed(n));
      FilterMap(MemberOf(), rs, RankNamed(n), HasName(n));
      FilterMap(MemberOf(), sorted, RankNamed(n), HasName(n));
    }
    SameArchiveNamed(ms, out);
  }

  /** The output holds the members sorted by true chain length, then by name. */
  lemma OrderedIsOrdering(ms: seq<Member>)
    requires Uniform(ms) && Ordered(ms).Ok?
    ensures IsOrdering(ms, Ordered(ms).value)
  {
    var byName, out := ByName(ms), Ordered(ms).value;
    OrderingKeepsMembers(ms);
    RanksOfArchive(ms);
    OrderedOutcome(ms);
    var rs := Rank(byName, map[], ms).value;
    SortedRanks(byName, rs);
  }

  lemma SortedRanks(byName: Index, rs: seq<Ranked>)
    requires RanksRight(byName, rs)
    ensures SortedByDepth(byName, Members(Sorting.Sort(rs, RankLe)))
  {
    var sorted := Sorting.Sort(rs, RankLe);
    var out := Members(sorted);
    RankOrder();
    Sorting.SortMultiset(rs, RankLe);
    Sorting.SortSorted(rs, RankLe);
    forall i | 0 <= i < |sorted|
      ensures DepthIs(byName, sorted[i].member.name, sorted[i].depth)
    {
      assert sorted[i] in multiset(sorted);
      assert sorted[i] in rs;
    }
    forall i, j, d: nat, e: nat |
      0 <= i < j < |out| && DepthIs(byName, out[i].name, d) && DepthIs(byName, out[j].name, e)
      ensures Lex.AtMost(Key(d, out[i].name), Key(e, out[j].name))
    {
      DepthUnique(byName, out[i].name, d, sorted[i].depth);
      DepthUnique(byName, out[j].name, e, sorted[j].depth);
      assert RankLe(sorted[i], sorted[j]);
    }
  }

  // ------------------------------------------------------------------ what rewriting keeps

  lemma TargetOf(ms: seq<Member>, m: Member) returns (target: Member, d: nat)
    requires Uniform(ms) && m in ms && m.Kind().HardLink? && Grounded(ByName(ms), m.name)
    ensures target in ms && target.name == m.linkname
    ensures d > 0 && DepthIs(ByName(ms), m.name, d) && DepthIs(ByName(ms), m.linkname, d - 1)
  {
    IndexAgrees(ms, m);
    ByNameKeys(ms);
    d :| DepthIs(ByName(ms), m.name, d);
    assert DepthIs(ByName(ms), m.linkname, d - 1);
    target := ByName(ms)[m.linkname];
  }

  /** The smaller key comes first. */
  lemma KeyFirst(byName: Index, out: seq<Member>, i: nat, d: nat, j: nat, e: nat)
    requires SortedByDepth(byName, out) && i < |out| && j < |out|
    requires DepthIs(byName, out[i].name, d) && DepthIs(byName, out[j].name, e)
    requires Lex.Less(Key(d, out[i].name), Key(e, out[j].name))
    ensures i < j
  {
    if i == j {
      DepthUnique(byName, out[i].name, d, e);
      Lex.Irreflexive(Key(d, out[i].name));
    }
  }

  lemma TargetFirst(ms: seq<Member>, out: seq<Member>, i: nat, j: nat, d: nat)
    requires SortedByDepth(ByName(ms), out) && i < |out| && j < |out| && out[j].name == out[i].linkname
    requires d > 0 && DepthIs(ByName(ms), out[i].name, d) && DepthIs(ByName(ms), out[i].linkname, d - 1)
    ensures j < i
  {
    assert Lex.Less(Key(d - 1, out[j].name), Key(d, out[i].name));
    KeyFirst(ByName(ms), out, j, d - 1, i, d);
  }

  /** In the output every hard link comes after its target: after every member of that name, and there is one. */
  lemma TargetsFirst(ms: seq<Member>, out: seq<Member>, i: nat)
    requires Uniform(ms) && IsOrdering(ms, out)
    requires i < |out| && out[i].Kind().HardLink?
    ensures exists j :: 0 <= j < |out| && out[j].name == out[i].linkname
    ensures forall j :: 0 <= j < |out| && out[j].name == out[i].linkname ==> j < i
  {
    SameArchiveSameIndex(ms, out);
    var target, d := TargetOf(ms, out[i]);
    var k :| 0 <= k < |out| && out[k] == target;
    forall j | 0 <= j < |out| && out[j].name == out[i].linkname
      ensures j < i
    {
      TargetFirst(ms, out, i, j, d);
    }
  }

  /** A directory comes before every member whose name extends its own. */
  lemma DirectoriesFirst(ms: seq<Member>, out: seq<Member>, i: nat, j: nat)
    requires Uniform(ms) && IsOrdering(ms, out)
    requires i < |out| && j < |out| && out[i].Kind().Directory? && out[i].name < out[j].name
    ensures i < j
  {
    var byName := ByName(ms);
    SameArchiveSameIndex(ms, out);
    assert out[i] in ms && out[j] in ms;
    IndexAgrees(ms, out[i]);
    var e: nat :| DepthIs(byName, out[j].name, e);
    Lex.PrefixFirst(out[i].name, out[j].name);
    assert Key(0, out[i].name)[1..] == out[i].name && Key(e, out[j].name)[1..] == out[j].name;
    KeyFirst(byName, out, i, 0, j, e);
  }

  /** The output order without its sort key: the shorter chain first, then the name that is a prefix of the other
      or has the smaller byte where they first differ. */
  lemma OutputOrder(ms: seq<Member>, t: int, i: nat, j: nat, d: nat, e: nat)
    requires Uniform(ms) && Normalized(ms, t).Ok? && i < j < |Normalized(ms, t).value|
    requires DepthIs(ByName(ms), Normalized(ms, t).value[i].name, d)
    requires DepthIs(ByName(ms), Normalized(ms, t).value[j].name, e)
    ensures var a, b := Normalized(ms, t).value[i].name, Normalized(ms, t).value[j].name;
      d < e || (d == e && (a <= b || exists k: nat :: k < |a| && k < |b| && a[..k] == b[..k] && a[k] < b[k]))
  {
    var out := Ordered(ms).value;
    OutputIsRewriting(ms, t);
    OrderedIsOrdering(ms);
    KeyAtMost(d, out[i].name, e, out[j].name);
  }

  lemma KeyAtMost(d: nat, a: Bytes, e: nat, b: Bytes)
    requires Lex.AtMost(Key(d, a), Key(e, b))
    ensures d < e || (d == e && (a <= b || exists k: nat :: k < |a| && k < |b| && a[..k] == b[..k] && a[k] < b[k]))
  {
    assert Key(d, a)[1..] == a && Key(e, b)[1..] == b;
    Lex.Trichotomy(a, b);
    Lex.LessExactly(a, b);
    if k: nat :| Lex.SmallerAt(a, b, k) {
      assert a[..k] == b[..k];
    }
  }

  /** Every hard link comes after all members of its target's name, and there is one. */
  ghost predicate TargetsBefore(ms: seq<Member>) {
    forall i :: 0 <= i < |ms| && ms[i].Kind().HardLink? ==>
      && (exists j :: 0 <= j < |ms| && ms[j].name == ms[i].linkname)
      && (forall j :: 0 <= j < |ms| && ms[j].name == ms[i].linkname ==> j < i)
  }

  lemma {:induction false} ExtractSucceeds(ms: seq<Member>, i: nat)
    requires TargetsBefore(ms) && i <= |ms|
    ensures Extract(ms[..i]).Some?
    ensures forall j :: 0 <= j < i ==> ms[j].name in Extract(ms[..i]).value
  {
    if i > 0 {
      var m := ms[i - 1];
      ExtractSucceeds(ms, i - 1);
      assert ms[..i][..i - 1] == ms[..i - 1] && ms[..i][i - 1] == m;
      if m.Kind().HardLink? {
        var j :| 0 <= j < |ms| && ms[j].name == m.linkname;
        assert j < i - 1 && m.linkname in Extract(ms[..i - 1]).value;
      }
    }
  }

  lemma {:induction false} LatestIsLast(ms: seq<Member>, i: nat, n: Bytes)
    requires i <= |ms| && forall j :: i <= j < |ms| ==> ms[j].name != n
    ensures Latest(ms, i, n) == Latest(ms, |ms|, n)
  {
    var j, k := Latest(ms, i, n), Latest(ms, |ms|, n);
  }

  lemma {:induction false} TargetsBeforeFresh(ms: seq<Member>, i: nat)
    requires TargetsBefore(ms) && i < |ms|
    ensures ms[i].Kind().HardLink? || LastAt(ms, i) ==> Fresh(ms, i)
    decreases i
  {
    if ms[i].Kind().HardLink? {
      var n := ms[i].linkname;
      var j := Latest(ms, i, n);
      LatestIsLast(ms, i, n);
      TargetsBeforeFresh(ms, j.value);
    }
  }

  /** With all targets first nothing is bound to a node that is replaced later. */
  lemma TargetsBeforeAllFresh(ms: seq<Member>)
    requires TargetsBefore(ms)
    ensures Extract(ms).Some? && AllFresh(ms)
  {
    ExtractSucceeds(ms, |ms|);
    assert ms[..|ms|] == ms;
    forall n | n in ByName(ms)
      ensures LastFresh(ms, n)
    {
      NamesAreLatest(ms, n);
      TargetsBeforeFresh(ms, Latest(ms, |ms|, n).value);
    }
  }

  lemma {:induction false} WrittenIndex(ms: seq<Member>, t: int)
    ensures ByName(Map(Writer(t), ms)).Keys == ByName(ms).Keys
    ensures forall n :: n in ByName(ms) ==> ByName(Map(Writer(t), ms))[n] == Written(ByName(ms)[n], t)
  {
    if ms != [] {
      var p, m := ms[..|ms| - 1], ms[|ms| - 1];
      WrittenIndex(p, t);
      assert Map(Writer(t), ms) == Map(Writer(t), p) + [Written(m, t)];
      assert Map(Writer(t), ms)[..|ms| - 1] == Map(Writer(t), p);
    }
  }

  lemma WrittenNamed(ms: seq<Member>, t: int, n: Bytes)
    ensures Named(Map(Writer(t), ms), n) == Map(Writer(t), Named(ms, n))
  {
    FilterMap(Writer(t), ms, HasName(n), HasName(n));
  }

  lemma WrittenUniform(ms: seq<Member>, t: int)
    ensures Uniform(Map(Writer(t), ms)) <==> Uniform(ms)
    ensures Supported(Map(Writer(t), ms)) <==> Supported(ms)
  {
    var w := Map(Writer(t), ms);
    forall m | m in ms
      ensures Written(m, t) in w
    {
      var i :| 0 <= i < |ms| && ms[i] == m;
      assert w[i] in w;
    }
    forall m' | m' in w
      ensures exists m :: m in ms && m' == Written(m, t)
    {
      var i :| 0 <= i < |w| && w[i] == m';
      assert ms[i] in ms;
    }
  }

  lemma WrittenSameArchive(ms: seq<Member>, out: seq<Member>, t: int)
    requires SameArchive(ms, out)
    ensures SameArchive(Map(Writer(t), ms), Map(Writer(t), out))
  {
    SameArchiveNamed(ms, out);
    forall n: Bytes
      ensures Named(Map(Writer(t), ms), n) == Named(Map(Writer(t), out), n)
    {
      WrittenNamed(ms, t, n);
      WrittenNamed(out, t, n);
    }
    SameArchiveNamed(Map(Writer(t), ms), Map(Writer(t), out));
  }

  lemma {:induction false} WrittenDepth(ms: seq<Member>, t: int, n: Bytes, d: nat)
    ensures DepthIs(ByName(Map(Writer(t), ms)), n, d) <==> DepthIs(ByName(ms), n, d)
    decreases d
  {
    WrittenIndex(ms, t);
    if n in ByName(ms) && ByName(ms)[n].Kind().HardLink? && d > 0 {
      WrittenDepth(ms, t, ByName(ms)[n].linkname, d - 1);
    }
  }

  lemma {:induction false} WrittenFollows(ms: seq<Member>, t: int, n: Bytes, k: nat, r: Bytes)
    ensures Follows(ByName(Map(Writer(t), ms)), n, k, r) <==> Follows(ByName(ms), n, k, r)
    decreases k
  {
    WrittenIndex(ms, t);
    if k > 0 && n in ByName(ms) {
      WrittenFollows(ms, t, ByName(ms)[n].linkname, k - 1, r);
    }
  }

  lemma WrittenEnds(ms: seq<Member>, t: int, n: Bytes, root: Bytes)
    ensures EndsAt(ByName(Map(Writer(t), ms)), n, root) <==> EndsAt(ByName(ms), n, root)
  {
    WrittenIndex(ms, t);
    forall k: nat
      ensures Follows(ByName(Map(Writer(t), ms)), n, k, root) <==> Follows(ByName(ms), n, k, root)
    {
      WrittenFollows(ms, t, n, k, root);
    }
  }

  // ------------------------------------------------------------------ sparse members

  /** A sparse member with content: rewriting drops the map that says where the content is. */
  predicate Lost(m: Member) {
    m.flag == SPARSE_FLAG && m.Content() != []
  }

  /** What is left of a member's node after rewriting. */
  function Surviving(m: Member): Node {
    if Lost(m) then File([], AnyExecute(m.mode)) else NodeOf(m)
  }

  lemma NodeOfWritten(m: Member, t: int)
    ensures NodeOf(Written(m, t)) == Surviving(m)
    ensures Surviving(m) == NodeOf(m) <==> !Lost(m)
  {
    assert AnyExecute(MODE_755) && !AnyExecute(MODE_644);
  }

  /** No name is bound to a sparse member with content. */
  ghost predicate KeepsContent(ms: seq<Member>) {
    forall n :: n in ByName(ms) ==> !Lost(ByName(ms)[n])
  }

  lemma WrittenMeans(ms: seq<Member>, t: int, fs: Files)
    requires Means(Map(Writer(t), ms), fs)
    ensures MeansAs(ms, fs, Surviving)
  {
    WrittenIndex(ms, t);
    forall n
      ensures n in fs <==> n in ByName(ms)
      ensures n in fs ==> Bound(ms, n, fs[n], Surviving)
    {
      assert n in ByName(Map(Writer(t), ms)) <==> n in ByName(Map(Writer(t), ms)).Keys;
      if n in fs {
        var root := fs[n].creator.name;
        WrittenEnds(ms, t, n, root);
        WrittenNamed(ms, t, root);
        NodeOfWritten(ByName(ms)[root], t);
      }
    }
  }

  /** Surviving nodes are the archive's meaning exactly when no content is lost. */
  lemma SurvivorsMean(ms: seq<Member>, fs: Files)
    requires MeansAs(ms, fs, Surviving)
    ensures Means(ms, fs) <==> KeepsContent(ms)
  {
    if KeepsContent(ms) {
      forall n | n in fs
        ensures Bound(ms, n, fs[n], NodeOf)
      {
        NodeOfWritten(ByName(ms)[fs[n].creator.name], 0);
      }
    } else {
      var n :| n in ByName(ms) && Lost(ByName(ms)[n]);
      assert Follows(ByName(ms), n, 0, n);
      OneEnd(ByName(ms), n, n, fs[n].creator.name);
      NodeOfWritten(ByName(ms)[n], 0);
      assert !Bound(ms, n, fs[n], NodeOf);
    }
  }

  /** Rewriting commutes with ordering. */
  lemma WrittenOrdering(ms: seq<Member>, out: seq<Member>, t: int)
    requires IsOrdering(ms, out)
    ensures IsOrdering(Map(Writer(t), ms), Map(Writer(t), out))
  {
    var w, wout := Map(Writer(t), ms), Map(Writer(t), out);
    WrittenSameArchive(ms, out, t);
    forall i, j, d: nat, e: nat | 0 <= i < j < |wout| &&
      DepthIs(ByName(w), wout[i].name, d) && DepthIs(ByName(w), wout[j].name, e)
      ensures Lex.AtMost(Key(d, wout[i].name), Key(e, wout[j].name))
    {
      WrittenDepth(ms, t, out[i].name, d);
      WrittenDepth(ms, t, out[j].name, e);
    }
    forall m | m in w
      ensures Grounded(ByName(w), m.name)
    {
      var i :| 0 <= i < |w| && w[i] == m;
      assert ms[i] in ms;
      var d: nat :| DepthIs(ByName(ms), m.name, d);
      WrittenDepth(ms, t, m.name, d);
    }
  }

  lemma OutputIsRewriting(ms: seq<Member>, t: int)
    requires Normalized(ms, t).Ok?
    ensures Ordered(ms).Ok? && Normalized(ms, t).value == Map(Writer(t), Ordered(ms).value)
    ensures SameArchive(ms, Ordered(ms).value) && Supported(ms)
  {
    WriteAllOutcome(Ordered(ms).value, t);
    OrderingKeepsMembers(ms);
    SameArchiveSameIndex(ms, Ordered(ms).value);
  }

  lemma OutputExtracts(ms: seq<Member>, t: int)
    requires Uniform(ms) && Normalized(ms, t).Ok?
    ensures Extract(Normalized(ms, t).value).Some? && AllFresh(Normalized(ms, t).value)
  {
    var ordered, out := Ordered(ms).value, Normalized(ms, t).value;
    OutputIsRewriting(ms, t);
    OrderedIsOrdering(ms);
    forall i | 0 <= i < |out| && out[i].Kind().HardLink?
      ensures exists j :: 0 <= j < |out| && out[j].name == out[i].linkname
      ensures forall j :: 0 <= j < |out| && out[j].name == out[i].linkname ==> j < i
    {
      TargetsFirst(ms, ordered, i);
      var j :| 0 <= j < |ordered| && ordered[j].name == ordered[i].linkname;
      assert out[j].name == out[i].linkname;
    }
    TargetsBeforeAllFresh(out);
  }

  lemma SameArchiveMeans(ms: seq<Member>, out: seq<Member>, fs: Files, node: Member -> Node)
    requires SameArchive(ms, out) && MeansAs(out, fs, node)
    ensures MeansAs(ms, fs, node)
  {
    SameArchiveSameIndex(ms, out);
    SameArchiveNamed(ms, out);
    forall n | n in fs
      ensures Bound(ms, n, fs[n], node)
    {
      assert Bound(out, n, fs[n], node);
      assert Named(ms, fs[n].creator.name) == Named(out, fs[n].creator.name);
    }
  }

  /** The rewritten archive extracts, each name bound to the last node at the end of its link chain, with what
      survives of it. */
  lemma OutputMeaning(ms: seq<Member>, t: int)
    requires Uniform(ms) && Normalized(ms, t).Ok?
    ensures Extract(Normalized(ms, t).value).Some?
    ensures MeansAs(ms, Extract(Normalized(ms, t).value).value, Surviving)
  {
    var ordered, out := Ordered(ms).value, Normalized(ms, t).value;
    OutputIsRewriting(ms, t);
    OutputExtracts(ms, t);
    SameArchiveSameIndex(ms, ordered);
    WrittenUniform(ordered, t);
    FreshMeans(out);
    WrittenMeans(ordered, t, Extract(out).value);
    SameArchiveMeans(ms, ordered, Extract(out).value, Surviving);
  }

  /** The rewritten archive extracts to exactly what the original means, unless it has a sparse member with
      content; and to what the original extracts to exactly when, besides, the original binds no name to a node
      that a later member replaces. */
  lemma NormalizingPreservesExtraction(ms: seq<Member>, t: int)
    requires Uniform(ms) && Normalized(ms, t).Ok?
    ensures Extract(Normalized(ms, t).value).Some?
    ensures Means(ms, Extract(Normalized(ms, t).value).value) <==> KeepsContent(ms)
    ensures Extract(ms).Some? ==>
      (Extract(Normalized(ms, t).value) == Extract(ms) <==> AllFresh(ms) && KeepsContent(ms))
  {
    OutputMeaning(ms, t);
    var gs := Extract(Normalized(ms, t).value).value;
    SurvivorsMean(ms, gs);
    if Extract(ms).Some? {
      FreshMeans(ms);
      if AllFresh(ms) && KeepsContent(ms) {
        MeaningUnique(ms, Extract(ms).value, gs, NodeOf);
      }
    }
  }

  // ------------------------------------------------------------------ fresh archives

  /** No hard link bears a repeated name or targets one. Other members may repeat names. */
  ghost predicate PlainRepeats(ms: seq<Member>) {
    forall m :: m in ms && m.Kind().HardLink? ==> |Named(ms, m.name)| == 1 && |Named(ms, m.linkname)| <= 1
  }

  lemma NamedTwice(ms: seq<Member>, i: nat, j: nat)
    requires i < j < |ms| && ms[i].name == ms[j].name
    ensures |Named(ms, ms[i].name)| >= 2
  {
    var rest := ms[i + 1..];
    NamedAround(ms, i);
    FilterMember(rest, HasName(ms[i].name), rest[j - i - 1]);
  }

  /** When only other members repeat names, extracting is enough. */
  lemma PlainRepeatsAreFresh(ms: seq<Member>)
    requires PlainRepeats(ms) && Extract(ms).Some?
    ensures Uniform(ms) && AllFresh(ms)
  {
    forall a, b | a in ms && b in ms && a.name == b.name
      ensures LinksAgree(a, b)
    {
      var i :| 0 <= i < |ms| && ms[i] == a;
      var j :| 0 <= j < |ms| && ms[j] == b;
      if i < j { NamedTwice(ms, i, j); }
      if j < i { NamedTwice(ms, j, i); }
    }
    forall i | 0 <= i < |ms| && ms[i].Kind().HardLink?
      ensures exists j :: 0 <= j < |ms| && ms[j].name == ms[i].linkname
      ensures forall j :: 0 <= j < |ms| && ms[j].name == ms[i].linkname ==> j < i
    {
      assert ms[i] in ms;
      TargetsEarlier(ms, i);
      var k :| 0 <= k < i && ms[k].name == ms[i].linkname;
      forall j | 0 <= j < |ms| && ms[j].name == ms[i].linkname
        ensures j == k
      {
        if j < k { NamedTwice(ms, j, k); }
        if k < j { NamedTwice(ms, k, j); }
      }
    }
    TargetsBeforeAllFresh(ms);
  }

  lemma {:induction false} ExtractsAfter(p: seq<Member>, ms: seq<Member>)
    requires Extract(p).Some? && Extract(ms).Some?
    ensures Extract(p + ms).Some? && Extract(ms).value.Keys <= Extract(p + ms).value.Keys
  {
    if ms == [] {
      assert p + ms == p;
    } else {
      ExtractsAfter(p, ms[..|ms| - 1]);
      assert (p + ms)[..|p + ms| - 1] == p + ms[..|ms| - 1];
    }
  }

  lemma {:induction false} LatestAfter(p: seq<Member>, ms: seq<Member>, i: nat, n: Bytes)
    requires i <= |ms| && Latest(ms, i, n).Some?
    ensures Latest(p + ms, |p| + i, n) == Some(|p| + Latest(ms, i, n).value)
  {
    if ms[i - 1].name != n {
      LatestAfter(p, ms, i - 1, n);
    }
  }

  lemma {:induction false} FreshAfter(p: seq<Member>, ms: seq<Member>, i: nat)
    requires i < |ms| && Fresh(ms, i)
    ensures Fresh(p + ms, |p| + i)
    decreases i
  {
    if ms[i].Kind().HardLink? {
      LatestAfter(p, ms, i, ms[i].linkname);
      FreshAfter(p, ms, Latest(ms, i, ms[i].linkname).value);
    } else {
      LatestAfter(p, ms, |ms|, ms[i].name);
    }
  }

  /** A tree appended a second time, hard links included, leaves an archive as good as it was. */
  lemma AppendedTwice(ms: seq<Member>)
    requires Uniform(ms) && Extract(ms).Some? && AllFresh(ms)
    ensures Uniform(ms + ms) && Extract(ms + ms).Some? && AllFresh(ms + ms)
  {
    ExtractsAfter(ms, ms);
    assert forall m :: m in ms + ms <==> m in ms;
    forall n | n in ByName(ms + ms)
      ensures LastFresh(ms + ms, n)
    {
      ByNameKeys(ms);
      ByNameKeys(ms + ms);
      assert ByName(ms + ms)[n] in ms;
      FreshAppended(ms, ms, n);
    }
  }

  lemma FreshAppended(p: seq<Member>, ms: seq<Member>, n: Bytes)
    requires LastFresh(ms, n)
    ensures LastFresh(p + ms, n)
  {
    LatestAfter(p, ms, |ms|, n);
    FreshAfter(p, ms, Latest(ms, |ms|, n).value);
  }

  // ------------------------------------------------------------------ archives that are accepted

  lemma {:induction false} RankOfExtractable(byName: Index, depths: map<Bytes, nat>, ms: seq<Member>, i: nat)
    requires WellKeyed(byName) && (forall m :: m in ms ==> m.name in byName) && i <= |ms|
    requires Extract(ms).Some? && forall j :: 0 <= j < i ==> ms[j].name in depths
    ensures Rank(byName, depths, ms[i..]).Ok?
    decreases |ms| - i
  {
    if i < |ms| {
      var m := ms[i];
      assert m in ms && ms[i..][0] == m && ms[i..][1..] == ms[i + 1..];
      if m.Kind().HardLink? {
        TargetsEarlier(ms, i);
        var j :| 0 <= j < i && ms[j].name == m.linkname;
        assert ms[j] in ms;
      }
      var r := Resolve(byName, depths, {}, m);
      ResolveExtends(byName, depths, {}, m);
      RankOfExtractable(byName, r.value.depths, ms, i + 1);
    }
  }

  lemma {:induction false} PrefixExtracts(ms: seq<Member>, i: nat)
    requires Extract(ms).Some? && i <= |ms|
    ensures Extract(ms[..i]).Some?
    decreases |ms| - i
  {
    if i == |ms| {
      assert ms[..i] == ms;
    } else {
      PrefixExtracts(ms, i + 1);
      assert ms[..i + 1][..i] == ms[..i];
    }
  }

  lemma TargetsEarlier(ms: seq<Member>, i: nat)
    requires Extract(ms).Some? && i < |ms| && ms[i].Kind().HardLink?
    ensures exists j :: 0 <= j < i && ms[j].name == ms[i].linkname
  {
    PrefixExtracts(ms, i + 1);
    PrefixExtracts(ms, i);
    assert ms[..i + 1][..i] == ms[..i];
    ExtractsLatest(ms, i);
    assert Latest(ms, i, ms[i].linkname).Some?;
  }

  /** An archive of supported members that extracts is never refused, whatever names it repeats. */
  lemma ExtractableIsNormalizable(ms: seq<Member>, t: int)
    requires Supported(ms) && Extract(ms).Some?
    ensures Normalized(ms, t).Ok?
  {
    ByNameKeys(ms);
    assert ms[0..] == ms;
    RankOfExtractable(ByName(ms), map[], ms, 0);
    OrderingKeepsMembers(ms);
    SameArchiveSameIndex(ms, Ordered(ms).value);
    WriteAllOutcome(Ordered(ms).value, t);
  }

  // ------------------------------------------------------------------ the normal form is canonical

  ghost predicate DepthLe(byName: Index, a: Member, b: Member) {
    forall d: nat, e: nat :: DepthIs(byName, a.name, d) && DepthIs(byName, b.name, e) ==>
      Lex.AtMost(Key(d, a.name), Key(e, b.name))
  }

  /** An archive has one ordering. */
  lemma OrderingUnique(ms: seq<Member>, out: seq<Member>, out': seq<Member>)
    requires IsOrdering(ms, out) && IsOrdering(ms, out')
    ensures out == out'
  {
    var byName := ByName(ms);
    ghost var le := (a: Member, b: Member) => DepthLe(byName, a, b);
    SameArchiveSameIndex(ms, out);
    forall x, y | x in out && y in out && le(x, y) && le(y, x)
      ensures x.name == y.name
    {
      assert x in ms && y in ms;
      var d: nat :| DepthIs(byName, x.name, d);
      var e: nat :| DepthIs(byName, y.name, e);
      Lex.Trichotomy(Key(d, x.name), Key(e, y.name));
      assert Key(d, x.name)[1..] == x.name && Key(e, y.name)[1..] == y.name;
    }
    Sorting.StableListing(out, out', le, NameOf());
  }

  lemma SameArchiveSameOrder(ms: seq<Member>, ms': seq<Member>)
    requires Uniform(ms) && SameArchive(ms, ms')
    ensures Ordered(ms).Ok? <==> Ordered(ms').Ok?
    ensures Ordered(ms).Ok? ==> Ordered(ms) == Ordered(ms')
  {
    SameArchiveSameIndex(ms, ms');
    OrderedOutcome(ms);
    OrderedOutcome(ms');
    if Ordered(ms).Ok? {
      OrderedIsOrdering(ms);
      OrderedIsOrdering(ms');
      OrderingUnique(ms, Ordered(ms).value, Ordered(ms').value);
    }
  }

  lemma WrittenOrdered(ms: seq<Member>, t: int)
    requires Uniform(ms)
    ensures Ordered(Map(Writer(t), ms)).Ok? <==> Ordered(ms).Ok?
    ensures Ordered(ms).Ok? ==> Ordered(Map(Writer(t), ms)).value == Map(Writer(t), Ordered(ms).value)
  {
    var w := Map(Writer(t), ms);
    WrittenIndex(ms, t);
    WrittenUniform(ms, t);
    OrderedOutcome(ms);
    OrderedOutcome(w);
    if Ordered(ms).Ok? {
      OrderedIsOrdering(ms);
      WrittenOrdering(ms, Ordered(ms).value, t);
      OrderedIsOrdering(w);
      OrderingUnique(w, Ordered(w).value, Map(Writer(t), Ordered(ms).value));
    } else {
      var m :| m in ms && !Grounded(ByName(ms), m.name);
      var i :| 0 <= i < |ms| && ms[i] == m;
      assert w[i] in w;
      forall d: nat
        ensures !DepthIs(ByName(w), m.name, d)
      {
        WrittenDepth(ms, t, m.name, d);
      }
    }
  }

  /** Two archives normalise to the same members exactly when, name by name, they agree in
      everything that is written; members of different names may come in any order. */
  lemma NormalFormIsCanonical(ms: seq<Member>, ms': seq<Member>, t: int)
    requires Uniform(ms) && Normalized(ms, t).Ok?
    ensures Normalized(ms, t) == Normalized(ms', t)
       <==> SameArchive(Map(Writer(t), ms), Map(Writer(t), ms'))
  {
    var w, w' := Map(Writer(t), ms), Map(Writer(t), ms');
    OutputIsRewriting(ms, t);
    WrittenSameArchive(ms, Ordered(ms).value, t);
    if Normalized(ms, t) == Normalized(ms', t) {
      OutputIsRewriting(ms', t);
      WrittenSameArchive(ms', Ordered(ms').value, t);
    }
    if SameArchive(w, w') {
      SameWrittenSameOutput(ms, ms', t);
    }
  }

  lemma SameWrittenSameOutput(ms: seq<Member>, ms': seq<Member>, t: int)
    requires Uniform(ms) && Normalized(ms, t).Ok?
    requires SameArchive(Map(Writer(t), ms), Map(Writer(t), ms'))
    ensures Normalized(ms, t) == Normalized(ms', t)
  {
    var w, w' := Map(Writer(t), ms), Map(Writer(t), ms');
    OutputIsRewriting(ms, t);
    SameArchiveSameIndex(w, w');
    WrittenUniform(ms, t);
    WrittenUniform(ms', t);
    SameArchiveSameOrder(w, w');
    WrittenOrdered(ms, t);
    WrittenOrdered(ms', t);
    OrderingKeepsMembers(ms');
    SameArchiveSameIndex(ms', Ordered(ms').value);
    WriteAllOutcome(Ordered(ms').value, t);
  }

  /** For distinct names, agreeing name by name is being a permutation. */
  lemma DistinctArchivesPermute(ms: seq<Member>, ms': seq<Member>)
    requires Distinct(Map(NameOf(), ms)) && Distinct(Map(NameOf(), ms'))
    ensures Uniform(ms)
    ensures SameArchive(ms, ms') <==> ToSet(ms) == ToSet(ms')
  {
    forall n: Bytes
      ensures |Named(ms, n)| <= 1 && |Named(ms', n)| <= 1
    {
      NamedOnce(ms, n);
      NamedOnce(ms', n);
    }
    forall a, b | a in ms && b in ms && a.name == b.name
      ensures a == b
    {
      FilterMember(ms, HasName(a.name), a);
      FilterMember(ms, HasName(a.name), b);
    }
    SameArchiveNamed(ms, ms');
    if SameArchive(ms, ms') {
      SameArchiveSameIndex(ms, ms');
    }
    if ToSet(ms) == ToSet(ms') {
      forall n: Bytes
        ensures Named(ms, n) == Named(ms', n)
      {
        SameSingles(ms, ms', n);
      }
    }
  }

  lemma {:induction false} NamedOnce(ms: seq<Member>, n: Bytes)
    requires Distinct(Map(NameOf(), ms))
    ensures |Named(ms, n)| <= 1
  {
    if ms != [] {
      var p, m := ms[..|ms| - 1], ms[|ms| - 1];
      assert forall i :: 0 <= i < |ms| ==> Map(NameOf(), ms)[i] == ms[i].name;
      NamedOnce(p, n);
      if Named(p, n) != [] {
        var x := Named(p, n)[0];
        FilterMember(p, HasName(n), x);
        var i :| 0 <= i < |p| && p[i] == x;
        assert Map(NameOf(), ms)[i] != Map(NameOf(), ms)[|ms| - 1];
      }
    }
  }

  lemma SameSingles(ms: seq<Member>, ms': seq<Member>, n: Bytes)
    requires ToSet(ms) == ToSet(ms') && |Named(ms, n)| <= 1 && |Named(ms', n)| <= 1
    ensures Named(ms, n) == Named(ms', n)
  {
    forall x
      ensures x in Named(ms, n) <==> x in Named(ms', n)
    {
      FilterMember(ms, HasName(n), x);
      FilterMember(ms', HasName(n), x);
      assert x in ToSet(ms) <==> x in ToSet(ms');
    }
    if Named(ms, n) != [] { assert Named(ms, n)[0] in Named(ms', n); }
    if Named(ms', n) != [] { assert Named(ms', n)[0] in Named(ms, n); }
  }

  /** What is written: name, type byte, link name, one executable bit for files and hard links, and of a regular
      file its content, of any other member its size field. */
  lemma WrittenEssence(a: Member, b: Member, t: int)
    ensures Written(a, t) == Written(b, t)
       <==> && a.name == b.name && a.flag == b.flag && a.linkname == b.linkname
            && (if a.Kind().Regular? then a.Content() == b.Content() else a.size == b.size)
            && (!a.Kind().SymbolicLink? && !a.Kind().Directory? ==> AnyExecute(a.mode) == AnyExecute(b.mode))
  {
    assert AnyExecute(MODE_755) && !AnyExecute(MODE_644);
  }

  /** What every written member carries: fixed owner and time, and one of three modes. */
  lemma OutputMetadata(ms: seq<Member>, t: int, i: nat)
    requires Normalized(ms, t).Ok? && i < |Normalized(ms, t).value|
    ensures Ordered(ms).Ok? && i < |Ordered(ms).value|
    ensures var m, o := Ordered(ms).value[i], Normalized(ms, t).value[i];
      && o.name == m.name && o.flag == m.flag && o.linkname == m.linkname
      && o.meta.mtime == t && o.meta.uid == 0 && o.meta.gid == 0 && o.meta.devmajor == 0 && o.meta.devminor == 0
      && o.meta.uname == "root" && o.meta.gname == "root" && o.meta.pax == map[]
      && (m.Kind().SymbolicLink? ==> o.mode == 0x1FF) && (m.Kind().Directory? ==> o.mode == 0x1ED)
      && (m.Kind().Regular? || m.Kind().HardLink? ==>
            o.mode == if AnyExecute(m.mode) then 0x1ED else 0x1A4)
      && (if m.Kind().Regular? then o.payload == m.Content() && o.size == |m.Content()|
          else o.payload == [] && o.size == m.size)
  {
    OutputIsRewriting(ms, t);
    var m := Ordered(ms).value[i];
    assert m in Ordered(ms).value;
    SameArchiveSameIndex(ms, Ordered(ms).value);
  }

  /** A mode has an executable bit when one of its last three octal digits is odd. */
  lemma ExecutableDigits(high: nat, owner: nat, group: nat, other: nat)
    requires owner < 8 && group < 8 && other < 8
    ensures AnyExecute(((high * 8 + owner) * 8 + group) * 8 + other)
       <==> owner % 2 == 1 || group % 2 == 1 || other % 2 == 1
  {
    var top, middle := high * 8 + owner, (high * 8 + owner) * 8 + group;
    LastDigit(high, owner);
    LastDigit(top, group);
    LastDigit(middle, other);
    assert (middle * 8 + other) / 64 == (middle * 8 + other) / 8 / 8;
  }

  lemma LastDigit(a: nat, b: nat)
    requires b < 8
    ensures (a * 8 + b) / 8 == a && (a * 8 + b) % 2 == b % 2
  {
    Quotient8(a, b);
    Parity(a, b);
  }

  lemma Quotient8(a: nat, b: nat)
    requires b < 8
    ensures (a * 8 + b) / 8 == a
  {
  }

  lemma Parity(a: nat, b: nat)
    ensures (a * 8 + b) % 2 == b % 2
  {
    var half := b / 2;
    assert a * 8 + b == 2 * (a * 4 + half) + b % 2;
  }

  lemma RewritingTwice(m: Member, t: int, t': int)
    ensures Written(Written(m, t), t') == Written(m, t') <==> !Lost(m)
  {
    WrittenEssence(Written(m, t), m, t');
    assert AnyExecute(MODE_755) && !AnyExecute(MODE_644);
  }

  /** Ordering what is ordered changes nothing. */
  lemma OrderedTwice(ms: seq<Member>)
    requires Uniform(ms) && Ordered(ms).Ok?
    ensures Ordered(Ordered(ms).value) == Ordered(ms)
  {
    OrderingKeepsMembers(ms);
    SameArchiveSameOrder(ms, Ordered(ms).value);
  }

  /** A second normalisation changes nothing but a timestamp, and forgets the first one, exactly when no member
      is sparse with content: what is left of such a member is emptied the second time. */
  lemma NormalizingTwice(ms: seq<Member>, t: int, t': int)
    requires Uniform(ms) && Normalized(ms, t).Ok?
    ensures Normalized(Normalized(ms, t).value, t').Ok?
    ensures Normalized(Normalized(ms, t).value, t') == Normalized(ms, t')
       <==> forall m :: m in ms ==> !Lost(m)
  {
    var ordered := Ordered(ms).value;
    OutputIsRewriting(ms, t);
    SameArchiveSameIndex(ms, ordered);
    OrderedTwice(ms);
    WrittenOrdered(ordered, t);
    WrittenUniform(ordered, t);
    var out := Map(Writer(t), ordered);
    WriteAllOutcome(out, t');
    WriteAllOutcome(ordered, t');
    forall i | 0 <= i < |ordered|
      ensures Map(Writer(t'), out)[i] == Map(Writer(t'), ordered)[i] <==> !Lost(ordered[i])
    {
      RewritingTwice(ordered[i], t, t');
    }
    TwiceWritten(ordered, Map(Writer(t'), out), Map(Writer(t'), ordered));
  }

  lemma TwiceWritten(ms: seq<Member>, a: seq<Member>, b: seq<Member>)
    requires |ms| == |a| == |b| && forall i :: 0 <= i < |ms| ==> (a[i] == b[i] <==> !Lost(ms[i]))
    ensures a == b <==> forall m :: m in ms ==> !Lost(m)
  {
    if m :| m in ms && Lost(m) {
      var i :| 0 <= i < |ms| && ms[i] == m;
    }
  }

  // ------------------------------------------------------------------ what goes wrong

  /** A sparse member alone: it is accepted, and reads back as an empty file. */
  lemma SparseContentLost(m: Member, t: int)
    requires m.flag == SPARSE_FLAG && m.mapped && m.payload != []
    ensures Normalized([m], t).Ok? && Extract([m]).Some? && Extract(Normalized([m], t).value).Some?
    ensures m.name in Extract([m]).value && Extract([m]).value[m.name].node == File(m.payload, AnyExecute(m.mode))
    ensures var out := Extract(Normalized([m], t).value).value;
      m.name in out && out[m.name].node == File([], AnyExecute(m.mode))
  {
    assert [m][..0] == [];
    assert Extract([m]) == Some(map[m.name := Made([], m)]);
    ExtractableIsNormalizable([m], t);
    OutputMeaning([m], t);
    assert ByName([m]) == map[m.name := m];
    var out := Extract(Normalized([m], t).value).value;
    assert Bound([m], m.name, out[m.name], Surviving);
  }

  const A: Bytes := [97]
  const B: Bytes := [98]
  const BLANK := Metadata(0, 0, 0, "", "", 0, 0, map[])

  function Plain(name: Bytes, content: Bytes): Member {
    Member(name, REGULAR_FLAG, [], 0, |content|, false, content, BLANK)
  }

  function Link(name: Bytes, target: Bytes, mode: nat): Member {
    Member(name, LINK_FLAG, target, mode, 0, false, [], BLANK)
  }

  /** The guard on repeated names is needed. The memo table is keyed by name, so in this archive the second
      `a`, a hard link to `b`, inherits depth 0 from the first and is moved before `b`: the
      original extracts, its normal form does not. */
  lemma RepeatedNameBreaksLink(t: int) returns (ms: seq<Member>)
    ensures !Uniform(ms) && Supported(ms) && Extract(ms).Some?
    ensures Normalized(ms, t).Ok? && Extract(Normalized(ms, t).value).None?
  {
    var file, base, link := Plain(A, []), Plain(B, []), Link(A, B, 0);
    ms := [file, base, link];
    RepeatedNameMixed(file, base, link);
    RepeatedNameExtracts(file, base, link);
    RepeatedNameOrder(file, base, link, t);
    LinkTooEarly(Written(file, t), Written(link, t), Written(base, t));
  }

  lemma RepeatedNameMixed(file: Member, base: Member, link: Member)
    requires file.name == link.name && file.Kind().Regular? && base.Kind().Regular? && link.Kind().HardLink?
    ensures !Uniform([file, base, link]) && Supported([file, base, link])
  {
    assert file in [file, base, link] && link in [file, base, link];
  }

  lemma RepeatedNameExtracts(file: Member, base: Member, link: Member)
    requires file.name == link.name == A && base.name == link.linkname == B
    requires !file.Kind().HardLink? && !base.Kind().HardLink? && link.Kind().HardLink?
    ensures Extract([file, base, link]).Some?
  {
    assert [file, base, link][..2] == [file, base] && [file, base][..1] == [file] && [file][..0] == [];
    assert Extract([file]).Some?;
    assert B in Extract([file, base]).value;
  }

  lemma LinkTooEarly(file: Member, link: Member, base: Member)
    requires file.name == link.name == A && base.name == link.linkname == B
    requires !file.Kind().HardLink? && link.Kind().HardLink?
    ensures Extract([file, link, base]).None?
  {
    assert [file, link, base][..2] == [file, link] && [file, link][..1] == [file] && [file][..0] == [];
    assert Extract([file]) == Some(map[A := Made([], file)]);
    assert Extract([file, link]).None?;
  }

  lemma RepeatedNameOrder(file: Member, base: Member, link: Member, t: int)
    requires file == Plain(A, []) && base == Plain(B, []) && link == Link(A, B, 0)
    ensures Normalized([file, base, link], t) == Ok([Written(file, t), Written(link, t), Written(base, t)])
  {
    var rf, rb, rl := Ranked(0, file), Ranked(0, base), Ranked(0, link);
    RepeatedNameRanks(file, base, link);
    RepeatedNameSort(rf, rb, rl);
    assert Members([rf, rl, rb]) == [file, link, base];
    WriteAllOutcome([file, link, base], t);
    assert Map(Writer(t), [file, link, base]) == [Written(file, t), Written(link, t), Written(base, t)];
  }

  lemma RepeatedNameRanks(file: Member, base: Member, link: Member)
    requires file.name == link.name == A && base.name == B
    requires !file.Kind().HardLink? && !base.Kind().HardLink?
    ensures var ms := [file, base, link];
      (ByNameKeys(ms); Rank(ByName(ms), map[], ms))
      == Ok([Ranked(0, file), Ranked(0, base), Ranked(0, link)])
  {
    var ms, byName := [file, base, link], ByName([file, base, link]);
    ByNameKeys(ms);
    var one, two := map[A := 0], map[A := 0, B := 0];
    assert ms[1..] == [base, link] && [base, link][1..] == [link] && [link][1..] == [];
    assert Rank(byName, two, []) == Ok([]);
    AfterAll([Ranked(0, link)]);
    assert Rank(byName, two, [link]) == Ok([Ranked(0, link)]);
    assert one[B := 0] == two;
    assert Rank(byName, one, [base, link]) == After([Ranked(0, base)], Ok([Ranked(0, link)]));
    assert Rank(byName, map[], ms) == After([Ranked(0, file)], Rank(byName, one, [base, link]));
    assert [Ranked(0, file)] + ([Ranked(0, base)] + [Ranked(0, link)])
        == [Ranked(0, file), Ranked(0, base), Ranked(0, link)];
  }

  lemma RepeatedNameSort(rf: Ranked, rb: Ranked, rl: Ranked)
    requires rf.depth == rb.depth == rl.depth == 0
    requires rf.member.name == rl.member.name == A && rb.member.name == B
    ensures Sorting.Sort([rf, rb, rl], RankLe) == [rf, rl, rb]
  {
    assert Key(0, A) == [0, 97] && Key(0, B) == [0, 98];
    assert [0, 97][1..] == [97] && [0, 98][1..] == [98];
    Lex.Irreflexive(Key(0, A));
    assert !RankLe(rb, rl) && RankLe(rf, rl);
    assert [rl][1..] == [] && [rb, rl][1..] == [rl] && [rf, rb, rl][1..] == [rb, rl];
    assert Sorting.Sort([rl], RankLe) == [rl];
    assert Sorting.Insert(rb, [rl], RankLe) == [rl] + Sorting.Insert(rb, [], RankLe);
    assert Sorting.Sort([rb, rl], RankLe) == [rl, rb];
  }

  lemma ReplacedTargetExtracts(x: Member, a: Member, y: Member)
    requires x.name == y.name == a.linkname == B && a.name == A && a.Kind().HardLink?
    requires x.Kind().Regular? && y.Kind().Regular?
    ensures Extract([x, a, y]).Some? && Supported([x, a, y]) && Uniform([x, a, y])
  {
    assert [x, a, y][..2] == [x, a] && [x, a][..1] == [x] && [x][..0] == [];
    assert Extract([x]) == Some(map[B := Made([], x)]);
    assert Extract([x, a]).Some?;
  }

  lemma ReplacedTargetStale(x: Member, a: Member, y: Member)
    requires x.name == y.name == a.linkname == B && a.name == A && a.Kind().HardLink?
    requires x.Kind().Regular? && y.Kind().Regular?
    ensures !AllFresh([x, a, y])
  {
    var ms := [x, a, y];
    NamesAreLatest(ms, A);
    assert Latest(ms, 3, A) == Some(1) && Latest(ms, 1, B) == Some(0) && Latest(ms, 3, B) == Some(2);
    assert !Fresh(ms, 0);
    assert A in ByName(ms) && !LastFresh(ms, A);
  }

  /** A target replaced after the link to it: the original leaves `a` on the first `b`, its normal form does
      not. */
  lemma ReplacedTargetChanges(first: Bytes, second: Bytes, t: int)
    ensures var ms := [Plain(B, first), Link(A, B, 0), Plain(B, second)];
      && Uniform(ms) && Normalized(ms, t).Ok? && Extract(ms).Some?
      && Extract(Normalized(ms, t).value) != Extract(ms)
  {
    var x, a, y := Plain(B, first), Link(A, B, 0), Plain(B, second);
    ReplacedTargetExtracts(x, a, y);
    ReplacedTargetStale(x, a, y);
    ExtractableIsNormalizable([x, a, y], t);
    NormalizingPreservesExtraction([x, a, y], t);
  }
}
