/** An extractor that also applies the modes of hard links, and when rewriting an archive keeps them. */
module LinkModes {
  import opened Wrappers
  import opened Octets
  import opened Seqs
  import opened Archive
  import opened Extraction
  import Lex

  function WithMode(node: Node, executable: bool): Node {
    if node.File? then File(node.content, executable) else node
  }

  /** Change the mode of one node under all its names. */
  function Chmod(fs: Files, creator: Creator, executable: bool): Files {
    map n | n in fs :: if fs[n].creator == creator then Entry(creator, WithMode(fs[n].node, executable)) else fs[n]
  }

  /** Like `Extract`, but a hard link also applies its own mode to the node it shares. */
  function ExtractModes(ms: seq<Member>): Option<Files> {
    if ms == [] then Some(map[])
    else
      var p, m := ms[..|ms| - 1], ms[|ms| - 1];
      match ExtractModes(p)
      case None => None
      case Some(fs) =>
        if !m.Kind().HardLink? then Some(fs[m.name := Made(p, m)])
        else if m.linkname in fs then
          var gs := Chmod(fs, fs[m.linkname].creator, AnyExecute(m.mode));
          Some(gs[m.name := gs[m.linkname]])
        else None
  }

  // ------------------------------------------------------------------ who sets the mode of a node

  /** The last of the first `i` members whose entry carries `c`. */
  function LastTouch(ms: seq<Member>, i: nat, c: Creator): (r: Option<nat>)
    requires i <= |ms|
    ensures r.Some? ==> r.value < i && Touches(ms, r.value, c)
    ensures forall k :: (if r.Some? then r.value + 1 else 0) <= k < i ==> !Touches(ms, k, c)
  {
    if i == 0 then None else if Touches(ms, i - 1, c) then Some(i - 1) else LastTouch(ms, i - 1, c)
  }

  predicate Touches(ms: seq<Member>, i: nat, c: Creator)
    requires i < |ms|
  {
    EntryAt(ms, i).Some? && EntryAt(ms, i).value.creator == c
  }

  /** `g` is `e` with its node's mode set by the last member that touched it. */
  ghost predicate ModeSet(ms: seq<Member>, i: nat, e: Entry, g: Entry)
    requires i <= |ms|
  {
    var last := LastTouch(ms, i, e.creator);
    last.Some? && g == Entry(e.creator, WithMode(e.node, AnyExecute(ms[last.value].mode)))
  }

  ghost predicate ModesSet(ms: seq<Member>, i: nat, fs: Files, gs: Files)
    requires i <= |ms|
  {
    gs.Keys == fs.Keys && forall n :: n in fs ==> ModeSet(ms, i, fs[n], gs[n])
  }

  /** Every entry comes from a member that is not a hard link. */
  lemma {:induction false} EntrySource(ms: seq<Member>, i: nat) returns (j: nat)
    requires i < |ms| && EntryAt(ms, i).Some?
    ensures j <= i && !ms[j].Kind().HardLink? && EntryAt(ms, i).value == Made(ms[..j], ms[j])
    decreases i
  {
    if ms[i].Kind().HardLink? {
      j := EntrySource(ms, Latest(ms, i, ms[i].linkname).value);
    } else {
      j := i;
    }
  }

  lemma NamedGrows(ms: seq<Member>, j: nat, i: nat)
    requires j < i <= |ms|
    ensures |Named(ms[..j], ms[j].name)| < |Named(ms[..i], ms[j].name)|
  {
    var p := ms[..i];
    NamedAround(p, j);
    assert p[..j] == ms[..j] && p[j] == ms[j];
  }

  /** A member that is not a hard link makes a node that nothing before it carries. */
  lemma NewCreator(ms: seq<Member>, k: nat, i: nat)
    requires k < i < |ms| && EntryAt(ms, k).Some?
    ensures EntryAt(ms, k).value.creator != Made(ms[..i], ms[i]).creator
  {
    var j := EntrySource(ms, k);
    NamedGrows(ms, j, i);
  }

  lemma ModeStays(ms: seq<Member>, i: nat, e: Entry, g: Entry)
    requires i < |ms| && ModeSet(ms, i, e, g) && !Touches(ms, i, e.creator)
    ensures ModeSet(ms, i + 1, e, g)
  {
  }

  lemma ModeApplied(ms: seq<Member>, i: nat, e: Entry)
    requires i < |ms| && Touches(ms, i, e.creator)
    ensures ModeSet(ms, i + 1, e, Entry(e.creator, WithMode(e.node, AnyExecute(ms[i].mode))))
  {
  }

  lemma ModesUpdated(ms: seq<Member>, i: nat, fs: Files, gs: Files, n: Bytes, e: Entry, g: Entry)
    requires i <= |ms| && ModesSet(ms, i, fs, gs) && ModeSet(ms, i, e, g)
    ensures ModesSet(ms, i, fs[n := e], gs[n := g])
  {
  }

  lemma MadeKeepsMode(ms: seq<Member>, i: nat, fs: Files, n: Bytes, g: Entry)
    requires i < |ms| && !ms[i].Kind().HardLink? && Latests(ms, i, fs) && n in fs && ModeSet(ms, i, fs[n], g)
    ensures ModeSet(ms, i + 1, fs[n], g)
  {
    NewCreator(ms, Latest(ms, i, n).value, i);
    ModeStays(ms, i, fs[n], g);
  }

  lemma StepMade(ms: seq<Member>, i: nat, fs: Files, gs: Files)
    requires i < |ms| && !ms[i].Kind().HardLink?
    requires Latests(ms, i, fs) && ModesSet(ms, i, fs, gs)
    ensures var e := Made(ms[..i], ms[i]); ModesSet(ms, i + 1, fs[ms[i].name := e], gs[ms[i].name := e])
  {
    var e := Made(ms[..i], ms[i]);
    forall n | n in fs
      ensures ModeSet(ms, i + 1, fs[n], gs[n])
    {
      MadeKeepsMode(ms, i, fs, n, gs[n]);
    }
    ModeApplied(ms, i, e);
    ModesUpdated(ms, i + 1, fs, gs, ms[i].name, e, e);
  }

  lemma Chmodded(ms: seq<Member>, i: nat, c: Creator, e: Entry, g: Entry)
    requires i < |ms| && ModeSet(ms, i, e, g) && EntryAt(ms, i).Some? && EntryAt(ms, i).value.creator == c
    ensures var bit := AnyExecute(ms[i].mode);
      ModeSet(ms, i + 1, e, if g.creator == c then Entry(c, WithMode(g.node, bit)) else g)
  {
    if e.creator == c {
      ModeApplied(ms, i, e);
    } else {
      ModeStays(ms, i, e, g);
    }
  }

  lemma ChmodSets(ms: seq<Member>, i: nat, c: Creator, fs: Files, gs: Files)
    requires i < |ms| && Touches(ms, i, c) && ModesSet(ms, i, fs, gs)
    ensures ModesSet(ms, i + 1, fs, Chmod(gs, c, AnyExecute(ms[i].mode)))
  {
    var hs := Chmod(gs, c, AnyExecute(ms[i].mode));
    forall n | n in fs
      ensures ModeSet(ms, i + 1, fs[n], hs[n])
    {
      Chmodded(ms, i, c, fs[n], gs[n]);
    }
  }

  lemma StepLink(ms: seq<Member>, i: nat, fs: Files, gs: Files, t: Bytes)
    requires i < |ms| && t in fs && EntryAt(ms, i) == Some(fs[t]) && ModesSet(ms, i, fs, gs)
    ensures var hs := Chmod(gs, gs[t].creator, AnyExecute(ms[i].mode));
      ModesSet(ms, i + 1, fs[ms[i].name := fs[t]], hs[ms[i].name := hs[t]])
  {
    assert ModeSet(ms, i, fs[t], gs[t]);
    var hs := Chmod(gs, gs[t].creator, AnyExecute(ms[i].mode));
    ChmodSets(ms, i, gs[t].creator, fs, gs);
    ModesUpdated(ms, i + 1, fs, hs, ms[i].name, fs[t], hs[t]);
  }

  /** The two extractors bind the same names to the same nodes; a node's mode comes from the last member that
      touched it. */
  lemma {:induction false} ExtractsModes(ms: seq<Member>, i: nat)
    requires i <= |ms|
    ensures ExtractModes(ms[..i]).Some? <==> Extract(ms[..i]).Some?
    ensures Extract(ms[..i]).Some? ==> ModesSet(ms, i, Extract(ms[..i]).value, ExtractModes(ms[..i]).value)
  {
    if i > 0 {
      assert ms[..i][..i - 1] == ms[..i - 1] && ms[..i][i - 1] == ms[i - 1];
      ExtractsModes(ms, i - 1);
      if Extract(ms[..i - 1]).Some? {
        var fs, gs := Extract(ms[..i - 1]).value, ExtractModes(ms[..i - 1]).value;
        ExtractsLatest(ms, i - 1);
        if !ms[i - 1].Kind().HardLink? {
          StepMade(ms, i - 1, fs, gs);
        } else if ms[i - 1].linkname in fs {
          StepLink(ms, i - 1, fs, gs, ms[i - 1].linkname);
        }
      }
    }
  }

  // ------------------------------------------------------------------ the last member of a chain

  /** Member `i` is the last one whose link chain ends at `r`. */
  ghost predicate LastRooted(ms: seq<Member>, r: Bytes, i: nat) {
    && i < |ms| && EndsAt(ByName(ms), ms[i].name, r)
    && forall j :: i < j < |ms| ==> !EndsAt(ByName(ms), ms[j].name, r)
  }

  /** For every regular file, the last of its members carries the same executable bit in both orders. */
  ghost predicate LastBitsAgree(ms: seq<Member>, out: seq<Member>) {
    forall r: Bytes, i: nat, j: nat ::
      LastRooted(ms, r, i) && LastRooted(out, r, j) && ByName(ms)[r].Kind().Regular? ==>
        AnyExecute(ms[i].mode) == AnyExecute(out[j].mode)
  }

  /** In a fresh archive the last member that touches a file is the last one whose chain ends there. */
  lemma LastTouchRooted(ms: seq<Member>, c: Creator)
    requires Uniform(ms) && Extract(ms).Some? && AllFresh(ms)
    requires c.nth + 1 == |Named(ms, c.name)| && LastTouch(ms, |ms|, c).Some?
    ensures LastRooted(ms, c.name, LastTouch(ms, |ms|, c).value)
  {
    var i := LastTouch(ms, |ms|, c).value;
    EntryBound(ms, i);
    forall j | i < j < |ms|
      ensures !EndsAt(ByName(ms), ms[j].name, c.name)
    {
      if EndsAt(ByName(ms), ms[j].name, c.name) {
        var l := RootedTouch(ms, j, c);
      }
    }
  }

  /** The last member of a rooted name touches the file. */
  lemma RootedTouch(ms: seq<Member>, j: nat, c: Creator) returns (l: nat)
    requires Uniform(ms) && Extract(ms).Some? && AllFresh(ms) && c.nth + 1 == |Named(ms, c.name)|
    requires j < |ms| && EndsAt(ByName(ms), ms[j].name, c.name)
    ensures j <= l < |ms| && Touches(ms, l, c)
  {
    var n := ms[j].name;
    NamesAreLatest(ms, n);
    assert ms[..|ms|] == ms;
    ExtractsLatest(ms, |ms|);
    l := Latest(ms, |ms|, n).value;
    assert ms[j] in ms;
    ByNameKeys(ms);
    assert LastFresh(ms, n);
    assert n in Extract(ms).value;
    EntryBound(ms, l);
    OneEnd(ByName(ms), n, c.name, EntryAt(ms, l).value.creator.name);
  }

  /** The last member whose chain ends at a regular file is a hard link or the file's own last member. */
  lemma LastRootedKind(ms: seq<Member>, r: Bytes, i: nat)
    requires Uniform(ms) && LastRooted(ms, r, i)
    ensures ms[i].Kind().HardLink? || ms[i] == ByName(ms)[r]
  {
    if !ms[i].Kind().HardLink? {
      var n := ms[i].name;
      assert ms[i] in ms;
      IndexAgrees(ms, ms[i]);
      assert Follows(ByName(ms), n, 0, n);
      OneEnd(ByName(ms), n, n, r);
      LastCounts(ms, i);
    }
  }

  lemma WrittenBit(m: Member, t: int)
    ensures m.Kind().Regular? || m.Kind().HardLink? ==> AnyExecute(Written(m, t).mode) == AnyExecute(m.mode)
  {
    assert AnyExecute(MODE_755) && !AnyExecute(MODE_644);
  }

  lemma WrittenLastRooted(ms: seq<Member>, t: int, r: Bytes, i: nat)
    requires LastRooted(Map(Writer(t), ms), r, i)
    ensures LastRooted(ms, r, i)
    ensures Uniform(ms) && ByName(ms)[r].Kind().Regular? ==>
      AnyExecute(Map(Writer(t), ms)[i].mode) == AnyExecute(ms[i].mode)
  {
    forall j | 0 <= j < |ms|
      ensures EndsAt(ByName(Map(Writer(t), ms)), ms[j].name, r) <==> EndsAt(ByName(ms), ms[j].name, r)
    {
      WrittenEnds(ms, t, ms[j].name, r);
    }
    if Uniform(ms) {
      LastRootedKind(ms, r, i);
      WrittenBit(ms[i], t);
    }
  }

  // ------------------------------------------------------------------ when the modes are kept

  /** An entry's node is what `node` reads of the root, with the bit of the last member of its chain. */
  lemma ModeOfRoot(ms: seq<Member>, n: Bytes) returns (i: nat)
    requires Uniform(ms) && Extract(ms).Some? && AllFresh(ms) && n in Extract(ms).value
    ensures ExtractModes(ms).Some? && n in ExtractModes(ms).value
    ensures var e := Extract(ms).value[n];
      LastRooted(ms, e.creator.name, i) &&
      ExtractModes(ms).value[n] == Entry(e.creator, WithMode(e.node, AnyExecute(ms[i].mode)))
  {
    assert ms[..|ms|] == ms;
    ExtractsModes(ms, |ms|);
    FreshMeans(ms);
    var fs, gs := Extract(ms).value, ExtractModes(ms).value;
    assert ModeSet(ms, |ms|, fs[n], gs[n]) && Newest(ms, fs[n]);
    i := LastTouch(ms, |ms|, fs[n].creator).value;
    LastTouchRooted(ms, fs[n].creator);
  }

  /** Rewriting keeps the node at `r`, its mode included. */
  ghost predicate RootKept(ms: seq<Member>, out: seq<Member>, r: Bytes) {
    r in ByName(ms) && ByName(ms)[r].Kind().Regular? ==>
      !Lost(ByName(ms)[r]) &&
      forall i: nat, j: nat :: LastRooted(ms, r, i) && LastRooted(out, r, j) ==>
        AnyExecute(ms[i].mode) == AnyExecute(out[j].mode)
  }

  lemma RootsKept(ms: seq<Member>, out: seq<Member>)
    ensures KeepsContent(ms) && LastBitsAgree(ms, out) <==> forall r :: r in ByName(ms) ==> RootKept(ms, out, r)
  {
    if forall r :: r in ByName(ms) ==> RootKept(ms, out, r) {
      forall r | r in ByName(ms)
        ensures !Lost(ByName(ms)[r])
      {
        assert RootKept(ms, out, r);
      }
      forall r: Bytes, i: nat, j: nat |
        LastRooted(ms, r, i) && LastRooted(out, r, j) && ByName(ms)[r].Kind().Regular?
        ensures AnyExecute(ms[i].mode) == AnyExecute(out[j].mode)
      {
        assert r in ByName(ms) && RootKept(ms, out, r);
      }
    }
  }

  lemma NodesAgree(m: Member, bi: bool, bj: bool)
    requires !m.Kind().HardLink?
    ensures WithMode(NodeOf(m), bi) == WithMode(Surviving(m), bj) <==> (m.Kind().Regular? ==> !Lost(m) && bi == bj)
  {
  }

  lemma LastRootedOnce(ms: seq<Member>, r: Bytes, i: nat, j: nat)
    requires LastRooted(ms, r, i) && LastRooted(ms, r, j)
    ensures i == j
  {
  }

  /** A fresh archive and its normal form bind a name to the same entry exactly when the root's node is kept. */
  lemma EntryKept(ms: seq<Member>, t: int, n: Bytes)
    requires Uniform(ms) && Normalized(ms, t).Ok? && Extract(ms).Some? && AllFresh(ms) && n in ByName(ms)
    ensures var out := Normalized(ms, t).value;
      && Extract(out).Some? && ExtractModes(out).Some? && n in ExtractModes(out).value
      && ExtractModes(ms).Some? && n in ExtractModes(ms).value && n in Extract(ms).value
      && EndsAt(ByName(ms), n, Extract(ms).value[n].creator.name)
      && (ExtractModes(ms).value[n] == ExtractModes(out).value[n]
          <==> RootKept(ms, Ordered(ms).value, Extract(ms).value[n].creator.name))
  {
    var ordered, out := Ordered(ms).value, Normalized(ms, t).value;
    OutputIsRewriting(ms, t);
    OutputMeaning(ms, t);
    OutputExtracts(ms, t);
    SameArchiveSameIndex(ms, ordered);
    WrittenUniform(ordered, t);
    FreshMeans(ms);
    var e, o := Extract(ms).value[n], Extract(out).value[n];
    assert Bound(ms, n, e, NodeOf) && Bound(ms, n, o, Surviving);
    OneEnd(ByName(ms), n, e.creator.name, o.creator.name);
    var r := e.creator.name;
    var i := ModeOfRoot(ms, n);
    var j := ModeOfRoot(out, n);
    WrittenLastRooted(ordered, t, r, j);
    NodesAgree(ByName(ms)[r], AnyExecute(ms[i].mode), AnyExecute(out[j].mode));
    OnlyLastsCount(ms, ordered, r, i, j);
  }

  lemma OnlyLastsCount(ms: seq<Member>, out: seq<Member>, r: Bytes, i: nat, j: nat)
    requires LastRooted(ms, r, i) && LastRooted(out, r, j)
    ensures RootKept(ms, out, r) <==>
      (ByName(ms)[r].Kind().Regular? ==>
         !Lost(ByName(ms)[r]) && AnyExecute(ms[i].mode) == AnyExecute(out[j].mode))
  {
    forall k: nat, l: nat | LastRooted(ms, r, k) && LastRooted(out, r, l)
      ensures k == i && l == j
    {
      LastRootedOnce(ms, r, k, i);
      LastRootedOnce(out, r, l, j);
    }
  }

  lemma FileKept(ms: seq<Member>, t: int, r: Bytes)
    requires Uniform(ms) && Normalized(ms, t).Ok? && Extract(ms).Some? && AllFresh(ms)
    requires r in ByName(ms) && ByName(ms)[r].Kind().Regular? && ExtractModes(ms).Some?
    requires ExtractModes(Normalized(ms, t).value) == ExtractModes(ms)
    ensures RootKept(ms, Ordered(ms).value, r)
  {
    EntryKept(ms, t, r);
    assert Follows(ByName(ms), r, 0, r);
    OneEnd(ByName(ms), r, r, Extract(ms).value[r].creator.name);
  }

  lemma FreshArchiveModes(ms: seq<Member>, t: int)
    requires Uniform(ms) && Normalized(ms, t).Ok? && Extract(ms).Some? && AllFresh(ms)
    ensures ExtractModes(ms).Some? && ExtractModes(Normalized(ms, t).value).Some?
    ensures ExtractModes(Normalized(ms, t).value) == ExtractModes(ms)
       <==> KeepsContent(ms) && LastBitsAgree(ms, Ordered(ms).value)
  {
    var ordered, out := Ordered(ms).value, Normalized(ms, t).value;
    KeysOfModes(ms, t);
    RootsKept(ms, ordered);
    if ExtractModes(out) == ExtractModes(ms) {
      forall r | r in ByName(ms)
        ensures RootKept(ms, ordered, r)
      {
        if ByName(ms)[r].Kind().Regular? {
          FileKept(ms, t, r);
        }
      }
    } else if forall r :: r in ByName(ms) ==> RootKept(ms, ordered, r) {
      forall n | n in ByName(ms)
        ensures ExtractModes(ms).value[n] == ExtractModes(out).value[n]
      {
        EntryKept(ms, t, n);
      }
      SameMaps(ExtractModes(ms).value, ExtractModes(out).value, ByName(ms).Keys);
    }
  }

  lemma SameMaps(fs: Files, gs: Files, keys: set<Bytes>)
    requires fs.Keys == gs.Keys == keys && forall n :: n in keys ==> fs[n] == gs[n]
    ensures fs == gs
  {
  }

  lemma KeysOfModes(ms: seq<Member>, t: int)
    requires Uniform(ms) && Normalized(ms, t).Ok? && Extract(ms).Some?
    ensures var out := Normalized(ms, t).value;
      ExtractModes(ms).Some? && ExtractModes(out).Some? &&
      ExtractModes(ms).value.Keys == ByName(ms).Keys == ExtractModes(out).value.Keys
  {
    var out := Normalized(ms, t).value;
    OutputMeaning(ms, t);
    assert ms[..|ms|] == ms && out[..|out|] == out;
    ExtractsModes(ms, |ms|);
    ExtractsModes(out, |out|);
    forall n
      ensures n in Extract(ms).value <==> n in ByName(ms)
    {
      FreshName(ms, n);
    }
    assert Extract(ms).value.Keys == ByName(ms).Keys == Extract(out).value.Keys;
  }

  /** The extractor that applies link modes produces the same from the rewritten archive exactly when no name is
      left on a replaced node, no content is lost, and the last member of each file's chains carries the same bit
      in both orders. */
  lemma NormalizingPreservesModes(ms: seq<Member>, t: int)
    requires Uniform(ms) && Normalized(ms, t).Ok?
    ensures ExtractModes(Normalized(ms, t).value).Some?
    ensures ExtractModes(ms).Some? ==>
      (ExtractModes(Normalized(ms, t).value) == ExtractModes(ms)
       <==> AllFresh(ms) && KeepsContent(ms) && LastBitsAgree(ms, Ordered(ms).value))
  {
    var out := Normalized(ms, t).value;
    OutputMeaning(ms, t);
    assert ms[..|ms|] == ms && out[..|out|] == out;
    ExtractsModes(ms, |ms|);
    ExtractsModes(out, |out|);
    if ExtractModes(ms).Some? {
      FreshMeans(ms);
      if AllFresh(ms) {
        FreshArchiveModes(ms, t);
      } else {
        var n :| n in Extract(ms).value && !Newest(ms, Extract(ms).value[n]);
        StaleEntry(ms, t, n);
      }
    }
  }

  /** A name that is left on a replaced node is bound to another one in the rewritten archive. */
  lemma StaleEntry(ms: seq<Member>, t: int, n: Bytes)
    requires Uniform(ms) && Normalized(ms, t).Ok? && Extract(ms).Some?
    requires n in Extract(ms).value && !Newest(ms, Extract(ms).value[n])
    ensures ExtractModes(ms) != ExtractModes(Normalized(ms, t).value)
  {
    var out := Normalized(ms, t).value;
    OutputMeaning(ms, t);
    FreshName(ms, n);
    assert ms[..|ms|] == ms && out[..|out|] == out;
    ExtractsModes(ms, |ms|);
    ExtractsModes(out, |out|);
    var e, o := Extract(ms).value[n], Extract(out).value[n];
    assert Bound(ms, n, o, Surviving);
    assert e.creator != o.creator;
    assert ModeSet(ms, |ms|, e, ExtractModes(ms).value[n]);
    assert ModeSet(out, |out|, o, ExtractModes(out).value[n]);
  }

  // ------------------------------------------------------------------ agreeing bits

  /** If the chain from `m` ends at the file `root`, both carry the same executable bit. */
  ghost predicate BitAgrees(byName: Index, m: Member, root: Bytes) {
    EndsAt(byName, m.name, root) && byName[root].Kind().Regular? ==>
      AnyExecute(m.mode) == AnyExecute(byName[root].mode)
  }

  /** Every hard link carries the executable bit of the file at the end of its chain. */
  ghost predicate BitsAgree(ms: seq<Member>) {
    forall m, root :: m in ms && m.Kind().HardLink? ==> BitAgrees(ByName(ms), m, root)
  }

  lemma AgreeingBit(ms: seq<Member>, r: Bytes, i: nat)
    requires Uniform(ms) && BitsAgree(ms) && LastRooted(ms, r, i) && ByName(ms)[r].Kind().Regular?
    ensures AnyExecute(ms[i].mode) == AnyExecute(ByName(ms)[r].mode)
  {
    LastRootedKind(ms, r, i);
    assert ms[i] in ms;
    if ms[i].Kind().HardLink? {
      assert BitAgrees(ByName(ms), ms[i], r);
    }
  }

  /** Bits that agree along each chain agree at its last member, in any order. */
  lemma AgreeingBitsSuffice(ms: seq<Member>, out: seq<Member>)
    requires Uniform(ms) && BitsAgree(ms) && SameArchive(ms, out)
    ensures LastBitsAgree(ms, out)
  {
    SameArchiveSameIndex(ms, out);
    assert BitsAgree(out) by {
      forall m, root | m in out && m.Kind().HardLink?
        ensures BitAgrees(ByName(out), m, root)
      {
        assert m in ms;
        assert BitAgrees(ByName(ms), m, root);
      }
    }
    forall r: Bytes, i: nat, j: nat |
      LastRooted(ms, r, i) && LastRooted(out, r, j) && ByName(ms)[r].Kind().Regular?
      ensures AnyExecute(ms[i].mode) == AnyExecute(out[j].mode)
    {
      AgreeingBit(ms, r, i);
      AgreeingBit(out, r, j);
    }
  }

  // ------------------------------------------------------------------ disagreeing bits

  const C: Bytes := [99]

  /** A file without the bit, and two links to it: `c`, which has it, and then `b`, which has not. */
  function Disagreeing(): seq<Member> {
    [Plain(A, []), Link(C, A, 64), Link(B, A, 0)]
  }

  lemma DisagreeingIndex()
    ensures ByName(Disagreeing()) == map[A := Plain(A, []), C := Link(C, A, 64), B := Link(B, A, 0)]
    ensures Uniform(Disagreeing()) && Supported(Disagreeing())
    ensures TargetsBefore(Disagreeing())
    ensures forall m :: m in Disagreeing() <==> m == Plain(A, []) || m == Link(C, A, 64) || m == Link(B, A, 0)
  {
    var a, c, b := Plain(A, []), Link(C, A, 64), Link(B, A, 0);
    assert [a, c, b][..2] == [a, c] && [a, c][..1] == [a] && [a][..0] == [];
    assert Disagreeing()[0] == a && Disagreeing()[1] == c && Disagreeing()[2] == b;
    assert ByName([a]) == map[A := a];
    assert ByName([a, c]) == map[A := a, C := c];
    assert ByName([a, c, b]) == ByName([a, c])[B := b];
  }

  lemma DisagreeingChains()
    ensures var byName := ByName(Disagreeing());
      DepthIs(byName, A, 0) && DepthIs(byName, B, 1) && DepthIs(byName, C, 1) &&
      EndsAt(byName, A, A) && EndsAt(byName, B, A) && EndsAt(byName, C, A)
  {
    var byName := ByName(Disagreeing());
    DisagreeingIndex();
    assert DepthIs(byName, A, 0) && Follows(byName, A, 0, A);
    assert Follows(byName, B, 1, A) && Follows(byName, C, 1, A);
  }

  /** Of these members `c` has the largest key. */
  lemma DisagreeingKeys()
    ensures Lex.Less(Key(0, A), Key(1, C)) && Lex.Less(Key(1, B), Key(1, C))
  {
    assert Key(1, C) == [1, 99] && Key(1, B) == [1, 98] && Key(0, A) == [0, 97];
    assert [1, 99][1..] == [99] && [1, 98][1..] == [98];
    assert Lex.Less([98], [99]);
  }

  /** Any ordering of these members ends with `c`. */
  lemma DisagreeingLast(out: seq<Member>)
    requires IsOrdering(Disagreeing(), out)
    ensures out != [] && out[|out| - 1] == Link(C, A, 64)
  {
    var byName := ByName(Disagreeing());
    DisagreeingIndex();
    DisagreeingChains();
    DisagreeingKeys();
    SameArchiveSameIndex(Disagreeing(), out);
    assert Link(C, A, 64) in out;
    var k :| 0 <= k < |out| && out[k] == Link(C, A, 64);
    var x := out[|out| - 1];
    assert x in Disagreeing();
    if x.name != C {
      KeyFirst(byName, out, |out| - 1, if x.name == A then 0 else 1, k, 1);
    }
  }

  lemma DisagreeingBits(out: seq<Member>)
    requires IsOrdering(Disagreeing(), out)
    ensures !LastBitsAgree(Disagreeing(), out)
  {
    var ms := Disagreeing();
    DisagreeingIndex();
    DisagreeingChains();
    DisagreeingLast(out);
    SameArchiveSameIndex(ms, out);
    assert EndsAt(ByName(ms), B, A) && EndsAt(ByName(out), C, A);
    assert ms[2] == Link(B, A, 0) && ByName(ms)[A] == Plain(A, []);
    LastOf(ms, 2, A);
    LastOf(out, |out| - 1, A);
    BitsDiffer(ms, out, A, 2, |out| - 1);
  }

  lemma LastOf(ms: seq<Member>, i: nat, r: Bytes)
    requires i < |ms| && i == |ms| - 1 && EndsAt(ByName(ms), ms[i].name, r)
    ensures LastRooted(ms, r, i)
  {
  }

  lemma BitsDiffer(ms: seq<Member>, out: seq<Member>, r: Bytes, i: nat, j: nat)
    requires LastRooted(ms, r, i) && LastRooted(out, r, j) && ByName(ms)[r].Kind().Regular?
    requires ms[i].mode == 0 && out[j].mode == 64
    ensures !LastBitsAgree(ms, out)
  {
    assert AnyExecute(64) && !AnyExecute(0);
  }

  lemma ModesChange(ms: seq<Member>, t: int)
    requires Uniform(ms) && Supported(ms) && TargetsBefore(ms) && KeepsContent(ms)
    requires forall out :: IsOrdering(ms, out) ==> !LastBitsAgree(ms, out)
    ensures Normalized(ms, t).Ok? && Extract(Normalized(ms, t).value) == Extract(ms)
    ensures ExtractModes(ms).Some? && ExtractModes(Normalized(ms, t).value) != ExtractModes(ms)
  {
    TargetsBeforeAllFresh(ms);
    ExtractableIsNormalizable(ms, t);
    OutputIsRewriting(ms, t);
    OrderedIsOrdering(ms);
    NormalizingPreservesExtraction(ms, t);
    NormalizingPreservesModes(ms, t);
    KeysOfModes(ms, t);
  }

  /** The two archives extract to the same, but not when link modes are applied: the last mode set is that of `b`
      in the original and that of `c` in its normal form. */
  lemma DisagreeingModesChange(t: int)
    ensures var ms := Disagreeing();
      && Normalized(ms, t).Ok? && Extract(Normalized(ms, t).value) == Extract(ms)
      && ExtractModes(ms).Some? && ExtractModes(Normalized(ms, t).value) != ExtractModes(ms)
  {
    DisagreeingIndex();
    forall out | IsOrdering(Disagreeing(), out)
      ensures !LastBitsAgree(Disagreeing(), out)
    {
      DisagreeingBits(out);
    }
    ModesChange(Disagreeing(), t);
  }
}
