/** The byte stream behind the aggregate tree hash, and a decoder for it. */
module TreeHash {
  import opened Wrappers
  import opened Octets
  import opened Seqs
  import Lex
  import Sorting

  const DIGEST_SIZE: nat := 32

  /** A SHA-256 digest; how it comes from the bytes stays a parameter. */
  type Digest = d: Bytes | |d| == DIGEST_SIZE witness seq(DIGEST_SIZE, _ => 0)

  type Files = map<Bytes, Bytes>

  datatype Entry = Entry(name: Bytes, digest: Digest)

  predicate NameLe(a: Bytes, b: Bytes) {
    Lex.AtMost(a, b)
  }

  /** One round of the loop: the name, a NUL, the content digest. */
  function Encode(es: seq<Entry>): Bytes {
    if es == [] then [] else Encode(es[..|es| - 1]) + Block(es[|es| - 1])
  }

  function Block(e: Entry): Bytes {
    e.name + [0] + e.digest
  }

  function Entries(names: seq<Bytes>, files: Files, h: Bytes -> Digest): (es: seq<Entry>)
    requires forall n :: n in names ==> n in files
    ensures |es| == |names|
    ensures forall i :: 0 <= i < |es| ==> es[i] == Entry(names[i], h(files[names[i]]))
  {
    seq(|names|, i requires 0 <= i < |names| => Entry(names[i], h(files[names[i]])))
  }

  /** `keys` is the dict's own insertion order. */
  ghost predicate Lists(keys: seq<Bytes>, files: Files) {
    Distinct(keys) && ToSet(keys) == files.Keys
  }

  /** The bytes fed to the running digest. */
  method AggregateStream(keys: seq<Bytes>, files: Files, h: Bytes -> Digest) returns (stream: Bytes)
    requires Lists(keys, files)
    ensures stream == Stream(keys, files, h)
  {
    var names := Sorting.Sort(keys, NameLe);
    SortedNames(keys, files);
    ghost var es := Entries(names, files, h);
    stream := [];
    for i := 0 to |names|
      invariant stream == Encode(es[..i])
    {
      EncodeStep(es, i, stream);
      stream := stream + names[i];
      stream := stream + [0];
      stream := stream + h(files[names[i]]);
    }
    assert es[..|es|] == es;
  }

  /** What one round of the loop feeds to the digest. */
  lemma EncodeStep(es: seq<Entry>, i: nat, stream: Bytes)
    requires i < |es| && stream == Encode(es[..i])
    ensures stream + es[i].name + [0] + es[i].digest == Encode(es[..i + 1])
  {
    assert es[..i + 1][..i] == es[..i];
  }

  lemma SortedNames(keys: seq<Bytes>, files: Files)
    requires Lists(keys, files)
    ensures forall n :: n in Sorting.Sort(keys, NameLe) <==> n in files
    ensures Distinct(Sorting.Sort(keys, NameLe))
  {
    Sorting.SortMultiset(keys, NameLe);
    var names := Sorting.Sort(keys, NameLe);
    assert forall n :: n in names <==> n in multiset(names);
    assert forall n :: n in keys <==> n in multiset(keys);
    assert forall n :: n in keys <==> n in ToSet(keys);
    DistinctCounts(keys);
    DistinctCounts(names);
  }

  // ------------------------------------------------------------------ decoding

  /** The bytes up to the first NUL, or everything when there is none. */
  function NameLength(s: Bytes): (n: nat)
    ensures n <= |s| && (n < |s| ==> s[n] == 0)
    ensures forall i :: 0 <= i < n ==> s[i] != 0
  {
    if s == [] || s[0] == 0 then 0 else 1 + NameLength(s[1..])
  }

  function Decode(s: Bytes): Option<seq<Entry>>
    decreases |s|
  {
    if s == [] then Some([])
    else
      var n := NameLength(s);
      if n + 1 + DIGEST_SIZE > |s| then None
      else
        match Decode(s[n + 1 + DIGEST_SIZE..])
        case None => None
        case Some(rest) => Some([Entry(s[..n], s[n + 1..n + 1 + DIGEST_SIZE])] + rest)
  }

  ghost predicate NulFree(es: seq<Entry>) {
    forall i :: 0 <= i < |es| ==> 0 !in es[i].name
  }

  lemma {:induction false} EncodeCons(e: Entry, es: seq<Entry>)
    ensures Encode([e] + es) == Block(e) + Encode(es)
  {
    var s := [e] + es;
    if es == [] {
      assert s[..0] == [] && s[0] == e;
      assert Encode(s) == [] + Block(e) == Block(e) + [];
    } else {
      var p, last := es[..|es| - 1], es[|es| - 1];
      EncodeCons(e, p);
      assert s[..|s| - 1] == [e] + p && s[|s| - 1] == last;
      assert Encode(s) == (Block(e) + Encode(p)) + Block(last) == Block(e) + (Encode(p) + Block(last));
    }
  }

  /** The decoder recovers the entries exactly when no name holds a NUL. */
  lemma {:induction false} DecodeEncode(es: seq<Entry>)
    ensures Decode(Encode(es)) == Some(es) <==> NulFree(es)
  {
    if NulFree(es) {
      DecodeNulFree(es);
    } else {
      DecodedIsNulFree(Encode(es));
    }
  }

  lemma {:induction false} DecodeNulFree(es: seq<Entry>)
    requires NulFree(es)
    ensures Decode(Encode(es)) == Some(es)
  {
    if es != [] {
      DecodeNulFree(es[1..]);
      assert es == [es[0]] + es[1..];
      EncodeCons(es[0], es[1..]);
      DecodeBlock(es[0], Encode(es[1..]));
    }
  }

  lemma DecodeBlock(e: Entry, rest: Bytes)
    requires 0 !in e.name && Decode(rest).Some?
    ensures Decode(Block(e) + rest) == Some([e] + Decode(rest).value)
  {
    var s, n := Block(e) + rest, |e.name|;
    assert s == e.name + ([0] + (e.digest + rest));
    NameLengthIs(e.name, e.digest + rest);
    assert s[..n] == e.name;
    assert s[n + 1..n + 1 + DIGEST_SIZE] == e.digest;
    assert s[n + 1 + DIGEST_SIZE..] == rest;
  }

  lemma NameLengthIs(name: Bytes, rest: Bytes)
    requires 0 !in name
    ensures NameLength(name + ([0] + rest)) == |name|
  {
    var s := name + ([0] + rest);
    assert s[|name|] == 0;
    assert forall i :: 0 <= i < |name| ==> s[i] == name[i] != 0;
  }

  lemma {:induction false} DecodedIsNulFree(s: Bytes)
    ensures Decode(s).Some? ==> NulFree(Decode(s).value)
    decreases |s|
  {
    if s != [] {
      var n := NameLength(s);
      if n + 1 + DIGEST_SIZE <= |s| {
        DecodedIsNulFree(s[n + 1 + DIGEST_SIZE..]);
        assert 0 !in s[..n];
      }
    }
  }

  // ------------------------------------------------------------------ what the stream determines

  ghost predicate NulFreeNames(files: Files) {
    forall n :: n in files ==> 0 !in n
  }

  function Stream(keys: seq<Bytes>, files: Files, h: Bytes -> Digest): Bytes
    requires Lists(keys, files)
  {
    SortedNames(keys, files);
    Encode(Entries(Sorting.Sort(keys, NameLe), files, h))
  }

  lemma NameOrder()
    ensures Sorting.Total(NameLe) && Sorting.Transitive(NameLe)
    ensures forall a, b :: NameLe(a, b) && NameLe(b, a) ==> a == b
  {
    forall a: Bytes, b: Bytes
      ensures NameLe(a, b) || NameLe(b, a)
      ensures NameLe(a, b) && NameLe(b, a) ==> a == b
    {
      Lex.Trichotomy(a, b);
    }
    forall a: Bytes, b: Bytes, c: Bytes | NameLe(a, b) && NameLe(b, c)
      ensures NameLe(a, c)
    {
      Lex.AtMostTransitive(a, b, c);
    }
  }

  /** The stream does not depend on the order the dict was filled in. */
  lemma StreamIgnoresInsertionOrder(keys: seq<Bytes>, keys': seq<Bytes>, files: Files, h: Bytes -> Digest)
    requires Lists(keys, files) && Lists(keys', files)
    ensures Stream(keys, files, h) == Stream(keys', files, h)
  {
    var names, names' := Sorting.Sort(keys, NameLe), Sorting.Sort(keys', NameLe);
    SortedNames(keys, files);
    SortedNames(keys', files);
    DistinctCounts(names);
    DistinctCounts(names');
    forall n
      ensures multiset(names)[n] == multiset(names')[n]
    {
      assert n in names <==> n in names';
      assert n in names <==> n in multiset(names);
      assert n in names' <==> n in multiset(names');
    }
    NameOrder();
    Sorting.SortSorted(keys, NameLe);
    Sorting.SortSorted(keys', NameLe);
    Sorting.UniqueListing(names, names', NameLe);
  }

  /** Two trees give the same stream exactly when they hold the same names with the same content
      digests: beyond the content digest itself, the stream confuses nothing. */
  lemma StreamDeterminesTree(
    keys: seq<Bytes>, files: Files, keys': seq<Bytes>, files': Files, h: Bytes -> Digest)
    requires Lists(keys, files) && Lists(keys', files')
    requires NulFreeNames(files) && NulFreeNames(files')
    ensures Stream(keys, files, h) == Stream(keys', files', h)
       <==> files.Keys == files'.Keys && forall n :: n in files ==> h(files[n]) == h(files'[n])
  {
    SortedNames(keys, files);
    SortedNames(keys', files');
    var names, names' := Sorting.Sort(keys, NameLe), Sorting.Sort(keys', NameLe);
    var es, es' := Entries(names, files, h), Entries(names', files', h);
    if Stream(keys, files, h) == Stream(keys', files', h) {
      DecodeNulFree(es);
      DecodeNulFree(es');
      SameEntries(names, files, names', files', h);
    }
    if files.Keys == files'.Keys && forall n :: n in files ==> h(files[n]) == h(files'[n]) {
      SameDigestsSameStream(keys, files, keys', files', h);
    }
  }

  lemma SameDigestsSameStream(
    keys: seq<Bytes>, files: Files, keys': seq<Bytes>, files': Files, h: Bytes -> Digest)
    requires Lists(keys, files) && Lists(keys', files')
    requires files.Keys == files'.Keys && forall n :: n in files ==> h(files[n]) == h(files'[n])
    ensures Stream(keys, files, h) == Stream(keys', files', h)
  {
    StreamIgnoresInsertionOrder(keys, keys', files, h);
    SortedNames(keys', files');
    var names' := Sorting.Sort(keys', NameLe);
    assert Entries(names', files, h) == Entries(names', files', h);
  }

  lemma SameEntries(names: seq<Bytes>, files: Files, names': seq<Bytes>, files': Files, h: Bytes -> Digest)
    requires forall n :: n in names <==> n in files
    requires forall n :: n in names' <==> n in files'
    requires Entries(names, files, h) == Entries(names', files', h)
    ensures files.Keys == files'.Keys && forall n :: n in files ==> h(files[n]) == h(files'[n])
  {
    var es, es' := Entries(names, files, h), Entries(names', files', h);
    forall i | 0 <= i < |names|
      ensures names[i] == names'[i] && h(files[names[i]]) == h(files'[names[i]])
    {
      assert es[i] == es'[i];
    }
    assert names == names';
    forall n
      ensures n in files <==> n in files'
      ensures n in files ==> h(files[n]) == h(files'[n])
    {
      if n in names {
        var i :| 0 <= i < |names| && names[i] == n;
      }
    }
  }

  /** Bytes that are UTF-8 text of their own, one character each. */
  predicate Ascii(s: Bytes) {
    forall i :: 0 <= i < |s| ==> s[i] < 128
  }

  /** Without the NUL-free condition two different trees collide, as soon as some content has a digest of
      ASCII bytes: one name can spell out a whole block of another tree. */
  lemma NulNamesCollide(h: Bytes -> Digest, content: Bytes)
    requires Ascii(h(content))
    ensures var one := Entry([97], h(content));
      var two := Entry([98], h(content));
      var glued := Entry(Block(one) + [98], h(content));
      Encode([one, two]) == Encode([glued]) && [one, two] != [glued] &&
      Ascii(one.name) && Ascii(two.name) && Ascii(glued.name)
  {
    var one, two := Entry([97], h(content)), Entry([98], h(content));
    var glued := Entry(Block(one) + [98], h(content));
    assert [one, two] == [one] + [two] && [two] == [two] + [] && [one] == [one] + [];
    EncodeCons(one, [two]);
    EncodeCons(two, []);
    EncodeCons(glued, []);
    assert [glued] == [glued] + [];
    assert Block(one) + Block(two) == Block(glued);
    assert |[one, two]| != |[glued]|;
  }

  // ------------------------------------------------------------------ the layout and the order

  /** Entries are laid out one after the other, each as its name, a NUL and its digest. */
  lemma {:induction false} Layout(e: Entry, es: seq<Entry>, fs: seq<Entry>)
    ensures Encode([]) == [] && Encode([e]) == e.name + [0] + e.digest
    ensures Encode(es + fs) == Encode(es) + Encode(fs)
  {
    assert [e] == [e] + [];
    EncodeCons(e, []);
    if fs == [] {
      assert es + fs == es;
    } else {
      var init, last := fs[..|fs| - 1], fs[|fs| - 1];
      Layout(e, es, init);
      assert (es + fs)[..|es + fs| - 1] == es + init && (es + fs)[|es + fs| - 1] == last;
    }
  }

  /** `a` is a proper prefix of `b`, or has the smaller byte where they first differ. */
  ghost predicate ComesBefore(a: Bytes, b: Bytes) {
    a < b || exists k: nat :: k < |a| && k < |b| && a[..k] == b[..k] && a[k] < b[k]
  }

  lemma BeforeExactly(a: Bytes, b: Bytes)
    requires a != b
    ensures NameLe(a, b) <==> ComesBefore(a, b)
  {
    Lex.Trichotomy(a, b);
    Lex.LessExactly(a, b);
    if k: nat :| Lex.SmallerAt(a, b, k) {
      assert a[..k] == b[..k];
    }
    if k: nat :| k < |a| && k < |b| && a[..k] == b[..k] && a[k] < b[k] {
      assert Lex.SmallerAt(a, b, k);
    }
  }

  /** The stream of a tree without NUL in its names decodes to one entry for each file, in ascending order of
      names. */
  lemma StreamInOrder(keys: seq<Bytes>, files: Files, h: Bytes -> Digest)
    requires Lists(keys, files) && NulFreeNames(files)
    ensures Decode(Stream(keys, files, h)).Some?
    ensures var es := Decode(Stream(keys, files, h)).value;
      && (forall e :: e in es <==> e.name in files && e.digest == h(files[e.name]))
      && (forall i, j :: 0 <= i < j < |es| ==> ComesBefore(es[i].name, es[j].name))
  {
    SortedNames(keys, files);
    NameOrder();
    Sorting.SortSorted(keys, NameLe);
    var names := Sorting.Sort(keys, NameLe);
    var es := Entries(names, files, h);
    DecodeNulFree(es);
    forall i, j | 0 <= i < j < |es|
      ensures ComesBefore(es[i].name, es[j].name)
    {
      BeforeExactly(names[i], names[j]);
    }
    EntriesOfFiles(names, files, h);
  }

  lemma EntriesOfFiles(names: seq<Bytes>, files: Files, h: Bytes -> Digest)
    requires forall n :: n in names <==> n in files
    ensures forall e :: e in Entries(names, files, h) <==> e.name in files && e.digest == h(files[e.name])
  {
    var es := Entries(names, files, h);
    forall e
      ensures e in es <==> e.name in files && e.digest == h(files[e.name])
    {
      if e in es {
        var i :| 0 <= i < |es| && es[i] == e;
        assert names[i] in names;
      }
      if e.name in files && e.digest == h(files[e.name]) {
        var i :| 0 <= i < |names| && names[i] == e.name;
        assert es[i] == e;
      }
    }
  }
}
