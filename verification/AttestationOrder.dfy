/** The order of siblings never matters to the search: reordering an attestation payload anywhere, inside
    a unit too, keeps the number of units that meet the policy. */
module AttestationOrder {
  import opened Wrappers
  import opened Seqs
  import opened Attestation

  // ------------------------------------------------------------------ one subtree replaced

  /** The tree with `x` in place of the subtree at `path`. */
  function Replace(v: Json, path: Path, x: Json): Json
    requires At(v, path).Some?
    decreases path
  {
    if path == [] then x else WithChild(v, path[0], Replace(Children(v)[path[0]], path[1..], x))
  }

  function WithChild(v: Json, i: nat, x: Json): Json
    requires i < |Children(v)|
  {
    match v
    case Object(fs) => Object(fs[i := Field(fs[i].key, x)])
    case List(items) => List(items[i := x])
  }

  lemma WithChildCount(v: Json, i: nat, x: Json, ok: Json -> bool)
    requires i < |Children(v)| && !IsUnit(v) && !IsUnit(WithChild(v, i, x))
    ensures MatchCount(WithChild(v, i, x), ok) + MatchCount(Children(v)[i], ok)
         == MatchCount(v, ok) + MatchCount(x, ok)
  {
    var before, after := Children(v), Children(WithChild(v, i, x));
    assert after == before[i := x];
    assert Without(after, i) == Without(before, i);
    MatchCountWithout(before, i, ok);
    MatchCountWithout(after, i, ok);
    if v.Object? {
      FieldUnitsAreItemUnits(v.fields);
      FieldUnitsAreItemUnits(WithChild(v, i, x).fields);
    }
  }

  lemma {:induction false} GetReplaced(fs: Fields, i: nat, x: Json, key: string)
    requires i < |fs| && fs[i].value.Object? == x.Object?
    ensures GetObject(fs[i := Field(fs[i].key, x)], key).Some? <==> GetObject(fs, key).Some?
  {
    if i > 0 {
      var gs := fs[i := Field(fs[i].key, x)];
      assert gs[1..] == fs[1..][i - 1 := Field(fs[i].key, x)];
      GetReplaced(fs[1..], i - 1, x, key);
    }
  }

  /** Replacing a child by one of the same kind neither makes nor breaks a unit. */
  lemma WithChildUnit(v: Json, i: nat, x: Json)
    requires i < |Children(v)| && Children(v)[i].Object? == x.Object?
    ensures IsUnit(WithChild(v, i, x)) <==> IsUnit(v)
  {
    if v.Object? {
      GetReplaced(v.fields, i, x, "attestation");
      GetReplaced(v.fields, i, x, "verificationResult");
    }
  }

  /** A subtree that no unit encloses contributes its own match count and nothing else. */
  lemma {:induction false} MatchCountReplaced(v: Json, path: Path, x: Json, ok: Json -> bool)
    requires At(v, path).Some? && At(v, path).value.Object? == x.Object?
    requires forall q :: q < path ==> !UnitAt(v, q)
    ensures MatchCount(Replace(v, path, x), ok) + MatchCount(At(v, path).value, ok)
         == MatchCount(v, ok) + MatchCount(x, ok)
    ensures Replace(v, path, x).Object? == v.Object?
    decreases path
  {
    if path != [] {
      var i, rest := path[0], path[1..];
      var child := Children(v)[i];
      assert [] < path && !UnitAt(v, []);
      forall q | q < rest
        ensures !UnitAt(child, q)
      {
        assert [i] + q < path && ([i] + q)[1..] == q && !UnitAt(v, [i] + q);
      }
      MatchCountReplaced(child, rest, x, ok);
      WithChildUnit(v, i, Replace(child, rest, x));
      WithChildCount(v, i, Replace(child, rest, x), ok);
    }
  }

  /** Permuting a list anywhere outside the units keeps the count of matches, for any condition. */
  lemma ListPermutedAnywhere(v: Json, path: Path, a: seq<Json>, b: seq<Json>, ok: Json -> bool)
    requires At(v, path) == Some(List(a)) && multiset(a) == multiset(b)
    requires forall q :: q < path ==> !UnitAt(v, q)
    ensures MatchCount(Replace(v, path, List(b)), ok) == MatchCount(v, ok)
  {
    MatchCountPermuted(a, b, ok);
    MatchCountReplaced(v, path, List(b), ok);
  }

  /** Permuting the members of an object anywhere outside the units keeps the count of matches, for any
      condition. */
  lemma FieldsPermutedAnywhere(v: Json, path: Path, fs: Fields, gs: Fields, ok: Json -> bool)
    requires At(v, path) == Some(Object(fs)) && Permuted(fs, gs)
    requires forall q :: q <= path ==> !UnitAt(v, q)
    ensures MatchCount(Replace(v, path, Object(gs)), ok) == MatchCount(v, ok)
  {
    assert path <= path && !UnitAt(v, path);
    MatchCountFieldsPermuted(fs, gs, ok);
    MatchCountReplaced(v, path, Object(gs), ok);
  }

  // ------------------------------------------------------------------ reordering at every depth

  ghost predicate Permuted(fs: Fields, gs: Fields) {
    DistinctFieldKeys(fs) && DistinctFieldKeys(gs) && multiset(fs) == multiset(gs)
  }

  /** `w` is `v` with list elements and object members reordered, at any number of places. */
  ghost predicate Reordered(v: Json, w: Json)
    decreases v, 1
  {
    match v
    case List(a) => w.List? && exists b :: multiset(b) == multiset(w.items) && EachReordered(a, b)
    case Object(fs) =>
      w.Object? && exists gs :: (gs == w.fields || Permuted(gs, w.fields)) && EachFieldReordered(fs, gs)
    case _ => v == w
  }

  ghost predicate EachReordered(a: seq<Json>, b: seq<Json>)
    decreases a, 0
  {
    |a| == |b| && forall i :: 0 <= i < |a| ==> Reordered(a[i], b[i])
  }

  ghost predicate EachFieldReordered(fs: Fields, gs: Fields)
    decreases fs, 0
  {
    |fs| == |gs| && forall i :: 0 <= i < |fs| ==> fs[i].key == gs[i].key && Reordered(fs[i].value, gs[i].value)
  }

  lemma {:induction false} ReorderedItself(v: Json)
    ensures Reordered(v, v)
  {
    match v
    case List(items) =>
      forall i | 0 <= i < |items|
        ensures Reordered(items[i], items[i])
      {
        ReorderedItself(items[i]);
      }
      assert EachReordered(items, items);
    case Object(fs) =>
      forall i | 0 <= i < |fs|
        ensures Reordered(fs[i].value, fs[i].value)
      {
        ReorderedItself(fs[i].value);
      }
      assert EachFieldReordered(fs, fs);
    case _ =>
  }

  lemma ReorderedChild(v: Json, i: nat, x: Json)
    requires i < |Children(v)| && Reordered(Children(v)[i], x)
    ensures Reordered(v, WithChild(v, i, x))
  {
    forall j | 0 <= j < |Children(v)|
      ensures Reordered(Children(v)[j], Children(WithChild(v, i, x))[j])
    {
      ReorderedItself(Children(v)[j]);
    }
    match v {
      case List(items) => assert EachReordered(items, items[i := x]);
      case Object(fs) => assert EachFieldReordered(fs, fs[i := Field(fs[i].key, x)]);
    }
  }

  /** Reordering one subtree, at any path, is a reordering of the tree. */
  lemma {:induction false} ReorderedAt(v: Json, path: Path, x: Json)
    requires At(v, path).Some? && Reordered(At(v, path).value, x)
    ensures Reordered(v, Replace(v, path, x))
    decreases path
  {
    if path != [] {
      ReorderedAt(Children(v)[path[0]], path[1..], x);
      ReorderedChild(v, path[0], Replace(Children(v)[path[0]], path[1..], x));
    }
  }

  lemma ReorderedSiblings(a: seq<Json>, b: seq<Json>, fs: Fields, gs: Fields)
    ensures multiset(a) == multiset(b) ==> Reordered(List(a), List(b))
    ensures Permuted(fs, gs) ==> Reordered(Object(fs), Object(gs))
  {
    ReorderedItself(List(a));
    ReorderedItself(Object(fs));
    if multiset(a) == multiset(b) {
      var c :| multiset(c) == multiset(a) && EachReordered(a, c);
      assert multiset(c) == multiset(b);
    }
    if Permuted(fs, gs) {
      var hs: Fields :| (hs == fs || Permuted(hs, fs)) && EachFieldReordered(fs, hs);
      assert Permuted(hs, gs);
    }
  }

  // ------------------------------------------------------------------ trees with the same evidence

  /** No earlier member has the key of member `i`. */
  predicate First(fs: Fields, i: nat)
    requires i < |fs|
  {
    forall j :: 0 <= j < i ==> fs[j].key != fs[i].key
  }

  /** The same leaves under the same keys, whatever the order and the number of copies. */
  ghost predicate Alike(v: Json, w: Json)
    decreases v, 1
  {
    match v
    case List(a) =>
      && w.List?
      && (forall i :: 0 <= i < |a| ==> ItemIn(a, i, w.items))
      && (forall j :: 0 <= j < |w.items| ==> ItemOf(a, w.items, j))
    case Object(fs) =>
      && w.Object?
      && (forall i :: 0 <= i < |fs| ==> FieldIn(fs, i, w.fields))
      && (forall j :: 0 <= j < |w.fields| ==> FieldOf(fs, w.fields, j))
    case _ => v == w
  }

  ghost predicate ItemIn(a: seq<Json>, i: nat, b: seq<Json>)
    requires i < |a|
    decreases a, 0
  {
    exists j :: 0 <= j < |b| && Alike(a[i], b[j])
  }

  ghost predicate ItemOf(a: seq<Json>, b: seq<Json>, j: nat)
    requires j < |b|
    decreases a, 0
  {
    exists i :: 0 <= i < |a| && Alike(a[i], b[j])
  }

  ghost predicate FieldIn(fs: Fields, i: nat, gs: Fields)
    requires i < |fs|
    decreases fs, 1
  {
    exists j :: 0 <= j < |gs| && AlikeFields(fs, i, gs, j)
  }

  ghost predicate FieldOf(fs: Fields, gs: Fields, j: nat)
    requires j < |gs|
    decreases fs, 1
  {
    exists i :: 0 <= i < |fs| && AlikeFields(fs, i, gs, j)
  }

  ghost predicate AlikeFields(fs: Fields, i: nat, gs: Fields, j: nat)
    requires i < |fs| && j < |gs|
    decreases fs, 0
  {
    fs[i].key == gs[j].key && First(fs, i) == First(gs, j) && Alike(fs[i].value, gs[j].value)
  }

  lemma {:induction false} AlikeBackwards(v: Json, w: Json)
    requires Alike(v, w)
    ensures Alike(w, v)
    decreases v
  {
    match v
    case List(a) =>
      forall i, j | 0 <= i < |a| && 0 <= j < |w.items| && Alike(a[i], w.items[j])
        ensures Alike(w.items[j], a[i])
      {
        AlikeBackwards(a[i], w.items[j]);
      }
      BackwardsItems(a, w.items);
    case Object(fs) =>
      forall i, j | 0 <= i < |fs| && 0 <= j < |w.fields| && AlikeFields(fs, i, w.fields, j)
        ensures AlikeFields(w.fields, j, fs, i)
      {
        AlikeBackwards(fs[i].value, w.fields[j].value);
      }
      BackwardsFields(fs, w.fields);
    case _ =>
  }

  lemma BackwardsItems(a: seq<Json>, b: seq<Json>)
    requires Alike(List(a), List(b))
    requires forall i, j :: 0 <= i < |a| && 0 <= j < |b| && Alike(a[i], b[j]) ==> Alike(b[j], a[i])
    ensures Alike(List(b), List(a))
  {
    forall j | 0 <= j < |b|
      ensures ItemIn(b, j, a)
    {
      assert ItemOf(a, b, j);
    }
    forall i | 0 <= i < |a|
      ensures ItemOf(b, a, i)
    {
      assert ItemIn(a, i, b);
    }
  }

  lemma BackwardsFields(fs: Fields, gs: Fields)
    requires Alike(Object(fs), Object(gs))
    requires forall i, j :: (0 <= i < |fs| && 0 <= j < |gs| && AlikeFields(fs, i, gs, j)) ==> AlikeFields(gs, j, fs, i)
    ensures Alike(Object(gs), Object(fs))
  {
    forall j | 0 <= j < |gs|
      ensures FieldIn(gs, j, fs)
    {
      assert FieldOf(fs, gs, j);
    }
    forall i | 0 <= i < |fs|
      ensures FieldOf(gs, fs, i)
    {
      assert FieldIn(fs, i, gs);
    }
  }

  // ------------------------------------------------------------------ reordered trees are alike

  lemma {:induction false} ReorderedAlike(v: Json, w: Json)
    requires Reordered(v, w)
    ensures Alike(v, w)
    decreases v
  {
    match v
    case List(a) =>
      var b :| multiset(b) == multiset(w.items) && EachReordered(a, b);
      forall i | 0 <= i < |a|
        ensures Alike(a[i], b[i])
      {
        ReorderedAlike(a[i], b[i]);
      }
      AlikeLists(a, b, w.items);
    case Object(fs) =>
      var gs: Fields :| (gs == w.fields || Permuted(gs, w.fields)) && EachFieldReordered(fs, gs);
      forall i | 0 <= i < |fs|
        ensures fs[i].key == gs[i].key && Alike(fs[i].value, gs[i].value)
      {
        ReorderedAlike(fs[i].value, gs[i].value);
      }
      AlikeObjects(fs, gs, w.fields);
    case _ =>
  }

  lemma AlikeLists(a: seq<Json>, b: seq<Json>, c: seq<Json>)
    requires |a| == |b| && forall i :: 0 <= i < |a| ==> Alike(a[i], b[i])
    requires multiset(b) == multiset(c)
    ensures Alike(List(a), List(c))
  {
    forall i | 0 <= i < |a|
      ensures ItemIn(a, i, c)
    {
      assert b[i] in multiset(c);
      var j :| 0 <= j < |c| && c[j] == b[i];
      assert Alike(a[i], c[j]);
    }
    forall j | 0 <= j < |c|
      ensures ItemOf(a, c, j)
    {
      assert c[j] in multiset(b);
      var i :| 0 <= i < |b| && b[i] == c[j];
      assert Alike(a[i], b[i]);
    }
  }

  lemma AlikeObjects(fs: Fields, gs: Fields, hs: Fields)
    requires |fs| == |gs|
    requires forall i :: 0 <= i < |fs| ==> fs[i].key == gs[i].key && Alike(fs[i].value, gs[i].value)
    requires gs == hs || Permuted(gs, hs)
    ensures Alike(Object(fs), Object(hs))
  {
    forall i | 0 <= i < |fs|
      ensures First(fs, i) == First(gs, i)
    {
      assert forall j :: 0 <= j < i ==> fs[j].key == gs[j].key;
    }
    forall i | 0 <= i < |fs|
      ensures FieldIn(fs, i, hs)
    {
      var j := Counterpart(gs, hs, i);
      assert AlikeFields(fs, i, hs, j);
    }
    forall j | 0 <= j < |hs|
      ensures FieldOf(fs, hs, j)
    {
      var i := Counterpart(hs, gs, j);
      assert AlikeFields(fs, i, hs, j);
    }
  }

  lemma Counterpart(gs: Fields, hs: Fields, i: nat) returns (j: nat)
    requires i < |gs| && (gs == hs || Permuted(gs, hs))
    ensures j < |hs| && hs[j] == gs[i] && First(gs, i) == First(hs, j)
  {
    if gs == hs {
      j := i;
    } else {
      assert gs[i] in multiset(hs);
      j :| 0 <= j < |hs| && hs[j] == gs[i];
    }
  }

  // ------------------------------------------------------------------ alike objects, member by member

  lemma {:induction false} GetIsFirst(fs: Fields, i: nat)
    requires i < |fs| && First(fs, i)
    ensures Get(fs, fs[i].key) == Some(fs[i].value)
  {
    if i > 0 {
      assert fs[0].key != fs[i].key;
      assert First(fs[1..], i - 1) by {
        assert forall j :: 0 <= j < i - 1 ==> fs[1..][j] == fs[j + 1];
      }
      GetIsFirst(fs[1..], i - 1);
    }
  }

  lemma {:induction false} FirstOfKey(fs: Fields, key: string) returns (i: nat)
    requires Get(fs, key).Some?
    ensures i < |fs| && First(fs, i) && fs[i].key == key
  {
    if fs[0].key == key {
      i := 0;
    } else {
      var k := FirstOfKey(fs[1..], key);
      i := k + 1;
      assert forall j :: 0 < j < i ==> fs[j] == fs[1..][j - 1];
    }
  }

  /** Alike objects answer `get` with alike values. */
  lemma AlikeGet(fs: Fields, gs: Fields, key: string)
    requires Alike(Object(fs), Object(gs))
    ensures Get(fs, key).Some? == Get(gs, key).Some?
    ensures Get(fs, key).Some? ==> Alike(Get(fs, key).value, Get(gs, key).value)
  {
    if Get(fs, key).Some? {
      AlikeHit(fs, gs, key);
    } else if Get(gs, key).Some? {
      AlikeBackwards(Object(fs), Object(gs));
      AlikeHit(gs, fs, key);
    }
  }

  lemma AlikeHit(fs: Fields, gs: Fields, key: string)
    requires Alike(Object(fs), Object(gs)) && Get(fs, key).Some?
    ensures Get(gs, key).Some? && Alike(Get(fs, key).value, Get(gs, key).value)
  {
    var i := FirstOfKey(fs, key);
    GetIsFirst(fs, i);
    assert FieldIn(fs, i, gs);
    var j :| 0 <= j < |gs| && AlikeFields(fs, i, gs, j);
    GetIsFirst(gs, j);
  }

  lemma AlikeGetObject(fs: Fields, gs: Fields, key: string)
    requires Alike(Object(fs), Object(gs))
    ensures GetObject(fs, key).Some? == GetObject(gs, key).Some?
    ensures GetObject(fs, key).Some? ==> Alike(Object(GetObject(fs, key).value), Object(GetObject(gs, key).value))
  {
    AlikeGet(fs, gs, key);
  }

  lemma AlikeMember(fs: Fields, gs: Fields, f: Field) returns (g: Field)
    requires Alike(Object(fs), Object(gs)) && f in fs
    ensures g in gs && g.key == f.key && Alike(f.value, g.value)
  {
    var i :| 0 <= i < |fs| && fs[i] == f;
    assert FieldIn(fs, i, gs);
    var j :| 0 <= j < |gs| && AlikeFields(fs, i, gs, j);
    g := gs[j];
  }

  lemma AlikeUnit(v: Json, w: Json)
    requires Alike(v, w)
    ensures IsUnit(v) == IsUnit(w)
  {
    if v.Object? {
      AlikeGetObject(v.fields, w.fields, "attestation");
      AlikeGetObject(v.fields, w.fields, "verificationResult");
    }
  }

  // ------------------------------------------------------------------ alike nodes below

  lemma AlikeChild(v: Json, w: Json, i: nat) returns (j: nat)
    requires Alike(v, w) && i < |Children(v)|
    ensures j < |Children(w)| && Alike(Children(v)[i], Children(w)[j])
  {
    if v.Object? {
      assert FieldIn(v.fields, i, w.fields);
      j :| 0 <= j < |w.fields| && AlikeFields(v.fields, i, w.fields, j);
    } else {
      assert ItemIn(v.items, i, w.items);
      j :| 0 <= j < |w.items| && Alike(v.items[i], w.items[j]);
    }
  }

  lemma {:induction false} AlikeAt(v: Json, w: Json, path: Path) returns (other: Path)
    requires Alike(v, w) && At(v, path).Some?
    ensures At(w, other).Some? && Alike(At(v, path).value, At(w, other).value)
    decreases path
  {
    if path == [] {
      other := [];
    } else {
      var j := AlikeChild(v, w, path[0]);
      var rest := AlikeAt(Children(v)[path[0]], Children(w)[j], path[1..]);
      other := [j] + rest;
      assert other[1..] == rest;
    }
  }

  /** Every object inside a tree has its like inside an alike tree. */
  lemma AlikeDict(v: Json, w: Json, fs: Fields) returns (gs: Fields)
    requires Alike(v, w) && fs in Dicts(v)
    ensures gs in Dicts(w) && Alike(Object(fs), Object(gs))
  {
    var n :| n in Walk(v) && n.Object? && n.fields == fs;
    WalkVisitsEveryNode(v, n);
    var path: Path :| At(v, path) == Some(n);
    var other := AlikeAt(v, w, path);
    var m := At(w, other).value;
    WalkVisitsEveryNode(w, m);
    gs := m.fields;
  }

  // ------------------------------------------------------------------ alike evidence

  lemma AlikeWorkflowNode(s: Fields, t: Fields, fs: Fields) returns (gs: Fields)
    requires Alike(Object(s), Object(t)) && fs in WorkflowNodes(s)
    ensures gs in WorkflowNodes(t) && Alike(Object(fs), Object(gs))
  {
    if fs in Dicts(Object(s)) && IsWorkflowObject(fs) {
      gs := AlikeDict(Object(s), Object(t), fs);
      AlikeGet(fs, gs, "repository");
      AlikeGet(fs, gs, "path");
      AlikeGet(fs, gs, "ref");
    } else {
      var outer :| outer in Dicts(Object(s)) && GetObject(outer, "workflow") == Some(fs);
      var other := AlikeDict(Object(s), Object(t), outer);
      AlikeGetObject(outer, other, "workflow");
      gs := GetObject(other, "workflow").value;
    }
  }

  lemma AlikeWorkflowMatches(fs: Fields, gs: Fields, p: Policy)
    requires Alike(Object(fs), Object(gs)) && WorkflowMatches(fs, p)
    ensures WorkflowMatches(gs, p)
  {
    AlikeGet(fs, gs, "repository");
    AlikeGet(fs, gs, "path");
    AlikeGet(fs, gs, "event");
    AlikeGet(fs, gs, "event_name");
    AlikeGet(fs, gs, "ref");
  }

  lemma AlikeCertificateMatches(fs: Fields, gs: Fields, p: Policy)
    requires Alike(Object(fs), Object(gs)) && CertificateMatches(fs, p)
    ensures CertificateMatches(gs, p)
  {
    AlikeGet(fs, gs, "subjectAlternativeName");
    AlikeGet(fs, gs, "sourceRepositoryURI");
    AlikeGet(fs, gs, "githubWorkflowRepository");
    AlikeGet(fs, gs, "buildSignerURI");
    AlikeGet(fs, gs, "sourceRepositoryRef");
    AlikeGet(fs, gs, "githubWorkflowRef");
    AlikeGet(fs, gs, "buildTrigger");
    AlikeGet(fs, gs, "githubWorkflowTrigger");
  }

  lemma AlikeSignerBound(s: Fields, t: Fields, c: Fields, d: Fields, p: Policy)
    requires Alike(Object(s), Object(t)) && Alike(Object(c), Object(d)) && SignerBound(s, c, p)
    ensures SignerBound(t, d, p)
  {
    AlikeGet(c, d, "subjectAlternativeName");
    if CertificateMatches(c, p) {
      AlikeCertificateMatches(c, d, p);
    } else {
      var fs :| fs in WorkflowNodes(s) && WorkflowMatches(fs, p);
      var gs := AlikeWorkflowNode(s, t, fs);
      AlikeWorkflowMatches(fs, gs, p);
    }
  }

  lemma AlikeUnder(fs: Fields, gs: Fields, keys: set<string>, text: string)
    requires Alike(Object(fs), Object(gs)) && Text(text) in Under(fs, keys)
    ensures Text(text) in Under(gs, keys)
  {
    var k :| k in keys && Get(fs, k) == Some(Text(text));
    AlikeGet(fs, gs, k);
  }

  lemma AlikeDigestValues(fs: Fields, gs: Fields, text: string)
    requires Alike(Object(fs), Object(gs)) && Text(text) in DigestValues(fs)
    ensures Text(text) in DigestValues(gs)
  {
    AlikeGetObject(fs, gs, "digest");
    var ds, es := GetObject(fs, "digest").value, GetObject(gs, "digest").value;
    var f :| f in ds && f.value == Text(text);
    var g := AlikeMember(ds, es, f);
  }

  lemma AlikeDependency(fs: Fields, gs: Fields, p: Policy, d: Fields) returns (e: Fields)
    requires Alike(Object(fs), Object(gs)) && d in OwnDependencies(fs, p)
    ensures e in OwnDependencies(gs, p) && Alike(Object(d), Object(e))
  {
    AlikeGet(fs, gs, "resolvedDependencies");
    var a, b := Get(fs, "resolvedDependencies").value, Get(gs, "resolvedDependencies").value;
    var i :| 0 <= i < |a.items| && a.items[i] == Object(d);
    var j := AlikeChild(a, b, i);
    e := b.items[j].fields;
    AlikeGet(d, e, "uri");
    assert b.items[j] in b.items;
  }

  lemma AlikeOffer(fs: Fields, gs: Fields, text: string)
    requires Alike(Object(fs), Object(gs)) && Text(text) in Under(fs, REVISION_KEYS) + DigestValues(fs)
    ensures Text(text) in Under(gs, REVISION_KEYS) + DigestValues(gs)
  {
    if Text(text) in DigestValues(fs) {
      AlikeDigestValues(fs, gs, text);
    } else {
      AlikeUnder(fs, gs, REVISION_KEYS, text);
    }
  }

  lemma AlikeNodeRevisions(fs: Fields, gs: Fields, p: Policy, text: string)
    requires Alike(Object(fs), Object(gs)) && Text(text) in NodeRevisions(fs, p)
    ensures Text(text) in NodeRevisions(gs, p)
  {
    AlikeGetObject(fs, gs, "configSource");
    var source, other := GetObject(fs, "configSource"), GetObject(gs, "configSource");
    if Text(text) in Under(fs, NODE_KEYS) {
      AlikeUnder(fs, gs, NODE_KEYS, text);
    } else if source.Some? && Text(text) in Under(source.value, REVISION_KEYS) + DigestValues(source.value) {
      AlikeOffer(source.value, other.value, text);
    } else {
      var d :| d in OwnDependencies(fs, p) && Text(text) in Under(d, REVISION_KEYS) + DigestValues(d);
      var e := AlikeDependency(fs, gs, p, d);
      AlikeOffer(d, e, text);
    }
  }

  lemma AlikeRevisionValues(s: Fields, t: Fields, c: Fields, d: Fields, p: Policy, text: string)
    requires Alike(Object(s), Object(t)) && Alike(Object(c), Object(d))
    requires Text(text) in RevisionValues(s, c, p)
    ensures Text(text) in RevisionValues(t, d, p)
  {
    if Text(text) in Under(c, CERTIFICATE_KEYS) {
      AlikeUnder(c, d, CERTIFICATE_KEYS, text);
    } else if fs :| fs in WorkflowNodes(s) && Text(text) in Under(fs, REVISION_KEYS) {
      var gs := AlikeWorkflowNode(s, t, fs);
      AlikeUnder(fs, gs, REVISION_KEYS, text);
    } else {
      var fs :| fs in Dicts(Object(s)) && Text(text) in NodeRevisions(fs, p);
      var gs := AlikeDict(Object(s), Object(t), fs);
      AlikeNodeRevisions(fs, gs, p, text);
    }
  }

  lemma AlikeCommits(s: Fields, t: Fields, c: Fields, d: Fields, p: Policy, commit: string)
    requires Alike(Object(s), Object(t)) && Alike(Object(c), Object(d))
    requires commit in Commits(RevisionValues(s, c, p), p)
    ensures commit in Commits(RevisionValues(t, d, p), p)
  {
    var v :| v in RevisionValues(s, c, p) && v.Text? && p.readers.readCommit(v.text) == Some(commit);
    AlikeRevisionValues(s, t, c, d, p, v.text);
  }

  lemma AlikeRunIds(fs: Fields, gs: Fields, p: Policy, id: string)
    requires Alike(Object(fs), Object(gs)) && id in RunIds(fs, p)
    ensures id in RunIds(gs, p)
  {
    var inner, f :| inner in Dicts(Object(fs)) && f in inner && RunIdOf(f, p) == Some(id);
    var other := AlikeDict(Object(fs), Object(gs), inner);
    var g := AlikeMember(inner, other, f);
    assert RunIdOf(g, p) == Some(id);
  }

  lemma AlikeSubject(v: Json, w: Json, name: string, digest: string)
    requires Alike(v, w) && IsSubject(v, name, digest)
    ensures IsSubject(w, name, digest)
  {
    AlikeGet(v.fields, w.fields, "name");
    AlikeGetObject(v.fields, w.fields, "digest");
    var ds, es := GetObject(v.fields, "digest").value, GetObject(w.fields, "digest").value;
    var g := AlikeMember(ds, es, Field("sha256", Text(digest)));
  }

  lemma AlikeHasSubject(a: seq<Json>, b: seq<Json>, name: string, digest: string)
    requires Alike(List(a), List(b)) && HasSubject(a, name, digest)
    ensures HasSubject(b, name, digest)
  {
    var i :| 0 <= i < |a| && IsSubject(a[i], name, digest);
    var j := AlikeChild(List(a), List(b), i);
    AlikeSubject(a[i], b[j], name, digest);
  }

  lemma AlikeSigned(c: Fields, d: Fields)
    requires Alike(Object(c), Object(d))
    ensures Signed(c).Some? == Signed(d).Some?
    ensures Signed(c).Some? ==> Alike(Object(Signed(c).value), Object(Signed(d).value))
  {
    AlikeGetObject(c, d, "signature");
    if GetObject(c, "signature").Some? {
      AlikeGetObject(GetObject(c, "signature").value, GetObject(d, "signature").value, "certificate");
    }
  }

  lemma AlikeParts(v: Json, w: Json)
    requires Alike(v, w) && IsUnit(v) && IsUnit(w) && Parts(v).Some?
    ensures Parts(w).Some?
    ensures Alike(Object(Parts(v).value.0), Object(Parts(w).value.0))
    ensures Alike(Object(Parts(v).value.1), Object(Parts(w).value.1))
  {
    AlikeGetObject(v.fields, w.fields, "attestation");
    AlikeGetObject(v.fields, w.fields, "verificationResult");
    var a, b := GetObject(v.fields, "attestation").value, GetObject(w.fields, "attestation").value;
    var c, d := GetObject(v.fields, "verificationResult").value, GetObject(w.fields, "verificationResult").value;
    AlikeGetObject(a, b, "decodedMaterial");
    AlikeGetObject(c, d, "statement");
    AlikeGetObject(c, d, "certificate");
    AlikeSigned(c, d);
    var s := Parts(v).value.0;
    var t := Either(GetObject(d, "statement"), GetObject(b, "decodedMaterial")).value;
    AlikeGet(s, t, "subject");
    AlikeGet(s, t, "predicateType");
  }

  lemma AlikeMeets(v: Json, w: Json, p: Policy)
    requires Alike(v, w) && Meets(v, p)
    ensures Meets(w, p)
  {
    AlikeUnit(v, w);
    AlikeParts(v, w);
    var (s, c) := Parts(v).value;
    var (t, d) := Parts(w).value;
    AlikeSignerBound(s, t, c, d, p);
    AlikeCommits(s, t, c, d, p, p.sourceRevision);
    if p.runId in RunIds(s, p) {
      AlikeRunIds(s, t, p, p.runId);
    } else {
      AlikeRunIds(c, d, p, p.runId);
    }
    AlikeGet(s, t, "predicateType");
    AlikeGet(s, t, "subject");
    AlikeHasSubject(Get(s, "subject").value.items, Get(t, "subject").value.items, p.subjectName, p.subjectDigest);
  }

  /** Neither the order of a unit's members, at any depth, nor a repeated list element decides whether the
      unit meets the policy. */
  lemma AlikeUnitsMeetAlike(v: Json, w: Json, p: Policy)
    requires Alike(v, w)
    ensures Meets(v, p) <==> Meets(w, p)
  {
    if Meets(v, p) {
      AlikeMeets(v, w, p);
    }
    if Meets(w, p) {
      AlikeBackwards(v, w);
      AlikeMeets(w, v, p);
    }
  }

  // ------------------------------------------------------------------ the count of matches

  /** A condition that reordering does not change. */
  ghost predicate Orderless(ok: Json -> bool) {
    forall v, w :: Reordered(v, w) ==> ok(v) == ok(w)
  }

  lemma MeetingIsOrderless(p: Policy)
    ensures Orderless(Meeting(p))
  {
    forall v, w | Reordered(v, w)
      ensures Meeting(p)(v) == Meeting(p)(w)
    {
      ReorderedAlike(v, w);
      AlikeUnitsMeetAlike(v, w, p);
    }
  }

  lemma {:induction false} MatchCountReordered(v: Json, w: Json, ok: Json -> bool)
    requires Reordered(v, w) && Orderless(ok)
    ensures MatchCount(v, ok) == MatchCount(w, ok)
    decreases v, 1
  {
    ReorderedAlike(v, w);
    AlikeUnit(v, w);
    if IsUnit(v) {
      assert Units(v) == [v] && Units(w) == [w];
      SingleMatch(v, ok);
      SingleMatch(w, ok);
    } else {
      match v
      case List(a) =>
        var b :| multiset(b) == multiset(w.items) && EachReordered(a, b);
        EachMatchCount(a, b, ok, 0);
        assert a[0..] == a && b[0..] == b;
        MatchCountPermuted(b, w.items, ok);
      case Object(fs) =>
        var gs: Fields :| (gs == w.fields || Permuted(gs, w.fields)) && EachFieldReordered(fs, gs);
        EachFieldMatchCount(fs, gs, ok, 0);
        FieldsThenPermuted(fs, gs, w.fields, ok);
      case _ =>
    }
  }

  lemma FieldsThenPermuted(fs: Fields, gs: Fields, hs: Fields, ok: Json -> bool)
    requires gs == hs || Permuted(gs, hs)
    requires !IsUnit(Object(fs)) && !IsUnit(Object(hs))
    requires MatchCount(List(ValuesOf(fs)[0..]), ok) == MatchCount(List(ValuesOf(gs)[0..]), ok)
    ensures MatchCount(Object(fs), ok) == MatchCount(Object(hs), ok)
  {
    if gs != hs {
      MatchCountFieldsPermuted(gs, hs, ok);
    }
    FieldMatchCount(fs, ok);
    FieldMatchCount(gs, ok);
    assert ValuesOf(fs)[0..] == ValuesOf(fs) && ValuesOf(gs)[0..] == ValuesOf(gs);
  }

  lemma SingleMatch(v: Json, ok: Json -> bool)
    ensures |Filter([v], ok)| == if ok(v) then 1 else 0
  {
    assert [v][..0] == [];
    FilterSnoc([], v, ok);
    assert [] + [v] == [v];
  }

  lemma FieldMatchCount(fs: Fields, ok: Json -> bool)
    requires !IsUnit(Object(fs))
    ensures MatchCount(Object(fs), ok) == MatchCount(List(ValuesOf(fs)), ok)
  {
    FieldUnitsAreItemUnits(fs);
  }

  lemma {:induction false} EachMatchCount(a: seq<Json>, b: seq<Json>, ok: Json -> bool, i: nat)
    requires EachReordered(a, b) && Orderless(ok) && i <= |a|
    ensures MatchCount(List(a[i..]), ok) == MatchCount(List(b[i..]), ok)
    decreases a, 0, |a| - i
  {
    if i < |a| {
      MatchCountReordered(a[i], b[i], ok);
      EachMatchCount(a, b, ok, i + 1);
      MatchCountHead(a[i..], ok);
      MatchCountHead(b[i..], ok);
      assert a[i..][1..] == a[i + 1..] && b[i..][1..] == b[i + 1..];
    }
  }

  lemma {:induction false} EachFieldMatchCount(fs: Fields, gs: Fields, ok: Json -> bool, i: nat)
    requires EachFieldReordered(fs, gs) && Orderless(ok) && i <= |fs|
    ensures MatchCount(List(ValuesOf(fs)[i..]), ok) == MatchCount(List(ValuesOf(gs)[i..]), ok)
    decreases fs, 0, |fs| - i
  {
    if i < |fs| {
      MatchCountReordered(fs[i].value, gs[i].value, ok);
      EachFieldMatchCount(fs, gs, ok, i + 1);
      MatchCountHead(ValuesOf(fs)[i..], ok);
      MatchCountHead(ValuesOf(gs)[i..], ok);
      assert ValuesOf(fs)[i..][1..] == ValuesOf(fs)[i + 1..] && ValuesOf(gs)[i..][1..] == ValuesOf(gs)[i + 1..];
    }
  }

  /** Reordering a payload anywhere, inside its units too, keeps the number of units that meet the policy. */
  lemma OrderNeverMatters(v: Json, w: Json, p: Policy)
    requires Reordered(v, w)
    ensures MatchCount(v, Meeting(p)) == MatchCount(w, Meeting(p))
  {
    MeetingIsOrderless(p);
    MatchCountReordered(v, w, Meeting(p));
  }

  /** The same for one permutation of siblings at one path of the payload. */
  lemma SiblingsPermutedAnywhere(v: Json, path: Path, a: seq<Json>, b: seq<Json>, fs: Fields, gs: Fields, p: Policy)
    requires At(v, path).Some?
    ensures At(v, path) == Some(List(a)) && multiset(a) == multiset(b) ==>
              MatchCount(Replace(v, path, List(b)), Meeting(p)) == MatchCount(v, Meeting(p))
    ensures At(v, path) == Some(Object(fs)) && Permuted(fs, gs) ==>
              MatchCount(Replace(v, path, Object(gs)), Meeting(p)) == MatchCount(v, Meeting(p))
  {
    ReorderedSiblings(a, b, fs, gs);
    if At(v, path) == Some(List(a)) && multiset(a) == multiset(b) {
      ReorderedAt(v, path, List(b));
      OrderNeverMatters(v, Replace(v, path, List(b)), p);
    }
    if At(v, path) == Some(Object(fs)) && Permuted(fs, gs) {
      ReorderedAt(v, path, Object(gs));
      OrderNeverMatters(v, Replace(v, path, Object(gs)), p);
    }
  }
}
