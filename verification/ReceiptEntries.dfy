/** What the public release verifier accepts of the attestation entries: one for each role, and nothing else. */
module ReceiptEntries {
  import opened Wrappers
  import opened Seqs
  import opened ReceiptSubjects

  /** The digests an entry lists, as written. */
  ghost predicate ListsExactly(item: Item, digests: set<string>) {
    forall v :: v in item.digests <==> v.Some? && v.value in digests
  }

  /** The entry of one role: its identity, and exactly the digests of its artifacts. */
  ghost predicate EntryOf(c: Checks, item: Item, role: string, id: string, digests: set<string>) {
    c.identity(item.id) == Some(id) && item.role == Some(role) && ListsExactly(item, digests)
  }

  /** The entries are a package entry and a web entry of two different identities. */
  ghost predicate PairOfEntries(
    c: Checks, package: Item, web: Item, a: string, w: string, manifestIds: set<string>, d: Digests)
  {
    && a != w && manifestIds == {a, w}
    && EntryOf(c, package, "package", a, {d.wheel, d.sdist, d.lock}) && EntryOf(c, web, "web", w, {d.image})
  }

  /** Two entries of one role are one and the same. */
  lemma OnePerRole(c: Checks, items: seq<Item>, i: nat, j: nat, role: string, manifestIds: set<string>, d: Digests)
    requires Acceptable(c, items, manifestIds, d) && i < |items| && j < |items|
    requires items[i].role == Some(role) && items[j].role == Some(role) && (role == "package" || role == "web")
    ensures i == j
  {
    var ids := ItemIds(c, items, Some(role));
    assert EntryAcceptable(c, items[i], d.All()) && EntryAcceptable(c, items[j], d.All());
    assert items[i] in items && items[j] in items;
    var x, y := c.identity(items[i].id).value, c.identity(items[j].id).value;
    assert x in ids && y in ids && |ids| == 1;
    OneElement(ids, x, y);
    assert c.identity(items[i].id) == c.identity(items[j].id) && DistinctItems(c, items);
  }

  lemma OneElement(s: set<string>, x: string, y: string)
    requires |s| == 1 && x in s && y in s
    ensures x == y
  {
    if x != y {
      assert {x, y} <= s;
      SubsetSize({x, y}, s);
    }
  }

  lemma RoleEntry(c: Checks, items: seq<Item>, role: string, manifestIds: set<string>, d: Digests) returns (i: nat)
    requires Acceptable(c, items, manifestIds, d) && (role == "package" || role == "web")
    ensures i < |items| && items[i].role == Some(role)
  {
    var ids := ItemIds(c, items, Some(role));
    assert |ids| == 1;
    assert ids != {};
    var id :| id in ids;
    var item :| item in items && item.role == Some(role) && c.identity(item.id) == Some(id);
    i :| 0 <= i < |items| && items[i] == item;
  }

  /** What one entry lists when it is alone in its role. */
  lemma OnlyEntryLists(items: seq<Item>, i: nat, role: string, digests: set<string>)
    requires i < |items| && items[i].role == Some(role)
    requires forall j :: 0 <= j < |items| && items[j].role == Some(role) ==> j == i
    requires RawDigests(items, role) == Wrapped(digests)
    ensures ListsExactly(items[i], digests)
  {
    assert items[i] in items;
    forall v
      ensures v in items[i].digests <==> v.Some? && v.value in digests
    {
      if v in items[i].digests {
        assert v in RawDigests(items, role);
      }
      if v.Some? && v.value in digests {
        assert v in Wrapped(digests);
        var item :| item in items && item.role == Some(role) && v in item.digests;
        var j :| 0 <= j < |items| && items[j] == item;
      }
    }
  }

  /** What is accepted is a package entry with exactly the three package digests and a web entry with exactly the
      image digest, in either order, and their identities are those of the manifest. */
  lemma AcceptedIsPair(c: Checks, items: seq<Item>, manifestIds: set<string>, d: Digests)
    requires Acceptable(c, items, manifestIds, d)
    ensures |items| == 2
    ensures exists a, w ::
      PairOfEntries(c, items[0], items[1], a, w, manifestIds, d) ||
      PairOfEntries(c, items[1], items[0], a, w, manifestIds, d)
  {
    var i := RoleEntry(c, items, "package", manifestIds, d);
    var j := RoleEntry(c, items, "web", manifestIds, d);
    OnlyTwo(c, items, i, j, manifestIds, d);
    assert forall k :: 0 <= k < |items| && items[k].role == Some("package") ==> k == i;
    assert forall k :: 0 <= k < |items| && items[k].role == Some("web") ==> k == j;
    OnlyEntryLists(items, i, "package", d.Package());
    OnlyEntryLists(items, j, "web", d.Web());
    TwoIds(c, items, i, j, manifestIds, d);
    var a, w := c.identity(items[i].id).value, c.identity(items[j].id).value;
    assert PairOfEntries(c, items[i], items[j], a, w, manifestIds, d);
  }

  lemma OnlyTwo(c: Checks, items: seq<Item>, i: nat, j: nat, manifestIds: set<string>, d: Digests)
    requires Acceptable(c, items, manifestIds, d) && i < |items| && j < |items|
    requires items[i].role == Some("package") && items[j].role == Some("web")
    ensures |items| == 2 && i != j
  {
    if |items| > 2 {
      var k := if i != 0 && j != 0 then 0 else if i != 1 && j != 1 then 1 else 2;
      assert EntryAcceptable(c, items[k], d.All());
      if items[k].role == Some("package") {
        OnePerRole(c, items, i, k, "package", manifestIds, d);
      } else {
        OnePerRole(c, items, j, k, "web", manifestIds, d);
      }
    }
  }

  lemma TwoIds(c: Checks, items: seq<Item>, i: nat, j: nat, manifestIds: set<string>, d: Digests)
    requires Acceptable(c, items, manifestIds, d) && |items| == 2 && i < 2 && j < 2 && i != j
    ensures c.identity(items[i].id).Some? && c.identity(items[j].id).Some?
    ensures c.identity(items[i].id) != c.identity(items[j].id)
    ensures manifestIds == {c.identity(items[i].id).value, c.identity(items[j].id).value}
  {
    assert EntryAcceptable(c, items[i], d.All()) && EntryAcceptable(c, items[j], d.All());
    assert items == [items[0], items[1]];
    assert c.identity(items[0].id) != c.identity(items[1].id);
    assert manifestIds == ItemIds(c, items, None);
  }

  /** And every such pair is accepted, when the artifacts' digests are in canonical form. */
  lemma PairIsAccepted(
    c: Checks, package: Item, web: Item, a: string, w: string, manifestIds: set<string>, d: Digests, items: seq<Item>)
    requires PairOfEntries(c, package, web, a, w, manifestIds, d) && PlainDigests(c, d)
    requires items == [package, web] || items == [web, package]
    ensures Acceptable(c, items, manifestIds, d)
  {
    TwoMembers(items, package, web);
    PairEntries(c, package, web, a, w, d);
    PairIds(c, package, web, a, w, items);
    PairDigests(c, package, web, d, items);
    forall item | item in items
      ensures EntryAcceptable(c, item, d.All())
    {
      assert item == package || item == web;
    }
    AllConditions(c, items, manifestIds, d);
  }

  lemma TwoMembers(items: seq<Item>, x: Item, y: Item)
    requires items == [x, y] || items == [y, x]
    ensures items != [] && forall item :: item in items <==> item == x || item == y
  {
  }

  lemma AllConditions(c: Checks, items: seq<Item>, manifestIds: set<string>, d: Digests)
    requires items != [] && (forall item :: item in items ==> EntryAcceptable(c, item, d.All()))
    requires DistinctItems(c, items) && ItemIds(c, items, None) == manifestIds && Observed(c, items) == d.All()
    requires |ItemIds(c, items, Some("package"))| == 1 && |ItemIds(c, items, Some("web"))| == 1
    requires RawDigests(items, "package") == Wrapped(d.Package()) && RawDigests(items, "web") == Wrapped(d.Web())
    ensures Acceptable(c, items, manifestIds, d)
  {
  }

  lemma PairEntries(c: Checks, package: Item, web: Item, a: string, w: string, d: Digests)
    requires EntryOf(c, package, "package", a, d.Package()) && EntryOf(c, web, "web", w, d.Web()) && PlainDigests(c, d)
    ensures EntryAcceptable(c, package, d.All()) && EntryAcceptable(c, web, d.All())
  {
    PairEntry(c, package, d, d.Package());
    PairEntry(c, web, d, d.Web());
  }

  lemma PairEntry(c: Checks, item: Item, d: Digests, digests: set<string>)
    requires ListsExactly(item, digests) && digests <= d.All() && PlainDigests(c, d) && digests != {}
    ensures item.digests != []
    ensures forall k :: 0 <= k < |item.digests| ==>
      c.subject(item.digests[k]).Some? && c.subject(item.digests[k]).value in d.All()
  {
    var x :| x in digests;
    assert Some(x) in item.digests;
    forall k | 0 <= k < |item.digests|
      ensures c.subject(item.digests[k]).Some? && c.subject(item.digests[k]).value in d.All()
    {
      assert item.digests[k] in item.digests;
    }
  }

  lemma PairIds(c: Checks, package: Item, web: Item, a: string, w: string, items: seq<Item>)
    requires c.identity(package.id) == Some(a) && c.identity(web.id) == Some(w) && a != w
    requires package.role == Some("package") && web.role == Some("web")
    requires forall item :: item in items <==> item == package || item == web
    requires items == [package, web] || items == [web, package]
    ensures ItemIds(c, items, None) == {a, w} && DistinctItems(c, items)
    ensures |ItemIds(c, items, Some("package"))| == 1 && |ItemIds(c, items, Some("web"))| == 1
  {
    assert ItemIds(c, items, Some("package")) == {a};
    assert ItemIds(c, items, Some("web")) == {w};
  }

  lemma PairDigests(c: Checks, package: Item, web: Item, d: Digests, items: seq<Item>)
    requires ListsExactly(package, d.Package()) && ListsExactly(web, d.Web()) && PlainDigests(c, d)
    requires package.role == Some("package") && web.role == Some("web")
    requires forall item :: item in items <==> item == package || item == web
    ensures Observed(c, items) == d.All()
    ensures RawDigests(items, "package") == Wrapped(d.Package()) && RawDigests(items, "web") == Wrapped(d.Web())
  {
    PairObserved(c, package, web, d, items);
    RawOfOne(items, package, "package", d.Package());
    RawOfOne(items, web, "web", d.Web());
  }

  lemma PairObserved(c: Checks, package: Item, web: Item, d: Digests, items: seq<Item>)
    requires ListsExactly(package, d.Package()) && ListsExactly(web, d.Web()) && PlainDigests(c, d)
    requires forall item :: item in items <==> item == package || item == web
    ensures Observed(c, items) == d.All()
  {
    forall x | x in Observed(c, items)
      ensures x in d.All()
    {
      var item, v :| item in items && v in item.digests && c.subject(v) == Some(x);
      assert v.Some? && v.value in d.All();
    }
    forall x | x in d.All()
      ensures x in Observed(c, items)
    {
      if x in d.Package() {
        assert package in items && Some(x) in package.digests;
      } else {
        assert web in items && Some(x) in web.digests;
      }
    }
  }

  lemma RawOfOne(items: seq<Item>, only: Item, role: string, digests: set<string>)
    requires only in items && only.role == Some(role) && ListsExactly(only, digests)
    requires forall item :: item in items && item.role == Some(role) ==> item == only
    ensures RawDigests(items, role) == Wrapped(digests)
  {
    forall v
      ensures v in RawDigests(items, role) <==> v in Wrapped(digests)
    {
      assert v in Wrapped(digests) <==> v.Some? && v.value in digests;
    }
  }
}
