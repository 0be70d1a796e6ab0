/** The in-memory stores: one map, and a map with a content index beside it. */
module Stores {
  import opened Text
  import opened Entries
  import N = Normalize
  import RS = ResidueScan

  type Table = map<string, Entry>

  // ---------------------------------------------------------------- what a query selects

  predicate Selects(e: Entry, query: string, keys: Option<seq<string>>) {
    Contains(e.content, query) && (keys.None? || e.boundIdentity in keys.value)
  }

  /** The part of a table a query selects; `keys` scopes it to exactly these bound identities. */
  function Selected(t: Table, query: string, keys: Option<seq<string>>): Table {
    map id | id in t && Selects(t[id], query, keys) :: t[id]
  }

  /** The entries of a table, with their multiplicities and no order. */
  ghost function Bag(t: Table): multiset<Entry>
    decreases |t|
  {
    if t == map[] then multiset{}
    else
      var id :| id in t;
      multiset{t[id]} + Bag(t - {id})
  }

  lemma BagFirst(t: Table) returns (id: string)
    requires t != map[]
    ensures id in t && Bag(t) == multiset{t[id]} + Bag(t - {id})
  {
    id :| id in t && Bag(t) == multiset{t[id]} + Bag(t - {id});
  }

  lemma RemoveTwo(t: Table, a: string, b: string)
    requires a in t && b in t && a != b
    ensures t - {a} - {b} == t - {b} - {a}
    ensures (t - {a})[b] == t[b] && (t - {b})[a] == t[a] && |t - {a}| < |t| && |t - {b}| < |t|
  {
    assert t == (t - {a})[a := t[a]] && t == (t - {b})[b := t[b]];
  }

  lemma RegroupBags(x: multiset<Entry>, y: multiset<Entry>, z: multiset<Entry>)
    ensures x + (y + z) == y + (x + z)
  {
  }

  /** Any entry may be taken out first. */
  lemma {:induction false} BagTake(t: Table, id: string)
    requires id in t
    ensures Bag(t) == multiset{t[id]} + Bag(t - {id})
    decreases |t|
  {
    var first := BagFirst(t);
    if first != id {
      RemoveTwo(t, first, id);
      BagTake(t - {first}, id);
      BagTake(t - {id}, first);
      RegroupBags(multiset{t[first]}, multiset{t[id]}, Bag(t - {id} - {first}));
    }
  }

  lemma BagPut(t: Table, id: string, e: Entry)
    requires id !in t
    ensures Bag(t[id := e]) == Bag(t) + multiset{e}
  {
    BagTake(t[id := e], id);
    assert t[id := e] - {id} == t;
  }

  lemma SelectTake(t: Table, id: string, query: string, keys: Option<seq<string>>)
    requires id in t
    ensures Bag(Selected(t, query, keys)) == Bag(Selected(t - {id}, query, keys))
              + (if Selects(t[id], query, keys) then multiset{t[id]} else multiset{})
  {
    var a, b := Selected(t, query, keys), Selected(t - {id}, query, keys);
    if Selects(t[id], query, keys) {
      assert a - {id} == b;
      BagTake(a, id);
    } else {
      assert a == b;
    }
  }

  lemma SelectAll(t: Table)
    ensures Selected(t, "", None) == t
  {
    forall id | id in t ensures Selects(t[id], "", None) {
      assert At(t[id].content, 0, "");
    }
  }

  predicate Distinct(ids: seq<string>) {
    forall i, j :: 0 <= i < j < |ids| ==> ids[i] != ids[j]
  }

  /** `es` are the entries of `t` under these ids. */
  ghost predicate AreUnder(t: Table, ids: seq<string>, es: seq<Entry>) {
    |ids| == |es| && forall i :: 0 <= i < |ids| ==> ids[i] in t && es[i] == t[ids[i]]
  }

  /** `es` are the table's entries, each once. */
  ghost predicate IsListing(t: Table, ids: seq<string>, es: seq<Entry>) {
    Distinct(ids) && AreUnder(t, ids, es) && forall id :: id in t ==> id in ids
  }

  lemma {:induction false} BagHas(t: Table, e: Entry) returns (id: string)
    requires e in Bag(t)
    ensures id in t && t[id] == e
    decreases |t|
  {
    id := BagFirst(t);
    if t[id] != e {
      RemoveOne(t, id);
      id := BagHas(t - {id}, e);
    }
  }

  lemma CancelLeft(x: multiset<Entry>, y: multiset<Entry>, z: multiset<Entry>)
    requires x + y == x + z
    ensures y == z
  {
    forall e ensures y[e] == z[e] {
      assert (x + y)[e] == (x + z)[e];
    }
  }

  lemma LastInBag(es: seq<Entry>)
    requires es != []
    ensures multiset(es) == multiset{es[|es| - 1]} + multiset(es[..|es| - 1])
  {
    InitAndLast(es);
  }

  lemma TakeLast(es: seq<Entry>, t: Table, id: string)
    requires es != [] && multiset(es) == Bag(t) && id in t && t[id] == es[|es| - 1]
    ensures multiset(es[..|es| - 1]) == Bag(t - {id})
  {
    LastInBag(es);
    BagTake(t, id);
    CancelLeft(multiset{t[id]}, multiset(es[..|es| - 1]), Bag(t - {id}));
  }

  lemma LastIsThere(es: seq<Entry>, t: Table) returns (id: string)
    requires es != [] && multiset(es) == Bag(t)
    ensures id in t && t[id] == es[|es| - 1]
    ensures multiset(es[..|es| - 1]) == Bag(t - {id})
  {
    LastInBag(es);
    id := BagHas(t, es[|es| - 1]);
    TakeLast(es, t, id);
  }

  lemma NoneListed(t: Table)
    requires Bag(t) == multiset([])
    ensures IsListing(t, [], [])
  {
    if t != map[] { var id := BagFirst(t); }
  }

  lemma ListingSnoc(t: Table, ids: seq<string>, es: seq<Entry>, id: string)
    requires id in t && IsListing(t - {id}, ids, es)
    ensures IsListing(t, ids + [id], es + [t[id]])
  {
    forall k | k in t ensures k in ids + [id] {
      if k != id { assert k in t - {id}; }
    }
  }

  /** What has the table's multiset lists the table. */
  lemma {:induction false} BagIsListing(es: seq<Entry>, t: Table) returns (ids: seq<string>)
    requires multiset(es) == Bag(t)
    ensures IsListing(t, ids, es)
    decreases |es|
  {
    ids := [];
    if es == [] {
      NoneListed(t);
    } else {
      var id := LastIsThere(es, t);
      ids := BagIsListing(es[..|es| - 1], t - {id});
      ListingSnoc(t, ids, es[..|es| - 1], id);
      InitAndLast(es);
      ids := ids + [id];
    }
  }

  /** The scan found each entry that holds the query, and is bound to one of the keys if there are any, once. */
  ghost predicate IsScanned(t: Table, query: string, keys: Option<seq<string>>, hits: seq<Entry>) {
    exists ids :: Distinct(ids) && AreUnder(t, ids, hits) && forall id :: id in t ==>
      (id in ids <==> Contains(t[id].content, query) && (keys.None? || t[id].boundIdentity in keys.value))
  }

  lemma SelectedIsScanned(t: Table, query: string, keys: Option<seq<string>>, hits: seq<Entry>)
    requires multiset(hits) == Bag(Selected(t, query, keys))
    ensures IsScanned(t, query, keys, hits)
  {
    var ids := BagIsListing(hits, Selected(t, query, keys));
    assert AreUnder(t, ids, hits);
  }

  // ---------------------------------------------------------------- search loops

  method IndexOfStore(s: string, sub: string) returns (i: int)
    ensures -1 <= i && (i == -1 <==> !Contains(s, sub))
    ensures i >= 0 ==> At(s, i, sub) && forall j :: 0 <= j < i ==> !At(s, j, sub)
  {
    if |sub| == 0 {
      assert At(s, 0, sub);
      return 0;
    }
    i := 0;
    while i + |sub| <= |s|
      invariant 0 <= i && forall j :: 0 <= j < i ==> !At(s, j, sub)
    {
      if s[i..i + |sub|] == sub {
        assert At(s, i, sub);
        return;
      }
      i := i + 1;
    }
    return -1;
  }

  method KeyIn(key: string, keys: seq<string>) returns (found: bool)
    ensures found <==> key in keys
  {
    for i := 0 to |keys|
      invariant key !in keys[..i]
    {
      if keys[i] == key { return true; }
    }
    return false;
  }

  method Visible(e: Entry, query: string, keys: Option<seq<string>>) returns (visible: bool)
    ensures visible == Selects(e, query, keys)
  {
    var at := IndexOfStore(e.content, query);
    visible := at >= 0;
    if visible && keys.Some? { visible := KeyIn(e.boundIdentity, keys.value); }
  }

  /** What was found so far and what the rest still gives are what the whole table gives. */
  ghost predicate FoundSoFar(hits: seq<Entry>, rest: Table, query: string, keys: Option<seq<string>>, t: Table) {
    multiset(hits) + Bag(Selected(rest, query, keys)) == Bag(Selected(t, query, keys))
  }

  lemma FoundTurn(hits: seq<Entry>, rest: Table, query: string, keys: Option<seq<string>>, t: Table, id: string)
    requires id in rest && FoundSoFar(hits, rest, query, keys, t)
    ensures FoundSoFar(hits + (if Selects(rest[id], query, keys) then [rest[id]] else []), rest - {id}, query, keys, t)
  {
    SelectTake(rest, id, query, keys);
    NothingAfter(hits, []);
  }

  lemma FoundAll(hits: seq<Entry>, query: string, keys: Option<seq<string>>, t: Table)
    requires FoundSoFar(hits, map[], query, keys, t)
    ensures multiset(hits) == Bag(Selected(t, query, keys))
  {
    assert Selected(map[], query, keys) == map[];
  }

  /** One pass over a table in whatever order it iterates. */
  method ScanTable(t: Table, query: string, keys: Option<seq<string>>) returns (hits: seq<Entry>)
    ensures multiset(hits) == Bag(Selected(t, query, keys))
    ensures IsScanned(t, query, keys, hits)
  {
    hits := [];
    var rest := t;
    while rest != map[]
      invariant FoundSoFar(hits, rest, query, keys, t)
      decreases |rest|
    {
      var id :| id in rest;
      var visible := Visible(rest[id], query, keys);
      FoundTurn(hits, rest, query, keys, t, id);
      RemoveOne(rest, id);
      NothingAfter(hits, []);
      if visible { hits := hits + [rest[id]]; }
      rest := rest - {id};
    }
    FoundAll(hits, query, keys, t);
    SelectedIsScanned(t, query, keys, hits);
  }

  lemma RemoveOne(t: Table, id: string)
    requires id in t
    ensures |t - {id}| < |t|
  {
    assert t == (t - {id})[id := t[id]];
  }

  function Find(t: Table, id: string): Option<Entry> {
    if id in t then Some(t[id]) else None
  }

  // ---------------------------------------------------------------- the single map

  class InMemoryStore {
    var entries: Table

    constructor ()
      ensures entries == map[]
    {
      entries := map[];
    }

    method Put(id: string, e: Entry)
      modifies this
      ensures entries == old(entries)[id := e]
    {
      entries := entries[id := e];
    }

    method Get(id: string) returns (r: Option<Entry>)
      ensures r == Find(entries, id)
      ensures if id in entries then r == Some(entries[id]) else r == None
    {
      r := if id in entries then Some(entries[id]) else None;
    }

    method Delete(id: string)
      modifies this
      ensures entries == old(entries) - {id}
    {
      entries := entries - {id};
    }

    method Scan(query: string) returns (hits: seq<Entry>)
      ensures multiset(hits) == Bag(Selected(entries, query, None)) && IsScanned(entries, query, None, hits)
    {
      hits := ScanTable(entries, query, None);
    }

    method ScanScoped(query: string, visibleKeys: seq<string>) returns (hits: seq<Entry>)
      ensures multiset(hits) == Bag(Selected(entries, query, Some(visibleKeys)))
      ensures IsScanned(entries, query, Some(visibleKeys), hits)
    {
      hits := ScanTable(entries, query, Some(visibleKeys));
    }

    method All() returns (out: seq<Entry>)
      ensures multiset(out) == Bag(entries)
    {
      SelectAll(entries);
      out := ScanTable(entries, "", None);
    }

    method AllByIndex() returns (indexes: RS.Indexes)
      ensures IsSingle(indexes, entries)
    {
      var all := All();
      indexes := map[PRIMARY := all];
    }
  }

  // ---------------------------------------------------------------- the two indexes

  const SECONDARY := "secondary-content-index"

  type Links = map<string, set<string>>

  /** Each content leads to exactly the ids that hold it, and to at least one. */
  ghost predicate Agrees(primary: Table, byContent: Links) {
    && (forall id :: id in primary ==> primary[id].content in byContent)
    && (forall c :: c in byContent ==> byContent[c] != {})
    && (forall c, id :: c in byContent ==> (id in byContent[c] <==> id in primary && primary[id].content == c))
  }

  /** The content index is determined by the primary one. */
  lemma AgreementIsUnique(primary: Table, a: Links, b: Links)
    requires Agrees(primary, a) && Agrees(primary, b)
    ensures a == b
  {
    forall c ensures c in a <==> c in b {
      if c in a { var id :| id in a[c]; assert primary[id].content == c; }
      if c in b { var id :| id in b[c]; assert primary[id].content == c; }
    }
    forall c | c in a ensures a[c] == b[c] {
      forall id ensures id in a[c] <==> id in b[c] {
        assert c in a && c in b;
        assert id in a[c] <==> id in primary && primary[id].content == c;
        assert id in b[c] <==> id in primary && primary[id].content == c;
      }
    }
  }

  class TwoIndexStore {
    var primary: Table
    var byContent: Links

    ghost predicate Valid()
      reads this
    {
      Agrees(primary, byContent)
    }

    constructor ()
      ensures Valid() && primary == map[]
    {
      primary, byContent := map[], map[];
    }

    method Put(id: string, e: Entry)
      requires Valid()
      modifies this
      ensures Valid() && primary == old(primary)[id := e]
    {
      assert id in primary ==> (primary - {id})[id := e] == primary[id := e];
      if id in primary {
        UnlinkedAgrees(primary, byContent, id);
        UnindexContent(primary[id].content, id);
      }
      LinkedAgrees(primary - {id}, byContent, id, e);
      primary := primary[id := e];
      var ids := if e.content in byContent then byContent[e.content] else {};
      byContent := byContent[e.content := ids + {id}];
    }

    method Get(id: string) returns (r: Option<Entry>)
      ensures r == Find(primary, id)
      ensures if id in primary then r == Some(primary[id]) else r == None
    {
      r := if id in primary then Some(primary[id]) else None;
    }

    method Delete(id: string)
      requires Valid()
      modifies this
      ensures Valid() && primary == old(primary) - {id}
    {
      if id !in primary { return; }
      var e := primary[id];
      UnlinkedAgrees(primary, byContent, id);
      primary := primary - {id};
      UnindexContent(e.content, id);
    }

    /** Drop one link, and the content with its last link. */
    method UnindexContent(content: string, id: string)
      modifies this`byContent
      ensures byContent == Unlinked(old(byContent), content, id)
      ensures forall c :: c in byContent <==>
        c in old(byContent) && !(c == content && old(byContent)[c] <= {id})
      ensures forall c :: c in byContent ==>
        byContent[c] == if c == content then old(byContent)[c] - {id} else old(byContent)[c]
    {
      if content !in byContent { return; }
      var ids := byContent[content] - {id};
      if ids == {} {
        byContent := byContent - {content};
      } else {
        byContent := byContent[content := ids];
      }
    }

    method Scan(query: string) returns (hits: seq<Entry>)
      ensures multiset(hits) == Bag(Selected(primary, query, None)) && IsScanned(primary, query, None, hits)
    {
      hits := ScanTable(primary, query, None);
    }

    method ScanScoped(query: string, visibleKeys: seq<string>) returns (hits: seq<Entry>)
      ensures multiset(hits) == Bag(Selected(primary, query, Some(visibleKeys)))
      ensures IsScanned(primary, query, Some(visibleKeys), hits)
    {
      hits := ScanTable(primary, query, Some(visibleKeys));
    }

    method All() returns (out: seq<Entry>)
      ensures multiset(out) == Bag(primary)
    {
      SelectAll(primary);
      out := ScanTable(primary, "", None);
    }

    /** Both indexes by name. A stale link, were there one, surfaces in the second. */
    method AllByIndex() returns (indexes: RS.Indexes)
      ensures indexes.Keys == {PRIMARY, SECONDARY} && multiset(indexes[PRIMARY]) == Bag(primary)
      ensures Valid() ==> multiset(indexes[SECONDARY]) == Bag(primary)
      ensures forall c, id :: c in byContent && id in byContent[c] && id !in primary ==>
        RS.HasContent(indexes[SECONDARY], c)
    {
      var secondary := Secondary();
      var all := All();
      indexes := map[PRIMARY := all, SECONDARY := secondary];
    }

    method Secondary() returns (out: seq<Entry>)
      ensures Valid() ==> multiset(out) == Bag(primary)
      ensures forall c, id :: c in byContent && id in byContent[c] && id !in primary ==> RS.HasContent(out, c)
    {
      out := [];
      var rest := byContent;
      while rest != map[]
        invariant forall c :: c in rest ==> c in byContent && rest[c] == byContent[c]
        invariant Valid() ==> multiset(out) == Bag(Outside(primary, rest.Keys))
        invariant forall c, id :: c in byContent && c !in rest && id in byContent[c] && id !in primary ==>
          RS.HasContent(out, c)
        decreases |rest|
      {
        var content :| content in rest;
        var some := EntriesOf(content);
        if Valid() { OutsideGrows(primary, byContent, rest.Keys, content); }
        ghost var before := out;
        out := out + some;
        HasContentAppend(before, some);
        rest := rest - {content};
      }
      assert Outside(primary, {}) == primary;
    }

    /** The entries that one content's links lead to. */
    method EntriesOf(content: string) returns (out: seq<Entry>)
      requires content in byContent
      ensures Valid() ==> multiset(out) == Bag(Under(primary, byContent[content]))
      ensures (exists id :: id in byContent[content] && id !in primary) ==> RS.HasContent(out, content)
    {
      out := CollectLinked(primary, content, byContent[content]);
    }
  }

  /** The loop over linked ids: an id that is not in the table stands for a stale copy of the content. */
  method CollectLinked(t: Table, content: string, linked: set<string>) returns (out: seq<Entry>)
    ensures linked <= t.Keys ==> multiset(out) == Bag(Under(t, linked))
    ensures !(linked <= t.Keys) ==> RS.HasContent(out, content)
  {
    out := [];
    var ids, done := linked, {};
    assert Under(t, done) == map[];
    while ids != {}
      invariant done !! ids && done + ids == linked
      invariant done <= t.Keys ==> multiset(out) == Bag(Under(t, done))
      invariant !(done <= t.Keys) ==> RS.HasContent(out, content)
      decreases ids
    {
      var id :| id in ids;
      var e := if id in t then t[id] else Entry(content, "", "", [], false);
      if id in t { UnderGrows(t, done, id); } else { assert [e][0].content == content && RS.HasContent([e], content); }
      HasContentAppend(out, [e]);
      out := out + [e];
      ids, done := ids - {id}, done + {id};
    }
  }

  function Linked(links: Links, content: string, id: string): Links {
    links[content := (if content in links then links[content] else {}) + {id}]
  }

  function Unlinked(links: Links, content: string, id: string): Links {
    if content !in links then links
    else if links[content] <= {id} then links - {content}
    else links[content := links[content] - {id}]
  }

  lemma UnlinkedAgrees(t: Table, links: Links, id: string)
    requires Agrees(t, links) && id in t
    ensures Agrees(t - {id}, Unlinked(links, t[id].content, id))
  {
  }

  lemma LinkedAgrees(t: Table, links: Links, id: string, e: Entry)
    requires Agrees(t, links) && id !in t
    ensures Agrees(t[id := e], Linked(links, e.content, id))
  {
  }

  /** The entries under these ids. */
  function Under(t: Table, ids: set<string>): Table {
    map id | id in t && id in ids :: t[id]
  }

  /** The entries whose content is not among these. */
  function Outside(t: Table, contents: set<string>): Table {
    map id | id in t && t[id].content !in contents :: t[id]
  }

  lemma UnderGrows(t: Table, ids: set<string>, id: string)
    requires id in t && id !in ids
    ensures Bag(Under(t, ids + {id})) == Bag(Under(t, ids)) + multiset{t[id]}
  {
    assert Under(t, ids + {id}) == Under(t, ids)[id := t[id]];
    BagPut(Under(t, ids), id, t[id]);
  }

  lemma UnionStep(a: Table, b: Table, id: string)
    requires a.Keys !! b.Keys && id in b
    ensures id !in a + (b - {id}) && (a + (b - {id}))[id := b[id]] == a + b
    ensures a.Keys !! (b - {id}).Keys
    ensures b == (b - {id})[id := b[id]] && |b - {id}| < |b|
  {
    assert b == (b - {id})[id := b[id]];
  }

  lemma UnionBagStep(a: Table, b: Table, id: string)
    requires a.Keys !! b.Keys && id in b
    ensures a.Keys !! (b - {id}).Keys && |b - {id}| < |b|
    ensures Bag(a + b) == Bag(a + (b - {id})) + multiset{b[id]}
    ensures Bag(b) == Bag(b - {id}) + multiset{b[id]}
  {
    UnionStep(a, b, id);
    BagPut(a + (b - {id}), id, b[id]);
    BagPut(b - {id}, id, b[id]);
  }

  lemma UnionRegroup(x: multiset<Entry>, y: multiset<Entry>, z: multiset<Entry>)
    ensures (x + y) + z == x + (y + z)
  {
  }

  lemma BagUnionNone(a: Table)
    ensures Bag(a + map[]) == Bag(a) + Bag(map[])
  {
    assert a + map[] == a;
  }

  lemma {:induction false} BagUnion(a: Table, b: Table)
    requires a.Keys !! b.Keys
    ensures Bag(a + b) == Bag(a) + Bag(b)
    decreases |b|
  {
    if b == map[] {
      BagUnionNone(a);
    } else {
      var id :| id in b;
      UnionBagStep(a, b, id);
      BagUnion(a, b - {id});
      UnionRegroup(Bag(a), Bag(b - {id}), multiset{b[id]});
    }
  }

  lemma OutsideGrows(t: Table, byContent: Links, contents: set<string>, c: string)
    requires Agrees(t, byContent) && c in contents && c in byContent
    ensures Bag(Outside(t, contents - {c})) == Bag(Outside(t, contents)) + Bag(Under(t, byContent[c]))
  {
    assert Outside(t, contents - {c}) == Outside(t, contents) + Under(t, byContent[c]);
    BagUnion(Outside(t, contents), Under(t, byContent[c]));
  }

  lemma HasContentAppend(a: seq<Entry>, b: seq<Entry>)
    ensures forall c :: RS.HasContent(a + b, c) <==> RS.HasContent(a, c) || RS.HasContent(b, c)
  {
    forall c ensures RS.HasContent(a + b, c) <==> RS.HasContent(a, c) || RS.HasContent(b, c) {
      if RS.HasContent(b, c) {
        var i :| 0 <= i < |b| && b[i].content == c;
        assert (a + b)[|a| + i].content == c;
      }
      if RS.HasContent(a, c) {
        var i :| 0 <= i < |a| && a[i].content == c;
        assert (a + b)[i].content == c;
      }
    }
  }

  // ---------------------------------------------------------------- the residue scan over either store

  ghost predicate IsSingle(indexes: RS.Indexes, t: Table) {
    indexes.Keys == {PRIMARY} && multiset(indexes[PRIMARY]) == Bag(t)
  }

  /** The one index holds what the table holds. */
  lemma SingleHolds(indexes: RS.Indexes, t: Table, name: string, content: string)
    requires IsSingle(indexes, t)
    ensures RS.Holds(indexes, name, content) <==> name == PRIMARY && exists id :: id in t && t[id].content == content
  {
    var es := indexes[PRIMARY];
    var ids := BagIsListing(es, t);
    if id :| id in t && t[id].content == content {
      var i :| 0 <= i < |ids| && ids[i] == id;
      assert es[i].content == content;
    }
  }

  ghost predicate IsDouble(indexes: RS.Indexes, t: Table) {
    && indexes.Keys == {PRIMARY, SECONDARY}
    && multiset(indexes[PRIMARY]) == Bag(t) && multiset(indexes[SECONDARY]) == Bag(t)
  }

  lemma SameBagSameContents(a: seq<Entry>, b: seq<Entry>, c: string)
    requires multiset(a) == multiset(b) && RS.HasContent(a, c)
    ensures RS.HasContent(b, c)
  {
    var i :| 0 <= i < |a| && a[i].content == c;
    assert a[i] in multiset(b);
    var j :| 0 <= j < |b| && b[j] == a[i];
  }

  /** The scan over both indexes of an agreeing store answers as the scan over the single map, naming "primary". */
  lemma ScansAgree(t: Table, one: RS.Indexes, two: RS.Indexes, deleted: string, fx: N.FloatExpand,
                   r: Option<RS.Summary>, r': Option<RS.Summary>)
    requires IsSingle(one, t) && IsDouble(two, t)
    requires RS.IsScan(deleted, fx, one, r) && RS.IsScan(deleted, fx, two, r')
    ensures r == r'
    ensures r.Some? ==> r.value.index == PRIMARY
  {
    forall c
      ensures RS.Holds(one, PRIMARY, c) <==> RS.Holds(two, PRIMARY, c)
      ensures RS.Holds(one, PRIMARY, c) <==> RS.Holds(two, SECONDARY, c)
    {
      if RS.Holds(one, PRIMARY, c) {
        SameBagSameContents(one[PRIMARY], two[PRIMARY], c);
        SameBagSameContents(one[PRIMARY], two[SECONDARY], c);
      }
      if RS.Holds(two, PRIMARY, c) { SameBagSameContents(two[PRIMARY], one[PRIMARY], c); }
      if RS.Holds(two, SECONDARY, c) { SameBagSameContents(two[SECONDARY], one[PRIMARY], c); }
    }
    RS.MirrorIndexChangesNothing(deleted, fx, one, two, SECONDARY, r, r');
  }
}
