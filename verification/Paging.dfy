/**
  Paged scans over the version rows (internal/storage/memory.go) and the
  listings built on them (internal/lifecycle/manager.go). Rows come in the
  order of their names, so the listing of a set of rows is unique.
  */
module Paging {
  import opened ByteOrder
  import opened Collections
  import opened KeyNames
  import opened Lifecycle

  const PAGE_SIZE: nat := 1000

  function Codes(s: string): (r: seq<int>)
    ensures |r| == |s| && forall i | 0 <= i < |s| :: r[i] == s[i] as int
  {
    seq(|s|, i requires 0 <= i < |s| => s[i] as int)
  }

  predicate Before(j: VersionId, k: VersionId) {
    Less(Codes(RowName(KeyRow(j.id, j.version))), Codes(RowName(KeyRow(k.id, k.version))))
  }

  lemma CodesInjective(s: string, t: string)
    requires Codes(s) == Codes(t)
    ensures s == t
  {
    assert forall i | 0 <= i < |s| :: s[i] as int == Codes(s)[i] == t[i] as int;
  }

  /** Distinct rows have distinct names, so they are strictly ordered one way. */
  lemma BeforeIsOrder(i: VersionId, j: VersionId, k: VersionId)
    ensures !Before(i, i)
    ensures i != j ==> Before(i, j) || Before(j, i)
    ensures Before(i, j) && Before(j, k) ==> Before(i, k)
  {
    hide RowName, Less;
    var a := Codes(RowName(KeyRow(i.id, i.version)));
    var b := Codes(RowName(KeyRow(j.id, j.version)));
    var c := Codes(RowName(KeyRow(k.id, k.version)));
    Irreflexive(a);
    if Before(i, j) && Before(j, k) {
      Transitive(a, b, c);
    }
    if a == b {
      CodesInjective(RowName(KeyRow(i.id, i.version)), RowName(KeyRow(j.id, j.version)));
      RowNameInjective(KeyRow(i.id, i.version), KeyRow(j.id, j.version));
    } else {
      Total(a, b);
    }
  }

  ghost predicate Ascending(ks: seq<VersionId>) {
    forall i, j | 0 <= i < j < |ks| :: Before(ks[i], ks[j])
  }

  ghost predicate Lists(ks: seq<VersionId>, keys: set<VersionId>) {
    Ascending(ks) && forall k :: k in ks <==> k in keys
  }

  // ---------- The listing exists and is unique ----------

  lemma InsertLists(ks: seq<VersionId>, keys: set<VersionId>, at: nat, k: VersionId)
    requires Lists(ks, keys) && at <= |ks|
    requires forall i | 0 <= i < at :: Before(ks[i], k)
    requires forall i | at <= i < |ks| :: Before(k, ks[i])
    ensures Lists(ks[..at] + [k] + ks[at..], keys + {k})
  {
    hide Before, Ascending;
    InsertAscends(ks, at, k);
    assert ks == ks[..at] + ks[at..];
  }

  lemma InsertAscends(ks: seq<VersionId>, at: nat, k: VersionId)
    requires Ascending(ks) && at <= |ks|
    requires forall i | 0 <= i < at :: Before(ks[i], k)
    requires forall i | at <= i < |ks| :: Before(k, ks[i])
    ensures Ascending(ks[..at] + [k] + ks[at..])
  {
    hide Before;
    var r := ks[..at] + [k] + ks[at..];
    forall i, j | 0 <= i < j < |r|
      ensures Before(r[i], r[j])
    {
      assert r[i] == if i < at then ks[i] else if i == at then k else ks[i - 1];
      assert r[j] == if j < at then ks[j] else if j == at then k else ks[j - 1];
    }
  }

  /** Collect and sort the keys. */
  method Sorted(keys: set<VersionId>) returns (ks: seq<VersionId>)
    ensures Lists(ks, keys)
  {
    hide Before;
    ks := [];
    var todo := keys;
    while todo != {}
      invariant todo <= keys && Lists(ks, keys - todo)
      decreases todo
    {
      var k :| k in todo;
      var at := Place(ks, k, keys - todo);
      InsertLists(ks, keys - todo, at, k);
      ks := ks[..at] + [k] + ks[at..];
      assert keys - (todo - {k}) == keys - todo + {k};
      todo := todo - {k};
    }
    assert keys - todo == keys;
  }

  method Place(ks: seq<VersionId>, k: VersionId, ghost keys: set<VersionId>) returns (at: nat)
    requires Lists(ks, keys) && k !in keys
    ensures at <= |ks|
    ensures forall i | 0 <= i < at :: Before(ks[i], k)
    ensures forall i | at <= i < |ks| :: Before(k, ks[i])
  {
    hide Before;
    at := |ks|;
    while at > 0 && Before(k, ks[at - 1])
      invariant 0 <= at <= |ks|
      invariant forall i | at <= i < |ks| :: Before(k, ks[i])
    {
      at := at - 1;
    }
    forall i | 0 <= i < at
      ensures Before(ks[i], k)
    {
      assert ks[at - 1] in keys && ks[i] in keys;
      BeforeIsOrder(k, ks[at - 1], k);
      BeforeIsOrder(ks[i], ks[at - 1], k);
    }
  }

  lemma {:induction false} ListingExists(keys: set<VersionId>) returns (ks: seq<VersionId>)
    ensures Lists(ks, keys)
    decreases keys
  {
    hide Before;
    if keys == {} {
      ks := [];
    } else {
      var k :| k in keys;
      var rest := ListingExists(keys - {k});
      var at := PlaceExists(rest, k, keys - {k});
      InsertLists(rest, keys - {k}, at, k);
      ks := rest[..at] + [k] + rest[at..];
      assert keys - {k} + {k} == keys;
    }
  }

  lemma {:induction false} PlaceExists(ks: seq<VersionId>, k: VersionId, keys: set<VersionId>) returns (at: nat)
    requires Ascending(ks) && k !in keys && forall j | j in ks :: j in keys
    ensures at <= |ks|
    ensures forall i | 0 <= i < at :: Before(ks[i], k)
    ensures forall i | at <= i < |ks| :: Before(k, ks[i])
    decreases |ks|
  {
    hide Before;
    var n := |ks| - 1;
    if n < 0 {
      at := 0;
    } else {
      BeforeIsOrder(ks[n], k, k);
      assert ks[n] in ks;
      if Before(ks[n], k) {
        at := n + 1;
        forall i | 0 <= i < n
          ensures Before(ks[i], k)
        {
          BeforeIsOrder(ks[i], ks[n], k);
        }
      } else {
        at := PlaceExists(ks[..n], k, keys);
      }
    }
  }

  ghost function Listing(keys: set<VersionId>): (ks: seq<VersionId>)
    ensures Lists(ks, keys)
  {
    assert exists ks :: Lists(ks, keys) by { var ks := ListingExists(keys); }
    var ks :| Lists(ks, keys);
    ks
  }

  lemma {:induction false} ListingIsUnique(a: seq<VersionId>, b: seq<VersionId>, keys: set<VersionId>)
    requires Lists(a, keys) && Lists(b, keys)
    ensures a == b
    decreases |a|
  {
    hide Before;
    ListingSize(a, keys);
    ListingSize(b, keys);
    if a != [] {
      SameFirst(a, b, keys);
      DropFirst(a, keys);
      DropFirst(b, keys);
      ListingIsUnique(a[1..], b[1..], keys - {a[0]});
      assert a == [a[0]] + a[1..] && b == [b[0]] + b[1..];
    }
  }

  lemma SameFirst(a: seq<VersionId>, b: seq<VersionId>, keys: set<VersionId>)
    requires Lists(a, keys) && Lists(b, keys) && a != [] && b != []
    ensures a[0] == b[0]
  {
    hide Before;
    assert a[0] in keys && b[0] in keys;
    if a[0] != b[0] {
      assert Before(b[0], a[0]);
      assert Before(a[0], b[0]);
      BeforeIsOrder(a[0], b[0], a[0]);
    }
  }

  lemma DropFirst(ks: seq<VersionId>, keys: set<VersionId>)
    requires Lists(ks, keys) && ks != []
    ensures Lists(ks[1..], keys - {ks[0]})
  {
    hide Before;
    NoRepeats(ks);
    assert ks == [ks[0]] + ks[1..];
  }

  lemma NoRepeats(ks: seq<VersionId>)
    requires Ascending(ks)
    ensures Distinct(ks)
  {
    hide Before;
    forall i, j | 0 <= i < j < |ks|
      ensures ks[i] != ks[j]
    {
      BeforeIsOrder(ks[i], ks[j], ks[j]);
    }
  }

  lemma {:induction false} ListingSize(ks: seq<VersionId>, keys: set<VersionId>)
    requires Lists(ks, keys)
    ensures |ks| == |keys|
    decreases |ks|
  {
    hide Before;
    if ks == [] {
      assert keys == {};
    } else {
      assert ks[0] in keys;
      DropFirst(ks, keys);
      ListingSize(ks[1..], keys - {ks[0]});
    }
  }

  // ---------- Pages ----------

  function Page<T>(ks: seq<T>, offset: nat, limit: int): seq<T> {
    var n := if limit <= 0 then PAGE_SIZE else limit;
    if offset >= |ks| then [] else if offset + n > |ks| then ks[offset..] else ks[offset..offset + n]
  }

  function NameOf(m: Metadata): string {
    RowName(KeyRow(m.id, m.version))
  }

  lemma PageAscends(db: Db, ks: seq<VersionId>, offset: nat, items: seq<Metadata>)
    requires Keyed(db) && Ascending(ks) && offset + |items| <= |ks|
    requires forall i | 0 <= i < |items| :: ks[offset + i] in db.keys && items[i] == db.keys[ks[offset + i]]
    ensures forall i, j | 0 <= i < j < |items| :: Less(Codes(NameOf(items[i])), Codes(NameOf(items[j])))
  {
    hide Less, RowName;
    forall i, j | 0 <= i < j < |items|
      ensures Less(Codes(NameOf(items[i])), Codes(NameOf(items[j])))
    {
      var x, a := items[i], ks[offset + i];
      assert a in db.keys && x == db.keys[a];
      var y, b := items[j], ks[offset + j];
      assert b in db.keys && y == db.keys[b];
      assert Before(a, b);
    }
  }

  /** ScanPrefixPaged over "key:": the page of the listing, with the rows as they are. */
  method ScanPrefixPaged(db: Db, offset: nat, limit: int) returns (items: seq<Metadata>, total: nat)
    ensures total == |db.keys|
    ensures var page := Page(Listing(db.keys.Keys), offset, limit);
            |items| == |page| && forall i | 0 <= i < |page| :: page[i] in db.keys && items[i] == db.keys[page[i]]
    ensures Keyed(db) ==> forall i, j | 0 <= i < j < |items| :: Less(Codes(NameOf(items[i])), Codes(NameOf(items[j])))
  {
    hide Ascending;
    var n := limit;
    if n <= 0 {
      n := PAGE_SIZE;
    }
    var ks := Sorted(db.keys.Keys);
    ListingIsUnique(ks, Listing(db.keys.Keys), db.keys.Keys);
    ListingSize(ks, db.keys.Keys);
    total := |ks|;
    if offset >= total {
      return [], total;
    }
    var end := offset + n;
    if end > total {
      end := total;
    }
    items := [];
    for i := offset to end
      invariant |items| == i - offset
      invariant forall j | offset <= j < i :: items[j - offset] == db.keys[ks[j]]
    {
      assert ks[i] in db.keys.Keys;
      items := items + [db.keys[ks[i]]];
    }
    assert Page(ks, offset, limit) == ks[offset..end];
    if Keyed(db) {
      PageAscends(db, ks, offset, items);
    }
  }

  // ---------- Listings built from pages ----------

  ghost function Ids(ks: seq<VersionId>): set<string> {
    set k | k in ks :: k.id
  }

  /** ListKeyIDs: pages until one is short; without writes in between every row is seen once. */
  method ListKeyIDs(db: Db) returns (ids: seq<string>)
    requires Keyed(db)
    ensures forall id :: id in ids <==> exists k | k in db.keys :: k.id == id
    ensures Distinct(ids)
  {
    hide Listing, Before, Ascending;
    ghost var ks := Listing(db.keys.Keys);
    ids := [];
    var offset := 0;
    var more := true;
    while more
      invariant 0 <= offset <= |ks| && (!more ==> offset == |ks|)
      invariant forall id :: id in ids <==> id in Ids(ks[..offset])
      invariant Distinct(ids)
      decreases |ks| - offset, if more then 1 else 0
    {
      var items, _ := ScanPrefixPaged(db, offset, PAGE_SIZE);
      if |items| == 0 {
        break;
      }
      ids := AddIds(ids, items);
      AddedIds(db, ks, offset, items);
      offset := offset + |items|;
      more := |items| >= PAGE_SIZE;
    }
    assert ks[..offset] == ks;
  }

  method AddIds(ids: seq<string>, items: seq<Metadata>) returns (r: seq<string>)
    requires Distinct(ids)
    ensures Distinct(r)
    ensures forall id :: id in r <==> id in ids || exists i | 0 <= i < |items| :: items[i].id == id
  {
    r := ids;
    for n := 0 to |items|
      invariant Distinct(r)
      invariant forall id :: id in r <==> id in ids || exists i | 0 <= i < n :: items[i].id == id
    {
      if items[n].id !in r {
        r := r + [items[n].id];
      }
    }
  }

  lemma AddedIds(db: Db, ks: seq<VersionId>, offset: nat, items: seq<Metadata>)
    requires Keyed(db) && offset + |items| <= |ks|
    requires forall i | 0 <= i < |items| :: ks[offset + i] in db.keys && items[i] == db.keys[ks[offset + i]]
    ensures forall id :: id in Ids(ks[..offset + |items|]) <==>
              id in Ids(ks[..offset]) || exists i | 0 <= i < |items| :: items[i].id == id
  {
    var longer := ks[..offset + |items|];
    forall i | 0 <= i < |items|
      ensures items[i].id == longer[offset + i].id
    {
      var m, k := items[i], ks[offset + i];
      assert k in db.keys && m == db.keys[k];
    }
    forall id | id in Ids(longer)
      ensures id in Ids(ks[..offset]) || exists i | 0 <= i < |items| :: items[i].id == id
    {
      var k :| k in longer && k.id == id;
      var j :| 0 <= j < |longer| && longer[j] == k;
      if j < offset {
        assert ks[..offset][j] == k;
      } else {
        assert items[j - offset].id == id;
      }
    }
    assert forall k | k in ks[..offset] :: k in longer;
  }

  /** The quota's paged count of keys is the number of distinct ids. */
  method CountKeysPaged(db: Db) returns (count: nat)
    requires Keyed(db)
    ensures count == CountKeys(db)
  {
    var ids := ListKeyIDs(db);
    DistinctSize(ids);
    assert (set id | id in ids) == set k | k in db.keys :: k.id;
    count := |ids|;
  }

  lemma {:induction false} DistinctSize(ids: seq<string>)
    requires Distinct(ids)
    ensures |set id | id in ids| == |ids|
    decreases |ids|
  {
    if ids != [] {
      var n := |ids| - 1;
      DistinctSize(ids[..n]);
      assert (set id | id in ids) == (set id | id in ids[..n]) + {ids[n]};
    }
  }
}
