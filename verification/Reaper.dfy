/**
  The soft-delete reaper (internal/lifecycle/manager.go). A pass walks the
  version rows page by page and shreds those deleted at or before the cutoff,
  while its offset advances over the list it is shrinking. refused holds the
  versions whose ShredKey call fails.
  */
module Reaper {
  import opened Options
  import opened Clock
  import opened Collections
  import opened Lifecycle
  import opened Paging

  predicate Overdue(m: Metadata, cutoff: Time) {
    m.state == SoftDeleted && m.deletedAt.Some? && m.deletedAt.value <= cutoff
  }

  datatype Pass = Pass(cutoff: Time, refused: set<VersionId>)

  predicate Reaps(p: Pass, m: Metadata) {
    Overdue(m, p.cutoff) && VersionId(m.id, m.version) !in p.refused
  }

  function Reaped(db: Db, p: Pass, m: Metadata): Db {
    if Reaps(p, m) then Next(db, OpShred(m.id, m.version)) else db
  }

  function ReapedAll(db: Db, p: Pass, items: seq<Metadata>): Db
    decreases |items|
  {
    if items == [] then db else Reaped(ReapedAll(db, p, items[..|items| - 1]), p, items[|items| - 1])
  }

  ghost function RowsOf(db: Db, ks: seq<VersionId>): seq<Metadata>
    requires forall k | k in ks :: k in db.keys
  {
    seq(|ks|, i requires 0 <= i < |ks| => assert ks[i] in ks; db.keys[ks[i]])
  }

  ghost function PageAt(db: Db, offset: nat): (page: seq<VersionId>)
    ensures forall k | k in page :: k in db.keys
    ensures |page| ==
            if offset >= |db.keys| then 0
            else if |db.keys| - offset < PAGE_SIZE then |db.keys| - offset
            else PAGE_SIZE
  {
    var ks := Listing(db.keys.Keys);
    ListingSize(ks, db.keys.Keys);
    assert forall k | k in Page(ks, offset, PAGE_SIZE) :: k in ks;
    Page(ks, offset, PAGE_SIZE)
  }

  /** The rest of a pass that has reached offset. */
  ghost function Rest(db: Db, p: Pass, offset: nat): Db
    decreases if offset < |db.keys| then |db.keys| - offset else 0
  {
    var page := PageAt(db, offset);
    if page == [] then db
    else
      var db' := ReapedAll(db, p, RowsOf(db, page));
      ReapedShrinks(db, p, RowsOf(db, page));
      if |page| < PAGE_SIZE then db' else Rest(db', p, offset + |page|)
  }

  // ---------- What reaping keeps ----------

  /** Some rows are gone and nothing else has changed. */
  ghost predicate Shrunk(db: Db, db': Db) {
    db'.latest == db.latest && db'.keys.Keys <= db.keys.Keys && forall k | k in db'.keys :: db'.keys[k] == db.keys[k]
  }

  lemma ShrunkSize(db: Db, db': Db)
    requires Shrunk(db, db')
    ensures |db'.keys| <= |db.keys|
    ensures |db'.keys| == |db.keys| ==> db' == db
  {
    SubsetSize(db'.keys.Keys, db.keys.Keys);
    assert |db'.keys.Keys| == |db'.keys| && |db.keys.Keys| == |db.keys|;
  }

  lemma {:induction false} ReapedShrinks(db: Db, p: Pass, items: seq<Metadata>)
    ensures Shrunk(db, ReapedAll(db, p, items))
    ensures |ReapedAll(db, p, items).keys| <= |db.keys|
    decreases |items|
  {
    if items != [] {
      ReapedShrinks(db, p, items[..|items| - 1]);
    }
    ShrunkSize(db, ReapedAll(db, p, items));
  }

  lemma ReapedOne(db: Db, db1: Db, p: Pass, k: VersionId)
    requires Keyed(db) && Shrunk(db, db1) && k in db.keys
    ensures var db2 := Reaped(db1, p, db.keys[k]);
            db2 == if Reaps(p, db.keys[k]) then db1.(keys := db1.keys - {k}) else db1
  {}

  /** db' is db without the overdue rows among ks. */
  ghost predicate Without(db: Db, db': Db, p: Pass, ks: seq<VersionId>) {
    Shrunk(db, db') && forall k | k in db.keys :: k !in db'.keys <==> k in ks && Reaps(p, db.keys[k])
  }

  lemma WithoutOneMore(db: Db, db1: Db, p: Pass, ks: seq<VersionId>, x: VersionId)
    requires Keyed(db) && Without(db, db1, p, ks) && x in db.keys
    ensures Without(db, Reaped(db1, p, db.keys[x]), p, ks + [x])
  {
    hide Keyed, Reaped, Reaps;
    ReapedOne(db, db1, p, x);
  }

  /** The overdue rows among the items are gone, and only those. */
  lemma {:induction false} ReapedExactly(db: Db, p: Pass, ks: seq<VersionId>)
    requires Keyed(db) && forall k | k in ks :: k in db.keys
    ensures Without(db, ReapedAll(db, p, RowsOf(db, ks)), p, ks)
    decreases |ks|
  {
    hide Keyed, Reaped, Without;
    var items := RowsOf(db, ks);
    if ks == [] {
      WithoutNone(db, p);
    } else {
      var n := |ks| - 1;
      assert forall k | k in ks[..n] :: k in ks;
      ReapedExactly(db, p, ks[..n]);
      assert items[..n] == RowsOf(db, ks[..n]);
      assert ks[n] in ks;
      WithoutOneMore(db, ReapedAll(db, p, items[..n]), p, ks[..n], ks[n]);
      assert ks == ks[..n] + [ks[n]];
    }
  }

  lemma WithoutNone(db: Db, p: Pass)
    ensures Without(db, db, p, [])
  {}

  lemma ShrunkIsKeyed(db: Db, db': Db)
    requires Keyed(db) && Shrunk(db, db')
    ensures Keyed(db')
  {}

  lemma ReapedTwice(db: Db, db1: Db, db2: Db, p: Pass)
    requires Shrunk(db, db1) && Shrunk(db1, db2)
    requires forall k | k in db.keys && k !in db1.keys :: Reaps(p, db.keys[k])
    requires forall k | k in db1.keys && k !in db2.keys :: Reaps(p, db1.keys[k])
    ensures Shrunk(db, db2) && forall k | k in db.keys && k !in db2.keys :: Reaps(p, db.keys[k])
  {
    hide Reaps;
  }

  lemma {:induction false} PassReapsOnly(db: Db, p: Pass, offset: nat)
    requires Keyed(db)
    ensures var db' := Rest(db, p, offset);
            Shrunk(db, db') && forall k | k in db.keys && k !in db'.keys :: Reaps(p, db.keys[k])
    decreases if offset < |db.keys| then |db.keys| - offset else 0
  {
    hide Keyed, Reaps, ReapedAll, RowsOf, Rest, Shrunk;
    var page := PageAt(db, offset);
    var db1 := ReapedAll(db, p, RowsOf(db, page));
    RestStep(db, p, offset);
    ReapedExactly(db, p, page);
    ShrunkSize(db, db1);
    SameIsShrunk(db);
    if |page| == PAGE_SIZE {
      ShrunkIsKeyed(db, db1);
      PassReapsOnly(db1, p, offset + |page|);
      ReapedTwice(db, db1, Rest(db, p, offset), p);
    }
  }

  lemma SameIsShrunk(db: Db)
    ensures Shrunk(db, db)
  {}

  /** reapExpiredSoftDeletes: reaped lists the versions reported as deleted, each once. */
  method ReapExpiredSoftDeletes(db0: Db, p: Pass) returns (db: Db, reaped: seq<VersionId>)
    requires Keyed(db0)
    ensures db == Rest(db0, p, 0)
    ensures forall k :: k in reaped <==> k in db0.keys && k !in db.keys
    ensures forall k | k in reaped ::
              && db0.keys[k].state == SoftDeleted && db0.keys[k].deletedAt.Some?
              && db0.keys[k].deletedAt.value <= p.cutoff
    ensures Distinct(reaped)
  {
    hide Keyed, ReapedAll, Rest, Distinct, PageAt, RowsOf;
    db, reaped := db0, [];
    FewAreDistinct(reaped);
    var offset: nat := 0;
    var more := true;
    while more
      invariant Keyed(db) && Shrunk(db0, db)
      invariant Rest(db0, p, 0) == if more then Rest(db, p, offset) else db
      invariant forall k :: k in reaped <==> k in db0.keys && k !in db.keys
      invariant Distinct(reaped)
      decreases if more then 1 else 0, if offset < |db.keys| then |db.keys| - offset else 0
    {
      RestStep(db, p, offset);
      var seen, after, gone := ReapPage(db, p, offset);
      if seen == 0 {
        break;
      }
      AppendDistinct(reaped, gone);
      reaped := reaped + gone;
      db := after;
      offset := offset + seen;
      more := seen >= PAGE_SIZE;
    }
    AllDeletedOverdue(db0, p);
  }

  lemma AllDeletedOverdue(db: Db, p: Pass)
    requires Keyed(db)
    ensures forall k | k in db.keys && k !in Rest(db, p, 0).keys ::
              db.keys[k].state == SoftDeleted && db.keys[k].deletedAt.Some? && db.keys[k].deletedAt.value <= p.cutoff
  {
    hide Rest, Keyed;
    forall k | k in db.keys && k !in Rest(db, p, 0).keys
      ensures db.keys[k].state == SoftDeleted && db.keys[k].deletedAt.Some? && db.keys[k].deletedAt.value <= p.cutoff
    {
      PassDeletesOnlyOverdue(db, p, k);
    }
  }

  /** One page: how many rows it had, the store after it and the versions it deleted. */
  method ReapPage(db0: Db, p: Pass, offset: nat) returns (seen: nat, db: Db, reaped: seq<VersionId>)
    requires Keyed(db0)
    ensures seen == |PageAt(db0, offset)| && db == ReapedAll(db0, p, RowsOf(db0, PageAt(db0, offset)))
    ensures Keyed(db) && Shrunk(db0, db) && |db.keys| <= |db0.keys|
    ensures forall k :: k in reaped <==> k in db0.keys && k !in db.keys
    ensures Distinct(reaped)
  {
    hide Keyed, Reaps, ReapedAll, Distinct, Listing;
    var items, _ := ScanPrefixPaged(db0, offset, PAGE_SIZE);
    ghost var page := PageAt(db0, offset);
    assert items == RowsOf(db0, page);
    seen := |items|;
    db, reaped := ReapItems(db0, p, items, page);
    ReapedShrinks(db0, p, items);
    ShrunkIsKeyed(db0, db);
  }

  lemma RestStep(db: Db, p: Pass, offset: nat)
    ensures var page := PageAt(db, offset);
            var db' := ReapedAll(db, p, RowsOf(db, page));
            Rest(db, p, offset) ==
            if page == [] then db
            else if |page| < PAGE_SIZE then db'
            else Rest(db', p, offset + |page|)
  {
    hide ReapedAll;
  }

  lemma ReapedUnfold(db: Db, p: Pass, items: seq<Metadata>)
    ensures ReapedAll(db, p, items) ==
            if items == [] then db else Reaped(ReapedAll(db, p, items[..|items| - 1]), p, items[|items| - 1])
  {}

  method ReapItems(db0: Db, p: Pass, items: seq<Metadata>, ghost ks: seq<VersionId>)
    returns (db: Db, reaped: seq<VersionId>)
    requires Keyed(db0) && (forall k | k in ks :: k in db0.keys) && items == RowsOf(db0, ks)
    ensures db == ReapedAll(db0, p, items)
    ensures forall k :: k in reaped <==> k in db0.keys && k !in db.keys
    ensures Distinct(reaped)
  {
    hide Distinct, ReapedAll, Reaped;
    db, reaped := db0, [];
    FewAreDistinct(reaped);
    ReapedUnfold(db0, p, items[..0]);
    for n := 0 to |items|
      invariant db == ReapedAll(db0, p, items[..n]) && Shrunk(db0, db)
      invariant forall k :: k in reaped <==> k in db0.keys && k !in db.keys
      invariant Distinct(reaped)
    {
      ReapedUnfold(db0, p, items[..n + 1]);
      assert items[..n + 1][..n] == items[..n];
      var meta := items[n];
      assert ks[n] in ks;
      ReapedOne(db0, db, p, ks[n]);
      if meta.state != SoftDeleted {
        continue;
      }
      if meta.deletedAt.None? || meta.deletedAt.value > p.cutoff {
        continue;
      }
      var k := VersionId(meta.id, meta.version);
      var shredded := Shred(db, k.id, k.version);
      if k in p.refused || shredded.Err? {
        continue;
      }
      db := shredded.value;
      FewAreDistinct([k]);
      AppendDistinct(reaped, [k]);
      reaped := reaped + [k];
    }
    assert items[..|items|] == items;
  }

  /** ShredKey ignores the state: a row restored between the page read and its turn is shredded all the same. */
  lemma RestoredRowIsReaped(db: Db, p: Pass, k: VersionId)
    requires Keyed(db) && k in db.keys && Reaps(p, db.keys[k])
    ensures var restored := Next(db, OpRestore(k.id, k.version));
            && k in restored.keys && restored.keys[k].state == Deactivated
            && k !in Reaped(restored, p, db.keys[k]).keys
  {}

  // ---------- A pass that deletes nothing ----------

  ghost predicate Clean(db: Db, p: Pass) {
    forall k | k in db.keys :: !Reaps(p, db.keys[k])
  }

  lemma {:induction false} IdlePassSawNothing(db: Db, p: Pass, offset: nat)
    requires Keyed(db) && Rest(db, p, offset) == db
    ensures forall i | offset <= i < |Listing(db.keys.Keys)| ::
              Listing(db.keys.Keys)[i] in db.keys && !Reaps(p, db.keys[Listing(db.keys.Keys)[i]])
    decreases if offset < |db.keys| then |db.keys| - offset else 0
  {
    hide Keyed, Reaps, ReapedAll, Lists;
    var ks := Listing(db.keys.Keys);
    ListingSize(ks, db.keys.Keys);
    ListedKeys(db);
    var page := PageAt(db, offset);
    if page != [] {
      var db1 := ReapedAll(db, p, RowsOf(db, page));
      ReapedExactly(db, p, page);
      ShrunkIsKeyed(db, db1);
      ShrunkSize(db, db1);
      if |page| == PAGE_SIZE {
        PassReapsOnly(db1, p, offset + |page|);
        ShrunkSize(db1, db);
        IdlePassSawNothing(db, p, offset + |page|);
      }
      forall i | offset <= i < offset + |page|
        ensures !Reaps(p, db.keys[ks[i]])
      {
        assert page[i - offset] == ks[i];
      }
    }
  }

  lemma ListedKeys(db: Db)
    ensures forall i | 0 <= i < |Listing(db.keys.Keys)| :: Listing(db.keys.Keys)[i] in db.keys
  {
    var ks := Listing(db.keys.Keys);
    assert forall i | 0 <= i < |ks| :: ks[i] in ks;
  }

  lemma IdlePassIffNothingReaps(db: Db, p: Pass)
    requires Keyed(db)
    ensures Rest(db, p, 0) == db <==> Clean(db, p)
  {
    hide Reaps, Keyed, Rest;
    if Rest(db, p, 0) == db {
      IdlePassSawNothing(db, p, 0);
      var ks := Listing(db.keys.Keys);
      forall k | k in db.keys
        ensures !Reaps(p, db.keys[k])
      {
        assert k in ks;
        var i :| 0 <= i < |ks| && ks[i] == k;
      }
    }
    PassReapsOnly(db, p, 0);
    NothingDeleted(db, Rest(db, p, 0));
  }

  lemma NothingDeleted(db: Db, db': Db)
    requires Shrunk(db, db')
    ensures (forall k | k in db.keys :: k in db'.keys) ==> db' == db
  {
    if forall k | k in db.keys :: k in db'.keys {
      assert db'.keys == db.keys;
    }
  }

  /** Passes with a fixed cutoff until one deletes nothing. */
  ghost function Repeated(db: Db, p: Pass): Db
    requires Keyed(db)
    decreases |db.keys|
  {
    var db' := Rest(db, p, 0);
    PassReapsOnly(db, p, 0);
    ShrunkSize(db, db');
    ShrunkIsKeyed(db, db');
    if db' == db then db else Repeated(db', p)
  }

  lemma {:induction false} RepeatingReapsAll(db: Db, p: Pass)
    requires Keyed(db)
    ensures var db' := Repeated(db, p);
            Shrunk(db, db') && forall k | k in db.keys :: k !in db'.keys <==> Reaps(p, db.keys[k])
    decreases |db.keys|
  {
    hide Keyed, Reaps, Rest;
    var db1 := Rest(db, p, 0);
    PassReapsOnly(db, p, 0);
    ShrunkSize(db, db1);
    ShrunkIsKeyed(db, db1);
    if db1 == db {
      IdlePassIffNothingReaps(db, p);
    } else {
      RepeatingReapsAll(db1, p);
    }
  }

  // ---------- In terms of the rows ----------

  lemma ReapsExactly(p: Pass, k: VersionId, m: Metadata)
    requires VersionId(m.id, m.version) == k
    ensures Reaps(p, m) <==>
            m.state == SoftDeleted && m.deletedAt.Some? && m.deletedAt.value <= p.cutoff && k !in p.refused
  {}

  /** A pass deletes only versions soft-deleted at or before the cutoff, and changes nothing else. */
  lemma PassDeletesOnlyOverdue(db: Db, p: Pass, k: VersionId)
    requires Keyed(db)
    ensures var after := Rest(db, p, 0);
            && after.latest == db.latest
            && (k in after.keys ==> k in db.keys && after.keys[k] == db.keys[k])
            && (k in db.keys && k !in after.keys ==>
                  var m := db.keys[k]; m.state == SoftDeleted && m.deletedAt.Some? && m.deletedAt.value <= p.cutoff)
  {
    hide Rest, Reaps;
    PassReapsOnly(db, p, 0);
    if k in db.keys {
      ReapsExactly(p, k, db.keys[k]);
    }
  }

  /** Without refusals, a pass deletes nothing if and only if no version was soft-deleted at or before the cutoff. */
  lemma IdlePassIffClean(db: Db, p: Pass)
    requires Keyed(db) && p.refused == {}
    ensures Rest(db, p, 0) == db <==>
            forall k | k in db.keys && db.keys[k].state == SoftDeleted && db.keys[k].deletedAt.Some? ::
              db.keys[k].deletedAt.value > p.cutoff
  {
    hide Rest, Reaps;
    IdlePassIffNothingReaps(db, p);
    forall k | k in db.keys
      ensures Reaps(p, db.keys[k]) <==>
              var m := db.keys[k]; m.state == SoftDeleted && m.deletedAt.Some? && m.deletedAt.value <= p.cutoff
    {
      ReapsExactly(p, k, db.keys[k]);
    }
  }

  /** Repeating passes ends with exactly the versions gone that were soft-deleted at or before the cutoff. */
  lemma RepeatingEmptiesBin(db: Db, p: Pass, k: VersionId)
    requires Keyed(db) && p.refused == {} && k in db.keys
    ensures var m := db.keys[k];
            k !in Repeated(db, p).keys <==>
            m.state == SoftDeleted && m.deletedAt.Some? && m.deletedAt.value <= p.cutoff
    ensures k in Repeated(db, p).keys ==> Repeated(db, p).keys[k] == db.keys[k]
  {
    hide Repeated, Reaps;
    RepeatingReapsAll(db, p);
    ReapsExactly(p, k, db.keys[k]);
  }

  // ---------- When one pass is enough ----------

  ghost predicate OnePassSuffices(n: nat, p: Pass) {
    forall db: Db | Keyed(db) && |db.keys| == n :: Clean(Rest(db, p, 0), p)
  }

  lemma OnePageSuffices(db: Db, p: Pass)
    requires Keyed(db) && |db.keys| <= PAGE_SIZE
    ensures Clean(Rest(db, p, 0), p)
  {
    hide Keyed, Reaps, ReapedAll;
    var ks := Listing(db.keys.Keys);
    ListingSize(ks, db.keys.Keys);
    var page := PageAt(db, 0);
    assert page == ks;
    if page != [] {
      var db1 := ReapedAll(db, p, RowsOf(db, page));
      ReapedExactly(db, p, page);
      assert Clean(db1, p);
      ShrunkSize(db, db1);
      if |page| == PAGE_SIZE {
        assert PageAt(db1, PAGE_SIZE) == [];
        assert Rest(db1, p, PAGE_SIZE) == db1;
      }
    }
  }

  /** Rows before the offset are never visited again: the first row survives. */
  lemma {:induction false} FirstRowSurvives(db: Db, p: Pass, offset: nat, k: VersionId)
    requires Keyed(db) && offset > 0 && k in db.keys && Listing(db.keys.Keys)[..1] == [k]
    ensures k in Rest(db, p, offset).keys
    decreases if offset < |db.keys| then |db.keys| - offset else 0
  {
    hide Keyed, Reaps, ReapedAll, Listing;
    var page := PageAt(db, offset);
    if page != [] {
      var db1 := ReapedAll(db, p, RowsOf(db, page));
      ReapedExactly(db, p, page);
      assert Listing(db.keys.Keys)[..1][0] == k;
      FirstRowIsBehind(db, offset, k);
      ShrunkIsKeyed(db, db1);
      ShrunkSize(db, db1);
      if |page| == PAGE_SIZE {
        StaysFirst(db.keys.Keys, db1.keys.Keys, k);
        FirstRowSurvives(db1, p, offset + |page|, k);
      }
    }
  }

  lemma FirstRowIsBehind(db: Db, offset: nat, k: VersionId)
    requires offset > 0 && Listing(db.keys.Keys) != [] && Listing(db.keys.Keys)[0] == k
    ensures k !in PageAt(db, offset)
  {
    hide Before;
    var ks := Listing(db.keys.Keys);
    NoRepeats(ks);
  }

  lemma StaysFirst(keys: set<VersionId>, fewer: set<VersionId>, k: VersionId)
    requires fewer <= keys && k in fewer && Listing(keys)[..1] == [k]
    ensures Listing(fewer)[..1] == [k]
  {
    hide Before;
    var ks, ls := Listing(keys), Listing(fewer);
    assert k in ls;
    assert ks[0] == k;
    var i :| 0 <= i < |ls| && ls[i] == k;
    if i > 0 {
      assert ls[0] in fewer && ls[0] in ks;
      var j :| 0 <= j < |ks| && ks[j] == ls[0];
      BeforeIsOrder(k, ls[0], k);
    }
  }

  /** n soft-deleted versions of one key. */
  ghost function FullBin(n: nat, cutoff: Time): Db {
    Db(map k: VersionId | k in (set v | 1 <= v <= n :: VersionId("k", v)) ::
         Metadata("k", k.version, SoftDeleted, [], 0, Some(cutoff), 0, None),
       map["k" := if n == 0 then 1 else n])
  }

  lemma {:induction false} BinSize(n: nat)
    ensures |set v | 1 <= v <= n :: VersionId("k", v)| == n
  {
    var vs := set v | 1 <= v <= n :: VersionId("k", v);
    if n > 0 {
      BinSize(n - 1);
      assert vs == (set v | 1 <= v <= n - 1 :: VersionId("k", v)) + {VersionId("k", n)};
    } else {
      assert vs == {};
    }
  }

  lemma FullBinIsSound(n: nat, cutoff: Time)
    ensures Sound(FullBin(n, cutoff)) && Keyed(FullBin(n, cutoff)) && |FullBin(n, cutoff).keys| == n
    ensures forall k | k in FullBin(n, cutoff).keys :: Overdue(FullBin(n, cutoff).keys[k], cutoff)
  {
    BinSize(n);
    var db := FullBin(n, cutoff);
    assert db.keys.Keys == set v | 1 <= v <= n :: VersionId("k", v);
    forall k | k in db.keys
      ensures SoundRow(db, k)
    {}
  }

  /** With more rows than a page, a full bin is not emptied: the offset skips what moved up. */
  lemma FullBinSurvivesPass(n: nat, p: Pass)
    requires n > PAGE_SIZE && p.refused == {}
    ensures !Clean(Rest(FullBin(n, p.cutoff), p, 0), p)
  {
    hide Keyed, ReapedAll, FullBin, Before;
    var db := FullBin(n, p.cutoff);
    FullBinIsSound(n, p.cutoff);
    var page := PageAt(db, 0);
    var db1 := ReapedAll(db, p, RowsOf(db, page));
    ReapedExactly(db, p, page);
    ShrunkIsKeyed(db, db1);
    var ks := Listing(db.keys.Keys);
    ListingSize(ks, db.keys.Keys);
    NoRepeats(ks);
    assert ks[PAGE_SIZE] !in page;
    assert ks[PAGE_SIZE] in ks;
    assert ks[PAGE_SIZE] in db1.keys;
    var first := Listing(db1.keys.Keys);
    assert ks[PAGE_SIZE] in first;
    assert first[..1] == [first[0]];
    assert first[0] in db1.keys;
    FirstRowSurvives(db1, p, PAGE_SIZE, first[0]);
    PassReapsOnly(db1, p, PAGE_SIZE);
    assert Rest(db, p, 0) == Rest(db1, p, PAGE_SIZE);
  }

  /** One pass empties the bin of every store of n rows if and only if they fit in one page. */
  lemma OnePassSufficesExactly(n: nat, p: Pass)
    requires p.refused == {}
    ensures OnePassSuffices(n, p) <==> n <= 1000
  {
    hide Rest, Clean, Keyed, Sound, FullBin;
    if n <= PAGE_SIZE {
      forall db: Db | Keyed(db) && |db.keys| == n
        ensures Clean(Rest(db, p, 0), p)
      {
        OnePageSuffices(db, p);
      }
    } else {
      FullBinSurvivesPass(n, p);
      FullBinIsSound(n, p.cutoff);
    }
  }

  // ---------- A pass among other writers ----------

  /** items holds what is left of the page the pass has read. */
  datatype Scene = Scene(db: Db, items: seq<Metadata>)

  datatype Act = ReadPage(offset: nat) | Handle | Other(op: Op)

  ghost function AfterAct(s: Scene, p: Pass, act: Act): Scene {
    match act
    case ReadPage(offset) => s.(items := RowsOf(s.db, PageAt(s.db, offset)))
    case Handle => if s.items == [] then s else Scene(Reaped(s.db, p, s.items[0]), s.items[1..])
    case Other(op) => s.(db := Next(s.db, op))
  }

  ghost function RunActs(db: Db, p: Pass, acts: seq<Act>): Scene
    decreases |acts|
  {
    if |acts| == 0 then Scene(db, []) else AfterAct(RunActs(db, p, acts[..|acts| - 1]), p, acts[|acts| - 1])
  }

  lemma {:induction false} ActsKeepKeyed(db: Db, p: Pass, acts: seq<Act>)
    requires Keyed(db)
    ensures Keyed(RunActs(db, p, acts).db)
    decreases |acts|
  {
    hide Keyed, Next, Reaps;
    if |acts| > 0 {
      var n := |acts| - 1;
      ActsKeepKeyed(db, p, acts[..n]);
      var s := RunActs(db, p, acts[..n]);
      if acts[n].Other? {
        NextKeepsKeyed(s.db, acts[n].op);
      } else if acts[n].Handle? && s.items != [] {
        NextKeepsKeyed(s.db, OpShred(s.items[0].id, s.items[0].version));
      }
    }
  }

  /** The latest page read before instant n, at which the row was stored as the item says. */
  ghost predicate ReadAt(db: Db, p: Pass, acts: seq<Act>, i: nat, m: Metadata) {
    && i < |acts| && acts[i].ReadPage? && (forall j | i < j < |acts| :: !acts[j].ReadPage?)
    && var before, k := RunActs(db, p, acts[..i]).db, VersionId(m.id, m.version);
       k in before.keys && before.keys[k] == m
  }

  lemma ReadEarlier(db: Db, p: Pass, acts: seq<Act>, act: Act, i: nat, m: Metadata)
    requires ReadAt(db, p, acts, i, m) && !act.ReadPage?
    ensures ReadAt(db, p, acts + [act], i, m)
  {
    hide RunActs;
    assert (acts + [act])[..i] == acts[..i];
  }

  lemma {:induction false} ItemOrigin(db: Db, p: Pass, acts: seq<Act>, m: Metadata) returns (i: nat)
    requires Keyed(db)
    ensures m in RunActs(db, p, acts).items ==> ReadAt(db, p, acts, i, m)
    decreases |acts|
  {
    hide Keyed, Next, Reaped, PageAt, RowsOf;
    i := 0;
    if m !in RunActs(db, p, acts).items {
      return;
    }
    var n := |acts| - 1;
    var s := RunActs(db, p, acts[..n]);
    if acts[n].ReadPage? {
      i := n;
      ActsKeepKeyed(db, p, acts[..n]);
      PageRow(s.db, acts[n].offset, m);
    } else {
      assert m in s.items;
      i := ItemOrigin(db, p, acts[..n], m);
      ReadEarlier(db, p, acts[..n], acts[n], i, m);
      assert acts[..n] + [acts[n]] == acts;
    }
  }

  lemma PageRow(db: Db, offset: nat, m: Metadata)
    requires Keyed(db) && m in RowsOf(db, PageAt(db, offset))
    ensures var k := VersionId(m.id, m.version); k in db.keys && db.keys[k] == m
  {
    hide PageAt;
    var page := PageAt(db, offset);
    var i :| 0 <= i < |page| && RowsOf(db, page)[i] == m;
    assert page[i] in page;
  }

  /**
    Whatever other writers do between its reads and its shreds, a pass deletes
    only versions that were overdue when their page was read.
    */
  lemma DeletedWasOverdue(db: Db, p: Pass, acts: seq<Act>, k: VersionId) returns (i: nat)
    requires Keyed(db)
    ensures var s := RunActs(db, p, acts);
            k in s.db.keys && k !in AfterAct(s, p, Handle).db.keys ==>
              && i < |acts| && acts[i].ReadPage? && (forall j | i < j < |acts| :: !acts[j].ReadPage?)
              && var before := RunActs(db, p, acts[..i]).db;
                 && k in before.keys && Reaps(p, before.keys[k])
                 && before.keys[k].state == SoftDeleted && before.keys[k].deletedAt.Some?
                 && before.keys[k].deletedAt.value <= p.cutoff
  {
    hide Keyed, RunActs;
    i := 0;
    var s := RunActs(db, p, acts);
    if k in s.db.keys && k !in AfterAct(s, p, Handle).db.keys {
      i := ItemOrigin(db, p, acts, s.items[0]);
    }
  }

  // ---------- When a deleted row is still overdue ----------

  /** The act does not restore the version and does not create or import its key. */
  predicate Spares(act: Act, k: VersionId) {
    act.Other? ==>
      match act.op
      case OpRestore(id, v) => VersionId(id, v) != k
      case OpCreate(id, _, _, _, _, _) => id != k.id
      case OpImport(id, _, _) => id != k.id
      case _ => true
  }

  ghost predicate AllowedActs(db: Db, p: Pass, acts: seq<Act>) {
    forall i | 0 <= i < |acts| && acts[i].Other? :: Allowed(RunActs(db, p, acts[..i]).db, acts[i].op)
  }

  /** What an act does to the store is one operation, or nothing. */
  lemma ActIsOp(s: Scene, p: Pass, act: Act) returns (op: Op)
    ensures act.Other? ==> op == act.op
    ensures !act.Other? ==> op.OpShred?
    ensures AfterAct(s, p, act).db == s.db || AfterAct(s, p, act).db == Next(s.db, op)
  {
    hide Next;
    op := if act.Other? then act.op
          else if s.items == [] then OpShred("", 0)
          else OpShred(s.items[0].id, s.items[0].version);
  }

  /** The row is as it was read, or gone for good. */
  ghost predicate Settled(db: Db, k: VersionId, m: Metadata) {
    Sound(db) && ((k in db.keys && db.keys[k] == m) || Gone(db, k))
  }

  lemma OpKeepsSettled(db: Db, op: Op, k: VersionId, m: Metadata)
    requires Settled(db, k, m) && m.state == SoftDeleted && Allowed(db, op) && Spares(Other(op), k)
    ensures Settled(Next(db, op), k, m)
  {
    NextKeepsSound(db, op);
    if Gone(db, k) {
      NextKeepsGone(db, op, k);
    } else if op == OpShred(k.id, k.version) {
      ShredMakesGone(db, k);
    } else {
      RowStays(db, op, k);
    }
  }

  lemma RowStays(db: Db, op: Op, k: VersionId)
    requires Sound(db) && k in db.keys && db.keys[k].state == SoftDeleted && Allowed(db, op) && Spares(Other(op), k)
    requires op != OpShred(k.id, k.version)
    ensures k in Next(db, op).keys && Next(db, op).keys[k] == db.keys[k]
  {
    hide LatestVersion, SoundRow;
    if op.OpRotate? && Outcome(db, op).Ok? {
      RotateAdvancesIndex(db, op.id, op.material, op.now);
    }
  }

  lemma {:induction false} ActsKeepSettled(db: Db, p: Pass, acts: seq<Act>, i: nat, k: VersionId, m: Metadata)
    requires AllowedActs(db, p, acts) && i <= |acts| && m.state == SoftDeleted
    requires forall j | i <= j < |acts| :: Spares(acts[j], k)
    ensures Settled(RunActs(db, p, acts[..i]).db, k, m) ==> Settled(RunActs(db, p, acts).db, k, m)
    decreases |acts|
  {
    hide Settled, AfterAct, Allowed, Spares;
    if i == |acts| {
      assert acts[..i] == acts;
    } else if Settled(RunActs(db, p, acts[..i]).db, k, m) {
      var n := |acts| - 1;
      var s := RunActs(db, p, acts[..n]);
      AllowedActsPrefix(db, p, acts, n);
      assert acts[..n][..i] == acts[..i];
      assert forall j | 0 <= j < n :: acts[..n][j] == acts[j];
      ActsKeepSettled(db, p, acts[..n], i, k, m);
      var op := ActIsOp(s, p, acts[n]);
      SparesOp(acts[n], op, s.db, k);
      OpKeepsSettled(s.db, op, k, m);
    }
  }

  lemma SparesOp(act: Act, op: Op, db: Db, k: VersionId)
    requires Spares(act, k) && (if act.Other? then op == act.op && Allowed(db, op) else op.OpShred?)
    ensures Spares(Other(op), k) && Allowed(db, op)
  {}

  lemma AllowedActsPrefix(db: Db, p: Pass, acts: seq<Act>, n: nat)
    requires n <= |acts| && AllowedActs(db, p, acts)
    ensures AllowedActs(db, p, acts[..n])
  {
    hide Allowed, RunActs;
    assert forall i | 0 <= i < n :: acts[..n][i] == acts[i] && acts[..n][..i] == acts[..i];
  }

  lemma {:induction false} ActsKeepSound(db: Db, p: Pass, acts: seq<Act>)
    requires Sound(db) && AllowedActs(db, p, acts)
    ensures Sound(RunActs(db, p, acts).db)
    decreases |acts|
  {
    hide Sound, AfterAct, Allowed;
    if |acts| > 0 {
      var n := |acts| - 1;
      AllowedActsPrefix(db, p, acts, n);
      ActsKeepSound(db, p, acts[..n]);
      var s := RunActs(db, p, acts[..n]);
      var op := ActIsOp(s, p, acts[n]);
      ShredIsAllowed(s.db, op);
      NextKeepsSound(s.db, op);
    }
  }

  lemma ShredIsAllowed(db: Db, op: Op)
    ensures op.OpShred? ==> Allowed(db, op)
  {}

  /**
    A version the pass deletes is still overdue at that moment, with the very
    row its page showed, unless it was restored or its key created again since
    the page was read at instant i.
    */
  lemma DeletedIsStillOverdue(db: Db, p: Pass, acts: seq<Act>, k: VersionId, i: nat)
    requires Sound(db) && AllowedActs(db, p, acts) && i <= |acts|
    requires var before := RunActs(db, p, acts[..i]).db; k in before.keys && Reaps(p, before.keys[k])
    requires forall j | i <= j < |acts| :: Spares(acts[j], k)
    requires k in RunActs(db, p, acts).db.keys
    ensures var now := RunActs(db, p, acts).db;
            now.keys[k] == RunActs(db, p, acts[..i]).db.keys[k] && Reaps(p, now.keys[k])
  {
    hide RunActs, Sound, AllowedActs, Spares;
    var before := RunActs(db, p, acts[..i]).db;
    AllowedActsPrefix(db, p, acts, i);
    ActsKeepSound(db, p, acts[..i]);
    ActsKeepSettled(db, p, acts, i, k, before.keys[k]);
  }

  // ---------- How long a soft-deleted version is kept ----------

  lemma {:induction false} OpsKeepRow(db: Db, ops: seq<Op>, k: VersionId)
    requires Sound(db) && AllowedRun(db, ops) && k in db.keys && db.keys[k].state == SoftDeleted
    requires forall op | op in ops :: Spares(Other(op), k) && op != OpShred(k.id, k.version)
    ensures var db' := RunOps(db, ops); Sound(db') && k in db'.keys && db'.keys[k] == db.keys[k]
    decreases |ops|
  {
    hide Sound, Next, Spares, Allowed;
    if |ops| > 0 {
      var n := |ops| - 1;
      assert ops[n] in ops;
      assert forall op | op in ops[..n] :: op in ops;
      AllowedPrefix(db, ops, n);
      OpsKeepRow(db, ops[..n], k);
      RunKeepsSound(db, ops);
      RowStays(RunOps(db, ops[..n]), ops[n], k);
    }
  }

  lemma SoundIsKeyed(db: Db)
    requires Sound(db)
    ensures Keyed(db)
  {
    forall k | k in db.keys
      ensures VersionId(db.keys[k].id, db.keys[k].version) == k
    {
      assert SoundRow(db, k);
    }
  }

  /**
    A version soft-deleted at time t survives every pass with a cutoff before t
    and is gone after repeated passes with a cutoff from t on, whatever ran in
    between that neither restored nor shredded it nor created its key again.
    */
  lemma KeptUntilCutoff(db: Db, k: VersionId, t: Time, ops: seq<Op>, p: Pass)
    requires Sound(db) && k in db.keys && db.keys[k].state in {Active, Deactivated} && p.refused == {}
    requires var deleted := Next(db, OpSoftDelete(k.id, k.version, t)); AllowedRun(deleted, ops)
    requires forall op | op in ops :: Spares(Other(op), k) && op != OpShred(k.id, k.version)
    ensures var db' := RunOps(Next(db, OpSoftDelete(k.id, k.version, t)), ops);
            && Keyed(db')
            && (p.cutoff < t ==> k in Rest(db', p, 0).keys)
            && (p.cutoff < t <==> k in Repeated(db', p).keys)
  {
    var deleted := Next(db, OpSoftDelete(k.id, k.version, t));
    NextKeepsSound(db, OpSoftDelete(k.id, k.version, t));
    assert deleted.keys[k].state == SoftDeleted && deleted.keys[k].deletedAt == Some(t);
    hide Sound, Rest, Repeated, RunOps, AllowedRun, Keyed, Spares;
    OpsKeepRow(deleted, ops, k);
    var db' := RunOps(deleted, ops);
    SoundIsKeyed(db');
    PassDeletesOnlyOverdue(db', p, k);
    RepeatingEmptiesBin(db', p, k);
  }
}
