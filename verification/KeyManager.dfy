/**
  The Manager object (internal/lifecycle/manager.go, transit.go): each method
  does to its store and cache exactly what the step of KeyNode says.

  A transaction works on a copy of the store that replaces it on commit, which
  is the all-or-nothing contract of internal/storage/kvstore.go.
  */
module KeyManager {
  import opened Options
  import opened Clock
  import opened Gf256
  import opened Lifecycle
  import opened KeyCache
  import opened KeyNode

  /** Outside ks the two stores hold the same rows. */
  ghost predicate Others(a: Db, b: Db, ks: set<VersionId>) {
    a.keys - ks == b.keys - ks
  }

  class Manager {
    var db: Db
    const cache: DekCache
    var maxGlobalKeys: int

    ghost function Current(now: Time): Node
      reads this, cache
    {
      Node(db, cache.Current(), now)
    }

    constructor (db: Db, maxGlobalKeys: int)
      ensures this.db == db && this.maxGlobalKeys == maxGlobalKeys && fresh(cache) && cache.Current() == NO_CACHE
    {
      this.db, this.maxGlobalKeys := db, maxGlobalKeys;
      cache := new DekCache();
    }

    // ---------- Lookups ----------

    method LoadMetadata(k: VersionId, now: Time) returns (r: Result<Metadata, Error>)
      modifies cache
      ensures r == Load(old(Current(now)), k)
      ensures Current(now) == After(old(Current(now)), Lookup(k))
      ensures r.Ok? ==> k in cache.data && cache.data[k] == r.value
      ensures r.Err? ==> k in cache.negative && now <= cache.negative[k]
      ensures r.Err? && k !in old(cache.negative) ==> cache.negative[k] == now + 5_000_000_000
    {
      var hit := cache.Get(k);
      if hit.Some? {
        return Ok(hit.value);
      }
      var absent := cache.IsAbsent(k, now);
      if absent {
        return Err(NotFound);
      }
      if k !in db.keys {
        cache.PutAbsent(k, now);
        return Err(NotFound);
      }
      cache.PutEntry(k, db.keys[k]);
      return Ok(db.keys[k]);
    }

    /** getLatestVersion, with the scan of findLatestVersionScan as the fallback. */
    method FindLatestVersion(id: string) returns (r: Option<int>)
      ensures r == LatestVersion(db, id)
    {
      if id in db.latest && db.latest[id] > 0 {
        return Some(db.latest[id]);
      }
      var v := 1;
      while VersionId(id, v) in db.keys
        invariant v >= 1 && ScanFrom(db, id, 1) == ScanFrom(db, id, v)
        decreases |VersionsFrom(db, id, v)|
      {
        FewerVersionsFrom(db, id, v);
        v := v + 1;
      }
      if v == 1 {
        return None;
      }
      return Some(v - 1);
    }

    method GetKeyForDecrypt(id: string, version: int, now: Time) returns (r: Result<Metadata, Error>)
      modifies cache
      ensures r == ForDecrypt(Load(old(Current(now)), VersionId(id, version)))
      ensures Current(now) == After(old(Current(now)), Lookup(VersionId(id, version)))
    {
      var loaded := LoadMetadata(VersionId(id, version), now);
      if loaded.Ok? && loaded.value.state == Destroyed {
        return Err(KeyDestroyed);
      }
      return loaded;
    }

    method GetActiveKey(id: string, now: Time) returns (r: Result<Metadata, Error>)
      modifies cache
      ensures r == ForEncrypt(old(Current(now)), id)
      ensures var latest := LatestVersion(db, id);
              Current(now) == if latest.None? then old(Current(now))
                              else After(old(Current(now)), Lookup(VersionId(id, latest.value)))
    {
      var latest := FindLatestVersion(id);
      if latest.None? {
        return Err(NotFound);
      }
      var loaded := LoadMetadata(VersionId(id, latest.value), now);
      if loaded.Ok? && loaded.value.state != Active {
        return Err(NotActive);
      }
      return loaded;
    }

    // ---------- Changes ----------

    method CreateKey(id: string, material: Option<Bytes>, periodDays: int, now: Time, indexWritten: bool)
      returns (err: Option<Error>)
      modifies this
      ensures var op := OpCreate(id, material, periodDays, now, maxGlobalKeys, indexWritten);
              && maxGlobalKeys == old(maxGlobalKeys)
              && Current(now) == After(old(Current(now)), Apply(op))
              && (err.None? <==> Outcome(old(db), op).Ok?)
      ensures err.None? ==>
                && Others(old(db), db, {VersionId(id, 1)})
                && db.latest == (if indexWritten then old(db).latest[id := 1] else old(db).latest)
                && VersionId(id, 1) in db.keys
                && var m := db.keys[VersionId(id, 1)];
                   && m.id == id && m.version == 1 && m.state == Active && material == Some(m.material)
                   && m.createdAt == now && m.periodDays == periodDays && m.deletedAt == None
      ensures err.Some? ==> db == old(db)
    {
      if id == "" {
        return Some(EmptyId);
      }
      if maxGlobalKeys > 0 {
        var count := CountKeys(db);
        if count >= maxGlobalKeys {
          return Some(QuotaExceeded);
        }
      }
      if material.None? {
        return Some(WrapFailed);
      }
      var meta := NewVersion(id, 1, material.value, periodDays, now);
      db := db.(keys := db.keys[VersionId(id, 1) := meta]);
      if indexWritten {
        db := db.(latest := db.latest[id := 1]);
      }
      return None;
    }

    method ImportKey(id: string, material: Option<Bytes>, now: Time) returns (err: Option<Error>)
      modifies this
      ensures Current(now) == After(old(Current(now)), Apply(OpImport(id, material, now)))
      ensures err.None? <==> Outcome(old(db), OpImport(id, material, now)).Ok?
      ensures err.None? ==>
                && VersionId(id, 1) in db.keys && Others(old(db), db, {VersionId(id, 1)}) && db.latest == old(db).latest
                && var m := db.keys[VersionId(id, 1)];
                   m.state == Active && material == Some(m.material) && m.createdAt == now && m.periodDays == 0
      ensures err.Some? ==> db == old(db)
      ensures maxGlobalKeys == old(maxGlobalKeys)
    {
      if id == "" {
        return Some(EmptyId);
      }
      if material.None? {
        return Some(WrapFailed);
      }
      db := db.(keys := db.keys[VersionId(id, 1) := NewVersion(id, 1, material.value, 0, now)]);
      return None;
    }

    method RotateKey(id: string, material: Option<Bytes>, now: Time) returns (err: Option<Error>)
      modifies this, cache
      ensures Current(now) == After(old(Current(now)), Apply(OpRotate(id, material, now)))
      ensures err.None? <==> Outcome(old(db), OpRotate(id, material, now)).Ok?
      ensures err.None? ==>
                && LatestVersion(old(db), id).Some?
                && var v := LatestVersion(old(db), id).value;
                   var prior, next := VersionId(id, v), VersionId(id, v + 1);
                   && prior in old(db).keys && prior in db.keys && next in db.keys
                   && old(db).keys[prior].state == Active
                   && db.keys[prior] == old(db).keys[prior].(state := Deactivated)
                   && db.keys[next].id == id && db.keys[next].version == v + 1 && db.keys[next].state == Active
                   && material == Some(db.keys[next].material) && db.keys[next].createdAt == now
                   && db.keys[next].periodDays == old(db).keys[prior].periodDays
                   && Others(old(db), db, {prior, next}) && db.latest == old(db).latest[id := v + 1]
      ensures err.Some? ==> db == old(db)
      ensures maxGlobalKeys == old(maxGlobalKeys)
    {
      if id == "" {
        return Some(EmptyId);
      }
      var tx := db;
      var found := FindLatestVersion(id);
      if found.None? {
        return Some(NotFound);
      }
      var oldKey := VersionId(id, found.value);
      if oldKey !in tx.keys {
        return Some(NotFound);
      }
      var oldMeta := tx.keys[oldKey];
      if oldMeta.state != Active {
        return Some(NotActive);
      }
      tx := tx.(keys := tx.keys[oldKey := oldMeta.(state := Deactivated)]);
      if material.None? {
        return Some(WrapFailed);
      }
      var version := found.value + 1;
      var newMeta := NewVersion(id, version, material.value, oldMeta.periodDays, now);
      tx := tx.(keys := tx.keys[VersionId(id, version) := newMeta]);
      tx := tx.(latest := tx.latest[id := version]);
      db := tx;
      cache.InvalidateKey(id);
      return None;
    }

    method SoftDeleteKey(id: string, version: int, now: Time) returns (err: Option<Error>)
      modifies this
      ensures Current(now) == After(old(Current(now)), Apply(OpSoftDelete(id, version, now)))
      ensures err.None? <==> Outcome(old(db), OpSoftDelete(id, version, now)).Ok?
      ensures var k := VersionId(id, version);
              if k in old(db).keys && old(db).keys[k].state in {Active, Deactivated} then
                && Others(old(db), db, {k}) && db.latest == old(db).latest
                && k in db.keys && db.keys[k] == old(db).keys[k].(state := SoftDeleted, deletedAt := Some(now))
              else db == old(db)
      ensures cache.Current() == old(cache.Current())
      ensures maxGlobalKeys == old(maxGlobalKeys)
    {
      var key := VersionId(id, version);
      if key !in db.keys {
        return Some(NotFound);
      }
      var meta := db.keys[key];
      if meta.state == SoftDeleted {
        return None;
      }
      if meta.state == Destroyed {
        return Some(KeyDestroyed);
      }
      db := db.(keys := db.keys[key := meta.(state := SoftDeleted, deletedAt := Some(now))]);
      return None;
    }

    method RestoreKey(id: string, version: int, now: Time) returns (err: Option<Error>)
      modifies this, cache
      ensures Current(now) == After(old(Current(now)), Apply(OpRestore(id, version)))
      ensures err.None? <==> Outcome(old(db), OpRestore(id, version)).Ok?
      ensures var k := VersionId(id, version);
              if k in old(db).keys && old(db).keys[k].state == SoftDeleted then
                && Others(old(db), db, {k}) && db.latest == old(db).latest
                && k in db.keys && db.keys[k] == old(db).keys[k].(state := Deactivated, deletedAt := None)
              else db == old(db) && cache.Current() == old(cache.Current())
      ensures maxGlobalKeys == old(maxGlobalKeys)
    {
      var key := VersionId(id, version);
      if key !in db.keys {
        return Some(NotFound);
      }
      var meta := db.keys[key];
      if meta.state != SoftDeleted {
        if meta.state == Destroyed {
          return Some(KeyDestroyed);
        }
        return None;
      }
      db := db.(keys := db.keys[key := meta.(state := Deactivated, deletedAt := None)]);
      cache.InvalidateKey(id);
      return None;
    }

    method ShredKey(id: string, version: int, now: Time) returns (err: Option<Error>)
      modifies this, cache
      ensures Current(now) == After(old(Current(now)), Apply(OpShred(id, version)))
      ensures err.None? <==> Outcome(old(db), OpShred(id, version)).Ok?
      ensures err.None? <==> VersionId(id, version) in old(db).keys
      ensures Others(old(db), db, {VersionId(id, version)}) && db.latest == old(db).latest
      ensures VersionId(id, version) !in db.keys
      ensures maxGlobalKeys == old(maxGlobalKeys)
    {
      var key := VersionId(id, version);
      if key !in db.keys {
        return Some(NotFound);
      }
      var tx := db;
      tx := tx.(keys := tx.keys[key := tx.keys[key].(state := Destroyed, material := [])]);
      tx := tx.(keys := tx.keys - {key});
      db := tx;
      cache.InvalidateKey(id);
      return None;
    }
  }
}
