/**
  The key lifecycle as transactions on the store (internal/lifecycle/manager.go
  and transit.go). A Db holds one metadata row per key version and one index
  row per key; each operation is a function from the store before to the store
  after, or an error that leaves the store as it was.

  Wrapped key material and the clock are parameters; None stands for a failed
  draw of random bytes or a failed wrap. JSON encoding is the identity.
  */
module Lifecycle {
  import opened Options
  import opened Clock
  import opened Gf256
  import opened KeyNames
  import opened Collections

  datatype KeyState = Active | Deactivated | SoftDeleted | Destroyed

  datatype Metadata = Metadata(
    id: string, version: int, state: KeyState, material: Bytes, createdAt: Time,
    deletedAt: Option<Time>, periodDays: int, nextRotation: Option<Time>)

  datatype VersionId = VersionId(id: string, version: int)

  datatype Db = Db(keys: map<VersionId, Metadata>, latest: map<string, int>)

  datatype Error = EmptyId | QuotaExceeded | NotFound | NotActive | KeyDestroyed | WrapFailed

  // ---------- Finding the latest version ----------

  ghost function VersionsFrom(db: Db, id: string, v: int): set<VersionId> {
    set k | k in db.keys && k.id == id && k.version >= v
  }

  lemma FewerVersionsFrom(db: Db, id: string, v: int)
    requires VersionId(id, v) in db.keys
    ensures |VersionsFrom(db, id, v + 1)| < |VersionsFrom(db, id, v)|
  {
    assert VersionsFrom(db, id, v) == VersionsFrom(db, id, v + 1) + {VersionId(id, v)};
  }

  /** The unbounded scan: the last version of the contiguous run that starts at v. */
  function ScanFrom(db: Db, id: string, v: int): (r: int)
    ensures v - 1 <= r && VersionId(id, r + 1) !in db.keys
    ensures forall u | v <= u <= r :: VersionId(id, u) in db.keys
    decreases |VersionsFrom(db, id, v)|
  {
    if VersionId(id, v) in db.keys then
      FewerVersionsFrom(db, id, v);
      ScanFrom(db, id, v + 1)
    else
      v - 1
  }

  /** The index entry when there is a positive one, otherwise the scan from 1. */
  function LatestVersion(db: Db, id: string): Option<int> {
    if id in db.latest && db.latest[id] > 0 then
      Some(db.latest[id])
    else
      var v := ScanFrom(db, id, 1);
      if v == 0 then None else Some(v)
  }

  // ---------- Operations ----------

  function CountKeys(db: Db): nat {
    |set k | k in db.keys :: k.id|
  }

  function NextRotation(periodDays: int, now: Time): Option<Time> {
    if periodDays > 0 then Some(now + periodDays * DAY) else None
  }

  function NewVersion(id: string, version: int, material: Bytes, periodDays: int, now: Time): Metadata {
    Metadata(id, version, Active, material, now, None, periodDays, NextRotation(periodDays, now))
  }

  /** CreateKey. The index write is best effort: its error is ignored. */
  function Create(
    db: Db, id: string, material: Option<Bytes>, periodDays: int, now: Time, maxKeys: int, indexWritten: bool)
    : Result<Db, Error>
  {
    if id == "" then Err(EmptyId)
    else if maxKeys > 0 && CountKeys(db) >= maxKeys then Err(QuotaExceeded)
    else if material.None? then Err(WrapFailed)
    else
      Ok(Db(db.keys[VersionId(id, 1) := NewVersion(id, 1, material.value, periodDays, now)],
            if indexWritten then db.latest[id := 1] else db.latest))
  }

  /** ImportKey writes version 1 and no index row. */
  function Import(db: Db, id: string, material: Option<Bytes>, now: Time): Result<Db, Error> {
    if id == "" then Err(EmptyId)
    else if material.None? then Err(WrapFailed)
    else Ok(db.(keys := db.keys[VersionId(id, 1) := NewVersion(id, 1, material.value, 0, now)]))
  }

  function Rotate(db: Db, id: string, material: Option<Bytes>, now: Time): Result<Db, Error> {
    if id == "" then Err(EmptyId)
    else
      var latest := LatestVersion(db, id);
      if latest.None? || VersionId(id, latest.value) !in db.keys then Err(NotFound)
      else RotateFrom(db, id, latest.value, material, now)
  }

  /** The part of RotateKey after the latest version is known and its row is locked. */
  function RotateFrom(db: Db, id: string, v: int, material: Option<Bytes>, now: Time): Result<Db, Error>
    requires VersionId(id, v) in db.keys
  {
    var prior := db.keys[VersionId(id, v)];
    if prior.state != Active then Err(NotActive)
    else if material.None? then Err(WrapFailed)
    else
      Ok(Db(
           db.keys[VersionId(id, v) := prior.(state := Deactivated)]
                  [VersionId(id, v + 1) := NewVersion(id, v + 1, material.value, prior.periodDays, now)],
           db.latest[id := v + 1]))
  }

  function SoftDelete(db: Db, id: string, v: int, now: Time): Result<Db, Error> {
    var k := VersionId(id, v);
    if k !in db.keys then Err(NotFound)
    else if db.keys[k].state == SoftDeleted then Ok(db)
    else if db.keys[k].state == Destroyed then Err(KeyDestroyed)
    else Ok(db.(keys := db.keys[k := db.keys[k].(state := SoftDeleted, deletedAt := Some(now))]))
  }

  function Restore(db: Db, id: string, v: int): Result<Db, Error> {
    var k := VersionId(id, v);
    if k !in db.keys then Err(NotFound)
    else if db.keys[k].state == Destroyed then Err(KeyDestroyed)
    else if db.keys[k].state != SoftDeleted then Ok(db)
    else Ok(db.(keys := db.keys[k := db.keys[k].(state := Deactivated, deletedAt := None)]))
  }

  /** ShredKey overwrites the row and deletes it in one transaction. */
  function Shred(db: Db, id: string, v: int): Result<Db, Error> {
    var k := VersionId(id, v);
    if k !in db.keys then Err(NotFound)
    else Ok(db.(keys := db.keys[k := db.keys[k].(state := Destroyed, material := [])] - {k}))
  }

  datatype Op =
    | OpCreate(id: string, material: Option<Bytes>, period: int, now: Time, maxKeys: int, indexWritten: bool)
    | OpImport(id: string, material: Option<Bytes>, now: Time)
    | OpRotate(id: string, material: Option<Bytes>, now: Time)
    | OpSoftDelete(id: string, version: int, now: Time)
    | OpRestore(id: string, version: int)
    | OpShred(id: string, version: int)

  function Outcome(db: Db, op: Op): Result<Db, Error> {
    match op
    case OpCreate(id, material, period, now, maxKeys, indexWritten) =>
      Create(db, id, material, period, now, maxKeys, indexWritten)
    case OpImport(id, material, now) => Import(db, id, material, now)
    case OpRotate(id, material, now) => Rotate(db, id, material, now)
    case OpSoftDelete(id, v, now) => SoftDelete(db, id, v, now)
    case OpRestore(id, v) => Restore(db, id, v)
    case OpShred(id, v) => Shred(db, id, v)
  }

  function Next(db: Db, op: Op): Db {
    var r := Outcome(db, op);
    if r.Ok? then r.value else db
  }

  function RunOps(db: Db, ops: seq<Op>): Db
    decreases |ops|
  {
    if |ops| == 0 then db else Next(RunOps(db, ops[..|ops| - 1]), ops[|ops| - 1])
  }

  // ---------- The invariant of the version rows ----------

  /** No row and no index entry: an id that CreateKey or ImportKey may use. */
  ghost predicate Unused(db: Db, id: string) {
    id !in db.latest && forall k | k in db.keys :: k.id != id
  }

  ghost predicate Allowed(db: Db, op: Op) {
    op.OpCreate? || op.OpImport? ==> Unused(db, op.id)
  }

  ghost predicate AllowedRun(db: Db, ops: seq<Op>) {
    forall i | 0 <= i < |ops| :: Allowed(RunOps(db, ops[..i]), ops[i])
  }

  ghost predicate SoundRow(db: Db, k: VersionId)
    requires k in db.keys
  {
    var m := db.keys[k];
    && m.id == k.id && m.version == k.version && m.state != Destroyed
    && (m.state == SoftDeleted <==> m.deletedAt.Some?)
    && (k.id in db.latest ==> 1 <= k.version <= db.latest[k.id] && (m.state == Active ==> k.version == db.latest[k.id]))
    && (k.id !in db.latest ==> k.version == 1)
  }

  /** The index bounds every stored version, and only the latest version is Active. */
  ghost predicate Sound(db: Db) {
    && (forall k | k in db.keys :: SoundRow(db, k))
    && (forall id | id in db.latest :: db.latest[id] >= 1)
  }

  /** Each row carries the id and version of its key, as every write of the manager leaves it. */
  ghost predicate Keyed(db: Db) {
    forall k | k in db.keys :: VersionId(db.keys[k].id, db.keys[k].version) == k
  }

  /** Every operation keeps it, whatever else the store holds. */
  lemma NextKeepsKeyed(db: Db, op: Op)
    requires Keyed(db)
    ensures Keyed(Next(db, op))
  {
    hide LatestVersion;
  }

  const EMPTY := Db(map[], map[])

  lemma NoSecondVersion(db: Db, id: string)
    requires Sound(db) && id !in db.latest
    ensures VersionId(id, 2) !in db.keys
  {}

  lemma LatestWhenSound(db: Db, id: string)
    requires Sound(db)
    ensures id in db.latest ==> LatestVersion(db, id) == Some(db.latest[id])
    ensures id !in db.latest ==> LatestVersion(db, id) == if VersionId(id, 1) in db.keys then Some(1) else None
    ensures forall v | VersionId(id, v) in db.keys && db.keys[VersionId(id, v)].state == Active ::
              LatestVersion(db, id) == Some(v)
  {
    if id !in db.latest {
      NoSecondVersion(db, id);
    }
    forall v | VersionId(id, v) in db.keys && db.keys[VersionId(id, v)].state == Active
      ensures LatestVersion(db, id) == Some(v)
    {
      assert SoundRow(db, VersionId(id, v));
    }
  }

  lemma RotateKeepsSound(db: Db, id: string, material: Option<Bytes>, now: Time)
    requires Sound(db) && Rotate(db, id, material, now).Ok?
    ensures Sound(Rotate(db, id, material, now).value)
  {
    LatestWhenSound(db, id);
    hide LatestVersion;
    var db' := Rotate(db, id, material, now).value;
    forall k | k in db'.keys
      ensures SoundRow(db', k)
    {
      if k in db.keys {
        assert SoundRow(db, k);
      }
    }
  }

  lemma NextKeepsSound(db: Db, op: Op)
    requires Sound(db) && Allowed(db, op)
    ensures Sound(Next(db, op))
  {
    hide Rotate;
    var db' := Next(db, op);
    if op.OpRotate? && Outcome(db, op).Ok? {
      RotateKeepsSound(db, op.id, op.material, op.now);
    } else {
      forall k | k in db'.keys
        ensures SoundRow(db', k)
      {
        if k in db.keys {
          assert SoundRow(db, k);
        }
      }
    }
  }

  lemma {:induction false} RunKeepsSound(db: Db, ops: seq<Op>)
    requires Sound(db) && AllowedRun(db, ops)
    ensures Sound(RunOps(db, ops))
    decreases |ops|
  {
    hide Sound, Next, Allowed;
    if |ops| > 0 {
      var n := |ops| - 1;
      AllowedPrefix(db, ops, n);
      RunKeepsSound(db, ops[..n]);
      NextKeepsSound(RunOps(db, ops[..n]), ops[n]);
    }
  }

  lemma AllowedPrefix(db: Db, ops: seq<Op>, n: nat)
    requires n <= |ops| && AllowedRun(db, ops)
    ensures AllowedRun(db, ops[..n])
  {
    forall i | 0 <= i < n
      ensures Allowed(RunOps(db, ops[..n][..i]), ops[..n][i])
    {
      assert ops[..n][..i] == ops[..i];
    }
  }

  /** In every run an Active version is the latest one, so at most one is Active. */
  lemma ActiveIsLatest(ops: seq<Op>, id: string, v: int, w: int)
    requires AllowedRun(EMPTY, ops)
    ensures var db := RunOps(EMPTY, ops);
            VersionId(id, v) in db.keys && db.keys[VersionId(id, v)].state == Active ==>
              && LatestVersion(db, id) == Some(v)
              && (VersionId(id, w) in db.keys && db.keys[VersionId(id, w)].state == Active ==> w == v)
  {
    hide RunOps, LatestVersion, Sound;
    EmptySound();
    RunKeepsSound(EMPTY, ops);
    LatestWhenSound(RunOps(EMPTY, ops), id);
  }

  lemma EmptySound()
    ensures Sound(EMPTY)
  {}

  // ---------- Version numbers come out consecutive and are never reused ----------

  function Rotations(db: Db, ops: seq<Op>, id: string): nat
    decreases |ops|
  {
    if |ops| == 0 then 0
    else
      var n := |ops| - 1;
      var last := if ops[n].OpRotate? && ops[n].id == id && Outcome(RunOps(db, ops[..n]), ops[n]).Ok? then 1 else 0;
      Rotations(db, ops[..n], id) + last
  }

  lemma RotateAdvancesIndex(db: Db, id: string, material: Option<Bytes>, now: Time)
    requires Sound(db) && Rotate(db, id, material, now).Ok?
    ensures var db' := Rotate(db, id, material, now).value;
            var v := LatestVersion(db, id).value;
            && id in db'.latest && db'.latest[id] == v + 1 && VersionId(id, v + 1) in db'.keys
            && VersionId(id, v + 1) !in db.keys
            && (id in db.latest ==> v == db.latest[id])
            && (forall other | other != id :: other in db'.latest <==> other in db.latest)
            && (forall other | other != id && other in db.latest :: db'.latest[other] == db.latest[other])
  {
    LatestWhenSound(db, id);
    if id !in db.latest {
      NoSecondVersion(db, id);
    } else {
      BeyondIndex(db, id);
    }
  }

  /** After any run the index entry has grown by exactly the number of rotations. */
  lemma {:induction false} IndexCountsRotations(db: Db, ops: seq<Op>, id: string)
    requires Sound(db) && AllowedRun(db, ops) && id in db.latest
    ensures var db' := RunOps(db, ops); id in db'.latest && db'.latest[id] == db.latest[id] + Rotations(db, ops, id)
    decreases |ops|
  {
    hide Sound, Rotate, SoundRow, LatestVersion;
    if |ops| > 0 {
      var n := |ops| - 1;
      var before, op := RunOps(db, ops[..n]), ops[n];
      AllowedPrefix(db, ops, n);
      IndexCountsRotations(db, ops[..n], id);
      RunKeepsSound(db, ops[..n]);
      assert Allowed(before, op);
      if op.OpRotate? && Outcome(before, op).Ok? {
        RotateAdvancesIndex(before, op.id, op.material, op.now);
      }
    }
  }

  /** No version number is issued twice by rotation, whatever is shredded in between. */
  lemma RotateNeverReissues(db: Db, id: string, m1: Option<Bytes>, t1: Time, ops: seq<Op>, m2: Option<Bytes>, t2: Time)
    requires Sound(db) && Rotate(db, id, m1, t1).Ok?
    requires var db1 := Rotate(db, id, m1, t1).value;
             AllowedRun(db1, ops) && Rotate(RunOps(db1, ops), id, m2, t2).Ok?
    ensures var db1 := Rotate(db, id, m1, t1).value;
            var first := LatestVersion(db, id).value + 1;
            var second := LatestVersion(RunOps(db1, ops), id).value + 1;
            second == first + 1 + Rotations(db1, ops, id)
  {
    hide Sound, Rotate, LatestVersion, RunOps, Rotations, AllowedRun;
    var db1 := Rotate(db, id, m1, t1).value;
    RotateAdvancesIndex(db, id, m1, t1);
    RotateKeepsSound(db, id, m1, t1);
    IndexCountsRotations(db1, ops, id);
    RunKeepsSound(db1, ops);
    RotateAdvancesIndex(RunOps(db1, ops), id, m2, t2);
  }

  // ---------- The index and the scan ----------

  ghost predicate Contiguous(db: Db) {
    forall id, v | id in db.latest && 1 <= v <= db.latest[id] :: VersionId(id, v) in db.keys
  }

  lemma NextKeepsContiguous(db: Db, op: Op)
    requires Sound(db) && Contiguous(db) && Allowed(db, op) && !op.OpShred?
    ensures Contiguous(Next(db, op))
  {
    hide LatestVersion, SoundRow;
    if op.OpRotate? {
      LatestWhenSound(db, op.id);
    }
  }

  lemma {:induction false} RunKeepsContiguous(db: Db, ops: seq<Op>)
    requires Sound(db) && Contiguous(db) && AllowedRun(db, ops) && forall op | op in ops :: !op.OpShred?
    ensures Contiguous(RunOps(db, ops))
    decreases |ops|
  {
    hide Sound, Next, Contiguous;
    if |ops| > 0 {
      var n := |ops| - 1;
      AllowedPrefix(db, ops, n);
      RunKeepsSound(db, ops[..n]);
      RunKeepsContiguous(db, ops[..n]);
      NextKeepsContiguous(RunOps(db, ops[..n]), ops[n]);
    }
  }

  /** Without shreds the O(1) index answers what the scan would. */
  lemma IndexAgreesWithScan(ops: seq<Op>, id: string)
    requires AllowedRun(EMPTY, ops) && forall op | op in ops :: !op.OpShred?
    ensures var db := RunOps(EMPTY, ops);
            LatestVersion(db, id) == var v := ScanFrom(db, id, 1); if v == 0 then None else Some(v)
  {
    hide RunOps, AllowedRun, SoundRow;
    var db := RunOps(EMPTY, ops);
    EmptySound();
    RunKeepsSound(EMPTY, ops);
    RunKeepsContiguous(EMPTY, ops);
    if id in db.latest {
      BeyondIndex(db, id);
      assert VersionId(id, db.latest[id]) in db.keys;
    }
  }

  lemma BeyondIndex(db: Db, id: string)
    requires Sound(db) && id in db.latest
    ensures VersionId(id, db.latest[id] + 1) !in db.keys
  {}

  // ---------- Shredding is final ----------

  ghost predicate Gone(db: Db, k: VersionId) {
    && k !in db.keys
    && (k.id in db.latest ==> k.version <= db.latest[k.id])
    && (k.id !in db.latest ==> Unused(db, k.id))
  }

  lemma ShredMakesGone(db: Db, k: VersionId)
    requires Sound(db) && Shred(db, k.id, k.version).Ok?
    ensures Gone(Shred(db, k.id, k.version).value, k)
  {
    assert SoundRow(db, k);
    var db' := Shred(db, k.id, k.version).value;
    if k.id !in db.latest {
      forall j | j in db'.keys
        ensures j.id != k.id
      {
        assert SoundRow(db, j);
      }
    }
  }

  lemma NextKeepsGone(db: Db, op: Op, k: VersionId)
    requires Sound(db) && Gone(db, k)
    requires (op.OpCreate? || op.OpImport?) ==> op.id != k.id
    ensures Gone(Next(db, op), k)
  {
    hide LatestVersion, SoundRow;
    if op.OpRotate? {
      LatestWhenSound(db, op.id);
    }
  }

  // ---------- A key without an Active version ----------

  ghost predicate Retired(db: Db, id: string) {
    forall k | k in db.keys && k.id == id :: db.keys[k].state != Active
  }

  /** Soft-deleting the Active version retires the key, and restoring it does not bring the key back. */
  lemma RestoreDoesNotReactivate(db: Db, id: string, v: int, now: Time)
    requires Sound(db) && VersionId(id, v) in db.keys && db.keys[VersionId(id, v)].state == Active
    ensures var deleted := Next(db, OpSoftDelete(id, v, now));
            Retired(deleted, id) && Retired(Next(deleted, OpRestore(id, v)), id)
  {
    hide LatestVersion, SoundRow;
    forall k | k in db.keys && k.id == id && k.version != v
      ensures db.keys[k].state != Active
    {
      LatestWhenSound(db, id);
    }
  }

  /** RotateKey, given new material, succeeds exactly on a key with an Active version. */
  lemma RotateNeedsActive(db: Db, id: string, material: Bytes, now: Time)
    requires Sound(db) && id != ""
    ensures Rotate(db, id, Some(material), now).Ok? <==> !Retired(db, id)
  {
    hide LatestVersion, Sound;
    LatestWhenSound(db, id);
    if !Retired(db, id) {
      var k :| k in db.keys && k.id == id && db.keys[k].state == Active;
      assert k == VersionId(id, k.version);
    }
  }

  /** Restoring a version does not change that: RotateKey succeeds exactly when it would have before. */
  lemma RotateAfterRestore(db: Db, id: string, v: int, material: Bytes, now: Time)
    requires Sound(db) && id != ""
    ensures var restored := Next(db, OpRestore(id, v));
            && (Rotate(restored, id, Some(material), now).Ok? <==> !Retired(db, id))
            && (Rotate(restored, id, Some(material), now).Ok? <==> Rotate(db, id, Some(material), now).Ok?)
  {
    hide Rotate, SoundRow;
    var restored := Next(db, OpRestore(id, v));
    NextKeepsSound(db, OpRestore(id, v));
    RotateNeedsActive(db, id, material, now);
    RotateNeedsActive(restored, id, material, now);
    var k := VersionId(id, v);
    assert forall j | j in db.keys && j != k :: j in restored.keys && restored.keys[j] == db.keys[j];
  }

  lemma NextKeepsRetired(db: Db, op: Op, id: string)
    requires Retired(db, id) && ((op.OpCreate? || op.OpImport?) ==> op.id != id)
    ensures Retired(Next(db, op), id)
    ensures op.OpRotate? && op.id == id ==> Outcome(db, op).Err?
  {
    hide LatestVersion;
  }

  /** A retired key stays retired in every run: no rotation of it ever succeeds again. */
  lemma {:induction false} RetiredForGood(db: Db, ops: seq<Op>, id: string)
    requires Retired(db, id)
    requires forall op | op in ops :: (op.OpCreate? || op.OpImport?) ==> op.id != id
    ensures Retired(RunOps(db, ops), id) && Rotations(db, ops, id) == 0
    decreases |ops|
  {
    hide Retired, Outcome, Next;
    if |ops| > 0 {
      var n := |ops| - 1;
      assert ops[n] in ops;
      assert forall op | op in ops[..n] :: op in ops;
      RetiredForGood(db, ops[..n], id);
      NextKeepsRetired(RunOps(db, ops[..n]), ops[n], id);
    }
  }

  // ---------- Where each stored version comes from ----------

  /** The operation gave the store the row k, with its own material and time. */
  ghost predicate Issues(before: Db, op: Op, k: VersionId, row: Metadata) {
    && k !in before.keys && k in Next(before, op).keys
    && row.createdAt == op.now && op.material == Some(row.material)
    && match op
       case OpCreate(id, _, period, _, _, _) => k == VersionId(id, 1) && row.periodDays == period
       case OpImport(id, _, _) => k == VersionId(id, 1) && row.periodDays == 0
       case OpRotate(id, _, _) =>
         var prior := VersionId(id, k.version - 1);
         && k.id == id && LatestVersion(before, id) == Some(prior.version)
         && prior in before.keys && before.keys[prior].state == Active
         && row.periodDays == before.keys[prior].periodDays
       case _ => false
  }

  /** What no operation changes in a row that stays: everything but the state and the soft-delete mark. */
  ghost predicate SameIssue(a: Metadata, b: Metadata) {
    a.material == b.material && a.createdAt == b.createdAt && a.periodDays == b.periodDays
    && a.nextRotation == b.nextRotation
  }

  lemma StepIssues(db: Db, op: Op, k: VersionId)
    requires Sound(db) && Allowed(db, op) && k in Next(db, op).keys
    ensures k in db.keys ==> SameIssue(db.keys[k], Next(db, op).keys[k])
    ensures k !in db.keys ==> (op.OpCreate? || op.OpImport? || op.OpRotate?) && Issues(db, op, k, Next(db, op).keys[k])
  {
    hide LatestVersion, SoundRow;
    if op.OpRotate? && Outcome(db, op).Ok? {
      RotateAdvancesIndex(db, op.id, op.material, op.now);
    }
  }

  /**
    In every run, each stored version has the material, the creation time and
    the period of the operation that issued its number, and has been stored ever
    since; a rotation passes on the period of the version before.
    */
  lemma {:induction false} Provenance(ops: seq<Op>, k: VersionId) returns (i: nat)
    requires AllowedRun(EMPTY, ops) && k in RunOps(EMPTY, ops).keys
    ensures i < |ops| && (ops[i].OpCreate? || ops[i].OpImport? || ops[i].OpRotate?)
    ensures Issues(RunOps(EMPTY, ops[..i]), ops[i], k, RunOps(EMPTY, ops).keys[k])
    ensures forall j | i < j <= |ops| :: k in RunOps(EMPTY, ops[..j]).keys
    decreases |ops|
  {
    hide Sound, Next, Allowed, Issues, SameIssue;
    var n := |ops| - 1;
    var before := RunOps(EMPTY, ops[..n]);
    AllowedPrefix(EMPTY, ops, n);
    EmptySound();
    RunKeepsSound(EMPTY, ops[..n]);
    StepIssues(before, ops[n], k);
    assert ops[..|ops|] == ops;
    if k in before.keys {
      i := Provenance(ops[..n], k);
      assert forall j | 0 <= j <= n :: ops[..n][..j] == ops[..j];
      SameIssueSameOrigin(RunOps(EMPTY, ops[..i]), ops[i], k, before.keys[k], Next(before, ops[n]).keys[k]);
    } else {
      i := n;
    }
  }

  lemma SameIssueSameOrigin(db: Db, op: Op, k: VersionId, a: Metadata, b: Metadata)
    requires op.OpCreate? || op.OpImport? || op.OpRotate?
    requires Issues(db, op, k, a) && SameIssue(a, b)
    ensures Issues(db, op, k, b)
  {}

  // ---------- Ids and quota ----------

  /** CreateKey and ImportKey refuse the empty id. */
  ghost predicate NamedRows(db: Db) {
    forall k | k in db.keys :: k.id != ""
  }

  lemma NextKeepsNamed(db: Db, op: Op)
    requires NamedRows(db)
    ensures NamedRows(Next(db, op))
  {
    hide LatestVersion;
  }

  ghost function Ids(db: Db): set<string> {
    set k | k in db.keys :: k.id
  }

  /** The quota bounds the number of keys over every run of creations under it and other operations but imports. */
  lemma {:induction false} QuotaHolds(db: Db, ops: seq<Op>, maxKeys: int)
    requires maxKeys > 0 && |Ids(db)| <= maxKeys
    requires forall op | op in ops :: !op.OpImport? && (op.OpCreate? ==> op.maxKeys == maxKeys)
    ensures |Ids(RunOps(db, ops))| <= maxKeys
    decreases |ops|
  {
    hide Next;
    if |ops| > 0 {
      var n := |ops| - 1;
      assert ops[n] in ops;
      assert forall op | op in ops[..n] :: op in ops;
      QuotaHolds(db, ops[..n], maxKeys);
      NextKeepsQuota(RunOps(db, ops[..n]), ops[n], maxKeys);
    }
  }

  lemma NextKeepsQuota(db: Db, op: Op, maxKeys: int)
    requires maxKeys > 0 && |Ids(db)| <= maxKeys
    requires !op.OpImport? && (op.OpCreate? ==> op.maxKeys == maxKeys)
    ensures |Ids(Next(db, op))| <= maxKeys
  {
    hide LatestVersion;
    var after := Ids(Next(db, op));
    if op.OpCreate? && Outcome(db, op).Ok? {
      assert after == Ids(db) + {op.id};
    } else {
      assert after <= Ids(db);
      SubsetSize(after, Ids(db));
    }
  }

  /** A creation that the quota leaves room for succeeds. */
  lemma RoomForOneMore(db: Db, id: string, material: Bytes, period: int, now: Time, maxKeys: int)
    requires id != "" && |Ids(db)| < maxKeys
    ensures Create(db, id, Some(material), period, now, maxKeys, true).Ok?
  {}

  // ---------- The store by row name ----------

  datatype Record = MetaRecord(meta: Metadata) | IndexRecord(version: int)

  predicate HasRow(db: Db, r: Row) {
    if r.KeyRow? then VersionId(r.id, r.version) in db.keys else r.id in db.latest
  }

  function RecordAt(db: Db, r: Row): Record
    requires HasRow(db, r)
  {
    if r.KeyRow? then MetaRecord(db.keys[VersionId(r.id, r.version)]) else IndexRecord(db.latest[r.id])
  }

  ghost function RowSet(db: Db): (rows: set<Row>)
    ensures forall r :: r in rows <==> HasRow(db, r)
  {
    var keyRows := set k | k in db.keys :: KeyRow(k.id, k.version);
    var latestRows := set id | id in db.latest :: LatestRow(id);
    assert forall id, v | VersionId(id, v) in db.keys :: KeyRow(id, v) in keyRows;
    keyRows + latestRows
  }

  ghost function Rows(db: Db): map<Row, Record> {
    map r | r in RowSet(db) :: RecordAt(db, r)
  }

  /** The named rows of the Go store change exactly as the two maps of a Db do. */
  lemma PutKeyByName(db: Db, k: VersionId, m: Metadata)
    ensures Named(Rows(db.(keys := db.keys[k := m]))) ==
            Named(Rows(db))[RowName(KeyRow(k.id, k.version)) := MetaRecord(m)]
  {
    hide RowName, Named;
    var row := KeyRow(k.id, k.version);
    assert Rows(db.(keys := db.keys[k := m])) == Rows(db)[row := MetaRecord(m)];
    NamedPut(Rows(db), row, MetaRecord(m));
  }

  lemma DeleteKeyByName(db: Db, k: VersionId)
    ensures Named(Rows(db.(keys := db.keys - {k}))) == Named(Rows(db)) - {RowName(KeyRow(k.id, k.version))}
  {
    hide RowName, Named;
    var row := KeyRow(k.id, k.version);
    assert Rows(db.(keys := db.keys - {k})) == Rows(db) - {row};
    NamedDelete(Rows(db), row);
  }

  lemma PutLatestByName(db: Db, id: string, v: int)
    ensures Named(Rows(db.(latest := db.latest[id := v]))) ==
            Named(Rows(db))[RowName(LatestRow(id)) := IndexRecord(v)]
  {
    hide RowName, Named;
    assert Rows(db.(latest := db.latest[id := v])) == Rows(db)[LatestRow(id) := IndexRecord(v)];
    NamedPut(Rows(db), LatestRow(id), IndexRecord(v));
  }
}
