/**
  CreateKey's two writes (internal/lifecycle/manager.go): the version row, then
  the index row, outside a transaction. Other operations may commit in between.
  The late index write is harmless exactly when none of them rotated the key.
  */
module IndexRace {
  import opened Options
  import opened Clock
  import opened Gf256
  import opened Lifecycle

  /** The second write of CreateKey. */
  function WithIndex(db: Db, id: string): Db {
    db.(latest := db.latest[id := 1])
  }

  /** The late write keeps the store sound if and only if no other version of the key is stored. */
  lemma LateIndexIsSoundExactly(db: Db, id: string)
    requires Sound(db)
    ensures Sound(WithIndex(db, id)) <==> forall k | k in db.keys && k.id == id :: k.version == 1
  {
    var late := WithIndex(db, id);
    if forall k | k in db.keys && k.id == id :: k.version == 1 {
      forall k | k in late.keys
        ensures SoundRow(late, k)
      {
        assert SoundRow(db, k);
      }
    } else {
      var k :| k in db.keys && k.id == id && k.version != 1;
      assert k in late.keys;
      assert !SoundRow(late, k);
    }
  }

  // ---------- Without a rotation in between ----------

  ghost predicate Leaves(op: Op, id: string) {
    op.OpCreate? || op.OpImport? ==> op.id != id
  }

  /** The same store but for the index row of id, which early lacks and late has at 1. */
  ghost predicate Pair(early: Db, late: Db, id: string) {
    late == WithIndex(early, id) && id !in early.latest && Sound(early)
  }

  lemma StepKeepsPair(early: Db, late: Db, op: Op, id: string)
    requires Pair(early, late, id) && Leaves(op, id)
    requires Allowed(early, op)
    requires !(op.OpRotate? && op.id == id && Outcome(early, op).Ok?)
    ensures Pair(Next(early, op), Next(late, op), id)
  {
    hide Rotate, Sound;
    NextKeepsSound(early, op);
    if op.OpRotate? {
      RotateKeepsPair(early, late, op, id);
    }
  }

  lemma RotateKeepsPair(early: Db, late: Db, op: Op, id: string)
    requires Pair(early, late, id) && op.OpRotate? && !(op.id == id && Outcome(early, op).Ok?)
    ensures Outcome(late, op).Ok? <==> Outcome(early, op).Ok?
    ensures Next(late, op) == WithIndex(Next(early, op), id) && id !in Next(early, op).latest
  {
    hide LatestVersion, Sound;
    LatestWithIndex(early, op.id, id);
  }

  /** Index and scan agree on a key that was never rotated. */
  lemma LatestWithIndex(db: Db, id: string, indexed: string)
    requires Sound(db) && indexed !in db.latest
    ensures id != indexed ==> LatestVersion(WithIndex(db, indexed), id) == LatestVersion(db, id)
    ensures id == indexed ==> LatestVersion(WithIndex(db, indexed), id) == Some(1)
    ensures id == indexed ==> LatestVersion(db, id) == if VersionId(id, 1) in db.keys then Some(1) else None
  {
    hide Sound;
    LatestWhenSound(db, id);
    SameScan(db, WithIndex(db, indexed), id, 1);
  }

  lemma {:induction false} SameScan(a: Db, b: Db, id: string, v: int)
    requires a.keys == b.keys
    ensures ScanFrom(a, id, v) == ScanFrom(b, id, v)
    decreases |VersionsFrom(a, id, v)|
  {
    if VersionId(id, v) in a.keys {
      FewerVersionsFrom(a, id, v);
      SameScan(a, b, id, v + 1);
    }
  }

  lemma {:induction false} RunKeepsPair(early: Db, late: Db, ops: seq<Op>, id: string)
    requires Pair(early, late, id) && AllowedRun(early, ops) && forall op | op in ops :: Leaves(op, id)
    requires Rotations(early, ops, id) == 0
    ensures Pair(RunOps(early, ops), RunOps(late, ops), id)
    decreases |ops|
  {
    hide Pair, Next, Outcome, Leaves, Allowed;
    if |ops| > 0 {
      var n := |ops| - 1;
      assert ops[n] in ops;
      assert forall op | op in ops[..n] :: op in ops;
      AllowedPrefix(early, ops, n);
      RunKeepsPair(early, late, ops[..n], id);
      StepKeepsPair(RunOps(early, ops[..n]), RunOps(late, ops[..n]), ops[n], id);
    }
  }

  // ---------- With a rotation in between ----------

  /** The index points at version 1, which cannot be rotated. */
  ghost predicate Stuck(db: Db, id: string) {
    && id in db.latest && db.latest[id] == 1
    && (VersionId(id, 1) in db.keys ==> db.keys[VersionId(id, 1)].state != Active)
  }

  lemma NextKeepsStuck(db: Db, op: Op, id: string)
    requires Stuck(db, id) && Leaves(op, id)
    ensures Stuck(Next(db, op), id)
    ensures op.OpRotate? && op.id == id ==> Outcome(db, op).Err?
  {
    hide ScanFrom;
  }

  /** A stuck key is never rotated again, in any run. */
  lemma {:induction false} StuckForGood(db: Db, ops: seq<Op>, id: string)
    requires Stuck(db, id) && forall op | op in ops :: Leaves(op, id)
    ensures Stuck(RunOps(db, ops), id) && Rotations(db, ops, id) == 0
    decreases |ops|
  {
    hide Stuck, Next, Outcome, Leaves;
    if |ops| > 0 {
      var n := |ops| - 1;
      assert ops[n] in ops;
      assert forall op | op in ops[..n] :: op in ops;
      StuckForGood(db, ops[..n], id);
      NextKeepsStuck(RunOps(db, ops[..n]), ops[n], id);
    }
  }

  /** Once rotated, the index is above 1 and version 1 is not Active. */
  lemma {:induction false} RotatedAway(db: Db, ops: seq<Op>, id: string)
    requires Sound(db) && AllowedRun(db, ops) && Rotations(db, ops, id) > 0
    ensures var db' := RunOps(db, ops); Sound(db') && id in db'.latest && db'.latest[id] >= 2
    decreases |ops|
  {
    hide Sound, Rotate, LatestVersion, SoundRow;
    var n := |ops| - 1;
    var before, op := RunOps(db, ops[..n]), ops[n];
    AllowedPrefix(db, ops, n);
    RunKeepsSound(db, ops[..n]);
    assert Allowed(before, op);
    NextKeepsSound(before, op);
    if op.OpRotate? && Outcome(before, op).Ok? {
      RotateAdvancesIndex(before, op.id, op.material, op.now);
      RotatedIsPositive(before, op.id, op.material, op.now);
    }
    if Rotations(db, ops[..n], id) > 0 {
      RotatedAway(db, ops[..n], id);
    }
  }

  lemma RotatedIsPositive(db: Db, id: string, material: Option<Bytes>, now: Time)
    requires Sound(db) && Rotate(db, id, material, now).Ok?
    ensures LatestVersion(db, id).value >= 1
  {}

  lemma LateIndexSticks(db: Db, id: string)
    requires Sound(db) && id in db.latest && db.latest[id] >= 2
    ensures Stuck(WithIndex(db, id), id)
  {
    assert VersionId(id, 1) in db.keys ==> SoundRow(db, VersionId(id, 1));
  }

  // ---------- The exact condition ----------

  /**
    CreateKey interrupted by any run of other operations. The outcome is that
    of an undivided CreateKey followed by the same operations if and only if
    none of them rotated the key; otherwise the key is stuck.
    */
  lemma LateIndexExactly(db: Db, create: Op, ops: seq<Op>)
    requires Sound(db) && create.OpCreate? && create.indexWritten && Allowed(db, create) && Outcome(db, create).Ok?
    requires var first := Next(db, create.(indexWritten := false));
             AllowedRun(first, ops) && forall op | op in ops :: Leaves(op, create.id)
    ensures var first, id := Next(db, create.(indexWritten := false)), create.id;
            var late := WithIndex(RunOps(first, ops), id);
            && (late == RunOps(Next(db, create), ops) <==> Rotations(first, ops, id) == 0)
            && (Rotations(first, ops, id) > 0 ==> Stuck(late, id))
  {
    var first, id := Next(db, create.(indexWritten := false)), create.id;
    NextKeepsSound(db, create.(indexWritten := false));
    NextKeepsSound(db, create);
    assert Pair(first, Next(db, create), id);
    hide RunOps, Rotations, AllowedRun, Sound, Next, Allowed, Leaves;
    if Rotations(first, ops, id) == 0 {
      RunKeepsPair(first, Next(db, create), ops, id);
    } else {
      RotatedAway(first, ops, id);
      LateIndexSticks(RunOps(first, ops), id);
      RunsJoin(first, Next(db, create), ops, id);
    }
  }

  /** The undivided run follows the divided one up to the first rotation, which makes them one. */
  lemma {:induction false} RunsJoin(early: Db, late: Db, ops: seq<Op>, id: string)
    requires Pair(early, late, id) && AllowedRun(early, ops) && forall op | op in ops :: Leaves(op, id)
    requires Rotations(early, ops, id) > 0
    ensures RunOps(late, ops) == RunOps(early, ops)
    decreases |ops|
  {
    hide Sound, Next, Outcome, Leaves, Allowed;
    var n := |ops| - 1;
    var a, b, op := RunOps(early, ops[..n]), RunOps(late, ops[..n]), ops[n];
    assert op in ops;
    assert forall o | o in ops[..n] :: o in ops;
    AllowedPrefix(early, ops, n);
    if Rotations(early, ops[..n], id) > 0 {
      RunsJoin(early, late, ops[..n], id);
    } else {
      RunKeepsPair(early, late, ops[..n], id);
      RotationJoins(a, b, op, id);
    }
  }

  /** The first rotation writes the index either way, and the two stores become one. */
  lemma RotationJoins(early: Db, late: Db, op: Op, id: string)
    requires Pair(early, late, id) && op.OpRotate? && op.id == id && Outcome(early, op).Ok?
    ensures Next(late, op) == Next(early, op)
  {
    hide LatestVersion, Sound;
    LatestWithIndex(early, id, id);
  }

  /** The bad case is reachable: a rotation between the two writes leaves version 2 Active and no way to rotate it. */
  lemma CreateIndexRace(id: string, m1: Bytes, m2: Bytes, now: Time, ops: seq<Op>)
    requires id != "" && forall op | op in ops :: Leaves(op, id)
    ensures var created := Create(EMPTY, id, Some(m1), 0, now, 0, false).value;
            var rotated := Rotate(created, id, Some(m2), now);
            && rotated.Ok?
            && var late := WithIndex(rotated.value, id);
               && VersionId(id, 2) in late.keys && late.keys[VersionId(id, 2)].state == Active
               && Rotations(late, ops, id) == 0
  {
    var created := Create(EMPTY, id, Some(m1), 0, now, 0, false).value;
    assert Sound(created);
    LatestWhenSound(created, id);
    StuckForGood(WithIndex(Rotate(created, id, Some(m2), now).value, id), ops, id);
  }
}
