/**
  One node: the store behind its cache (internal/lifecycle/manager.go). Lookups
  go through the cache; rotation, restore and shred invalidate it, soft deletion
  does not.
  */
module KeyNode {
  import opened Options
  import opened Clock
  import opened Lifecycle
  import opened KeyCache

  datatype Node = Node(db: Db, cache: Cache, clock: Time)

  const START := Node(EMPTY, NO_CACHE, 0)

  // ---------- Lookups ----------

  /** loadMetadata: positive cache, then negative cache, then the store. */
  function Load(n: Node, k: VersionId): Result<Metadata, Error> {
    if k in n.cache.data then Ok(n.cache.data[k])
    else if IsNegative(n.cache, k, n.clock) || k !in n.db.keys then Err(NotFound)
    else Ok(n.db.keys[k])
  }

  /** The cache after loadMetadata. */
  function CacheAfterLoad(n: Node, k: VersionId): Cache {
    if k in n.cache.data || IsNegative(n.cache, k, n.clock) then n.cache
    else if k in n.db.keys then Put(n.cache, k, n.db.keys[k])
    else PutNegative(n.cache, k, n.clock)
  }

  /** GetKeyForDecrypt: every state but Destroyed may decrypt. */
  function ForDecrypt(loaded: Result<Metadata, Error>): Result<Metadata, Error> {
    if loaded.Ok? && loaded.value.state == Destroyed then Err(KeyDestroyed) else loaded
  }

  /** The answer of a node without a cache. */
  function Uncached(db: Db, k: VersionId): Result<Metadata, Error> {
    if k in db.keys then Ok(db.keys[k]) else Err(NotFound)
  }

  /** GetActiveKey: the latest version, and only while it is Active. */
  function ForEncrypt(n: Node, id: string): Result<Metadata, Error> {
    var latest := LatestVersion(n.db, id);
    if latest.None? then Err(NotFound)
    else
      var loaded := Load(n, VersionId(id, latest.value));
      if loaded.Ok? && loaded.value.state != Active then Err(NotActive) else loaded
  }

  // ---------- Steps ----------

  datatype Step =
    | Apply(op: Op)
    | Lookup(key: VersionId)
    | InvalidateCache(id: string)
    | ClearCache
    | Tick(duration: nat)

  /** Which operations invalidate the local cache: those that rewrite a row, except soft deletion. */
  predicate Invalidates(db: Db, op: Op) {
    && Outcome(db, op).Ok?
    && match op
       case OpRotate(_, _, _) => true
       case OpShred(_, _) => true
       case OpRestore(id, v) => VersionId(id, v) in db.keys && db.keys[VersionId(id, v)].state == SoftDeleted
       case _ => false
  }

  function After(n: Node, s: Step): Node {
    match s
    case Apply(op) =>
      n.(db := Next(n.db, op), cache := if Invalidates(n.db, op) then Invalidate(n.cache, op.id) else n.cache)
    case Lookup(k) => n.(cache := CacheAfterLoad(n, k))
    case InvalidateCache(id) => n.(cache := Invalidate(n.cache, id))
    case ClearCache => n.(cache := NO_CACHE)
    case Tick(d) => n.(clock := n.clock + d)
  }

  function Run(n: Node, steps: seq<Step>): Node
    decreases |steps|
  {
    if |steps| == 0 then n else After(Run(n, steps[..|steps| - 1]), steps[|steps| - 1])
  }

  ghost predicate Permitted(n: Node, s: Step) {
    s.Apply? ==> Allowed(n.db, s.op)
  }

  ghost predicate PermittedRun(n: Node, steps: seq<Step>) {
    forall i | 0 <= i < |steps| :: Permitted(Run(n, steps[..i]), steps[i])
  }

  lemma PermittedPrefix(n: Node, steps: seq<Step>, len: nat)
    requires len <= |steps| && PermittedRun(n, steps)
    ensures PermittedRun(n, steps[..len])
  {
    forall i | 0 <= i < len
      ensures Permitted(Run(n, steps[..len][..i]), steps[..len][i])
    {
      assert steps[..len][..i] == steps[..i];
    }
  }

  // ---------- Cache coherence on one node ----------

  /** Equal, or stale by exactly one soft deletion. */
  ghost predicate Agrees(row: Metadata, cached: Metadata) {
    || cached == row
    || (row.state == SoftDeleted && cached.state in {Active, Deactivated} && cached.deletedAt == None
        && cached == row.(state := cached.state, deletedAt := None))
  }

  ghost predicate Coherent(n: Node) {
    && Sound(n.db)
    && (forall k | k in n.cache.data :: k in n.db.keys && Agrees(n.db.keys[k], n.cache.data[k]))
    && n.cache.data.Keys !! n.cache.negative.Keys
  }

  lemma ApplyKeepsCoherent(n: Node, op: Op)
    requires Coherent(n) && Allowed(n.db, op)
    ensures Coherent(After(n, Apply(op)))
  {
    hide Invalidate, LatestVersion, SoundRow;
    NextKeepsSound(n.db, op);
    InvalidateClears(n.cache, op.id);
    var n' := After(n, Apply(op));
    forall k | k in n'.cache.data
      ensures k in n'.db.keys && Agrees(n'.db.keys[k], n'.cache.data[k])
    {
      assert k in n.cache.data;
      LiveRow(n.db, k);
    }
  }

  lemma LiveRow(db: Db, k: VersionId)
    requires Sound(db) && k in db.keys
    ensures db.keys[k].state != Destroyed && (db.keys[k].state == SoftDeleted <==> db.keys[k].deletedAt.Some?)
  {
    assert SoundRow(db, k);
  }

  lemma AfterKeepsCoherent(n: Node, s: Step)
    requires Coherent(n) && Permitted(n, s)
    ensures Coherent(After(n, s))
  {
    hide Sound, Next, Invalidate;
    match s
    case Apply(op) => ApplyKeepsCoherent(n, op);
    case InvalidateCache(id) => InvalidateClears(n.cache, id);
    case _ =>
  }

  lemma {:induction false} RunKeepsCoherent(n: Node, steps: seq<Step>)
    requires Coherent(n) && PermittedRun(n, steps)
    ensures Coherent(Run(n, steps))
    decreases |steps|
  {
    hide Coherent, After, Permitted;
    if |steps| > 0 {
      var last := |steps| - 1;
      PermittedPrefix(n, steps, last);
      RunKeepsCoherent(n, steps[..last]);
      AfterKeepsCoherent(Run(n, steps[..last]), steps[last]);
    }
  }

  /**
    A decrypt lookup decides as an uncached read does, with the same key
    material, unless a negative entry for the row has not expired yet.
    */
  lemma DecryptIgnoresCache(n: Node, k: VersionId)
    requires Coherent(n) && !IsNegative(n.cache, k, n.clock)
    ensures ForDecrypt(Load(n, k)).Ok? <==> ForDecrypt(Uncached(n.db, k)).Ok?
    ensures ForDecrypt(Load(n, k)).Ok? ==> ForDecrypt(Load(n, k)).value.material == n.db.keys[k].material
  {
    if k in n.db.keys {
      LiveRow(n.db, k);
    }
  }

  /** A decrypt lookup decides as an uncached read does if and only if no live negative entry hides a stored row. */
  lemma DecryptIsRightExactly(n: Node, k: VersionId)
    requires Coherent(n)
    ensures (ForDecrypt(Load(n, k)).Ok? <==> ForDecrypt(Uncached(n.db, k)).Ok?)
            <==> !(k in n.db.keys && IsNegative(n.cache, k, n.clock))
  {
    hide Sound;
    if k in n.db.keys {
      LiveRow(n.db, k);
    }
    assert k in n.cache.negative.Keys ==> k !in n.cache.data.Keys;
  }

  /**
    Soft deletion does not invalidate: right after it the key still encrypts on
    this node if and only if its Active row was cached.
    */
  lemma SoftDeletedEncryptsExactly(n: Node, k: VersionId, now: Time)
    requires Coherent(n) && k in n.db.keys && n.db.keys[k].state == Active
    ensures ForEncrypt(After(n, Apply(OpSoftDelete(k.id, k.version, now))), k.id).Ok? <==> k in n.cache.data
  {
    hide SoundRow, LatestVersion;
    var op := OpSoftDelete(k.id, k.version, now);
    LatestWhenSound(n.db, k.id);
    NextKeepsSound(n.db, op);
    LatestWhenSound(Next(n.db, op), k.id);
  }

  // ---------- The negative cache ----------

  /** The instant i at which a run's negative entry was made: the row was absent then. */
  lemma {:induction false} NegativeOrigin(n: Node, steps: seq<Step>, k: VersionId) returns (i: nat)
    requires n.cache.negative == map[] && k in Run(n, steps).cache.negative
    ensures i < |steps| && k !in Run(n, steps[..i]).db.keys
    ensures Run(n, steps[..i]).clock + NEGATIVE_TTL == Run(n, steps).cache.negative[k]
    decreases |steps|
  {
    hide Invalidate, Next;
    var last := |steps| - 1;
    var before := Run(n, steps[..last]);
    if steps[last].Apply? {
      InvalidateClears(before.cache, steps[last].op.id);
    } else if steps[last].InvalidateCache? {
      InvalidateClears(before.cache, steps[last].id);
    }
    if k in before.cache.negative && before.cache.negative[k] == Run(n, steps).cache.negative[k] {
      i := NegativeOrigin(n, steps[..last], k);
      assert steps[..last][..i] == steps[..i];
    } else {
      i := last;
    }
  }

  /** A "not found" from the negative cache was true at some instant of the last five seconds. */
  lemma NegativeAnswersAreRecent(steps: seq<Step>, k: VersionId) returns (i: nat)
    requires IsNegative(Run(START, steps).cache, k, Run(START, steps).clock)
    ensures i < |steps| && k !in Run(START, steps[..i]).db.keys
    ensures Run(START, steps).clock <= Run(START, steps[..i]).clock + NEGATIVE_TTL
  {
    i := NegativeOrigin(START, steps, k);
  }

  /** A lookup in vain is answered from the cache for exactly five seconds, whatever the store holds by then. */
  lemma NegativeLastsFiveSeconds(n: Node, k: VersionId, duration: nat, db: Db)
    requires k !in n.cache.data && k !in n.cache.negative && k !in n.db.keys
    ensures var later := After(After(n, Lookup(k)), Tick(duration)).(db := db);
            Load(later, k).Ok? <==> duration > 5_000_000_000 && k in db.keys
  {}

  /** A lookup of a stored row leaves it cached. */
  lemma LookupCaches(n: Node, k: VersionId)
    requires Coherent(n) && k in n.db.keys && !IsNegative(n.cache, k, n.clock)
    ensures var later := After(n, Lookup(k)); k in later.cache.data && Agrees(n.db.keys[k], later.cache.data[k])
  {
    hide Sound;
  }

  /** Creating or importing leaves negative entries: the new key is found at once if and only if none is live. */
  lemma CreatedIsFoundExactly(n: Node, op: Op)
    requires Coherent(n) && (op.OpCreate? || op.OpImport?) && Allowed(n.db, op) && Outcome(n.db, op).Ok?
    ensures var n', k := After(n, Apply(op)), VersionId(op.id, 1);
            k in n'.db.keys && (Load(n', k).Ok? <==> !IsNegative(n.cache, k, n.clock))
  {
    hide SoundRow;
    assert VersionId(op.id, 1) !in n.db.keys;
  }

  // ---------- Shredding is final ----------

  ghost predicate Recreates(s: Step, id: string) {
    s.Apply? && (s.op.OpCreate? || s.op.OpImport?) && s.op.id == id
  }

  lemma {:induction false} GoneStaysGone(n: Node, steps: seq<Step>, k: VersionId)
    requires Coherent(n) && PermittedRun(n, steps) && Gone(n.db, k)
    requires forall s | s in steps :: !Recreates(s, k.id)
    ensures Gone(Run(n, steps).db, k) && Load(Run(n, steps), k) == Err(NotFound)
    decreases |steps|
  {
    hide Next, Gone, After;
    if |steps| > 0 {
      var last := |steps| - 1;
      var before, s := Run(n, steps[..last]), steps[last];
      PermittedPrefix(n, steps, last);
      GoneStaysGone(n, steps[..last], k);
      RunKeepsCoherent(n, steps[..last]);
      assert s in steps;
      StepKeepsGone(before, s, k);
    }
    RunKeepsCoherent(n, steps);
    GoneMeansAbsent(Run(n, steps).db, k);
  }

  lemma StepKeepsGone(n: Node, s: Step, k: VersionId)
    requires Coherent(n) && Gone(n.db, k) && !Recreates(s, k.id)
    ensures Gone(After(n, s).db, k)
  {
    hide Next, Gone;
    if s.Apply? {
      NextKeepsGone(n.db, s.op, k);
    }
  }

  lemma GoneMeansAbsent(db: Db, k: VersionId)
    requires Gone(db, k)
    ensures k !in db.keys
  {}

  /**
    After ShredKey succeeds no later lookup of that version succeeds, whatever
    was cached before and however the key is rotated, unless the id is created
    or imported again.
    */
  lemma ShredIsFinal(n: Node, k: VersionId, steps: seq<Step>)
    requires Coherent(n) && Shred(n.db, k.id, k.version).Ok?
    requires var n1 := After(n, Apply(OpShred(k.id, k.version))); PermittedRun(n1, steps)
    requires forall s | s in steps :: !Recreates(s, k.id)
    ensures var n2 := Run(After(n, Apply(OpShred(k.id, k.version))), steps); ForDecrypt(Load(n2, k)).Err?
  {
    var n1 := After(n, Apply(OpShred(k.id, k.version)));
    ShredMakesGone(n.db, k);
    AfterKeepsCoherent(n, Apply(OpShred(k.id, k.version)));
    hide After, Shred, Run, Gone, Coherent, PermittedRun;
    GoneStaysGone(n1, steps, k);
  }
}
