/**
  Concurrent lifecycle transactions on Postgres (internal/lifecycle/manager.go
  over internal/storage/pg_kvstore.go). Each transaction advances one statement
  at a time: SELECT ... FOR UPDATE locks a row that exists and waits for its
  holder, a write locks its row and stays invisible until the commit, and the
  end of the transaction releases every lock. Any interleaving is allowed.
  */
module Transactions {
  import opened Options
  import opened KeyNames
  import opened Lifecycle

  type TxId = int

  datatype Write =
    | PutKey(key: VersionId, meta: Metadata)
    | DeleteKey(key: VersionId)
    | PutLatest(id: string, version: int)

  function Target(w: Write): Row {
    if w.PutLatest? then LatestRow(w.id) else KeyRow(w.key.id, w.key.version)
  }

  /** What the transaction has learned, and what it will do next. */
  datatype Phase =
    | ReadIndex
    | ScanRow(v: int)
    | ReadRow(v: int)
    | Writing(v: int, row: Metadata, issued: nat)

  datatype Tx = Tx(op: Op, phase: Phase)

  /** A committed operation, and the version whose row it read. */
  datatype Commit = Commit(op: Op, v: int)

  datatype Server = Server(db: Db, locks: map<Row, TxId>, live: map<TxId, Tx>, history: seq<Commit>)

  // ---------- What a transaction does once it has read its row ----------

  predicate Transactional(op: Op) {
    match op
    case OpRotate(id, _, _) => id != ""
    case OpSoftDelete(_, _, _) => true
    case OpRestore(_, _) => true
    case OpShred(_, _) => true
    case _ => false
  }

  predicate Accepts(op: Op, row: Metadata) {
    match op
    case OpRotate(_, material, _) => row.state == Active && material.Some?
    case OpSoftDelete(_, _, _) => row.state != Destroyed
    case OpRestore(_, _) => row.state != Destroyed
    case _ => true
  }

  /** The writes in the order they are issued, computed from the row as it was read. */
  function Writes(op: Op, v: int, row: Metadata): seq<Write>
    requires Transactional(op) && Accepts(op, row)
  {
    var k := VersionId(op.id, v);
    match op
    case OpRotate(id, material, now) =>
      [PutKey(k, row.(state := Deactivated)),
       PutKey(VersionId(id, v + 1), NewVersion(id, v + 1, material.value, row.periodDays, now)),
       PutLatest(id, v + 1)]
    case OpSoftDelete(_, _, now) =>
      if row.state == SoftDeleted then [] else [PutKey(k, row.(state := SoftDeleted, deletedAt := Some(now)))]
    case OpRestore(_, _) =>
      if row.state != SoftDeleted then [] else [PutKey(k, row.(state := Deactivated, deletedAt := None))]
    case OpShred(_, _) =>
      [PutKey(k, row.(state := Destroyed, material := [])), DeleteKey(k)]
  }

  function Written(db: Db, w: Write): Db {
    match w
    case PutKey(k, m) => db.(keys := db.keys[k := m])
    case DeleteKey(k) => db.(keys := db.keys - {k})
    case PutLatest(id, v) => db.(latest := db.latest[id := v])
  }

  function AllWritten(db: Db, ws: seq<Write>): Db
    decreases |ws|
  {
    if ws == [] then db else AllWritten(Written(db, ws[0]), ws[1..])
  }

  // ---------- Steps ----------

  datatype Step = Begin(t: TxId, op: Op) | Read(t: TxId) | Issue(t: TxId) | Finish(t: TxId) | Abort(t: TxId)

  /** The lock is free or already ours; otherwise the statement waits. */
  predicate Free(s: Server, r: Row, t: TxId) {
    r in s.locks ==> s.locks[r] == t
  }

  function Locked(s: Server, r: Row, t: TxId, phase: Phase): Server
    requires t in s.live
  {
    s.(locks := s.locks[r := t], live := s.live[t := s.live[t].(phase := phase)])
  }

  /** COMMIT and ROLLBACK both release what the transaction holds. */
  function Ended(s: Server, t: TxId): Server {
    s.(locks := map r | r in s.locks && s.locks[r] != t :: s.locks[r], live := s.live - {t})
  }

  function AfterRead(s: Server, t: TxId): Server
    requires t in s.live
  {
    var tx := s.live[t];
    match tx.phase
    case ReadIndex =>
      var r := LatestRow(tx.op.id);
      if tx.op.id !in s.db.latest then s.(live := s.live[t := tx.(phase := ScanRow(1))])
      else if !Free(s, r, t) then s
      else Locked(s, r, t, if s.db.latest[tx.op.id] > 0 then ReadRow(s.db.latest[tx.op.id]) else ScanRow(1))
    case ScanRow(v) =>
      if VersionId(tx.op.id, v) !in s.db.keys then
        if v == 1 then Ended(s, t) else s.(live := s.live[t := tx.(phase := ReadRow(v - 1))])
      else if !Free(s, KeyRow(tx.op.id, v), t) then s
      else Locked(s, KeyRow(tx.op.id, v), t, ScanRow(v + 1))
    case ReadRow(v) =>
      var k := VersionId(tx.op.id, v);
      if k !in s.db.keys then Ended(s, t)
      else if !Free(s, KeyRow(k.id, v), t) then s
      else if !Accepts(tx.op, s.db.keys[k]) then Ended(s, t)
      else Locked(s, KeyRow(k.id, v), t, Writing(v, s.db.keys[k], 0))
    case Writing(_, _, _) => s
  }

  predicate WellPhased(tx: Tx) {
    && Transactional(tx.op)
    && (!tx.op.OpRotate? ==> (tx.phase.ReadRow? || tx.phase.Writing?) && tx.phase.v == tx.op.version)
    && (tx.phase.Writing? ==>
          Accepts(tx.op, tx.phase.row) && tx.phase.issued <= |Writes(tx.op, tx.phase.v, tx.phase.row)|)
  }

  function AfterIssue(s: Server, t: TxId): Server
    requires t in s.live && WellPhased(s.live[t])
  {
    var tx := s.live[t];
    if !tx.phase.Writing? then s
    else
      var ws := Writes(tx.op, tx.phase.v, tx.phase.row);
      var i := tx.phase.issued;
      if i < |ws| && Free(s, Target(ws[i]), t) then Locked(s, Target(ws[i]), t, tx.phase.(issued := i + 1)) else s
  }

  function AfterFinish(s: Server, t: TxId): Server
    requires t in s.live && WellPhased(s.live[t])
  {
    var tx := s.live[t];
    if !tx.phase.Writing? then s
    else
      var ws := Writes(tx.op, tx.phase.v, tx.phase.row);
      if tx.phase.issued < |ws| then s
      else Ended(s, t).(db := AllWritten(s.db, ws), history := s.history + [Commit(tx.op, tx.phase.v)])
  }

  /** A step that cannot be taken leaves the server as it is. */
  function After(s: Server, step: Step): Server {
    var t := step.t;
    match step
    case Begin(_, op) =>
      if t in s.live || !Transactional(op) then s
      else s.(live := s.live[t := Tx(op, if op.OpRotate? then ReadIndex else ReadRow(op.version))])
    case Read(_) => if t in s.live then AfterRead(s, t) else s
    case Issue(_) => if t in s.live && WellPhased(s.live[t]) then AfterIssue(s, t) else s
    case Finish(_) => if t in s.live && WellPhased(s.live[t]) then AfterFinish(s, t) else s
    case Abort(_) => Ended(s, t)
  }

  function Run(s: Server, steps: seq<Step>): Server
    decreases |steps|
  {
    if |steps| == 0 then s else After(Run(s, steps[..|steps| - 1]), steps[|steps| - 1])
  }

  function Fresh(db: Db): Server {
    Server(db, map[], map[], [])
  }

  // ---------- The invariant ----------

  /** A transaction that has decided still holds its row, and the row is as it was read. */
  ghost predicate Steady(s: Server, t: TxId)
    requires t in s.live
  {
    var tx := s.live[t];
    && WellPhased(tx)
    && (tx.phase.Writing? ==>
          var k := VersionId(tx.op.id, tx.phase.v);
          var ws := Writes(tx.op, tx.phase.v, tx.phase.row);
          && Holds(s, KeyRow(k.id, k.version), t)
          && k in s.db.keys && s.db.keys[k] == tx.phase.row
          && forall i | 0 <= i < tx.phase.issued :: Holds(s, Target(ws[i]), t))
  }

  predicate Holds(s: Server, r: Row, t: TxId) {
    r in s.locks && s.locks[r] == t
  }

  function Ops(history: seq<Commit>): (ops: seq<Op>)
    ensures |ops| == |history| && forall i | 0 <= i < |ops| :: ops[i] == history[i].op
  {
    seq(|history|, i requires 0 <= i < |history| => history[i].op)
  }

  /** Commit c succeeds when run alone on db, and reads the same version there. */
  ghost predicate RunsAlone(db: Db, c: Commit) {
    && Outcome(db, c.op).Ok?
    && Transactional(c.op)
    && (if c.op.OpRotate? then LatestVersion(db, c.op.id) == Some(c.v) else c.v == c.op.version)
  }

  ghost predicate Serial(db0: Db, history: seq<Commit>) {
    forall i | 0 <= i < |history| :: RunsAlone(RunOps(db0, Ops(history)[..i]), history[i])
  }

  ghost predicate Inv(db0: Db, s: Server) {
    && Sound(s.db)
    && s.db == RunOps(db0, Ops(s.history))
    && Serial(db0, s.history)
    && forall t | t in s.live :: Steady(s, t)
  }

  // ---------- A commit is one atomic operation ----------

  lemma CommitIsAtomic(db: Db, op: Op, v: int, row: Metadata)
    requires Sound(db) && Transactional(op) && Accepts(op, row)
    requires VersionId(op.id, v) in db.keys && db.keys[VersionId(op.id, v)] == row
    requires !op.OpRotate? ==> v == op.version
    ensures RunsAlone(db, Commit(op, v))
    ensures AllWritten(db, Writes(op, v, row)) == Next(db, op)
  {
    hide LatestVersion, Sound;
    var ws := Writes(op, v, row);
    AllWrittenUpTo3(db, ws);
    if op.OpRotate? {
      LatestWhenSound(db, op.id);
    }
  }

  lemma AllWrittenUpTo3(db: Db, ws: seq<Write>)
    ensures |ws| == 1 ==> AllWritten(db, ws) == Written(db, ws[0])
    ensures |ws| == 2 ==> AllWritten(db, ws) == Written(Written(db, ws[0]), ws[1])
    ensures |ws| == 3 ==> AllWritten(db, ws) == Written(Written(Written(db, ws[0]), ws[1]), ws[2])
  {
    hide Written;
    if 1 <= |ws| <= 3 {
      var db1 := Written(db, ws[0]);
      if |ws| >= 2 {
        var rest := ws[1..];
        assert AllWritten(db1, rest) == AllWritten(Written(db1, ws[1]), rest[1..]);
        assert rest[1..] == ws[2..];
        if |ws| == 3 {
          var db2 := Written(db1, ws[1]);
          assert AllWritten(db2, ws[2..]) == AllWritten(Written(db2, ws[2]), ws[2..][1..]);
        }
      }
    }
  }

  lemma {:induction false} OtherRowsStay(db: Db, ws: seq<Write>, k: VersionId)
    requires k in db.keys && forall i | 0 <= i < |ws| :: Target(ws[i]) != KeyRow(k.id, k.version)
    ensures k in AllWritten(db, ws).keys && AllWritten(db, ws).keys[k] == db.keys[k]
    decreases |ws|
  {
    if ws != [] {
      var w := ws[0];
      assert w.PutLatest? || w.key != k;
      OtherRowsStay(Written(db, w), ws[1..], k);
    }
  }

  // ---------- Every step keeps the invariant ----------

  lemma HistoryGrows(db0: Db, history: seq<Commit>, c: Commit)
    requires Serial(db0, history) && RunsAlone(RunOps(db0, Ops(history)), c)
    ensures Serial(db0, history + [c])
    ensures RunOps(db0, Ops(history + [c])) == Next(RunOps(db0, Ops(history)), c.op)
  {
    hide RunsAlone, Next;
    var longer := history + [c];
    assert Ops(longer) == Ops(history) + [c.op];
    assert Ops(longer)[..|history|] == Ops(history);
    forall i | 0 <= i < |longer|
      ensures RunsAlone(RunOps(db0, Ops(longer)[..i]), longer[i])
    {
      assert i < |history| ==> Ops(longer)[..i] == Ops(history)[..i];
    }
  }

  /** A commit by t leaves every other decided transaction's row alone: t would need its lock. */
  lemma CommitKeepsSteady(s: Server, t: TxId, u: TxId)
    requires t in s.live && u in s.live && t != u && Steady(s, t) && Steady(s, u)
    ensures u in AfterFinish(s, t).live && Steady(AfterFinish(s, t), u)
  {
    hide Writes, Accepts, AllWritten;
    var tx, ux := s.live[t], s.live[u];
    if tx.phase.Writing? && ux.phase.Writing? {
      var ws := Writes(tx.op, tx.phase.v, tx.phase.row);
      if tx.phase.issued == |ws| {
        OtherRowsStay(s.db, ws, VersionId(ux.op.id, ux.phase.v));
      }
    }
  }

  lemma FinishKeepsInv(db0: Db, s: Server, t: TxId)
    requires Inv(db0, s) && t in s.live
    ensures WellPhased(s.live[t]) && Inv(db0, AfterFinish(s, t))
  {
    hide Sound, RunOps, Serial, Next, AllWritten, Writes, RunsAlone, Accepts;
    var tx := s.live[t];
    assert Steady(s, t);
    var s' := AfterFinish(s, t);
    if tx.phase.Writing? && s' != s {
      CommitIsAtomic(s.db, tx.op, tx.phase.v, tx.phase.row);
      HistoryGrows(db0, s.history, Commit(tx.op, tx.phase.v));
      NextKeepsSound(s.db, tx.op);
      forall u | u in s'.live
        ensures Steady(s', u)
      {
        CommitKeepsSteady(s, t, u);
      }
    }
  }

  lemma ReadKeepsSteady(s: Server, t: TxId, u: TxId)
    requires t in s.live && Steady(s, t) && u in s.live && Steady(s, u) && u in AfterRead(s, t).live
    ensures Steady(AfterRead(s, t), u)
  {
    hide Writes, Accepts;
  }

  lemma IssueKeepsSteady(s: Server, t: TxId, u: TxId)
    requires t in s.live && Steady(s, t) && u in s.live && Steady(s, u)
    ensures u in AfterIssue(s, t).live && Steady(AfterIssue(s, t), u)
  {
    hide Writes, Accepts;
  }

  lemma AfterKeepsInv(db0: Db, s: Server, step: Step)
    requires Inv(db0, s)
    ensures Inv(db0, After(s, step))
  {
    hide Sound, RunOps, Serial, AfterRead, AfterIssue, AfterFinish, Steady;
    var s', t := After(s, step), step.t;
    if step.Finish? && t in s.live {
      FinishKeepsInv(db0, s, t);
    } else {
      SameHistory(s, step);
      forall u | u in s'.live
        ensures Steady(s', u)
      {
        StepKeepsSteady(s, step, u);
      }
    }
  }

  lemma SameHistory(s: Server, step: Step)
    requires !step.Finish? || step.t !in s.live
    ensures After(s, step).db == s.db && After(s, step).history == s.history
  {
    hide Writes;
  }

  lemma StepKeepsSteady(s: Server, step: Step, u: TxId)
    requires !step.Finish? || step.t !in s.live
    requires (forall t | t in s.live :: Steady(s, t)) && u in After(s, step).live
    ensures Steady(After(s, step), u)
  {
    hide Writes, AfterRead, AfterIssue, AfterFinish;
    var t := step.t;
    if step.Read? && t in s.live {
      ReadStaysLive(s, t, u);
      ReadKeepsSteady(s, t, u);
    } else if step.Issue? && t in s.live {
      assert Steady(s, t);
      IssueStaysLive(s, t, u);
      IssueKeepsSteady(s, t, u);
    } else if u in s.live {
      assert Steady(s, u);
    }
  }

  lemma ReadStaysLive(s: Server, t: TxId, u: TxId)
    requires t in s.live && u in AfterRead(s, t).live
    ensures u in s.live
  {}

  lemma IssueStaysLive(s: Server, t: TxId, u: TxId)
    requires t in s.live && WellPhased(s.live[t]) && u in AfterIssue(s, t).live
    ensures u in s.live
  {
    hide Writes;
  }

  lemma {:induction false} RunKeepsInv(db0: Db, steps: seq<Step>)
    requires Sound(db0)
    ensures Inv(db0, Run(Fresh(db0), steps))
    decreases |steps|
  {
    hide Sound, After, Steady;
    if |steps| > 0 {
      var n := |steps| - 1;
      RunKeepsInv(db0, steps[..n]);
      AfterKeepsInv(db0, Run(Fresh(db0), steps[..n]), steps[n]);
    }
  }

  // ---------- Main results ----------

  /**
    Whatever the interleaving, the store is what the committed operations give
    when each runs alone, in commit order, and each of them succeeds there on
    the same version.
    */
  lemma Serializable(db0: Db, steps: seq<Step>)
    requires Sound(db0)
    ensures var s := Run(Fresh(db0), steps); s.db == RunOps(db0, Ops(s.history)) && Serial(db0, s.history)
  {
    hide Run, Sound, Serial, RunOps;
    RunKeepsInv(db0, steps);
  }

  /** At every point of every interleaving at most one version of a key is Active. */
  lemma OneActive(db0: Db, steps: seq<Step>, k: VersionId, l: VersionId)
    requires Sound(db0)
    ensures var db := Run(Fresh(db0), steps).db;
            k in db.keys && l in db.keys && k.id == l.id && db.keys[k].state == Active && db.keys[l].state == Active
            ==> k == l
  {
    hide Run, Sound, Serial, LatestVersion;
    RunKeepsInv(db0, steps);
    LatestWhenSound(Run(Fresh(db0), steps).db, k.id);
  }

  /** The versions that committed rotations issued to id, in commit order. */
  function Issued(history: seq<Commit>, id: string): seq<int>
    decreases |history|
  {
    if |history| == 0 then []
    else
      var n := |history| - 1;
      var c := history[n];
      Issued(history[..n], id) + if c.op.OpRotate? && c.op.id == id then [c.v + 1] else []
  }

  function Base(db0: Db, id: string): int {
    if id in db0.latest then db0.latest[id] else 1
  }

  lemma SerialPrefix(db0: Db, history: seq<Commit>, n: nat)
    requires n <= |history| && Serial(db0, history)
    ensures Serial(db0, history[..n]) && Ops(history[..n]) == Ops(history)[..n]
  {
    hide RunsAlone;
    forall i | 0 <= i < n
      ensures RunsAlone(RunOps(db0, Ops(history[..n])[..i]), history[..n][i])
    {
      assert Ops(history[..n])[..i] == Ops(history)[..i];
    }
  }

  /** The issued versions start just above the index and leave it at the last of them. */
  ghost predicate Tracks(db0: Db, db: Db, id: string, issued: seq<int>) {
    && (forall i | 0 <= i < |issued| :: issued[i] == Base(db0, id) + 1 + i)
    && (id in db.latest <==> id in db0.latest || |issued| > 0)
    && (id in db.latest ==> db.latest[id] == Base(db0, id) + |issued|)
  }

  lemma CommitKeepsTracks(db0: Db, db: Db, c: Commit, id: string, issued: seq<int>)
    requires Sound(db) && RunsAlone(db, c) && Tracks(db0, db, id, issued)
    ensures Tracks(db0, Next(db, c.op), id, issued + if c.op.OpRotate? && c.op.id == id then [c.v + 1] else [])
  {
    hide Sound, Rotate, LatestVersion;
    if c.op.OpRotate? {
      RotateAdvancesIndex(db, c.op.id, c.op.material, c.op.now);
      LatestWhenSound(db, c.op.id);
    }
  }

  lemma {:induction false} IssuedTracksIndex(db0: Db, history: seq<Commit>, id: string)
    requires Sound(db0) && Serial(db0, history)
    ensures var db := RunOps(db0, Ops(history)); Sound(db) && Tracks(db0, db, id, Issued(history, id))
    decreases |history|
  {
    hide Sound, Next, RunsAlone;
    if |history| > 0 {
      var n := |history| - 1;
      var db, c := RunOps(db0, Ops(history)[..n]), history[n];
      SerialPrefix(db0, history, n);
      IssuedTracksIndex(db0, history[..n], id);
      assert RunsAlone(db, c);
      CommitKeepsTracks(db0, db, c, id, Issued(history[..n], id));
      TransactionalAllowed(db, c);
      NextKeepsSound(db, c.op);
    }
  }

  lemma TransactionalAllowed(db: Db, c: Commit)
    requires RunsAlone(db, c)
    ensures Allowed(db, c.op)
  {}

  /** Concurrent rotations issue consecutive version numbers, each exactly once. */
  lemma VersionsAreConsecutive(db0: Db, steps: seq<Step>, id: string, i: nat)
    requires Sound(db0) && i < |Issued(Run(Fresh(db0), steps).history, id)|
    ensures Issued(Run(Fresh(db0), steps).history, id)[i] == Base(db0, id) + 1 + i
  {
    hide Run, Sound, Serial, RunOps, Issued;
    Serializable(db0, steps);
    IssuedTracksIndex(db0, Run(Fresh(db0), steps).history, id);
  }

  // ---------- A transaction that nobody disturbs ----------

  function Repeat(step: Step, n: nat): seq<Step> {
    seq(n, _ => step)
  }

  lemma {:induction false} RunAppend(s: Server, a: seq<Step>, b: seq<Step>)
    ensures Run(s, a + b) == Run(Run(s, a), b)
    decreases |b|
  {
    hide After;
    if b == [] {
      assert a + b == a;
    } else {
      var c := b[..|b| - 1];
      assert (a + b)[..|a + b| - 1] == a + c;
      RunAppend(s, a, c);
    }
  }

  lemma RunOne(s: Server, step: Step)
    ensures Run(s, [step]) == After(s, step)
  {
    assert Run(s, [step][..0]) == s;
  }

  /** Reading to the decision takes two statements with an index row, four without, one for the other operations. */
  function Statements(db: Db, op: Op): seq<Step> {
    Repeat(Read(0), if !op.OpRotate? then 1 else if op.id in db.latest then 2 else 4)
  }

  /** The server once transaction 0 has decided and issued n writes, with nobody else there. */
  ghost predicate Decided(s: Server, db: Db, op: Op, v: int, n: nat) {
    && s.db == db && s.history == [] && s.live.Keys == {0}
    && VersionId(op.id, v) in db.keys && Accepts(op, db.keys[VersionId(op.id, v)])
    && s.live[0] == Tx(op, Writing(v, db.keys[VersionId(op.id, v)], n))
    && forall r | r in s.locks :: s.locks[r] == 0
  }

  /** Transaction 0 right after its first statement. */
  function Begun(db: Db, op: Op): Server {
    After(Fresh(db), Begin(0, op))
  }

  lemma RowReadDecides(db: Db, op: Op, v: int)
    requires Transactional(op) && !op.OpRotate? && RunsAlone(db, Commit(op, v))
    ensures Decided(After(Begun(db, op), Read(0)), db, op, v, 0)
  {}

  lemma IndexReadDecides(db: Db, op: Op, v: int)
    requires Sound(db) && op.OpRotate? && op.id in db.latest && Transactional(op) && RunsAlone(db, Commit(op, v))
    ensures Decided(After(After(Begun(db, op), Read(0)), Read(0)), db, op, v, 0)
  {
    hide Sound;
    LatestWhenSound(db, op.id);
    IndexIsPositive(db, op.id);
  }

  lemma IndexIsPositive(db: Db, id: string)
    requires Sound(db) && id in db.latest
    ensures db.latest[id] > 0
  {}

  lemma ScanDecides(db: Db, op: Op, v: int)
    requires Sound(db) && op.OpRotate? && op.id !in db.latest && Transactional(op) && RunsAlone(db, Commit(op, v))
    ensures Decided(After(After(After(After(Begun(db, op), Read(0)), Read(0)), Read(0)), Read(0)), db, op, v, 0)
  {
    hide Sound, LatestVersion;
    LatestWhenSound(db, op.id);
    NoSecondVersion(db, op.id);
    var s2 := After(After(Begun(db, op), Read(0)), Read(0));
    assert s2.live[0].phase == ScanRow(2);
    assert After(s2, Read(0)).live[0].phase == ReadRow(1);
  }

  lemma ReadsDecide(db: Db, op: Op, v: int)
    requires Sound(db) && Transactional(op) && RunsAlone(db, Commit(op, v))
    ensures Decided(Run(Fresh(db), [Begin(0, op)] + Statements(db, op)), db, op, v, 0)
  {
    hide Sound, Decided, After, RunsAlone;
    var s0, steps := Begun(db, op), Statements(db, op);
    RunOne(s0, Read(0));
    TwoSteps(s0, Read(0));
    var s2 := After(After(s0, Read(0)), Read(0));
    TwoSteps(s2, Read(0));
    RunAppend(s0, [Read(0), Read(0)], [Read(0), Read(0)]);
    if !op.OpRotate? {
      RowReadDecides(db, op, v);
      assert steps == [Read(0)];
    } else if op.id in db.latest {
      IndexReadDecides(db, op, v);
      assert steps == [Read(0), Read(0)];
    } else {
      ScanDecides(db, op, v);
      assert steps == [Read(0), Read(0)] + [Read(0), Read(0)];
    }
    RunAppend(Fresh(db), [Begin(0, op)], steps);
    RunOne(Fresh(db), Begin(0, op));
  }

  lemma TwoSteps(s: Server, step: Step)
    ensures Run(s, [step, step]) == After(After(s, step), step)
  {
    hide After;
    RunOne(s, step);
    RunOne(After(s, step), step);
    assert [step, step] == [step] + [step];
    RunAppend(s, [step], [step]);
  }

  lemma IssueStep(s: Server, db: Db, op: Op, v: int, n: nat)
    requires Transactional(op) && Decided(s, db, op, v, n) && (!op.OpRotate? ==> v == op.version)
    requires n < |Writes(op, v, db.keys[VersionId(op.id, v)])|
    ensures Decided(After(s, Issue(0)), db, op, v, n + 1)
  {
    hide Writes, Accepts;
  }

  lemma {:induction false} WritesIssue(s: Server, db: Db, op: Op, v: int, n: nat)
    requires Transactional(op) && Decided(s, db, op, v, 0) && (!op.OpRotate? ==> v == op.version)
    requires n <= |Writes(op, v, db.keys[VersionId(op.id, v)])|
    ensures Decided(Run(s, Repeat(Issue(0), n)), db, op, v, n)
    decreases n
  {
    DecidedRow(s, db, op, v);
    hide Writes, Decided, After, Accepts;
    if n > 0 {
      WritesIssue(s, db, op, v, n - 1);
      var steps := Repeat(Issue(0), n);
      assert steps[..n - 1] == Repeat(Issue(0), n - 1);
      assert steps[n - 1] == Issue(0);
      IssueStep(Run(s, steps[..n - 1]), db, op, v, n - 1);
    }
  }

  lemma FinishCommits(s: Server, db: Db, op: Op, v: int)
    requires Transactional(op) && (!op.OpRotate? ==> v == op.version) && VersionId(op.id, v) in db.keys
    requires Accepts(op, db.keys[VersionId(op.id, v)])
    requires Decided(s, db, op, v, |Writes(op, v, db.keys[VersionId(op.id, v)])|)
    ensures var s' := After(s, Finish(0));
            s'.history == [Commit(op, v)] && s'.db == AllWritten(db, Writes(op, v, db.keys[VersionId(op.id, v)]))
  {
    hide Writes, AllWritten;
  }

  /** A transaction that nobody disturbs commits whenever the operation succeeds, and does what it does. */
  lemma AloneCommits(db: Db, op: Op, v: int) returns (steps: seq<Step>)
    requires Sound(db) && RunsAlone(db, Commit(op, v))
    ensures Run(Fresh(db), steps).history == [Commit(op, v)] && Run(Fresh(db), steps).db == Next(db, op)
  {
    hide After, Decided, RunOps, Next;
    ReadsDecide(db, op, v);
    var read := [Begin(0, op)] + Statements(db, op);
    var s := Run(Fresh(db), read);
    DecidedRow(s, db, op, v);
    var row := db.keys[VersionId(op.id, v)];
    var n := |Writes(op, v, row)|;
    var issue := Repeat(Issue(0), n);
    WritesIssue(s, db, op, v, n);
    FinishCommits(Run(s, issue), db, op, v);
    CommitIsAtomic(db, op, v, row);
    RunOne(Run(s, issue), Finish(0));
    RunAppend(Fresh(db), read, issue);
    RunAppend(Fresh(db), read + issue, [Finish(0)]);
    steps := read + issue + [Finish(0)];
  }

  lemma DecidedRow(s: Server, db: Db, op: Op, v: int)
    requires Decided(s, db, op, v, 0)
    ensures VersionId(op.id, v) in db.keys && Accepts(op, db.keys[VersionId(op.id, v)])
  {}
}
