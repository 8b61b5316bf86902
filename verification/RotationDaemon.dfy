/**
  The rotation daemon (internal/lifecycle/daemon.go). Any number of nodes wake
  up, and the one that gets the exclusive lock scans for keys that are due and
  rotates them one by one before it lets the lock go. Operators may run any
  lifecycle operation at any moment in between. The clock never goes back.
  */
module RotationDaemon {
  import opened Options
  import opened Clock
  import opened Collections
  import opened Gf256
  import opened Lifecycle

  type NodeId = int

  /** The test of scanExpiredKeys on one row. */
  predicate Due(m: Metadata, now: Time) {
    m.state == Active && m.periodDays > 0 && m.nextRotation.Some? && m.nextRotation.value <= now
  }

  /** The rows that are due, in the order and number they are listed. */
  function DueOnly(items: seq<Metadata>, now: Time): seq<Metadata>
    decreases |items|
  {
    if |items| == 0 then []
    else
      var n := |items| - 1;
      DueOnly(items[..n], now) + if Due(items[n], now) then [items[n]] else []
  }

  /** scanExpiredKeys, over rows listed in any order. */
  method ScanExpiredKeys(items: seq<Metadata>, now: Time) returns (expired: seq<Metadata>)
    ensures expired == DueOnly(items, now)
    ensures forall m :: m in expired <==>
              m in items && m.state == Active && m.periodDays > 0 && m.nextRotation.Some? && m.nextRotation.value <= now
  {
    expired := [];
    for i := 0 to |items|
      invariant expired == DueOnly(items[..i], now)
      invariant forall m :: m in expired <==>
                  && m in items[..i] && m.state == Active && m.periodDays > 0
                  && m.nextRotation.Some? && m.nextRotation.value <= now
    {
      assert items[..i + 1][..i] == items[..i];
      var m := items[i];
      if m.state != Active {
        continue;
      }
      if m.periodDays <= 0 {
        continue;
      }
      if m.nextRotation.None? {
        continue;
      }
      if !(m.nextRotation.value > now) {
        expired := expired + [m];
      }
    }
    assert items[..|items|] == items;
  }

  // ---------- The daemons as a state machine ----------

  /** An automatic rotation: the key, its rotation period and the instant it happened. */
  datatype Auto = Auto(id: string, period: int, at: Time)

  /**
    seen holds the rows the lock holder's scan returned and it has not tested
    yet, todo those it found due and has not handled yet.
    */
  datatype World = World(
    db: Db, clock: Time, holder: Option<NodeId>, seen: map<VersionId, Metadata>, todo: set<VersionId>,
    autos: seq<Auto>)

  datatype Step =
    | Acquire(node: NodeId)
    | Scan(node: NodeId)
    | Select(node: NodeId)
    | RotateNext(node: NodeId, key: VersionId, material: Option<Bytes>)
    | Release(node: NodeId)
    | Manual(op: Op)
    | Tick(duration: nat)

  /** The operation as it runs now. */
  function Stamped(op: Op, now: Time): Op {
    match op
    case OpCreate(id, material, period, _, maxKeys, indexWritten) =>
      OpCreate(id, material, period, now, maxKeys, indexWritten)
    case OpImport(id, material, _) => OpImport(id, material, now)
    case OpRotate(id, material, _) => OpRotate(id, material, now)
    case OpSoftDelete(id, v, _) => OpSoftDelete(id, v, now)
    case _ => op
  }

  function Rotated(w: World, key: VersionId, material: Option<Bytes>): World {
    var op := OpRotate(key.id, material, w.clock);
    var rest := w.todo - {key};
    if Outcome(w.db, op).Ok? then
      var prior := VersionId(key.id, LatestVersion(w.db, key.id).value);
      w.(db := Next(w.db, op), todo := rest, autos := w.autos + [Auto(key.id, w.db.keys[prior].periodDays, w.clock)])
    else w.(todo := rest)
  }

  /** A step that cannot be taken leaves the world as it is. */
  function After(w: World, s: Step): World {
    match s
    case Acquire(n) => if w.holder.None? then w.(holder := Some(n), seen := map[], todo := {}) else w
    case Scan(n) => if w.holder == Some(n) then w.(seen := w.db.keys, todo := {}) else w
    case Select(n) =>
      if w.holder == Some(n) then w.(seen := map[], todo := set k | k in w.seen && Due(w.seen[k], w.clock)) else w
    case RotateNext(n, k, material) => if w.holder == Some(n) && k in w.todo then Rotated(w, k, material) else w
    case Release(n) => if w.holder == Some(n) then w.(holder := None, seen := map[], todo := {}) else w
    case Manual(op) => w.(db := Next(w.db, Stamped(op, w.clock)))
    case Tick(d) => w.(clock := w.clock + d)
  }

  function Run(w: World, steps: seq<Step>): World
    decreases |steps|
  {
    if |steps| == 0 then w else After(Run(w, steps[..|steps| - 1]), steps[|steps| - 1])
  }

  ghost predicate Permitted(w: World, s: Step) {
    s.Manual? ==> Allowed(w.db, s.op)
  }

  ghost predicate PermittedRun(w: World, steps: seq<Step>) {
    forall i | 0 <= i < |steps| :: Permitted(Run(w, steps[..i]), steps[i])
  }

  const START := World(EMPTY, 0, None, map[], {}, [])

  // ---------- The scan and the step agree ----------

  function KeysOf(ms: seq<Metadata>): (ks: seq<VersionId>)
    ensures |ks| == |ms| && forall i | 0 <= i < |ks| :: ks[i] == VersionId(ms[i].id, ms[i].version)
  {
    seq(|ms|, i requires 0 <= i < |ms| => VersionId(ms[i].id, ms[i].version))
  }

  ghost function Rows(seen: map<VersionId, Metadata>, ks: seq<VersionId>): (ms: seq<Metadata>)
    requires forall k | k in ks :: k in seen
    ensures |ms| == |ks| && forall i | 0 <= i < |ms| :: ks[i] in seen && ms[i] == seen[ks[i]]
  {
    seq(|ks|, i requires 0 <= i < |ks| => assert ks[i] in ks; seen[ks[i]])
  }

  ghost predicate FindsDue(seen: map<VersionId, Metadata>, ks: seq<VersionId>, now: Time, found: seq<VersionId>)
    requires forall k | k in ks :: k in seen
  {
    Distinct(found) && forall k :: k in found <==> k in ks && Due(seen[k], now)
  }

  lemma FindsOneMore(seen: map<VersionId, Metadata>, ks: seq<VersionId>, now: Time, found: seq<VersionId>, x: VersionId)
    requires (forall k | k in ks :: k in seen) && FindsDue(seen, ks, now, found) && x !in ks && x in seen
    ensures FindsDue(seen, ks + [x], now, found + if Due(seen[x], now) then [x] else [])
  {
    hide Due, Distinct;
    var more := if Due(seen[x], now) then [x] else [];
    FewAreDistinct(more);
    AppendDistinct(found, more);
  }

  lemma DueLast(items: seq<Metadata>, now: Time)
    requires |items| > 0
    ensures var n, last := |items| - 1, items[|items| - 1];
            KeysOf(DueOnly(items, now)) ==
            KeysOf(DueOnly(items[..n], now)) + if Due(last, now) then [VersionId(last.id, last.version)] else []
  {
    hide Due;
  }

  lemma NothingDue(seen: map<VersionId, Metadata>, now: Time)
    ensures FindsDue(seen, [], now, KeysOf(DueOnly([], now)))
  {}

  /** Listed in any order, the loop finds exactly the keys of the Select step, each once. */
  lemma {:induction false} ScanFindsDue(seen: map<VersionId, Metadata>, ks: seq<VersionId>, now: Time)
    requires Distinct(ks) && forall k | k in ks :: k in seen
    requires forall k | k in seen :: VersionId(seen[k].id, seen[k].version) == k
    ensures FindsDue(seen, ks, now, KeysOf(DueOnly(Rows(seen, ks), now)))
    decreases |ks|
  {
    hide Due, DueOnly, FindsDue, Distinct;
    if |ks| == 0 {
      NothingDue(seen, now);
    } else {
      var n := |ks| - 1;
      assert forall k | k in ks[..n] :: k in ks;
      DropLastDistinct(ks);
      ScanFindsDue(seen, ks[..n], now);
      var rows := Rows(seen, ks);
      assert rows[..n] == Rows(seen, ks[..n]);
      DueLast(rows, now);
      FindsOneMore(seen, ks[..n], now, KeysOf(DueOnly(rows[..n], now)), ks[n]);
      assert ks == ks[..n] + [ks[n]];
    }
  }

  lemma SelectIsScan(w: World, n: NodeId, ks: seq<VersionId>)
    requires w.holder == Some(n) && Distinct(ks) && forall k :: k in ks <==> k in w.seen
    requires forall k | k in w.seen :: VersionId(w.seen[k].id, w.seen[k].version) == k
    ensures var found := KeysOf(DueOnly(Rows(w.seen, ks), w.clock));
            Distinct(found) && forall k :: k in found <==> k in After(w, Select(n)).todo
  {
    hide DueOnly, Distinct;
    ScanFindsDue(w.seen, ks, w.clock);
  }

  // ---------- The invariant ----------

  ghost predicate DatedRow(m: Metadata, clock: Time) {
    m.createdAt <= clock && m.nextRotation == NextRotation(m.periodDays, m.createdAt)
  }

  /** Every row of a key that was rotated at a.at: same period, and Active only if created since. */
  ghost predicate SinceAuto(m: Metadata, a: Auto) {
    m.periodDays == a.period && (m.state == Active ==> m.createdAt >= a.at)
  }

  ghost predicate Recorded(w: World, a: Auto) {
    && a.id in w.db.latest
    && a.at <= w.clock
    && (forall k | k in w.db.keys && k.id == a.id :: SinceAuto(w.db.keys[k], a))
    && (forall k | k in w.seen && k.id == a.id :: SinceAuto(w.seen[k], a))
    && (forall k | k in w.todo && k.id == a.id :: a.at + a.period * DAY <= w.clock)
  }

  ghost predicate Spaced(a: Auto, b: Auto) {
    a.id == b.id ==> b.period == a.period && b.at >= a.at + a.period * DAY
  }

  ghost predicate Inv(w: World) {
    && Sound(w.db)
    && (forall k | k in w.db.keys :: DatedRow(w.db.keys[k], w.clock))
    && (forall k | k in w.seen :: DatedRow(w.seen[k], w.clock))
    && (forall j, k | j in w.seen && k in w.seen && j.id == k.id && w.seen[j].state == w.seen[k].state == Active ::
          j == k)
    && (forall j, k | j in w.todo && k in w.todo && j.id == k.id :: j == k)
    && (w.seen == map[] || w.todo == {})
    && (forall a | a in w.autos :: Recorded(w, a))
    && (forall i, j | 0 <= i < j < |w.autos| :: Spaced(w.autos[i], w.autos[j]))
  }

  // ---------- Every step keeps it ----------

  /** What any operation at time now does to the dates and the Active row of each key. */
  lemma NextKeepsDates(db: Db, op: Op, now: Time, k: VersionId)
    requires Sound(db) && Allowed(db, op) && op == Stamped(op, now)
    requires forall j | j in db.keys :: DatedRow(db.keys[j], now)
    requires k in Next(db, op).keys
    ensures DatedRow(Next(db, op).keys[k], now)
  {
    hide LatestVersion, SoundRow;
  }

  lemma NextKeepsSince(db: Db, op: Op, now: Time, k: VersionId, a: Auto)
    requires Sound(db) && Allowed(db, op) && op == Stamped(op, now)
    requires a.id in db.latest && a.at <= now && k.id == a.id
    requires forall j | j in db.keys && j.id == a.id :: SinceAuto(db.keys[j], a)
    ensures a.id in Next(db, op).latest
    ensures k in Next(db, op).keys ==> SinceAuto(Next(db, op).keys[k], a)
  {
    hide LatestVersion, SoundRow;
  }

  lemma NextKeepsInv(w: World, op: Op)
    requires Inv(w) && Allowed(w.db, op) && op == Stamped(op, w.clock)
    ensures Inv(w.(db := Next(w.db, op)))
  {
    hide Sound, Next, Allowed, DatedRow, SinceAuto, Spaced;
    var w' := w.(db := Next(w.db, op));
    NextKeepsSound(w.db, op);
    forall k | k in w'.db.keys
      ensures DatedRow(w'.db.keys[k], w.clock)
    {
      NextKeepsDates(w.db, op, w.clock, k);
    }
    forall a | a in w'.autos
      ensures Recorded(w', a)
    {
      assert Recorded(w, a);
      forall k: VersionId | k.id == a.id
        ensures a.id in w'.db.latest
        ensures k in w'.db.keys ==> SinceAuto(w'.db.keys[k], a)
      {
        NextKeepsSince(w.db, op, w.clock, k, a);
      }
      assert VersionId(a.id, 1).id == a.id;
    }
  }

  /** A rotation leaves one Active row, created now, and every row with the same period. */
  lemma RotationRenews(db: Db, id: string, material: Option<Bytes>, now: Time, k: VersionId)
    requires Sound(db) && SamePeriod(db, id) && Rotate(db, id, material, now).Ok?
    requires k in Rotate(db, id, material, now).value.keys && k.id == id
    ensures var v := LatestVersion(db, id).value;
            SinceAuto(Rotate(db, id, material, now).value.keys[k], Auto(id, db.keys[VersionId(id, v)].periodDays, now))
  {
    hide LatestVersion, Sound;
    var v := LatestVersion(db, id).value;
    if k.version != v && k.version != v + 1 {
      OnlyLatestActive(db, k, v);
    }
  }

  lemma RotationIsRecorded(w: World, key: VersionId, material: Option<Bytes>)
    requires Inv(w) && Outcome(w.db, OpRotate(key.id, material, w.clock)).Ok?
    requires key in w.todo && SamePeriod(w.db, key.id)
    ensures var w' := Rotated(w, key, material); Recorded(w', w'.autos[|w.autos|])
  {
    hide LatestVersion, Sound, SinceAuto, SamePeriod, Spaced, DatedRow;
    var w' := Rotated(w, key, material);
    forall k | k in w'.db.keys && k.id == key.id
      ensures SinceAuto(w'.db.keys[k], w'.autos[|w.autos|])
    {
      RotationRenews(w.db, key.id, material, w.clock, k);
    }
  }

  lemma OnlyLatestActive(db: Db, k: VersionId, v: int)
    requires Sound(db) && k in db.keys && LatestVersion(db, k.id) == Some(v) && k.version != v
    ensures db.keys[k].state != Active
  {
    hide LatestVersion, Sound;
    LatestWhenSound(db, k.id);
  }

  /** All rows of a key carry the same period. */
  ghost predicate SamePeriod(db: Db, id: string) {
    forall j, k | j in db.keys && k in db.keys && j.id == id && k.id == id ::
      db.keys[j].periodDays == db.keys[k].periodDays
  }

  lemma NextKeepsPeriods(db: Db, op: Op, id: string)
    requires Sound(db) && Allowed(db, op) && SamePeriod(db, id)
    ensures SamePeriod(Next(db, op), id)
  {
    hide LatestVersion, SoundRow;
  }

  lemma RotateNextKeepsInv(w: World, key: VersionId, material: Option<Bytes>)
    requires Inv(w) && key in w.todo && SamePeriod(w.db, key.id)
    ensures Inv(Rotated(w, key, material))
  {
    hide Sound, Next, SamePeriod, LatestVersion, DatedRow, Recorded, Spaced;
    var op := OpRotate(key.id, material, w.clock);
    var w' := Rotated(w, key, material);
    NextKeepsInv(w, op);
    forall a | a in w.autos
      ensures Recorded(w', a)
    {
      HandlingKeepsRecorded(if Outcome(w.db, op).Ok? then w.(db := Next(w.db, op)) else w, w', key, a);
    }
    if Outcome(w.db, op).Ok? {
      RotationIsRecorded(w, key, material);
      var prior := VersionId(key.id, LatestVersion(w.db, key.id).value);
      forall a | a in w.autos
        ensures Spaced(a, w'.autos[|w.autos|])
      {
        NextAutoIsSpaced(w, key, prior, a);
      }
    }
  }

  lemma HandlingKeepsRecorded(w: World, w': World, key: VersionId, a: Auto)
    requires Recorded(w, a) && w' == w.(todo := w.todo - {key}, autos := w'.autos)
    ensures Recorded(w', a)
  {
    hide SinceAuto;
  }

  lemma NextAutoIsSpaced(w: World, key: VersionId, prior: VersionId, a: Auto)
    requires Recorded(w, a) && key in w.todo && prior in w.db.keys && prior.id == key.id
    ensures Spaced(a, Auto(key.id, w.db.keys[prior].periodDays, w.clock))
  {}

  lemma ScanKeepsInv(w: World, n: NodeId)
    requires Inv(w)
    ensures Inv(After(w, Scan(n)))
  {
    hide Sound, LatestVersion, DatedRow, SinceAuto, Spaced;
    var w' := After(w, Scan(n));
    if w.holder == Some(n) {
      forall j, k | j in w'.seen && k in w'.seen && j.id == k.id && w'.seen[j].state == w'.seen[k].state == Active
        ensures j == k
      {
        LatestWhenSound(w.db, j.id);
      }
      forall a | a in w'.autos
        ensures Recorded(w', a)
      {
        assert Recorded(w, a);
      }
    }
  }

  lemma SelectKeepsInv(w: World, n: NodeId)
    requires Inv(w)
    ensures Inv(After(w, Select(n)))
  {
    hide Sound, Spaced;
    var w' := After(w, Select(n));
    forall a | a in w'.autos
      ensures Recorded(w', a)
    {
      assert Recorded(w, a);
    }
  }

  ghost predicate Good(w: World) {
    Inv(w) && forall id :: SamePeriod(w.db, id)
  }

  lemma TickKeepsInv(w: World, d: nat)
    requires Inv(w)
    ensures Inv(After(w, Tick(d)))
  {
    hide Sound, Spaced;
    var w' := After(w, Tick(d));
    forall a | a in w'.autos
      ensures Recorded(w', a)
    {
      assert Recorded(w, a);
    }
  }

  lemma LockKeepsInv(w: World, s: Step)
    requires Inv(w) && (s.Acquire? || s.Release?)
    ensures Inv(After(w, s))
  {
    hide Sound, Spaced;
    var w' := After(w, s);
    forall a | a in w'.autos
      ensures Recorded(w', a)
    {
      assert Recorded(w, a);
    }
  }

  lemma AfterKeepsGood(w: World, s: Step)
    requires Good(w) && Permitted(w, s)
    ensures Good(After(w, s))
  {
    hide Inv, SamePeriod, Next, Outcome;
    match s
    case Scan(n) => ScanKeepsInv(w, n);
    case Select(n) => SelectKeepsInv(w, n);
    case Tick(d) => TickKeepsInv(w, d);
    case RotateNext(n, key, material) =>
      if w.holder == Some(n) && key in w.todo {
        RotateNextKeepsInv(w, key, material);
        PeriodsStay(w, OpRotate(key.id, material, w.clock));
      }
    case Manual(op) =>
      StampedIsAllowed(w, op);
      NextKeepsInv(w, Stamped(op, w.clock));
      PeriodsStay(w, Stamped(op, w.clock));
    case _ => LockKeepsInv(w, s);
  }

  lemma StampedIsAllowed(w: World, op: Op)
    requires Allowed(w.db, op)
    ensures Allowed(w.db, Stamped(op, w.clock)) && Stamped(Stamped(op, w.clock), w.clock) == Stamped(op, w.clock)
  {}

  lemma PeriodsStay(w: World, op: Op)
    requires Good(w) && Allowed(w.db, op)
    ensures forall id :: SamePeriod(Next(w.db, op), id)
  {
    hide SamePeriod, Next, Sound, Allowed;
    forall id
      ensures SamePeriod(Next(w.db, op), id)
    {
      NextKeepsPeriods(w.db, op, id);
    }
  }

  lemma PermittedPrefix(w: World, steps: seq<Step>, len: nat)
    requires len <= |steps| && PermittedRun(w, steps)
    ensures PermittedRun(w, steps[..len])
  {
    forall i | 0 <= i < len
      ensures Permitted(Run(w, steps[..len][..i]), steps[..len][i])
    {
      assert steps[..len][..i] == steps[..i];
    }
  }

  lemma {:induction false} RunKeepsGood(w: World, steps: seq<Step>)
    requires Good(w) && PermittedRun(w, steps)
    ensures Good(Run(w, steps))
    decreases |steps|
  {
    hide Good, Permitted, After;
    if |steps| > 0 {
      var last := |steps| - 1;
      PermittedPrefix(w, steps, last);
      RunKeepsGood(w, steps[..last]);
      AfterKeepsGood(Run(w, steps[..last]), steps[last]);
    }
  }

  lemma StartIsGood()
    ensures Good(START)
  {}

  /**
    In every interleaving, two automatic rotations of one key are at least its
    rotation period apart, whatever is rotated by hand in between.
    */
  lemma AutomaticRotationsAreSpaced(steps: seq<Step>, i: nat, j: nat)
    requires PermittedRun(START, steps)
    requires var autos := Run(START, steps).autos; i < j < |autos| && autos[i].id == autos[j].id
    ensures var autos := Run(START, steps).autos;
            autos[j].period == autos[i].period && autos[j].at >= autos[i].at + autos[i].period * DAY
  {
    hide Run, PermittedRun, Sound;
    StartIsGood();
    RunKeepsGood(START, steps);
    assert Spaced(Run(START, steps).autos[i], Run(START, steps).autos[j]);
  }

  // ---------- Due keys are found and rotated ----------

  /**
    In every reachable world the lock holder lists a row its scan has seen if
    and only if it is Active, has a period, and was created at least that long ago.
    */
  lemma SelectsExactly(steps: seq<Step>, n: NodeId, k: VersionId)
    requires PermittedRun(START, steps)
    requires var w := Run(START, steps); w.holder == Some(n) && k in w.seen
    ensures var w := Run(START, steps);
            var m := w.seen[k];
            k in After(w, Select(n)).todo <==>
            m.state == Active && m.periodDays > 0 && m.createdAt + m.periodDays * 86_400_000_000_000 <= w.clock
  {
    hide Run, PermittedRun, Sound;
    StartIsGood();
    RunKeepsGood(START, steps);
    assert DatedRow(Run(START, steps).seen[k], Run(START, steps).clock);
  }

  lemma {:induction false} RunKeepsNamed(steps: seq<Step>)
    ensures NamedRows(Run(START, steps).db)
    decreases |steps|
  {
    hide NamedRows, Next, Outcome;
    if |steps| == 0 {
      NoRowsNamed();
    } else {
      var last := |steps| - 1;
      var w, s := Run(START, steps[..last]), steps[last];
      RunKeepsNamed(steps[..last]);
      if s.Manual? {
        NextKeepsNamed(w.db, Stamped(s.op, w.clock));
      } else if s.RotateNext? {
        NextKeepsNamed(w.db, OpRotate(s.key.id, s.material, w.clock));
      }
    }
  }

  lemma NoRowsNamed()
    ensures NamedRows(START.db)
  {}

  /** The key has a new Active version with this material, created at this instant; the old one is Deactivated. */
  ghost predicate RotatedTo(db: Db, k: VersionId, material: Bytes, now: Time) {
    var next := VersionId(k.id, k.version + 1);
    && k in db.keys && db.keys[k].state == Deactivated
    && next in db.keys && db.keys[next].state == Active
    && db.keys[next].material == material && db.keys[next].createdAt == now
  }

  lemma RotationSucceeds(db: Db, k: VersionId, material: Bytes, now: Time)
    requires Sound(db) && k in db.keys && db.keys[k].state == Active && k.id != ""
    ensures Outcome(db, OpRotate(k.id, Some(material), now)).Ok?
    ensures RotatedTo(Next(db, OpRotate(k.id, Some(material), now)), k, material, now)
  {
    hide LatestVersion, Sound;
    LatestWhenSound(db, k.id);
  }

  /** In every reachable world, handling a listed key that is still Active rotates it, with the new material, now. */
  lemma ListedKeyIsRotated(steps: seq<Step>, n: NodeId, k: VersionId, material: Bytes)
    requires PermittedRun(START, steps)
    requires var w := Run(START, steps);
             w.holder == Some(n) && k in w.todo && k in w.db.keys && w.db.keys[k].state == Active
    ensures var w := Run(START, steps);
            RotatedTo(After(w, RotateNext(n, k, Some(material))).db, k, material, w.clock)
  {
    hide Run, PermittedRun, Sound, Next, RotatedTo, Outcome;
    StartIsGood();
    RunKeepsGood(START, steps);
    RunKeepsNamed(steps);
    RotationSucceeds(Run(START, steps).db, k, material, Run(START, steps).clock);
  }

  /**
    A pass of any node that finds the lock free, in any reachable world, rotates
    a key it handles if the key is Active and was created a period ago or more.
    */
  lemma DueKeyIsRotated(steps: seq<Step>, n: NodeId, k: VersionId, material: Bytes)
    requires PermittedRun(START, steps)
    requires var w := Run(START, steps);
             && w.holder == None && k in w.db.keys && w.db.keys[k].state == Active && w.db.keys[k].periodDays > 0
             && w.db.keys[k].createdAt + w.db.keys[k].periodDays * 86_400_000_000_000 <= w.clock
    ensures var w := Run(START, steps);
            var listed := After(After(After(w, Acquire(n)), Scan(n)), Select(n));
            RotatedTo(After(listed, RotateNext(n, k, Some(material))).db, k, material, w.clock)
  {
    hide Run, PermittedRun, Sound, Next, RotatedTo, Outcome;
    StartIsGood();
    RunKeepsGood(START, steps);
    RunKeepsNamed(steps);
    var w := Run(START, steps);
    assert DatedRow(w.db.keys[k], w.clock);
    RotationSucceeds(w.db, k, material, w.clock);
  }
}
