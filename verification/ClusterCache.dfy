/**
  Cache invalidation across nodes (internal/lifecycle/manager.go with
  internal/storage/pg_listener.go). A commit that rotates, restores or shreds
  queues the key's id at every listening node in the same instant; delivery
  drops the key's cached versions. A cache miss is two steps, a read of the
  store and a later write to the cache, and a node may have many under way.
  */
module ClusterCache {
  import opened Options
  import opened Clock
  import opened KeyNames
  import opened Lifecycle
  import opened KeyCache
  import opened KeyNode

  type NodeId = int
  type LoadId = int

  /**
    A load that has read the store and not yet written the cache: the row, or
    None for an absent one. It is overtaken once a notification for its key has
    been delivered, or may have been missed, since the read.
    */
  datatype Load = Load(key: VersionId, answer: Option<Metadata>, overtaken: bool)

  datatype Member = Member(cache: Cache, listening: bool, queue: seq<string>, loads: map<LoadId, Load>)

  datatype Cluster = Cluster(db: Db, members: map<NodeId, Member>)

  datatype Event =
    | Commit(op: Op)
    | Fetch(at: NodeId, load: LoadId, key: VersionId)
    | Fill(at: NodeId, load: LoadId, now: Time)
    | Deliver(at: NodeId)
    | InvalidateLocal(at: NodeId, id: string)
    | Drop(at: NodeId)
    | Clear(at: NodeId)
    | Listen(at: NodeId)

  // ---------- Steps of one node ----------

  function Notified(m: Member, id: string): Member {
    if m.listening then m.(queue := m.queue + [id]) else m
  }

  function Invalidated(m: Member, id: string): Member {
    m.(cache := Invalidate(m.cache, id),
       loads := map l | l in m.loads :: m.loads[l].(overtaken := m.loads[l].overtaken || Hit(m.loads[l].key, id)))
  }

  function Stored(db: Db, k: VersionId): Option<Metadata> {
    if k in db.keys then Some(db.keys[k]) else None
  }

  /** The store is read; that the cache had no entry was tested before and may no longer hold. */
  function Fetched(db: Db, m: Member, l: LoadId, k: VersionId): Member {
    if l in m.loads then m else m.(loads := m.loads[l := Load(k, Stored(db, k), !m.listening)])
  }

  /** The positive or the negative side of the cache is written. */
  function Filled(m: Member, l: LoadId, now: Time): Member {
    if l !in m.loads then m
    else
      var load := m.loads[l];
      var cache :=
        if load.answer.Some? then Put(m.cache, load.key, load.answer.value) else PutNegative(m.cache, load.key, now);
      m.(cache := cache, loads := m.loads - {l})
  }

  /** The listener skips an empty payload. */
  function Delivered(m: Member): Member {
    if m.queue == [] then m
    else
      var m' := m.(queue := m.queue[1..]);
      if m.queue[0] == "" then m' else Invalidated(m', m.queue[0])
  }

  /** The session is lost with what it had queued: every load under way may miss a notification. */
  function Dropped(m: Member): Member {
    m.(listening := false, queue := [], loads := map l | l in m.loads :: m.loads[l].(overtaken := true))
  }

  function AtMember(db: Db, m: Member, e: Event): Member {
    match e
    case Commit(op) => if Invalidates(db, op) then Notified(m, op.id) else m
    case Fetch(_, l, k) => Fetched(db, m, l, k)
    case Fill(_, l, now) => Filled(m, l, now)
    case Deliver(_) => Delivered(m)
    case InvalidateLocal(_, id) => m.(cache := Invalidate(m.cache, id))
    case Drop(_) => Dropped(m)
    case Clear(_) => m.(cache := NO_CACHE)
    case Listen(_) => m.(listening := true)
  }

  function After(c: Cluster, e: Event): Cluster {
    if e.Commit? then
      Cluster(Next(c.db, e.op), map n | n in c.members :: AtMember(c.db, c.members[n], e))
    else if e.at in c.members then
      c.(members := c.members[e.at := AtMember(c.db, c.members[e.at], e)])
    else c
  }

  function Run(c: Cluster, events: seq<Event>): Cluster
    decreases |events|
  {
    if |events| == 0 then c else After(Run(c, events[..|events| - 1]), events[|events| - 1])
  }

  // ---------- The invariant of one node ----------

  /** A row agrees with the store up to a soft-delete mark; "absent" is right, but for a version 1 just created. */
  ghost predicate Right(db: Db, k: VersionId, answer: Option<Metadata>) {
    match answer
    case Some(row) => k in db.keys && Agrees(db.keys[k], row)
    case None => k in db.keys ==> k.version == 1
  }

  /** The answer is right, or its key's notification is on the way. */
  ghost predicate Covered(db: Db, m: Member, k: VersionId, answer: Option<Metadata>) {
    Right(db, k, answer) || k.id in m.queue
  }

  ghost predicate Flagged(db: Db, m: Member) {
    && (forall k | k in m.cache.data :: Covered(db, m, k, Some(m.cache.data[k])))
    && (forall k | k in m.cache.negative :: Covered(db, m, k, None))
    && (forall l | l in m.loads && !m.loads[l].overtaken :: Covered(db, m, m.loads[l].key, m.loads[l].answer))
  }

  /** Every row has a named key, so no notification is ever skipped. */
  ghost predicate Healthy(c: Cluster, n: NodeId) {
    && Sound(c.db) && NamedRows(c.db)
    && n in c.members && c.members[n].listening && "" !in c.members[n].queue
    && Flagged(c.db, c.members[n])
  }

  /** The session of n stays up, and n caches no answer that was overtaken while it was being read. */
  ghost predicate Regular(c: Cluster, n: NodeId, e: Event) {
    && (e.Commit? ==> Allowed(c.db, e.op))
    && (e.Drop? ==> e.at != n)
    && (e.Fill? && e.at == n && n in c.members && e.load in c.members[n].loads ==>
          !c.members[n].loads[e.load].overtaken)
  }

  ghost predicate RegularRun(c: Cluster, n: NodeId, events: seq<Event>) {
    forall i | 0 <= i < |events| :: Regular(Run(c, events[..i]), n, events[i])
  }

  // ---------- Every step keeps it ----------

  /** A commit that does not announce the key leaves every right answer about it right. */
  lemma UnmarkedStaysRight(db: Db, op: Op, k: VersionId, answer: Option<Metadata>)
    requires Sound(db) && Allowed(db, op) && (Invalidates(db, op) ==> k.id != op.id) && Right(db, k, answer)
    ensures Right(Next(db, op), k, answer)
  {
    hide LatestVersion, SoundRow;
    if k in db.keys {
      LiveRow(db, k);
    }
  }

  lemma CommitKeepsCovered(db: Db, m: Member, op: Op, k: VersionId, answer: Option<Metadata>)
    requires Sound(db) && Allowed(db, op) && m.listening && Covered(db, m, k, answer)
    ensures Covered(Next(db, op), AtMember(db, m, Commit(op)), k, answer)
  {
    hide Next, Invalidates, Right, Sound, Allowed;
    var m' := AtMember(db, m, Commit(op));
    if Invalidates(db, op) {
      assert m'.queue[|m.queue|] == op.id;
      assert forall i | 0 <= i < |m.queue| :: m'.queue[i] == m.queue[i];
    }
    if k.id !in m'.queue {
      UnmarkedStaysRight(db, op, k, answer);
    }
  }

  lemma CommitKeepsFlagged(db: Db, m: Member, op: Op)
    requires Sound(db) && Allowed(db, op) && m.listening && Flagged(db, m)
    ensures Flagged(Next(db, op), AtMember(db, m, Commit(op)))
  {
    hide Next, Invalidates, Covered, Sound, Allowed;
    forall k, answer | Covered(db, m, k, answer)
      ensures Covered(Next(db, op), AtMember(db, m, Commit(op)), k, answer)
    {
      CommitKeepsCovered(db, m, op, k, answer);
    }
  }

  lemma DeliverKeepsCovered(db: Db, m: Member, k: VersionId, answer: Option<Metadata>)
    requires m.queue != [] && m.queue[0] != k.id && Covered(db, m, k, answer)
    ensures Covered(db, Delivered(m), k, answer)
  {
    hide Right, Invalidate;
    assert forall other | other in m.queue && other != m.queue[0] :: other in m.queue[1..];
  }

  lemma DeliverKeepsFlagged(db: Db, m: Member)
    requires Flagged(db, m) && "" !in m.queue
    ensures Flagged(db, Delivered(m)) && "" !in Delivered(m).queue
  {
    hide Covered, Invalidate, Hit;
    if m.queue != [] {
      var id, m' := m.queue[0], Delivered(m);
      assert id in m.queue;
      InvalidateClears(m.cache, id);
      HitAll(id);
      forall k: VersionId, answer | k.id != id && Covered(db, m, k, answer)
        ensures Covered(db, m', k, answer)
      {
        DeliverKeepsCovered(db, m, k, answer);
      }
    }
  }

  lemma HitAll(id: string)
    ensures forall k: VersionId | k.id == id :: Hit(k, id)
  {
    forall k: VersionId | k.id == id
      ensures Hit(k, id)
    {
      PrefixCovers(id, k.version);
    }
  }

  lemma FetchIsRight(db: Db, m: Member, k: VersionId)
    ensures Covered(db, m, k, Stored(db, k))
  {}

  /** Coverage looks at the member's queue only. */
  lemma SameQueue(db: Db, m: Member, m': Member)
    requires m'.queue == m.queue
    ensures forall k, answer :: Covered(db, m, k, answer) <==> Covered(db, m', k, answer)
  {}

  lemma LocalKeepsFlagged(db: Db, m: Member, e: Event)
    requires Flagged(db, m) && "" !in m.queue && !e.Commit? && !e.Drop?
    requires e.Fill? && e.load in m.loads ==> !m.loads[e.load].overtaken
    ensures Flagged(db, AtMember(db, m, e)) && "" !in AtMember(db, m, e).queue
  {
    hide Invalidate, Hit, Covered, Delivered;
    if e.Deliver? {
      DeliverKeepsFlagged(db, m);
    } else {
      SameQueue(db, m, AtMember(db, m, e));
      if e.InvalidateLocal? {
        InvalidateClears(m.cache, e.id);
      } else if e.Fetch? {
        FetchIsRight(db, m, e.key);
      }
    }
  }

  lemma StepKeepsHealthy(c: Cluster, n: NodeId, e: Event)
    requires Healthy(c, n) && Regular(c, n, e)
    ensures Healthy(After(c, e), n)
  {
    hide Flagged, Sound, Next, NamedRows, Invalidates;
    if e.Commit? {
      NextKeepsSound(c.db, e.op);
      NextKeepsNamed(c.db, e.op);
      CommitKeepsFlagged(c.db, c.members[n], e.op);
      MarkedIsNamed(c.db, e.op);
    } else if e.at == n {
      LocalKeepsFlagged(c.db, c.members[n], e);
    }
  }

  lemma MarkedIsNamed(db: Db, op: Op)
    requires NamedRows(db)
    ensures Invalidates(db, op) ==> op.id != ""
  {
    hide LatestVersion;
  }

  lemma RegularPrefix(c: Cluster, n: NodeId, events: seq<Event>, len: nat)
    requires len <= |events| && RegularRun(c, n, events)
    ensures RegularRun(c, n, events[..len])
  {
    forall i | 0 <= i < len
      ensures Regular(Run(c, events[..len][..i]), n, events[..len][i])
    {
      assert events[..len][..i] == events[..i];
    }
  }

  /** In every run each entry that disagrees with the store is announced in the node's queue. */
  lemma {:induction false} RunKeepsHealthy(c: Cluster, n: NodeId, events: seq<Event>)
    requires Healthy(c, n) && RegularRun(c, n, events)
    ensures Healthy(Run(c, events), n)
    decreases |events|
  {
    hide Healthy, Regular, After;
    if |events| > 0 {
      var last := |events| - 1;
      RegularPrefix(c, n, events, last);
      RunKeepsHealthy(c, n, events[..last]);
      StepKeepsHealthy(Run(c, events[..last]), n, events[last]);
    }
  }

  // ---------- Draining the queue ----------

  function Drained(m: Member): Member
    decreases |m.queue|
  {
    if m.queue == [] then m else Drained(Delivered(m))
  }

  lemma {:induction false} DrainKeepsFlagged(db: Db, m: Member)
    requires Flagged(db, m) && "" !in m.queue
    ensures Flagged(db, Drained(m)) && Drained(m).queue == []
    decreases |m.queue|
  {
    hide Flagged, Invalidate;
    if m.queue != [] {
      DeliverKeepsFlagged(db, m);
      DrainKeepsFlagged(db, Delivered(m));
    }
  }

  /**
    Once a node has handled its notifications, every entry it caches agrees
    with the store up to a soft-delete mark, whatever all nodes did before.
    */
  lemma DrainingRestoresAgreement(c: Cluster, n: NodeId, events: seq<Event>, k: VersionId)
    requires Healthy(c, n) && RegularRun(c, n, events)
    ensures var c' := Run(c, events);
            && n in c'.members
            && var cache := Drained(c'.members[n]).cache;
               && (k in cache.data ==> k in c'.db.keys && Agrees(c'.db.keys[k], cache.data[k]))
               && (k in cache.negative && k in c'.db.keys ==> k.version == 1)
  {
    hide Run, RegularRun, Drained, Agrees, Sound;
    RunKeepsHealthy(c, n, events);
    var c' := Run(c, events);
    DrainKeepsFlagged(c'.db, c'.members[n]);
  }

  // ---------- Answers that were overtaken ----------

  /**
    Caching an answer leaves a healthy node healthy if and only if the answer
    is still right or its key's notification is still queued.
    */
  lemma FillIsHealthyExactly(c: Cluster, n: NodeId, l: LoadId, now: Time)
    requires Healthy(c, n) && l in c.members[n].loads
    ensures var load := c.members[n].loads[l];
            Healthy(After(c, Fill(n, l, now)), n) <==> Covered(c.db, c.members[n], load.key, load.answer)
  {
    hide Sound, Covered;
    var m, m' := c.members[n], After(c, Fill(n, l, now)).members[n];
    SameQueue(c.db, m, m');
    if m.loads[l].answer.Some? {
      assert m'.cache.data[m.loads[l].key] == m.loads[l].answer.value;
    } else {
      assert m.loads[l].key in m'.cache.negative;
    }
  }

  /** On a healthy node only an overtaken answer can fail that test. */
  lemma OnlyOvertakenFillsFail(c: Cluster, n: NodeId, l: LoadId, now: Time)
    requires Healthy(c, n) && l in c.members[n].loads && !Healthy(After(c, Fill(n, l, now)), n)
    ensures c.members[n].loads[l].overtaken
  {
    hide Sound, Covered, After;
    FillIsHealthyExactly(c, n, l, now);
  }

  /** A row that was shredded after it was read, with the notification handled, always breaks the node. */
  lemma OvertakenFillServesShredded(c: Cluster, n: NodeId, l: LoadId, now: Time)
    requires Healthy(c, n) && l in c.members[n].loads && c.members[n].loads[l].answer.Some?
    requires var k := c.members[n].loads[l].key; k !in c.db.keys && k.id !in c.members[n].queue
    ensures var c', k := After(c, Fill(n, l, now)), c.members[n].loads[l].key;
            !Healthy(c', n) && k in c'.members[n].cache.data && k !in c'.db.keys && k.id !in c'.members[n].queue
  {
    hide Sound, Agrees;
    FillIsHealthyExactly(c, n, l, now);
  }

  /** A version that a rotation created after it was looked up in vain is hidden in the same way. */
  lemma OvertakenMissHidesRotated(c: Cluster, n: NodeId, l: LoadId, now: Time)
    requires Healthy(c, n) && l in c.members[n].loads && c.members[n].loads[l].answer.None?
    requires var k := c.members[n].loads[l].key; k in c.db.keys && k.version != 1 && k.id !in c.members[n].queue
    ensures var c', k := After(c, Fill(n, l, now)), c.members[n].loads[l].key;
            && !Healthy(c', n) && IsNegative(c'.members[n].cache, k, now)
            && k in c'.db.keys && k.id !in c'.members[n].queue
  {
    hide Sound, Agrees;
    FillIsHealthyExactly(c, n, l, now);
  }

  /** Both are reached from every healthy node without pending notifications. */
  lemma OvertakenFillIsReachable(c: Cluster, n: NodeId, l: LoadId, k: VersionId, op: Op)
    requires Healthy(c, n) && c.members[n].queue == [] && l !in c.members[n].loads
    requires Allowed(c.db, op) && Invalidates(c.db, op) && op.id == k.id
    ensures var committed := After(After(c, Fetch(n, l, k)), Commit(op));
            var overtaken := After(committed, Deliver(n));
            && Healthy(overtaken, n) && overtaken.db == Next(c.db, op) && overtaken.members[n].queue == []
            && l in overtaken.members[n].loads
            && overtaken.members[n].loads[l] == Load(k, Stored(c.db, k), true)
  {
    hide Sound, Covered, Invalidate, Hit, Flagged, Next, Invalidates, Allowed;
    var c1 := After(c, Fetch(n, l, k));
    StepKeepsHealthy(c, n, Fetch(n, l, k));
    var c2 := After(c1, Commit(op));
    StepKeepsHealthy(c1, n, Commit(op));
    StepKeepsHealthy(c2, n, Deliver(n));
    assert c2.members[n].queue == [op.id];
    HitAll(op.id);
  }

  // ---------- Reconnecting ----------

  /** A session that is down: nothing queued, and every load counts as overtaken. */
  ghost predicate Down(m: Member) {
    !m.listening && m.queue == [] && forall l | l in m.loads :: m.loads[l].overtaken
  }

  /** Clearing the cache once the new session is up repairs a node whatever it held. */
  lemma ClearAfterListenRepairs(c: Cluster, n: NodeId)
    requires Sound(c.db) && NamedRows(c.db) && n in c.members && Down(c.members[n])
    ensures Healthy(After(After(c, Listen(n)), Clear(n)), n)
  {
    hide Sound, NamedRows;
  }

  /** Every cached answer is right. */
  ghost predicate Fresh(db: Db, m: Member) {
    && (forall k | k in m.cache.data :: Right(db, k, Some(m.cache.data[k])))
    && (forall k | k in m.cache.negative :: Right(db, k, None))
  }

  /** A node that starts to listen is healthy if and only if every answer it has cached is right. */
  lemma ListenIsHealthyExactly(c: Cluster, n: NodeId)
    requires Sound(c.db) && NamedRows(c.db) && n in c.members && Down(c.members[n])
    ensures Healthy(After(c, Listen(n)), n) <==> Fresh(c.db, c.members[n])
  {
    hide Sound, NamedRows, Right;
    var m' := After(c, Listen(n)).members[n];
    forall k, answer
      ensures Covered(c.db, m', k, answer) <==> Right(c.db, k, answer)
    {}
  }

  /** Whatever a disconnected node caches and is then shredded elsewhere is served after the reconnect. */
  lemma ReconnectGapServesShredded(c: Cluster, n: NodeId, k: VersionId)
    requires Sound(c.db) && NamedRows(c.db) && k in c.db.keys
    requires n in c.members && Down(c.members[n]) && k in c.members[n].cache.data
    ensures var c' := After(After(c, Commit(OpShred(k.id, k.version))), Listen(n));
            && !Healthy(c', n) && k !in c'.db.keys
            && c'.members[n].listening && c'.members[n].queue == [] && k in c'.members[n].cache.data
  {
    hide Agrees, SoundRow;
    NextKeepsSound(c.db, OpShred(k.id, k.version));
    NextKeepsNamed(c.db, OpShred(k.id, k.version));
    var c1 := After(c, Commit(OpShred(k.id, k.version)));
    assert c1.members[n] == c.members[n];
    ListenIsHealthyExactly(c1, n);
  }

  // ---------- The gap as a run ----------

  predicate Looks(e: Event, n: NodeId) {
    e.Fetch? && e.at == n
  }

  predicate Announces(db: Db, e: Event, id: string) {
    e.Commit? && Invalidates(db, e.op) && e.op.id == id
  }

  /**
    No key that n looks up in the gap is announced later in the gap, n caches
    nothing it read before the gap, and the new session is not yet up.
    */
  ghost predicate Quiet(c: Cluster, n: NodeId, events: seq<Event>)
    requires n in c.members
  {
    && (forall i, j | 0 <= i < j < |events| && Looks(events[i], n) ::
          !Announces(Run(c, events[..j]).db, events[j], events[i].key.id))
    && (forall i | 0 <= i < |events| ::
          && (events[i].Commit? ==> Allowed(Run(c, events[..i]).db, events[i].op))
          && events[i] != Listen(n)
          && (events[i].Fill? && events[i].at == n ==> events[i].load !in c.members[n].loads))
  }

  ghost predicate LookedUp(events: seq<Event>, n: NodeId, k: VersionId) {
    exists i | 0 <= i < |events| :: Looks(events[i], n) && events[i].key == k
  }

  /** An answer that n read in the gap and that is right. */
  ghost predicate Good(db: Db, events: seq<Event>, n: NodeId, k: VersionId, answer: Option<Metadata>) {
    LookedUp(events, n, k) && Right(db, k, answer)
  }

  ghost predicate InGap(db: Db, m: Member, events: seq<Event>, n: NodeId, early: set<LoadId>) {
    && Down(m)
    && (forall k | k in m.cache.data :: Good(db, events, n, k, Some(m.cache.data[k])))
    && (forall k | k in m.cache.negative :: Good(db, events, n, k, None))
    && (forall l | l in m.loads && l !in early :: Good(db, events, n, m.loads[l].key, m.loads[l].answer))
  }

  lemma LongerLookedUp(events: seq<Event>, e: Event, n: NodeId, k: VersionId)
    ensures LookedUp(events, n, k) ==> LookedUp(events + [e], n, k)
    ensures Looks(e, n) && e.key == k ==> LookedUp(events + [e], n, k)
  {
    if LookedUp(events, n, k) {
      var i :| 0 <= i < |events| && Looks(events[i], n) && events[i].key == k;
      assert (events + [e])[i] == events[i];
    }
    assert (events + [e])[|events|] == e;
  }

  lemma CommitKeepsGood(db: Db, events: seq<Event>, n: NodeId, k: VersionId, answer: Option<Metadata>, op: Op)
    requires Sound(db) && Allowed(db, op) && Good(db, events, n, k, answer)
    requires forall i | 0 <= i < |events| && Looks(events[i], n) :: !Announces(db, Commit(op), events[i].key.id)
    ensures Good(Next(db, op), events + [Commit(op)], n, k, answer)
  {
    hide Right, Next, Invalidates, Allowed, Sound;
    LongerLookedUp(events, Commit(op), n, k);
    UnmarkedStaysRight(db, op, k, answer);
  }

  lemma CommitKeepsInGap(db: Db, m: Member, events: seq<Event>, n: NodeId, early: set<LoadId>, op: Op)
    requires Sound(db) && Allowed(db, op) && InGap(db, m, events, n, early)
    requires forall i | 0 <= i < |events| && Looks(events[i], n) :: !Announces(db, Commit(op), events[i].key.id)
    ensures InGap(Next(db, op), AtMember(db, m, Commit(op)), events + [Commit(op)], n, early)
  {
    hide Good, Next, Invalidates, Allowed, Sound, Announces;
    forall k, answer | Good(db, events, n, k, answer)
      ensures Good(Next(db, op), events + [Commit(op)], n, k, answer)
    {
      CommitKeepsGood(db, events, n, k, answer, op);
    }
  }

  lemma LongerGood(db: Db, events: seq<Event>, e: Event, n: NodeId)
    ensures forall k, answer | Good(db, events, n, k, answer) :: Good(db, events + [e], n, k, answer)
    ensures Looks(e, n) ==> Good(db, events + [e], n, e.key, Stored(db, e.key))
  {
    hide LookedUp, Agrees;
    forall k, answer | Good(db, events, n, k, answer)
      ensures Good(db, events + [e], n, k, answer)
    {
      LongerLookedUp(events, e, n, k);
    }
    if Looks(e, n) {
      LongerLookedUp(events, e, n, e.key);
      SelfAgrees(db, e.key);
    }
  }

  lemma SelfAgrees(db: Db, k: VersionId)
    ensures Right(db, k, Stored(db, k))
  {}

  lemma LocalKeepsInGap(db: Db, m: Member, events: seq<Event>, n: NodeId, early: set<LoadId>, e: Event)
    requires InGap(db, m, events, n, early) && !e.Commit? && e != Listen(n)
    requires e.Fill? && e.at == n ==> e.load !in early
    ensures InGap(db, if e.at == n then AtMember(db, m, e) else m, events + [e], n, early)
  {
    hide Good, Invalidate, Hit;
    LongerGood(db, events, e, n);
    if e.InvalidateLocal? {
      InvalidateClears(m.cache, e.id);
    }
  }

  lemma {:induction false} RunKeepsInGap(c: Cluster, n: NodeId, events: seq<Event>)
    requires Sound(c.db) && NamedRows(c.db) && n in c.members && Quiet(c, n, events)
    requires InGap(c.db, c.members[n], [], n, c.members[n].loads.Keys)
    ensures var c' := Run(c, events);
            && Sound(c'.db) && NamedRows(c'.db) && n in c'.members
            && InGap(c'.db, c'.members[n], events, n, c.members[n].loads.Keys)
    decreases |events|
  {
    hide Sound, NamedRows, InGap, Announces, Next, AtMember, Allowed;
    if |events| > 0 {
      var last := |events| - 1;
      var before, e, early := Run(c, events[..last]), events[last], c.members[n].loads.Keys;
      QuietPrefix(c, n, events, last);
      RunKeepsInGap(c, n, events[..last]);
      assert events[..last] + [e] == events;
      if e.Commit? {
        assert forall i | 0 <= i < last :: events[..last][i] == events[i];
        CommitKeepsInGap(before.db, before.members[n], events[..last], n, early, e.op);
        NextKeepsSound(before.db, e.op);
        NextKeepsNamed(before.db, e.op);
      } else {
        LocalKeepsInGap(before.db, before.members[n], events[..last], n, early, e);
      }
    }
  }

  lemma QuietPrefix(c: Cluster, n: NodeId, events: seq<Event>, len: nat)
    requires n in c.members && len <= |events| && Quiet(c, n, events)
    ensures Quiet(c, n, events[..len])
  {
    hide Run, Announces, Allowed;
    assert forall i | 0 <= i < len :: events[..len][i] == events[i] && events[..len][..i] == events[..i];
  }

  /**
    The listener's order, clear first and LISTEN afterwards, is harmless if no
    key the node looked up in the gap was rotated, restored or shredded in the
    rest of it, whatever else all nodes did.
    */
  lemma QuietGapIsHarmless(c: Cluster, n: NodeId, events: seq<Event>)
    requires Sound(c.db) && NamedRows(c.db) && n in c.members
    requires Quiet(After(After(c, Drop(n)), Clear(n)), n, events)
    ensures Healthy(After(Run(After(After(c, Drop(n)), Clear(n)), events), Listen(n)), n)
  {
    var c1 := After(After(c, Drop(n)), Clear(n));
    assert InGap(c1.db, c1.members[n], [], n, c1.members[n].loads.Keys);
    hide Sound, NamedRows, Quiet, Run, LookedUp, Right;
    RunKeepsInGap(c1, n, events);
    ListenIsHealthyExactly(Run(c1, events), n);
  }
}
