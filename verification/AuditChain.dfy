/**
  The audit log (internal/audit/chain.go, logger.go and query.go). Record chains
  and numbers an entry under a lock and writes it out later, so entries reach
  the files in any order; Query reads the files back, sorts by number and
  verifies. The keyed hash and the JSON codec are parameters; hex is the identity.
  */
module AuditChain {
  import opened Options
  import opened Clock
  import opened Gf256

  const SIGNATURE_SIZE := 32
  const DEFAULT_LIMIT := 100

  datatype Entry = Entry(timestamp: Time, actor: string, action: string, resource: string, outcome: string)

  datatype Suite = Suite(mac: Bytes -> Bytes, encode: Entry -> Bytes, decode: Bytes -> Option<Entry>)

  ghost predicate Lawful(s: Suite) {
    && (forall x :: |s.mac(x)| == SIGNATURE_SIZE)
    && (forall e :: s.decode(s.encode(e)) == Some(e))
  }

  datatype Envelope = Envelope(payload: Bytes, signature: Bytes, prev: Bytes, chainSeq: nat)

  // ---------- The chain ----------

  /** The end of the chain over the entries. */
  function End(s: Suite, anchor: Bytes, entries: seq<Entry>): Bytes
    decreases |entries|
  {
    if |entries| == 0 then anchor
    else s.mac(End(s, anchor, entries[..|entries| - 1]) + s.encode(entries[|entries| - 1]))
  }

  /** The envelope of entry number n, counting from 1. */
  function Link(s: Suite, anchor: Bytes, entries: seq<Entry>, n: nat): Envelope
    requires 1 <= n <= |entries|
  {
    Envelope(s.encode(entries[n - 1]), End(s, anchor, entries[..n]), End(s, anchor, entries[..n - 1]), n)
  }

  /** verifyChainEntry: the signature is that of the entry's own predecessor field and payload. */
  predicate Verifies(s: Suite, e: Envelope) {
    s.mac(e.prev + e.payload) == e.signature
  }

  lemma LinkVerifies(s: Suite, anchor: Bytes, entries: seq<Entry>, n: nat)
    requires 1 <= n <= |entries|
    ensures Verifies(s, Link(s, anchor, entries, n))
  {
    assert entries[..n][..n - 1] == entries[..n - 1];
  }

  lemma LongerChain(s: Suite, anchor: Bytes, entries: seq<Entry>, e: Entry, n: nat)
    requires 1 <= n <= |entries|
    ensures Link(s, anchor, entries + [e], n) == Link(s, anchor, entries, n)
  {
    assert (entries + [e])[..n] == entries[..n];
    assert (entries + [e])[..n - 1] == entries[..n - 1];
  }

  class AuditLogger {
    const suite: Suite
    var lastSignature: Bytes
    var chainSeq: nat

    constructor (suite: Suite, anchor: Bytes)
      ensures this.suite == suite && lastSignature == anchor && chainSeq == 0
    {
      this.suite, lastSignature, chainSeq := suite, anchor, 0;
    }

    /** The critical section of Record: every call extends the chain by the next link. */
    method ChainEntry(entry: Entry, ghost anchor: Bytes, ghost entries: seq<Entry>) returns (env: Envelope)
      requires lastSignature == End(suite, anchor, entries) && chainSeq == |entries|
      modifies this
      ensures lastSignature == End(suite, anchor, entries + [entry]) && chainSeq == |entries| + 1
      ensures env == Link(suite, anchor, entries + [entry], chainSeq)
    {
      var payload := suite.encode(entry);
      var prev := lastSignature;
      var sig := suite.mac(lastSignature + payload);
      lastSignature := sig;
      chainSeq := chainSeq + 1;
      env := Envelope(payload, sig, prev, chainSeq);
      assert (entries + [entry])[..|entries|] == entries;
      assert (entries + [entry])[..|entries| + 1] == entries + [entry];
    }
  }

  // ---------- Queries ----------

  datatype Filter = Filter(start: Option<Time>, end: Option<Time>, actor: string, action: string, limit: int)

  const EVERYTHING := Filter(None, None, "", "", -1)

  datatype Hit = Hit(envelope: Envelope, entry: Entry, valid: bool)

  predicate Matches(e: Entry, f: Filter) {
    && (f.start.Some? ==> !(e.timestamp < f.start.value))
    && (f.end.Some? ==> !(e.timestamp > f.end.value))
    && (f.actor != "" ==> e.actor == f.actor)
    && (f.action != "" ==> e.action == f.action)
  }

  function HitOf(s: Suite, f: Filter, env: Envelope): seq<Hit> {
    var entry := s.decode(env.payload);
    if entry.Some? && Matches(entry.value, f) then [Hit(env, entry.value, false)] else []
  }

  function Hits(s: Suite, f: Filter, log: seq<Envelope>): seq<Hit>
    decreases |log|
  {
    if |log| == 0 then [] else Hits(s, f, log[..|log| - 1]) + HitOf(s, f, log[|log| - 1])
  }

  function Flat(files: seq<seq<Envelope>>): seq<Envelope>
    decreases |files|
  {
    if |files| == 0 then [] else Flat(files[..|files| - 1]) + files[|files| - 1]
  }

  function Limited(hits: seq<Hit>, limit: int): seq<Hit> {
    var n := if limit == 0 then DEFAULT_LIMIT else limit;
    if n > 0 && |hits| > n then hits[|hits| - n..] else hits
  }

  function Flagged(s: Suite, hits: seq<Hit>): seq<Hit> {
    seq(|hits|, i requires 0 <= i < |hits| => hits[i].(valid := Verifies(s, hits[i].envelope)))
  }

  ghost predicate Ordered(hits: seq<Hit>) {
    forall i, j | 0 <= i < j < |hits| :: hits[i].envelope.chainSeq <= hits[j].envelope.chainSeq
  }

  /** Some arrangement in ascending order: the sort is not stable. */
  ghost predicate Arranges(hits: seq<Hit>, sorted: seq<Hit>) {
    Ordered(sorted) && multiset(sorted) == multiset(hits)
  }

  ghost predicate Answers(s: Suite, files: seq<seq<Envelope>>, f: Filter, results: seq<Hit>) {
    exists sorted :: Arranges(Hits(s, f, Flat(files)), sorted) && results == Flagged(s, Limited(sorted, f.limit))
  }

  lemma {:induction false} HitsAppend(s: Suite, f: Filter, a: seq<Envelope>, b: seq<Envelope>)
    ensures Hits(s, f, a + b) == Hits(s, f, a) + Hits(s, f, b)
    decreases |b|
  {
    hide HitOf;
    if |b| == 0 {
      assert a + b == a;
    } else {
      var c := b[..|b| - 1];
      assert (a + b)[..|a + b| - 1] == a + c;
      HitsAppend(s, f, a, c);
    }
  }

  method ParseFile(s: Suite, f: Filter, file: seq<Envelope>) returns (hits: seq<Hit>)
    ensures hits == Hits(s, f, file)
  {
    hits := [];
    for i := 0 to |file|
      invariant hits == Hits(s, f, file[..i])
    {
      assert file[..i + 1][..i] == file[..i];
      var entry := s.decode(file[i].payload);
      if entry.None? {
        continue;
      }
      if !Matches(entry.value, f) {
        continue;
      }
      hits := hits + [Hit(file[i], entry.value, false)];
    }
    assert file[..|file|] == file;
  }

  /** Where h goes: after the last entry with a number not above its own. */
  method Place(sorted: seq<Hit>, h: Hit) returns (k: nat)
    ensures k <= |sorted|
    ensures k > 0 ==> sorted[k - 1].envelope.chainSeq <= h.envelope.chainSeq
    ensures forall j | k <= j < |sorted| :: h.envelope.chainSeq <= sorted[j].envelope.chainSeq
  {
    k := |sorted|;
    while k > 0 && sorted[k - 1].envelope.chainSeq > h.envelope.chainSeq
      invariant 0 <= k <= |sorted|
      invariant forall j | k <= j < |sorted| :: h.envelope.chainSeq <= sorted[j].envelope.chainSeq
    {
      k := k - 1;
    }
  }

  method SortBySeq(hits: seq<Hit>) returns (sorted: seq<Hit>)
    ensures Arranges(hits, sorted)
  {
    sorted := [];
    for i := 0 to |hits|
      invariant Arranges(hits[..i], sorted)
    {
      var k := Place(sorted, hits[i]);
      InsertArranges(hits[..i], sorted, k, hits[i]);
      assert hits[..i + 1] == hits[..i] + [hits[i]];
      sorted := sorted[..k] + [hits[i]] + sorted[k..];
    }
    assert hits[..|hits|] == hits;
  }

  lemma InsertArranges(hits: seq<Hit>, sorted: seq<Hit>, k: nat, h: Hit)
    requires Arranges(hits, sorted) && k <= |sorted|
    requires k > 0 ==> sorted[k - 1].envelope.chainSeq <= h.envelope.chainSeq
    requires forall j | k <= j < |sorted| :: h.envelope.chainSeq <= sorted[j].envelope.chainSeq
    ensures Arranges(hits + [h], sorted[..k] + [h] + sorted[k..])
  {
    InsertMultiset(sorted, k, h);
    InsertOrdered(sorted, k, h);
  }

  lemma InsertMultiset<T>(xs: seq<T>, k: nat, x: T)
    requires k <= |xs|
    ensures multiset(xs[..k] + [x] + xs[k..]) == multiset(xs) + multiset{x}
  {
    assert xs == xs[..k] + xs[k..];
  }

  lemma InsertOrdered(sorted: seq<Hit>, k: nat, h: Hit)
    requires Ordered(sorted) && k <= |sorted|
    requires k > 0 ==> sorted[k - 1].envelope.chainSeq <= h.envelope.chainSeq
    requires forall j | k <= j < |sorted| :: h.envelope.chainSeq <= sorted[j].envelope.chainSeq
    ensures Ordered(sorted[..k] + [h] + sorted[k..])
  {
    var r := sorted[..k] + [h] + sorted[k..];
    forall i, j | 0 <= i < j < |r|
      ensures r[i].envelope.chainSeq <= r[j].envelope.chainSeq
    {
      assert r[i] == if i < k then sorted[i] else if i == k then h else sorted[i - 1];
      assert r[j] == if j < k then sorted[j] else if j == k then h else sorted[j - 1];
    }
  }

  /** Query reads, sorts, keeps the last entries and verifies each. */
  method Query(s: Suite, files: seq<seq<Envelope>>, filter: Filter) returns (results: seq<Hit>)
    ensures Answers(s, files, filter, results)
  {
    hide Arranges, Hits;
    var limit := filter.limit;
    if limit == 0 {
      limit := DEFAULT_LIMIT;
    }
    var hits := [];
    NoHits(s, filter);
    for i := 0 to |files|
      invariant hits == Hits(s, filter, Flat(files[..i]))
    {
      var more := ParseFile(s, filter, files[i]);
      assert files[..i + 1][..i] == files[..i];
      HitsAppend(s, filter, Flat(files[..i]), files[i]);
      hits := hits + more;
    }
    assert files[..|files|] == files;
    results := SortBySeq(hits);
    ghost var sorted := results;
    if limit > 0 && |results| > limit {
      results := results[|results| - limit..];
    }
    ghost var kept := results;
    assert kept == Limited(sorted, filter.limit);
    for i := 0 to |results|
      invariant |results| == |kept|
      invariant forall j | 0 <= j < i :: results[j] == kept[j].(valid := Verifies(s, kept[j].envelope))
      invariant forall j | i <= j < |kept| :: results[j] == kept[j]
    {
      results := results[i := results[i].(valid := Verifies(s, results[i].envelope))];
    }
    assert results == Flagged(s, kept);
  }

  lemma NoHits(s: Suite, f: Filter)
    ensures Hits(s, f, Flat([])) == []
  {}

  // ---------- Concurrent Record calls ----------

  type CallId = int

  /** pending holds envelopes that are chained and not yet written; lost counts failed writes. */
  datatype World = World(
    last: Bytes, entries: seq<Entry>, pending: map<CallId, Envelope>, files: seq<seq<Envelope>>, lost: nat)

  datatype Step =
    | Chain(call: CallId, entry: Entry)
    | Write(call: CallId, file: nat)
    | FailWrite(call: CallId)

  function Appended(files: seq<seq<Envelope>>, f: nat, e: Envelope): seq<seq<Envelope>> {
    if f < |files| then files[f := files[f] + [e]] else files + [[e]]
  }

  function After(s: Suite, w: World, step: Step): World {
    match step
    case Chain(c, entry) =>
      if c in w.pending then w
      else
        var sig := s.mac(w.last + s.encode(entry));
        var env := Envelope(s.encode(entry), sig, w.last, |w.entries| + 1);
        w.(last := sig, entries := w.entries + [entry], pending := w.pending[c := env])
    case Write(c, f) =>
      if c !in w.pending then w
      else w.(pending := w.pending - {c}, files := Appended(w.files, f, w.pending[c]))
    case FailWrite(c) =>
      if c !in w.pending then w else w.(pending := w.pending - {c}, lost := w.lost + 1)
  }

  function Run(s: Suite, anchor: Bytes, steps: seq<Step>): World
    decreases |steps|
  {
    if |steps| == 0 then World(anchor, [], map[], [], 0)
    else After(s, Run(s, anchor, steps[..|steps| - 1]), steps[|steps| - 1])
  }

  ghost predicate Genuine(s: Suite, anchor: Bytes, entries: seq<Entry>, e: Envelope) {
    1 <= e.chainSeq <= |entries| && e == Link(s, anchor, entries, e.chainSeq)
  }

  /** Every link is on disk, pending or lost, and none is there twice. */
  ghost predicate Inv(s: Suite, anchor: Bytes, w: World) {
    var disk := multiset(Flat(w.files));
    && w.last == End(s, anchor, w.entries)
    && (forall e | e in disk :: Genuine(s, anchor, w.entries, e) && disk[e] == 1)
    && (forall c | c in w.pending :: Genuine(s, anchor, w.entries, w.pending[c]) && w.pending[c] !in disk)
    && (forall c, d | c in w.pending && d in w.pending && c != d :: w.pending[c] != w.pending[d])
    && |disk| + |w.pending| + w.lost == |w.entries|
  }

  lemma FlatLast(files: seq<seq<Envelope>>)
    requires |files| > 0
    ensures var n := |files| - 1; multiset(Flat(files)) == multiset(Flat(files[..n])) + multiset(files[n])
  {}

  lemma {:induction false} AppendedDisk(files: seq<seq<Envelope>>, f: nat, e: Envelope)
    ensures multiset(Flat(Appended(files, f, e))) == multiset(Flat(files)) + multiset{e}
    decreases |files|
  {
    hide Flat;
    var n := |files|;
    var after := Appended(files, f, e);
    FlatLast(after);
    if f >= n {
      assert after[..n] == files && after[n] == [e];
    } else {
      FlatLast(files);
      if f == n - 1 {
        assert after[..n - 1] == files[..n - 1];
        assert multiset(after[n - 1]) == multiset(files[n - 1]) + multiset{e};
      } else {
        AppendedDisk(files[..n - 1], f, e);
        assert after[..n - 1] == Appended(files[..n - 1], f, e) && after[n - 1] == files[n - 1];
      }
    }
  }

  lemma GenuineStays(s: Suite, anchor: Bytes, entries: seq<Entry>, entry: Entry, e: Envelope)
    requires Genuine(s, anchor, entries, e)
    ensures Genuine(s, anchor, entries + [entry], e) && e.chainSeq <= |entries|
  {
    hide End;
    LongerChain(s, anchor, entries, entry, e.chainSeq);
  }

  lemma NewestIsGenuine(s: Suite, anchor: Bytes, entries: seq<Entry>, entry: Entry)
    ensures var last := End(s, anchor, entries);
            var sig := s.mac(last + s.encode(entry));
            && End(s, anchor, entries + [entry]) == sig
            && Genuine(s, anchor, entries + [entry], Envelope(s.encode(entry), sig, last, |entries| + 1))
  {
    var longer := entries + [entry];
    assert longer[..|entries|] == entries;
    assert longer[..|longer|] == longer;
  }

  lemma AddPending(pending: map<CallId, Envelope>, c: CallId, e: Envelope)
    requires c !in pending
    ensures |pending[c := e]| == |pending| + 1
  {
    assert pending[c := e].Keys == pending.Keys + {c};
  }

  lemma ChainKeepsInv(s: Suite, anchor: Bytes, w: World, c: CallId, entry: Entry)
    requires Inv(s, anchor, w) && c !in w.pending
    ensures Inv(s, anchor, After(s, w, Chain(c, entry)))
  {
    hide End, Flat, Genuine;
    var entries := w.entries + [entry];
    var env := After(s, w, Chain(c, entry)).pending[c];
    NewestIsGenuine(s, anchor, w.entries, entry);
    AddPending(w.pending, c, env);
    forall e | Genuine(s, anchor, w.entries, e)
      ensures Genuine(s, anchor, entries, e) && e != env
    {
      GenuineStays(s, anchor, w.entries, entry, e);
    }
  }

  lemma RemovePending(pending: map<CallId, Envelope>, c: CallId)
    requires c in pending
    ensures |pending - {c}| == |pending| - 1
  {
    assert (pending - {c}).Keys == pending.Keys - {c};
  }

  lemma StepKeepsInv(s: Suite, anchor: Bytes, w: World, step: Step)
    requires Inv(s, anchor, w)
    ensures Inv(s, anchor, After(s, w, step))
  {
    hide End, Genuine, Flat, Appended;
    if step.Chain? {
      if step.call !in w.pending {
        ChainKeepsInv(s, anchor, w, step.call, step.entry);
      }
    } else if step.call in w.pending {
      RemovePending(w.pending, step.call);
      if step.Write? {
        AppendedDisk(w.files, step.file, w.pending[step.call]);
      }
    }
  }

  lemma {:induction false} RunKeepsInv(s: Suite, anchor: Bytes, steps: seq<Step>)
    ensures Inv(s, anchor, Run(s, anchor, steps))
    decreases |steps|
  {
    hide After;
    if |steps| > 0 {
      RunKeepsInv(s, anchor, steps[..|steps| - 1]);
      StepKeepsInv(s, anchor, Run(s, anchor, steps[..|steps| - 1]), steps[|steps| - 1]);
    }
  }

  // ---------- What Query returns ----------

  /** Strictly ascending numbers between 1 and n, n of them: exactly 1, 2, ..., n. */
  lemma {:induction false} AscendingIsCounting(xs: seq<int>, n: nat, i: nat)
    requires |xs| == n && i < n
    requires forall j, k | 0 <= j < k < n :: xs[j] < xs[k]
    requires forall j | 0 <= j < n :: 1 <= xs[j] <= n
    ensures xs[i] == i + 1
  {
    Below(xs, i);
    Above(xs, n, i);
  }

  lemma {:induction false} Below(xs: seq<int>, i: nat)
    requires i < |xs| && (forall j, k | 0 <= j < k < |xs| :: xs[j] < xs[k]) && xs[0] >= 1
    ensures xs[i] >= i + 1
  {
    if i > 0 {
      Below(xs, i - 1);
    }
  }

  lemma {:induction false} Above(xs: seq<int>, n: nat, i: nat)
    requires i < n == |xs| && (forall j, k | 0 <= j < k < |xs| :: xs[j] < xs[k]) && xs[n - 1] <= n
    ensures xs[i] <= i + 1
    decreases n - i
  {
    if i < n - 1 {
      Above(xs, n, i + 1);
    }
  }

  function ChainHit(s: Suite, anchor: Bytes, entries: seq<Entry>, n: nat): Hit
    requires 1 <= n <= |entries|
  {
    Hit(Link(s, anchor, entries, n), entries[n - 1], false)
  }

  ghost predicate GenuineHit(s: Suite, anchor: Bytes, entries: seq<Entry>, h: Hit) {
    1 <= h.envelope.chainSeq <= |entries| && h == ChainHit(s, anchor, entries, h.envelope.chainSeq)
  }

  /** On genuine envelopes an unfiltered search finds all of them, decoded. */
  lemma {:induction false} AllHit(s: Suite, anchor: Bytes, entries: seq<Entry>, log: seq<Envelope>)
    requires Lawful(s) && forall e | e in log :: Genuine(s, anchor, entries, e)
    ensures var hits := Hits(s, EVERYTHING, log);
            && |hits| == |log|
            && forall i | 0 <= i < |log| :: hits[i].envelope == log[i] && GenuineHit(s, anchor, entries, hits[i])
    decreases |log|
  {
    hide Genuine, GenuineHit, HitOf, Lawful;
    if |log| > 0 {
      var n := |log| - 1;
      assert forall e | e in log[..n] :: e in log;
      AllHit(s, anchor, entries, log[..n]);
      GenuineIsHit(s, anchor, entries, log[n]);
    }
  }

  lemma GenuineIsHit(s: Suite, anchor: Bytes, entries: seq<Entry>, e: Envelope)
    requires Lawful(s) && Genuine(s, anchor, entries, e)
    ensures var hit := HitOf(s, EVERYTHING, e);
            |hit| == 1 && hit[0].envelope == e && GenuineHit(s, anchor, entries, hit[0])
  {
    hide End;
  }

  ghost predicate Settled(w: World) {
    w.pending == map[] && w.lost == 0
  }

  lemma SettledLog(s: Suite, anchor: Bytes, w: World)
    requires Inv(s, anchor, w) && Settled(w)
    ensures var log := Flat(w.files);
            && |log| == |w.entries|
            && (forall e | e in log :: Genuine(s, anchor, w.entries, e))
            && (forall e | e in multiset(log) :: multiset(log)[e] == 1)
  {
    hide End, Flat, Genuine;
    var log := Flat(w.files);
    assert forall e | e in log :: e in multiset(log);
  }

  /** The only arrangement of a complete log is the chain itself. */
  lemma SortedIsChain(s: Suite, anchor: Bytes, w: World, sorted: seq<Hit>)
    requires Lawful(s) && Inv(s, anchor, w) && Settled(w)
    requires Arranges(Hits(s, EVERYTHING, Flat(w.files)), sorted)
    ensures |sorted| == |w.entries|
    ensures forall i | 0 <= i < |sorted| :: sorted[i] == ChainHit(s, anchor, w.entries, i + 1)
  {
    hide End, Flat, Hits, Inv, Genuine, Link;
    var log := Flat(w.files);
    var hits := Hits(s, EVERYTHING, log);
    SettledLog(s, anchor, w);
    AllHit(s, anchor, w.entries, log);
    assert |multiset(sorted)| == |multiset(hits)|;
    forall i | 0 <= i < |sorted|
      ensures GenuineHit(s, anchor, w.entries, sorted[i])
    {
      FromHits(hits, sorted, i);
    }
    forall i, j | 0 <= i < j < |sorted|
      ensures sorted[i].envelope.chainSeq < sorted[j].envelope.chainSeq
    {
      NoRepeats(log, hits, sorted, i, j);
    }
    var xs := seq(|sorted|, i requires 0 <= i < |sorted| => sorted[i].envelope.chainSeq);
    forall i | 0 <= i < |sorted|
      ensures sorted[i] == ChainHit(s, anchor, w.entries, i + 1)
    {
      AscendingIsCounting(xs, |xs|, i);
      assert xs[i] == sorted[i].envelope.chainSeq;
    }
  }

  lemma FromHits(hits: seq<Hit>, sorted: seq<Hit>, i: nat)
    requires multiset(sorted) == multiset(hits) && i < |sorted|
    ensures sorted[i] in hits
  {
    assert sorted[i] in multiset(sorted);
  }

  lemma Twice<T>(xs: seq<T>, i: nat, j: nat)
    requires i < j < |xs| && xs[i] == xs[j]
    ensures multiset(xs)[xs[i]] >= 2
  {
    assert xs == xs[..j] + [xs[j]] + xs[j + 1..];
    assert xs[..j][i] == xs[i];
    assert xs[i] in multiset(xs[..j]);
  }

  lemma TwicePlaces<T>(xs: seq<T>, x: T) returns (i: nat, j: nat)
    requires multiset(xs)[x] >= 2
    ensures i < j < |xs| && xs[i] == x && xs[j] == x
  {
    assert x in multiset(xs);
    i :| 0 <= i < |xs| && xs[i] == x;
    var rest := xs[..i] + xs[i + 1..];
    assert xs == xs[..i] + [x] + xs[i + 1..];
    assert multiset(rest)[x] >= 1;
    assert x in multiset(rest);
    j :| 0 <= j < |rest| && rest[j] == x;
    if j < i {
      i, j := j, i;
    } else {
      j := j + 1;
    }
  }

  /** Hits carry their envelopes along, so a repeated hit is a repeated line. */
  lemma NoRepeats(log: seq<Envelope>, hits: seq<Hit>, sorted: seq<Hit>, i: nat, j: nat)
    requires multiset(sorted) == multiset(hits) && i < j < |sorted|
    requires |hits| == |log| && forall k | 0 <= k < |log| :: hits[k].envelope == log[k]
    requires forall e | e in multiset(log) :: multiset(log)[e] == 1
    ensures sorted[i] != sorted[j]
  {
    if sorted[i] == sorted[j] {
      Twice(sorted, i, j);
      var k, l := TwicePlaces(hits, sorted[i]);
      Twice(log, k, l);
    }
  }

  function Skipped(total: nat, limit: int): nat {
    var n := if limit == 0 then 100 else limit;
    if 0 < n < total then total - n else 0
  }

  lemma ResultsAreLinks(s: Suite, anchor: Bytes, w: World, limit: int, results: seq<Hit>)
    requires Lawful(s) && Inv(s, anchor, w) && Settled(w)
    requires Answers(s, w.files, EVERYTHING.(limit := limit), results)
    ensures var skipped := Skipped(|w.entries|, limit);
            && |results| == |w.entries| - skipped
            && forall i | 0 <= i < |results| ::
                 results[i] == ChainHit(s, anchor, w.entries, skipped + i + 1).(valid := true)
  {
    hide End, Hits, Flat, Inv, Link, Verifies;
    var f := EVERYTHING.(limit := limit);
    var sorted: seq<Hit> :|
      Arranges(Hits(s, f, Flat(w.files)), sorted) && results == Flagged(s, Limited(sorted, limit));
    SameHits(s, f, Flat(w.files));
    SortedIsChain(s, anchor, w, sorted);
    var skipped := Skipped(|w.entries|, limit);
    forall i | 0 <= i < |results|
      ensures results[i] == ChainHit(s, anchor, w.entries, skipped + i + 1).(valid := true)
    {
      LinkVerifies(s, anchor, w.entries, skipped + i + 1);
      assert Limited(sorted, limit)[i] == sorted[skipped + i];
    }
  }

  /**
    For every interleaving of Record calls, once all writes are done an
    unfiltered query returns the chain: numbers 1 to n, every entry valid, each
    predecessor the signature before it, and the first the anchor. A limit keeps
    its last entries.
    */
  lemma QueryReturnsChain(s: Suite, anchor: Bytes, steps: seq<Step>, limit: int, results: seq<Hit>)
    requires Lawful(s) && Settled(Run(s, anchor, steps))
    requires Answers(s, Run(s, anchor, steps).files, EVERYTHING.(limit := limit), results)
    ensures var w := Run(s, anchor, steps);
            var skipped := Skipped(|w.entries|, limit);
            && |results| == |w.entries| - skipped
            && (forall i | 0 <= i < |results| ::
                  && results[i].valid && results[i].entry == w.entries[skipped + i]
                  && results[i].envelope.chainSeq == skipped + i + 1
                  && results[i].envelope.payload == s.encode(w.entries[skipped + i]))
            && (forall i | 0 < i < |results| :: results[i].envelope.prev == results[i - 1].envelope.signature)
            && (|results| > 0 ==>
                  && results[0].envelope.prev == End(s, anchor, w.entries[..skipped])
                  && results[|results| - 1].envelope.signature == w.last)
  {
    hide Run, End, Answers, Inv, Lawful, Settled;
    var w := Run(s, anchor, steps);
    RunKeepsInv(s, anchor, steps);
    ResultsAreLinks(s, anchor, w, limit, results);
    InvLast(s, anchor, w);
  }

  lemma InvLast(s: Suite, anchor: Bytes, w: World)
    requires Inv(s, anchor, w)
    ensures w.last == End(s, anchor, w.entries[..|w.entries|])
  {
    hide Flat;
    assert w.entries[..|w.entries|] == w.entries;
  }

  lemma {:induction false} SameHits(s: Suite, f: Filter, log: seq<Envelope>)
    requires f == EVERYTHING.(limit := f.limit)
    ensures Hits(s, f, log) == Hits(s, EVERYTHING, log)
    decreases |log|
  {
    if |log| > 0 {
      SameHits(s, f, log[..|log| - 1]);
    }
  }

  // ---------- Tamper evidence ----------

  /** What a chain check over all links would establish. */
  ghost predicate FullChain(s: Suite, anchor: Bytes, log: seq<Envelope>) {
    && (forall i | 0 <= i < |log| :: Verifies(s, log[i]) && |log[i].prev| == SIGNATURE_SIZE)
    && (forall i | 0 < i < |log| :: log[i].prev == log[i - 1].signature)
    && (|log| > 0 ==> log[0].prev == anchor)
  }

  function LogEnd(anchor: Bytes, log: seq<Envelope>): Bytes {
    if log == [] then anchor else log[|log| - 1].signature
  }

  /** One of the inputs whose keyed hash the log records. */
  ghost predicate Hashed(log: seq<Envelope>, x: Bytes) {
    exists i | 0 <= i < |log| :: x == log[i].prev + log[i].payload
  }

  lemma LongerHashed(log: seq<Envelope>, n: nat, x: Bytes)
    requires n <= |log| && Hashed(log[..n], x)
    ensures Hashed(log, x)
  {
    var i :| 0 <= i < n && x == log[..n][i].prev + log[..n][i].payload;
    assert x == log[i].prev + log[i].payload;
  }

  /** Among the inputs of the two logs: one that hashes to the anchor, or two different ones with one hash. */
  ghost predicate Break(s: Suite, anchor: Bytes, a: seq<Envelope>, b: seq<Envelope>, x: Bytes, y: Bytes) {
    || ((Hashed(a, x) || Hashed(b, x)) && s.mac(x) == anchor)
    || (Hashed(a, x) && Hashed(b, y) && x != y && s.mac(x) == s.mac(y))
  }

  /** The keyed hash tells the inputs of the two logs apart, and from the anchor. */
  ghost predicate Separates(s: Suite, anchor: Bytes, a: seq<Envelope>, b: seq<Envelope>) {
    forall x, y :: !Break(s, anchor, a, b, x, y)
  }

  function Payloads(log: seq<Envelope>): (ps: seq<Bytes>)
    ensures |ps| == |log| && forall i | 0 <= i < |ps| :: ps[i] == log[i].payload
  {
    seq(|log|, i requires 0 <= i < |log| => log[i].payload)
  }

  /**
    The chain end fixes every payload: two full chains with one end but
    different payloads exhibit a break of the keyed hash among what they hashed.
    */
  lemma {:induction false} EndFixesPayloads(s: Suite, anchor: Bytes, a: seq<Envelope>, b: seq<Envelope>)
    returns (x: Bytes, y: Bytes)
    requires |anchor| == SIGNATURE_SIZE && FullChain(s, anchor, a) && FullChain(s, anchor, b)
    requires LogEnd(anchor, a) == LogEnd(anchor, b) && Payloads(a) != Payloads(b)
    ensures Break(s, anchor, a, b, x, y)
    decreases |a|
  {
    hide Hashed, FullChain, Payloads, LogEnd, Break, Verifies;
    if a == [] {
      assert b != [];
      LastLink(s, anchor, b);
      x := LastHashed(s, b);
      y := [];
      BreaksAtAnchor(s, anchor, a, b, x);
    } else if b == [] {
      LastLink(s, anchor, a);
      x := LastHashed(s, a);
      y := [];
      BreaksAtAnchor(s, anchor, a, b, x);
    } else {
      var m, n := |a| - 1, |b| - 1;
      LastLink(s, anchor, a);
      LastLink(s, anchor, b);
      x := LastHashed(s, a);
      y := LastHashed(s, b);
      if x == y {
        SameParts(a[m].prev, a[m].payload, b[n].prev, b[n].payload);
        x, y := EndFixesPayloads(s, anchor, a[..m], b[..n]);
        LongerBreak(s, anchor, a, m, b, n, x, y);
      } else {
        Collides(s, anchor, a, b, x, y);
      }
    }
  }

  /** The last link of a full chain, and the full chain before it. */
  lemma LastLink(s: Suite, anchor: Bytes, log: seq<Envelope>)
    requires log != [] && FullChain(s, anchor, log)
    ensures var n := |log| - 1;
            && FullChain(s, anchor, log[..n]) && LogEnd(anchor, log[..n]) == log[n].prev
            && Verifies(s, log[n]) && LogEnd(anchor, log) == log[n].signature && |log[n].prev| == SIGNATURE_SIZE
            && Payloads(log) == Payloads(log[..n]) + [log[n].payload]
    ensures LogEnd(anchor, []) == anchor
  {
    hide Verifies;
  }

  lemma BreaksAtAnchor(s: Suite, anchor: Bytes, a: seq<Envelope>, b: seq<Envelope>, x: Bytes)
    requires (Hashed(a, x) || Hashed(b, x)) && s.mac(x) == anchor
    ensures Break(s, anchor, a, b, x, [])
  {}

  lemma Collides(s: Suite, anchor: Bytes, a: seq<Envelope>, b: seq<Envelope>, x: Bytes, y: Bytes)
    requires Hashed(a, x) && Hashed(b, y) && x != y && s.mac(x) == s.mac(y)
    ensures Break(s, anchor, a, b, x, y)
  {}

  lemma SameParts(p: Bytes, x: Bytes, q: Bytes, y: Bytes)
    requires p + x == q + y && |p| == |q|
    ensures p == q && x == y
  {
    assert p == (p + x)[..|p|] == q;
    assert x == (p + x)[|p|..] == y;
  }

  lemma LastHashed(s: Suite, log: seq<Envelope>) returns (x: Bytes)
    requires log != [] && Verifies(s, log[|log| - 1])
    ensures Hashed(log, x) && s.mac(x) == log[|log| - 1].signature
    ensures x == log[|log| - 1].prev + log[|log| - 1].payload
  {
    x := log[|log| - 1].prev + log[|log| - 1].payload;
  }

  lemma LongerBreak(
    s: Suite, anchor: Bytes, a: seq<Envelope>, m: nat, b: seq<Envelope>, n: nat, x: Bytes, y: Bytes)
    requires m <= |a| && n <= |b| && Break(s, anchor, a[..m], b[..n], x, y)
    ensures Break(s, anchor, a, b, x, y)
  {
    hide Hashed;
    if Hashed(a[..m], x) {
      LongerHashed(a, m, x);
    }
    if Hashed(b[..n], x) {
      LongerHashed(b, n, x);
    }
    if Hashed(b[..n], y) {
      LongerHashed(b, n, y);
    }
  }

  /**
    Tamper evidence: a log that passes the full chain check and ends in the
    logger's signature holds the run's payloads, no more and no fewer, if the
    keyed hash separates what the two hashed.
    */
  lemma FullChainIsTheRun(s: Suite, anchor: Bytes, steps: seq<Step>, log: seq<Envelope>)
    requires Lawful(s) && |anchor| == SIGNATURE_SIZE && FullChain(s, anchor, log)
    requires LogEnd(anchor, log) == Run(s, anchor, steps).last
    requires Separates(s, anchor, log, Links(s, anchor, Run(s, anchor, steps).entries))
    ensures Payloads(log) == Payloads(Links(s, anchor, Run(s, anchor, steps).entries))
  {
    hide Run, End, FullChain, Lawful, Hashed, Break;
    var links := Links(s, anchor, Run(s, anchor, steps).entries);
    RunLinks(s, anchor, steps);
    if Payloads(log) != Payloads(links) {
      var x, y := EndFixesPayloads(s, anchor, log, links);
    }
  }

  lemma RunLinks(s: Suite, anchor: Bytes, steps: seq<Step>)
    requires Lawful(s) && |anchor| == SIGNATURE_SIZE
    ensures var w := Run(s, anchor, steps);
            && w.last == End(s, anchor, w.entries)
            && FullChain(s, anchor, Links(s, anchor, w.entries))
            && LogEnd(anchor, Links(s, anchor, w.entries)) == w.last
  {
    hide Run, End, FullChain, Lawful, Flat, Genuine;
    RunKeepsInv(s, anchor, steps);
    LinksAreFullChain(s, anchor, Run(s, anchor, steps).entries);
  }

  /** All links of a chain, in order. */
  function Links(s: Suite, anchor: Bytes, entries: seq<Entry>): (log: seq<Envelope>)
    ensures |log| == |entries| && forall i | 0 <= i < |log| :: log[i] == Link(s, anchor, entries, i + 1)
  {
    seq(|entries|, i requires 0 <= i < |entries| => Link(s, anchor, entries, i + 1))
  }

  lemma EndSize(s: Suite, anchor: Bytes, entries: seq<Entry>)
    requires Lawful(s) && |anchor| == SIGNATURE_SIZE
    ensures |End(s, anchor, entries)| == SIGNATURE_SIZE
  {}

  lemma WholeAndNone(s: Suite, anchor: Bytes, entries: seq<Entry>)
    ensures End(s, anchor, entries[..0]) == anchor && entries[..|entries|] == entries
  {}

  lemma LinksAreFullChain(s: Suite, anchor: Bytes, entries: seq<Entry>)
    requires Lawful(s) && |anchor| == SIGNATURE_SIZE
    ensures FullChain(s, anchor, Links(s, anchor, entries))
    ensures LogEnd(anchor, Links(s, anchor, entries)) == End(s, anchor, entries)
  {
    hide End, Verifies, Lawful;
    var log := Links(s, anchor, entries);
    WholeAndNone(s, anchor, entries);
    forall i | 0 <= i < |log|
      ensures Verifies(s, log[i]) && |log[i].prev| == SIGNATURE_SIZE
    {
      LinkVerifies(s, anchor, entries, i + 1);
      EndSize(s, anchor, entries[..i]);
    }
  }

  /** What an unlimited query of a settled run returns passes the full chain check, up to the logger's signature. */
  lemma ResultsAreFullChain(s: Suite, anchor: Bytes, steps: seq<Step>, results: seq<Hit>)
    requires Lawful(s) && |anchor| == SIGNATURE_SIZE && Settled(Run(s, anchor, steps))
    requires Answers(s, Run(s, anchor, steps).files, EVERYTHING, results)
    ensures var log := seq(|results|, i requires 0 <= i < |results| => results[i].envelope);
            FullChain(s, anchor, log) && LogEnd(anchor, log) == Run(s, anchor, steps).last
  {
    hide Run, End, Inv, Answers, FullChain, Settled;
    var w := Run(s, anchor, steps);
    RunKeepsInv(s, anchor, steps);
    ResultsAreLinks(s, anchor, w, -1, results);
    var log := seq(|results|, i requires 0 <= i < |results| => results[i].envelope);
    assert log == Links(s, anchor, w.entries);
    LinksAreFullChain(s, anchor, w.entries);
    InvLast(s, anchor, w);
    assert w.entries[..|w.entries|] == w.entries;
  }

  /**
    Two runs from one anchor end in the same signature if and only if they
    recorded the same entries, if the keyed hash separates what they hashed.
    */
  lemma SameEndSameEntries(s: Suite, anchor: Bytes, steps1: seq<Step>, steps2: seq<Step>)
    requires Lawful(s) && |anchor| == SIGNATURE_SIZE
    requires var v, w := Run(s, anchor, steps1), Run(s, anchor, steps2);
             Separates(s, anchor, Links(s, anchor, v.entries), Links(s, anchor, w.entries))
    ensures var v, w := Run(s, anchor, steps1), Run(s, anchor, steps2);
            v.last == w.last <==> v.entries == w.entries
  {
    hide Run, End, FullChain, Lawful, Separates, LogEnd;
    var v, w := Run(s, anchor, steps1), Run(s, anchor, steps2);
    RunLinks(s, anchor, steps1);
    RunLinks(s, anchor, steps2);
    if v.last == w.last {
      FullChainIsTheRun(s, anchor, steps2, Links(s, anchor, v.entries));
      SamePayloads(s, anchor, v.entries, w.entries);
    }
  }

  lemma SamePayloads(s: Suite, anchor: Bytes, a: seq<Entry>, b: seq<Entry>)
    requires Lawful(s) && Payloads(Links(s, anchor, a)) == Payloads(Links(s, anchor, b))
    ensures a == b
  {
    hide End;
    var p, q := Payloads(Links(s, anchor, a)), Payloads(Links(s, anchor, b));
    forall i | 0 <= i < |a|
      ensures a[i] == b[i]
    {
      assert p[i] == s.encode(a[i]) && q[i] == s.encode(b[i]);
      assert s.decode(s.encode(a[i])) == Some(a[i]) && s.decode(s.encode(b[i])) == Some(b[i]);
    }
  }

  /**
    Query checks each entry against its own predecessor field only. Whatever
    lines are removed, altered or inserted, it flags every original line as
    valid, contrary to the promise that all later entries fail.
    */
  lemma TamperingFlagsNoOriginal(
    s: Suite, anchor: Bytes, steps: seq<Step>, left: seq<seq<Envelope>>, results: seq<Hit>, f: Filter, i: nat)
    requires Answers(s, left, f, results) && i < |results|
    requires results[i].envelope in Flat(Run(s, anchor, steps).files)
    ensures results[i].valid
  {
    hide Run, Flat, Genuine, Answers, Inv;
    var w := Run(s, anchor, steps);
    RunKeepsInv(s, anchor, steps);
    AnswersAreLines(s, left, f, results, i);
    DiskIsGenuine(s, anchor, w, results[i].envelope);
    GenuineVerifies(s, anchor, w.entries, results[i].envelope);
  }

  /** The flag of every answer is the check of its own signature. */
  lemma AnswersAreLines(s: Suite, files: seq<seq<Envelope>>, f: Filter, results: seq<Hit>, i: nat)
    requires Answers(s, files, f, results) && i < |results|
    ensures results[i].envelope in Flat(files)
    ensures var e := results[i].envelope; results[i].valid <==> s.mac(e.prev + e.payload) == e.signature
  {
    hide Flat, Hits, Ordered;
    var hits := Hits(s, f, Flat(files));
    var sorted: seq<Hit> :| Arranges(hits, sorted) && results == Flagged(s, Limited(sorted, f.limit));
    var k := i + |sorted| - |Limited(sorted, f.limit)|;
    FromHits(hits, sorted, k);
    HitsAreLines(s, f, Flat(files), sorted[k]);
    assert Limited(sorted, f.limit)[i] == sorted[k];
  }

  lemma DiskIsGenuine(s: Suite, anchor: Bytes, w: World, e: Envelope)
    requires Inv(s, anchor, w) && e in Flat(w.files)
    ensures Genuine(s, anchor, w.entries, e)
  {
    hide Flat, End, Genuine;
    assert e in multiset(Flat(w.files));
  }

  lemma GenuineVerifies(s: Suite, anchor: Bytes, entries: seq<Entry>, e: Envelope)
    requires Genuine(s, anchor, entries, e)
    ensures Verifies(s, e)
  {
    LinkVerifies(s, anchor, entries, e.chainSeq);
  }

  lemma {:induction false} HitsAreLines(s: Suite, f: Filter, log: seq<Envelope>, h: Hit)
    requires h in Hits(s, f, log)
    ensures h.envelope in log
    decreases |log|
  {
    if |log| > 0 {
      if h in Hits(s, f, log[..|log| - 1]) {
        HitsAreLines(s, f, log[..|log| - 1], h);
      }
    }
  }

  // ---------- What is recorded, and what a filter returns ----------

  /** The entries of the Record calls, in the order in which they were chained. */
  function Recorded(steps: seq<Step>): seq<Entry>
    decreases |steps|
  {
    if |steps| == 0 then []
    else
      var n := |steps| - 1;
      Recorded(steps[..n]) + if steps[n].Chain? then [steps[n].entry] else []
  }

  /** Each call chains once. */
  ghost predicate OwnCalls(steps: seq<Step>) {
    forall i, j | 0 <= i < j < |steps| && steps[i].Chain? && steps[j].Chain? :: steps[i].call != steps[j].call
  }

  /** The chain holds the entry of every call, in the order of the critical sections. */
  lemma {:induction false} EveryCallIsChained(s: Suite, anchor: Bytes, steps: seq<Step>)
    requires OwnCalls(steps)
    ensures Run(s, anchor, steps).entries == Recorded(steps)
    ensures forall c | c in Run(s, anchor, steps).pending ::
              exists i | 0 <= i < |steps| :: steps[i].Chain? && steps[i].call == c
    decreases |steps|
  {
    if |steps| > 0 {
      var n := |steps| - 1;
      var w, w' := Run(s, anchor, steps[..n]), Run(s, anchor, steps);
      assert forall i | 0 <= i < n :: steps[..n][i] == steps[i];
      EveryCallIsChained(s, anchor, steps[..n]);
      forall c | c in w'.pending
        ensures exists i | 0 <= i < |steps| :: steps[i].Chain? && steps[i].call == c
      {
        if c in w.pending {
          var i :| 0 <= i < n && steps[..n][i].Chain? && steps[..n][i].call == c;
          assert steps[i].Chain? && steps[i].call == c;
        } else {
          assert steps[n].Chain? && steps[n].call == c;
        }
      }
    }
  }

  lemma {:induction false} HitCount(s: Suite, f: Filter, log: seq<Envelope>, h: Hit)
    ensures multiset(Hits(s, f, log))[h] <= multiset(log)[h.envelope]
    decreases |log|
  {
    hide HitOf;
    if |log| > 0 {
      var n := |log| - 1;
      HitCount(s, f, log[..n], h);
      HitOfCount(s, f, log[n], h);
      assert log == log[..n] + [log[n]];
      assert multiset(log) == multiset(log[..n]) + multiset{log[n]};
    }
  }

  lemma HitOfCount(s: Suite, f: Filter, e: Envelope, h: Hit)
    ensures multiset(HitOf(s, f, e))[h] <= multiset{e}[h.envelope]
  {}

  lemma {:induction false} HitsExactly(s: Suite, f: Filter, log: seq<Envelope>, h: Hit)
    ensures h in Hits(s, f, log) <==> h.envelope in log && HitOf(s, f, h.envelope) == [h]
    decreases |log|
  {
    hide Matches;
    if |log| > 0 {
      var n := |log| - 1;
      HitsExactly(s, f, log[..n], h);
      assert log == log[..n] + [log[n]];
    }
  }

  /** Every link of a settled run is on disk. */
  lemma LinksAreOnDisk(s: Suite, anchor: Bytes, w: World, n: nat)
    requires Lawful(s) && Inv(s, anchor, w) && Settled(w) && 1 <= n <= |w.entries|
    ensures Link(s, anchor, w.entries, n) in Flat(w.files)
  {
    hide Inv, Flat, Hits, Lawful, Settled, End;
    var hits := Hits(s, EVERYTHING, Flat(w.files));
    var sorted := SortBySeqExists(hits);
    SortedIsChain(s, anchor, w, sorted);
    FromHits(hits, sorted, n - 1);
    HitsAreLines(s, EVERYTHING, Flat(w.files), sorted[n - 1]);
  }

  lemma {:induction false} SortBySeqExists(hits: seq<Hit>) returns (sorted: seq<Hit>)
    ensures Arranges(hits, sorted)
    decreases |hits|
  {
    if |hits| == 0 {
      sorted := [];
    } else {
      var n := |hits| - 1;
      var rest := SortBySeqExists(hits[..n]);
      var k := PlaceExists(rest, hits[n]);
      InsertArranges(hits[..n], rest, k, hits[n]);
      sorted := rest[..k] + [hits[n]] + rest[k..];
      assert hits == hits[..n] + [hits[n]];
    }
  }

  lemma {:induction false} PlaceExists(sorted: seq<Hit>, h: Hit) returns (k: nat)
    ensures k <= |sorted|
    ensures k > 0 ==> sorted[k - 1].envelope.chainSeq <= h.envelope.chainSeq
    ensures forall j | k <= j < |sorted| :: h.envelope.chainSeq <= sorted[j].envelope.chainSeq
    decreases |sorted|
  {
    var n := |sorted| - 1;
    if n < 0 || sorted[n].envelope.chainSeq <= h.envelope.chainSeq {
      k := n + 1;
    } else {
      k := PlaceExists(sorted[..n], h);
    }
  }

  /** The filter, in the fields of an entry. */
  lemma MatchesExactly(e: Entry, f: Filter)
    ensures Matches(e, f) <==>
            && (f.start == None || f.start.value <= e.timestamp) && (f.end == None || e.timestamp <= f.end.value)
            && (f.actor == "" || f.actor == e.actor) && (f.action == "" || f.action == e.action)
  {}

  /**
    An unlimited query of a settled run returns, in ascending order, each once
    and valid, exactly the entries in the filter's time range with its actor and
    its action.
    */
  lemma FilteredQueryIsExact(s: Suite, anchor: Bytes, steps: seq<Step>, f: Filter, results: seq<Hit>, n: nat)
    requires Lawful(s) && Settled(Run(s, anchor, steps)) && f.limit < 0
    requires Answers(s, Run(s, anchor, steps).files, f, results) && 1 <= n <= |Run(s, anchor, steps).entries|
    ensures forall i, j | 0 <= i < j < |results| :: results[i].envelope.chainSeq < results[j].envelope.chainSeq
    ensures var entries := Run(s, anchor, steps).entries;
            forall i | 0 <= i < |results| ::
              && results[i].valid && 1 <= results[i].envelope.chainSeq <= |entries|
              && results[i].entry == entries[results[i].envelope.chainSeq - 1]
    ensures var e := Run(s, anchor, steps).entries[n - 1];
            (exists i | 0 <= i < |results| :: results[i].envelope.chainSeq == n) <==>
            && (f.start == None || f.start.value <= e.timestamp) && (f.end == None || e.timestamp <= f.end.value)
            && (f.actor == "" || f.actor == e.actor) && (f.action == "" || f.action == e.action)
  {
    hide Run, Inv, Lawful, Settled, Hits, Flat, Verifies, Matches, Link, Genuine;
    var w := Run(s, anchor, steps);
    RunKeepsInv(s, anchor, steps);
    var log := Flat(w.files);
    var hits := Hits(s, f, log);
    var sorted: seq<Hit> :| Arranges(hits, sorted) && results == Flagged(s, Limited(sorted, f.limit));
    assert |results| == |sorted| && forall i | 0 <= i < |results| :: results[i].envelope == sorted[i].envelope;
    FoundLines(s, anchor, w, f, sorted, results);
    FoundIffMatches(s, anchor, w, f, sorted, n);
    MatchesExactly(w.entries[n - 1], f);
  }

  lemma GenuineHits(s: Suite, anchor: Bytes, w: World, f: Filter, h: Hit)
    requires Lawful(s) && Inv(s, anchor, w) && h in Hits(s, f, Flat(w.files))
    ensures 1 <= h.envelope.chainSeq <= |w.entries| && h.envelope == Link(s, anchor, w.entries, h.envelope.chainSeq)
    ensures h.entry == w.entries[h.envelope.chainSeq - 1] && !h.valid && Matches(h.entry, f) && Verifies(s, h.envelope)
  {
    hide Inv, Flat, Hits, End, Matches, Verifies;
    HitsExactly(s, f, Flat(w.files), h);
    DiskIsGenuine(s, anchor, w, h.envelope);
    GenuineVerifies(s, anchor, w.entries, h.envelope);
  }

  lemma FoundLines(s: Suite, anchor: Bytes, w: World, f: Filter, sorted: seq<Hit>, results: seq<Hit>)
    requires Lawful(s) && Inv(s, anchor, w) && Settled(w) && Arranges(Hits(s, f, Flat(w.files)), sorted)
    requires results == Flagged(s, sorted)
    ensures forall i | 0 <= i < |results| ::
              && results[i].valid && 1 <= results[i].envelope.chainSeq <= |w.entries|
              && results[i].entry == w.entries[results[i].envelope.chainSeq - 1]
    ensures forall i, j | 0 <= i < j < |results| :: results[i].envelope.chainSeq < results[j].envelope.chainSeq
  {
    hide Inv, Lawful, Settled, Hits, Flat, Verifies, Matches, Link;
    var log := Flat(w.files);
    var hits := Hits(s, f, log);
    forall i | 0 <= i < |sorted|
      ensures 1 <= sorted[i].envelope.chainSeq <= |w.entries|
      ensures sorted[i].envelope == Link(s, anchor, w.entries, sorted[i].envelope.chainSeq)
      ensures sorted[i].entry == w.entries[sorted[i].envelope.chainSeq - 1] && !sorted[i].valid
      ensures Verifies(s, sorted[i].envelope)
    {
      FromHits(hits, sorted, i);
      GenuineHits(s, anchor, w, f, sorted[i]);
    }
    SettledLog(s, anchor, w);
    forall i, j | 0 <= i < j < |sorted|
      ensures sorted[i].envelope.chainSeq < sorted[j].envelope.chainSeq
    {
      NotTwice(s, f, log, sorted, i, j);
    }
  }

  lemma NotTwice(s: Suite, f: Filter, log: seq<Envelope>, sorted: seq<Hit>, i: nat, j: nat)
    requires multiset(sorted) == multiset(Hits(s, f, log)) && i < j < |sorted|
    requires forall e | e in multiset(log) :: multiset(log)[e] == 1
    ensures sorted[i] != sorted[j]
  {
    hide Hits;
    HitCount(s, f, log, sorted[i]);
    if sorted[i] == sorted[j] {
      Twice(sorted, i, j);
    }
  }

  lemma FoundIffMatches(s: Suite, anchor: Bytes, w: World, f: Filter, sorted: seq<Hit>, n: nat)
    requires Lawful(s) && Inv(s, anchor, w) && Settled(w) && 1 <= n <= |w.entries|
    requires Arranges(Hits(s, f, Flat(w.files)), sorted)
    ensures (exists i | 0 <= i < |sorted| :: sorted[i].envelope.chainSeq == n) <==> Matches(w.entries[n - 1], f)
  {
    hide Inv, Settled, Hits, Flat, Verifies, Matches, End;
    var hits := Hits(s, f, Flat(w.files));
    if Matches(w.entries[n - 1], f) {
      var h := Hit(Link(s, anchor, w.entries, n), w.entries[n - 1], false);
      LinksAreOnDisk(s, anchor, w, n);
      HitsExactly(s, f, Flat(w.files), h);
      assert h in multiset(hits);
      assert h in multiset(sorted);
      var i :| 0 <= i < |sorted| && sorted[i] == h;
    } else {
      forall i | 0 <= i < |sorted|
        ensures sorted[i].envelope.chainSeq != n
      {
        FromHits(hits, sorted, i);
        GenuineHits(s, anchor, w, f, sorted[i]);
      }
    }
  }
}
