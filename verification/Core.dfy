/**
  Encryption and decryption as a service (internal/service/core.go, core_v12.go):
  the vault, the node and the ciphertext format together.

  A policy decision is a Boolean parameter, audit records and alerts are left
  out, and the emergency seal's callback clears the node's cache.
  */
module Core {
  import opened Options
  import opened Clock
  import opened Gf256
  import opened Lifecycle
  import opened KeyCache
  import opened KeyNode
  import opened KeyManager
  import opened Ciphertext
  import Vault

  datatype System = System(vault: Vault.View, node: Node)

  datatype CoreError =
    | VaultSealed | AccessDenied | KeyError(Error) | UnwrapFailed | CipherError(CryptoError) | NoKeyId

  // ---------- Operations ----------

  function Guard(s: System, allowed: bool): Option<CoreError> {
    if s.vault.emergency || s.vault.state == Vault.Sealed then Some(VaultSealed)
    else if !allowed then Some(AccessDenied)
    else None
  }

  /** The work inside KEKRef: unwrap the stored key, then use it. */
  function SealUnder(a: Aead, vault: Vault.View, meta: Metadata, nonce: Bytes, plaintext: Bytes)
    : Result<Bytes, CoreError>
  {
    if vault.state != Vault.Unsealed || vault.masterKey.None? then Err(VaultSealed)
    else
      var dek := Unwrap(a, vault.masterKey.value, meta.material);
      if dek.None? then Err(UnwrapFailed)
      else
        var c := EncryptVersioned(a, dek.value, SafeUint32(meta.version), nonce, plaintext);
        if c.Err? then Err(CipherError(c.error)) else Ok(c.value)
  }

  function OpenUnder(a: Aead, vault: Vault.View, meta: Metadata, ciphertext: Bytes): Result<Bytes, CoreError> {
    if vault.state != Vault.Unsealed || vault.masterKey.None? then Err(VaultSealed)
    else
      var dek := Unwrap(a, vault.masterKey.value, meta.material);
      if dek.None? then Err(UnwrapFailed)
      else
        var p := DecryptVersioned(a, dek.value, ciphertext);
        if p.Err? then Err(CipherError(p.error)) else Ok(p.value.0)
  }

  function Encrypt(a: Aead, s: System, id: string, plaintext: Bytes, nonce: Bytes, allowed: bool)
    : Result<Bytes, CoreError>
  {
    var refusal := Guard(s, allowed);
    if refusal.Some? then Err(refusal.value)
    else
      var meta := ForEncrypt(s.node, id);
      if meta.Err? then Err(KeyError(meta.error)) else SealUnder(a, s.vault, meta.value, nonce, plaintext)
  }

  /** The system after Encrypt: the latest version has been looked up. */
  function AfterEncrypt(s: System, id: string, allowed: bool): System {
    var latest := LatestVersion(s.node.db, id);
    if Guard(s, allowed).Some? || latest.None? then s
    else s.(node := KeyNode.After(s.node, Lookup(VersionId(id, latest.value))))
  }

  function Decrypt(a: Aead, s: System, id: string, ciphertext: Bytes, allowed: bool): Result<Bytes, CoreError> {
    var refusal := Guard(s, allowed);
    var parts := Decode(ciphertext);
    if refusal.Some? then Err(refusal.value)
    else if parts.Err? then Err(CipherError(parts.error))
    else
      var meta := ForDecrypt(Load(s.node, VersionId(id, parts.value.version)));
      if meta.Err? then Err(KeyError(meta.error)) else OpenUnder(a, s.vault, meta.value, ciphertext)
  }

  function AfterDecrypt(s: System, id: string, ciphertext: Bytes, allowed: bool): System {
    var parts := Decode(ciphertext);
    if Guard(s, allowed).Some? || parts.Err? then s
    else s.(node := KeyNode.After(s.node, Lookup(VersionId(id, parts.value.version))))
  }

  function ReEncrypt(
    a: Aead, s: System, source: string, ciphertext: Bytes, dest: string, nonce: Bytes,
    mayDecrypt: bool, mayEncrypt: bool)
    : Result<Bytes, CoreError>
  {
    var refusal := Guard(s, mayDecrypt && mayEncrypt);
    if refusal.Some? then Err(refusal.value)
    else
      var p := Decrypt(a, s, source, ciphertext, mayDecrypt);
      if p.Err? then Err(p.error)
      else Encrypt(a, AfterDecrypt(s, source, ciphertext, mayDecrypt), dest, p.value, nonce, mayEncrypt)
  }

  /** The system after ReEncrypt: the second lookup happens only when the first half succeeded. */
  function AfterReEncrypt(
    a: Aead, s: System, source: string, ciphertext: Bytes, dest: string, mayDecrypt: bool, mayEncrypt: bool): System
  {
    if Guard(s, mayDecrypt && mayEncrypt).Some? then s
    else
      var mid := AfterDecrypt(s, source, ciphertext, mayDecrypt);
      if Decrypt(a, s, source, ciphertext, mayDecrypt).Err? then mid else AfterEncrypt(mid, dest, mayEncrypt)
  }

  /** GenerateDataKey: the fresh data key, sealed under the active version. */
  function GenerateDataKey(a: Aead, s: System, id: string, dataKey: Bytes, nonce: Bytes, allowed: bool)
    : Result<Bytes, CoreError>
  {
    var refusal := Guard(s, allowed);
    if refusal.Some? then Err(refusal.value)
    else if s.vault.state != Vault.Unsealed || s.vault.masterKey.None? then Err(VaultSealed)
    else if id == "" then Err(NoKeyId)
    else
      var meta := ForEncrypt(s.node, id);
      if meta.Err? then Err(KeyError(meta.error)) else SealUnder(a, s.vault, meta.value, nonce, dataKey)
  }

  // ---------- The service object ----------

  class Service {
    const vault: Vault.VaultState
    const manager: Manager

    ghost function Current(now: Time): System
      reads vault, manager, manager.cache
    {
      System(vault.Current(), manager.Current(now))
    }

    constructor (vault: Vault.VaultState, manager: Manager)
      ensures this.vault == vault && this.manager == manager
    {
      this.vault, this.manager := vault, manager;
    }

    method RequireUnsealed(allowed: bool, ghost now: Time) returns (refusal: Option<CoreError>)
      ensures refusal == Guard(Current(now), allowed)
      ensures refusal == Some(VaultSealed) <==> vault.emergency || vault.state == Vault.Sealed
      ensures refusal == Some(AccessDenied) <==> !vault.emergency && vault.state != Vault.Sealed && !allowed
      ensures refusal.None? <==> !vault.emergency && vault.state != Vault.Sealed && allowed
    {
      if vault.emergency || vault.state == Vault.Sealed {
        return Some(VaultSealed);
      }
      if !allowed {
        return Some(AccessDenied);
      }
      return None;
    }

    method EncryptData(a: Aead, id: string, plaintext: Bytes, nonce: Bytes, allowed: bool, now: Time)
      returns (r: Result<Bytes, CoreError>)
      requires vault.Valid()
      modifies manager.cache
      ensures r == Encrypt(a, old(Current(now)), id, plaintext, nonce, allowed)
      ensures Current(now) == AfterEncrypt(old(Current(now)), id, allowed)
      ensures !allowed ==> r.Err? && Current(now) == old(Current(now))
    {
      var refusal := RequireUnsealed(allowed, now);
      if refusal.Some? {
        return Err(refusal.value);
      }
      var meta := manager.GetActiveKey(id, now);
      if meta.Err? {
        return Err(KeyError(meta.error));
      }
      var kek := vault.KekRef();
      if kek.None? {
        return Err(VaultSealed);
      }
      var dek := Unwrap(a, kek.value, meta.value.material);
      if dek.None? {
        return Err(UnwrapFailed);
      }
      var c := EncryptVersioned(a, dek.value, SafeUint32(meta.value.version), nonce, plaintext);
      if c.Err? {
        return Err(CipherError(c.error));
      }
      return Ok(c.value);
    }

    method DecryptData(a: Aead, id: string, ciphertext: Bytes, allowed: bool, now: Time)
      returns (r: Result<Bytes, CoreError>)
      requires vault.Valid()
      modifies manager.cache
      ensures r == Decrypt(a, old(Current(now)), id, ciphertext, allowed)
      ensures Current(now) == AfterDecrypt(old(Current(now)), id, ciphertext, allowed)
      ensures !allowed ==> r.Err? && Current(now) == old(Current(now))
    {
      var refusal := RequireUnsealed(allowed, now);
      if refusal.Some? {
        return Err(refusal.value);
      }
      var parts := Decode(ciphertext);
      if parts.Err? {
        return Err(CipherError(parts.error));
      }
      var meta := manager.GetKeyForDecrypt(id, parts.value.version, now);
      if meta.Err? {
        return Err(KeyError(meta.error));
      }
      var kek := vault.KekRef();
      if kek.None? {
        return Err(VaultSealed);
      }
      var dek := Unwrap(a, kek.value, meta.value.material);
      if dek.None? {
        return Err(UnwrapFailed);
      }
      var p := DecryptVersioned(a, dek.value, ciphertext);
      if p.Err? {
        return Err(CipherError(p.error));
      }
      return Ok(p.value.0);
    }

    method ReEncryptData(
      a: Aead, source: string, ciphertext: Bytes, dest: string, nonce: Bytes,
      mayDecrypt: bool, mayEncrypt: bool, now: Time)
      returns (r: Result<Bytes, CoreError>)
      requires vault.Valid()
      modifies manager.cache
      ensures r == ReEncrypt(a, old(Current(now)), source, ciphertext, dest, nonce, mayDecrypt, mayEncrypt)
      ensures Current(now) == AfterReEncrypt(a, old(Current(now)), source, ciphertext, dest, mayDecrypt, mayEncrypt)
      ensures !mayDecrypt || !mayEncrypt ==> r.Err? && Current(now) == old(Current(now))
    {
      var refusal := RequireUnsealed(mayDecrypt && mayEncrypt, now);
      if refusal.Some? {
        return Err(refusal.value);
      }
      var p := DecryptData(a, source, ciphertext, mayDecrypt, now);
      if p.Err? {
        return Err(p.error);
      }
      r := EncryptData(a, dest, p.value, nonce, mayEncrypt, now);
    }
  }

  // ---------- Runs of the whole system ----------

  datatype Event = KeyEvent(step: KeyNode.Step) | VaultEvent(action: Vault.Step)

  ghost function After(s: System, e: Event): System {
    match e
    case KeyEvent(step) => s.(node := KeyNode.After(s.node, step))
    case VaultEvent(action) =>
      System(Vault.After(s.vault, action),
             if action.EmergencySeal? then KeyNode.After(s.node, ClearCache) else s.node)
  }

  ghost function Run(s: System, events: seq<Event>): System
    decreases |events|
  {
    if |events| == 0 then s else After(Run(s, events[..|events| - 1]), events[|events| - 1])
  }

  ghost predicate Permitted(s: System, e: Event) {
    e.KeyEvent? ==> KeyNode.Permitted(s.node, e.step)
  }

  /** An event that removes or replaces the version itself. */
  ghost predicate Spares(e: Event, k: VersionId) {
    e.KeyEvent? && e.step.Apply? ==>
      match e.step.op
      case OpShred(id, v) => VersionId(id, v) != k
      case OpCreate(id, _, _, _, _, _) => id != k.id
      case OpImport(id, _, _) => id != k.id
      case _ => true
  }

  /** Creations use unused ids, the version is spared, and only this master key ever unseals. */
  ghost predicate Faithful(s: System, events: seq<Event>, k: VersionId, masterKey: Bytes) {
    forall i | 0 <= i < |events| ::
      && Permitted(Run(s, events[..i]), events[i]) && Spares(events[i], k)
      && After(Run(s, events[..i]), events[i]).vault.masterKey in {None, Some(masterKey)}
  }

  /** The row still holds the material and no negative entry hides it. */
  ghost predicate Kept(n: Node, k: VersionId, material: Bytes) {
    Coherent(n) && k in n.db.keys && n.db.keys[k].material == material && k !in n.cache.negative
  }

  lemma NextKeepsMaterial(db: Db, op: Op, k: VersionId)
    requires Sound(db) && Allowed(db, op) && k in db.keys && Spares(KeyEvent(Apply(op)), k)
    ensures k in Next(db, op).keys && Next(db, op).keys[k].material == db.keys[k].material
  {
    hide Sound, LatestVersion;
    if op.OpRotate? && Outcome(db, op).Ok? {
      RotateAdvancesIndex(db, op.id, op.material, op.now);
    }
  }

  lemma StepKeepsKept(n: Node, s: KeyNode.Step, k: VersionId, material: Bytes)
    requires Kept(n, k, material) && KeyNode.Permitted(n, s) && Spares(KeyEvent(s), k)
    ensures Kept(KeyNode.After(n, s), k, material)
  {
    AfterKeepsCoherent(n, s);
    if s.Apply? {
      NextKeepsMaterial(n.db, s.op, k);
      InvalidateClears(n.cache, s.op.id);
    } else if s.InvalidateCache? {
      InvalidateClears(n.cache, s.id);
    }
    hide Sound, Next, Invalidate;
  }

  lemma {:induction false} RunKeepsKept(s: System, events: seq<Event>, k: VersionId, material: Bytes, masterKey: Bytes)
    requires Kept(s.node, k, material) && Faithful(s, events, k, masterKey)
    requires s.vault.masterKey in {None, Some(masterKey)} && Vault.Consistent(s.vault)
    ensures Kept(Run(s, events).node, k, material) && Vault.Consistent(Run(s, events).vault)
    ensures Run(s, events).vault.masterKey in {None, Some(masterKey)}
    decreases |events|
  {
    hide Kept, Vault.After, KeyNode.After, Spares, KeyNode.Permitted, Vault.Consistent;
    if |events| > 0 {
      var last := |events| - 1;
      var before, e := Run(s, events[..last]), events[last];
      FaithfulPrefix(s, events, k, masterKey, last);
      RunKeepsKept(s, events[..last], k, material, masterKey);
      if e.KeyEvent? {
        StepKeepsKept(before.node, e.step, k, material);
      } else {
        Vault.AfterStaysConsistent(before.vault, e.action);
        ClearIsHarmless(before.node, k);
        StepKeepsKept(before.node, ClearCache, k, material);
      }
    }
  }

  lemma ClearIsHarmless(n: Node, k: VersionId)
    ensures KeyNode.Permitted(n, ClearCache) && Spares(KeyEvent(ClearCache), k)
  {}

  lemma FaithfulPrefix(s: System, events: seq<Event>, k: VersionId, masterKey: Bytes, n: nat)
    requires n <= |events| && Faithful(s, events, k, masterKey)
    ensures Faithful(s, events[..n], k, masterKey)
  {
    hide Permitted, Spares, Run, After;
    forall i | 0 <= i < n
      ensures Permitted(Run(s, events[..n][..i]), events[..n][i]) && Spares(events[..n][i], k)
      ensures After(Run(s, events[..n][..i]), events[..n][i]).vault.masterKey in {None, Some(masterKey)}
    {
      assert events[..n][..i] == events[..i];
    }
  }

  /** A successful Encrypt leaves its version looked up, so no negative entry hides it. */
  lemma EncryptKeeps(a: Aead, s: System, id: string, plaintext: Bytes, nonce: Bytes)
    requires Coherent(s.node) && Encrypt(a, s, id, plaintext, nonce, true).Ok?
    ensures var meta := ForEncrypt(s.node, id).value;
            Kept(AfterEncrypt(s, id, true).node, VersionId(id, meta.version), meta.material)
  {
    hide LatestVersion, SealUnder, Invalidate;
    var k := VersionId(id, LatestVersion(s.node.db, id).value);
    AfterKeepsCoherent(s.node, Lookup(k));
    assert SoundRow(s.node.db, k);
  }

  /** Opening under the same stored key undoes sealing under it. */
  lemma OpenUndoesSeal(
    a: Aead, v: Vault.View, meta: Metadata, nonce: Bytes, plaintext: Bytes, v': Vault.View, meta': Metadata)
    requires Lawful(a) && |nonce| == NONCE_SIZE && 0 <= meta.version < LIMIT
    requires SealUnder(a, v, meta, nonce, plaintext).Ok?
    requires v'.state == Vault.Unsealed && v'.masterKey == v.masterKey && meta'.material == meta.material
    ensures var c := SealUnder(a, v, meta, nonce, plaintext).value;
            && Decode(c).Ok? && Decode(c).value.version == meta.version
            && OpenUnder(a, v', meta', c) == Ok(plaintext)
  {
    hide EncryptVersioned, DecryptVersioned, Decode, Unwrap;
    var dek := Unwrap(a, v.masterKey.value, meta.material).value;
    KeySizeChecked(a, dek, meta.version, nonce, plaintext);
    DecryptUndoesEncrypt(a, dek, meta.version, nonce, plaintext);
  }

  lemma KeySizeChecked(a: Aead, key: Bytes, version: nat, nonce: Bytes, plaintext: Bytes)
    requires version < LIMIT && EncryptVersioned(a, key, version, nonce, plaintext).Ok?
    ensures |key| == KEY_SIZE
  {}

  lemma LoadKept(n: Node, k: VersionId, material: Bytes)
    requires Kept(n, k, material)
    ensures ForDecrypt(Load(n, k)).Ok? && ForDecrypt(Load(n, k)).value.material == material
  {
    DecryptIgnoresCache(n, k);
    LiveRow(n.db, k);
  }

  /**
    Durability: what Encrypt returned decrypts to its plaintext after any run of
    rotations, soft deletions, restores, lookups, cache clears, seals and
    unseals with the same master key, and shreds of other versions.
    */
  lemma CiphertextsSurvive(a: Aead, s: System, id: string, plaintext: Bytes, nonce: Bytes, events: seq<Event>)
    requires Lawful(a) && |nonce| == NONCE_SIZE && Coherent(s.node) && Vault.Consistent(s.vault)
    requires Encrypt(a, s, id, plaintext, nonce, true).Ok? && ForEncrypt(s.node, id).value.version < LIMIT
    requires var s1 := AfterEncrypt(s, id, true);
             var k := VersionId(id, ForEncrypt(s.node, id).value.version);
             && Faithful(s1, events, k, s.vault.masterKey.value)
             && Run(s1, events).vault.state == Vault.Unsealed
    ensures var c := Encrypt(a, s, id, plaintext, nonce, true).value;
            Decrypt(a, Run(AfterEncrypt(s, id, true), events), id, c, true) == Ok(plaintext)
  {
    var meta, s1 := ForEncrypt(s.node, id).value, AfterEncrypt(s, id, true);
    var k := VersionId(id, meta.version);
    EncryptKeeps(a, s, id, plaintext, nonce);
    assert SoundRow(s1.node.db, k);
    hide Kept, Faithful, Run, ForEncrypt, LatestVersion, SealUnder, OpenUnder, Load, Decode, SoundRow, KeyNode.After;
    RunKeepsKept(s1, events, k, meta.material, s.vault.masterKey.value);
    var s2 := Run(s1, events);
    LoadKept(s2.node, k, meta.material);
    var meta2 := ForDecrypt(Load(s2.node, k)).value;
    OpenUndoesSeal(a, s.vault, meta, nonce, plaintext, s2.vault, meta2);
  }

  /** The bound on the version is needed: SafeUint32 stamps a larger one 0, and no store holds a version 0. */
  lemma OversizedVersionIsLost(a: Aead, s: System, id: string, plaintext: Bytes, nonce: Bytes, later: System)
    requires Lawful(a) && |nonce| == NONCE_SIZE && Coherent(later.node)
    requires Encrypt(a, s, id, plaintext, nonce, true).Ok? && ForEncrypt(s.node, id).value.version >= LIMIT
    ensures Decrypt(a, later, id, Encrypt(a, s, id, plaintext, nonce, true).value, true).Err?
  {
    hide LatestVersion, Load, Decode, Encode, Unwrap;
    var dek := Unwrap(a, s.vault.masterKey.value, ForEncrypt(s.node, id).value.material).value;
    KeySizeChecked(a, dek, 0, nonce, plaintext);
    DecryptUndoesEncrypt(a, dek, 0, nonce, plaintext);
    NoVersionZero(later.node, id);
  }

  lemma NoVersionZero(n: Node, id: string)
    requires Coherent(n)
    ensures Load(n, VersionId(id, 0)).Err?
  {
    hide Sound;
    VersionsArePositive(n.db, VersionId(id, 0));
  }

  lemma VersionsArePositive(db: Db, k: VersionId)
    requires Sound(db)
    ensures k in db.keys ==> k.version >= 1
  {
    assert k in db.keys ==> SoundRow(db, k);
  }

  /** The wrapped key from GenerateDataKey survives in the same way. */
  lemma DataKeysSurvive(a: Aead, s: System, id: string, dataKey: Bytes, nonce: Bytes, events: seq<Event>)
    requires Lawful(a) && |nonce| == NONCE_SIZE && Coherent(s.node) && Vault.Consistent(s.vault)
    requires GenerateDataKey(a, s, id, dataKey, nonce, true).Ok? && ForEncrypt(s.node, id).value.version < LIMIT
    requires var s1 := AfterEncrypt(s, id, true);
             var k := VersionId(id, ForEncrypt(s.node, id).value.version);
             && Faithful(s1, events, k, s.vault.masterKey.value)
             && Run(s1, events).vault.state == Vault.Unsealed
    ensures var c := GenerateDataKey(a, s, id, dataKey, nonce, true).value;
            Decrypt(a, Run(AfterEncrypt(s, id, true), events), id, c, true) == Ok(dataKey)
  {
    hide Faithful, Run, ForEncrypt, SealUnder, AfterEncrypt, Decrypt;
    CiphertextsSurvive(a, s, id, dataKey, nonce, events);
  }

  /** ReEncrypt's output decrypts, under the destination key, to what the source ciphertext held. */
  lemma ReEncryptionsSurvive(
    a: Aead, s: System, source: string, c: Bytes, dest: string, nonce: Bytes, events: seq<Event>)
    requires Lawful(a) && |nonce| == NONCE_SIZE && Coherent(s.node) && Vault.Consistent(s.vault)
    requires ReEncrypt(a, s, source, c, dest, nonce, true, true).Ok?
    requires var mid := AfterDecrypt(s, source, c, true);
             var s1 := AfterEncrypt(mid, dest, true);
             && ForEncrypt(mid.node, dest).Ok? && ForEncrypt(mid.node, dest).value.version < LIMIT
             && Faithful(s1, events, VersionId(dest, ForEncrypt(mid.node, dest).value.version), s.vault.masterKey.value)
             && Run(s1, events).vault.state == Vault.Unsealed
    ensures var s1 := AfterEncrypt(AfterDecrypt(s, source, c, true), dest, true);
            var moved := ReEncrypt(a, s, source, c, dest, nonce, true, true).value;
            && Decrypt(a, s, source, c, true).Ok?
            && Decrypt(a, Run(s1, events), dest, moved, true) == Decrypt(a, s, source, c, true)
  {
    var mid := AfterDecrypt(s, source, c, true);
    var p := Decrypt(a, s, source, c, true).value;
    if Decode(c).Ok? {
      AfterKeepsCoherent(s.node, Lookup(VersionId(source, Decode(c).value.version)));
    }
    hide Faithful, Run, ForEncrypt, SealUnder, AfterEncrypt, Decrypt, Coherent;
    CiphertextsSurvive(a, mid, dest, p, nonce, events);
  }

  // ---------- Keys that were wrapped under the master key ----------

  /** Material that WrapDEK made from a 32-byte key. */
  ghost predicate IsWrapped(a: Aead, masterKey: Bytes, material: Bytes) {
    exists nonce: Bytes, dek: Bytes | |nonce| == NONCE_SIZE && |dek| == KEY_SIZE ::
      Wrap(a, masterKey, nonce, dek) == Some(material)
  }

  ghost predicate AllWrapped(a: Aead, masterKey: Bytes, db: Db) {
    forall k | k in db.keys :: IsWrapped(a, masterKey, db.keys[k].material)
  }

  /** CreateKey, ImportKey and RotateKey store what WrapDEK returned. */
  ghost predicate Supplies(a: Aead, masterKey: Bytes, s: KeyNode.Step) {
    s.Apply? && (s.op.OpCreate? || s.op.OpImport? || s.op.OpRotate?) && s.op.material.Some? ==>
      IsWrapped(a, masterKey, s.op.material.value)
  }

  lemma StepKeepsWrapped(a: Aead, masterKey: Bytes, n: Node, s: KeyNode.Step)
    requires AllWrapped(a, masterKey, n.db) && Supplies(a, masterKey, s)
    ensures AllWrapped(a, masterKey, KeyNode.After(n, s).db)
  {
    hide IsWrapped, LatestVersion, Invalidate;
  }

  lemma {:induction false} RunKeepsWrapped(a: Aead, masterKey: Bytes, n: Node, steps: seq<KeyNode.Step>)
    requires AllWrapped(a, masterKey, n.db) && forall s | s in steps :: Supplies(a, masterKey, s)
    ensures AllWrapped(a, masterKey, KeyNode.Run(n, steps).db)
    decreases |steps|
  {
    hide AllWrapped, Supplies, KeyNode.After;
    if |steps| > 0 {
      var last := |steps| - 1;
      assert steps[last] in steps;
      assert forall s | s in steps[..last] :: s in steps;
      RunKeepsWrapped(a, masterKey, n, steps[..last]);
      StepKeepsWrapped(a, masterKey, KeyNode.Run(n, steps[..last]), steps[last]);
    }
  }

  lemma UnwrapsToKey(a: Aead, masterKey: Bytes, material: Bytes)
    requires Lawful(a) && |masterKey| == KEY_SIZE && IsWrapped(a, masterKey, material)
    ensures Unwrap(a, masterKey, material).Some? && |Unwrap(a, masterKey, material).value| == KEY_SIZE
  {
    hide Unwrap;
    var nonce: Bytes, dek: Bytes :|
      |nonce| == NONCE_SIZE && |dek| == KEY_SIZE && Wrap(a, masterKey, nonce, dek) == Some(material);
    UnwrapUndoesWrap(a, masterKey, nonce, dek);
  }

  /** With wrapped keys and an open vault, Encrypt fails only where no usable key is found. */
  lemma EncryptSucceedsExactly(a: Aead, s: System, id: string, plaintext: Bytes, nonce: Bytes, masterKey: Bytes)
    requires Lawful(a) && Coherent(s.node) && Vault.Consistent(s.vault) && AllWrapped(a, masterKey, s.node.db)
    requires s.vault.masterKey == Some(masterKey) && |masterKey| == KEY_SIZE
    ensures Encrypt(a, s, id, plaintext, nonce, true).Ok? <==> ForEncrypt(s.node, id).Ok?
  {
    hide LatestVersion, IsWrapped, Unwrap, Sound, Encode;
    if ForEncrypt(s.node, id).Ok? {
      var meta := ForEncrypt(s.node, id).value;
      var k := VersionId(id, LatestVersion(s.node.db, id).value);
      assert meta.material == s.node.db.keys[k].material;
      UnwrapsToKey(a, masterKey, meta.material);
    }
  }

  /** An Active version is usable unless a live negative entry hides it. */
  lemma ActiveIsUsable(n: Node, k: VersionId)
    requires Coherent(n) && k in n.db.keys && n.db.keys[k].state == Active && !IsNegative(n.cache, k, n.clock)
    ensures ForEncrypt(n, k.id) == Ok(n.db.keys[k])
  {
    hide LatestVersion, Sound;
    LatestWhenSound(n.db, k.id);
  }

  /**
    From an empty store, in every run whose keys are wrapped under the master
    key: an Active version encrypts, and what it encrypted decrypts again after
    every further run that spares the version.
    */
  lemma ActiveKeysRoundTrip(
    a: Aead, steps: seq<KeyNode.Step>, vault: Vault.View, k: VersionId, plaintext: Bytes, nonce: Bytes,
    masterKey: Bytes, events: seq<Event>)
    requires Lawful(a) && |nonce| == NONCE_SIZE && |masterKey| == KEY_SIZE
    requires Vault.Consistent(vault) && !vault.emergency && vault.masterKey == Some(masterKey)
    requires PermittedRun(START, steps) && forall s | s in steps :: Supplies(a, masterKey, s)
    requires var n := KeyNode.Run(START, steps);
             && k in n.db.keys && n.db.keys[k].state == Active && k.version < LIMIT
             && !IsNegative(n.cache, k, n.clock)
    requires var s1 := AfterEncrypt(System(vault, KeyNode.Run(START, steps)), k.id, true);
             Faithful(s1, events, k, masterKey) && Run(s1, events).vault.state == Vault.Unsealed
    ensures var s := System(vault, KeyNode.Run(START, steps));
            var c := Encrypt(a, s, k.id, plaintext, nonce, true);
            c.Ok? && Decrypt(a, Run(AfterEncrypt(s, k.id, true), events), k.id, c.value, true) == Ok(plaintext)
  {
    StartIsCoherent();
    hide KeyNode.Run, Run, Faithful, Encrypt, Decrypt, AfterEncrypt, Coherent, AllWrapped, PermittedRun, ForEncrypt;
    var n := KeyNode.Run(START, steps);
    RunKeepsCoherent(START, steps);
    EmptyIsWrapped(a, masterKey);
    RunKeepsWrapped(a, masterKey, START, steps);
    ActiveIsUsable(n, k);
    RowHasVersion(n, k);
    EncryptSucceedsExactly(a, System(vault, n), k.id, plaintext, nonce, masterKey);
    CiphertextsSurvive(a, System(vault, n), k.id, plaintext, nonce, events);
  }

  lemma StartIsCoherent()
    ensures Coherent(START)
  {}

  lemma EmptyIsWrapped(a: Aead, masterKey: Bytes)
    ensures AllWrapped(a, masterKey, START.db)
  {}

  lemma RowHasVersion(n: Node, k: VersionId)
    requires Coherent(n) && k in n.db.keys
    ensures n.db.keys[k].version == k.version
  {
    assert SoundRow(n.db, k);
  }

  // ---------- Who is served ----------

  /** A caller without permission gets an error from every operation, and leaves no trace in the cache. */
  lemma DeniedGetsNothing(
    a: Aead, s: System, id: string, data: Bytes, dest: string, nonce: Bytes, mayDecrypt: bool, mayEncrypt: bool)
    requires !mayDecrypt || !mayEncrypt
    ensures var refusal := if s.vault.emergency || s.vault.state == Vault.Sealed then VaultSealed else AccessDenied;
            && Encrypt(a, s, id, data, nonce, false) == Err(refusal) && AfterEncrypt(s, id, false) == s
            && Decrypt(a, s, id, data, false) == Err(refusal) && AfterDecrypt(s, id, data, false) == s
            && GenerateDataKey(a, s, id, data, nonce, false) == Err(refusal)
            && ReEncrypt(a, s, id, data, dest, nonce, mayDecrypt, mayEncrypt) == Err(refusal)
            && AfterReEncrypt(a, s, id, data, dest, mayDecrypt, mayEncrypt) == s
  {}

  /** A sealed or emergency-sealed vault serves nobody. */
  lemma SealedServesNobody(
    a: Aead, s: System, id: string, data: Bytes, dest: string, nonce: Bytes, mayDecrypt: bool, mayEncrypt: bool)
    requires s.vault.emergency || s.vault.state == Vault.Sealed
    ensures Encrypt(a, s, id, data, nonce, mayEncrypt) == Err(VaultSealed) && AfterEncrypt(s, id, mayEncrypt) == s
    ensures Decrypt(a, s, id, data, mayDecrypt) == Err(VaultSealed) && AfterDecrypt(s, id, data, mayDecrypt) == s
    ensures GenerateDataKey(a, s, id, data, nonce, mayEncrypt) == Err(VaultSealed)
    ensures ReEncrypt(a, s, id, data, dest, nonce, mayDecrypt, mayEncrypt) == Err(VaultSealed)
    ensures AfterReEncrypt(a, s, id, data, dest, mayDecrypt, mayEncrypt) == s
  {}

  // ---------- Which keys are used ----------

  /** Opening under another key fails, as authenticated encryption promises. */
  ghost predicate Committing(a: Aead) {
    forall k, other, n, p | k != other :: a.open(other, n, a.seal(k, n, p)) == None
  }

  /** Under another master key no stored key opens, so nothing encrypts or decrypts. */
  lemma OtherMasterKeyOpensNothing(a: Aead, s: System, id: string, data: Bytes, nonce: Bytes, masterKey: Bytes)
    requires Committing(a) && Coherent(s.node) && AllWrapped(a, masterKey, s.node.db)
    requires s.vault.masterKey.Some? && s.vault.masterKey.value != masterKey
    ensures Encrypt(a, s, id, data, nonce, true).Err? && Decrypt(a, s, id, data, true).Err?
  {
    hide LatestVersion, IsWrapped, Unwrap, Sound, Decode, EncryptVersioned, DecryptVersioned;
    var other := s.vault.masterKey.value;
    forall k | k in s.node.db.keys
      ensures Unwrap(a, other, s.node.db.keys[k].material).None?
    {
      OtherKeyUnwrapsNothing(a, masterKey, other, s.node.db.keys[k].material);
    }
  }

  lemma OtherKeyUnwrapsNothing(a: Aead, masterKey: Bytes, other: Bytes, material: Bytes)
    requires Committing(a) && IsWrapped(a, masterKey, material) && other != masterKey
    ensures Unwrap(a, other, material).None?
  {
    var nonce: Bytes, dek: Bytes :|
      |nonce| == NONCE_SIZE && |dek| == KEY_SIZE && Wrap(a, masterKey, nonce, dek) == Some(material);
    assert material[..NONCE_SIZE] == nonce && material[NONCE_SIZE..] == a.seal(masterKey, nonce, dek);
  }

  /** A ciphertext does not open under a stored key that unwraps to another data key. */
  lemma OtherDataKeyOpensNothing(
    a: Aead, v: Vault.View, meta: Metadata, other: Metadata, nonce: Bytes, plaintext: Bytes, v': Vault.View)
    requires Lawful(a) && Committing(a) && |nonce| == NONCE_SIZE && SealUnder(a, v, meta, nonce, plaintext).Ok?
    requires v'.masterKey.Some?
    requires Unwrap(a, v.masterKey.value, meta.material) != Unwrap(a, v'.masterKey.value, other.material)
    ensures OpenUnder(a, v', other, SealUnder(a, v, meta, nonce, plaintext).value).Err?
  {
    hide Unwrap, Encode, Decode;
    var dek := Unwrap(a, v.masterKey.value, meta.material).value;
    DecodeUndoesEncode(SafeUint32(meta.version), nonce, a.seal(dek, nonce, plaintext));
  }

  /** A ciphertext is 32 bytes longer than its plaintext and carries its nonce after the version. */
  lemma CiphertextLayout(a: Aead, s: System, id: string, plaintext: Bytes, nonce: Bytes)
    requires Lawful(a) && |nonce| == NONCE_SIZE && Encrypt(a, s, id, plaintext, nonce, true).Ok?
    ensures var c := Encrypt(a, s, id, plaintext, nonce, true).value; |c| == |plaintext| + 32 && c[4..16] == nonce
  {
    hide LatestVersion, Load, Unwrap, PutUint32;
    var c := Encrypt(a, s, id, plaintext, nonce, true).value;
    var dek := Unwrap(a, s.vault.masterKey.value, ForEncrypt(s.node, id).value.material).value;
    var prefix := PutUint32(SafeUint32(ForEncrypt(s.node, id).value.version));
    assert c == prefix + nonce + a.seal(dek, nonce, plaintext);
  }
}
