/**
  The seal state machine (internal/seal/state.go): shares collect in a pool,
  the threshold-th share unseals, sealing wipes, and an emergency seal is final.

  The automatic re-seal timer is an arbitrary Seal step.
  */
module Vault {
  import opened Gf256
  import opened GfTables
  import opened Shamir
  import opened Options
  import opened Collections

  datatype State = Sealed | Unsealed | Sealing

  datatype View = View(
    state: State, masterKey: Option<seq<Byte>>, pool: seq<Share>, threshold: int, emergency: bool)

  datatype VaultError = EmptyShare | NilKey | EmergencySealed | AlreadyUnsealed | CombineFailed

  /** A master key is present exactly when unsealed, and the pool never reaches the threshold. */
  ghost predicate Consistent(v: View) {
    && (v.state == Unsealed <==> v.masterKey.Some?) && v.state != Sealing
    && (|v.pool| < v.threshold || v.pool == [])
    && (v.emergency ==> v.state == Sealed && v.pool == [])
  }

  // ---------- Steps ----------

  datatype Step = ProvideShare(share: Share) | DirectUnseal(key: Option<seq<Byte>>) | Seal | EmergencySeal

  function Wiped(v: View): View {
    v.(state := Sealed, masterKey := None, pool := [])
  }

  ghost function AfterShare(v: View, share: Share): View {
    if share == [] || v.emergency || v.state == Unsealed then
      v
    else
      var pool := v.pool + [share];
      if |pool| < v.threshold then
        v.(pool := pool)
      else if WellFormed(pool) then
        v.(pool := [], masterKey := Some(Combined(pool)), state := Unsealed)
      else
        v.(pool := [])
  }

  ghost function After(v: View, step: Step): View {
    match step
    case ProvideShare(share) => AfterShare(v, share)
    case DirectUnseal(key) =>
      if key.None? || v.emergency || v.state == Unsealed then v else v.(masterKey := key, state := Unsealed)
    case Seal => if v.state == Sealed then v else Wiped(v)
    case EmergencySeal => Wiped(v).(emergency := true)
  }

  ghost function Run(v: View, steps: seq<Step>): View
    decreases |steps|
  {
    if |steps| == 0 then v else After(Run(v, steps[..|steps| - 1]), steps[|steps| - 1])
  }

  // ---------- The object ----------

  class VaultState {
    const tables: Tables
    const threshold: int
    var state: State
    var masterKey: Option<seq<Byte>>
    var collected: seq<Share>
    var emergency: bool

    ghost predicate Valid()
      reads this, tables.exp, tables.log
    {
      tables.Valid() && Consistent(Current())
    }

    ghost function Current(): View
      reads this
    {
      View(state, masterKey, collected, threshold, emergency)
    }

    constructor (tables: Tables, threshold: int)
      requires tables.Valid()
      ensures Valid() && Current() == View(Sealed, None, [], threshold, false)
    {
      this.tables, this.threshold := tables, threshold;
      state, masterKey, collected, emergency := Sealed, None, [], false;
    }

    method ProvideShare(share: Share) returns (unsealed: bool, err: Option<VaultError>)
      requires Valid()
      modifies this
      ensures Valid() && Current() == After(old(Current()), Step.ProvideShare(share))
      ensures unsealed == (share != [] && !emergency && state == Unsealed)
      ensures err.None? <==> share != [] && !old(emergency) && old(state) != Unsealed &&
                             (|old(collected)| + 1 < threshold || state == Unsealed)
      ensures err.None? && state != Unsealed ==> collected == old(collected) + [share] && masterKey == None
      ensures err.None? && state == Unsealed ==>
                && collected == [] && WellFormed(old(collected) + [share])
                && masterKey == Some(Combined(old(collected) + [share]))
      ensures err == Some(CombineFailed) ==> collected == [] && masterKey == None && state == Sealed
      ensures err.Some? && err != Some(CombineFailed) ==> Current() == old(Current())
    {
      if |share| == 0 {
        return false, Some(EmptyShare);
      }
      if emergency {
        return false, Some(EmergencySealed);
      }
      if state == Unsealed {
        return true, Some(AlreadyUnsealed);
      }
      collected := collected + [share];
      if |collected| < threshold {
        return false, None;
      }
      hide WellFormed, Combined;
      var combined := CombineWithThreshold(tables, collected, threshold);
      collected := [];
      if combined.Err? {
        return false, Some(CombineFailed);
      }
      masterKey := Some(combined.value);
      state := Unsealed;
      return true, None;
    }

    method DirectUnseal(key: Option<seq<Byte>>) returns (err: Option<VaultError>)
      requires Valid()
      modifies this
      ensures Valid() && Current() == After(old(Current()), Step.DirectUnseal(key))
      ensures err.None? <==> key.Some? && !old(emergency) && old(state) != Unsealed
      ensures err.None? ==> masterKey == key && state == Unsealed && collected == old(collected)
      ensures err.Some? ==> Current() == old(Current())
    {
      if key.None? {
        return Some(NilKey);
      }
      if emergency {
        return Some(EmergencySealed);
      }
      if state == Unsealed {
        return Some(AlreadyUnsealed);
      }
      masterKey, state := key, Unsealed;
      return None;
    }

    method Seal()
      requires Valid()
      modifies this
      ensures Valid() && Current() == After(old(Current()), Step.Seal)
      ensures state == Sealed && masterKey == None && emergency == old(emergency)
      ensures collected == if old(state) == Sealed then old(collected) else []
    {
      if state == Sealed {
        return;
      }
      state := Sealing;
      masterKey := None;
      collected := [];
      state := Sealed;
    }

    method EmergencySeal()
      requires Valid()
      modifies this
      ensures Valid() && Current() == After(old(Current()), Step.EmergencySeal)
      ensures emergency && state == Sealed && masterKey == None && collected == []
    {
      emergency := true;
      state := Sealing;
      masterKey := None;
      collected := [];
      state := Sealed;
    }

    /** KEKRef: the key is reachable only while unsealed. */
    method KekRef() returns (key: Option<seq<Byte>>)
      requires Valid()
      ensures key == masterKey && (key.Some? <==> state == Unsealed)
    {
      if state != Unsealed || masterKey.None? {
        return None;
      }
      return masterKey;
    }
  }

  // ---------- Every run ----------

  lemma AfterStaysConsistent(v: View, step: Step)
    requires Consistent(v)
    ensures Consistent(After(v, step))
  {
    hide WellFormed, Combined;
  }

  lemma {:induction false} RunStaysConsistent(v: View, steps: seq<Step>)
    requires Consistent(v)
    ensures Consistent(Run(v, steps))
    decreases |steps|
  {
    hide After, Consistent;
    if |steps| > 0 {
      RunStaysConsistent(v, steps[..|steps| - 1]);
      AfterStaysConsistent(Run(v, steps[..|steps| - 1]), steps[|steps| - 1]);
    }
  }

  /** After an emergency seal no run ever holds a key or a share again. */
  lemma {:induction false} EmergencyIsFinal(v: View, steps: seq<Step>)
    requires Consistent(v) && v.emergency
    ensures Run(v, steps) == v && v.masterKey.None? && v.pool == []
    decreases |steps|
  {
    hide WellFormed, Combined;
    if |steps| > 0 {
      EmergencyIsFinal(v, steps[..|steps| - 1]);
    }
  }

  /** A key given to DirectUnseal is the one in use until the next seal. */
  lemma {:induction false} DirectKeyStays(v: View, key: seq<Byte>, steps: seq<Step>)
    requires v.state != Unsealed && !v.emergency
    requires forall i | 0 <= i < |steps| :: !steps[i].Seal? && !steps[i].EmergencySeal?
    ensures var after := Run(After(v, Step.DirectUnseal(Some(key))), steps);
            after.state == Unsealed && after.masterKey == Some(key)
    decreases |steps|
  {
    if |steps| > 0 {
      DirectKeyStays(v, key, steps[..|steps| - 1]);
    }
  }

  ghost function Submit(shares: seq<Share>): (steps: seq<Step>)
    ensures |steps| == |shares|
  {
    seq(|shares|, i requires 0 <= i < |shares| => Step.ProvideShare(shares[i]))
  }

  /** Below the threshold shares only collect: nothing is unsealed early. */
  lemma {:induction false} SharesCollect(v: View, shares: seq<Share>, n: nat)
    requires v.state == Sealed && !v.emergency && v.pool == []
    requires n <= |shares| && n < v.threshold && forall s | s in shares :: s != []
    ensures Run(v, Submit(shares[..n])) == v.(pool := shares[..n])
    decreases n
  {
    hide WellFormed, Combined;
    if n > 0 {
      SharesCollect(v, shares, n - 1);
      assert Submit(shares[..n])[..n - 1] == Submit(shares[..n - 1]);
      assert shares[..n] == shares[..n - 1] + [shares[n - 1]];
      assert shares[n - 1] in shares;
    } else {
      assert v.(pool := shares[..0]) == v;
    }
  }

  lemma WellFormedNonEmpty(shares: seq<Share>)
    requires WellFormed(shares)
    ensures forall s | s in shares :: s != []
  {
    hide Distinct;
  }

  lemma Ceremony(v: View, shares: seq<Share>)
    requires v.state == Sealed && !v.emergency && v.pool == [] && v.masterKey.None?
    requires |shares| == v.threshold >= 2 && WellFormed(shares)
    ensures Run(v, Submit(shares)) == v.(state := Unsealed, masterKey := Some(Combined(shares)))
    ensures forall n: nat | n < v.threshold :: Run(v, Submit(shares[..n])).masterKey.None?
  {
    hide WellFormed, Combined, Run;
    WellFormedNonEmpty(shares);
    forall n: nat | n < v.threshold
      ensures Run(v, Submit(shares[..n])).masterKey.None?
    {
      SharesCollect(v, shares, n);
    }
    var n := v.threshold - 1;
    SharesCollect(v, shares, n);
    RunLast(v, Submit(shares));
    assert Submit(shares)[..n] == Submit(shares[..n]);
    assert shares[..n] + [shares[n]] == shares;
    assert shares[n] in shares;
  }

  lemma RunLast(v: View, steps: seq<Step>)
    requires |steps| > 0
    ensures Run(v, steps) == After(Run(v, steps[..|steps| - 1]), steps[|steps| - 1])
  {}

  /**
    The unseal ceremony: any threshold shares of one Split, in any order, unseal
    with exactly the split secret, and not one share earlier.
    */
  lemma UnsealCeremony(v: View, secret: seq<Byte>, coefs: seq<seq<Byte>>, parts: nat, pick: seq<nat>)
    requires v.state == Sealed && !v.emergency && v.pool == [] && v.masterKey.None?
    requires |secret| == |coefs| && |secret| > 0 && 2 <= v.threshold <= parts <= 255
    requires forall i | 0 <= i < |coefs| :: |coefs[i]| == v.threshold - 1
    requires Choice(pick, parts) && |pick| == v.threshold
    ensures var shares := Chosen(SharesOf(secret, coefs, parts), pick);
            && Run(v, Submit(shares)) == v.(state := Unsealed, masterKey := Some(secret))
            && forall n: nat | n < v.threshold :: Run(v, Submit(shares[..n])).masterKey.None?
  {
    hide WellFormed, Combined, Run, SharesOf, Chosen;
    SharesRecoverSecret(secret, coefs, parts, v.threshold, pick);
    Ceremony(v, Chosen(SharesOf(secret, coefs, parts), pick));
  }
}
