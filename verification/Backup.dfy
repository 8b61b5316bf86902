/**
  Cold backup files (internal/seal/backup.go): one share per file behind a
  40-byte header. HMAC-SHA256 is a parameter mac with 32-byte results; file
  contents are byte sequences, reading and writing them is not modelled.
  */
module Backup {
  import opened Gf256
  import opened GfTables
  import opened Shamir
  import opened Options

  /** "YVSB" */
  const MAGIC: seq<Byte> := [Byte(0x59), Byte(0x56), Byte(0x53), Byte(0x42)]
  const VERSION := Byte(0x01)
  const HEADER := 40

  datatype BackupShare = BackupShare(
    version: Byte, total: Byte, threshold: Byte, index: Byte, hmac: seq<Byte>, share: Share)

  datatype DecodeError = TooShort | BadMagic | BadVersion

  datatype RestoreError = TooFewFiles | BadFile(DecodeError) | HmacMismatch | BadShares(CombineError)

  // ---------- The file format ----------

  function Encode(total: Byte, threshold: Byte, index: Byte, hmac: seq<Byte>, share: Share): seq<Byte> {
    MAGIC + [VERSION, total, threshold, index] + hmac + share
  }

  /** encodeBackupShare: fills the buffer field by field. */
  method EncodeBackupShare(total: Byte, threshold: Byte, index: Byte, hmac: seq<Byte>, share: Share)
    returns (out: array<Byte>)
    requires |hmac| == 32
    ensures fresh(out) && out[..] == Encode(total, threshold, index, hmac, share)
    ensures out.Length == 40 + |share| && out[8..40] == hmac && out[40..] == share
    ensures out[..4] == [Byte(0x59), Byte(0x56), Byte(0x53), Byte(0x42)] && out[4] == Byte(1)
    ensures out[5] == total && out[6] == threshold && out[7] == index
  {
    out := new Byte[HEADER + |share|];
    forall i | 0 <= i < 4 {
      out[i] := MAGIC[i];
    }
    out[4], out[5], out[6], out[7] := VERSION, total, threshold, index;
    forall i | 8 <= i < HEADER {
      out[i] := hmac[i - 8];
    }
    forall i | HEADER <= i < HEADER + |share| {
      out[i] := share[i - HEADER];
    }
    assert out[..4] == MAGIC;
    assert out[8..HEADER] == hmac && out[HEADER..] == share;
    assert out[..] == out[..4] + [out[4], out[5], out[6], out[7]] + out[8..HEADER] + out[HEADER..];
  }

  function Decode(data: seq<Byte>): Result<BackupShare, DecodeError> {
    if |data| < HEADER then Err(TooShort)
    else if data[..4] != MAGIC then Err(BadMagic)
    else if data[4] != VERSION then Err(BadVersion)
    else Ok(BackupShare(data[4], data[5], data[6], data[7], data[8..HEADER], data[HEADER..]))
  }

  lemma DecodeUndoesEncode(total: Byte, threshold: Byte, index: Byte, hmac: seq<Byte>, share: Share)
    requires |hmac| == 32
    ensures Decode(Encode(total, threshold, index, hmac, share)) ==
            Ok(BackupShare(VERSION, total, threshold, index, hmac, share))
  {
    var data := Encode(total, threshold, index, hmac, share);
    assert data[..4] == MAGIC;
    assert data[8..HEADER] == hmac && data[HEADER..] == share;
  }

  /** Every accepted file is the encoding of what was read from it. */
  lemma EncodeUndoesDecode(data: seq<Byte>)
    requires Decode(data).Ok?
    ensures var b := Decode(data).value;
            |b.hmac| == 32 && Encode(b.total, b.threshold, b.index, b.hmac, b.share) == data
  {
    assert data == data[..4] + [data[4], data[5], data[6], data[7]] + data[8..HEADER] + data[HEADER..];
  }

  // ---------- Splitting into files and restoring ----------

  ghost function Files(shares: seq<Share>, threshold: nat, mac: seq<Byte> -> seq<Byte>): (files: seq<seq<Byte>>)
    requires threshold < 256 && |shares| < 256
    ensures |files| == |shares|
  {
    seq(|shares|, i requires 0 <= i < |shares| =>
      Encode(ToByte(|shares|), ToByte(threshold), ToByte(i), mac(shares[i]), shares[i]))
  }

  method SplitToFiles(
    t: Tables, cmk: seq<Byte>, total: int, threshold: int, draw: nat -> Option<seq<Byte>>,
    mac: seq<Byte> -> seq<Byte>)
    returns (r: Result<seq<seq<Byte>>, SplitError>)
    requires t.Valid()
    requires forall i: nat :: draw(i).Some? ==> |draw(i).value| == threshold - 1
    requires forall m :: |mac(m)| == 32
    ensures r.Ok? <==> 2 <= total <= 255 && 2 <= threshold <= total && |cmk| > 0 &&
                       forall i: nat | i < |cmk| :: draw(i).Some?
    ensures r.Ok? ==>
              r.value == Files(
                SharesOf(cmk, seq(|cmk|, i requires 0 <= i < |cmk| => draw(i).value), total), threshold, mac)
  {
    if total < 2 || total > 255 {
      return Err(BadParts);
    }
    if threshold < 2 || threshold > total {
      return Err(BadThreshold);
    }
    if |cmk| == 0 {
      return Err(EmptySecret);
    }
    hide SharesOf, Files;
    var split := Split(t, cmk, total, threshold, draw);
    if split.Err? {
      return Err(split.error);
    }
    var files := EncodeAll(split.value, threshold, mac);
    r := Ok(files);
  }

  method EncodeAll(shares: seq<Share>, threshold: nat, mac: seq<Byte> -> seq<Byte>) returns (files: seq<seq<Byte>>)
    requires threshold < 256 && |shares| < 256 && forall m :: |mac(m)| == 32
    ensures files == Files(shares, threshold, mac)
  {
    hide Encode, ToByte;
    files := [];
    for i := 0 to |shares|
      invariant |files| == i
      invariant forall k | 0 <= k < i ::
                  files[k] == Encode(ToByte(|shares|), ToByte(threshold), ToByte(k), mac(shares[k]), shares[k])
    {
      var data := EncodeBackupShare(ToByte(|shares|), ToByte(threshold), ToByte(i), mac(shares[i]), shares[i]);
      files := files + [data[..]];
    }
  }

  /** A file that decodes and whose HMAC matches its share. */
  predicate Intact(data: seq<Byte>, mac: seq<Byte> -> seq<Byte>) {
    Decode(data).Ok? && Decode(data).value.hmac == mac(Decode(data).value.share)
  }

  predicate AllIntact(files: seq<seq<Byte>>, mac: seq<Byte> -> seq<Byte>) {
    forall i | 0 <= i < |files| :: Intact(files[i], mac)
  }

  function SharesIn(files: seq<seq<Byte>>, mac: seq<Byte> -> seq<Byte>): (shares: seq<Share>)
    requires AllIntact(files, mac)
    ensures |shares| == |files|
  {
    seq(|files|, i requires 0 <= i < |files| => Decode(files[i]).value.share)
  }

  /** CombineWrappedCMKFromFiles. The threshold in the headers is not consulted. */
  method CombineFromFiles(t: Tables, files: seq<seq<Byte>>, mac: seq<Byte> -> seq<Byte>)
    returns (r: Result<seq<Byte>, RestoreError>)
    requires t.Valid()
    ensures r.Ok? <==>
            |files| >= 2 && AllIntact(files, mac) && WellFormed(SharesIn(files, mac))
    ensures r.Ok? ==> r.value == Combined(SharesIn(files, mac))
  {
    hide WellFormed, Combined, Decode;
    if |files| < 2 {
      return Err(TooFewFiles);
    }
    var shares: seq<Share> := [];
    for i := 0 to |files|
      invariant |shares| == i
      invariant forall k | 0 <= k < i :: Intact(files[k], mac) && shares[k] == Decode(files[k]).value.share
    {
      var decoded := Decode(files[i]);
      if decoded.Err? {
        return Err(BadFile(decoded.error));
      }
      if decoded.value.hmac != mac(decoded.value.share) {
        return Err(HmacMismatch);
      }
      shares := shares + [decoded.value.share];
    }
    assert shares == SharesIn(files, mac);
    var combined := Combine(t, shares);
    if combined.Err? {
      return Err(BadShares(combined.error));
    }
    return Ok(combined.value);
  }

  ghost function ChosenFiles(files: seq<seq<Byte>>, pick: seq<nat>): (r: seq<seq<Byte>>)
    requires Choice(pick, |files|)
    ensures |r| == |pick|
  {
    seq(|pick|, k requires 0 <= k < |pick| => files[pick[k]])
  }

  lemma FilesHoldShares(shares: seq<Share>, threshold: nat, mac: seq<Byte> -> seq<Byte>, pick: seq<nat>)
    requires threshold < 256 && |shares| < 256 && Choice(pick, |shares|) && forall m :: |mac(m)| == 32
    ensures var chosen := ChosenFiles(Files(shares, threshold, mac), pick);
            && AllIntact(chosen, mac)
            && SharesIn(chosen, mac) == Chosen(shares, pick)
  {
    hide Encode, Decode, ToByte;
    var chosen := ChosenFiles(Files(shares, threshold, mac), pick);
    forall k | 0 <= k < |pick|
      ensures Intact(chosen[k], mac) && Decode(chosen[k]).value.share == shares[pick[k]]
    {
      var i := pick[k];
      DecodeUndoesEncode(ToByte(|shares|), ToByte(threshold), ToByte(i), mac(shares[i]), shares[i]);
    }
  }

  /** Every file says what it is: its share, the parameters of the split and its place, and the HMAC of the share. */
  lemma FilesSayWhatTheyAre(shares: seq<Share>, threshold: nat, mac: seq<Byte> -> seq<Byte>, i: nat)
    requires threshold < 256 && |shares| < 256 && i < |shares| && forall m :: |mac(m)| == 32
    ensures var file := Decode(Files(shares, threshold, mac)[i]);
            && file.Ok? && file.value.share == shares[i] && file.value.hmac == mac(shares[i])
            && Index(file.value.total) == |shares| && Index(file.value.threshold) == threshold
            && Index(file.value.index) == i
  {
    hide Encode, Decode, ToByte, Index;
    DecodeUndoesEncode(ToByte(|shares|), ToByte(threshold), ToByte(i), mac(shares[i]), shares[i]);
    IndexToByte(|shares|);
    IndexToByte(threshold);
    IndexToByte(i);
  }

  /** Any threshold or more backup files, in any order, restore exactly the wrapped key. */
  lemma FilesRestoreKey(
    cmk: seq<Byte>, coefs: seq<seq<Byte>>, total: nat, threshold: nat, mac: seq<Byte> -> seq<Byte>, pick: seq<nat>)
    requires |cmk| == |coefs| && |cmk| > 0 && 2 <= threshold <= total <= 255
    requires forall i | 0 <= i < |coefs| :: |coefs[i]| == threshold - 1
    requires (forall m :: |mac(m)| == 32) && Choice(pick, total) && |pick| >= threshold
    ensures var chosen := ChosenFiles(Files(SharesOf(cmk, coefs, total), threshold, mac), pick);
            && AllIntact(chosen, mac)
            && WellFormed(SharesIn(chosen, mac)) && Combined(SharesIn(chosen, mac)) == cmk
  {
    hide WellFormed, Combined, SharesOf, Files, Intact, Chosen;
    FilesHoldShares(SharesOf(cmk, coefs, total), threshold, mac, pick);
    SharesRecoverSecret(cmk, coefs, total, threshold, pick);
  }
}
