/**
  Self-routing ciphertexts (internal/crypto/versioned_ciphertext.go and
  versioned_encrypt.go): [version, 4 bytes big-endian][nonce, 12 bytes][body].

  AES-256-GCM is a parameter: any Aead whose open undoes its seal and whose
  seal adds a 16-byte tag. Nonces are parameters.
  */
module Ciphertext {
  import opened Options
  import opened Gf256
  import opened GfTables

  const NONCE_SIZE := 12
  const MIN_SIZE := 32
  const KEY_SIZE := 32
  const LIMIT := 0x1_0000_0000

  datatype Aead = Aead(seal: (Bytes, Bytes, Bytes) -> Bytes, open: (Bytes, Bytes, Bytes) -> Option<Bytes>)

  ghost predicate Lawful(a: Aead) {
    forall k, n, p :: a.open(k, n, a.seal(k, n, p)) == Some(p) && |a.seal(k, n, p)| == |p| + 16
  }

  datatype CryptoError = BadKeySize | TooShort | OpenFailed

  // ---------- The wire format ----------

  function SafeUint32(v: int): (r: nat)
    ensures r < LIMIT && (0 <= v < LIMIT ==> r == v)
  {
    if v < 0 || v > 4294967295 then 0 else v
  }

  function PutUint32(v: nat): (bs: Bytes)
    requires v < LIMIT
    ensures |bs| == 4
  {
    var v1 := v / 256;
    var v2 := v1 / 256;
    [ToByte(v2 / 256), ToByte(v2 % 256), ToByte(v1 % 256), ToByte(v % 256)]
  }

  function Uint32(bs: Bytes): (v: nat)
    requires |bs| == 4
    ensures v < LIMIT
  {
    ((Index(bs[0]) * 256 + Index(bs[1])) * 256 + Index(bs[2])) * 256 + Index(bs[3])
  }

  function Encode(version: nat, nonce: Bytes, body: Bytes): Bytes
    requires version < LIMIT
  {
    PutUint32(version) + nonce + body
  }

  datatype Parts = Parts(version: nat, nonce: Bytes, body: Bytes)

  function Decode(raw: Bytes): Result<Parts, CryptoError> {
    if |raw| < MIN_SIZE then Err(TooShort)
    else Ok(Parts(Uint32(raw[..4]), raw[4..4 + NONCE_SIZE], raw[4 + NONCE_SIZE..]))
  }

  lemma Uint32RoundTrip(v: nat)
    requires v < LIMIT
    ensures Uint32(PutUint32(v)) == v
  {
    hide Index, ToByte;
    var v1 := v / 256;
    var v2 := v1 / 256;
    IndexToByte(v2 / 256);
    IndexToByte(v2 % 256);
    IndexToByte(v1 % 256);
    IndexToByte(v % 256);
  }

  lemma DivMod256(x: nat, d: nat)
    requires d < 256
    ensures (x * 256 + d) / 256 == x && (x * 256 + d) % 256 == d
  {}

  lemma PutUint32RoundTrip(bs: Bytes)
    requires |bs| == 4
    ensures PutUint32(Uint32(bs)) == bs
  {
    hide Index, ToByte;
    var a, b, c, d := Index(bs[0]), Index(bs[1]), Index(bs[2]), Index(bs[3]);
    DivMod256((a * 256 + b) * 256 + c, d);
    DivMod256(a * 256 + b, c);
    DivMod256(a, b);
    ToByteIndex(bs[0]);
    ToByteIndex(bs[1]);
    ToByteIndex(bs[2]);
    ToByteIndex(bs[3]);
  }

  lemma DecodeUndoesEncode(version: nat, nonce: Bytes, body: Bytes)
    requires version < LIMIT && |nonce| == NONCE_SIZE && |body| >= 16
    ensures Decode(Encode(version, nonce, body)) == Ok(Parts(version, nonce, body))
  {
    hide PutUint32, Uint32;
    var raw := Encode(version, nonce, body);
    assert raw[..4] == PutUint32(version);
    assert raw[4..4 + NONCE_SIZE] == nonce && raw[4 + NONCE_SIZE..] == body;
    Uint32RoundTrip(version);
  }

  /** Anything of 32 bytes or more is taken apart; nothing shorter is. */
  lemma DecodesExactly(raw: Bytes)
    ensures Decode(raw).Ok? <==> |raw| >= 32
  {}

  lemma EncodeUndoesDecode(raw: Bytes)
    requires Decode(raw).Ok?
    ensures var p := Decode(raw).value; p.version < LIMIT && Encode(p.version, p.nonce, p.body) == raw
  {
    hide PutUint32, Uint32;
    PutUint32RoundTrip(raw[..4]);
  }

  /** EncodeVersionedCiphertext: fills an allocated buffer by copies. */
  method EncodeVersioned(version: nat, nonce: Bytes, body: Bytes) returns (out: array<Byte>)
    requires version < LIMIT
    ensures fresh(out) && out[..] == Encode(version, nonce, body)
    ensures out.Length == 4 + |nonce| + |body| && out[4..4 + |nonce|] == nonce && out[4 + |nonce|..] == body
    ensures version == 16_777_216 * Index(out[0]) + 65_536 * Index(out[1]) + 256 * Index(out[2]) + Index(out[3])
  {
    hide PutUint32;
    var prefix := PutUint32(version);
    var n := 4 + |nonce|;
    out := new Byte[n + |body|];
    forall i | 0 <= i < 4 {
      out[i] := prefix[i];
    }
    forall i | 4 <= i < n {
      out[i] := nonce[i - 4];
    }
    forall i | n <= i < n + |body| {
      out[i] := body[i - n];
    }
    assert out[..4] == prefix && out[4..n] == nonce && out[n..] == body;
    assert out[..] == out[..4] + out[4..n] + out[n..];
    Uint32RoundTrip(version);
    assert out[0] == prefix[0] && out[1] == prefix[1] && out[2] == prefix[2] && out[3] == prefix[3];
  }

  // ---------- Encryption ----------

  function EncryptVersioned(a: Aead, key: Bytes, version: nat, nonce: Bytes, plaintext: Bytes)
    : Result<Bytes, CryptoError>
    requires version < LIMIT
  {
    if |key| != KEY_SIZE then Err(BadKeySize) else Ok(Encode(version, nonce, a.seal(key, nonce, plaintext)))
  }

  function DecryptVersioned(a: Aead, key: Bytes, raw: Bytes): Result<(Bytes, nat), CryptoError> {
    var parts := Decode(raw);
    if parts.Err? then Err(parts.error)
    else if |key| != KEY_SIZE then Err(BadKeySize)
    else
      var p := a.open(key, parts.value.nonce, parts.value.body);
      if p.None? then Err(OpenFailed) else Ok((p.value, parts.value.version))
  }

  lemma DecryptUndoesEncrypt(a: Aead, key: Bytes, version: nat, nonce: Bytes, plaintext: Bytes)
    requires Lawful(a) && version < LIMIT && |nonce| == NONCE_SIZE && |key| == KEY_SIZE
    ensures var c := EncryptVersioned(a, key, version, nonce, plaintext).value;
            && Decode(c).Ok? && Decode(c).value.version == version
            && DecryptVersioned(a, key, c) == Ok((plaintext, version))
  {
    hide Encode, Decode;
    DecodeUndoesEncode(version, nonce, a.seal(key, nonce, plaintext));
  }

  // ---------- The key-encryption key (internal/seal/kek.go) ----------

  function Wrap(a: Aead, masterKey: Bytes, nonce: Bytes, dek: Bytes): Option<Bytes> {
    if |masterKey| != KEY_SIZE then None else Some(nonce + a.seal(masterKey, nonce, dek))
  }

  function Unwrap(a: Aead, masterKey: Bytes, wrapped: Bytes): Option<Bytes> {
    if |wrapped| < NONCE_SIZE || |masterKey| != KEY_SIZE then None
    else a.open(masterKey, wrapped[..NONCE_SIZE], wrapped[NONCE_SIZE..])
  }

  lemma UnwrapUndoesWrap(a: Aead, masterKey: Bytes, nonce: Bytes, dek: Bytes)
    requires Lawful(a) && |masterKey| == KEY_SIZE && |nonce| == NONCE_SIZE
    ensures Unwrap(a, masterKey, Wrap(a, masterKey, nonce, dek).value) == Some(dek)
  {
    var w := nonce + a.seal(masterKey, nonce, dek);
    assert w[..NONCE_SIZE] == nonce && w[NONCE_SIZE..] == a.seal(masterKey, nonce, dek);
  }
}
