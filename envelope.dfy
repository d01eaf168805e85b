/**
 * The password envelope of package `argon2aes`: a 32-byte salt, a GCM nonce
 * and the sealed plaintext, laid end to end. The key is derived from the
 * password and the salt with Argon2id; the plaintext is sealed with AES-GCM.
 * Both primitives and the random source are outside the model: the
 * primitives are the fields of a `Primitives` value, the random draws are
 * parameters, and the laws the envelope relies on are stated in `Lawful`.
 */
module Envelope {
  import opened Results
  import opened Bytes

  /** Bytes of random salt in front of every envelope (`saltLength`). */
  const SaltLength: nat := 32
  /** Bytes of key asked of Argon2id (`keyLength`), selecting AES-256. */
  const KeyLength: nat := 32
  /** Argon2id passes over memory (`time`). */
  const Time: nat := 3
  /** Argon2id memory in KiB (`memory`, 64 MiB). */
  const Memory: nat := 64 * 1024
  /** Argon2id lanes (`threads`). */
  const Threads: nat := 4
  /** The standard GCM nonce size, which `gcm.NonceSize()` reports. */
  const NonceSize: nat := 12

  datatype Error =
    | PasswordBlank              // "password cannot be blank"
    | CiphertextTooShort         // "ciphertext too short"
    | InvalidKeySize(size: nat)  // aes.KeySizeError from aes.NewCipher
    | RandomFailure              // an error of the random source, returned as is
    | AuthenticationFailed       // an error of gcm.Open, returned as is

  /**
   * The foreign primitives: `argon2.IDKey(password, salt, time, memory,
   * threads, keyLen)`, and `Seal`/`Open` of the AES-GCM AEAD built from a
   * key, each called with a nonce and no additional data.
   */
  datatype Primitives = Primitives(
    idKey: (seq<byte>, seq<byte>, nat, nat, nat, nat) -> seq<byte>,
    seal: (seq<byte>, seq<byte>, seq<byte>) -> seq<byte>,
    open: (seq<byte>, seq<byte>, seq<byte>) -> Result<seq<byte>, Error>)

  /**
   * The laws the envelope relies on: the KDF returns as many bytes as asked
   * for, and opening with the key and nonce something was sealed with gives
   * the plaintext back.
   */
  ghost predicate Lawful(p: Primitives)
  {
    && (forall password, salt, time, memory, threads, keyLen ::
          |p.idKey(password, salt, time, memory, threads, keyLen)| == keyLen)
    && (forall key, nonce, plaintext ::
          ValidKeySize(key) && |nonce| == NonceSize ==>
            p.open(key, nonce, p.seal(key, nonce, plaintext)) == Success(plaintext))
  }

  /** The key sizes `aes.NewCipher` accepts: AES-128, AES-192 and AES-256. */
  predicate ValidKeySize(key: seq<byte>)
  {
    |key| == 16 || |key| == 24 || |key| == 32
  }

  /** `DeriveKey`: Argon2id with the package's fixed cost parameters. */
  function DeriveKey(p: Primitives, password: seq<byte>, salt: seq<byte>): (key: seq<byte>)
    ensures Lawful(p) ==> |key| == KeyLength && ValidKeySize(key)
  {
    p.idKey(password, salt, Time, Memory, Threads, KeyLength)
  }

  /**
   * `Decrypt`: too short for a salt; else the key is derived from the salt
   * and checked by `aes.NewCipher`; then too short for a nonce; else the
   * rest is opened, its result returned unchanged.
   */
  function Decrypt(p: Primitives, data: seq<byte>, password: seq<byte>): (r: Result<seq<byte>, Error>)
    ensures |data| < SaltLength ==> r == Failure(CiphertextTooShort)
    ensures |data| >= SaltLength && !ValidKeySize(DeriveKey(p, password, data[..SaltLength])) ==>
              r == Failure(InvalidKeySize(|DeriveKey(p, password, data[..SaltLength])|))
    ensures Lawful(p) && SaltLength <= |data| < SaltLength + NonceSize ==> r == Failure(CiphertextTooShort)
    ensures Lawful(p) && |data| >= SaltLength + NonceSize ==>
              r == p.open(DeriveKey(p, password, data[..SaltLength]),
                          data[SaltLength..SaltLength + NonceSize],
                          data[SaltLength + NonceSize..])
  {
    if |data| < SaltLength then Failure(CiphertextTooShort)
    else
      var salt, rest := data[..SaltLength], data[SaltLength..];
      var key := DeriveKey(p, password, salt);
      if !ValidKeySize(key) then Failure(InvalidKeySize(|key|))
      else if |rest| < NonceSize then Failure(CiphertextTooShort)
      else
        var nonce, ciphertext := rest[..NonceSize], rest[NonceSize..];
        assert nonce == data[SaltLength..SaltLength + NonceSize];
        assert ciphertext == data[SaltLength + NonceSize..];
        p.open(key, nonce, ciphertext)
  }

  /** An input too short to hold a salt is rejected whatever the primitives and the password. */
  lemma ShortInputSkipsKeyDerivation(p: Primitives, q: Primitives, data: seq<byte>, password: seq<byte>, other: seq<byte>)
    requires |data| < SaltLength
    ensures Decrypt(p, data, password) == Decrypt(q, data, other) == Failure(CiphertextTooShort)
  {
  }

  /** Decrypt splits an envelope back into the salt, the nonce and the sealed part. */
  lemma DecryptOpensFrame(p: Primitives, salt: seq<byte>, nonce: seq<byte>, sealed: seq<byte>, password: seq<byte>)
    requires Lawful(p) && |salt| == SaltLength && |nonce| == NonceSize
    ensures Decrypt(p, salt + nonce + sealed, password) == p.open(DeriveKey(p, password, salt), nonce, sealed)
  {
    var data := salt + nonce + sealed;
    assert data[..SaltLength] == salt;
    assert data[SaltLength..SaltLength + NonceSize] == nonce;
    assert data[SaltLength + NonceSize..] == sealed;
  }

  /** Under the laws, the envelope of a plaintext opens to that plaintext with the same password. */
  lemma DecryptSealed(p: Primitives, salt: seq<byte>, nonce: seq<byte>, plaintext: seq<byte>, password: seq<byte>)
    requires Lawful(p) && |salt| == SaltLength && |nonce| == NonceSize
    ensures Decrypt(p, salt + nonce + p.seal(DeriveKey(p, password, salt), nonce, plaintext), password) == Success(plaintext)
  {
    var key := DeriveKey(p, password, salt);
    DecryptOpensFrame(p, salt, nonce, p.seal(key, nonce, plaintext), password);
  }

  /**
   * `Encrypt`, with the two `rand.Read` calls as the draws `saltDraw` and
   * `nonceDraw` (a successful draw fills its whole buffer). Errors come in
   * the order of the source: blank password, salt draw, key size, nonce
   * draw. The output is the salt, then the nonce, then the sealed
   * plaintext, built by appending to an empty buffer.
   */
  method Encrypt(p: Primitives, plaintext: seq<byte>, password: seq<byte>,
                 saltDraw: Result<seq<byte>, Error>, nonceDraw: Result<seq<byte>, Error>)
      returns (r: Result<seq<byte>, Error>)
    requires saltDraw.Success? ==> |saltDraw.value| == SaltLength
    requires nonceDraw.Success? ==> |nonceDraw.value| == NonceSize
    ensures |password| == 0 ==> r == Failure(PasswordBlank)
    ensures |password| > 0 && saltDraw.Failure? ==> r == Failure(saltDraw.error)
    ensures |password| > 0 && saltDraw.Success? && !ValidKeySize(DeriveKey(p, password, saltDraw.value)) ==>
              r == Failure(InvalidKeySize(|DeriveKey(p, password, saltDraw.value)|))
    ensures Lawful(p) && |password| > 0 && saltDraw.Success? && nonceDraw.Failure? ==> r == Failure(nonceDraw.error)
    ensures Lawful(p) ==> (r.Success? <==> |password| > 0 && saltDraw.Success? && nonceDraw.Success?)
    ensures r.Success? ==>
              && saltDraw.Success? && nonceDraw.Success?
              && var sealed := p.seal(DeriveKey(p, password, saltDraw.value), nonceDraw.value, plaintext);
                 && |r.value| == SaltLength + NonceSize + |sealed|
                 && r.value[..SaltLength] == saltDraw.value
                 && r.value[SaltLength..SaltLength + NonceSize] == nonceDraw.value
                 && r.value[SaltLength + NonceSize..] == sealed
    ensures Lawful(p) && r.Success? ==> Decrypt(p, r.value, password) == Success(plaintext)
  {
    if |password| == 0 {
      return Failure(PasswordBlank);
    }

    if saltDraw.Failure? {
      return Failure(saltDraw.error);
    }
    var salt := saltDraw.value;

    var key := DeriveKey(p, password, salt);

    if !ValidKeySize(key) {
      return Failure(InvalidKeySize(|key|));
    }

    if nonceDraw.Failure? {
      return Failure(nonceDraw.error);
    }
    var nonce := nonceDraw.value;

    var ciphertext := p.seal(key, nonce, plaintext);
    var encrypted: seq<byte> := [];
    encrypted := encrypted + salt;
    encrypted := encrypted + nonce;
    encrypted := encrypted + ciphertext;

    assert encrypted == salt + nonce + ciphertext;
    if Lawful(p) {
      DecryptSealed(p, salt, nonce, plaintext, password);
    }
    return Success(encrypted);
  }
}
