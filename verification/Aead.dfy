/** Authenticated encryption as an ideal functionality: a cipher given by two functions, and a
    log of what was encrypted. Decryption succeeds only on what is in the log. */
module Aead {
  import opened Bytes

  const TAG_SIZE: nat := 16
  const IV_SIZE: nat := 12

  datatype Sealed = Sealed(cipher: bytes, tag: bytes)

  datatype Query = Query(key: bytes, iv: bytes, aad: bytes, plain: bytes)

  datatype Cipher = Cipher(seal: Query -> Option<Sealed>,
                           open: (bytes, bytes, bytes, Sealed) -> Option<bytes>)
  {
    /** Opening inverts sealing, and sealing keeps the plain text's length. */
    ghost predicate Correct() {
      forall q: Query {:trigger seal(q)} :: seal(q).Some? ==>
        && |seal(q).value.cipher| == |q.plain|
        && |seal(q).value.tag| == TAG_SIZE
        && open(q.key, q.iv, q.aad, seal(q).value) == Some(q.plain)
    }

    /** No encryption fails. */
    ghost predicate Total() {
      forall q: Query {:trigger seal(q)} :: seal(q).Some?
    }

    function Decrypt(log: set<Query>, key: bytes, iv: bytes, aad: bytes, sealed: Sealed): (r: Outcome<bytes>)
      ensures r.Ok? ==> Query(key, iv, aad, r.value) in log
      ensures r.Ok? ==> seal(Query(key, iv, aad, r.value)) == Some(sealed)
      ensures !r.Abort?
    {
      match open(key, iv, aad, sealed)
      case None => Err(CryptoError)
      case Some(plain) =>
        if Query(key, iv, aad, plain) in log && seal(Query(key, iv, aad, plain)) == Some(sealed)
        then Ok(plain) else Err(CryptoError)
    }
  }

  lemma DecryptLogged(c: Cipher, log: set<Query>, q: Query)
    requires c.Correct() && q in log && c.seal(q).Some?
    ensures c.Decrypt(log, q.key, q.iv, q.aad, c.seal(q).value) == Ok(q.plain)
  {
  }

  /** The registered AEAD implementation, shared by every session of both endpoints. */
  class Backend {
    const cipher: Cipher
    var log: set<Query>

    constructor (cipher: Cipher)
      ensures this.cipher == cipher && log == {}
    {
      this.cipher := cipher;
      log := {};
    }

    method Encrypt(q: Query) returns (r: Outcome<Sealed>)
      modifies this
      ensures cipher.seal(q).None? ==> r == Err(CryptoError) && log == old(log)
      ensures cipher.seal(q).Some? ==> r == Ok(cipher.seal(q).value) && log == old(log) + {q}
    {
      match cipher.seal(q)
      case None =>
        r := Err(CryptoError);
      case Some(sealed) =>
        log := log + {q};
        r := Ok(sealed);
    }

    method Decrypt(key: bytes, iv: bytes, aad: bytes, sealed: Sealed) returns (r: Outcome<bytes>)
      ensures r == cipher.Decrypt(log, key, iv, aad, sealed)
    {
      r := cipher.Decrypt(log, key, iv, aad, sealed);
    }
  }
}
