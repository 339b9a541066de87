/**
 What the client calls but this project does not look into: cryptography, the
 TPM, X.509 and COSE header lookups, UTF-8, the size of the stack. Every theorem
 holds for all values of these; a law one of them must satisfy is stated where it
 is used.
 */
module Platforms {
  import opened Base
  import opened Cursor
  import opened Delegate

  datatype Platform = Platform(
    sha256: Bytes -> Bytes,
    /** ES256 over (message, signature, key point). */
    es256: (Bytes, Bytes, Bytes) -> bool,
    /** TPM HMAC under the device secret; None if the TPM refuses. */
    hmac: Bytes -> Option<Bytes>,
    /** FDO PublicKey, and COSE_Key, to an uncompressed P-256 point. */
    publicKey: Bytes -> Option<Bytes>,
    coseKey: Bytes -> Option<Bytes>,
    /** X.509 certificate to the fields a chain check needs. */
    cert: Bytes -> Option<Cert>,
    /** What the TO2 decoder depends on. */
    env: Env,
    /** `alg` and `content_type` of a protected header. */
    alg: Bytes -> int,
    contentType: Bytes -> Option<Bytes>,
    /** Scope constraints of a protected header for a device GUID. */
    scopeOk: (Bytes, Option<Bytes>) -> bool,
    /** Delegate label present in an unprotected header, and its x5chain. */
    delegated: Bytes -> bool,
    x5chain: Bytes -> Option<seq<Bytes>>
  ) {
    function PkiOf(): Pki { Pki(es256, cert) }
  }
}
