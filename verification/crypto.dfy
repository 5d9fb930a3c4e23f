/** The cryptographic collaborators of a transaction: SHA-256, ECDSA over
    SHA-256, and PEM SubjectPublicKeyInfo encoding of public keys.

    Their internals belong to a foreign library, so a `Scheme` carries them as
    function values supplied by the caller. Nothing about them is assumed except
    what `Correct` states, and only the lemmas that need it require it. */
module Crypto {
  import opened Wrappers
  import opened Octets

  /** A private signing key; its content is never inspected. */
  datatype PrivateKey = PrivateKey(secret: nat)

  /** A public verification key, as produced from a private key or decoded
      from an address. */
  datatype PublicKey = PublicKey(point: nat)

  /** The random input of one ECDSA signature (ECDSA signing draws a fresh
      per-signature value, so the same key and digest need not give the same
      signature twice). */
  type Nonce = nat

  /** How a call to the library's `verify` ends: it returns, it raises
      `InvalidSignature`, or it raises anything else (malformed signature bytes,
      a decoded key of the wrong algorithm). */
  datatype VerifyOutcome = Verified | InvalidSignature | VerifyFault

  datatype Scheme = Scheme(
    hash: Bytes -> Bytes,                               // SHA-256 digest
    publicOf: PrivateKey -> PublicKey,                  // private_key.public_key()
    encodePem: PublicKey -> Bytes,                      // public_bytes(PEM, SubjectPublicKeyInfo)
    decodePem: Bytes -> Option<PublicKey>,              // load_pem_public_key, None where it raises
    sign: (PrivateKey, Bytes, Nonce) -> Bytes,          // private_key.sign(data, ECDSA(SHA256()))
    verify: (PublicKey, Bytes, Bytes) -> VerifyOutcome  // public_key.verify(sig, data, ECDSA(SHA256()))
  )

  /** The address that belongs to a private key: its public key, PEM-encoded. */
  function Address(c: Scheme, k: PrivateKey): Bytes {
    c.encodePem(c.publicOf(k))
  }

  /** What the library promises and the sign-then-validate round trip relies on:
      PEM encoding is ASCII text that decodes back to the same key, a signature
      is never empty (a DER-encoded ECDSA signature has at least eight bytes),
      and a signature made with a private key verifies under its public key for
      the data it was made over. */
  ghost predicate Correct(c: Scheme) {
    && (forall p :: c.decodePem(c.encodePem(p)) == Some(p))
    && (forall p :: IsAscii(c.encodePem(p)))
    && (forall k, d, n :: |c.sign(k, d, n)| > 0)
    && (forall k, d, n :: c.verify(c.publicOf(k), c.sign(k, d, n), d) == Verified)
  }

  /** A scheme with no security at all, whose only purpose is to show that
      `Correct` can be met, so lemmas that require it are not vacuous. */
  function ToyScheme(): Scheme {
    Scheme(
      (m: Bytes) => m,
      (k: PrivateKey) => PublicKey(k.secret),
      (p: PublicKey) => seq(p.point, _ => 0x41),
      (b: Bytes) => if forall i :: 0 <= i < |b| ==> b[i] == 0x41 then Some(PublicKey(|b|)) else None,
      (k: PrivateKey, d: Bytes, n: Nonce) => [1] + d,
      (p: PublicKey, s: Bytes, d: Bytes) => if |s| > 0 && s[1..] == d then Verified else InvalidSignature
    )
  }

  lemma ToySchemeIsCorrect()
    ensures Correct(ToyScheme())
  {
    var c := ToyScheme();
    forall p: PublicKey ensures c.decodePem(c.encodePem(p)) == Some(p) {
      var b := c.encodePem(p);
      assert |b| == p.point;
      assert forall i :: 0 <= i < |b| ==> b[i] == 0x41;
    }
  }
}
