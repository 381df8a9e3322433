/** Properties that relate several operations of the password manager:
    the record layout round-trips, a hash verifies against its own
    password, and a damaged record is rejected. */
module PasswordManagerProperties {
  import opened Wrappers
  import opened Buffer
  import opened PasswordManager

  /** Unpacking a packed record gives back the salt and digest. */
  lemma PackThenUnpack(salt: Salt, digest: Digest)
    ensures UnpackRecord(PackRecord(salt, digest)) == Some(Unpacked(salt, digest))
  {
  }

  /** Every record the guard accepts is the packing of what it unpacks to,
      so packing is onto the well-formed records. */
  lemma UnpackThenPack(src: seq<byte>)
    ensures UnpackRecord(src).Some? ==>
      PackRecord(UnpackRecord(src).value.salt, UnpackRecord(src).value.expected) == src
  {
  }

  /** The text `HashPassword` returns for `password` and `salt`. */
  function HashText(password: Password, salt: Salt, pbkdf2: Pbkdf2, base64: Base64): string
  {
    HashPassword(Some(password), salt, pbkdf2, base64).value
  }

  /** The text `HashPassword` returns decodes to the packed record of the
      salt and the password's digest. */
  lemma HashTextDecodes(password: Password, salt: Salt, pbkdf2: Pbkdf2, base64: Base64)
    requires RoundTrips(base64)
    ensures base64.decode(HashText(password, salt, pbkdf2, base64)) == Some(PackRecord(salt, pbkdf2(password, salt, Iterations)))
  {
  }

  /** A record produced by hashing a password verifies against it, for
      every salt and every deterministic derivation. */
  lemma HashThenVerify(password: Password, salt: Salt, pbkdf2: Pbkdf2, base64: Base64)
    requires RoundTrips(base64)
    ensures VerifyHashedPassword(Some(HashText(password, salt, pbkdf2, base64)), Some(password), pbkdf2, base64) == Success(true)
  {
  }

  /** A candidate whose derivation under the record's salt differs from the
      hashed password's is rejected. */
  lemma WrongPasswordRejected(password: Password, candidate: Password, salt: Salt, pbkdf2: Pbkdf2, base64: Base64)
    requires RoundTrips(base64)
    requires pbkdf2(candidate, salt, Iterations) != pbkdf2(password, salt, Iterations)
    ensures VerifyHashedPassword(Some(HashText(password, salt, pbkdf2, base64)), Some(candidate), pbkdf2, base64) == Success(false)
  {
  }

  /** Changing any single digest byte of a hashed record, and re-encoding
      it, makes verification against the original password fail. */
  lemma DigestTamperRejected(password: Password, salt: Salt, pbkdf2: Pbkdf2, base64: Base64, k: nat, v: byte)
    requires RoundTrips(base64)
    requires HashOffset <= k < RecordSize
    requires v != pbkdf2(password, salt, Iterations)[k - HashOffset]
    ensures
      var decoded := base64.decode(HashText(password, salt, pbkdf2, base64));
      && decoded == Some(PackRecord(salt, pbkdf2(password, salt, Iterations)))
      && VerifyHashedPassword(Some(base64.encode(decoded.value[k := v])), Some(password), pbkdf2, base64) == Success(false)
  {
  }

  /** A decoded record of the wrong length or with a non-zero marker is
      `false` whatever the derivation does: no digest is consulted. */
  lemma MalformedRejected(src: seq<byte>, password: Password, pbkdf2: Pbkdf2, other: Pbkdf2, base64: Base64)
    requires RoundTrips(base64)
    requires |src| != RecordSize || src[MarkerOffset] != FormatMarker
    ensures VerifyHashedPassword(Some(base64.encode(src)), Some(password), pbkdf2, base64) == Success(false)
    ensures VerifyHashedPassword(Some(base64.encode(src)), Some(password), other, base64) == Success(false)
  {
  }

  /** Setting the marker byte of a hashed record to anything but zero makes
      it a foreign record, rejected with `false`. */
  lemma MarkerTamperRejected(password: Password, salt: Salt, pbkdf2: Pbkdf2, base64: Base64, v: byte)
    requires RoundTrips(base64)
    requires v != FormatMarker
    ensures
      var decoded := base64.decode(HashText(password, salt, pbkdf2, base64));
      && decoded == Some(PackRecord(salt, pbkdf2(password, salt, Iterations)))
      && VerifyHashedPassword(Some(base64.encode(decoded.value[MarkerOffset := v])), Some(password), pbkdf2, base64) == Success(false)
  {
  }
}
