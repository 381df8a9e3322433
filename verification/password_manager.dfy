/** The password manager of the user-registration module: a salted,
    iterated PBKDF2 hash packed into a 49-byte record and carried as
    base64 text, and the verification of a candidate password against such
    a record with a comparison that examines every byte.

    The cryptographic derivation, the random salt and the base64 codec are
    foreign to the class and enter the model as parameters. */
module PasswordManager {
  import opened Wrappers
  import opened Buffer

  const SaltSize: nat := 0x10     // 16 bytes
  const HashSize: nat := 0x20     // 32 bytes
  const Iterations: nat := 0x3e8  // 1000 PBKDF2 iterations

  /** Record layout: `[marker:1][salt:16][digest:32]`. */
  const RecordSize: nat := 0x31
  const MarkerOffset: nat := 0
  const SaltOffset: nat := 1
  const HashOffset: nat := 0x11
  const FormatMarker: byte := 0

  type Password = string

  /** A salt as `RandomNumberGenerator.GetBytes(SaltSize)` returns it. */
  type Salt = s: seq<byte> | |s| == SaltSize witness Zeros(SaltSize)

  /** A digest as PBKDF2 returns it for an output length of `HashSize`. */
  type Digest = d: seq<byte> | |d| == HashSize witness Zeros(HashSize)

  /** `Rfc2898DeriveBytes.Pbkdf2(password, salt, iterations, SHA256, HashSize)`:
      deterministic, with HMAC-SHA-256 and the output length fixed. */
  type Pbkdf2 = (Password, Salt, nat) -> Digest

  /** `Convert.ToBase64String` and `Convert.FromBase64String`; decoding text
      that is not base64 yields `None`, where the runtime throws. */
  datatype Base64 = Base64(encode: seq<byte> -> string, decode: string -> Option<seq<byte>>)

  /** The codec's promise: decoding an encoding gives back the bytes. */
  ghost predicate RoundTrips(base64: Base64)
  {
    forall b :: base64.decode(base64.encode(b)) == Some(b)
  }

  /** The exceptions the two public operations can throw. */
  datatype Error =
    | ArgumentNull(paramName: string)  // ArgumentNullException
    | Format                           // FormatException from FromBase64String

  /** `rec` is a record of this scheme holding `salt` and `digest`. */
  predicate IsRecordOf(rec: seq<byte>, salt: seq<byte>, digest: seq<byte>)
  {
    && |rec| == RecordSize
    && rec[MarkerOffset] == FormatMarker
    && rec[SaltOffset..HashOffset] == salt
    && rec[HashOffset..] == digest
  }

  /** The guard of `VerifyHashedPassword`: right length and marker. */
  predicate WellFormed(rec: seq<byte>)
  {
    |rec| == RecordSize && rec[MarkerOffset] == FormatMarker
  }

  /** The record assembly of `HashPassword`: a zeroed 49-byte array into
      which the salt and then the digest are block-copied. */
  function PackRecord(salt: Salt, digest: Digest): (dst: seq<byte>)
    ensures IsRecordOf(dst, salt, digest)
    ensures forall k :: 0 <= k < RecordSize ==>
      dst[k] == if k < SaltOffset then FormatMarker
                else if k < HashOffset then salt[k - SaltOffset]
                else digest[k - HashOffset]
  {
    var zeroed := Zeros(RecordSize);
    var withSalt := BlockCopy(salt, 0, zeroed, SaltOffset, SaltSize);
    var dst := BlockCopy(digest, 0, withSalt, HashOffset, HashSize);
    assert dst[SaltOffset..HashOffset] == salt;
    assert dst[HashOffset..] == digest;
    dst
  }

  /** The salt and the expected digest sliced back out of a record. */
  datatype Unpacked = Unpacked(salt: Salt, expected: Digest)

  /** The length/marker guard and the unpacking of `VerifyHashedPassword`:
      `None` for a record the guard rejects. */
  function UnpackRecord(src: seq<byte>): (r: Option<Unpacked>)
    ensures r.Some? <==> WellFormed(src)
    ensures r.Some? ==> IsRecordOf(src, r.value.salt, r.value.expected)
  {
    if |src| != RecordSize || src[MarkerOffset] != FormatMarker then
      None
    else
      var salt := BlockCopy(src, SaltOffset, Zeros(SaltSize), 0, SaltSize);
      var expected := BlockCopy(src, HashOffset, Zeros(HashSize), 0, HashSize);
      assert salt == src[SaltOffset..HashOffset];
      assert expected == src[HashOffset..];
      Some(Unpacked(salt, expected))
  }

  /** The value of `areSame` in `ByteArraysEqual` after the loop has
      visited indices `0 .. n-1`: each step ANDs in one comparison and
      none stops the loop. */
  function AccumulatedSame(a: seq<byte>, b: seq<byte>, n: nat): bool
    requires n <= |a| && n <= |b|
  {
    if n == 0 then true
    else
      var areSame := AccumulatedSame(a, b, n - 1);
      var same := a[n - 1] == b[n - 1];
      areSame && same
  }

  /** The accumulated flag holds exactly when the first `n` bytes agree. */
  lemma {:induction false} AccumulatedSameIffPrefixEqual(a: seq<byte>, b: seq<byte>, n: nat)
    requires n <= |a| && n <= |b|
    ensures AccumulatedSame(a, b, n) <==> forall j :: 0 <= j < n ==> a[j] == b[j]
  {
    if n > 0 {
      AccumulatedSameIffPrefixEqual(a, b, n - 1);
    }
  }

  /** `ByteArraysEqual` on two distinct non-null arrays, as
      `VerifyHashedPassword` calls it: the length check, then the full
      accumulating loop. */
  function BytesEqual(a: seq<byte>, b: seq<byte>): (r: bool)
    ensures r <==> a == b
  {
    if |a| != |b| then false
    else
      AccumulatedSameIffPrefixEqual(a, b, |a|);
      AccumulatedSame(a, b, |a|)
  }

  /** `ByteArraysEqual` on arrays: the reference-equality fast path, the
      null and length check, then a loop over every index with no early
      exit. `examined` counts the byte pairs the loop compared. */
  method ByteArraysEqual(a: array?<byte>, b: array?<byte>) returns (r: bool, ghost examined: nat)
    ensures r <==> a == b || (a != null && b != null && a[..] == b[..])
    ensures a != b && a != null && b != null && a.Length == b.Length ==> examined == a.Length
  {
    if a == b {
      return true, 0;
    }
    if a == null || b == null || a.Length != b.Length {
      return false, 0;
    }
    var areSame := true;
    examined := 0;
    var i := 0;
    while i < a.Length
      invariant 0 <= i <= a.Length
      invariant examined == i
      invariant areSame == AccumulatedSame(a[..], b[..], i)
    {
      var same := a[i] == b[i];
      areSame := areSame && same;
      examined := examined + 1;
      i := i + 1;
    }
    AccumulatedSameIffPrefixEqual(a[..], b[..], a.Length);
    r := areSame;
  }

  /** `HashPassword`: a null password throws; otherwise the record of the
      salt and the PBKDF2 digest, base64-encoded. The random salt is a
      parameter. */
  function HashPassword(password: Option<Password>, salt: Salt, pbkdf2: Pbkdf2, base64: Base64): (r: Result<string, Error>)
    ensures password.None? <==> r.Failure?
    ensures password.None? ==> r.error == ArgumentNull("password")
    ensures password.Some? && RoundTrips(base64) ==>
      var decoded := base64.decode(r.value);
      decoded.Some? && IsRecordOf(decoded.value, salt, pbkdf2(password.value, salt, Iterations))
  {
    if password.None? then
      Failure(ArgumentNull("password"))
    else
      var hash := pbkdf2(password.value, salt, Iterations);
      var dst := PackRecord(salt, hash);
      Success(base64.encode(dst))
  }

  /** `rec` is a well-formed record whose digest is what PBKDF2 derives from
      `password` and the record's own salt. */
  predicate Matches(rec: seq<byte>, password: Password, pbkdf2: Pbkdf2)
  {
    WellFormed(rec) && rec[HashOffset..] == pbkdf2(password, rec[SaltOffset..HashOffset], Iterations)
  }

  /** `VerifyHashedPassword`: a null record is `false` before the password
      is looked at; a null password throws; text that is not base64 throws;
      a record of the wrong length or marker is `false`; otherwise the
      stored digest is compared with the one derived from the candidate. */
  function VerifyHashedPassword(hashedPassword: Option<string>, password: Option<Password>, pbkdf2: Pbkdf2, base64: Base64): (r: Result<bool, Error>)
    ensures hashedPassword.None? ==> r == Success(false)
    ensures hashedPassword.Some? && password.None? ==> r == Failure(ArgumentNull("password"))
    ensures hashedPassword.Some? && password.Some? ==>
      match base64.decode(hashedPassword.value)
      case None => r == Failure(Format)
      case Some(src) =>
        && (!WellFormed(src) ==> r == Success(false))
        && (r == Success(true) <==> Matches(src, password.value, pbkdf2))
        && r.Success?
  {
    if hashedPassword.None? then
      Success(false)
    else if password.None? then
      Failure(ArgumentNull("password"))
    else
      match base64.decode(hashedPassword.value)
      case None => Failure(Format)
      case Some(src) =>
        match UnpackRecord(src)
        case None => Success(false)
        case Some(Unpacked(salt, expectedHash)) =>
          var actualHash := pbkdf2(password.value, salt, Iterations);
          Success(BytesEqual(expectedHash, actualHash))
  }
}
