# Password manager of the registrations module

This project models `PasswordManager`, the class that the user-registration module uses to store and check passwords. It has two public operations.

- `HashPassword` derives a 32-byte PBKDF2 digest from the password and a fresh 16-byte random salt. It packs both into a 49-byte record laid out as `[marker 0x00][salt:16][digest:32]`. It returns the record as base64 text.
- `VerifyHashedPassword` decodes such a text and rejects a record of the wrong length or marker. It slices the salt and expected digest back out, derives a digest from the candidate password under that salt, and compares the two with `ByteArraysEqual`. That comparison examines every byte position and never exits early.

The model is functional. Byte arrays are `seq<bv8>`. C# `null` is `Option.None`. A thrown exception is `Result.Failure` carrying an `Error`: `ArgumentNull("password")` for `ArgumentNullException`, or `Format` for the `FormatException` of `Convert.FromBase64String`. `ByteArraysEqual` is also modelled as a method over nullable arrays, because its reference-equality fast path depends on array identity.

Three things are foreign to the class, so they enter the model as parameters:

- PBKDF2 (`Rfc2898DeriveBytes.Pbkdf2` with HMAC-SHA-256, 1000 iterations, 32-byte output) is a total, deterministic function `Pbkdf2 = (Password, Salt, nat) -> Digest`. Its result type fixes the digest length at 32.
- The random salt from `RandomNumberGenerator.GetBytes(16)` is an argument of type `Salt`, a sequence of exactly 16 bytes.
- The base64 codec is a pair of `encode`/`decode` functions. Every property that needs its round trip takes the predicate `RoundTrips(base64)` as a precondition.

Files:

- `wrappers.dfy`: `Option` and `Result`.
- `buffer.dfy`: `new byte[n]` and `Buffer.BlockCopy`.
- `password_manager.dfy`: the constants, the record layout, `HashPassword`, `VerifyHashedPassword` and `ByteArraysEqual`.
- `password_manager_properties.dfy`: lemmas that relate several operations.

`Convert.FromBase64String` is called with no `try`/`catch` (PasswordManager.cs line 48), so text that is not base64 throws `FormatException`. The model returns `Failure(Format)` for it and never `false`.

## Model

| member | source | states |
|---|---|---|
| Buffer.BlockCopy | src/Modules/Registrations/Application/UserRegistrations/RegisterNewUser/PasswordManager.cs:31-32 | the copy keeps the destination length; the `count` destination bytes from `dstOffset` equal the source bytes from `srcOffset`, and every other destination byte is unchanged |
| PasswordManager.PackRecord | src/Modules/Registrations/Application/UserRegistrations/RegisterNewUser/PasswordManager.cs:30-32 | the assembled record is exactly 49 bytes, byte 0 is the zero marker, bytes 1..16 are the salt and bytes 17..48 are the digest; every byte is pinned, so nothing else is written; the zero marker comes from `Buffer.Zeros`, the model of the zero-initialised `new byte[0x31]` (the same helper models `new byte[SaltSize]` and `new byte[HashSize]` at lines 54 and 56) |
| PasswordManager.UnpackRecord | src/Modules/Registrations/Application/UserRegistrations/RegisterNewUser/PasswordManager.cs:49-57 | a record passes the guard exactly when its length is 49 and byte 0 is 0; for such a record the extracted salt is bytes 1..16 and the expected digest is bytes 17..48 |
| PasswordManager.AccumulatedSameIffPrefixEqual | src/Modules/Registrations/Application/UserRegistrations/RegisterNewUser/PasswordManager.cs:83-87 | after the loop has folded `&=` over the first n indices, the flag is true exactly when the two arrays agree on all of those indices |
| PasswordManager.BytesEqual | src/Modules/Registrations/Application/UserRegistrations/RegisterNewUser/PasswordManager.cs:78-89 | on two distinct non-null arrays, the length check followed by the full accumulating loop returns true exactly when the byte sequences are equal |
| PasswordManager.ByteArraysEqual | src/Modules/Registrations/Application/UserRegistrations/RegisterNewUser/PasswordManager.cs:70-90 | the result is true exactly when both arguments are the same reference, or both are non-null with equal lengths and equal bytes at every index; when the loop runs, it examines all `Length` positions and has no early exit |
| PasswordManager.HashPassword | src/Modules/Registrations/Application/UserRegistrations/RegisterNewUser/PasswordManager.cs:12-34 | a null password throws `ArgumentNullException` for `password` and yields no record; any other password yields text that decodes to the record of the given salt and the PBKDF2 digest of the password under that salt with 1000 iterations |
| PasswordManager.VerifyHashedPassword | src/Modules/Registrations/Application/UserRegistrations/RegisterNewUser/PasswordManager.cs:36-68 | a null record is `false` before the password is checked, so a null password cannot make it throw; a non-null record with a null password throws `ArgumentNullException`; undecodable text throws `FormatException`; a wrong length or marker is `false`; otherwise the result is `true` exactly when the stored digest equals the digest derived from the candidate and the stored salt |
| PasswordManagerProperties.PackThenUnpack | src/Modules/Registrations/Application/UserRegistrations/RegisterNewUser/PasswordManager.cs:30-57 | unpacking the record packed from a salt and digest returns exactly that salt and digest |
| PasswordManagerProperties.UnpackThenPack | src/Modules/Registrations/Application/UserRegistrations/RegisterNewUser/PasswordManager.cs:49-57 | every record the length/marker guard accepts is reproduced byte for byte by packing the salt and digest it unpacks to |
| PasswordManagerProperties.HashTextDecodes | src/Modules/Registrations/Application/UserRegistrations/RegisterNewUser/PasswordManager.cs:23-33 | under a round-tripping codec, the text `HashPassword` returns decodes to exactly the packed record of the salt and the password's 1000-iteration digest |
| PasswordManagerProperties.HashThenVerify | src/Modules/Registrations/Application/UserRegistrations/RegisterNewUser/PasswordManager.cs:12-67 | for every password, salt and deterministic derivation, the text `HashPassword` produces verifies as `true` against the same password |
| PasswordManagerProperties.WrongPasswordRejected | src/Modules/Registrations/Application/UserRegistrations/RegisterNewUser/PasswordManager.cs:54-67 | a candidate whose digest under the record's salt differs from the hashed password's digest verifies as `false` |
| PasswordManagerProperties.DigestTamperRejected | src/Modules/Registrations/Application/UserRegistrations/RegisterNewUser/PasswordManager.cs:54-67 | the text `HashPassword` returns decodes to the packed record, and changing any single byte at positions 17..48 of that decoded record, then re-encoding it, makes verification against the original password return `false` |
| PasswordManagerProperties.MalformedRejected | src/Modules/Registrations/Application/UserRegistrations/RegisterNewUser/PasswordManager.cs:48-52 | a decodable record whose length is not 49 or whose byte 0 is not 0 verifies as `false`, and the result is the same under any two derivations, so no digest is derived |
| PasswordManagerProperties.MarkerTamperRejected | src/Modules/Registrations/Application/UserRegistrations/RegisterNewUser/PasswordManager.cs:49-52 | the text `HashPassword` returns decodes to the packed record, and setting byte 0 of that decoded record to any non-zero value, then re-encoding it, makes verification return `false` |

## Left out

- PBKDF2 internals (HMAC-SHA-256 and the 1000 iterations): these live in a foreign library. The derivation is a deterministic function parameter. `Iterations` is kept as the named constant that both paths pass to it.
- The UTF-8 encoding of the password that `Rfc2898DeriveBytes.Pbkdf2` applies: this is part of the foreign derivation, so it sits inside the parameter.
- Passwords are Dafny strings, whose characters are Unicode scalar values. A C# password holding an unpaired UTF-16 surrogate, on which the foreign UTF-8 encoder would throw, is not modelled.
- `RandomNumberGenerator.GetBytes`: entropy is external, so the salt is an argument. The property that two hashes of one password differ holds only with high probability, so it is not stated.
- Base64 text handling (alphabet, padding, whitespace that `FromBase64String` tolerates): this is a library codec. It is abstracted as an `encode`/`decode` pair. Its round trip is a precondition wherever it is needed.
- Timing: `[MethodImpl(MethodImplOptions.NoOptimization)]` and constant-time execution cannot be expressed in Dafny. The model states only that the loop examines every position and has no early exit.
- Buffer.BlockCopy: its range exception is excluded by a precondition, because every call in the class uses constant offsets that are in range.
- Failures of the entropy source or of the cryptographic primitives: these are environment-level exceptions and are not modelled.
