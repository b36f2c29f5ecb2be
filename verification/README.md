# FeCli container format and in-place encryption, in Dafny

FeCli is a command-line tool that encrypts a file in place with a password.
This project models its core: the container format, the key derivation,
and the protocols `EncryptFile` and `DecryptFile`, which read, transform
and rewrite a file. It also models the two guard branches of the command
dispatcher: `encrypt` is refused on a file that already carries the
signature, and `decrypt` is refused on one that does not.

A container is the five ASCII bytes `FECLI`, then a 16-byte IV, then the
AES-256-CBC ciphertext of the original contents.

- `wrappers.dfy`: `Option` and `Result`.
- `primitives.dfy`: the cryptographic library as a `Suite` of uninterpreted
  functions. These are UTF-8 encoding, SHA-256 (FIPS 180-4), and AES-256 in
  CBC mode (FIPS 197; section 6.2 of NIST SP 800-38A) with PKCS#7 padding
  (section 6.3 of RFC 5652). The predicate `Lawful` holds the only facts
  assumed about them:
  - the digest is 32 bytes;
  - with a 32-byte key and a 16-byte IV, decryption undoes encryption;
  - the ciphertext is `16 * (n / 16 + 1)` bytes long.

  Decryption may fail with `None`, which stands for a `CryptographicException`.
- `container.dfy`: the signature, the header check, and the codec that
  encodes and decodes the container layout.
- `filesystem.dfy`: a `World` that holds the file contents, the paths that
  cannot be read, the read-only paths, the paths whose writing is denied for
  another reason (ownership, an access-control entry), and a log of
  completed writes, so the order of effects can be stated. It models
  `ReadAllBytes`, `WriteAllBytes` and `Copy` (with overwrite; the copy
  inherits the source's read-only attribute but not any other denial).
- `engine.dfy`: key derivation, `EncryptFile`, `DecryptFile`, and the
  `encrypt` and `decrypt` guard branches.
- `protocol.dfy`: properties that relate several runs: the round trip, no
  double encryption, no salt, and the concrete "hello world" case.
- `witness.dfy`: a concrete suite that satisfies `Lawful`. It pads but does
  not encrypt, and it shows that the assumptions are consistent.

The random IV is a parameter of the encrypt operations, as is the user's
input: the password and the backup choice. File-system failures come from
three sources:
- a missing file, which stands for `FileNotFoundException`, an `IOException`;
- a file that may not be opened for reading, which stands for
  `UnauthorizedAccessException`;
- a target that may not be opened for writing, because it is read-only or
  because writing it is denied otherwise, which also stands for
  `UnauthorizedAccessException`.

Two details of the code the model keeps:
- `DecryptFile` copies the signature out (FeCli.cs:259-260) but never
  compares it. Only the guard in `Main` checks it.
- A buffer shorter than 21 bytes makes `Array.Copy` throw
  `ArgumentException` (FeCli.cs:260-263). Only `Main`'s generic
  `catch (Exception)` handles it (FeCli.cs:112). The model calls this
  failure `Truncated`.

## Model

| member | source | states |
|---|---|---|
| FileSystem.ReadAllBytes | FeCli.cs:213 | Reading succeeds exactly when the file exists and may be opened for reading, and returns its contents; a missing file is not found and an unreadable one is refused with access denied. |
| FileSystem.WriteAllBytes | FeCli.cs:241 | Writing succeeds exactly when the path may be opened for writing; afterwards the path holds the data, every other path reads as before, and the write is appended to the log. A refused write changes nothing. |
| FileSystem.Copy | FeCli.cs:238 | Copying with overwrite succeeds exactly when the source is readable and the destination writable; the destination then holds the source's contents whether or not it existed and is read-only exactly when the source is, while no other denial is passed on; every other path reads as before, and the copy is appended to the log. |
| Container.Ascii | FeCli.cs:8 | ASCII encoding yields one byte per character, and each character below 128 becomes the byte of its own code. |
| Primitives.PaddedLength | FeCli.cs:230-233 | The padded ciphertext length is a multiple of 16, strictly longer than the plaintext and at most 16 bytes longer. |
| Container.SignatureBytes | FeCli.cs:8 | The signature is the five bytes that ASCII-encoding "FECLI" gives: 0x46 0x45 0x43 0x4C 0x49. |
| Container.HeaderMatchesFrom | FeCli.cs:167-173 | The byte-by-byte loop returns true exactly when every remaining header byte equals the corresponding signature byte. |
| Container.CheckHeader | FeCli.cs:158-173 | The header check is true exactly when the buffer is at least 5 bytes long and begins with the signature; a buffer shorter than 5 bytes, including an empty one, gives false. |
| Container.Encode | FeCli.cs:226-233 | The written buffer is a container, 21 bytes longer than the ciphertext, with the IV at [5,21) and the ciphertext from 21 on. |
| Container.Decode | FeCli.cs:258-270 | Slicing succeeds exactly when the buffer has at least 21 bytes; the 5-byte signature, 16-byte IV and ciphertext concatenate back to the buffer. |
| Container.DecodeEncode | FeCli.cs:259-270 | Slicing an encoded buffer recovers exactly the signature, IV and ciphertext that were written. |
| Container.EncodeDecode | FeCli.cs:259-270 | Every container of at least 21 bytes is the encoding of the IV and ciphertext it slices into. |
| Container.DecodedSignature | FeCli.cs:259-260 | The sliced signature region equals the signature exactly when the buffer passes the header check. |
| Container.EncodedLength | FeCli.cs:227-233 | A container for an n-byte plaintext is 21 + 16 * (n / 16 + 1) bytes long. |
| Engine.BackupPath | FeCli.cs:238 | The backup path is the original path followed by ".bak" and never equals it, so the backup cannot clobber the file. |
| Engine.GetAesKey | FeCli.cs:205-209 | The key is computed from the password alone and, given a lawful hash, is 32 bytes long. |
| Engine.IsFileEncrypted | FeCli.cs:153-174 | A missing file fails with not-found and an unreadable one with access denied; otherwise the answer is true exactly when the contents are a container, and false for any file shorter than 5 bytes. |
| Engine.EncryptFile | FeCli.cs:211-244 | Succeeds exactly when the file exists, is readable and writable, and (with a backup) the backup path is writable. On success the file decodes to the signature, this IV and the ciphertext of its old contents; only the file and the backup change; the log shows the copy strictly before the overwrite. On failure the file is unchanged; a failed backup stops everything before the overwrite with access denied on the backup path; a refused overwrite fails with access denied on the file. |
| Engine.DecryptFile | FeCli.cs:246-276 | Every failure leaves the world unchanged. A missing or unreadable file fails with the read error. A buffer shorter than 21 bytes fails as truncated, and a decryption failure fails as cryptographic. Otherwise it succeeds exactly when the file is writable, and then only the file changes, to the plaintext; a refused overwrite fails with access denied. |
| Engine.EncryptCommand | FeCli.cs:42-65 | A file that already carries the signature gives the already-encrypted outcome and no change; any other readable file goes to EncryptFile; a missing or unreadable file fails with the read error and no change. |
| Engine.DecryptCommand | FeCli.cs:67-84 | A file without the signature gives the not-encrypted outcome and no change; a container goes to DecryptFile; a missing or unreadable file fails with the read error and no change. |
| Protocol.RoundTrip | FeCli.cs:227-273 | Encrypting and then decrypting with the same password restores the file exactly, including an empty one. The container in between is 21 + 16 * (n / 16 + 1) bytes long, and afterwards the only other change is the backup. |
| Protocol.RoundTripWithKey | FeCli.cs:248-273 | Any password that derives the same key decrypts the container, because the key depends on nothing but the password's hash. |
| Protocol.NoDoubleEncryption | FeCli.cs:43-49 | After a successful encryption, a second encrypt command is refused and changes nothing. |
| Protocol.SignaturePrefixBlocksEncryption | FeCli.cs:43-49 | A plaintext that starts with the signature can never be encrypted; the guard refuses it. |
| Protocol.UnreadableRefused | FeCli.cs:153-161 | A file that exists but cannot be opened for reading is refused with access denied by both the encrypt and the decrypt command, and nothing changes. |
| Protocol.Unsalted | FeCli.cs:205-209 | The same plaintext, password and IV give byte-identical containers in any file system and at any path. |
| Protocol.BackupSurvivesFailedWrite | FeCli.cs:236-241 | If the backup succeeds but the overwrite is refused, the backup holds the original contents, the file is untouched, and the backup is read-only exactly when the original is read-only; a denial for another reason is not passed on. |
| Protocol.RetriedBackupRefused | FeCli.cs:236-241 | After a backup of a read-only file whose overwrite was refused, a later encrypt with a backup is refused at the copy even once the file is writable, because the backup kept the read-only state. |
| Protocol.HelloWorld | FeCli.cs:227-241 | The 11-byte "hello world" encrypted under "secret" becomes a 37-byte container, and decrypting it with "secret" gives "hello world" back. |

## Left out

- ShowHelp and all console colouring and messages (FeCli.cs:12-36, 86-151): they only produce output. The dispatcher's outcome is kept as an `Outcome` value instead.
- ReadPassword (FeCli.cs:177-203): an interactive keyboard loop. The password is a parameter.
- Argument parsing and the `File.Exists` pre-check (FeCli.cs:18-36): these belong to the command-line layer. A missing file still surfaces as not-found from the engine.
- The internals of AES, CBC, PKCS#7, SHA-256 and UTF-8 encoding, and the random IV generator: these are library calls. They stay uninterpreted, and the IV is an arbitrary 16-byte input.
- Rejection of a wrong password is not modelled. There is no authentication tag, so the padding check may pass on a wrong key, and nothing about the outcome can be promised.
- The key-size setter's check (`aes.Key = key`) is not modelled, because the lawful hash always supplies 32 bytes.
- Stream disposal, short reads from `fs.Read`, the non-atomic overwrite (a write that fails part-way, for example on a full disk, has already truncated the file), arrays over 2 GB and concurrent access to the same path are not modelled: they are runtime and OS behaviour, and the program does nothing about them.
- IsFileEncrypted reads only the header in the program. The model looks at the first five bytes of the whole contents, which gives the same answer.
