/** Key derivation, the in-place encrypt and decrypt protocols, and the
    guard branches of the command dispatcher. */
module Engine {
  import opened Wrappers
  import opened Primitives
  import opened Container
  import opened FileSystem

  /** Where the optional pre-encryption copy goes. */
  function BackupPath(path: Path): (r: Path)
    ensures |r| == |path| + 4 && r[..|path|] == path && r[|path|..] == ".bak"
    ensures r != path
  {
    path + ".bak"
  }

  /** The AES key: SHA-256 over the UTF-8 bytes of the password, with no
      salt and no stretching. */
  function GetAesKey(s: Suite, password: string): (key: Bytes)
    ensures Lawful(s) ==> |key| == KeyLength
  {
    s.sha256(s.utf8(password))
  }

  /** Why an operation stopped. `Io` is an I/O or access exception,
      `Truncated` the `ArgumentException` raised when a buffer is too
      short to copy the IV out of, `Cryptographic` the
      `CryptographicException` raised by a failed decryption. */
  datatype Error = Io(io: IoError) | Truncated | Cryptographic

  /** `AlreadyEncrypted` and `NotEncrypted` are the informational refusals
      of the guards; they are not failures. */
  datatype Outcome = Encrypted | Decrypted | AlreadyEncrypted | NotEncrypted | Failed(error: Error)

  /** An outcome together with the file system it leaves behind. */
  datatype Run = Run(outcome: Outcome, world: World)

  /** Whether the file at `path` carries the signature. A file shorter than
      the signature is not a container; a missing or unreadable file
      cannot be opened. */
  function IsFileEncrypted(w: World, path: Path): (r: Result<bool, IoError>)
    ensures r.Failure? <==> !Readable(w, path)
    ensures path !in w.files ==> r == Failure(NotFound(path))
    ensures path in w.files && path in w.unreadable ==> r == Failure(AccessDenied(path))
    ensures r.Success? ==> (r.value <==> IsContainer(w.files[path]))
    ensures Readable(w, path) && |w.files[path]| < SignatureLength ==> r == Success(false)
  {
    match ReadAllBytes(w, path)
    case Failure(e) => Failure(e)
    case Success(data) => Success(CheckHeader(data))
  }

  /** Encrypts the file at `path` in place: read it, encrypt it in memory
      under a key from `password` and the given IV, optionally copy the
      original to `path.bak`, then overwrite `path` with
      signature ++ IV ++ ciphertext. */
  function EncryptFile(s: Suite, w: World, path: Path, password: string, makeBackup: bool, iv: Bytes): (r: Run)
    requires |iv| == IvLength
    ensures r.outcome == Encrypted || r.outcome.Failed?
    ensures r.outcome == Encrypted <==>
      && Readable(w, path)
      && Writable(w, path)
      && (makeBackup ==> Writable(w, BackupPath(path)))
    // On success: the file is a container holding this IV and the
    // ciphertext of the original contents; only `path` and, with a backup,
    // `path.bak` changed, the backup holding the original contents; and
    // the backup was written before the overwrite.
    ensures r.outcome == Encrypted ==>
      var plain := w.files[path];
      var ciphertext := s.encrypt(GetAesKey(s, password), iv, plain);
      var written := Encode(iv, ciphertext);
      && r.world.unreadable == w.unreadable
      && r.world.readOnly == w.readOnly && r.world.denied == w.denied
      && path in r.world.files
      && IsContainer(r.world.files[path])
      && Decode(r.world.files[path]) == Some(Parts(FileSignature, iv, ciphertext))
      && (makeBackup ==>
            && r.world.files == w.files[BackupPath(path) := plain][path := written]
            && r.world.log == w.log + [Copied(path, BackupPath(path), plain), Wrote(path, written)])
      && (!makeBackup ==>
            && r.world.files == w.files[path := written]
            && r.world.log == w.log + [Wrote(path, written)])
    // On failure `path` keeps its contents; the only write that can have
    // happened is a completed backup.
    ensures r.outcome.Failed? ==>
      || r.world == w
      || (&& makeBackup && path in w.files && !Writable(w, path)
          && r.world == w.(files := w.files[BackupPath(path) := w.files[path]],
                           readOnly := if path in w.readOnly then w.readOnly + {BackupPath(path)} else w.readOnly,
                           log := w.log + [Copied(path, BackupPath(path), w.files[path])]))
    // A file that cannot be read is reported and nothing changes.
    ensures !Readable(w, path) ==> r == Run(Failed(Io(ReadAllBytes(w, path).error)), w)
    // A failed backup stops everything before the overwrite.
    ensures makeBackup && Readable(w, path) && !Writable(w, BackupPath(path)) ==>
      r == Run(Failed(Io(AccessDenied(BackupPath(path)))), w)
    // An overwrite that is refused reports access denied.
    ensures Readable(w, path) && !Writable(w, path) && (makeBackup ==> Writable(w, BackupPath(path))) ==>
      r.outcome == Failed(Io(AccessDenied(path)))
  {
    match ReadAllBytes(w, path)
    case Failure(e) => Run(Failed(Io(e)), w)
    case Success(plain) =>
      var key := GetAesKey(s, password);
      var output := Encode(iv, s.encrypt(key, iv, plain));
      var backedUp := if makeBackup then Copy(w, path, BackupPath(path)) else Success(w);
      match backedUp
      case Failure(e) => Run(Failed(Io(e)), w)
      case Success(w1) =>
        match WriteAllBytes(w1, path, output)
        case Failure(e) => Run(Failed(Io(e)), w1)
        case Success(w2) => Run(Encrypted, w2)
  }

  /** Decrypts the file at `path` in place: read it, slice it into
      signature, IV and ciphertext (the signature is not compared),
      decrypt, and overwrite `path` with the plaintext. */
  function DecryptFile(s: Suite, w: World, path: Path, password: string): (r: Run)
    ensures r.outcome == Decrypted || r.outcome.Failed?
    // Every failure happens before the write: nothing changes.
    ensures r.outcome.Failed? ==> r.world == w
    ensures !Readable(w, path) ==> r.outcome == Failed(Io(ReadAllBytes(w, path).error))
    ensures Readable(w, path) && |w.files[path]| < HeaderLength ==> r.outcome == Failed(Truncated)
    ensures Readable(w, path) && |w.files[path]| >= HeaderLength ==>
      var parts := Decode(w.files[path]).value;
      match s.decrypt(GetAesKey(s, password), parts.iv, parts.ciphertext)
      case None => r.outcome == Failed(Cryptographic)
      case Some(plain) =>
        && (r.outcome == Decrypted <==> Writable(w, path))
        && (!Writable(w, path) ==> r.outcome == Failed(Io(AccessDenied(path))))
        && (r.outcome == Decrypted ==>
              r.world == w.(files := w.files[path := plain], log := w.log + [Wrote(path, plain)]))
  {
    match ReadAllBytes(w, path)
    case Failure(e) => Run(Failed(Io(e)), w)
    case Success(bytes) =>
      var key := GetAesKey(s, password);
      match Decode(bytes)
      case None => Run(Failed(Truncated), w)
      case Some(parts) =>
        match s.decrypt(key, parts.iv, parts.ciphertext)
        case None => Run(Failed(Cryptographic), w)
        case Some(plain) =>
          match WriteAllBytes(w, path, plain)
          case Failure(e) => Run(Failed(Io(e)), w)
          case Success(w1) => Run(Decrypted, w1)
  }

  /** The `encrypt` branch of the dispatcher: refuse a file that already
      carries the signature, otherwise encrypt it. The password and the
      backup choice are the ones the user would type. */
  function EncryptCommand(s: Suite, w: World, path: Path, password: string, makeBackup: bool, iv: Bytes): (r: Run)
    requires |iv| == IvLength
    ensures Readable(w, path) && IsContainer(w.files[path]) ==> r == Run(AlreadyEncrypted, w)
    ensures Readable(w, path) && !IsContainer(w.files[path]) ==>
      r == EncryptFile(s, w, path, password, makeBackup, iv)
    ensures !Readable(w, path) ==> r == Run(Failed(Io(ReadAllBytes(w, path).error)), w)
  {
    match IsFileEncrypted(w, path)
    case Failure(e) => Run(Failed(Io(e)), w)
    case Success(encrypted) =>
      if encrypted then Run(AlreadyEncrypted, w)
      else EncryptFile(s, w, path, password, makeBackup, iv)
  }

  /** The `decrypt` branch of the dispatcher: refuse a file without the
      signature, otherwise decrypt it. */
  function DecryptCommand(s: Suite, w: World, path: Path, password: string): (r: Run)
    ensures Readable(w, path) && !IsContainer(w.files[path]) ==> r == Run(NotEncrypted, w)
    ensures Readable(w, path) && IsContainer(w.files[path]) ==> r == DecryptFile(s, w, path, password)
    ensures !Readable(w, path) ==> r == Run(Failed(Io(ReadAllBytes(w, path).error)), w)
  {
    match IsFileEncrypted(w, path)
    case Failure(e) => Run(Failed(Io(e)), w)
    case Success(encrypted) =>
      if !encrypted then Run(NotEncrypted, w)
      else DecryptFile(s, w, path, password)
  }
}
