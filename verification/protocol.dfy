/** Properties that relate several runs of the encrypt and decrypt
    protocols. */
module Protocol {
  import opened Wrappers
  import opened Primitives
  import opened Container
  import opened FileSystem
  import opened Engine

  /** The decrypt side of the cipher law, as used by the file protocol:
      with a derived key, decrypting what was encrypted gives it back. */
  lemma DecryptEncrypted(s: Suite, password: string, iv: Bytes, plain: Bytes)
    requires Lawful(s) && |iv| == IvLength
    ensures s.decrypt(GetAesKey(s, password), iv, s.encrypt(GetAesKey(s, password), iv, plain)) == Some(plain)
  {
    var key := GetAesKey(s, password);
    assert |key| == KeyLength;
  }

  /** Encrypting a plaintext file and then decrypting it with the same
      password restores its bytes, including an empty file. The container
      in between is `21 + 16 * (n / 16 + 1)` bytes long, and afterwards the
      only trace left is the backup, when one was asked for. */
  lemma {:induction false} RoundTrip(s: Suite, w: World, path: Path, password: string, makeBackup: bool, iv: Bytes)
    requires Lawful(s) && |iv| == IvLength
    requires Readable(w, path) && !IsContainer(w.files[path])
    requires Writable(w, path) && (makeBackup ==> Writable(w, BackupPath(path)))
    ensures
      var e := EncryptCommand(s, w, path, password, makeBackup, iv);
      var d := DecryptCommand(s, e.world, path, password);
      && e.outcome == Encrypted
      && |e.world.files[path]| == 21 + 16 * (|w.files[path]| / 16 + 1)
      && d.outcome == Decrypted
      && d.world.files[path] == w.files[path]
      && d.world.files == (if makeBackup then w.files[BackupPath(path) := w.files[path]] else w.files)
  {
    RoundTripWithKey(s, w, path, password, password, makeBackup, iv);
    var plain := w.files[path];
    var key := GetAesKey(s, password);
    EncodedLength(s, key, iv, plain);
  }

  /** The key depends on the password alone: any password that derives
      the same key decrypts the container, whatever else differs. */
  lemma {:induction false} RoundTripWithKey(s: Suite, w: World, path: Path, password: string, other: string, makeBackup: bool, iv: Bytes)
    requires Lawful(s) && |iv| == IvLength
    requires GetAesKey(s, other) == GetAesKey(s, password)
    requires Readable(w, path) && !IsContainer(w.files[path])
    requires Writable(w, path) && (makeBackup ==> Writable(w, BackupPath(path)))
    ensures
      var e := EncryptCommand(s, w, path, password, makeBackup, iv);
      var d := DecryptCommand(s, e.world, path, other);
      && e.outcome == Encrypted
      && d.outcome == Decrypted
      && d.world.files == (if makeBackup then w.files[BackupPath(path) := w.files[path]] else w.files)
  {
    var plain := w.files[path];
    var e := EncryptCommand(s, w, path, password, makeBackup, iv);
    assert e == EncryptFile(s, w, path, password, makeBackup, iv);
    var ciphertext := s.encrypt(GetAesKey(s, password), iv, plain);
    var written := Encode(iv, ciphertext);
    assert e.world.files[path] == written;
    assert IsContainer(written);
    DecodeEncode(iv, ciphertext);
    DecryptEncrypted(s, password, iv, plain);
    var d := DecryptCommand(s, e.world, path, other);
    assert d == DecryptFile(s, e.world, path, other);
    assert d.world.files == e.world.files[path := plain];
    if makeBackup {
      assert e.world.files == w.files[BackupPath(path) := plain][path := written];
    } else {
      assert e.world.files == w.files[path := written];
    }
  }

  /** A file that has just been encrypted is refused by a second encrypt,
      which leaves everything as it was. */
  lemma NoDoubleEncryption(s: Suite, w: World, path: Path, password: string, makeBackup: bool, iv: Bytes,
                           password2: string, makeBackup2: bool, iv2: Bytes)
    requires |iv| == IvLength && |iv2| == IvLength
    requires EncryptCommand(s, w, path, password, makeBackup, iv).outcome == Encrypted
    ensures
      var w1 := EncryptCommand(s, w, path, password, makeBackup, iv).world;
      EncryptCommand(s, w1, path, password2, makeBackup2, iv2) == Run(AlreadyEncrypted, w1)
  {
    assert EncryptCommand(s, w, path, password, makeBackup, iv) == EncryptFile(s, w, path, password, makeBackup, iv);
  }

  /** A plaintext that happens to start with the signature can never be
      encrypted: the guard takes it for a container. */
  lemma SignaturePrefixBlocksEncryption(s: Suite, w: World, path: Path, password: string, makeBackup: bool, iv: Bytes, rest: Bytes)
    requires |iv| == IvLength
    requires Readable(w, path) && w.files[path] == FileSignature + rest
    ensures EncryptCommand(s, w, path, password, makeBackup, iv) == Run(AlreadyEncrypted, w)
  {
    assert (FileSignature + rest)[..SignatureLength] == FileSignature;
  }

  /** A file that exists but cannot be opened for reading is refused with
      access denied by both commands, and nothing changes. */
  lemma UnreadableRefused(s: Suite, w: World, path: Path, password: string, makeBackup: bool, iv: Bytes)
    requires |iv| == IvLength
    requires path in w.files && path in w.unreadable
    ensures EncryptCommand(s, w, path, password, makeBackup, iv) == Run(Failed(Io(AccessDenied(path))), w)
    ensures DecryptCommand(s, w, path, password) == Run(Failed(Io(AccessDenied(path))), w)
  {
  }

  /** No salt: the same plaintext, password and IV give byte-identical
      containers, wherever and whenever the file is encrypted. */
  lemma Unsalted(s: Suite, w1: World, p1: Path, w2: World, p2: Path, password: string,
                 b1: bool, b2: bool, iv: Bytes)
    requires |iv| == IvLength
    requires EncryptFile(s, w1, p1, password, b1, iv).outcome == Encrypted
    requires EncryptFile(s, w2, p2, password, b2, iv).outcome == Encrypted
    requires w1.files[p1] == w2.files[p2]
    ensures EncryptFile(s, w1, p1, password, b1, iv).world.files[p1]
         == EncryptFile(s, w2, p2, password, b2, iv).world.files[p2]
  {
  }

  /** When the backup lands but the overwrite is refused, the backup stays,
      the original file is untouched, and the backup is read-only exactly
      when the original is: any other denial is not passed on. */
  lemma BackupSurvivesFailedWrite(s: Suite, w: World, path: Path, password: string, iv: Bytes)
    requires |iv| == IvLength
    requires Readable(w, path) && !Writable(w, path) && Writable(w, BackupPath(path))
    ensures
      var r := EncryptFile(s, w, path, password, true, iv);
      && r.outcome == Failed(Io(AccessDenied(path)))
      && r.world.files == w.files[BackupPath(path) := w.files[path]]
      && r.world.files[path] == w.files[path]
      && (BackupPath(path) in r.world.readOnly <==> path in w.readOnly)
      && BackupPath(path) !in r.world.denied
  {
  }

  /** After a backup of a read-only file, a later encrypt with a backup is
      refused at the copy even once the file itself has become writable:
      the backup kept the read-only state and cannot be overwritten. */
  lemma RetriedBackupRefused(s: Suite, w: World, path: Path, password: string, iv: Bytes,
                             password2: string, iv2: Bytes)
    requires |iv| == IvLength && |iv2| == IvLength
    requires Readable(w, path) && !IsContainer(w.files[path])
    requires path in w.readOnly && Writable(w, BackupPath(path))
    ensures
      var r := EncryptFile(s, w, path, password, true, iv);
      var w2 := r.world.(readOnly := r.world.readOnly - {path}, denied := r.world.denied - {path});
      EncryptCommand(s, w2, path, password2, true, iv2)
        == Run(Failed(Io(AccessDenied(BackupPath(path)))), w2)
  {
  }

  /** The eleven-byte file "hello world" encrypted under "secret" becomes
      a 37-byte container (signature, IV, one padded block), and decrypting
      it with "secret" gives "hello world" back. */
  lemma HelloWorld(s: Suite, iv: Bytes)
    requires Lawful(s) && |iv| == IvLength
    ensures
      var w := World(map["notes.txt" := Ascii("hello world")], {}, {}, {}, []);
      var e := EncryptCommand(s, w, "notes.txt", "secret", false, iv);
      var d := DecryptCommand(s, e.world, "notes.txt", "secret");
      && e.outcome == Encrypted
      && |e.world.files["notes.txt"]| == 37
      && d.outcome == Decrypted
      && d.world.files["notes.txt"] == Ascii("hello world")
  {
    var w := World(map["notes.txt" := Ascii("hello world")], {}, {}, {}, []);
    var hello := Ascii("hello world");
    assert hello[0] == 0x68;
    SignatureBytes();
    assert !IsContainer(hello) by {
      assert hello[..SignatureLength][0] != FileSignature[0];
    }
    RoundTrip(s, w, "notes.txt", "secret", false, iv);
  }
}
