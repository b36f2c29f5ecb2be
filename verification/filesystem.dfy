/** The file system as the program sees it through `File.ReadAllBytes`,
    `File.Copy` and `File.WriteAllBytes`. Every completed write is recorded
    in `log`, so the order of effects can be stated. */
module FileSystem {
  import opened Wrappers
  import opened Primitives

  type Path = string

  /** `NotFound` stands for a `FileNotFoundException` (an `IOException`),
      `AccessDenied` for an `UnauthorizedAccessException`, raised when a
      file cannot be opened for reading or for writing. */
  datatype IoError = NotFound(path: Path) | AccessDenied(path: Path)

  datatype Effect =
    | Copied(src: Path, dst: Path, data: Bytes)
    | Wrote(path: Path, data: Bytes)

  /** File contents, the paths that may not be opened for reading, the
      paths carrying the read-only attribute (which a copy passes on), the
      paths whose writing is denied for any other reason, such as ownership
      or an access-control entry (which a copy does not pass on), and the
      writes performed so far, oldest first. */
  datatype World = World(
    files: map<Path, Bytes>,
    unreadable: set<Path>,
    readOnly: set<Path>,
    denied: set<Path>,
    log: seq<Effect>)

  /** A file that exists and may be opened for reading. */
  predicate Readable(w: World, p: Path) {
    p in w.files && p !in w.unreadable
  }

  /** A path that may be opened for writing. */
  predicate Writable(w: World, p: Path) {
    p !in w.readOnly && p !in w.denied
  }

  /** Reads a whole file: a missing file is not found, an unreadable one
      is refused. */
  function ReadAllBytes(w: World, p: Path): (r: Result<Bytes, IoError>)
    ensures r.Success? <==> Readable(w, p)
    ensures r.Success? ==> r.value == w.files[p]
    ensures p !in w.files ==> r == Failure(NotFound(p))
    ensures p in w.files && p in w.unreadable ==> r == Failure(AccessDenied(p))
  {
    if p !in w.files then Failure(NotFound(p))
    else if p in w.unreadable then Failure(AccessDenied(p))
    else Success(w.files[p])
  }

  /** Creates or truncates `p` and writes `data`. A path that may not be
      opened for writing is refused before anything is touched; afterwards
      reading `p` gives `data` and every other path reads as before. */
  function WriteAllBytes(w: World, p: Path, data: Bytes): (r: Result<World, IoError>)
    ensures r.Success? <==> Writable(w, p)
    ensures r.Failure? ==> r.error == AccessDenied(p)
    ensures r.Success? ==>
      && r.value.unreadable == w.unreadable && r.value.readOnly == w.readOnly && r.value.denied == w.denied
      && p in r.value.files && r.value.files[p] == data
      && (forall q :: q != p ==> ReadAllBytes(r.value, q) == ReadAllBytes(w, q))
      && r.value.files.Keys == w.files.Keys + {p}
      && r.value.log == w.log + [Wrote(p, data)]
  {
    if !Writable(w, p) then Failure(AccessDenied(p))
    else Success(w.(files := w.files[p := data], log := w.log + [Wrote(p, data)]))
  }

  /** Copies `src` to `dst`, overwriting `dst` if it exists. Fails without
      touching anything when `src` cannot be opened for reading or `dst`
      for writing; otherwise `dst` holds what `src` held and, since the
      copy carries the source's attributes over, is read-only exactly when
      `src` is. */
  function Copy(w: World, src: Path, dst: Path): (r: Result<World, IoError>)
    ensures r.Success? <==> Readable(w, src) && Writable(w, dst)
    ensures ReadAllBytes(w, src).Failure? ==> r == Failure(ReadAllBytes(w, src).error)
    ensures ReadAllBytes(w, src).Success? && !Writable(w, dst) ==> r == Failure(AccessDenied(dst))
    ensures r.Success? ==>
      && r.value.unreadable == w.unreadable
      && r.value.readOnly == (if src in w.readOnly then w.readOnly + {dst} else w.readOnly)
      && r.value.denied == w.denied
      && dst in r.value.files && r.value.files[dst] == w.files[src]
      && (forall q :: q != dst ==> ReadAllBytes(r.value, q) == ReadAllBytes(w, q))
      && r.value.files.Keys == w.files.Keys + {dst}
      && r.value.log == w.log + [Copied(src, dst, w.files[src])]
  {
    match ReadAllBytes(w, src)
    case Failure(e) => Failure(e)
    case Success(data) =>
      if !Writable(w, dst) then Failure(AccessDenied(dst))
      else
        var readOnly := if src in w.readOnly then w.readOnly + {dst} else w.readOnly;
        Success(w.(files := w.files[dst := data], readOnly := readOnly,
                   log := w.log + [Copied(src, dst, data)]))
  }
}
