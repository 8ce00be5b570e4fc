/** infrastructure/service/file_writer.go: the sink the init-project usecase writes through. */
module FileWriterService {
  import opened Paths
  import opened Errors
  import opened Os

  /** The prefix EnsureDir puts before a MkdirAll error. */
  function EnsureDirContext(dir: Path): string
  {
    "failed to create directory " + Display(dir)
  }

  /** EnsureDir: MkdirAll, with a failure wrapped with the directory's name. */
  function EnsuredDir(d: Disk, dir: Path): (o: Outcome)
    ensures o.err.None? <==> d.MkdirAll(dir).err.None?
    ensures o.err.Some? ==> o == Outcome(d, Some(Wrapped(EnsureDirContext(dir), d.MkdirAll(dir).err.value)))
    ensures o.err.None? ==> o.disk == d.MkdirAll(dir).disk && dir in o.disk.dirs
  {
    var made := d.MkdirAll(dir);
    if made.err.Some? then Outcome(d, Some(Wrapped(EnsureDirContext(dir), made.err.value)))
    else
      assert dir[..|dir|] == dir;
      made
  }

  /** WriteFile: ensures the parent directory exists, then stores the content with os.WriteFile,
      replacing any earlier content. Only the path and its ancestors can change. */
  function WrittenFile(d: Disk, path: Path, content: string): (o: Outcome)
    ensures d.Valid() ==> o.disk.Valid()
    ensures d.dirs <= o.disk.dirs <= d.dirs + Prefixes(Parent(path))
    ensures d.files.Keys <= o.disk.files.Keys <= d.files.Keys + {path}
    ensures FilesAgreeOutside(o.disk.files, d.files, {path})
    ensures o.disk.files != d.files ==> Prefixes(Parent(path)) <= o.disk.dirs
    ensures o.err.None? ==> Prefixes(Parent(path)) <= o.disk.dirs && path in o.disk.files && o.disk.files[path] == content
    // on a file-system tree, the write succeeds exactly when the parent can be made and the
    // path names neither the working directory nor a directory
    ensures d.Valid() ==> (o.err.None? <==> d.MkdirAll(Parent(path)).err.None? && path !in d.dirs && path != [])
    // an EnsureDir failure comes back as EnsureDir wrapped it, with the disk untouched
    ensures d.MkdirAll(Parent(path)).err.Some? ==> o == EnsuredDir(d, Parent(path)) && o.disk == d
    // after the parent is made, the os.WriteFile outcome is returned without wrapping
    ensures d.MkdirAll(Parent(path)).err.None? ==> o == d.MkdirAll(Parent(path)).disk.WriteFile(path, content)
  {
    var ensured := EnsuredDir(d, Parent(path));
    if ensured.err.Some? then ensured
    else ensured.disk.WriteFile(path, content)
  }

  /** The file writer; it holds the file system it writes to. */
  class FileWriter {
    const fs: FileSystem

    constructor (fs: FileSystem)
      ensures this.fs == fs
    {
      this.fs := fs;
    }

    method EnsureDir(dir: Path) returns (err: Option<Error>)
      requires fs.Valid()
      modifies fs
      ensures fs.Valid()
      ensures Outcome(fs.State(), err) == EnsuredDir(old(fs.State()), dir)
    {
      err := fs.MkdirAll(dir);
      if err.Some? {
        err := Some(Wrapped(EnsureDirContext(dir), err.value));
      }
    }

    method WriteFile(path: Path, content: string) returns (err: Option<Error>)
      requires fs.Valid()
      modifies fs
      ensures fs.Valid()
      ensures Outcome(fs.State(), err) == WrittenFile(old(fs.State()), path, content)
    {
      err := EnsureDir(Parent(path));
      if err.Some? {
        return;
      }
      err := fs.WriteFile(path, content);
    }
  }
}
