/** The output file system: directories and regular files, and the os primitives the core calls. */
module Os {
  import opened Paths
  import opened Errors

  /** The state after an operation, and the error it returned (None for nil). */
  datatype Outcome = Outcome(disk: Disk, err: Option<Error>)

  /** The output file system as a value: its directories and its files with their contents. */
  datatype Disk = Disk(dirs: set<Path>, files: map<Path, string>) {

    /** A file-system tree: the working directory exists, nothing is both a directory and a file,
        every ancestor of a directory is a directory and every file lies in a directory. */
    ghost predicate Valid()
    {
      && [] in dirs
      && dirs !! files.Keys
      && (forall p, k :: p in dirs && 0 <= k <= |p| ==> p[..k] in dirs)
      && (forall p :: p in files ==> p != [] && Parent(p) in dirs)
    }

    /** The shortest of p[..k], p[..k+1], ..., p that is a regular file, if there is one. */
    function FileAncestor(p: Path, k: nat): (r: Option<Path>)
      requires k <= |p|
      ensures r.None? <==> forall j :: k <= j <= |p| ==> p[..j] !in files
      ensures r.Some? ==> r.value in files && r.value <= p
      decreases |p| - k
    {
      if p[..k] in files then Some(p[..k])
      else if k == |p| then None
      else FileAncestor(p, k + 1)
    }

    /** os.MkdirAll: creates p and every missing ancestor; when p or an ancestor is a regular
        file it fails with ENOTDIR and creates nothing. Existing directories are not an error. */
    function MkdirAll(p: Path): (o: Outcome)
      ensures o.err.None? <==> forall k :: 0 <= k <= |p| ==> p[..k] !in files
      ensures o.err.Some? ==> o.disk == this
      ensures o.err.None? ==> o.disk.files == files && o.disk.dirs == dirs + Prefixes(p)
      ensures Valid() ==> o.disk.Valid()
    {
      match FileAncestor(p, 0)
      case Some(q) => Outcome(this, Some(NotADirectory(q)))
      case None =>
        PrefixesClosed(p);
        Outcome(Disk(dirs + Prefixes(p), files), None)
    }

    /** os.Create: opens p for writing, creating it or truncating an existing file to empty;
        fails when p is a directory (EISDIR), when a regular file stands on its parent's path
        (ENOTDIR) or when its parent is missing (ENOENT). */
    function Create(p: Path): (o: Outcome)
      ensures o.err.None? <==> p !in dirs && p != [] && Parent(p) in dirs
      ensures o.err.Some? ==> o.disk == this
      ensures o.err.None? ==> o.disk.dirs == dirs && o.disk.files == files[p := ""]
      ensures Valid() ==> o.disk.Valid()
    {
      if p in dirs then Outcome(this, Some(IsADirectory(p)))
      else if p == [] || Parent(p) !in dirs then
        Outcome(this, Some(if FileAncestor(Parent(p), 0).Some? then NotADirectory(p) else NotExist(p)))
      else Outcome(Disk(dirs, files[p := ""]), None)
    }

    /** Writing s through an open handle on p: appends s to the file's contents. */
    function Write(p: Path, s: string): (d: Disk)
      requires p in files
      ensures d.dirs == dirs && d.files == files[p := files[p] + s]
      ensures Valid() ==> d.Valid()
    {
      Disk(dirs, files[p := files[p] + s])
    }

    /** os.WriteFile: creates or truncates p, then writes s; fails as Create does. */
    function WriteFile(p: Path, s: string): (o: Outcome)
      ensures o.err.None? <==> p !in dirs && p != [] && Parent(p) in dirs
      ensures o.err.Some? ==> o.disk == this
      ensures o.err.None? ==> o.disk.dirs == dirs && o.disk.files == files[p := s]
      ensures Valid() ==> o.disk.Valid()
    {
      var created := Create(p);
      if created.err.Some? then created
      else
        assert "" + s == s;
        Outcome(created.disk.Write(p, s), None)
    }
  }

  /** The two file maps hold the same files with the same contents outside the paths in s. */
  ghost predicate FilesAgreeOutside(a: map<Path, string>, b: map<Path, string>, s: set<Path>)
  {
    forall p :: p !in s ==> (p in a <==> p in b) && (p in a ==> a[p] == b[p])
  }

  /** Every ancestor of a member of Prefixes(p) is itself a member. */
  lemma PrefixesClosed(p: Path)
    ensures forall q, k :: q in Prefixes(p) && 0 <= k <= |q| ==> q[..k] in Prefixes(p)
  {
    forall q, k | q in Prefixes(p) && 0 <= k <= |q|
      ensures q[..k] in Prefixes(p)
    {
      assert q[..k] == p[..k];
    }
  }

  /** MkdirAll is idempotent: on an existing directory it succeeds and changes nothing. */
  lemma MkdirAllExistingIsNoop(d: Disk, p: Path)
    requires d.Valid() && p in d.dirs
    ensures d.MkdirAll(p) == Outcome(d, None)
  {
  }

  /** The process's view of the output file system; the os calls update it in place. */
  class FileSystem {
    var dirs: set<Path>
    var files: map<Path, string>

    function State(): Disk
      reads this
    {
      Disk(dirs, files)
    }

    ghost predicate Valid()
      reads this
    {
      State().Valid()
    }

    constructor (initial: Disk)
      requires initial.Valid()
      ensures Valid() && State() == initial
    {
      dirs := initial.dirs;
      files := initial.files;
    }

    method MkdirAll(p: Path) returns (err: Option<Error>)
      requires Valid()
      modifies this
      ensures Valid()
      ensures Outcome(State(), err) == old(State()).MkdirAll(p)
    {
      var o := State().MkdirAll(p);
      dirs, files, err := o.disk.dirs, o.disk.files, o.err;
    }

    method Create(p: Path) returns (err: Option<Error>)
      requires Valid()
      modifies this
      ensures Valid()
      ensures Outcome(State(), err) == old(State()).Create(p)
    {
      var o := State().Create(p);
      dirs, files, err := o.disk.dirs, o.disk.files, o.err;
    }

    method Write(p: Path, s: string)
      requires Valid() && p in files
      modifies this
      ensures Valid()
      ensures State() == old(State()).Write(p, s)
    {
      files := files[p := files[p] + s];
    }

    method WriteFile(p: Path, s: string) returns (err: Option<Error>)
      requires Valid()
      modifies this
      ensures Valid()
      ensures Outcome(State(), err) == old(State()).WriteFile(p, s)
    {
      err := Create(p);
      if err.None? {
        Write(p, s);
      }
    }
  }
}
