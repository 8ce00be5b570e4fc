/** application/usecase/init_project.go: initialising a project from templates/<TemplateType>.
    Every regular file is rendered, whatever its name, and written under the output directory at
    the same relative path; directories produce nothing of their own. */
module Usecase {
  import opened Paths
  import opened Errors
  import opened Os
  import opened TemplateTree
  import opened FileWriterService

  /** The project being initialised (the fields the usecase reads). */
  datatype Project = Project(name: string, templateType: string, outputDir: Path)

  /** The template service: renders a template text against the project. */
  datatype TemplateService = TemplateService(render: (string, Project) -> Result<string, Error>)

  /** The directory holding the template sets, relative to the working directory. */
  const TemplatesDir := "templates"

  const ReadContext := "failed to read template file"
  const RenderContext := "failed to render template"
  const WriteContext := "failed to write file"

  /** filepath.Join("templates", TemplateType); Join drops an empty element. */
  function TemplateRoot(project: Project): (r: Path)
    ensures JoinSlash(r) == if project.templateType == "" then TemplatesDir else TemplatesDir + "/" + project.templateType
  {
    if project.templateType == "" then [TemplatesDir] else [TemplatesDir, project.templateType]
  }

  /** Where a file visit is written: filepath.Join(OutputDir, relPath). */
  function OutputPath(v: Visit, project: Project): Path
  {
    project.outputDir + v.rel
  }

  /** The directories one visit may create: the ancestors of a file's output path. */
  function StepDirs(v: Visit, project: Project): set<Path>
  {
    if v.kind.FileVisit? then Prefixes(Parent(OutputPath(v, project))) else {}
  }

  /** The file one visit may write. */
  function StepFiles(v: Visit, project: Project): set<Path>
  {
    if v.kind.FileVisit? then {OutputPath(v, project)} else {}
  }

  /** The filepath.Walk callback of Execute for one visit: directories are skipped; a file is read,
      rendered, and written, each failure returned wrapped with what failed. */
  function Handled(v: Visit, project: Project, service: TemplateService, d: Disk): (o: Outcome)
    ensures v.kind.Failed? ==> o == Outcome(d, Some(v.kind.err))
    ensures v.kind.DirVisit? ==> o == Outcome(d, None)
    ensures v.kind.FileVisit? && v.kind.content.None? ==>
      o == Outcome(d, Some(Wrapped(ReadContext, ReadFailed(v.path))))
    ensures v.kind.FileVisit? && v.kind.content.Some? && service.render(v.kind.content.value, project).Failure? ==>
      o == Outcome(d, Some(Wrapped(RenderContext, service.render(v.kind.content.value, project).error)))
    ensures v.kind.FileVisit? && v.kind.content.Some? && service.render(v.kind.content.value, project).Success? ==>
      var written := WrittenFile(d, OutputPath(v, project), service.render(v.kind.content.value, project).value);
      && o.disk == written.disk
      && (o.err.Some? <==> written.err.Some?)
      && (o.err.Some? ==> o.err.value == Wrapped(WriteContext, written.err.value))
    ensures d.dirs <= o.disk.dirs <= d.dirs + StepDirs(v, project)
    ensures d.files.Keys <= o.disk.files.Keys <= d.files.Keys + StepFiles(v, project)
    ensures FilesAgreeOutside(o.disk.files, d.files, StepFiles(v, project))
    ensures d.Valid() ==> o.disk.Valid()
    ensures o.err.None? ==> StepDirs(v, project) <= o.disk.dirs && StepFiles(v, project) <= o.disk.files.Keys
    ensures o.err.None? && v.kind.FileVisit? ==>
      && v.kind.content.Some?
      && service.render(v.kind.content.value, project).Success?
      && o.disk.files[OutputPath(v, project)] == service.render(v.kind.content.value, project).value
  {
    match v.kind
    case Failed(err) => Outcome(d, Some(err))
    case DirVisit(_) => Outcome(d, None)
    case FileVisit(_, content) =>
      if content.None? then Outcome(d, Some(Wrapped(ReadContext, ReadFailed(v.path))))
      else match service.render(content.value, project)
        case Failure(e) => Outcome(d, Some(Wrapped(RenderContext, e)))
        case Success(rendered) =>
          var written := WrittenFile(d, OutputPath(v, project), rendered);
          if written.err.Some? then Outcome(written.disk, Some(Wrapped(WriteContext, written.err.value)))
          else written
  }

  /** The callback applied to the visits in order until one returns an error. A walk that returns
      nil met no walk error, and read and rendered every file. */
  function Initialized(vs: seq<Visit>, project: Project, service: TemplateService, d: Disk): (o: Outcome)
    ensures o.err.None? ==> forall i :: 0 <= i < |vs| ==> !vs[i].kind.Failed?
    ensures o.err.None? ==> forall i :: 0 <= i < |vs| && vs[i].kind.FileVisit? ==>
      vs[i].kind.content.Some? && service.render(vs[i].kind.content.value, project).Success?
    decreases |vs|
  {
    if vs == [] then Outcome(d, None)
    else
      var o := Handled(vs[0], project, service, d);
      if o.err.Some? then o else Initialized(vs[1..], project, service, o.disk)
  }

  /** The directories the visits may create. */
  function MadeDirs(vs: seq<Visit>, project: Project): set<Path>
  {
    if vs == [] then {} else StepDirs(vs[0], project) + MadeDirs(vs[1..], project)
  }

  /** The output paths of the files among the visits. */
  function FileTargets(vs: seq<Visit>, project: Project): set<Path>
  {
    if vs == [] then {} else StepFiles(vs[0], project) + FileTargets(vs[1..], project)
  }

  /** Nothing is ever removed, on success or failure: files written before an error stay. */
  lemma {:induction false} InitializedKeepsEarlierOutput(vs: seq<Visit>, project: Project, service: TemplateService, d: Disk)
    ensures d.dirs <= Initialized(vs, project, service, d).disk.dirs
    ensures d.files.Keys <= Initialized(vs, project, service, d).disk.files.Keys
    ensures d.Valid() ==> Initialized(vs, project, service, d).disk.Valid()
    decreases |vs|
  {
    if vs != [] {
      var o := Handled(vs[0], project, service, d);
      if o.err.None? {
        InitializedKeepsEarlierOutput(vs[1..], project, service, o.disk);
      }
    }
  }

  /** Fail-fast: the first error ends the walk and is what Execute returns; otherwise the walk
      goes on from the state the earlier visits left. */
  lemma {:induction false} InitializedStopsAtFirstError(vs: seq<Visit>, ws: seq<Visit>, project: Project, service: TemplateService, d: Disk)
    ensures Initialized(vs + ws, project, service, d) ==
      var first := Initialized(vs, project, service, d);
      if first.err.Some? then first else Initialized(ws, project, service, first.disk)
    decreases |vs|
  {
    if vs != [] {
      assert (vs + ws)[0] == vs[0];
      assert (vs + ws)[1..] == vs[1..] + ws;
      var o := Handled(vs[0], project, service, d);
      if o.err.None? {
        InitializedStopsAtFirstError(vs[1..], ws, project, service, o.disk);
      }
    } else {
      assert vs + ws == ws;
    }
  }

  /** Whatever the outcome, only the output paths of visited files and their ancestors are
      touched, and every other file keeps its content. */
  lemma {:induction false} InitializedTouchesOnlyTargets(vs: seq<Visit>, project: Project, service: TemplateService, d: Disk)
    ensures Initialized(vs, project, service, d).disk.dirs <= d.dirs + MadeDirs(vs, project)
    ensures Initialized(vs, project, service, d).disk.files.Keys <= d.files.Keys + FileTargets(vs, project)
    ensures FilesAgreeOutside(Initialized(vs, project, service, d).disk.files, d.files, FileTargets(vs, project))
    decreases |vs|
  {
    if vs != [] {
      var o := Handled(vs[0], project, service, d);
      if o.err.None? {
        InitializedTouchesOnlyTargets(vs[1..], project, service, o.disk);
      }
    }
  }

  /** When the walk returns nil, the new directories are exactly the ancestors of the files'
      output paths, and the new files exactly those output paths. */
  lemma {:induction false} InitializedBuildsFilesOnly(vs: seq<Visit>, project: Project, service: TemplateService, d: Disk)
    requires Initialized(vs, project, service, d).err.None?
    ensures Initialized(vs, project, service, d).disk.dirs == d.dirs + MadeDirs(vs, project)
    ensures Initialized(vs, project, service, d).disk.files.Keys == d.files.Keys + FileTargets(vs, project)
    decreases |vs|
  {
    if vs != [] {
      var o := Handled(vs[0], project, service, d);
      InitializedBuildsFilesOnly(vs[1..], project, service, o.disk);
    }
  }

  /** Directories alone produce no output: a walk that meets no file changes nothing, so an empty
      template directory is not reproduced. */
  lemma {:induction false} DirectoriesProduceNothing(vs: seq<Visit>, project: Project, service: TemplateService, d: Disk)
    requires forall i :: 0 <= i < |vs| ==> vs[i].kind.DirVisit?
    ensures Initialized(vs, project, service, d) == Outcome(d, None)
    decreases |vs|
  {
    if vs != [] {
      DirectoriesProduceNothing(vs[1..], project, service, d);
    }
  }

  /** A path that is no file's output path is not in FileTargets. */
  lemma {:induction false} NotInFileTargets(vs: seq<Visit>, project: Project, t: Path)
    requires forall j :: 0 <= j < |vs| && vs[j].kind.FileVisit? ==> OutputPath(vs[j], project) != t
    ensures t !in FileTargets(vs, project)
    decreases |vs|
  {
    if vs != [] {
      NotInFileTargets(vs[1..], project, t);
    }
  }

  /** When the walk returns nil, each file's output path holds the rendering of its content,
      unless a later file has the same relative path. */
  lemma {:induction false} InitializedRendersFile(vs: seq<Visit>, i: nat, project: Project, service: TemplateService, d: Disk)
    requires i < |vs| && vs[i].kind.FileVisit?
    requires forall j :: i < j < |vs| && vs[j].kind.FileVisit? ==> vs[j].rel != vs[i].rel
    requires Initialized(vs, project, service, d).err.None?
    ensures vs[i].kind.content.Some? && service.render(vs[i].kind.content.value, project).Success?
    ensures OutputPath(vs[i], project) in Initialized(vs, project, service, d).disk.files
    ensures Initialized(vs, project, service, d).disk.files[OutputPath(vs[i], project)]
      == service.render(vs[i].kind.content.value, project).value
    decreases |vs|
  {
    var o := Handled(vs[0], project, service, d);
    if i == 0 {
      forall j | 0 <= j < |vs[1..]| && vs[1..][j].kind.FileVisit?
        ensures OutputPath(vs[1..][j], project) != OutputPath(vs[0], project)
      {
        assert vs[1..][j] == vs[j + 1];
        if OutputPath(vs[j + 1], project) == OutputPath(vs[0], project) {
          OutputPathInjective(vs[j + 1], vs[0], project);
        }
      }
      InitializedTouchesOnlyTargets(vs[1..], project, service, o.disk);
      NotInFileTargets(vs[1..], project, OutputPath(vs[0], project));
    } else {
      InitializedRendersFile(vs[1..], i - 1, project, service, o.disk);
    }
  }

  /** Execute over a well-formed source tree: when it returns nil, every file under
      templates/<TemplateType> was rendered and written to OutputDir at its relative path. */
  lemma ExecuteRendersEveryFile(src: Entry, project: Project, service: TemplateService, d: Disk)
    requires WellFormed(src)
    requires Initialized(WalkDir(src, TemplateRoot(project)), project, service, d).err.None?
    ensures forall i :: 0 <= i < |WalkDir(src, TemplateRoot(project))| && WalkDir(src, TemplateRoot(project))[i].kind.FileVisit? ==>
      var v := WalkDir(src, TemplateRoot(project))[i];
      && v.kind.content.Some? && service.render(v.kind.content.value, project).Success?
      && OutputPath(v, project) in Initialized(WalkDir(src, TemplateRoot(project)), project, service, d).disk.files
      && Initialized(WalkDir(src, TemplateRoot(project)), project, service, d).disk.files[OutputPath(v, project)]
         == service.render(v.kind.content.value, project).value
  {
    var vs := WalkDir(src, TemplateRoot(project));
    WalkDirFilesDistinct(src, TemplateRoot(project));
    forall i | 0 <= i < |vs| && vs[i].kind.FileVisit?
      ensures vs[i].kind.content.Some? && service.render(vs[i].kind.content.value, project).Success?
      ensures OutputPath(vs[i], project) in Initialized(vs, project, service, d).disk.files
      ensures Initialized(vs, project, service, d).disk.files[OutputPath(vs[i], project)]
        == service.render(vs[i].kind.content.value, project).value
    {
      InitializedRendersFile(vs, i, project, service, d);
    }
  }

  /** An unknown template type: templates/<TemplateType> cannot be found, so Execute returns the
      lstat error (ENOENT, or ENOTDIR when a file stands on the path) and writes nothing. */
  lemma MissingTemplateWritesNothing(src: Entry, project: Project, service: TemplateService, d: Disk)
    requires Lookup(src, TemplateRoot(project)).None?
    ensures Initialized(WalkDir(src, TemplateRoot(project)), project, service, d)
      == Outcome(d, Some(LstatError(src, TemplateRoot(project))))
  {
  }

  /** Handling again a visit that was handled without error, on a disk that already holds its
      output path's directory and its rendering, changes nothing. */
  lemma HandledAgainIsNoop(v: Visit, project: Project, service: TemplateService, d: Disk, e: Disk)
    requires Handled(v, project, service, d).err.None?
    requires e.Valid() && StepDirs(v, project) <= e.dirs
    requires v.kind.FileVisit? && v.kind.content.Some? && service.render(v.kind.content.value, project).Success? ==>
      OutputPath(v, project) in e.files && e.files[OutputPath(v, project)] == service.render(v.kind.content.value, project).value
    ensures Handled(v, project, service, e) == Outcome(e, None)
  {
    if v.kind.FileVisit? {
      var path := OutputPath(v, project);
      assert Parent(path)[..|Parent(path)|] == Parent(path);
      MkdirAllExistingIsNoop(e, Parent(path));
      assert e.files[path := e.files[path]] == e.files;
    }
  }

  /** Replaying visits that all succeeded, on a disk that already holds every directory they
      create and every rendering they write, returns nil and changes nothing. */
  lemma {:induction false} InitializedAgainIsNoop(vs: seq<Visit>, project: Project, service: TemplateService, d: Disk, e: Disk)
    requires Initialized(vs, project, service, d).err.None?
    requires e.Valid() && MadeDirs(vs, project) <= e.dirs
    requires forall i :: 0 <= i < |vs| && vs[i].kind.FileVisit? && vs[i].kind.content.Some?
                         && service.render(vs[i].kind.content.value, project).Success? ==>
      OutputPath(vs[i], project) in e.files
      && e.files[OutputPath(vs[i], project)] == service.render(vs[i].kind.content.value, project).value
    ensures Initialized(vs, project, service, e) == Outcome(e, None)
    decreases |vs|
  {
    if vs != [] {
      var o := Handled(vs[0], project, service, d);
      HandledAgainIsNoop(vs[0], project, service, d, e);
      forall i | 0 <= i < |vs[1..]| && vs[1..][i].kind.FileVisit? && vs[1..][i].kind.content.Some?
                 && service.render(vs[1..][i].kind.content.value, project).Success?
        ensures OutputPath(vs[1..][i], project) in e.files
        ensures e.files[OutputPath(vs[1..][i], project)] == service.render(vs[1..][i].kind.content.value, project).value
      {
        assert vs[1..][i] == vs[i + 1];
      }
      InitializedAgainIsNoop(vs[1..], project, service, o.disk, e);
    }
  }

  /** Executing the usecase a second time over the output of a run that returned nil returns nil
      again and leaves the output exactly as it was. */
  lemma ExecuteIsIdempotent(src: Entry, project: Project, service: TemplateService, d: Disk)
    requires WellFormed(src) && d.Valid()
    requires Initialized(WalkDir(src, TemplateRoot(project)), project, service, d).err.None?
    ensures
      var e := Initialized(WalkDir(src, TemplateRoot(project)), project, service, d).disk;
      Initialized(WalkDir(src, TemplateRoot(project)), project, service, e) == Outcome(e, None)
  {
    var vs := WalkDir(src, TemplateRoot(project));
    InitializedKeepsEarlierOutput(vs, project, service, d);
    InitializedBuildsFilesOnly(vs, project, service, d);
    ExecuteRendersEveryFile(src, project, service, d);
    InitializedAgainIsNoop(vs, project, service, d, Initialized(vs, project, service, d).disk);
  }

  /** Distinct relative paths give distinct output paths: the mapping is injective. */
  lemma OutputPathInjective(v: Visit, w: Visit, project: Project)
    requires OutputPath(v, project) == OutputPath(w, project)
    ensures v.rel == w.rel
  {
    var o := project.outputDir;
    assert v.rel == OutputPath(v, project)[|o|..];
    assert w.rel == OutputPath(w, project)[|o|..];
  }

  /** The usecase with its two collaborators. */
  class InitProjectUsecase {
    var templateService: TemplateService
    var fileWriter: FileWriter

    constructor (templateService: TemplateService, fileWriter: FileWriter)
      ensures this.templateService == templateService && this.fileWriter == fileWriter
    {
      this.templateService := templateService;
      this.fileWriter := fileWriter;
    }

    /** The walk callback for one visit. */
    method HandleVisit(v: Visit, project: Project) returns (err: Option<Error>)
      requires fileWriter.fs.Valid()
      modifies fileWriter.fs
      ensures fileWriter.fs.Valid()
      ensures Outcome(fileWriter.fs.State(), err) == Handled(v, project, templateService, old(fileWriter.fs.State()))
    {
      if v.kind.Failed? {
        return Some(v.kind.err);
      }
      if v.kind.DirVisit? {
        return None;
      }
      if v.kind.content.None? {
        return Some(Wrapped(ReadContext, ReadFailed(v.path)));
      }
      var rendered := templateService.render(v.kind.content.value, project);
      if rendered.Failure? {
        return Some(Wrapped(RenderContext, rendered.error));
      }
      var outputPath := project.outputDir + v.rel;
      err := fileWriter.WriteFile(outputPath, rendered.value);
      if err.Some? {
        err := Some(Wrapped(WriteContext, err.value));
      }
    }

    /** Execute: walks templates/<TemplateType> in the source tree and returns the first error,
        or None when every entry was handled. The collaborators are left as they were. */
    method Execute(project: Project, src: Entry) returns (err: Option<Error>)
      requires fileWriter.fs.Valid()
      modifies fileWriter.fs
      ensures fileWriter.fs.Valid()
      ensures templateService == old(templateService) && fileWriter == old(fileWriter)
      ensures Outcome(fileWriter.fs.State(), err)
        == Initialized(WalkDir(src, TemplateRoot(project)), project, templateService, old(fileWriter.fs.State()))
    {
      var templateRoot := TemplateRoot(project);
      var vs := WalkDir(src, templateRoot);
      var i := 0;
      while i < |vs|
        invariant 0 <= i <= |vs|
        invariant fileWriter.fs.Valid()
        invariant Initialized(vs[i..], project, templateService, fileWriter.fs.State())
          == Initialized(vs, project, templateService, old(fileWriter.fs.State()))
      {
        assert vs[i..][0] == vs[i] && vs[i..][1..] == vs[i + 1..];
        err := HandleVisit(vs[i], project);
        if err.Some? {
          return;
        }
        i := i + 1;
      }
      err := None;
    }
  }
}
