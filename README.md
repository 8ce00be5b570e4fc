# Template-tree rendering, modelled in Dafny

This project models the core of a Go project-scaffolding tool. The core takes a directory of
templates and reproduces it under an output directory. It renders the files through Go's
`text/template` engine. The repository holds two versions of this engine, and both are modelled:

- `GenerateProjectFromTemplateDir` (`internal/scaffold/render.go`) walks the template tree in
  pre-order. It recreates every directory. It renders only files whose name ends in `.tmpl`, and
  skips every other file. The destination is the relative path with one trailing `.tmpl` removed.
- `InitProjectUsecase.Execute` (`application/usecase/init_project.go`) walks
  `templates/<TemplateType>`. It skips directories. It renders every file through an injected
  template service and writes the result through an injected file writer. The destination is
  `OutputDir/<relative path>`, with no extension stripping.
- `InitInput.Validate` (`interface/cli/input.go`) refuses an empty project name.

How the model is built:

- A path is a sequence of segments (`Paths.Path`). `[]` stands for the working directory,
  which `filepath.Rel` reports as `"."`.
- The output file system is a `Disk` value: a set of directories and a map from file paths to
  contents. `Disk.Valid` says that the disk is a tree. The class `Os.FileSystem` holds the same
  two fields. Its methods (`MkdirAll`, `Create`, `Write`, `WriteFile`) update the fields in place,
  and each is proved equal to the matching `Disk` function.
- The source tree is an immutable `TemplateTree.Entry` value. The library walk
  (`filepath.WalkDir` / `filepath.Walk`) is the function `TemplateTree.WalkDir`. It returns the
  pre-order sequence of callback invocations. A root that cannot be found gives one invocation
  that carries the lstat error: ENOTDIR when a regular file stands on its path, ENOENT otherwise. A directory whose listing fails gives a second invocation that carries the
  listing error. A file whose content cannot be read has content `None`.
- The core's callbacks are the methods `Scaffold.VisitEntry` and
  `Usecase.InitProjectUsecase.HandleVisit`. The walks themselves are loops over the visits that
  return on the first error. Each method is proved equal to a fold function (`Scaffold.Generated`,
  `Usecase.Initialized`), and the properties are lemmas about those folds.
- The template engine is injected as functions. `text/template` is a `Scaffold.TextTemplate`
  with a `parse` function and an `execute` function. Both receive the template's name, which is
  the base name of the template file, as well as its text. `execute` returns the text written so
  far together with any error. The usecase's template service is a `Usecase.TemplateService` that
  wraps a `render` function.
- Errors are values of `Errors.Error`. `fmt.Errorf("ctx: %w", e)` is `Wrapped("ctx", e)`.

The two versions treat the files of a template tree differently. `render.go` renders only
`.tmpl` files and skips every other file. The usecase renders every file, whatever its name.
Both create or truncate the destination, so a file already present there is replaced.

## Model

| member | source | states |
|---|---|---|
| `Scaffold.RemoveTmplExt` | internal/scaffold/render.go:69-74 | if the path ends in `.tmpl`, the result followed by `.tmpl` is the path; otherwise the result is the path |
| `Scaffold.RemoveTmplExtIsPrefix` | internal/scaffold/render.go:70-71 | the result is a prefix of the input, at most one marker shorter |
| `Scaffold.RemoveTmplExtStripsOnce` | internal/scaffold/render.go:70-71 | `s.tmpl.tmpl` becomes `s.tmpl`, and a second application changes it again, so the function is not idempotent |
| `Scaffold.RemoveTmplExtInjective` | internal/scaffold/render.go:69-74 | two paths ending in `.tmpl` with the same result are equal |
| `Scaffold.DestRel` | internal/scaffold/render.go:23-28 | the destination relative path has the same length and the same directory part as the source relative path |
| `Scaffold.RemoveTmplExtAfterSlash` | internal/scaffold/render.go:69-74 | behind a `/`, the marker is stripped only from the part after the `/` |
| `Scaffold.DestRelMatchesString` | internal/scaffold/render.go:23-28 | stripping the marker from the last segment equals `removeTmplExt` applied to the whole `/`-joined relative path; the root's relative path `.` is left as `.` |
| `Scaffold.StripsMarker` | internal/scaffold/render.go:69-74 | a name followed by `.tmpl` loses exactly the marker |
| `Scaffold.DestRelInjective` | internal/scaffold/render.go:28 | the root and paths whose last segment ends in `.tmpl` keep distinct destination paths |
| `Scaffold.TmplDirectoryNames` | internal/scaffold/render.go:28-32 | a directory `x.tmpl` is created as `x`, but the file `x.tmpl/f.tmpl` goes to `x.tmpl/f` |
| `Scaffold.RenderedFile` | internal/scaffold/render.go:45-67 | a read or parse error is returned with the disk untouched; a `MkdirAll` or `Create` error is returned as it is, with the disk `MkdirAll` left; once the destination is open, it holds exactly what the execution wrote, even when the execution stopped early, the new directories are its ancestors, and the execution's error is the result; only the destination and its ancestors change; nil means every step succeeded |
| `Scaffold.Callback` | internal/scaffold/render.go:17-42 | a walk error is returned unchanged; a directory's result is `MkdirAll` of its destination, error included; a file not ending in `.tmpl` changes nothing; a template's result is `renderFile` on its destination; only those paths can change; on nil they exist and the template holds its rendered text |
| `Scaffold.Generated` | internal/scaffold/render.go:17-42 | the callback applied to the visits in order until the first error; a nil result means no visit carried a walk error and every template was read |
| `Scaffold.GeneratedKeepsEarlierOutput` | internal/scaffold/render.go:17-42 | directories and files are never removed, even when the walk fails, and the disk stays a tree |
| `Scaffold.GeneratedStopsAtFirstError` | internal/scaffold/render.go:17-20 | the first error ends the walk and is its result; otherwise the walk continues from the state left so far |
| `Scaffold.GeneratedTouchesOnlyTargets` | internal/scaffold/render.go:28-41 | whatever the outcome, only mapped directories and template destinations are created, and every other file keeps its content |
| `Scaffold.GeneratedBuildsWholeTree` | internal/scaffold/render.go:28-41 | on nil, the new directories are exactly the mapped directories with their ancestors, and the new files exactly the template destinations |
| `Scaffold.GeneratedRendersTemplate` | internal/scaffold/render.go:35-41 | on nil, a template's destination holds the text its execution wrote, unless a later template has the same destination |
| `Scaffold.TemplateTargetsDistinct` | internal/scaffold/render.go:28 | when each file is visited once, distinct templates have distinct destinations |
| `Scaffold.GenerateRendersEveryTemplate` | internal/scaffold/render.go:16-43 | over a well-formed tree, a nil result means every `.tmpl` file was read and its destination holds its rendered text |
| `Scaffold.MissingTemplateDirWritesNothing` | internal/scaffold/render.go:17-20 | a template directory that cannot be found makes the walk return the lstat error (ENOENT, or ENOTDIR under a file) with nothing created or written |
| `Scaffold.CallbackAgainIsNoop` | internal/scaffold/render.go:17-42 | an entry handled without error, visited again on a disk that already holds its directories and rendering, returns nil and changes nothing |
| `Scaffold.GeneratedAgainIsNoop` | internal/scaffold/render.go:16-43 | replaying visits that all succeeded on a disk that already holds their directories and renderings returns nil and changes nothing |
| `Scaffold.GenerateIsIdempotent` | internal/scaffold/render.go:16-43 | over a well-formed tree, a second run on the output of a run that returned nil returns nil and leaves the output exactly as it was |
| `Scaffold.OutputRootComesFirst` | internal/scaffold/render.go:22-33 | the root is visited first with relative path `.`, so `outputDir` is created before anything else; if that fails nothing else happens |
| `Scaffold.RenderFile` | internal/scaffold/render.go:45-67 | the read, parse, mkdir, create and execute steps on the file system equal `RenderedFile` |
| `Scaffold.VisitEntry` | internal/scaffold/render.go:17-42 | the callback's effect on the file system and its result equal `Callback` |
| `Scaffold.GenerateProjectFromTemplateDir` | internal/scaffold/render.go:16-43 | the walk over the template tree leaves the file system and returns the error that `Generated` gives |
| `Os.MkdirAllExistingIsNoop` | internal/scaffold/render.go:32 | `MkdirAll` of an existing directory succeeds and changes nothing |
| `TemplateTree.FileOnPathHidesPath` | internal/scaffold/render.go:17 | nothing is found below a regular file, so a root with a file on its path is reported with ENOTDIR rather than visited |
| `TemplateTree.WalkDirFilesDistinct` | internal/scaffold/render.go:17 | over a well-formed tree, each file path is visited once, and each file below the root is named after its last path segment |
| `Usecase.TemplateRoot` | application/usecase/init_project.go:31 | the template root written out is `templates/<TemplateType>`, or `templates` when the type is empty |
| `Usecase.Handled` | application/usecase/init_project.go:34-68 | a walk error is returned unchanged; directories change nothing; read and render failures are wrapped and write nothing; after a successful render the disk is what the file writer left, and its error, whenever there is one, is returned wrapped as `failed to write file`; only a file's output path and its ancestors change; on nil the output path holds the rendering |
| `Usecase.Initialized` | application/usecase/init_project.go:34-70 | the callback applied to the visits in order until the first error; a nil result means no visit carried a walk error and every file was read and rendered |
| `Usecase.InitializedKeepsEarlierOutput` | application/usecase/init_project.go:34-70 | files and directories written before an error stay, and the disk stays a tree |
| `Usecase.InitializedStopsAtFirstError` | application/usecase/init_project.go:63-70 | the first error ends the walk and is what `Execute` returns |
| `Usecase.InitializedTouchesOnlyTargets` | application/usecase/init_project.go:56-63 | only the files' output paths and their ancestors are touched, and every other file keeps its content |
| `Usecase.InitializedBuildsFilesOnly` | application/usecase/init_project.go:38-63 | on nil, the new directories are exactly the ancestors of the output paths, and the new files exactly those paths |
| `Usecase.DirectoriesProduceNothing` | application/usecase/init_project.go:38-41 | a walk that meets only directories changes nothing, so empty template directories are not reproduced |
| `Usecase.InitializedRendersFile` | application/usecase/init_project.go:44-63 | on nil, a file's output path holds the renderer's result on its content, unless a later file has the same relative path |
| `Usecase.ExecuteRendersEveryFile` | application/usecase/init_project.go:29-71 | over a well-formed tree, a nil result means every file, whatever its name, was rendered and written at `OutputDir/<relative path>` |
| `Usecase.MissingTemplateWritesNothing` | application/usecase/init_project.go:31-36 | an unknown template type makes `Execute` return the lstat error of `templates/<TemplateType>` (ENOENT, or ENOTDIR under a file) with nothing written |
| `Usecase.HandledAgainIsNoop` | application/usecase/init_project.go:34-68 | a visit handled without error, handled again on a disk that already holds its output directory and rendering, returns nil and changes nothing |
| `Usecase.InitializedAgainIsNoop` | application/usecase/init_project.go:34-70 | replaying visits that all succeeded on a disk that already holds their directories and renderings returns nil and changes nothing |
| `Usecase.ExecuteIsIdempotent` | application/usecase/init_project.go:29-71 | over a well-formed tree, a second `Execute` on the output of a run that returned nil returns nil and leaves the output exactly as it was |
| `Usecase.OutputPathInjective` | application/usecase/init_project.go:56-60 | two visits with the same output path have the same relative path |
| `Usecase.InitProjectUsecase.constructor` | application/usecase/init_project.go:18-26 | the usecase holds the given template service and file writer |
| `Usecase.InitProjectUsecase.HandleVisit` | application/usecase/init_project.go:34-68 | the callback's effect and result equal `Handled` |
| `Usecase.InitProjectUsecase.Execute` | application/usecase/init_project.go:29-71 | the walk of `templates/<TemplateType>` leaves the file system and returns what `Initialized` gives, and the usecase's fields are unchanged |
| `FileWriterService.EnsuredDir` | infrastructure/service/file_writer.go:31-36 | `MkdirAll`, with a failure wrapped as `failed to create directory <dir>` and the disk unchanged |
| `FileWriterService.WrittenFile` | infrastructure/service/file_writer.go:21-28 | the parent directory is made before the content is stored; on a file-system tree it succeeds exactly when the parent can be made and the path is not the working directory or a directory; an `EnsureDir` failure is returned as `EnsureDir` wrapped it, with the disk untouched; an `os.WriteFile` error is returned unwrapped; only the path and its ancestors change; on nil the path holds exactly the content |
| `FileWriterService.FileWriter.EnsureDir` | infrastructure/service/file_writer.go:31-36 | the effect and result equal `EnsuredDir` |
| `FileWriterService.FileWriter.WriteFile` | infrastructure/service/file_writer.go:21-28 | the effect and result equal `WrittenFile` |
| `Cli.Validate` | interface/cli/input.go:12-16 | an error exactly when `Name` is empty, and the error is `project name is required` |
| `Cli.ValidateIgnoresOtherFields` | interface/cli/input.go:12-16 | `TemplateType` and `OutputDir` never change the verdict, empty or not |
| `Cli.BlankNamePasses` | interface/cli/input.go:13 | a name made only of blanks passes |

## Left out

- `filepath.Clean` inside `Join` and `Rel` is not modelled. Paths are segment sequences. A file
  named `.tmpl`, `..tmpl` or `...tmpl` keeps an empty, `.` or `..` segment in the model. Go
  folds that segment into the parent or grandparent, so for example `x.tmpl` and `x/.tmpl` both
  land on `x`.
- A `TemplateType` containing `/` or `..` is treated as one segment.
- Sibling order in the walk is the order of the `children` sequence. Go sorts entries by name.
- `filepath.Walk` reports a directory whose listing fails with one callback invocation. The
  model uses the `WalkDir` sequence for both walks, which adds a directory invocation first. The
  usecase's callback ignores directories, so the outcome is the same.
- Lstat failures of entries below the root are not modelled. A file that cannot be read is a
  file with content `None`.
- The source tree is read-only and separate from the output disk, so an output directory inside
  the template tree is not modelled.
- Permissions, modes (`os.ModePerm`, `0644`), symbolic links, disk-full and other I/O failures
  are not modelled. The file-system primitives fail only structurally: a regular file where a
  directory is needed (ENOTDIR), a directory opened for writing (EISDIR), or a missing parent.
- `filepath.Rel` never fails for paths the walk produced, so its error branch is not modelled.
- `text/template` is not modelled as a language. `parse` and `execute` are injected functions.
  They receive the base name of the template file, as `template.New` does, since a `define`
  of that name or a `template` action can make the result depend on it. The close error of the deferred `outFile.Close()` is ignored, as in the code.
- The usecase's template service is an injected `render` function. Its implementation in
  `domain/service/template_service.go` is not part of this model.
- `domain/model/project.go` is not part of this model. `Project` carries the fields the
  usecase reads (`TemplateType`, `OutputDir`) and `Name`, which the templates use through the
  renderer, which receives the whole project.
- The idempotence lemmas compare two runs over the same template tree with the same engine.
  `parse`, `execute` and `render` are functions here, so a template whose output varies between
  runs is outside the model.
- Error texts are structured values (`Wrapped(context, cause)`) rather than formatted strings.
- The command front end (`cmd/init.go`, `cmd/root.go`), the environment configuration
  (`config/config.go`) and the sentinel errors (`shared/error.go`) are not modelled.
  `cmd/init.go:33` calls `usecase.InitProject`, which the usecase file does not define.
- `Validate` has a value receiver and cannot change its input. In this model it is a function on
  a datatype value, so nothing more needs to be stated.
