/** internal/scaffold/render.go: rendering a template directory into an output directory. Only
    files whose name ends in ".tmpl" are rendered; directories are recreated; other files are skipped. */
module Scaffold {
  import opened Paths
  import opened Errors
  import opened Os
  import opened TemplateTree

  /** The marker extension of a template file. */
  const TmplExt := ".tmpl"

  /** The record the templates are executed against. */
  datatype TemplateData = TemplateData(name: string, age: int)

  /** What executing a parsed template wrote, and the error that stopped it, if any. text/template
      writes its output as it goes, so a failed execution still leaves the text written so far. */
  datatype Execution = Execution(text: string, err: Option<Error>)

  /** The text/template engine: parsing a template text under the template's name, and executing
      it against the data. The name matters to the engine: a {{define}} of that name replaces the
      template's body, and {{template}} can refer to it. */
  datatype TextTemplate = TextTemplate(
    parse: (string, string) -> Option<Error>,
    execute: (string, string, TemplateData) -> Execution)

  /** strings.HasSuffix(s, ".tmpl") */
  predicate HasTmplSuffix(s: string)
  {
    |s| >= |TmplExt| && s[|s| - |TmplExt|..] == TmplExt
  }

  /** removeTmplExt: drops one trailing ".tmpl" from a path, and leaves any other path alone. */
  function RemoveTmplExt(path: string): (r: string)
    ensures HasTmplSuffix(path) ==> r + TmplExt == path
    ensures !HasTmplSuffix(path) ==> r == path
  {
    if HasTmplSuffix(path) then path[..|path| - |TmplExt|] else path
  }

  /** The result is always a prefix of the input, at most one marker shorter. */
  lemma RemoveTmplExtIsPrefix(path: string)
    ensures RemoveTmplExt(path) <= path
    ensures |path| - |TmplExt| <= |RemoveTmplExt(path)|
  {
  }

  /** Only one marker is removed: "a.tmpl.tmpl" becomes "a.tmpl", which a second application
      changes again, so removeTmplExt is not idempotent. */
  lemma RemoveTmplExtStripsOnce(stem: string)
    ensures RemoveTmplExt(stem + ".tmpl.tmpl") == stem + ".tmpl"
    ensures RemoveTmplExt(RemoveTmplExt(stem + ".tmpl.tmpl")) == stem
    ensures RemoveTmplExt(RemoveTmplExt(stem + ".tmpl.tmpl")) != RemoveTmplExt(stem + ".tmpl.tmpl")
  {
  }

  /** Distinct template paths keep distinct names once their marker is removed. */
  lemma RemoveTmplExtInjective(a: string, b: string)
    requires HasTmplSuffix(a) && HasTmplSuffix(b)
    requires RemoveTmplExt(a) == RemoveTmplExt(b)
    ensures a == b
  {
  }

  /** removeTmplExt applied to a relative path: the marker can only come off its last segment. */
  function DestRel(rel: Path): (r: Path)
    ensures |r| == |rel| && Parent(r) == Parent(rel)
  {
    if rel == [] then [] else rel[..|rel| - 1] + [RemoveTmplExt(rel[|rel| - 1])]
  }

  /** DestRel agrees with removeTmplExt on the relative path written out with '/' separators:
      ".tmpl" holds no '/', so a suffix of the whole path is a suffix of its last segment. The
      root's relative path "." is left as it is. */
  lemma DestRelMatchesString(rel: Path)
    ensures JoinSlash(DestRel(rel)) == RemoveTmplExt(JoinSlash(rel))
    ensures Display(DestRel(rel)) == RemoveTmplExt(Display(rel))
  {
    if |rel| > 1 {
      var init, last := rel[..|rel| - 1], rel[|rel| - 1];
      var dest := DestRel(rel);
      assert dest[..|dest| - 1] == init;
      assert JoinSlash(rel) == (JoinSlash(init) + "/") + last;
      assert JoinSlash(dest) == (JoinSlash(init) + "/") + RemoveTmplExt(last);
      RemoveTmplExtAfterSlash(JoinSlash(init) + "/", last);
    }
  }

  /** Behind a '/', the marker is a suffix of the whole string exactly when it is one of the
      part after the '/', and removing it touches only that part. */
  lemma RemoveTmplExtAfterSlash(a: string, last: string)
    requires |a| > 0 && a[|a| - 1] == '/'
    ensures RemoveTmplExt(a + last) == a + RemoveTmplExt(last)
  {
    var whole, n := a + last, |TmplExt|;
    if HasTmplSuffix(last) {
      assert whole[|whole| - n..] == last[|last| - n..];
      assert whole[..|whole| - n] == a + last[..|last| - n];
    } else if |whole| >= n {
      if |last| >= n {
        assert whole[|whole| - n..] == last[|last| - n..];
      } else {
        // the marker would cover the '/' that ends a, and the marker holds no '/'
        var k := n - 1 - |last|;
        assert whole[|whole| - n..][k] == a[|a| - 1];
        assert TmplExt[k] != '/';
      }
    }
  }

  /** Relative paths of template files (the root, or paths whose last segment ends in ".tmpl")
      keep distinct destinations. */
  lemma DestRelInjective(a: Path, b: Path)
    requires a == [] || HasTmplSuffix(a[|a| - 1])
    requires b == [] || HasTmplSuffix(b[|b| - 1])
    requires DestRel(a) == DestRel(b)
    ensures a == b
  {
  }

  /** A directory "x.tmpl" is recreated as "x", but the file "x.tmpl/f.tmpl" goes to
      "x.tmpl/f": the marker of an inner segment stays. */
  lemma TmplDirectoryNames()
    ensures DestRel(["x.tmpl"]) == ["x"]
    ensures DestRel(["x.tmpl", "f.tmpl"]) == ["x.tmpl", "f"]
  {
    StripsMarker("x");
    StripsMarker("f");
    assert "x" + TmplExt == "x.tmpl" && "f" + TmplExt == "f.tmpl";
    assert DestRel(["x.tmpl"]) == [] + [RemoveTmplExt("x.tmpl")];
    assert DestRel(["x.tmpl", "f.tmpl"]) == ["x.tmpl"] + [RemoveTmplExt("f.tmpl")];
  }

  /** A name followed by the marker loses exactly the marker. */
  lemma StripsMarker(stem: string)
    ensures RemoveTmplExt(stem + TmplExt) == stem
  {
    assert (stem + TmplExt)[|stem|..] == TmplExt;
  }

  /** The destination of a visit: filepath.Join(outputDir, removeTmplExt(relPath)). */
  function Target(v: Visit, out: Path): Path
  {
    out + DestRel(v.rel)
  }

  /** A file the walk renders: its name ends in ".tmpl". */
  predicate IsTemplate(v: Visit)
  {
    v.kind.FileVisit? && HasTmplSuffix(v.kind.name)
  }

  /** The directories one visit may create. */
  function StepDirs(v: Visit, out: Path): set<Path>
  {
    if v.kind.DirVisit? then Prefixes(Target(v, out))
    else if IsTemplate(v) then Prefixes(Parent(Target(v, out)))
    else {}
  }

  /** The file one visit may write. */
  function StepFiles(v: Visit, out: Path): set<Path>
  {
    if IsTemplate(v) then {Target(v, out)} else {}
  }

  /** renderFile: read, parse under the file's base name, create the parent directory, create
      (truncating) the output file, then execute the template into it, stopping at the first
      error. */
  function RenderedFile(d: Disk, src: Path, content: Option<string>, dest: Path,
                        data: TemplateData, tpl: TextTemplate): (o: Outcome)
    ensures content.None? ==> o == Outcome(d, Some(ReadFailed(src)))
    ensures content.Some? && tpl.parse(Base(src), content.value).Some? ==> o == Outcome(d, tpl.parse(Base(src), content.value))
    ensures d.dirs <= o.disk.dirs <= d.dirs + Prefixes(Parent(dest))
    ensures d.files.Keys <= o.disk.files.Keys <= d.files.Keys + {dest}
    ensures FilesAgreeOutside(o.disk.files, d.files, {dest})
    ensures d.Valid() ==> o.disk.Valid()
    ensures o.disk.files != d.files ==> Prefixes(Parent(dest)) <= o.disk.dirs
    ensures o.err.None? ==>
      && content.Some? && tpl.parse(Base(src), content.value).None?
      && tpl.execute(Base(src), content.value, data).err.None?
      && Prefixes(Parent(dest)) <= o.disk.dirs
      && dest in o.disk.files && o.disk.files[dest] == tpl.execute(Base(src), content.value, data).text
    // once read and parse succeed, a MkdirAll or Create error is returned as it is
    ensures content.Some? && tpl.parse(Base(src), content.value).None? && d.MkdirAll(Parent(dest)).err.Some? ==>
      o == d.MkdirAll(Parent(dest))
    ensures content.Some? && tpl.parse(Base(src), content.value).None? && d.MkdirAll(Parent(dest)).err.None?
            && d.MkdirAll(Parent(dest)).disk.Create(dest).err.Some? ==>
      o == d.MkdirAll(Parent(dest)).disk.Create(dest)
    // once the destination is open, it holds what the execution wrote, even when that stopped
    // early, and the execution's error is the result
    ensures content.Some? && tpl.parse(Base(src), content.value).None? && d.MkdirAll(Parent(dest)).err.None?
            && d.MkdirAll(Parent(dest)).disk.Create(dest).err.None? ==>
      && o.err == tpl.execute(Base(src), content.value, data).err
      && o.disk.dirs == d.dirs + Prefixes(Parent(dest))
      && o.disk.files == d.files[dest := tpl.execute(Base(src), content.value, data).text]
  {
    if content.None? then Outcome(d, Some(ReadFailed(src)))
    else if tpl.parse(Base(src), content.value).Some? then Outcome(d, tpl.parse(Base(src), content.value))
    else
      var made := d.MkdirAll(Parent(dest));
      if made.err.Some? then made
      else
        var created := made.disk.Create(dest);
        if created.err.Some? then created
        else
          var run := tpl.execute(Base(src), content.value, data);
          assert "" + run.text == run.text;
          Outcome(created.disk.Write(dest, run.text), run.err)
  }

  /** The WalkDir callback of GenerateProjectFromTemplateDir for one visit. */
  function Callback(v: Visit, out: Path, data: TemplateData, tpl: TextTemplate, d: Disk): (o: Outcome)
    ensures v.kind.Failed? ==> o == Outcome(d, Some(v.kind.err))
    ensures v.kind.FileVisit? && !IsTemplate(v) ==> o == Outcome(d, None)
    ensures d.dirs <= o.disk.dirs <= d.dirs + StepDirs(v, out)
    ensures d.files.Keys <= o.disk.files.Keys <= d.files.Keys + StepFiles(v, out)
    ensures FilesAgreeOutside(o.disk.files, d.files, StepFiles(v, out))
    ensures d.Valid() ==> o.disk.Valid()
    ensures o.err.None? ==> StepDirs(v, out) <= o.disk.dirs && StepFiles(v, out) <= o.disk.files.Keys
    ensures o.err.None? && IsTemplate(v) ==>
      && v.kind.content.Some?
      && tpl.parse(Base(v.path), v.kind.content.value).None? && tpl.execute(Base(v.path), v.kind.content.value, data).err.None?
      && o.disk.files[Target(v, out)] == tpl.execute(Base(v.path), v.kind.content.value, data).text
    ensures v.kind.DirVisit? ==> o == d.MkdirAll(Target(v, out))
    ensures IsTemplate(v) ==> o == RenderedFile(d, v.path, v.kind.content, Target(v, out), data, tpl)
  {
    match v.kind
    case Failed(err) => Outcome(d, Some(err))
    case DirVisit(_) => d.MkdirAll(Target(v, out))
    case FileVisit(name, content) =>
      if !HasTmplSuffix(name) then Outcome(d, None)
      else RenderedFile(d, v.path, content, Target(v, out), data, tpl)
  }

  /** The callback applied to the visits in order until one returns an error. A walk that returns
      nil met no walk error and read every template it rendered. */
  function Generated(vs: seq<Visit>, out: Path, data: TemplateData, tpl: TextTemplate, d: Disk): (o: Outcome)
    ensures o.err.None? ==> forall i :: 0 <= i < |vs| ==> !vs[i].kind.Failed?
    ensures o.err.None? ==> forall i :: 0 <= i < |vs| && IsTemplate(vs[i]) ==> vs[i].kind.content.Some?
    decreases |vs|
  {
    if vs == [] then Outcome(d, None)
    else
      var o := Callback(vs[0], out, data, tpl, d);
      if o.err.Some? then o else Generated(vs[1..], out, data, tpl, o.disk)
  }

  /** The directories the visits may create. */
  function MadeDirs(vs: seq<Visit>, out: Path): set<Path>
  {
    if vs == [] then {} else StepDirs(vs[0], out) + MadeDirs(vs[1..], out)
  }

  /** The destinations of the template files among the visits. */
  function TemplateTargets(vs: seq<Visit>, out: Path): set<Path>
  {
    if vs == [] then {} else StepFiles(vs[0], out) + TemplateTargets(vs[1..], out)
  }

  /** Nothing is ever removed, on success or failure (no rollback), and the output stays a
      file-system tree. */
  lemma {:induction false} GeneratedKeepsEarlierOutput(vs: seq<Visit>, out: Path, data: TemplateData, tpl: TextTemplate, d: Disk)
    ensures d.dirs <= Generated(vs, out, data, tpl, d).disk.dirs
    ensures d.files.Keys <= Generated(vs, out, data, tpl, d).disk.files.Keys
    ensures d.Valid() ==> Generated(vs, out, data, tpl, d).disk.Valid()
    decreases |vs|
  {
    if vs != [] {
      var o := Callback(vs[0], out, data, tpl, d);
      if o.err.None? {
        GeneratedKeepsEarlierOutput(vs[1..], out, data, tpl, o.disk);
      }
    }
  }

  /** Fail-fast: once a visit fails, the later visits are never processed and the error is the
      result; when the first part succeeds, the rest continues from the state it left. */
  lemma {:induction false} GeneratedStopsAtFirstError(vs: seq<Visit>, ws: seq<Visit>, out: Path, data: TemplateData, tpl: TextTemplate, d: Disk)
    ensures Generated(vs + ws, out, data, tpl, d) ==
      var first := Generated(vs, out, data, tpl, d);
      if first.err.Some? then first else Generated(ws, out, data, tpl, first.disk)
    decreases |vs|
  {
    if vs != [] {
      assert (vs + ws)[0] == vs[0];
      assert (vs + ws)[1..] == vs[1..] + ws;
      var o := Callback(vs[0], out, data, tpl, d);
      if o.err.None? {
        GeneratedStopsAtFirstError(vs[1..], ws, out, data, tpl, o.disk);
      }
    } else {
      assert vs + ws == ws;
    }
  }

  /** Whatever the outcome, the walk creates only ancestors of the destinations of visited
      directories and template files, writes only template destinations, and leaves every other
      file exactly as it was. */
  lemma {:induction false} GeneratedTouchesOnlyTargets(vs: seq<Visit>, out: Path, data: TemplateData, tpl: TextTemplate, d: Disk)
    ensures Generated(vs, out, data, tpl, d).disk.dirs <= d.dirs + MadeDirs(vs, out)
    ensures Generated(vs, out, data, tpl, d).disk.files.Keys <= d.files.Keys + TemplateTargets(vs, out)
    ensures FilesAgreeOutside(Generated(vs, out, data, tpl, d).disk.files, d.files, TemplateTargets(vs, out))
    decreases |vs|
  {
    if vs != [] {
      var o := Callback(vs[0], out, data, tpl, d);
      if o.err.None? {
        GeneratedTouchesOnlyTargets(vs[1..], out, data, tpl, o.disk);
      }
    }
  }

  /** A walk that returns nil has created exactly the mapped directories (every visited
      directory's destination and every template's parent, with their ancestors) and written
      exactly the template destinations. */
  lemma {:induction false} GeneratedBuildsWholeTree(vs: seq<Visit>, out: Path, data: TemplateData, tpl: TextTemplate, d: Disk)
    requires Generated(vs, out, data, tpl, d).err.None?
    ensures Generated(vs, out, data, tpl, d).disk.dirs == d.dirs + MadeDirs(vs, out)
    ensures Generated(vs, out, data, tpl, d).disk.files.Keys == d.files.Keys + TemplateTargets(vs, out)
    decreases |vs|
  {
    if vs != [] {
      var o := Callback(vs[0], out, data, tpl, d);
      GeneratedBuildsWholeTree(vs[1..], out, data, tpl, o.disk);
    }
  }

  /** A walk that returns nil leaves in each template's destination the text its execution
      produced, unless a later template has the same destination. */
  lemma {:induction false} GeneratedRendersTemplate(vs: seq<Visit>, i: nat, out: Path, data: TemplateData, tpl: TextTemplate, d: Disk)
    requires i < |vs| && IsTemplate(vs[i])
    requires forall j :: i < j < |vs| && IsTemplate(vs[j]) ==> Target(vs[j], out) != Target(vs[i], out)
    requires Generated(vs, out, data, tpl, d).err.None?
    ensures vs[i].kind.content.Some?
    ensures Target(vs[i], out) in Generated(vs, out, data, tpl, d).disk.files
    ensures Generated(vs, out, data, tpl, d).disk.files[Target(vs[i], out)] == tpl.execute(Base(vs[i].path), vs[i].kind.content.value, data).text
    decreases |vs|
  {
    var o := Callback(vs[0], out, data, tpl, d);
    if i == 0 {
      var t := Target(vs[0], out);
      GeneratedTouchesOnlyTargets(vs[1..], out, data, tpl, o.disk);
      NotInTemplateTargets(vs[1..], out, t);
    } else {
      GeneratedRendersTemplate(vs[1..], i - 1, out, data, tpl, o.disk);
    }
  }

  /** A path that is no template's destination is not in TemplateTargets. */
  lemma {:induction false} NotInTemplateTargets(vs: seq<Visit>, out: Path, t: Path)
    requires forall j :: 0 <= j < |vs| && IsTemplate(vs[j]) ==> Target(vs[j], out) != t
    ensures t !in TemplateTargets(vs, out)
    decreases |vs|
  {
    if vs != [] {
      NotInTemplateTargets(vs[1..], out, t);
    }
  }

  /** When file paths are visited once and named after their last segment, distinct templates
      have distinct destinations. */
  lemma TemplateTargetsDistinct(vs: seq<Visit>, out: Path)
    requires FileRelsDistinct(vs) && NamesAgree(vs)
    ensures forall i, j :: 0 <= i < j < |vs| && IsTemplate(vs[i]) && IsTemplate(vs[j]) ==> Target(vs[i], out) != Target(vs[j], out)
  {
    forall i, j | 0 <= i < j < |vs| && IsTemplate(vs[i]) && IsTemplate(vs[j])
      ensures Target(vs[i], out) != Target(vs[j], out)
    {
      var a, b := vs[i].rel, vs[j].rel;
      assert a != b;
      assert a == [] || HasTmplSuffix(a[|a| - 1]);
      assert b == [] || HasTmplSuffix(b[|b| - 1]);
      if Target(vs[i], out) == Target(vs[j], out) {
        assert DestRel(a) == Target(vs[i], out)[|out|..];
        DestRelInjective(a, b);
      }
    }
  }

  /** GenerateProjectFromTemplateDir over a well-formed template tree: when it returns nil,
      every ".tmpl" file was read and rendered, and its destination holds the rendered text. */
  lemma GenerateRendersEveryTemplate(src: Entry, templateDir: Path, out: Path, data: TemplateData, tpl: TextTemplate, d: Disk)
    requires WellFormed(src)
    requires Generated(WalkDir(src, templateDir), out, data, tpl, d).err.None?
    ensures forall i :: 0 <= i < |WalkDir(src, templateDir)| && IsTemplate(WalkDir(src, templateDir)[i]) ==>
      && WalkDir(src, templateDir)[i].kind.content.Some?
      && Target(WalkDir(src, templateDir)[i], out) in Generated(WalkDir(src, templateDir), out, data, tpl, d).disk.files
      && Generated(WalkDir(src, templateDir), out, data, tpl, d).disk.files[Target(WalkDir(src, templateDir)[i], out)]
         == tpl.execute(Base(WalkDir(src, templateDir)[i].path), WalkDir(src, templateDir)[i].kind.content.value, data).text
  {
    var vs := WalkDir(src, templateDir);
    WalkDirFilesDistinct(src, templateDir);
    TemplateTargetsDistinct(vs, out);
    forall i | 0 <= i < |vs| && IsTemplate(vs[i])
      ensures vs[i].kind.content.Some?
      ensures Target(vs[i], out) in Generated(vs, out, data, tpl, d).disk.files
      ensures Generated(vs, out, data, tpl, d).disk.files[Target(vs[i], out)] == tpl.execute(Base(vs[i].path), vs[i].kind.content.value, data).text
    {
      GeneratedRendersTemplate(vs, i, out, data, tpl, d);
    }
  }

  /** The root is visited first with relative path ".", so outputDir itself is created before
      any file is written; if that fails, nothing else happens. */
  lemma OutputRootComesFirst(src: Entry, templateDir: Path, out: Path, data: TemplateData, tpl: TextTemplate, d: Disk)
    requires Lookup(src, templateDir).Some? && Lookup(src, templateDir).value.Dir?
    ensures
      var vs := WalkDir(src, templateDir);
      var first := d.MkdirAll(out);
      && vs[0] == Visit(templateDir, [], DirVisit(Lookup(src, templateDir).value.name))
      && Generated(vs, out, data, tpl, d) == (if first.err.Some? then first else Generated(vs[1..], out, data, tpl, first.disk))
      && (first.err.None? ==> out in first.disk.dirs)
  {
    var vs := WalkDir(src, templateDir);
    assert vs[0].rel == [];
    assert Target(vs[0], out) == out;
    assert out[..|out|] == out;
  }

  /** A template directory that cannot be found fails the walk at once with the lstat error
      (ENOENT, or ENOTDIR when a file stands on its path), and nothing is created or written. */
  lemma MissingTemplateDirWritesNothing(src: Entry, templateDir: Path, out: Path, data: TemplateData, tpl: TextTemplate, d: Disk)
    requires Lookup(src, templateDir).None?
    ensures Generated(WalkDir(src, templateDir), out, data, tpl, d) == Outcome(d, Some(LstatError(src, templateDir)))
  {
  }

  /** Visiting again an entry that was handled without error, on a disk that already holds its
      destination directory and, for a template, its rendering, changes nothing. */
  lemma CallbackAgainIsNoop(v: Visit, out: Path, data: TemplateData, tpl: TextTemplate, d: Disk, e: Disk)
    requires Callback(v, out, data, tpl, d).err.None?
    requires e.Valid() && StepDirs(v, out) <= e.dirs
    requires IsTemplate(v) && v.kind.content.Some? ==>
      Target(v, out) in e.files && e.files[Target(v, out)] == tpl.execute(Base(v.path), v.kind.content.value, data).text
    ensures Callback(v, out, data, tpl, e) == Outcome(e, None)
  {
    if v.kind.DirVisit? {
      assert Target(v, out)[..|Target(v, out)|] == Target(v, out);
      MkdirAllExistingIsNoop(e, Target(v, out));
    } else if IsTemplate(v) {
      var dest := Target(v, out);
      assert Parent(dest)[..|Parent(dest)|] == Parent(dest);
      MkdirAllExistingIsNoop(e, Parent(dest));
      assert e.files[dest := e.files[dest]] == e.files;
    }
  }

  /** Replaying visits that all succeeded, on a disk that already holds every directory they
      create and every rendering they write, returns nil and changes nothing. */
  lemma {:induction false} GeneratedAgainIsNoop(vs: seq<Visit>, out: Path, data: TemplateData, tpl: TextTemplate, d: Disk, e: Disk)
    requires Generated(vs, out, data, tpl, d).err.None?
    requires e.Valid() && MadeDirs(vs, out) <= e.dirs
    requires forall i :: 0 <= i < |vs| && IsTemplate(vs[i]) && vs[i].kind.content.Some? ==>
      Target(vs[i], out) in e.files && e.files[Target(vs[i], out)] == tpl.execute(Base(vs[i].path), vs[i].kind.content.value, data).text
    ensures Generated(vs, out, data, tpl, e) == Outcome(e, None)
    decreases |vs|
  {
    if vs != [] {
      var o := Callback(vs[0], out, data, tpl, d);
      CallbackAgainIsNoop(vs[0], out, data, tpl, d, e);
      forall i | 0 <= i < |vs[1..]| && IsTemplate(vs[1..][i]) && vs[1..][i].kind.content.Some?
        ensures Target(vs[1..][i], out) in e.files
        ensures e.files[Target(vs[1..][i], out)] == tpl.execute(Base(vs[1..][i].path), vs[1..][i].kind.content.value, data).text
      {
        assert vs[1..][i] == vs[i + 1];
      }
      GeneratedAgainIsNoop(vs[1..], out, data, tpl, o.disk, e);
    }
  }

  /** Running GenerateProjectFromTemplateDir a second time over the output of a run that
      returned nil returns nil again and leaves the output exactly as it was. */
  lemma GenerateIsIdempotent(src: Entry, templateDir: Path, out: Path, data: TemplateData, tpl: TextTemplate, d: Disk)
    requires WellFormed(src) && d.Valid()
    requires Generated(WalkDir(src, templateDir), out, data, tpl, d).err.None?
    ensures
      var e := Generated(WalkDir(src, templateDir), out, data, tpl, d).disk;
      Generated(WalkDir(src, templateDir), out, data, tpl, e) == Outcome(e, None)
  {
    var vs := WalkDir(src, templateDir);
    GeneratedKeepsEarlierOutput(vs, out, data, tpl, d);
    GeneratedBuildsWholeTree(vs, out, data, tpl, d);
    GenerateRendersEveryTemplate(src, templateDir, out, data, tpl, d);
    GeneratedAgainIsNoop(vs, out, data, tpl, d, Generated(vs, out, data, tpl, d).disk);
  }

  /** The walk from the i-th visit on: that visit's callback, then the rest unless it failed. */
  lemma GeneratedStep(vs: seq<Visit>, i: nat, out: Path, data: TemplateData, tpl: TextTemplate, d: Disk)
    requires i < |vs|
    ensures Generated(vs[i..], out, data, tpl, d) ==
      var o := Callback(vs[i], out, data, tpl, d);
      if o.err.Some? then o else Generated(vs[i + 1..], out, data, tpl, o.disk)
  {
    assert vs[i..][0] == vs[i] && vs[i..][1..] == vs[i + 1..];
  }

  /** renderFile, step by step on the output file system. */
  method RenderFile(fs: FileSystem, templatePath: Path, content: Option<string>, outputPath: Path,
                    data: TemplateData, tpl: TextTemplate) returns (err: Option<Error>)
    requires fs.Valid()
    modifies fs
    ensures fs.Valid()
    ensures Outcome(fs.State(), err) == RenderedFile(old(fs.State()), templatePath, content, outputPath, data, tpl)
  {
    if content.None? {
      return Some(ReadFailed(templatePath));
    }
    var parseErr := tpl.parse(Base(templatePath), content.value);
    if parseErr.Some? {
      return parseErr;
    }
    err := fs.MkdirAll(Parent(outputPath));
    if err.Some? {
      return;
    }
    err := fs.Create(outputPath);
    if err.Some? {
      return;
    }
    var run := tpl.execute(Base(templatePath), content.value, data);
    fs.Write(outputPath, run.text);
    err := run.err;
  }

  /** The WalkDir callback: mkdir for a directory, skip a non-template file, render a template. */
  method VisitEntry(fs: FileSystem, v: Visit, outputDir: Path, data: TemplateData, tpl: TextTemplate)
    returns (err: Option<Error>)
    requires fs.Valid()
    modifies fs
    ensures fs.Valid()
    ensures Outcome(fs.State(), err) == Callback(v, outputDir, data, tpl, old(fs.State()))
  {
    if v.kind.Failed? {
      return Some(v.kind.err);
    }
    var destPath := outputDir + DestRel(v.rel);
    if v.kind.DirVisit? {
      err := fs.MkdirAll(destPath);
      return;
    }
    if !HasTmplSuffix(v.kind.name) {
      return None;
    }
    err := RenderFile(fs, v.path, v.kind.content, destPath, data, tpl);
  }

  /** GenerateProjectFromTemplateDir: walks the template tree at templateDir and returns the first
      error any entry produces, or None once every entry has been handled. */
  method GenerateProjectFromTemplateDir(fs: FileSystem, src: Entry, templateDir: Path, outputDir: Path,
                                        data: TemplateData, tpl: TextTemplate) returns (err: Option<Error>)
    requires fs.Valid()
    modifies fs
    ensures fs.Valid()
    ensures Outcome(fs.State(), err) == Generated(WalkDir(src, templateDir), outputDir, data, tpl, old(fs.State()))
  {
    var vs := WalkDir(src, templateDir);
    var i := 0;
    while i < |vs|
      invariant 0 <= i <= |vs|
      invariant fs.Valid()
      invariant Generated(vs[i..], outputDir, data, tpl, fs.State()) == Generated(vs, outputDir, data, tpl, old(fs.State()))
    {
      GeneratedStep(vs, i, outputDir, data, tpl, fs.State());
      err := VisitEntry(fs, vs[i], outputDir, data, tpl);
      if err.Some? {
        return;
      }
      i := i + 1;
    }
    err := None;
  }
}
