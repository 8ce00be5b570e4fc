/** The template tree on disk and the pre-order walk over it (filepath.WalkDir / filepath.Walk). */
module TemplateTree {
  import opened Paths
  import opened Errors

  /** An entry of the source tree. A directory whose entries cannot be read is not listable;
      a file whose content cannot be read has content None. */
  datatype Entry =
    | Dir(name: string, children: seq<Entry>, listable: bool)
    | File(name: string, content: Option<string>)

  /** What the walk hands its callback for one entry. */
  datatype VisitKind =
    | DirVisit(name: string)
    | FileVisit(name: string, content: Option<string>)
    | Failed(err: Error)

  /** One callback invocation: the entry's source path, its path relative to the walk's root
      ([] for the root itself, which filepath.Rel reports as "."), and what was found. */
  datatype Visit = Visit(path: Path, rel: Path, kind: VisitKind)

  /** The names of a sequence of sibling entries. */
  function ChildNames(cs: seq<Entry>): set<string>
  {
    if cs == [] then {} else {cs[0].name} + ChildNames(cs[1..])
  }

  /** No two siblings share a name. */
  predicate DistinctNames(cs: seq<Entry>)
  {
    cs == [] || (cs[0].name !in ChildNames(cs[1..]) && DistinctNames(cs[1..]))
  }

  /** A tree as a directory listing yields it: sibling names are distinct at every level. */
  predicate WellFormed(e: Entry)
  {
    match e
    case File(_, _) => true
    case Dir(_, cs, _) => DistinctNames(cs) && forall c :: c in cs ==> WellFormed(c)
  }

  /** The first child with the given name. */
  function Child(cs: seq<Entry>, name: string): (r: Option<Entry>)
    ensures r.Some? ==> r.value in cs && r.value.name == name
    ensures r.None? <==> name !in ChildNames(cs)
  {
    if cs == [] then None
    else if cs[0].name == name then Some(cs[0])
    else Child(cs[1..], name)
  }

  /** os.Lstat of the entry at p below e: None when a segment is missing or a file stands in the way. */
  function Lookup(e: Entry, p: Path): (r: Option<Entry>)
    ensures WellFormed(e) && r.Some? ==> WellFormed(r.value)
    decreases |p|
  {
    if p == [] then Some(e)
    else match e
      case File(_, _) => None
      case Dir(_, cs, _) =>
        match Child(cs, p[0])
        case None => None
        case Some(c) => Lookup(c, p[1..])
  }

  /** The callback invocations for the subtree e found at root + rel, in pre-order: the entry
      itself first; then, for a directory, either its children's subtrees in listing order or,
      when the listing fails, a second invocation carrying that error. */
  function Visits(e: Entry, root: Path, rel: Path): (vs: seq<Visit>)
    ensures |vs| >= 1 && vs[0].rel == rel
    decreases e
  {
    match e
    case File(name, content) => [Visit(root + rel, rel, FileVisit(name, content))]
    case Dir(name, cs, listable) =>
      [Visit(root + rel, rel, DirVisit(name))]
      + (if listable then VisitsOf(cs, root, rel)
         else [Visit(root + rel, rel, Failed(ListFailed(root + rel)))])
  }

  /** The visits of a sequence of siblings whose parent is at root + rel. */
  function VisitsOf(cs: seq<Entry>, root: Path, rel: Path): seq<Visit>
    decreases cs
  {
    if cs == [] then []
    else Visits(cs[0], root, rel + [cs[0].name]) + VisitsOf(cs[1..], root, rel)
  }

  /** The walk from root over the source tree src: when root cannot be found the callback is
      invoked once with the lstat error; otherwise it receives every entry of the subtree. */
  function WalkDir(src: Entry, root: Path): (vs: seq<Visit>)
    ensures |vs| >= 1
  {
    match Lookup(src, root)
    case None => [Visit(root, [], Failed(LstatError(src, root)))]
    case Some(e) => Visits(e, root, [])
  }

  /** A regular file stands on p, before its last segment. */
  predicate FileOnPath(e: Entry, p: Path)
  {
    exists k | 0 <= k < |p| :: Lookup(e, p[..k]).Some? && Lookup(e, p[..k]).value.File?
  }

  /** The error os.Lstat reports for a path it cannot find: ENOTDIR when a regular file stands on
      the path, ENOENT when a segment is missing. */
  function LstatError(e: Entry, p: Path): Error
  {
    if FileOnPath(e, p) then NotADirectory(p) else NotExist(p)
  }

  /** Nothing can be found below a regular file, so a path a file stands on is never found. */
  lemma {:induction false} FileOnPathHidesPath(e: Entry, p: Path)
    requires FileOnPath(e, p)
    ensures Lookup(e, p).None?
    decreases |p|
  {
    var k :| 0 <= k < |p| && Lookup(e, p[..k]).Some? && Lookup(e, p[..k]).value.File?;
    if k > 0 {
      assert p[..k][0] == p[0] && p[..k][1..] == p[1..][..k - 1];
      var c := Child(e.children, p[0]).value;
      assert Lookup(c, p[1..][..k - 1]) == Lookup(e, p[..k]);
      FileOnPathHidesPath(c, p[1..]);
    }
  }

  /** No two file visits in vs have the same relative path. */
  ghost predicate FileRelsDistinct(vs: seq<Visit>)
  {
    forall i, j :: 0 <= i < j < |vs| && vs[i].kind.FileVisit? && vs[j].kind.FileVisit? ==> vs[i].rel != vs[j].rel
  }

  /** A file visit below the root carries the last segment of its relative path as its name. */
  ghost predicate NamesAgree(vs: seq<Visit>)
  {
    forall i :: 0 <= i < |vs| && vs[i].kind.FileVisit? && vs[i].rel != [] ==> vs[i].kind.name == vs[i].rel[|vs[i].rel| - 1]
  }

  /** Every visit of a subtree lies below the subtree's relative path. */
  lemma {:induction false} VisitsBelow(e: Entry, root: Path, rel: Path)
    ensures forall i :: 0 <= i < |Visits(e, root, rel)| ==> rel <= Visits(e, root, rel)[i].rel
    decreases e, 1
  {
    match e
    case File(_, _) =>
    case Dir(name, cs, listable) =>
      if listable {
        VisitsOfBelow(cs, root, rel);
      }
  }

  /** Every visit of a sequence of siblings lies strictly below their parent, inside one of them. */
  lemma {:induction false} VisitsOfBelow(cs: seq<Entry>, root: Path, rel: Path)
    ensures forall i :: 0 <= i < |VisitsOf(cs, root, rel)| ==>
      && |VisitsOf(cs, root, rel)[i].rel| > |rel|
      && rel <= VisitsOf(cs, root, rel)[i].rel
      && VisitsOf(cs, root, rel)[i].rel[|rel|] in ChildNames(cs)
    decreases cs, 0
  {
    if cs != [] {
      var first := Visits(cs[0], root, rel + [cs[0].name]);
      VisitsBelow(cs[0], root, rel + [cs[0].name]);
      VisitsOfBelow(cs[1..], root, rel);
      var vs := VisitsOf(cs, root, rel);
      forall i | 0 <= i < |vs|
        ensures |vs[i].rel| > |rel| && rel <= vs[i].rel && vs[i].rel[|rel|] in ChildNames(cs)
      {
        if i < |first| {
          assert rel + [cs[0].name] <= vs[i].rel;
          assert vs[i].rel[|rel|] == cs[0].name;
        }
      }
    }
  }

  /** In a well-formed tree, the walk visits each file path at most once. */
  lemma {:induction false} VisitsFileRelsDistinct(e: Entry, root: Path, rel: Path)
    requires WellFormed(e)
    ensures FileRelsDistinct(Visits(e, root, rel))
    decreases e, 1
  {
    match e
    case File(_, _) =>
    case Dir(name, cs, listable) =>
      if listable {
        VisitsOfFileRelsDistinct(cs, root, rel);
      }
  }

  lemma {:induction false} VisitsOfFileRelsDistinct(cs: seq<Entry>, root: Path, rel: Path)
    requires DistinctNames(cs) && forall c :: c in cs ==> WellFormed(c)
    ensures FileRelsDistinct(VisitsOf(cs, root, rel))
    decreases cs, 0
  {
    if cs != [] {
      var first := Visits(cs[0], root, rel + [cs[0].name]);
      var rest := VisitsOf(cs[1..], root, rel);
      VisitsFileRelsDistinct(cs[0], root, rel + [cs[0].name]);
      VisitsOfFileRelsDistinct(cs[1..], root, rel);
      VisitsBelow(cs[0], root, rel + [cs[0].name]);
      VisitsOfBelow(cs[1..], root, rel);
      var vs := VisitsOf(cs, root, rel);
      assert vs == first + rest;
      forall i, j | 0 <= i < j < |vs| && vs[i].kind.FileVisit? && vs[j].kind.FileVisit?
        ensures vs[i].rel != vs[j].rel
      {
        if i < |first| && j >= |first| {
          assert rel + [cs[0].name] <= vs[i].rel;
          assert vs[i].rel[|rel|] == cs[0].name;
          assert vs[j] == rest[j - |first|];
          assert vs[j].rel[|rel|] in ChildNames(cs[1..]);
        } else if j < |first| {
          assert vs[i] == first[i] && vs[j] == first[j];
        } else {
          assert vs[i] == rest[i - |first|] && vs[j] == rest[j - |first|];
        }
      }
    }
  }

  /** Below the root, every file visit is named after the last segment of its relative path. */
  lemma {:induction false} VisitsNamesAgree(e: Entry, root: Path, rel: Path)
    requires rel == [] || rel[|rel| - 1] == e.name
    ensures NamesAgree(Visits(e, root, rel))
    decreases e, 1
  {
    match e
    case File(_, _) =>
    case Dir(name, cs, listable) =>
      if listable {
        VisitsOfNamesAgree(cs, root, rel);
      }
  }

  lemma {:induction false} VisitsOfNamesAgree(cs: seq<Entry>, root: Path, rel: Path)
    ensures NamesAgree(VisitsOf(cs, root, rel))
    decreases cs, 0
  {
    if cs != [] {
      VisitsNamesAgree(cs[0], root, rel + [cs[0].name]);
      VisitsOfNamesAgree(cs[1..], root, rel);
      var first := Visits(cs[0], root, rel + [cs[0].name]);
      var rest := VisitsOf(cs[1..], root, rel);
      var vs := VisitsOf(cs, root, rel);
      forall i | 0 <= i < |vs| && vs[i].kind.FileVisit? && vs[i].rel != []
        ensures vs[i].kind.name == vs[i].rel[|vs[i].rel| - 1]
      {
        if i < |first| { assert vs[i] == first[i]; } else { assert vs[i] == rest[i - |first|]; }
      }
    }
  }

  /** The walk over a well-formed source tree visits each file path once, and every file below
      the root is named after the last segment of its relative path. */
  lemma WalkDirFilesDistinct(src: Entry, root: Path)
    requires WellFormed(src)
    ensures FileRelsDistinct(WalkDir(src, root))
    ensures NamesAgree(WalkDir(src, root))
  {
    match Lookup(src, root)
    case None =>
    case Some(e) =>
      VisitsFileRelsDistinct(e, root, []);
      VisitsNamesAgree(e, root, []);
  }
}
