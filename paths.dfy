/** File-system paths as sequences of segments. */
module Paths {

  /** A path as its segments; [] is the working directory ("."). */
  type Path = seq<string>

  /** filepath.Dir: the path without its last segment; the working directory is its own parent. */
  function Parent(p: Path): Path
  {
    if p == [] then [] else p[..|p| - 1]
  }

  /** filepath.Base: the last segment; the working directory is ".". */
  function Base(p: Path): string
  {
    if p == [] then "." else p[|p| - 1]
  }

  /** The path and every one of its ancestors, the working directory included. */
  function Prefixes(p: Path): (r: set<Path>)
    ensures forall k :: 0 <= k <= |p| ==> p[..k] in r
    ensures forall q :: q in r ==> q <= p
  {
    set k | 0 <= k <= |p| :: p[..k]
  }

  /** The path written out with '/' between its segments. */
  function JoinSlash(p: Path): string
  {
    if |p| == 0 then ""
    else if |p| == 1 then p[0]
    else JoinSlash(p[..|p| - 1]) + "/" + p[|p| - 1]
  }

  /** How a path appears in an error message. */
  function Display(p: Path): string
  {
    if p == [] then "." else JoinSlash(p)
  }
}
