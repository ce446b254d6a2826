/** File system paths as sequences of name segments. */
module Paths {

  /** A path: the names of its segments, from the root down. */
  type Path = seq<string>

  /** `Path.resolve(name)`: the child `name` of `p`. */
  function Resolve(p: Path, name: string): (r: Path)
    ensures |r| == |p| + 1 && r[..|p|] == p && r[|p|] == name
  {
    p + [name]
  }

  /** `Path.getFileName().toString()`: the last segment ("" for the root). */
  function FileName(p: Path): string
  {
    if p == [] then "" else p[|p| - 1]
  }

  /** `PathUtils.toFileNames`: the last segment of each path, in order. */
  function FileNames(ps: seq<Path>): (names: seq<string>)
    ensures |names| == |ps|
    ensures forall i :: 0 <= i < |ps| ==> names[i] == FileName(ps[i])
  {
    seq(|ps|, i requires 0 <= i < |ps| => FileName(ps[i]))
  }

  lemma FileNameOfResolve(p: Path, name: string)
    ensures FileName(Resolve(p, name)) == name
  {
  }
}
