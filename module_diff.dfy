/** `ModuleDiff`: what the comparison of one module found. */
module ModuleDiffs {
  import opened Paths
  import opened Results
  import opened PomDiffer

  /** A module: its name and its directory on each side, when that side has one. */
  datatype Module = Module(name: string, left: Option<Path>, right: Option<Path>)

  /** The file names only in each side's version directory, and the dependency comparison. */
  datatype ModuleDiff = ModuleDiff(mod: Module, onlyInLeft: seq<string>, onlyInRight: seq<string>, pomDiff: PomDiff)
  {
    /** Both sides have the module, no file is on one side only, and the dependencies agree. */
    predicate HasSameEntries()
      ensures HasSameEntries() <==> mod.left.Some? && mod.right.Some?
                                    && |onlyInLeft| + |onlyInRight| + |pomDiff.onlyInLeft| + |pomDiff.onlyInRight| == 0
    {
      mod.left.Some? && mod.right.Some? && onlyInLeft == [] && onlyInRight == [] && pomDiff.HasSameEntries()
    }
  }

  /** A module missing on either side never has the same entries, whatever was compared. */
  lemma MissingSideNotSame(d: ModuleDiff)
    requires d.mod.left.None? || d.mod.right.None?
    ensures !d.HasSameEntries()
  {
  }
}
