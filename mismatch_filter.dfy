/** Per-side suppression policy for the diffs: `MismatchFilter<T>`. */
module MismatchFilters {

  /** Two independent predicates: one suppresses a key that would be reported as only in the
      left side, the other a key that would be reported as only in the right side. */
  datatype MismatchFilter<-T> = MismatchFilter(ignoreInLeft: T -> bool, ignoreInRight: T -> bool)

  /** `MismatchFilter.noop()`: suppresses nothing, for any key type. */
  function Noop<T(!new)>(): (f: MismatchFilter<T>)
    ensures forall k :: !f.ignoreInLeft(k)
    ensures forall k :: !f.ignoreInRight(k)
  {
    MismatchFilter(_ => false, _ => false)
  }
}
