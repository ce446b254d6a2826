/** `DiffUtils`: the generic, duplicate-aware, filtered comparison of two lists of keys. */
module DiffUtils {
  import opened MismatchFilters
  import opened Sequences

  /** The keys left over on each side once every key present on both sides has been cancelled. */
  datatype Diff<T> = Diff(onlyInLeft: seq<T>, onlyInRight: seq<T>)
  {
    predicate HasSameEntries()
      ensures HasSameEntries() <==> |onlyInLeft| + |onlyInRight| == 0
    {
      onlyInLeft == [] && onlyInRight == []
    }
  }

  /** What the loop of `DiffUtils.diff` leaves behind: the left keys that found no counterpart
      and were not suppressed, and the right working list after every cancellation. */
  function Cancel<T(==)>(left: seq<T>, right: seq<T>, ignoreInLeft: T -> bool): (seq<T>, seq<T>)
  {
    if left == [] then ([], right)
    else if left[0] in right then Cancel(left[1..], RemoveFirst(right, left[0]), ignoreInLeft)
    else
      var rest := Cancel(left[1..], right, ignoreInLeft);
      (if ignoreInLeft(left[0]) then rest.0 else [left[0]] + rest.0, rest.1)
  }

  /** The result `DiffUtils.diff(left, right, filter)` returns. */
  function DiffOf<T(==)>(left: seq<T>, right: seq<T>, filter: MismatchFilter<T>): Diff<T>
  {
    var c := Cancel(left, right, filter.ignoreInLeft);
    Diff(c.0, Reject(c.1, filter.ignoreInRight))
  }

  /** `DiffUtils.diff`: works on copies of both lists; each left key cancels the first equal key
      still on the right, or is reported as only in the left side unless the filter suppresses it;
      what is left on the right, less what the filter suppresses, is only in the right side. */
  method DiffLists<T(==)>(left: seq<T>, right: seq<T>, filter: MismatchFilter<T>) returns (d: Diff<T>)
    ensures d == DiffOf(left, right, filter)
  {
    var remaining := right;
    var onlyInLeft: seq<T> := [];
    assert left[0..] == left;
    assert onlyInLeft + Cancel(left, right, filter.ignoreInLeft).0 == Cancel(left, right, filter.ignoreInLeft).0;
    for i := 0 to |left|
      invariant Cancel(left, right, filter.ignoreInLeft)
        == (onlyInLeft + Cancel(left[i..], remaining, filter.ignoreInLeft).0,
            Cancel(left[i..], remaining, filter.ignoreInLeft).1)
    {
      var key := left[i];
      assert left[i..][1..] == left[i + 1..];
      if key in remaining {
        remaining := RemoveFirst(remaining, key);
      } else if !filter.ignoreInLeft(key) {
        assert onlyInLeft + ([key] + Cancel(left[i + 1..], remaining, filter.ignoreInLeft).0)
          == (onlyInLeft + [key]) + Cancel(left[i + 1..], remaining, filter.ignoreInLeft).0;
        onlyInLeft := onlyInLeft + [key];
      }
    }
    assert left[|left|..] == [];
    d := Diff(onlyInLeft, Reject(remaining, filter.ignoreInRight));
  }

  /** Counting: a key is left over on the right as often as the right has more copies of it than
      the left, and reported on the left as often as the left has more copies of it than the right,
      unless the left predicate suppresses it. */
  lemma {:induction false} CancelRemainderCounts<T>(left: seq<T>, right: seq<T>, ignoreInLeft: T -> bool)
    ensures multiset(Cancel(left, right, ignoreInLeft).1) == multiset(right) - multiset(left)
  {
    if left != [] {
      var k := left[0];
      assert multiset(left) == multiset{k} + multiset(left[1..]) by {
        assert left == [k] + left[1..];
      }
      if k in right {
        var r' := RemoveFirst(right, k);
        CancelRemainderCounts(left[1..], r', ignoreInLeft);
        assert multiset(r') - multiset(left[1..]) == multiset(right) - multiset(left);
      } else {
        CancelRemainderCounts(left[1..], right, ignoreInLeft);
        assert multiset(right) - multiset(left[1..]) == multiset(right) - multiset(left);
      }
    }
  }

  lemma {:induction false} CancelReportCounts<T>(left: seq<T>, right: seq<T>, ignoreInLeft: T -> bool)
    ensures forall x :: multiset(Cancel(left, right, ignoreInLeft).0)[x]
                        == if ignoreInLeft(x) then 0 else (multiset(left) - multiset(right))[x]
  {
    if left != [] {
      var k := left[0];
      assert multiset(left) == multiset{k} + multiset(left[1..]) by {
        assert left == [k] + left[1..];
      }
      if k in right {
        var r' := RemoveFirst(right, k);
        CancelReportCounts(left[1..], r', ignoreInLeft);
        assert multiset(left[1..]) - multiset(r') == multiset(left) - multiset(right);
      } else {
        CancelReportCounts(left[1..], right, ignoreInLeft);
      }
    }
  }

  /** Order: what is reported on either side keeps the order of its input list. */
  lemma {:induction false} CancelSubsequences<T>(left: seq<T>, right: seq<T>, ignoreInLeft: T -> bool)
    ensures IsSubsequence(Cancel(left, right, ignoreInLeft).0, left)
    ensures IsSubsequence(Cancel(left, right, ignoreInLeft).1, right)
  {
    if left == [] {
      SubsequenceRefl(right);
    } else {
      var k := left[0];
      assert left == [k] + left[1..];
      if k in right {
        var r' := RemoveFirst(right, k);
        CancelSubsequences(left[1..], r', ignoreInLeft);
        RemoveFirstSubsequence(right, k);
        SubsequenceTrans(Cancel(left[1..], r', ignoreInLeft).1, r', right);
        SubsequenceCons(k, Cancel(left[1..], r', ignoreInLeft).0, left[1..]);
      } else {
        CancelSubsequences(left[1..], right, ignoreInLeft);
        SubsequenceCons(k, Cancel(left[1..], right, ignoreInLeft).0, left[1..]);
      }
    }
  }

  lemma {:induction false} CancelReportsUnsuppressed<T>(left: seq<T>, right: seq<T>, ignoreInLeft: T -> bool)
    ensures forall x :: x in Cancel(left, right, ignoreInLeft).0 ==> !ignoreInLeft(x)
  {
    if left != [] {
      if left[0] in right {
        CancelReportsUnsuppressed(left[1..], RemoveFirst(right, left[0]), ignoreInLeft);
      } else {
        CancelReportsUnsuppressed(left[1..], right, ignoreInLeft);
      }
    }
  }

  /** The left predicate decides nothing about the right working list. */
  lemma {:induction false} CancelRightIndependent<T>(left: seq<T>, right: seq<T>, p: T -> bool, q: T -> bool)
    ensures Cancel(left, right, p).1 == Cancel(left, right, q).1
  {
    if left != [] {
      if left[0] in right {
        CancelRightIndependent(left[1..], RemoveFirst(right, left[0]), p, q);
      } else {
        CancelRightIndependent(left[1..], right, p, q);
      }
    }
  }

  lemma {:induction false} CancelLeftExtensional<T>(left: seq<T>, right: seq<T>, p: T -> bool, q: T -> bool)
    requires forall k :: p(k) == q(k)
    ensures Cancel(left, right, p).0 == Cancel(left, right, q).0
  {
    if left != [] {
      if left[0] in right {
        CancelLeftExtensional(left[1..], RemoveFirst(right, left[0]), p, q);
      } else {
        CancelLeftExtensional(left[1..], right, p, q);
      }
    }
  }

  /** Multiset semantics: what is reported on each side is the multiset difference of the two
      lists, less the keys the filter suppresses on that side. */
  lemma DiffCounts<T>(left: seq<T>, right: seq<T>, filter: MismatchFilter<T>)
    ensures forall x :: multiset(DiffOf(left, right, filter).onlyInLeft)[x]
                        == if filter.ignoreInLeft(x) then 0 else (multiset(left) - multiset(right))[x]
    ensures forall x :: multiset(DiffOf(left, right, filter).onlyInRight)[x]
                        == if filter.ignoreInRight(x) then 0 else (multiset(right) - multiset(left))[x]
  {
    CancelRemainderCounts(left, right, filter.ignoreInLeft);
    CancelReportCounts(left, right, filter.ignoreInLeft);
    RejectFacts(Cancel(left, right, filter.ignoreInLeft).1, filter.ignoreInRight);
  }

  /** With the no-op filter, `onlyInLeft` is exactly the multiset difference left - right
      and `onlyInRight` exactly right - left. */
  lemma NoopDiffIsMultisetDifference<T(!new)>(left: seq<T>, right: seq<T>)
    ensures multiset(DiffOf(left, right, Noop()).onlyInLeft) == multiset(left) - multiset(right)
    ensures multiset(DiffOf(left, right, Noop()).onlyInRight) == multiset(right) - multiset(left)
  {
    DiffCounts(left, right, Noop());
  }

  /** Both reported lists keep the order of their input lists. */
  lemma DiffPreservesOrder<T>(left: seq<T>, right: seq<T>, filter: MismatchFilter<T>)
    ensures IsSubsequence(DiffOf(left, right, filter).onlyInLeft, left)
    ensures IsSubsequence(DiffOf(left, right, filter).onlyInRight, right)
  {
    var c := Cancel(left, right, filter.ignoreInLeft);
    CancelSubsequences(left, right, filter.ignoreInLeft);
    RejectFacts(c.1, filter.ignoreInRight);
    SubsequenceTrans(Reject(c.1, filter.ignoreInRight), c.1, right);
  }

  /** Nothing suppressed on a side is reported on that side. */
  lemma DiffRespectsFilter<T>(left: seq<T>, right: seq<T>, filter: MismatchFilter<T>)
    ensures forall x :: x in DiffOf(left, right, filter).onlyInLeft ==> !filter.ignoreInLeft(x)
    ensures forall x :: x in DiffOf(left, right, filter).onlyInRight ==> !filter.ignoreInRight(x)
  {
    CancelReportsUnsuppressed(left, right, filter.ignoreInLeft);
  }

  /** Each side's report depends on that side's predicate only: a left predicate never removes
      anything from `onlyInRight`, and a right predicate nothing from `onlyInLeft`. */
  lemma FilterSidesIndependent<T>(left: seq<T>, right: seq<T>, filter: MismatchFilter<T>, other: MismatchFilter<T>)
    ensures (forall k :: filter.ignoreInLeft(k) == other.ignoreInLeft(k))
            ==> DiffOf(left, right, filter).onlyInLeft == DiffOf(left, right, other).onlyInLeft
    ensures (forall k :: filter.ignoreInRight(k) == other.ignoreInRight(k))
            ==> DiffOf(left, right, filter).onlyInRight == DiffOf(left, right, other).onlyInRight
  {
    CancelRightIndependent(left, right, filter.ignoreInLeft, other.ignoreInLeft);
    if forall k :: filter.ignoreInLeft(k) == other.ignoreInLeft(k) {
      CancelLeftExtensional(left, right, filter.ignoreInLeft, other.ignoreInLeft);
    }
    if forall k :: filter.ignoreInRight(k) == other.ignoreInRight(k) {
      RejectExtensional(Cancel(left, right, filter.ignoreInLeft).1, filter.ignoreInRight, other.ignoreInRight);
    }
  }

  /** Suppressing on the left commutes with cancelling: the left report under `p` is the left
      report under a predicate that suppresses nothing, less the keys `p` suppresses. */
  lemma {:induction false} CancelThenSuppress<T>(left: seq<T>, right: seq<T>, p: T -> bool, none: T -> bool)
    requires forall k :: !none(k)
    ensures Cancel(left, right, p).0 == Reject(Cancel(left, right, none).0, p)
  {
    if left != [] {
      if left[0] in right {
        CancelThenSuppress(left[1..], RemoveFirst(right, left[0]), p, none);
      } else {
        CancelThenSuppress(left[1..], right, p, none);
        var rest := Cancel(left[1..], right, none).0;
        assert ([left[0]] + rest)[1..] == rest;
      }
    }
  }

  /** A filter only removes keys from the no-op comparison: each side's report is the no-op
      report of that side, less the keys that side's predicate suppresses, in the same order. */
  lemma FilteredIsSuppressedNoop<T(!new)>(left: seq<T>, right: seq<T>, filter: MismatchFilter<T>)
    ensures DiffOf(left, right, filter).onlyInLeft == Reject(DiffOf(left, right, Noop()).onlyInLeft, filter.ignoreInLeft)
    ensures DiffOf(left, right, filter).onlyInRight == Reject(DiffOf(left, right, Noop()).onlyInRight, filter.ignoreInRight)
  {
    var noop: MismatchFilter<T> := Noop();
    CancelThenSuppress(left, right, filter.ignoreInLeft, noop.ignoreInLeft);
    CancelRightIndependent(left, right, filter.ignoreInLeft, noop.ignoreInLeft);
    RejectNothing(Cancel(left, right, noop.ignoreInLeft).1, noop.ignoreInRight);
  }

  /** With the no-op filter, two lists have the same entries exactly when they hold the same keys
      the same number of times, whatever their order. */
  lemma SameEntriesIffSameMultiset<T(!new)>(left: seq<T>, right: seq<T>)
    ensures DiffOf(left, right, Noop()).HasSameEntries() <==> multiset(left) == multiset(right)
  {
    NoopDiffIsMultisetDifference(left, right);
    var d := DiffOf(left, right, Noop());
    if multiset(left) == multiset(right) {
      assert multiset(d.onlyInLeft) == multiset{};
      assert multiset(d.onlyInRight) == multiset{};
    }
    if d.HasSameEntries() {
      assert multiset(left) - multiset(right) == multiset{};
      assert multiset(right) - multiset(left) == multiset{};
      assert multiset(left) <= multiset(right);
      assert multiset(right) <= multiset(left);
    }
  }

  /** A list compared with itself has the same entries, duplicates included. */
  lemma SelfDiffHasSameEntries<T(!new)>(keys: seq<T>)
    ensures DiffOf(keys, keys, Noop()).HasSameEntries()
  {
    SameEntriesIffSameMultiset(keys, keys);
  }

  /** What the right working list ends as: each left key removes its first occurrence. */
  lemma {:induction false} CancelRemainderIsRemoveEach<T>(left: seq<T>, right: seq<T>, ignoreInLeft: T -> bool)
    ensures Cancel(left, right, ignoreInLeft).1 == RemoveEach(right, left)
    decreases left
  {
    if left != [] {
      CancelRemainderIsRemoveEach(left[1..], RemoveFirst(right, left[0]), ignoreInLeft);
    }
  }

  /** Without suppression, the left report is the left list less, for each right key, its first
      occurrence. */
  lemma {:induction false} CancelReportIsRemoveEach<T>(left: seq<T>, right: seq<T>, none: T -> bool)
    requires forall k :: !none(k)
    ensures Cancel(left, right, none).0 == RemoveEach(left, right)
    decreases left
  {
    if left == [] {
      RemoveEachFromEmpty(right);
    } else {
      assert left == [left[0]] + left[1..];
      if left[0] in right {
        CancelReportIsRemoveEach(left[1..], RemoveFirst(right, left[0]), none);
        RemoveEachPull(left, right, left[0]);
        assert RemoveFirst(left, left[0]) == left[1..];
      } else {
        CancelReportIsRemoveEach(left[1..], right, none);
        RemoveEachKeepsHead(left[0], left[1..], right);
        assert !none(left[0]);
        assert Cancel(left, right, none).0 == [left[0]] + Cancel(left[1..], right, none).0;
      }
    }
  }

  /** Swapping the sides swaps the reports, element for element and in order: each side keeps
      the occurrences of a key after the first ones the other side cancels. */
  lemma DiffSwapSymmetry<T(!new)>(left: seq<T>, right: seq<T>)
    ensures DiffOf(left, right, Noop()).onlyInLeft == DiffOf(right, left, Noop()).onlyInRight
    ensures DiffOf(left, right, Noop()).onlyInRight == DiffOf(right, left, Noop()).onlyInLeft
  {
    var f: MismatchFilter<T> := Noop();
    CancelReportIsRemoveEach(left, right, f.ignoreInLeft);
    CancelReportIsRemoveEach(right, left, f.ignoreInLeft);
    CancelRemainderIsRemoveEach(left, right, f.ignoreInLeft);
    CancelRemainderIsRemoveEach(right, left, f.ignoreInLeft);
    RejectNothing(Cancel(left, right, f.ignoreInLeft).1, f.ignoreInRight);
    RejectNothing(Cancel(right, left, f.ignoreInLeft).1, f.ignoreInRight);
  }

  /** One "a" on the right cancels one of the two on the left; the other one is reported. */
  lemma DuplicateExample()
    ensures DiffOf(["a", "a", "b"], ["a", "b"], Noop()) == Diff(["a"], [])
  {
    var f := Noop<string>();
    assert ["a", "a", "b"][1..] == ["a", "b"];
    assert ["a", "b"][1..] == ["b"];
    assert RemoveFirst(["a", "b"], "a") == ["b"];
    assert RemoveFirst(["b"], "b") == [];
    assert Cancel(["b"], ["b"], f.ignoreInLeft) == ([], []);
    assert !f.ignoreInLeft("a") && "a" !in ["b"];
    assert ["a"] + [] == ["a"];
    assert Cancel(["a", "b"], ["b"], f.ignoreInLeft) == (["a"], []);
  }
}
