/** `PomDiffer`: compares the resolved dependencies of one artifact on both sides. */
module PomDiffer {
  import opened Paths
  import opened Results
  import opened Sequences
  import opened MismatchFilters
  import opened Dependencies
  import opened Deployments
  import DiffUtils

  /** The scopes that take part when none are given. */
  const DefaultScopes: seq<string> := ["compile", "compile+runtime", "runtime"]

  /** The same artifact: artifact id, group id, version and classifier all equal. */
  predicate IsSimilarArtifact(left: Dependency, that: Dependency)
    ensures IsSimilarArtifact(left, that) <==> left.(scope := that.scope, optional := that.optional) == that
  {
    left.artifactId == that.artifactId && left.groupId == that.groupId
    && left.version == that.version && left.classifier == that.classifier
  }

  /** The same artifact, in the same scope, with the same optional flag (an unset flag reads as
      false). A different version is a different dependency. */
  predicate IsSimilarDependency(left: Dependency, right: Dependency)
    ensures IsSimilarDependency(left, right)
            <==> left.(optional := right.optional) == right && left.IsOptional() == right.IsOptional()
  {
    IsSimilarArtifact(left, right) && left.scope == right.scope && left.IsOptional() == right.IsOptional()
  }

  /** The record with its optional flag made explicit. */
  function Normalised(d: Dependency): (n: Dependency)
    ensures n.optional.Some? && n.IsOptional() == d.IsOptional()
  {
    d.(optional := Some(d.IsOptional()))
  }

  /** Two dependencies are similar exactly when they are equal once their optional flags are made
      explicit; hence similarity is reflexive, symmetric and transitive, and on records whose flag is
      set it is plain equality. */
  lemma SimilarIffEqualNormalised(a: Dependency, b: Dependency, c: Dependency)
    ensures IsSimilarDependency(a, b) <==> Normalised(a) == Normalised(b)
    ensures IsSimilarDependency(a, a)
    ensures IsSimilarDependency(a, b) ==> IsSimilarDependency(b, a)
    ensures IsSimilarDependency(a, b) && IsSimilarDependency(b, c) ==> IsSimilarDependency(a, c)
    ensures a.optional.Some? && b.optional.Some? ==> (IsSimilarDependency(a, b) <==> a == b)
  {
    if a.optional.Some? && b.optional.Some? && IsSimilarDependency(a, b) {
      if a.optional.value {
        assert b.optional.value;
      } else {
        assert !b.optional.value;
      }
    }
  }

  /** `foundIn`: the first dependency of `dependencies` similar to `target`, if any. */
  function FoundIn(dependencies: seq<Dependency>, target: Dependency): (r: Option<Dependency>)
    ensures r.None? <==> forall i :: 0 <= i < |dependencies| ==> !IsSimilarDependency(target, dependencies[i])
    ensures r.Some? ==> exists i :: 0 <= i < |dependencies| && dependencies[i] == r.value
                          && IsSimilarDependency(target, r.value)
                          && forall j :: 0 <= j < i ==> !IsSimilarDependency(target, dependencies[j])
  {
    if dependencies == [] then None
    else if IsSimilarDependency(target, dependencies[0]) then Some(dependencies[0])
    else
      var r := FoundIn(dependencies[1..], target);
      assert forall i :: 1 <= i < |dependencies| ==> dependencies[i] == dependencies[1..][i - 1];
      if r.Some? then
        assert exists i :: 1 <= i < |dependencies| && dependencies[i] == r.value
                          && IsSimilarDependency(target, r.value)
                          && forall j :: 0 <= j < i ==> !IsSimilarDependency(target, dependencies[j]) by {
          var k :| 0 <= k < |dependencies[1..]| && dependencies[1..][k] == r.value
                   && IsSimilarDependency(target, r.value)
                   && forall j :: 0 <= j < k ==> !IsSimilarDependency(target, dependencies[1..][j]);
          assert dependencies[k + 1] == r.value;
        }
        r
      else r
  }

  /** What the loop of `diff` leaves behind: the unmatched, unsuppressed left dependencies, and the
      right working list once each left dependency has removed its first similar counterpart. */
  function PomCancel(left: seq<Dependency>, right: seq<Dependency>, ignoreInLeft: Dependency -> bool)
    : (seq<Dependency>, seq<Dependency>)
  {
    if left == [] then ([], right)
    else match FoundIn(right, left[0])
      case Some(matching) => PomCancel(left[1..], RemoveFirst(right, matching), ignoreInLeft)
      case None =>
        var rest := PomCancel(left[1..], right, ignoreInLeft);
        (if ignoreInLeft(left[0]) then rest.0 else [left[0]] + rest.0, rest.1)
  }

  /** The dependencies only on each side. There is no category for a pair that differs. */
  datatype PomDiff = PomDiff(onlyInLeft: seq<Dependency>, onlyInRight: seq<Dependency>)
  {
    /** Whether neither side has a dependency the other lacks. */
    predicate HasSameEntries()
      ensures HasSameEntries() <==> |onlyInLeft| + |onlyInRight| == 0
    {
      onlyInLeft == [] && onlyInRight == []
    }
  }

  /** The result of comparing two already resolved dependency lists. */
  function PomDiffOf(left: seq<Dependency>, right: seq<Dependency>, filter: MismatchFilter<Dependency>): PomDiff
  {
    var c := PomCancel(left, right, filter.ignoreInLeft);
    PomDiff(c.0, Reject(c.1, filter.ignoreInRight))
  }

  /** The dependencies whose scope is one of `scopes`, in order. */
  function InScope(dependencies: seq<Dependency>, scopes: seq<string>): (r: seq<Dependency>)
    ensures forall d :: d in r <==> d in dependencies && d.scope in scopes
  {
    Filter(dependencies, (d: Dependency) => d.scope in scopes)
  }

  /** Dependency resolution for (local repository, group id, artifact id, version). */
  type Resolver = (Path, string, string, string) -> Result<seq<Dependency>>

  datatype PomDiffer = PomDiffer(groupDeployment: GroupDeployment, scopesToInclude: seq<string>,
                                 filter: MismatchFilter<Dependency>)
  {
    /** `resolveDependencies`: the dependencies of the artifact of this group and version, as
        resolved against `localRepository`, restricted to the included scopes. */
    function ResolveDependencies(resolve: Resolver, localRepository: Path, artifactId: string)
      : (r: Result<seq<Dependency>>)
      ensures r.Ok? <==> resolve(localRepository, groupDeployment.groupId, artifactId, groupDeployment.Version()).Ok?
      ensures r.Ok? ==> r.value == InScope(resolve(localRepository, groupDeployment.groupId, artifactId,
                                                   groupDeployment.Version()).value, scopesToInclude)
    {
      match resolve(localRepository, groupDeployment.groupId, artifactId, groupDeployment.Version())
      case Err(e) => Err(e)
      case Ok(dependencies) => Ok(InScope(dependencies, scopesToInclude))
    }

    /** What `diff(artifactId)` returns: both sides resolved against their roots, then compared. */
    function DiffResult(resolve: Resolver, artifactId: string): Result<PomDiff>
    {
      match ResolveDependencies(resolve, groupDeployment.LeftRoot(), artifactId)
      case Err(e) => Err(e)
      case Ok(left) =>
        match ResolveDependencies(resolve, groupDeployment.RightRoot(), artifactId)
        case Err(e) => Err(e)
        case Ok(right) => Ok(PomDiffOf(left, right, filter))
    }

    /** `diff`: each left dependency removes the first similar dependency still on the right, or
        is reported as only on the left unless the filter suppresses it; what remains on the right,
        less what the filter suppresses, is only on the right. */
    method Diff(resolve: Resolver, artifactId: string) returns (r: Result<PomDiff>)
      ensures r == DiffResult(resolve, artifactId)
    {
      var leftResult := ResolveDependencies(resolve, groupDeployment.LeftRoot(), artifactId);
      if leftResult.Err? {
        return Err(leftResult.error);
      }
      var rightResult := ResolveDependencies(resolve, groupDeployment.RightRoot(), artifactId);
      if rightResult.Err? {
        return Err(rightResult.error);
      }
      var left := leftResult.value;
      var right := rightResult.value;
      assert DiffResult(resolve, artifactId) == Ok(PomDiffOf(left, right, filter));
      var onlyInLeft;
      onlyInLeft, right := CancelSimilar(left, right, filter.ignoreInLeft);
      r := Ok(PomDiff(onlyInLeft, Reject(right, filter.ignoreInRight)));
    }
  }

  /** The loop of `diff` over a working copy of the right list: each left dependency removes the
      first similar dependency still there, or is reported unless `ignoreInLeft` suppresses it. */
  method CancelSimilar(left: seq<Dependency>, right: seq<Dependency>, ignoreInLeft: Dependency -> bool)
    returns (onlyInLeft: seq<Dependency>, remaining: seq<Dependency>)
    ensures (onlyInLeft, remaining) == PomCancel(left, right, ignoreInLeft)
  {
    remaining := right;
    onlyInLeft := [];
    PomLoopStart(left, right, ignoreInLeft);
    for i := 0 to |left|
      invariant PomLoop(left, right, ignoreInLeft, i, onlyInLeft, remaining)
    {
      var dependency := left[i];
      var matching := FoundIn(remaining, dependency);
      PomLoopStep(left, right, ignoreInLeft, i, onlyInLeft, remaining);
      if matching.Some? {
        remaining := RemoveFirst(remaining, matching.value);
      } else if !ignoreInLeft(dependency) {
        onlyInLeft := onlyInLeft + [dependency];
      }
    }
    PomLoopEnd(left, right, ignoreInLeft, onlyInLeft, remaining);
  }

  /** The invariant of the loop of `diff` after `i` left dependencies: what is reported so far,
      followed by what the rest of the left list reports against the remaining right list, is the
      whole report, and the remaining right list is what the whole cancellation leaves. */
  ghost predicate PomLoop(left: seq<Dependency>, right: seq<Dependency>, ignoreInLeft: Dependency -> bool,
                          i: nat, onlyInLeft: seq<Dependency>, remaining: seq<Dependency>)
  {
    i <= |left|
    && PomCancel(left, right, ignoreInLeft)
       == (onlyInLeft + PomCancel(left[i..], remaining, ignoreInLeft).0, PomCancel(left[i..], remaining, ignoreInLeft).1)
  }

  lemma PomLoopStart(left: seq<Dependency>, right: seq<Dependency>, ignoreInLeft: Dependency -> bool)
    ensures PomLoop(left, right, ignoreInLeft, 0, [], right)
  {
    assert left[0..] == left;
    assert [] + PomCancel(left, right, ignoreInLeft).0 == PomCancel(left, right, ignoreInLeft).0;
  }

  lemma PomLoopStep(left: seq<Dependency>, right: seq<Dependency>, ignoreInLeft: Dependency -> bool,
                    i: nat, onlyInLeft: seq<Dependency>, remaining: seq<Dependency>)
    requires i < |left| && PomLoop(left, right, ignoreInLeft, i, onlyInLeft, remaining)
    ensures var m := FoundIn(remaining, left[i]);
      PomLoop(left, right, ignoreInLeft, i + 1,
              if m.None? && !ignoreInLeft(left[i]) then onlyInLeft + [left[i]] else onlyInLeft,
              if m.Some? then RemoveFirst(remaining, m.value) else remaining)
  {
    PomCancelStep(left, i, remaining, ignoreInLeft);
    var m := FoundIn(remaining, left[i]);
    if m.None? && !ignoreInLeft(left[i]) {
      var rest := PomCancel(left[i + 1..], remaining, ignoreInLeft).0;
      assert onlyInLeft + ([left[i]] + rest) == (onlyInLeft + [left[i]]) + rest;
    }
  }

  lemma PomLoopEnd(left: seq<Dependency>, right: seq<Dependency>, ignoreInLeft: Dependency -> bool,
                   onlyInLeft: seq<Dependency>, remaining: seq<Dependency>)
    requires PomLoop(left, right, ignoreInLeft, |left|, onlyInLeft, remaining)
    ensures (onlyInLeft, remaining) == PomCancel(left, right, ignoreInLeft)
  {
    assert left[|left|..] == [];
    assert PomCancel(left[|left|..], remaining, ignoreInLeft) == ([], remaining);
    assert onlyInLeft + [] == onlyInLeft;
  }

  /** The two-argument constructor: the filter is the deployment's dependency filter. */
  function NewPomDiffer(groupDeployment: GroupDeployment, scopesToInclude: seq<string>): (p: PomDiffer)
    ensures p.groupDeployment == groupDeployment && p.scopesToInclude == scopesToInclude
    ensures p.filter == groupDeployment.deployment.pomMismatchFilter
  {
    PomDiffer(groupDeployment, scopesToInclude, groupDeployment.deployment.pomMismatchFilter)
  }

  /** The one-argument constructor: compile, compile+runtime and runtime scopes only, so for
      instance test and provided dependencies never take part. */
  function NewDefaultPomDiffer(groupDeployment: GroupDeployment): (p: PomDiffer)
    ensures p.groupDeployment == groupDeployment
    ensures p.filter == groupDeployment.deployment.pomMismatchFilter
    ensures forall s :: s in p.scopesToInclude <==> s == "compile" || s == "compile+runtime" || s == "runtime"
  {
    NewPomDiffer(groupDeployment, DefaultScopes)
  }

  /** One turn of the loop of `diff`. */
  lemma PomCancelStep(left: seq<Dependency>, i: nat, right: seq<Dependency>, ignoreInLeft: Dependency -> bool)
    requires i < |left|
    ensures var m := FoundIn(right, left[i]);
      m.Some? ==> PomCancel(left[i..], right, ignoreInLeft) == PomCancel(left[i + 1..], RemoveFirst(right, m.value), ignoreInLeft)
    ensures var m := FoundIn(right, left[i]);
      var rest := PomCancel(left[i + 1..], right, ignoreInLeft);
      m.None? ==> PomCancel(left[i..], right, ignoreInLeft) == (if ignoreInLeft(left[i]) then rest.0 else [left[i]] + rest.0, rest.1)
  {
    assert left[i..][1..] == left[i + 1..];
  }

  /** Order and filtering: both reports keep input order, no reported left dependency is
      suppressed by the left predicate, and no reported left dependency has a similar dependency
      left on the right. */
  lemma {:induction false} PomCancelFacts(left: seq<Dependency>, right: seq<Dependency>, ignoreInLeft: Dependency -> bool)
    ensures IsSubsequence(PomCancel(left, right, ignoreInLeft).0, left)
    ensures IsSubsequence(PomCancel(left, right, ignoreInLeft).1, right)
    ensures forall x :: x in PomCancel(left, right, ignoreInLeft).0 ==> !ignoreInLeft(x)
    ensures forall x, y :: x in PomCancel(left, right, ignoreInLeft).0 && y in PomCancel(left, right, ignoreInLeft).1
                           ==> !IsSimilarDependency(x, y)
  {
    if left == [] {
      SubsequenceRefl(right);
    } else {
      var k := left[0];
      assert left == [k] + left[1..];
      match FoundIn(right, k)
      case Some(matching) =>
        var r' := RemoveFirst(right, matching);
        PomCancelFacts(left[1..], r', ignoreInLeft);
        RemoveFirstSubsequence(right, matching);
        SubsequenceTrans(PomCancel(left[1..], r', ignoreInLeft).1, r', right);
        SubsequenceCons(k, PomCancel(left[1..], r', ignoreInLeft).0, left[1..]);
      case None =>
        var rest := PomCancel(left[1..], right, ignoreInLeft);
        PomCancelFacts(left[1..], right, ignoreInLeft);
        SubsequenceCons(k, rest.0, left[1..]);
        SubsequenceMembers(rest.1, right);
    }
  }

  /** Counting: every left dependency is either reported, suppressed, or removes exactly one
      right dependency; without a left predicate nothing is suppressed. */
  lemma {:induction false} PomCancelCounts(left: seq<Dependency>, right: seq<Dependency>, ignoreInLeft: Dependency -> bool)
    ensures |PomCancel(left, right, ignoreInLeft).1| <= |right|
    ensures |PomCancel(left, right, ignoreInLeft).0| + (|right| - |PomCancel(left, right, ignoreInLeft).1|) <= |left|
    ensures (forall x :: x in left ==> !ignoreInLeft(x))
            ==> |PomCancel(left, right, ignoreInLeft).0| + (|right| - |PomCancel(left, right, ignoreInLeft).1|) == |left|
  {
    if left != [] {
      var k := left[0];
      assert forall x :: x in left[1..] ==> x in left;
      match FoundIn(right, k)
      case Some(matching) =>
        assert matching in right;
        PomCancelCounts(left[1..], RemoveFirst(right, matching), ignoreInLeft);
      case None =>
        PomCancelCounts(left[1..], right, ignoreInLeft);
    }
  }

  /** The diff reports, in input order, only unsuppressed dependencies, none of which has a
      similar counterpart among the right dependencies it reports. */
  lemma PomDiffFacts(left: seq<Dependency>, right: seq<Dependency>, filter: MismatchFilter<Dependency>)
    ensures var d := PomDiffOf(left, right, filter);
      && IsSubsequence(d.onlyInLeft, left) && IsSubsequence(d.onlyInRight, right)
      && (forall x :: x in d.onlyInLeft ==> !filter.ignoreInLeft(x))
      && (forall y :: y in d.onlyInRight ==> !filter.ignoreInRight(y))
      && (forall x, y :: x in d.onlyInLeft && y in d.onlyInRight ==> !IsSimilarDependency(x, y))
  {
    var c := PomCancel(left, right, filter.ignoreInLeft);
    PomCancelFacts(left, right, filter.ignoreInLeft);
    RejectFacts(c.1, filter.ignoreInRight);
    SubsequenceTrans(Reject(c.1, filter.ignoreInRight), c.1, right);
  }

  /** Suppressing on the left commutes with cancelling similar dependencies. */
  lemma {:induction false} PomCancelThenSuppress(left: seq<Dependency>, right: seq<Dependency>,
                                                 p: Dependency -> bool, none: Dependency -> bool)
    requires forall k :: !none(k)
    ensures PomCancel(left, right, p).0 == Reject(PomCancel(left, right, none).0, p)
    ensures PomCancel(left, right, p).1 == PomCancel(left, right, none).1
  {
    if left != [] {
      match FoundIn(right, left[0])
      case Some(matching) =>
        PomCancelThenSuppress(left[1..], RemoveFirst(right, matching), p, none);
      case None =>
        PomCancelThenSuppress(left[1..], right, p, none);
        var rest := PomCancel(left[1..], right, none).0;
        assert ([left[0]] + rest)[1..] == rest;
    }
  }

  /** A filter only removes dependencies from the no-op comparison: each side's report is the
      no-op report of that side, less what that side's predicate suppresses, in the same order. */
  lemma PomFilteredIsSuppressedNoop(left: seq<Dependency>, right: seq<Dependency>, filter: MismatchFilter<Dependency>)
    ensures PomDiffOf(left, right, filter).onlyInLeft == Reject(PomDiffOf(left, right, Noop()).onlyInLeft, filter.ignoreInLeft)
    ensures PomDiffOf(left, right, filter).onlyInRight == Reject(PomDiffOf(left, right, Noop()).onlyInRight, filter.ignoreInRight)
  {
    var noop: MismatchFilter<Dependency> := Noop();
    PomCancelThenSuppress(left, right, filter.ignoreInLeft, noop.ignoreInLeft);
    RejectNothing(PomCancel(left, right, noop.ignoreInLeft).1, noop.ignoreInRight);
  }

  /** When every dependency states its optional flag, similarity is equality and the dependency
      diff is exactly the generic diff. */
  /** With every `optional` flag set, the similar dependency found for a listed one is itself. */
  lemma FoundInSetFlags(right: seq<Dependency>, k: Dependency)
    requires forall d :: d in right ==> d.optional.Some?
    requires k.optional.Some?
    ensures k in right ==> FoundIn(right, k) == Some(k)
    ensures k !in right ==> FoundIn(right, k).None?
  {
    if k in right {
      var i :| 0 <= i < |right| && right[i] == k;
      assert IsSimilarDependency(k, right[i]);
      var matching := FoundIn(right, k);
      var j :| 0 <= j < |right| && right[j] == matching.value && IsSimilarDependency(k, matching.value);
      SimilarIffEqualNormalised(k, right[j], k);
    } else {
      forall i | 0 <= i < |right|
        ensures !IsSimilarDependency(k, right[i])
      {
        SimilarIffEqualNormalised(k, right[i], k);
      }
    }
  }

  lemma {:induction false} PomCancelIsCancel(left: seq<Dependency>, right: seq<Dependency>, ignoreInLeft: Dependency -> bool)
    requires forall d :: d in left ==> d.optional.Some?
    requires forall d :: d in right ==> d.optional.Some?
    ensures PomCancel(left, right, ignoreInLeft) == DiffUtils.Cancel(left, right, ignoreInLeft)
  {
    if left != [] {
      var k := left[0];
      assert forall x :: x in left[1..] ==> x in left;
      FoundInSetFlags(right, k);
      if k in right {
        var r' := RemoveFirst(right, k);
        assert forall x :: x in r' ==> x in multiset(r');
        PomCancelIsCancel(left[1..], r', ignoreInLeft);
      } else {
        PomCancelIsCancel(left[1..], right, ignoreInLeft);
      }
    }
  }


  lemma PomDiffIsDiff(left: seq<Dependency>, right: seq<Dependency>, filter: MismatchFilter<Dependency>)
    requires forall d :: d in left ==> d.optional.Some?
    requires forall d :: d in right ==> d.optional.Some?
    ensures PomDiffOf(left, right, filter).onlyInLeft == DiffUtils.DiffOf(left, right, filter).onlyInLeft
    ensures PomDiffOf(left, right, filter).onlyInRight == DiffUtils.DiffOf(left, right, filter).onlyInRight
  {
    PomCancelIsCancel(left, right, filter.ignoreInLeft);
  }

  /** A version drift is no mismatch pair: the old version is only on the left and the new one
      only on the right. */
  lemma VersionDriftExample(d: Dependency, newVersion: string)
    requires newVersion != d.version
    ensures var drifted := d.(version := newVersion);
      PomDiffOf([d], [drifted], Noop()) == PomDiff([d], [drifted])
  {
    var drifted := d.(version := newVersion);
    var f: MismatchFilter<Dependency> := Noop();
    assert FoundIn([drifted], d).None?;
    assert !f.ignoreInLeft(d) && !f.ignoreInRight(drifted);
    assert [d][1..] == [];
    assert [d] + [] == [d];
    assert PomCancel([d], [drifted], f.ignoreInLeft) == ([d], [drifted]);
    assert [drifted][1..] == [];
    assert [drifted] == [drifted] + [];
    assert Reject([drifted], f.ignoreInRight) == [drifted];
  }

  /** A dependency whose flag is unset and its copy whose flag is false cancel each other. */
  lemma UnsetOptionalExample(d: Dependency)
    requires d.optional == None
    ensures PomDiffOf([d], [d.(optional := Some(false))], Noop()).HasSameEntries()
  {
    var other := d.(optional := Some(false));
    assert FoundIn([other], d) == Some(other);
    assert [d][1..] == [];
    assert [other][1..] == [];
    assert RemoveFirst([other], other) == [];
    assert PomCancel([d], [other], Noop<Dependency>().ignoreInLeft) == ([], []);
  }
}
