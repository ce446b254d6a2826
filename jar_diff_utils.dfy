/** `JarDiffUtils`: the three-way comparison of two manifests' main attributes. */
module JarDiffUtils {
  import opened Paths
  import opened Results
  import opened FileSystems

  /** The manifest resource every archive is read from. */
  const ManifestLocation: string := "META-INF/MANIFEST.MF"

  /** A key present on both sides with different values. */
  datatype ValueMismatch = ValueMismatch(key: string, leftValue: string, rightValue: string)
  {
    /** `'key': 'leftValue' (leftName) vs. 'rightValue' (rightName)` */
    function ToDescription(leftName: string, rightName: string): (d: string)
      ensures |key| + 2 <= |d| && d[..|key| + 2] == "'" + key + "'"
    {
      "'" + key + "': '" + leftValue + "' (" + leftName + ") vs. '" + rightValue + "' (" + rightName + ")"
    }
  }

  /** The value-mismatch record for a key; the default way to report one. */
  function Mismatch(key: string, leftValue: string, rightValue: string): (m: ValueMismatch)
    ensures m.key == key && m.leftValue == leftValue && m.rightValue == rightValue
  {
    ValueMismatch(key, leftValue, rightValue)
  }

  /** The three outcomes of a manifest comparison. The source builds lists in hash-map iteration
      order; here they are sets, since no key is reported twice and no order is promised. Each
      value mismatch is reported as an `M`, built from the key and both values. */
  datatype ManifestDiff<M> = ManifestDiff(onlyInLeft: set<string>, onlyInRight: set<string>, valueMismatches: set<M>)
  {
    predicate HasSameEntries()
      ensures HasSameEntries() <==> |onlyInLeft| + |onlyInRight| + |valueMismatches| == 0
    {
      onlyInLeft == {} && onlyInRight == {} && valueMismatches == {}
    }
  }

  /** The keys among `keys` present on both sides with different values, each rendered. */
  function MismatchesAmong<M>(left: map<string, string>, right: map<string, string>, keys: set<string>,
                              render: (string, string, string) -> M): set<M>
  {
    set k | k in keys && k in left && k in right && left[k] != right[k] :: render(k, left[k], right[k])
  }

  lemma MismatchesAmongAdd<M>(left: map<string, string>, right: map<string, string>, keys: set<string>, key: string,
                              render: (string, string, string) -> M)
    requires key in left
    ensures MismatchesAmong(left, right, keys + {key}, render)
         == MismatchesAmong(left, right, keys, render)
            + (if key in right && left[key] != right[key] then {render(key, left[key], right[key])} else {})
  {
  }

  lemma MismatchMember<M>(left: map<string, string>, right: map<string, string>, keys: set<string>, key: string,
                          render: (string, string, string) -> M)
    requires key in keys && key in left && key in right && left[key] != right[key]
    ensures render(key, left[key], right[key]) in MismatchesAmong(left, right, keys, render)
  {
  }

  /** What the comparison of `left` with `right` reports. */
  function ManifestDiffOf<M>(left: map<string, string>, right: map<string, string>,
                             render: (string, string, string) -> M): ManifestDiff<M>
  {
    ManifestDiff(left.Keys - right.Keys, right.Keys - left.Keys, MismatchesAmong(left, right, left.Keys, render))
  }

  /** The loop of `diffManifest` (in `JarDiffUtils` and, with string messages, in `JarDiffer`):
      visits every left attribute once, in an unspecified order; a key missing on the right is
      only in the left side, a key on both sides is removed from the right working map and
      reported when its values differ; what is left of the right map is only in the right side. */
  method DiffAttributes<M>(left: map<string, string>, right: map<string, string>,
                           render: (string, string, string) -> M) returns (d: ManifestDiff<M>)
    ensures d == ManifestDiffOf(left, right, render)
  {
    var rightEntries := right;
    var onlyInLeft: set<string> := {};
    var valueMismatches: set<M> := {};
    var toVisit := left.Keys;
    ghost var visited: set<string> := {};
    assert MismatchesAmong(left, right, visited, render) == {};
    assert right.Keys - visited == right.Keys && visited - right.Keys == {};
    while toVisit != {}
      invariant ManifestLoop(left, right, toVisit, visited, rightEntries, onlyInLeft, valueMismatches, render)
      decreases |toVisit|
    {
      var key :| key in toVisit;
      ManifestLoopStep(left, right, toVisit, visited, rightEntries, onlyInLeft, valueMismatches, render, key);
      if key !in rightEntries {
        onlyInLeft := onlyInLeft + {key};
      } else {
        var value := rightEntries[key];
        if value != left[key] {
          valueMismatches := valueMismatches + {render(key, left[key], value)};
        }
        rightEntries := rightEntries - {key};
      }
      toVisit := toVisit - {key};
      visited := visited + {key};
    }
    assert visited == left.Keys;
    d := ManifestDiff(onlyInLeft, rightEntries.Keys, valueMismatches);
  }

  /** The state of the loop of `diffManifest` after visiting the left keys `visited`. */
  ghost predicate ManifestLoop<M>(left: map<string, string>, right: map<string, string>, toVisit: set<string>,
                                  visited: set<string>, rightEntries: map<string, string>, onlyInLeft: set<string>,
                                  valueMismatches: set<M>, render: (string, string, string) -> M)
  {
    && toVisit + visited == left.Keys && toVisit !! visited
    && rightEntries.Keys == right.Keys - visited
    && (forall k :: k in rightEntries ==> rightEntries[k] == right[k])
    && onlyInLeft == visited - right.Keys
    && valueMismatches == MismatchesAmong(left, right, visited, render)
  }

  /** Visiting one more left key keeps the loop state. */
  lemma ManifestLoopStep<M>(left: map<string, string>, right: map<string, string>, toVisit: set<string>,
                            visited: set<string>, rightEntries: map<string, string>, onlyInLeft: set<string>,
                            valueMismatches: set<M>, render: (string, string, string) -> M, key: string)
    requires ManifestLoop(left, right, toVisit, visited, rightEntries, onlyInLeft, valueMismatches, render)
    requires key in toVisit
    ensures key in left && (key in rightEntries <==> key in right)
    ensures key !in rightEntries ==>
      ManifestLoop(left, right, toVisit - {key}, visited + {key}, rightEntries, onlyInLeft + {key}, valueMismatches, render)
    ensures key in rightEntries && rightEntries[key] != left[key] ==>
      ManifestLoop(left, right, toVisit - {key}, visited + {key}, rightEntries - {key}, onlyInLeft,
                   valueMismatches + {render(key, left[key], rightEntries[key])}, render)
    ensures key in rightEntries && rightEntries[key] == left[key] ==>
      ManifestLoop(left, right, toVisit - {key}, visited + {key}, rightEntries - {key}, onlyInLeft, valueMismatches, render)
  {
    MismatchesAmongAdd(left, right, visited, key, render);
    assert (toVisit - {key}) + (visited + {key}) == toVisit + visited;
    if key !in rightEntries {
      assert (visited + {key}) - right.Keys == (visited - right.Keys) + {key};
      assert right.Keys - (visited + {key}) == right.Keys - visited;
    } else {
      assert (visited + {key}) - right.Keys == visited - right.Keys;
      assert (rightEntries - {key}).Keys == right.Keys - (visited + {key});
    }
  }

  /** `JarDiffUtils.diffManifest`: reads both manifests, then compares their main attributes. */
  method DiffManifest(fs: FileSystem, leftJar: Path, rightJar: Path) returns (r: Result<ManifestDiff<ValueMismatch>>)
    ensures r.Ok? <==> fs.ReadManifest(leftJar).Ok? && fs.ReadManifest(rightJar).Ok?
    ensures r.Ok? ==> r.value == ManifestDiffOf(fs.ReadManifest(leftJar).value, fs.ReadManifest(rightJar).value, Mismatch)
    ensures r.Err? && fs.ReadManifest(leftJar).Err? ==> r.error == fs.ReadManifest(leftJar).error
  {
    var leftManifest := fs.ReadManifest(leftJar);
    if leftManifest.Err? {
      return Err(leftManifest.error);
    }
    var rightManifest := fs.ReadManifest(rightJar);
    if rightManifest.Err? {
      return Err(rightManifest.error);
    }
    var d := DiffAttributes(leftManifest.value, rightManifest.value, Mismatch);
    r := Ok(d);
  }

  /** Every key is reported at most once: on the left only, on the right only, or as a value
      mismatch; a key on both sides with equal values is not reported at all, and every other key
      of either side is. Stated for `ValueMismatch` records, whose key and values it reads; the
      lemmas of this module that do not look inside a mismatch hold for any rendering. */
  lemma ManifestPartition(left: map<string, string>, right: map<string, string>, k: string)
    ensures var d := ManifestDiffOf(left, right, Mismatch);
      && (k in d.onlyInLeft <==> k in left && k !in right)
      && (k in d.onlyInRight <==> k in right && k !in left)
      && ((exists m :: m in d.valueMismatches && m.key == k) <==> k in left && k in right && left[k] != right[k])
      && (k in d.onlyInLeft ==> k !in d.onlyInRight)
      && (k in left && k in right ==> k !in d.onlyInLeft && k !in d.onlyInRight)
      && (forall m :: m in d.valueMismatches ==> m.key in left && m.key in right
                                                 && m == ValueMismatch(m.key, left[m.key], right[m.key])
                                                 && m.leftValue != m.rightValue)
  {
    var d := ManifestDiffOf(left, right, Mismatch);
    if k in left && k in right && left[k] != right[k] {
      MismatchMember(left, right, left.Keys, k, Mismatch);
    }
  }

  /** Two manifests compare as identical exactly when their main attributes are equal. */
  lemma SameEntriesIffEqual<M>(left: map<string, string>, right: map<string, string>,
                               render: (string, string, string) -> M)
    ensures ManifestDiffOf(left, right, render).HasSameEntries() <==> left == right
  {
    var d := ManifestDiffOf(left, right, render);
    forall k | k in left && k in right && left[k] != right[k]
      ensures render(k, left[k], right[k]) in d.valueMismatches
    {
      MismatchMember(left, right, left.Keys, k, render);
    }
    if d.HasSameEntries() {
      assert left.Keys == right.Keys by {
        assert left.Keys - right.Keys == {} && right.Keys - left.Keys == {};
      }
    }
  }

  /** {A: 1, B: 2} against {A: 9, C: 3}: A mismatches, B is only on the left, C only on the right. */
  lemma ThreeWayExample()
    ensures ManifestDiffOf(map["A" := "1", "B" := "2"], map["A" := "9", "C" := "3"], Mismatch)
         == ManifestDiff({"B"}, {"C"}, {ValueMismatch("A", "1", "9")})
  {
    var left := map["A" := "1", "B" := "2"];
    var right := map["A" := "9", "C" := "3"];
    assert left.Keys == {"A", "B"} && right.Keys == {"A", "C"};
    assert left.Keys - right.Keys == {"B"};
    assert right.Keys - left.Keys == {"C"};
    assert MismatchesAmong(left, right, left.Keys, Mismatch) == {ValueMismatch("A", "1", "9")} by {
      assert Mismatch("A", "1", "9") in MismatchesAmong(left, right, left.Keys, Mismatch);
    }
  }
}
