/** `JarDiffer`: compares one pair of archives of a module, entries first, then manifests. */
module JarDiffer {
  import opened Paths
  import opened Results
  import opened FileSystems
  import opened MismatchFilters
  import opened DiffUtils
  import opened JarDiffUtils
  import opened Deployments

  /** The label of an archive in the log: "main" for the archive without classifier, the quoted
      classifier otherwise. */
  function JarType(classifier: string): (t: string)
    ensures t == "main" <==> classifier == ""
    ensures classifier != "" ==> t == "'" + classifier + "'"
  {
    if classifier == "" then "main"
    else
      var quoted := "'" + classifier + "'";
      assert quoted[0] == '\'' != "main"[0];
      quoted
  }

  /** A generic value mismatch as this differ logs it: its description behind a fixed prefix. */
  function Logged(m: ValueMismatch, leftName: string, rightName: string): string
  {
    "Value mismatch for " + m.ToDescription(leftName, rightName)
  }

  /** How this differ reports a value mismatch: a message naming the key, both values and the
      names of both sides. */
  function MismatchMessage(leftName: string, rightName: string): (render: (string, string, string) -> string)
    ensures forall key, leftValue, rightValue :: render(key, leftValue, rightValue)
              == Logged(ValueMismatch(key, leftValue, rightValue), leftName, rightName)
  {
    (key, leftValue, rightValue) =>
      "Value mismatch for '" + key + "': '" + leftValue + "' (" + leftName + ") vs. '"
      + rightValue + "' (" + rightName + ")"
  }

  /** The message is the generic mismatch's description behind a fixed prefix. */
  lemma {:induction false} MismatchMessageIsDescription(leftName: string, rightName: string, key: string,
                                                        leftValue: string, rightValue: string)
    ensures MismatchMessage(leftName, rightName)(key, leftValue, rightValue)
         == "Value mismatch for " + ValueMismatch(key, leftValue, rightValue).ToDescription(leftName, rightName)
  {
  }

  /** Every message of this differ describes one generic value mismatch. */
  lemma MessagesAreDescribedMismatches(left: map<string, string>, right: map<string, string>,
                                       leftName: string, rightName: string, s: string)
    requires s in ManifestDiffOf(left, right, MismatchMessage(leftName, rightName)).valueMismatches
    ensures exists m :: m in ManifestDiffOf(left, right, Mismatch).valueMismatches
                        && s == Logged(m, leftName, rightName)
  {
    var k :| k in left && k in right && left[k] != right[k]
             && s == MismatchMessage(leftName, rightName)(k, left[k], right[k]);
    MismatchMember(left, right, left.Keys, k, Mismatch);
    assert Mismatch(k, left[k], right[k]) in ManifestDiffOf(left, right, Mismatch).valueMismatches;
  }

  /** Every generic value mismatch is described by one message of this differ. */
  lemma DescribedMismatchesAreMessages(left: map<string, string>, right: map<string, string>,
                                       leftName: string, rightName: string, m: ValueMismatch)
    requires m in ManifestDiffOf(left, right, Mismatch).valueMismatches
    ensures Logged(m, leftName, rightName) in ManifestDiffOf(left, right, MismatchMessage(leftName, rightName)).valueMismatches
  {
    var k := m.key;
    MismatchMember(left, right, left.Keys, k, MismatchMessage(leftName, rightName));
  }

  /** This differ's manifest comparison reports the same keys on each side as the generic one, and
      exactly one message per generic value mismatch. */
  lemma MessagesMatchMismatches(left: map<string, string>, right: map<string, string>, leftName: string, rightName: string)
    ensures var messages := ManifestDiffOf(left, right, MismatchMessage(leftName, rightName));
            var generic := ManifestDiffOf(left, right, Mismatch);
      && messages.onlyInLeft == generic.onlyInLeft && messages.onlyInRight == generic.onlyInRight
      && messages.valueMismatches
         == (set m | m in generic.valueMismatches :: Logged(m, leftName, rightName))
      && (messages.HasSameEntries() <==> generic.HasSameEntries())
  {
    var messages := ManifestDiffOf(left, right, MismatchMessage(leftName, rightName));
    var generic := ManifestDiffOf(left, right, Mismatch);
    var described := set m | m in generic.valueMismatches :: Logged(m, leftName, rightName);
    forall s | s in messages.valueMismatches
      ensures s in described
    {
      MessagesAreDescribedMismatches(left, right, leftName, rightName, s);
    }
    forall s | s in described
      ensures s in messages.valueMismatches
    {
      var m :| m in generic.valueMismatches && s == Logged(m, leftName, rightName);
      DescribedMismatchesAreMessages(left, right, leftName, rightName, m);
    }
    assert messages.valueMismatches == described;
    if generic.valueMismatches != {} {
      var m :| m in generic.valueMismatches;
      assert Logged(m, leftName, rightName) in described;
    }
  }

  /** What one archive comparison finds; each half is logged at error level when it is not
      identical, at debug level otherwise. */
  datatype JarReport = JarReport(jarType: string, entries: Diff<string>, manifest: ManifestDiff<string>)
  {
    function EntriesLevel(): (level: LogLevel)
      ensures level == ErrorLevel <==> !entries.HasSameEntries()
    {
      if entries.HasSameEntries() then DebugLevel else ErrorLevel
    }

    function ManifestLevel(): (level: LogLevel)
      ensures level == ErrorLevel <==> !manifest.HasSameEntries()
    {
      if manifest.HasSameEntries() then DebugLevel else ErrorLevel
    }
  }

  datatype JarDiffer = JarDiffer(deployment: Deployment, left: Path, right: Path, classifier: string)
  {
    /** What `diff(entriesFilter)` finds. */
    function ReportOf(fs: FileSystem, entriesFilter: MismatchFilter<string>): Result<JarReport>
    {
      match fs.Entries(left)
      case Err(e) => Err(e)
      case Ok(leftEntries) =>
        match fs.Entries(right)
        case Err(e) => Err(e)
        case Ok(rightEntries) =>
          match fs.ReadManifest(left)
          case Err(e) => Err(e)
          case Ok(leftManifest) =>
            match fs.ReadManifest(right)
            case Err(e) => Err(e)
            case Ok(rightManifest) =>
              Ok(JarReport(JarType(classifier), DiffOf(leftEntries, rightEntries, entriesFilter),
                           ManifestDiffOf(leftManifest, rightManifest, MismatchMessage(deployment.leftName, deployment.rightName))))
    }

    /** The private `diffManifest`: reads both manifests, then compares their main attributes,
        reporting each value mismatch as a message. */
    method DiffManifest(fs: FileSystem) returns (r: Result<ManifestDiff<string>>)
      ensures r.Ok? <==> fs.ReadManifest(left).Ok? && fs.ReadManifest(right).Ok?
      ensures r.Ok? ==> r.value == ManifestDiffOf(fs.ReadManifest(left).value, fs.ReadManifest(right).value,
                                                  MismatchMessage(deployment.leftName, deployment.rightName))
      ensures r.Err? && fs.ReadManifest(left).Err? ==> r.error == fs.ReadManifest(left).error
      ensures r.Err? && fs.ReadManifest(left).Ok? ==> r.error == fs.ReadManifest(right).error
    {
      var leftManifest := fs.ReadManifest(left);
      if leftManifest.Err? {
        return Err(leftManifest.error);
      }
      var rightManifest := fs.ReadManifest(right);
      if rightManifest.Err? {
        return Err(rightManifest.error);
      }
      var d := DiffAttributes(leftManifest.value, rightManifest.value,
                              MismatchMessage(deployment.leftName, deployment.rightName));
      r := Ok(d);
    }

    /** `diff`: compares the entry names with `entriesFilter`, then the manifests. Differences are
        reported, never raised: only an archive that cannot be read fails the comparison. */
    method Diff(fs: FileSystem, entriesFilter: MismatchFilter<string>) returns (r: Result<JarReport>)
      ensures r == ReportOf(fs, entriesFilter)
    {
      var jarType := JarType(classifier);
      var leftEntries := fs.Entries(left);
      if leftEntries.Err? {
        return Err(leftEntries.error);
      }
      var rightEntries := fs.Entries(right);
      if rightEntries.Err? {
        return Err(rightEntries.error);
      }
      var entriesDiff := DiffLists(leftEntries.value, rightEntries.value, entriesFilter);
      var manifestDiff := DiffManifest(fs);
      if manifestDiff.Err? {
        return Err(manifestDiff.error);
      }
      r := Ok(JarReport(jarType, entriesDiff, manifestDiff.value));
    }
  }

  /** The comparison fails only when an archive or its manifest cannot be read; whatever the
      differences, a readable pair yields a report. */
  lemma MismatchesNeverRaised(differ: JarDiffer, fs: FileSystem, entriesFilter: MismatchFilter<string>)
    ensures differ.ReportOf(fs, entriesFilter).Ok?
            <==> differ.left in fs.archives && differ.right in fs.archives
                 && fs.archives[differ.left].manifest.Some? && fs.archives[differ.right].manifest.Some?
    ensures differ.ReportOf(fs, entriesFilter).Ok? ==>
      var report := differ.ReportOf(fs, entriesFilter).value;
      && report.entries == DiffOf(fs.archives[differ.left].entries, fs.archives[differ.right].entries, entriesFilter)
      && (report.manifest.HasSameEntries()
          <==> fs.archives[differ.left].manifest.value == fs.archives[differ.right].manifest.value)
  {
    if differ.ReportOf(fs, entriesFilter).Ok? {
      SameEntriesIffEqual(fs.archives[differ.left].manifest.value, fs.archives[differ.right].manifest.value,
                          MismatchMessage(differ.deployment.leftName, differ.deployment.rightName));
    }
  }
}
