/** `ModuleDiffer`: compares one module present on both sides — its archives classifier by
    classifier, its dependencies, and the file names of its version directories. */
module ModuleDiffer {
  import opened Paths
  import opened Results
  import opened Strings
  import opened Sequences
  import opened FileSystems
  import opened MismatchFilters
  import opened DiffUtils
  import opened Deployments
  import opened PomDiffer
  import opened JarDiffer
  import opened ModuleDiffs

  /** A jar found in a version directory, with the name of the module it belongs to. */
  datatype Jar = Jar(path: Path, name: string)

  /** The file-name test of `getJars`. */
  predicate IsJarFile(p: Path)
  {
    EndsWith(FileName(p), ".jar")
  }

  /** The classifier of a jar file name: the text between the end of the first occurrence of the
      version and the first ".jar", less a leading "-"; "" when that text does not start with "-".
      The bounds follow `String.indexOf` (-1 when absent) and `String.substring`, which fails on a
      range outside the name. */
  function Classifier(fileName: string, version: string): (r: Result<string>)
    ensures r.Err? <==> !(0 <= IndexOf(fileName, version) + |version| <= IndexOf(fileName, ".jar"))
    ensures r.Ok? ==> var middle := fileName[IndexOf(fileName, version) + |version|..IndexOf(fileName, ".jar")];
      if StartsWith(middle, "-") then r.value == middle[1..] else r.value == ""
  {
    var versionIndex := IndexOf(fileName, version);
    var jarIndex := IndexOf(fileName, ".jar");
    var begin := versionIndex + |version|;
    if !(0 <= begin <= jarIndex) then Err(IndexOutOfBounds(fileName, begin, jarIndex))
    else
      assert jarIndex + 4 <= |fileName|;
      var endOfFileName := fileName[begin..jarIndex];
      Ok(if StartsWith(endOfFileName, "-") then endOfFileName[1..] else "")
  }

  /** The classifier a jar file is filed under, or the failure it raises: a name that does not
      start with the module name is unexpected. */
  function JarClassifier(path: Path, moduleName: string, version: string): (r: Result<string>)
    ensures !StartsWith(FileName(path), moduleName) ==> r == Err(UnexpectedJar(moduleName, FileName(path)))
    ensures StartsWith(FileName(path), moduleName) ==> r == Classifier(FileName(path), version)
  {
    var fileName := FileName(path);
    if !StartsWith(fileName, moduleName) then Err(UnexpectedJar(moduleName, fileName))
    else Classifier(fileName, version)
  }

  /** `JarClassifier` for one module and version, as a function of the path. */
  function JarClassifierOf(moduleName: string, version: string): Path -> Result<string>
  {
    p => JarClassifier(p, moduleName, version)
  }

  /** The jar map after filing `paths` in order into `jars`, each under the classifier `classify`
      gives it; a later jar replaces an earlier one with the same classifier, and the first
      failure stops the walk. */
  function PutJars(paths: seq<Path>, classify: Path -> Result<string>, moduleName: string, jars: map<string, Jar>)
    : Result<map<string, Jar>>
  {
    if paths == [] then Ok(jars)
    else match classify(paths[0])
      case Err(e) => Err(e)
      case Ok(classifier) => PutJars(paths[1..], classify, moduleName, jars[classifier := Jar(paths[0], moduleName)])
  }

  /** What `getJars(directory, moduleName)` returns. */
  function JarsOf(fs: FileSystem, directory: Path, moduleName: string, version: string): Result<map<string, Jar>>
  {
    match fs.ListPaths(directory, IsJarFile)
    case Err(e) => Err(e)
    case Ok(jarFiles) => PutJars(jarFiles, JarClassifierOf(moduleName, version), moduleName, map[])
  }

  /** `getJars`: lists the jar files of `directory` and files each under its classifier. */
  method GetJars(fs: FileSystem, directory: Path, moduleName: string, version: string) returns (r: Result<map<string, Jar>>)
    ensures r == JarsOf(fs, directory, moduleName, version)
  {
    var listed := fs.ListPaths(directory, IsJarFile);
    if listed.Err? {
      return Err(listed.error);
    }
    var jarFiles := listed.value;
    var classify := JarClassifierOf(moduleName, version);
    var jars: map<string, Jar> := map[];
    assert jarFiles[0..] == jarFiles;
    for i := 0 to |jarFiles|
      invariant PutJars(jarFiles, classify, moduleName, map[]) == PutJars(jarFiles[i..], classify, moduleName, jars)
    {
      assert jarFiles[i..][1..] == jarFiles[i + 1..];
      var classifier := classify(jarFiles[i]);
      if classifier.Err? {
        return Err(classifier.error);
      }
      jars := jars[classifier.value := Jar(jarFiles[i], moduleName)];
    }
    assert jarFiles[|jarFiles|..] == [];
    r := Ok(jars);
  }

  /** Filing succeeds exactly when every jar file is accepted. */
  lemma {:induction false} PutJarsSucceeds(paths: seq<Path>, classify: Path -> Result<string>, moduleName: string, jars: map<string, Jar>)
    ensures PutJars(paths, classify, moduleName, jars).Ok?
            <==> forall i :: 0 <= i < |paths| ==> classify(paths[i]).Ok?
    decreases |paths|
  {
    if paths != [] {
      var first := classify(paths[0]);
      if first.Ok? {
        PutJarsSucceeds(paths[1..], classify, moduleName, jars[first.value := Jar(paths[0], moduleName)]);
        forall i | 1 <= i < |paths|
          ensures paths[i] == paths[1..][i - 1]
        {
        }
      }
    }
  }

  /** The classifiers of a filed map: those it started with and those of the jar files; every jar
      belongs to the module. */
  lemma {:induction false} PutJarsKeys(paths: seq<Path>, classify: Path -> Result<string>, moduleName: string, jars: map<string, Jar>)
    requires PutJars(paths, classify, moduleName, jars).Ok?
    ensures var result := PutJars(paths, classify, moduleName, jars).value;
      forall c :: c in result <==> c in jars || exists i :: 0 <= i < |paths| && classify(paths[i]) == Ok(c)
    ensures (forall c :: c in jars ==> jars[c].name == moduleName)
            ==> forall c :: c in PutJars(paths, classify, moduleName, jars).value
                            ==> PutJars(paths, classify, moduleName, jars).value[c].name == moduleName
    decreases |paths|
  {
    if paths != [] {
      var first := classify(paths[0]).value;
      PutJarsKeys(paths[1..], classify, moduleName, jars[first := Jar(paths[0], moduleName)]);
      var result := PutJars(paths, classify, moduleName, jars).value;
      forall c
        ensures c in result <==> c in jars || exists i :: 0 <= i < |paths| && classify(paths[i]) == Ok(c)
      {
        if exists i :: 0 <= i < |paths[1..]| && classify(paths[1..][i]) == Ok(c) {
          var i :| 0 <= i < |paths[1..]| && classify(paths[1..][i]) == Ok(c);
          assert classify(paths[i + 1]) == Ok(c);
        }
        if exists i :: 0 <= i < |paths| && classify(paths[i]) == Ok(c) {
          var i :| 0 <= i < |paths| && classify(paths[i]) == Ok(c);
          if i > 0 {
            assert classify(paths[1..][i - 1]) == Ok(c);
          }
        }
      }
    }
  }

  /** A later jar file replaces an earlier one with the same classifier: each classifier holds
      the last jar file that has it. */
  lemma {:induction false} PutJarsLastWins(paths: seq<Path>, classify: Path -> Result<string>, moduleName: string, jars: map<string, Jar>, i: nat)
    requires PutJars(paths, classify, moduleName, jars).Ok?
    requires i < |paths|
    requires forall j :: i < j < |paths| ==> classify(paths[j]) != classify(paths[i])
    ensures classify(paths[i]).Ok? && classify(paths[i]).value in PutJars(paths, classify, moduleName, jars).value
    ensures PutJars(paths, classify, moduleName, jars).value[classify(paths[i]).value]
            == Jar(paths[i], moduleName)
    decreases |paths|
  {
    var first := classify(paths[0]).value;
    var jars' := jars[first := Jar(paths[0], moduleName)];
    var c := classify(paths[i]);
    if i == 0 {
      PutJarsUntouched(paths[1..], classify, moduleName, jars', first);
    } else {
      forall j | i - 1 < j < |paths[1..]|
        ensures classify(paths[1..][j]) != classify(paths[1..][i - 1])
      {
        assert paths[1..][j] == paths[j + 1];
      }
      PutJarsLastWins(paths[1..], classify, moduleName, jars', i - 1);
    }
  }

  /** A classifier no jar file has keeps the jar it started with. */
  lemma {:induction false} PutJarsUntouched(paths: seq<Path>, classify: Path -> Result<string>, moduleName: string, jars: map<string, Jar>, c: string)
    requires PutJars(paths, classify, moduleName, jars).Ok?
    requires c in jars
    requires forall i :: 0 <= i < |paths| ==> classify(paths[i]) != Ok(c)
    ensures c in PutJars(paths, classify, moduleName, jars).value
    ensures PutJars(paths, classify, moduleName, jars).value[c] == jars[c]
    decreases |paths|
  {
    if paths != [] {
      var first := classify(paths[0]).value;
      forall j | 0 <= j < |paths[1..]|
        ensures classify(paths[1..][j]) != Ok(c)
      {
        assert paths[1..][j] == paths[j + 1];
      }
      PutJarsUntouched(paths[1..], classify, moduleName, jars[first := Jar(paths[0], moduleName)], c);
    }
  }

  /** Filing stops at the first file that is refused and raises that file's failure. */
  lemma {:induction false} PutJarsFirstFailure(paths: seq<Path>, classify: Path -> Result<string>, moduleName: string, jars: map<string, Jar>, i: nat)
    requires i < |paths| && classify(paths[i]).Err?
    requires forall j :: 0 <= j < i ==> classify(paths[j]).Ok?
    ensures PutJars(paths, classify, moduleName, jars) == Err(classify(paths[i]).error)
    decreases i
  {
    if i > 0 {
      var c := classify(paths[0]).value;
      forall j | 0 <= j < i - 1
        ensures classify(paths[1..][j]).Ok?
      {
        assert paths[1..][j] == paths[j + 1];
      }
      PutJarsFirstFailure(paths[1..], classify, moduleName, jars[c := Jar(paths[0], moduleName)], i - 1);
    }
  }

  /** A conventional name `<module>-<version>.jar` or `<module>-<version>-<classifier>.jar` yields
      "" or the classifier, provided the version does not occur earlier in the name and ".jar" does
      not occur before the extension. */
  lemma WellFormedName(moduleName: string, version: string, classifier: string)
    requires var name := moduleName + "-" + version + (if classifier == "" then "" else "-" + classifier) + ".jar";
      (forall i :: 0 <= i < |moduleName| + 1 ==> !OccursAt(name, version, i))
      && (forall i :: 0 <= i < |name| - 4 ==> !OccursAt(name, ".jar", i))
    ensures var name := moduleName + "-" + version + (if classifier == "" then "" else "-" + classifier) + ".jar";
      Classifier(name, version) == Ok(classifier)
  {
    var suffix := if classifier == "" then "" else "-" + classifier;
    var name := moduleName + "-" + version + suffix + ".jar";
    assert OccursAt(name, version, |moduleName| + 1) by {
      assert name[|moduleName| + 1..|moduleName| + 1 + |version|] == version;
    }
    assert IndexOf(name, version) == |moduleName| + 1;
    assert OccursAt(name, ".jar", |name| - 4) by {
      assert name[|name| - 4..] == ".jar";
    }
    assert IndexOf(name, ".jar") == |name| - 4;
    assert name[|moduleName| + 1 + |version|..|name| - 4] == suffix;
    if classifier != "" {
      assert StartsWith(suffix, "-");
      assert suffix[1..] == classifier;
    }
  }

  /** A version that does not occur in the name is no failure: the search result -1 is used as
      an index, the text from `|version| - 1` up to ".jar" is taken instead, and the jar is
      filed under whatever that text yields. */
  lemma MissingVersionIsNoFailure(fileName: string, version: string)
    requires !Contains(fileName, version) && 1 <= |version|
    requires |version| - 1 <= IndexOf(fileName, ".jar")
    ensures Classifier(fileName, version).Ok?
    ensures var middle := fileName[|version| - 1..IndexOf(fileName, ".jar")];
      Classifier(fileName, version).value == if StartsWith(middle, "-") then middle[1..] else ""
  {
  }

  /** "a-c.jar" does not contain version "12", yet it is filed under classifier "c". */
  lemma MissingVersionExample()
    ensures Classifier("a-c.jar", "12") == Ok("c")
  {
    var name := "a-c.jar";
    assert !Contains(name, "12") by {
      forall i | 0 <= i <= |name| - 2
        ensures !OccursAt(name, "12", i)
      {
        assert name[i..i + 2][0] == name[i];
      }
    }
    forall i | 0 <= i < 3
      ensures !OccursAt(name, ".jar", i)
    {
      assert name[i..i + 4][0] == name[i];
    }
    assert OccursAt(name, ".jar", 3);
    assert name[1..3] == "-c";
  }

  /** How a left jar was handled: compared with the right jar of the same classifier, or logged as
      missing on the right. */
  datatype JarCheck = Compared(report: JarReport) | MissingOnRight

  /** The outcome of comparing one module: the module diff that `diff` returns, and what was found
      for each left classifier. */
  datatype ModuleReport = ModuleReport(diff: ModuleDiff, jarChecks: map<string, JarCheck>)

  datatype ModuleDiffer = ModuleDiffer(groupDeployment: GroupDeployment, mod: Module)
  {
    /** The version directory below a module directory. */
    function VersionDirectory(moduleDirectory: Path): (p: Path)
      ensures p == moduleDirectory + [groupDeployment.Version()]
    {
      Resolve(moduleDirectory, groupDeployment.Version())
    }

    /** The check of the left jar of `classifier`: compared with the deployment's filter for that
        classifier when the right side has the classifier too. */
    function CheckOf(fs: FileSystem, leftJars: map<string, Jar>, rightJars: map<string, Jar>, classifier: string)
      : Result<JarCheck>
      requires classifier in leftJars
    {
      if classifier in rightJars then
        var differ := JarDiffer(groupDeployment.deployment, leftJars[classifier].path, rightJars[classifier].path, classifier);
        match differ.ReportOf(fs, groupDeployment.deployment.JarMismatchFilter(classifier))
        case Err(e) => Err(e)
        case Ok(report) => Ok(Compared(report))
      else Ok(MissingOnRight)
    }

    /** One turn of the loop of `diff` over the left jars. */
    method CheckJar(fs: FileSystem, leftJars: map<string, Jar>, rightJars: map<string, Jar>, classifier: string)
      returns (r: Result<JarCheck>)
      requires classifier in leftJars
      ensures r == CheckOf(fs, leftJars, rightJars, classifier)
    {
      if classifier in rightJars {
        var differ := JarDiffer(groupDeployment.deployment, leftJars[classifier].path, rightJars[classifier].path, classifier);
        var report := differ.Diff(fs, groupDeployment.deployment.JarMismatchFilter(classifier));
        if report.Err? {
          return Err(report.error);
        }
        r := Ok(Compared(report.value));
      } else {
        r := Ok(MissingOnRight);
      }
    }

    /** The loop of `diff` over the left jars, in an unspecified order: each jar whose classifier
        the right side has too is compared; the first comparison that fails stops the loop. */
    method CompareJars(fs: FileSystem, leftJars: map<string, Jar>, rightJars: map<string, Jar>)
      returns (r: Result<map<string, JarCheck>>)
      ensures r.Ok? <==> forall c :: c in leftJars ==> CheckOf(fs, leftJars, rightJars, c).Ok?
      ensures r.Ok? ==> r.value.Keys == leftJars.Keys
                        && forall c :: c in r.value ==> CheckOf(fs, leftJars, rightJars, c) == Ok(r.value[c])
      ensures r.Err? ==> exists c :: c in leftJars && CheckOf(fs, leftJars, rightJars, c) == Err(r.error)
    {
      var checks: map<string, JarCheck> := map[];
      var toVisit := leftJars.Keys;
      while toVisit != {}
        invariant toVisit <= leftJars.Keys
        invariant forall c :: c in leftJars ==> (c in checks <==> c !in toVisit)
        invariant forall c :: c in checks ==> c in leftJars && CheckOf(fs, leftJars, rightJars, c) == Ok(checks[c])
        decreases |toVisit|
      {
        var classifier :| classifier in toVisit;
        var check := CheckJar(fs, leftJars, rightJars, classifier);
        if check.Err? {
          return Err(check.error);
        }
        checks := checks[classifier := check.value];
        toVisit := toVisit - {classifier};
      }
      assert checks.Keys == leftJars.Keys;
      r := Ok(checks);
    }

    /** The jar checks of a module whose comparisons all succeed. */
    ghost function JarChecksOf(fs: FileSystem, leftJars: map<string, Jar>, rightJars: map<string, Jar>): map<string, JarCheck>
    {
      map c | c in leftJars && CheckOf(fs, leftJars, rightJars, c).Ok? :: CheckOf(fs, leftJars, rightJars, c).value
    }

    /** The file names of both version directories, compared with the deployment's module filter. */
    function FilesDiffOf(fs: FileSystem): Result<Diff<string>>
      requires mod.left.Some? && mod.right.Some?
    {
      match fs.ListFilesAndDirectoriesIn(VersionDirectory(mod.left.value))
      case Err(e) => Err(e)
      case Ok(leftFiles) =>
        match fs.ListFilesAndDirectoriesIn(VersionDirectory(mod.right.value))
        case Err(e) => Err(e)
        case Ok(rightFiles) => Ok(DiffOf(FileNames(leftFiles), FileNames(rightFiles), groupDeployment.deployment.moduleMismatchFilter))
    }

    /** What `diff()` may end with, stage by stage in the order the source runs them: the left jars,
        the right jars, the jar comparisons (any failing one may be the one that stops the loop),
        the dependency comparison, and the file names. */
    ghost predicate IsOutcome(fs: FileSystem, resolve: Resolver, r: Result<ModuleReport>)
      requires mod.left.Some? && mod.right.Some?
    {
      match JarsOf(fs, VersionDirectory(mod.left.value), mod.name, groupDeployment.Version())
      case Err(e) => r == Err(e)
      case Ok(leftJars) =>
        match JarsOf(fs, VersionDirectory(mod.right.value), mod.name, groupDeployment.Version())
        case Err(e) => r == Err(e)
        case Ok(rightJars) =>
          if exists c :: c in leftJars && CheckOf(fs, leftJars, rightJars, c).Err? then
            r.Err? && exists c :: c in leftJars && CheckOf(fs, leftJars, rightJars, c) == Err(r.error)
          else
            match NewDefaultPomDiffer(groupDeployment).DiffResult(resolve, mod.name)
            case Err(e) => r == Err(e)
            case Ok(pomDiff) =>
              match FilesDiffOf(fs)
              case Err(e) => r == Err(e)
              case Ok(files) =>
                r == Ok(ModuleReport(ModuleDiff(mod, files.onlyInLeft, files.onlyInRight, pomDiff),
                                     JarChecksOf(fs, leftJars, rightJars)))
    }

    /** `diff`: the module must be present on both sides (the source dereferences both
        directories). */
    method Diff(fs: FileSystem, resolve: Resolver) returns (r: Result<ModuleReport>)
      requires mod.left.Some? && mod.right.Some?
      ensures IsOutcome(fs, resolve, r)
    {
      var leftRoot := VersionDirectory(mod.left.value);
      var rightRoot := VersionDirectory(mod.right.value);
      var leftJars := GetJars(fs, leftRoot, mod.name, groupDeployment.Version());
      if leftJars.Err? {
        return Err(leftJars.error);
      }
      var rightJars := GetJars(fs, rightRoot, mod.name, groupDeployment.Version());
      if rightJars.Err? {
        return Err(rightJars.error);
      }
      var checks := CompareJars(fs, leftJars.value, rightJars.value);
      if checks.Err? {
        return Err(checks.error);
      }
      assert checks.value == JarChecksOf(fs, leftJars.value, rightJars.value);
      assert !exists c :: c in leftJars.value && CheckOf(fs, leftJars.value, rightJars.value, c).Err?;
      var pomDiff := NewDefaultPomDiffer(groupDeployment).Diff(resolve, mod.name);
      if pomDiff.Err? {
        return Err(pomDiff.error);
      }
      // Both listings succeed: listing the jars already read both directories.
      var leftFiles := fs.ListFilesAndDirectoriesIn(leftRoot).value;
      var rightFiles := fs.ListFilesAndDirectoriesIn(rightRoot).value;
      var filesDiff := DiffLists(FileNames(leftFiles), FileNames(rightFiles),
                                 groupDeployment.deployment.moduleMismatchFilter);
      assert FilesDiffOf(fs) == Ok(filesDiff);
      r := Ok(ModuleReport(ModuleDiff(mod, filesDiff.onlyInLeft, filesDiff.onlyInRight, pomDiff.value), checks.value));
    }

    /** A module comparison that succeeds reports on this module; its file lists are the
        `DiffUtils` comparison of the two version directories under the deployment's module filter;
        its dependency comparison is the default POM differ's; every left classifier is checked,
        against the right jar of the same classifier with the deployment's filter for that
        classifier, and is missing on the right exactly when the right side has no such jar. */
    lemma OutcomeFacts(fs: FileSystem, resolve: Resolver, r: Result<ModuleReport>)
      requires mod.left.Some? && mod.right.Some?
      requires IsOutcome(fs, resolve, r) && r.Ok?
      ensures r.value.diff.mod == mod
      ensures FilesDiffOf(fs) == Ok(DiffUtils.Diff(r.value.diff.onlyInLeft, r.value.diff.onlyInRight))
      ensures NewDefaultPomDiffer(groupDeployment).DiffResult(resolve, mod.name) == Ok(r.value.diff.pomDiff)
      ensures var leftJars := JarsOf(fs, VersionDirectory(mod.left.value), mod.name, groupDeployment.Version());
              var rightJars := JarsOf(fs, VersionDirectory(mod.right.value), mod.name, groupDeployment.Version());
              && leftJars.Ok? && rightJars.Ok?
              && r.value.jarChecks.Keys == leftJars.value.Keys
              && forall c :: c in r.value.jarChecks ==>
                   match r.value.jarChecks[c]
                   case MissingOnRight => c !in rightJars.value
                   case Compared(report) =>
                     c in rightJars.value
                     && JarDiffer(groupDeployment.deployment, leftJars.value[c].path, rightJars.value[c].path, c)
                          .ReportOf(fs, groupDeployment.deployment.JarMismatchFilter(c)) == Ok(report)
    {
      var leftJars := JarsOf(fs, VersionDirectory(mod.left.value), mod.name, groupDeployment.Version()).value;
      var rightJars := JarsOf(fs, VersionDirectory(mod.right.value), mod.name, groupDeployment.Version()).value;
      assert r.value.jarChecks == JarChecksOf(fs, leftJars, rightJars);
      forall c | c in leftJars
        ensures CheckOf(fs, leftJars, rightJars, c).Ok?
      {
      }
    }
  }
}
