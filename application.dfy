/** `Application`: the command-line entry point comparing the Spring Web Services artifacts of a
    Maven deployment against a Gradle one, and the four filters it installs. */
module Application {
  import opened Paths
  import opened Results
  import opened Strings
  import opened Sequences
  import opened FileSystems
  import opened MismatchFilters
  import opened Dependencies
  import opened DiffUtils
  import opened Deployments
  import opened PomDiffer
  import opened DeploymentDiffer

  /** Never suppresses anything: the side a filter leaves alone. */
  predicate Never<T>(key: T)
  {
    false
  }

  /** `MainJarMismatchFilter.ignoreInLeft`: package descriptors the right side does not ship. */
  predicate IsPackageInfo(key: string)
  {
    EndsWith(key, "package-info.class")
  }

  /** `MainJarMismatchFilter`: suppresses left-only package descriptors, nothing on the right. */
  function MainJarMismatchFilter(): (f: MismatchFilter<string>)
    ensures forall key :: f.ignoreInLeft(key) <==> IsPackageInfo(key)
    ensures forall key :: !f.ignoreInRight(key)
  {
    MismatchFilter(IsPackageInfo, Never)
  }

  /** `JavadocJarMismatchFilter.ignoreInLeft`: the class-use and package-use pages. */
  predicate IsClassOrPackageUse(key: string)
  {
    Contains(key, "/class-use/") || EndsWith(key, "/package-use.html")
  }

  /** `JavadocJarMismatchFilter`: suppresses left-only usage pages, nothing on the right. */
  function JavadocJarMismatchFilter(): (f: MismatchFilter<string>)
    ensures forall key :: f.ignoreInLeft(key) <==> IsClassOrPackageUse(key)
    ensures forall key :: !f.ignoreInRight(key)
  {
    MismatchFilter(IsClassOrPackageUse, Never)
  }

  /** The checksum and metadata suffixes only the Gradle side publishes. */
  const GradleOnlySuffixes: seq<string> := [".sha256", ".sha512", ".md5", ".module", ".module.sha1"]

  /** The search of `ModuleMismatchFilter.ignoreInRight`: whether `key` ends with one of
      `suffixes`. */
  function EndsWithAny(key: string, suffixes: seq<string>): (r: bool)
    ensures r <==> exists i :: 0 <= i < |suffixes| && EndsWith(key, suffixes[i])
  {
    if suffixes == [] then false
    else if EndsWith(key, suffixes[0]) then true
    else
      var r := EndsWithAny(key, suffixes[1..]);
      assert r ==> exists i :: 0 <= i < |suffixes| && EndsWith(key, suffixes[i]) by {
        if r {
          var i :| 0 <= i < |suffixes[1..]| && EndsWith(key, suffixes[1..][i]);
          assert suffixes[i + 1] == suffixes[1..][i];
        }
      }
      r
  }

  /** `ModuleMismatchFilter.ignoreInRight`: a checksum or Gradle module-metadata file. */
  predicate HasGradleOnlySuffix(key: string)
    ensures HasGradleOnlySuffix(key)
            <==> EndsWith(key, ".sha256") || EndsWith(key, ".sha512") || EndsWith(key, ".md5")
                 || EndsWith(key, ".module") || EndsWith(key, ".module.sha1")
  {
    var suffixes := GradleOnlySuffixes;
    assert suffixes[0] == ".sha256" && suffixes[1] == ".sha512" && suffixes[2] == ".md5";
    assert suffixes[3] == ".module" && suffixes[4] == ".module.sha1" && |suffixes| == 5;
    EndsWithAny(key, GradleOnlySuffixes)
  }

  /** `ModuleMismatchFilter`: suppresses right-only checksum and metadata files, nothing on the
      left. */
  function ModuleMismatchFilter(): (f: MismatchFilter<string>)
    ensures forall key :: !f.ignoreInLeft(key)
    ensures forall key :: f.ignoreInRight(key) <==> HasGradleOnlySuffix(key)
  {
    MismatchFilter(Never, HasGradleOnlySuffix)
  }

  /** `PomMismatchFilter.ignoreInLeft`: a dependency whose optional flag is set to true. */
  predicate IsOptionalDependency(d: Dependency)
  {
    d.IsOptional()
  }

  /** `PomMismatchFilter`: suppresses left-only optional dependencies, nothing on the right. */
  function PomMismatchFilter(): (f: MismatchFilter<Dependency>)
    ensures forall d :: f.ignoreInLeft(d) <==> d.optional == Some(true)
    ensures forall d :: !f.ignoreInRight(d)
  {
    MismatchFilter(IsOptionalDependency, Never)
  }

  /** The main-jar filter drops exactly the package descriptors from the left report and leaves
      the right report alone. */
  lemma MainJarFilterEffect(left: seq<string>, right: seq<string>)
    ensures DiffOf(left, right, MainJarMismatchFilter()).onlyInLeft
            == Reject(DiffOf(left, right, Noop()).onlyInLeft, IsPackageInfo)
    ensures DiffOf(left, right, MainJarMismatchFilter()).onlyInRight == DiffOf(left, right, Noop()).onlyInRight
  {
    FilteredIsSuppressedNoop(left, right, MainJarMismatchFilter());
    RejectNothing(DiffOf(left, right, Noop()).onlyInRight, MainJarMismatchFilter().ignoreInRight);
  }

  /** The javadoc filter drops exactly the usage pages from the left report and leaves the right
      report alone. */
  lemma JavadocFilterEffect(left: seq<string>, right: seq<string>)
    ensures DiffOf(left, right, JavadocJarMismatchFilter()).onlyInLeft
            == Reject(DiffOf(left, right, Noop()).onlyInLeft, IsClassOrPackageUse)
    ensures DiffOf(left, right, JavadocJarMismatchFilter()).onlyInRight == DiffOf(left, right, Noop()).onlyInRight
  {
    FilteredIsSuppressedNoop(left, right, JavadocJarMismatchFilter());
    RejectNothing(DiffOf(left, right, Noop()).onlyInRight, JavadocJarMismatchFilter().ignoreInRight);
  }

  /** The module filter drops exactly the Gradle checksum and metadata files from the right report
      and leaves the left report alone. */
  lemma ModuleFilterEffect(left: seq<string>, right: seq<string>)
    ensures DiffOf(left, right, ModuleMismatchFilter()).onlyInLeft == DiffOf(left, right, Noop()).onlyInLeft
    ensures DiffOf(left, right, ModuleMismatchFilter()).onlyInRight
            == Reject(DiffOf(left, right, Noop()).onlyInRight, HasGradleOnlySuffix)
  {
    FilteredIsSuppressedNoop(left, right, ModuleMismatchFilter());
    RejectNothing(DiffOf(left, right, Noop()).onlyInLeft, ModuleMismatchFilter().ignoreInLeft);
  }

  /** The dependency filter drops exactly the optional dependencies from the left report and
      leaves the right report alone. */
  lemma PomFilterEffect(left: seq<Dependency>, right: seq<Dependency>)
    ensures PomDiffOf(left, right, PomMismatchFilter()).onlyInLeft
            == Reject(PomDiffOf(left, right, Noop()).onlyInLeft, IsOptionalDependency)
    ensures PomDiffOf(left, right, PomMismatchFilter()).onlyInRight == PomDiffOf(left, right, Noop()).onlyInRight
  {
    PomFilteredIsSuppressedNoop(left, right, PomMismatchFilter());
    RejectNothing(PomDiffOf(left, right, Noop()).onlyInRight, PomMismatchFilter().ignoreInRight);
  }

  /** The group whose modules are compared. */
  const GroupId := "org.springframework.ws"

  /** The deployment `run` configures: Maven on the left, Gradle on the right, the main-jar filter
      for classifier "", the javadoc filter for "javadoc", no filter for any other classifier,
      and the module and dependency filters. */
  function SpringWsDeployment(leftDirectory: Path, rightDirectory: Path, version: string): (d: Deployment)
    ensures d.leftName == "Maven" && d.rightName == "Gradle"
    ensures d.leftDirectory == leftDirectory && d.rightDirectory == rightDirectory && d.version == version
    ensures d.JarMismatchFilter("") == MainJarMismatchFilter()
    ensures d.JarMismatchFilter("javadoc") == JavadocJarMismatchFilter()
    ensures forall c :: c != "" && c != "javadoc" ==> d.JarMismatchFilter(c) == Noop()
    ensures d.moduleMismatchFilter == ModuleMismatchFilter() && d.pomMismatchFilter == PomMismatchFilter()
  {
    NewDeployment("Maven", leftDirectory, "Gradle", rightDirectory, version)
      .RegisterJarMismatchFilter("", MainJarMismatchFilter())
      .RegisterJarMismatchFilter("javadoc", JavadocJarMismatchFilter())
      .SetModuleMismatchFilter(ModuleMismatchFilter())
      .SetPomMismatchFilter(PomMismatchFilter())
  }

  /** The documentation archives compared after the modules: the left one is published as
      "spring-ws-<version>-docs.zip" in module "spring-ws", the right one as
      "spring-ws-docs-<version>.zip" in module "spring-ws-docs", each in its version directory. */
  function DocsZips(gd: GroupDeployment): (zips: (Path, Path))
    ensures zips.0 == gd.leftDirectory + ["spring-ws", gd.Version(), "spring-ws-" + gd.Version() + "-docs.zip"]
    ensures zips.1 == gd.rightDirectory + ["spring-ws-docs", gd.Version(), "spring-ws-docs-" + gd.Version() + ".zip"]
  {
    var version := gd.Version();
    (Resolve(Resolve(Resolve(gd.leftDirectory, "spring-ws"), version), "spring-ws-" + version + "-docs.zip"),
     Resolve(Resolve(Resolve(gd.rightDirectory, "spring-ws-docs"), version), "spring-ws-docs-" + version + ".zip"))
  }

  /** The comparison of the documentation archives' entries, with the no-op filter. */
  function DocsDiffOf(fs: FileSystem, gd: GroupDeployment): Result<Diff<string>>
  {
    var zips := DocsZips(gd);
    match fs.Entries(zips.0)
    case Err(e) => Err(e)
    case Ok(leftEntries) =>
      match fs.Entries(zips.1)
      case Err(e) => Err(e)
      case Ok(rightEntries) => Ok(DiffOf(leftEntries, rightEntries, Noop()))
  }

  /** What a run reports: the level each module diff is logged at, and the documentation diff. */
  datatype RunReport = RunReport(moduleLevels: seq<LogLevel>, docs: Diff<string>)
  {
    /** The documentation mismatch is logged as an error exactly when the archives differ. */
    function DocsLevel(): (level: Option<LogLevel>)
      ensures level == Some(ErrorLevel) <==> !docs.HasSameEntries()
      ensures level.None? <==> docs.HasSameEntries()
    {
      if docs.HasSameEntries() then None else Some(ErrorLevel)
    }
  }

  /** What `run` may end with, stage by stage: a wrong argument count, a group directory that
      cannot be resolved, a failing module comparison, unreadable documentation archives, or the
      report. */
  ghost predicate IsRunOutcome(args: seq<string>, toPath: string -> Path, fs: FileSystem, resolve: Resolver,
                               r: Result<RunReport>)
  {
    if |args| != 3 then r == Err(Usage(|args|))
    else
      match SpringWsDeployment(toPath(args[0]), toPath(args[1]), args[2]).GroupDeploymentOf(fs, true, GroupId)
      case Err(e) => r == Err(e)
      case Ok(gd) =>
        match r
        case Err(e) =>
          DeploymentDiffer(gd).IsDiffOutcome(fs, resolve, Err(e))
          || ((exists levels :: DeploymentDiffer(gd).IsDiffOutcome(fs, resolve, Ok(levels))) && DocsDiffOf(fs, gd) == Err(e))
        case Ok(report) =>
          DeploymentDiffer(gd).IsDiffOutcome(fs, resolve, Ok(report.moduleLevels)) && DocsDiffOf(fs, gd) == Ok(report.docs)
  }

  /** `run`: checks the argument count, resolves the group directories (each segment must be the
      only entry of its parent), compares the modules, then the documentation archives. Parsing an
      argument into a path is the parameter `toPath`. */
  method Run(args: seq<string>, toPath: string -> Path, fs: FileSystem, resolve: Resolver) returns (r: Result<RunReport>)
    ensures |args| != 3 ==> r == Err(Usage(|args|))
    ensures IsRunOutcome(args, toPath, fs, resolve, r)
  {
    if |args| != 3 {
      return Err(Usage(|args|));
    }
    var deployment := SpringWsDeployment(toPath(args[0]), toPath(args[1]), args[2]);
    var gd := deployment.ResolveGroupId(fs, true, GroupId);
    if gd.Err? {
      return Err(gd.error);
    }
    var levels := DeploymentDiffer(gd.value).Diff(fs, resolve);
    if levels.Err? {
      return Err(levels.error);
    }
    var zips := DocsZips(gd.value);
    var leftEntries := fs.Entries(zips.0);
    if leftEntries.Err? {
      return Err(leftEntries.error);
    }
    var rightEntries := fs.Entries(zips.1);
    if rightEntries.Err? {
      return Err(rightEntries.error);
    }
    var docs := DiffLists(leftEntries.value, rightEntries.value, Noop());
    r := Ok(RunReport(levels.value, docs));
  }
}
