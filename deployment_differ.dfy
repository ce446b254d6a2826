/** `DeploymentDiffer`: pairs the module directories of both sides of a group by name, compares
    each pair, and reports the modules that only one side has. */
module DeploymentDiffer {
  import opened Paths
  import opened Results
  import opened Sequences
  import opened FileSystems
  import opened Deployments
  import opened PomDiffer
  import opened ModuleDiffs
  import opened ModuleDiffer

  /** Every module diff, one per left module in left listing order, and the names of the right
      modules no left module was paired with. */
  datatype DeploymentReport = DeploymentReport(moduleDiffs: seq<ModuleDiff>, onlyInRight: seq<string>)
  {
    /** The level each module diff is logged at by `diff`, in the same order. */
    function Levels(): (levels: seq<LogLevel>)
      ensures |levels| == |moduleDiffs|
      ensures forall i :: 0 <= i < |moduleDiffs| ==> (levels[i] == InfoLevel <==> moduleDiffs[i].HasSameEntries())
    {
      seq(|moduleDiffs|, i requires 0 <= i < |moduleDiffs| => LogLevelOf(moduleDiffs[i]))
    }
  }

  /** The right module names that are not among the processed left names, in right listing order. */
  function RightOnly(rightNames: seq<string>, processed: seq<string>): (r: seq<string>)
    ensures forall n :: n in r <==> n in rightNames && n !in processed
    ensures IsSubsequence(r, rightNames)
  {
    RejectFacts(rightNames, (n: string) => n in processed);
    Reject(rightNames, (n: string) => n in processed)
  }

  /** The diff of a left module the right side does not have: every name listed under the left
      module is only in the left side, nothing is only in the right side, and no dependency was
      compared. */
  function MissingModuleDiff(fs: FileSystem, leftModule: Path): (r: Result<ModuleDiff>)
    ensures r.Ok? ==> !r.value.HasSameEntries()
    ensures r.Ok? ==> r.value.mod == Module(FileName(leftModule), Some(leftModule), None)
    ensures r.Ok? <==> fs.IsDirectory(leftModule)
    ensures r.Ok? ==> r.value.onlyInLeft == fs.children[leftModule] && r.value.onlyInRight == []
  {
    match fs.ListFilesAndDirectoriesIn(leftModule)
    case Err(e) => Err(e)
    case Ok(entries) =>
      Ok(ModuleDiff(Module(FileName(leftModule), Some(leftModule), None), FileNames(entries), [], PomDiff([], [])))
  }

  /** `logModuleDiff`: a module with the same entries is reported at info level, any other at
      error level. */
  function LogLevelOf(d: ModuleDiff): (r: LogLevel)
    ensures r == InfoLevel <==> d.HasSameEntries()
    ensures r != DebugLevel
  {
    if d.HasSameEntries() then InfoLevel else ErrorLevel
  }

  /** The names processed are those of the left modules, in order; a right name is then right-only
      exactly when no module diff is about a module of that name. */
  lemma RightOnlyPartition(leftModules: seq<Path>, rightNames: seq<string>, moduleDiffs: seq<ModuleDiff>,
                           onlyInRight: seq<string>)
    requires |moduleDiffs| == |leftModules|
    requires forall i :: 0 <= i < |leftModules| ==> moduleDiffs[i].mod.name == FileName(leftModules[i])
    requires onlyInRight == RightOnly(rightNames, FileNames(leftModules))
    ensures forall n :: n in rightNames ==> (n in onlyInRight <==> forall d :: d in moduleDiffs ==> d.mod.name != n)
  {
    forall n | n in rightNames
      ensures n in onlyInRight <==> forall d :: d in moduleDiffs ==> d.mod.name != n
    {
      if n in FileNames(leftModules) {
        var i :| 0 <= i < |leftModules| && FileNames(leftModules)[i] == n;
        assert moduleDiffs[i].mod.name == n;
      } else {
        forall d | d in moduleDiffs
          ensures d.mod.name != n
        {
          var i :| 0 <= i < |moduleDiffs| && moduleDiffs[i] == d;
          assert d.mod.name == FileNames(leftModules)[i];
        }
      }
    }
  }

  datatype DeploymentDiffer = DeploymentDiffer(groupDeployment: GroupDeployment)
  {
    /** The module of the left directory `leftModule`: its name, and the first right module
        directory with the same name, if any. */
    function ModuleFor(leftModule: Path, rightModules: seq<Path>): (m: Module)
      ensures m.name == FileName(leftModule) && m.left == Some(leftModule)
      ensures m.right.None? <==> FileName(leftModule) !in FileNames(rightModules)
      ensures m.right.Some? ==> exists i :: 0 <= i < |rightModules| && rightModules[i] == m.right.value
                                  && FileName(m.right.value) == m.name
                                  && forall j :: 0 <= j < i ==> FileName(rightModules[j]) != m.name
    {
      var name := FileName(leftModule);
      var m := Module(name, Some(leftModule), FindWithFileName(rightModules, name));
      assert m.right.None? <==> name !in FileNames(rightModules) by {
        if name in FileNames(rightModules) {
          var i :| 0 <= i < |rightModules| && FileNames(rightModules)[i] == name;
        }
      }
      m
    }

    /** What one turn of the loop of `diffModules` may produce for `leftModule`: the missing-module
        diff when the right side has no module of that name, otherwise the diff the module differ
        produces for the pair. */
    ghost predicate IsModuleOutcome(fs: FileSystem, resolve: Resolver, leftModule: Path, rightModules: seq<Path>,
                                    r: Result<ModuleDiff>)
    {
      var m := ModuleFor(leftModule, rightModules);
      if m.right.None? then r == MissingModuleDiff(fs, leftModule)
      else
        exists report :: ModuleDiffer(groupDeployment, m).IsOutcome(fs, resolve, report)
                         && r == (if report.Ok? then Ok(report.value.diff) else Err(report.error))
    }

    /** One turn of the loop of `diffModules`. */
    method DiffModule(fs: FileSystem, resolve: Resolver, leftModule: Path, rightModules: seq<Path>)
      returns (r: Result<ModuleDiff>)
      ensures IsModuleOutcome(fs, resolve, leftModule, rightModules, r)
    {
      var m := ModuleFor(leftModule, rightModules);
      if m.right.None? {
        return MissingModuleDiff(fs, leftModule);
      }
      var report := ModuleDiffer(groupDeployment, m).Diff(fs, resolve);
      if report.Err? {
        return Err(report.error);
      }
      r := Ok(report.value.diff);
    }

    /** What the loop of `diffModules` may end with: the failure of the comparison of some left
        module, or one module diff per left module. */
    ghost predicate IsLoopOutcome(fs: FileSystem, resolve: Resolver, leftModules: seq<Path>, rightModules: seq<Path>,
                                  r: Result<seq<ModuleDiff>>)
    {
      match r
      case Err(e) =>
        exists i :: 0 <= i < |leftModules| && IsModuleOutcome(fs, resolve, leftModules[i], rightModules, Err(e))
      case Ok(moduleDiffs) =>
        && |moduleDiffs| == |leftModules|
        && forall i :: 0 <= i < |leftModules| ==>
             IsModuleOutcome(fs, resolve, leftModules[i], rightModules, Ok(moduleDiffs[i]))
    }

    /** What `diffModules` may end with: a failure to list either group directory, a failure of
        the comparison of some left module, or one module diff per left module together with the
        right-only module names. */
    ghost predicate IsOutcome(fs: FileSystem, resolve: Resolver, r: Result<DeploymentReport>)
    {
      match fs.ListDirectoriesIn(groupDeployment.leftDirectory)
      case Err(e) => r == Err(e)
      case Ok(leftModules) =>
        match fs.ListDirectoriesIn(groupDeployment.rightDirectory)
        case Err(e) => r == Err(e)
        case Ok(rightModules) =>
          match r
          case Err(e) => IsLoopOutcome(fs, resolve, leftModules, rightModules, Err(e))
          case Ok(report) =>
            && IsLoopOutcome(fs, resolve, leftModules, rightModules, Ok(report.moduleDiffs))
            && report.onlyInRight == RightOnly(FileNames(rightModules), FileNames(leftModules))
    }

    /** The loop of `diffModules`: each left module in listing order is compared, and its name
        recorded as processed. */
    method DiffEach(fs: FileSystem, resolve: Resolver, leftModules: seq<Path>, rightModules: seq<Path>)
      returns (r: Result<seq<ModuleDiff>>, processed: seq<string>)
      ensures IsLoopOutcome(fs, resolve, leftModules, rightModules, r)
      ensures r.Ok? ==> processed == FileNames(leftModules)
    {
      processed := [];
      var moduleDiffs: seq<ModuleDiff> := [];
      for i := 0 to |leftModules|
        invariant |moduleDiffs| == i && |processed| == i
        invariant forall k :: 0 <= k < i ==> processed[k] == FileName(leftModules[k])
        invariant forall k :: 0 <= k < i ==>
                    IsModuleOutcome(fs, resolve, leftModules[k], rightModules, Ok(moduleDiffs[k]))
      {
        var d := DiffModule(fs, resolve, leftModules[i], rightModules);
        if d.Err? {
          assert d == Err(d.error);
          return Err(d.error), processed;
        }
        assert d == Ok(d.value);
        ghost var previous := moduleDiffs;
        moduleDiffs := moduleDiffs + [d.value];
        assert forall k :: 0 <= k < i ==> moduleDiffs[k] == previous[k];
        assert moduleDiffs[i] == d.value;
        processed := processed + [FileName(leftModules[i])];
      }
      r := Ok(moduleDiffs);
    }

    /** `diffModules`: walks the left modules in listing order, pairing each with the right module
        of the same name; the right names never processed are only in the right side. */
    method DiffModules(fs: FileSystem, resolve: Resolver) returns (r: Result<DeploymentReport>)
      ensures IsOutcome(fs, resolve, r)
    {
      var leftModules := fs.ListDirectoriesIn(groupDeployment.leftDirectory);
      if leftModules.Err? {
        return Err(leftModules.error);
      }
      var rightModules := fs.ListDirectoriesIn(groupDeployment.rightDirectory);
      if rightModules.Err? {
        return Err(rightModules.error);
      }
      var moduleDiffs, processed := DiffEach(fs, resolve, leftModules.value, rightModules.value);
      if moduleDiffs.Err? {
        return Err(moduleDiffs.error);
      }
      r := Ok(DeploymentReport(moduleDiffs.value, RightOnly(FileNames(rightModules.value), processed)));
    }

    /** What `diff` may end with: the failure of `diffModules`, or the level each module diff
        is logged at. */
    ghost predicate IsDiffOutcome(fs: FileSystem, resolve: Resolver, r: Result<seq<LogLevel>>)
    {
      exists outcome :: IsOutcome(fs, resolve, outcome)
                        && r == match outcome
                                case Err(e) => Err(e)
                                case Ok(report) => Ok(report.Levels())
    }

    /** `diff`: compares the modules, then logs each module diff. */
    method Diff(fs: FileSystem, resolve: Resolver) returns (r: Result<seq<LogLevel>>)
      ensures IsDiffOutcome(fs, resolve, r)
    {
      var outcome := DiffModules(fs, resolve);
      if outcome.Err? {
        return Err(outcome.error);
      }
      r := Ok(outcome.value.Levels());
    }

    /** A module comparison that succeeds produced `d`: `d` is about the module `ModuleFor` pairs
        by name; a module the right side lacks lists every left entry and is never the same. */
    lemma ModuleOutcomeFacts(fs: FileSystem, resolve: Resolver, leftModule: Path, rightModules: seq<Path>,
                             d: ModuleDiff)
      requires IsModuleOutcome(fs, resolve, leftModule, rightModules, Ok(d))
      ensures d.mod == ModuleFor(leftModule, rightModules)
      ensures d.mod.right.None? ==> d.onlyInLeft == fs.children[leftModule] && d.onlyInRight == []
                                    && LogLevelOf(d) == ErrorLevel
    {
      var m := ModuleFor(leftModule, rightModules);
      if m.right.Some? {
        var report :| ModuleDiffer(groupDeployment, m).IsOutcome(fs, resolve, report)
                      && Ok(d) == (if report.Ok? then Ok(report.value.diff) else Err(report.error));
        ModuleDiffer(groupDeployment, m).OutcomeFacts(fs, resolve, report);
      }
    }

    /** One module diff per left module, in left listing order, each about that left directory,
        its name, and the first right directory of the same name. */
    lemma ModulesPairedByName(fs: FileSystem, resolve: Resolver, r: Result<DeploymentReport>)
      requires IsOutcome(fs, resolve, r) && r.Ok?
      ensures fs.ListDirectoriesIn(groupDeployment.leftDirectory).Ok?
      ensures fs.ListDirectoriesIn(groupDeployment.rightDirectory).Ok?
      ensures var leftModules := fs.ListDirectoriesIn(groupDeployment.leftDirectory).value;
              var rightModules := fs.ListDirectoriesIn(groupDeployment.rightDirectory).value;
              && |r.value.moduleDiffs| == |leftModules|
              && forall i :: 0 <= i < |leftModules| ==>
                   r.value.moduleDiffs[i].mod == ModuleFor(leftModules[i], rightModules)
    {
      var leftModules := fs.ListDirectoriesIn(groupDeployment.leftDirectory).value;
      var rightModules := fs.ListDirectoriesIn(groupDeployment.rightDirectory).value;
      forall i | 0 <= i < |leftModules|
        ensures r.value.moduleDiffs[i].mod == ModuleFor(leftModules[i], rightModules)
      {
        ModuleOutcomeFacts(fs, resolve, leftModules[i], rightModules, r.value.moduleDiffs[i]);
      }
    }

    /** The right-only names are the right module names no left module has, in right listing
        order: every right module name is either paired with a left module or right-only. */
    lemma RightOnlyNames(fs: FileSystem, resolve: Resolver, r: Result<DeploymentReport>)
      requires IsOutcome(fs, resolve, r) && r.Ok?
      ensures fs.ListDirectoriesIn(groupDeployment.rightDirectory).Ok?
      ensures var rightNames := FileNames(fs.ListDirectoriesIn(groupDeployment.rightDirectory).value);
              && IsSubsequence(r.value.onlyInRight, rightNames)
              && forall n :: n in rightNames ==>
                   (n in r.value.onlyInRight <==> forall d :: d in r.value.moduleDiffs ==> d.mod.name != n)
    {
      ModulesPairedByName(fs, resolve, r);
      var leftModules := fs.ListDirectoriesIn(groupDeployment.leftDirectory).value;
      var rightModules := fs.ListDirectoriesIn(groupDeployment.rightDirectory).value;
      RightOnlyPartition(leftModules, FileNames(rightModules), r.value.moduleDiffs, r.value.onlyInRight);
    }

    /** A left module the right side does not have is reported with every entry listed under it,
        and logged at error level. */
    lemma MissingModulesAreErrors(fs: FileSystem, resolve: Resolver, r: Result<DeploymentReport>, i: nat)
      requires IsOutcome(fs, resolve, r) && r.Ok?
      requires var rightModules := fs.ListDirectoriesIn(groupDeployment.rightDirectory);
               rightModules.Ok? && i < |r.value.moduleDiffs|
               && r.value.moduleDiffs[i].mod.name !in FileNames(rightModules.value)
      ensures r.value.moduleDiffs[i].mod.right.None? && r.value.moduleDiffs[i].mod.left.Some?
      ensures fs.IsDirectory(r.value.moduleDiffs[i].mod.left.value)
              && r.value.moduleDiffs[i].onlyInLeft == fs.children[r.value.moduleDiffs[i].mod.left.value]
      ensures r.value.moduleDiffs[i].onlyInRight == []
      ensures r.value.Levels()[i] == ErrorLevel
    {
      var leftModules := fs.ListDirectoriesIn(groupDeployment.leftDirectory).value;
      var rightModules := fs.ListDirectoriesIn(groupDeployment.rightDirectory).value;
      var d := r.value.moduleDiffs[i];
      assert IsModuleOutcome(fs, resolve, leftModules[i], rightModules, Ok(d));
      ModuleOutcomeFacts(fs, resolve, leftModules[i], rightModules, d);
      assert LogLevelOf(d) == ErrorLevel;
    }
  }
}
