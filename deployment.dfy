/** `Deployment` and `GroupDeployment`: the immutable configuration of one comparison. */
module Deployments {
  import opened Paths
  import opened Results
  import opened Strings
  import opened FileSystems
  import opened MismatchFilters
  import opened Dependencies

  /** The display name, root directory and version of both sides, plus the three filter slots:
      one per archive classifier, one for a module's files, one for its dependencies. */
  datatype Deployment = Deployment(
    leftName: string,
    leftDirectory: Path,
    rightName: string,
    rightDirectory: Path,
    version: string,
    jarMismatchFilters: map<string, MismatchFilter<string>>,
    moduleMismatchFilter: MismatchFilter<string>,
    pomMismatchFilter: MismatchFilter<Dependency>)
  {
    /** The filter registered for `classifier`, or the no-op filter when there is none. */
    function JarMismatchFilter(classifier: string): (f: MismatchFilter<string>)
      ensures classifier in jarMismatchFilters ==> f == jarMismatchFilters[classifier]
      ensures classifier !in jarMismatchFilters ==> forall k :: !f.ignoreInLeft(k) && !f.ignoreInRight(k)
    {
      if classifier in jarMismatchFilters then jarMismatchFilters[classifier] else Noop()
    }

    /** A copy whose filter for `classifier` is `filter`; every other classifier keeps its filter
        and every other field is carried over. */
    function RegisterJarMismatchFilter(classifier: string, filter: MismatchFilter<string>): (d: Deployment)
      ensures d.JarMismatchFilter(classifier) == filter
      ensures forall c :: c != classifier ==> d.JarMismatchFilter(c) == JarMismatchFilter(c)
      ensures d.jarMismatchFilters.Keys == jarMismatchFilters.Keys + {classifier}
      ensures d.(jarMismatchFilters := jarMismatchFilters) == this
    {
      this.(jarMismatchFilters := jarMismatchFilters[classifier := filter])
    }

    /** A copy whose module filter is `filter`, every other field carried over. */
    function SetModuleMismatchFilter(filter: MismatchFilter<string>): (d: Deployment)
      ensures d.moduleMismatchFilter == filter && d.(moduleMismatchFilter := moduleMismatchFilter) == this
    {
      this.(moduleMismatchFilter := filter)
    }

    /** A copy whose dependency filter is `filter`, every other field carried over. */
    function SetPomMismatchFilter(filter: MismatchFilter<Dependency>): (d: Deployment)
      ensures d.pomMismatchFilter == filter && d.(pomMismatchFilter := pomMismatchFilter) == this
    {
      this.(pomMismatchFilter := filter)
    }

    /** Where `resolveGroupId` ends up: both roots descended along the segments of `groupId`. */
    function GroupDeploymentOf(fs: FileSystem, unique: bool, groupId: string): Result<GroupDeployment>
    {
      var parts := Split(groupId, '.');
      match Descend(fs, unique, leftDirectory, parts)
      case Err(e) => Err(e)
      case Ok(targetLeft) =>
        match Descend(fs, unique, rightDirectory, parts)
        case Err(e) => Err(e)
        case Ok(targetRight) => Ok(GroupDeployment(this, targetLeft, targetRight, groupId))
    }

    /** `resolveGroupId`: splits the group id on "." and walks down one segment at a time, first
        from the left root, then from the right root. */
    method ResolveGroupId(fs: FileSystem, unique: bool, groupId: string) returns (r: Result<GroupDeployment>)
      ensures r == GroupDeploymentOf(fs, unique, groupId)
    {
      var parts := Split(groupId, '.');
      var targetLeft := WalkDown(fs, unique, leftDirectory, parts);
      if targetLeft.Err? {
        return Err(targetLeft.error);
      }
      var targetRight := WalkDown(fs, unique, rightDirectory, parts);
      if targetRight.Err? {
        return Err(targetRight.error);
      }
      r := Ok(GroupDeployment(this, targetLeft.value, targetRight.value, groupId));
    }
  }

  /** The loop of `resolveGroupId` on one side: resolves each segment in turn below the directory
      reached so far. */
  method WalkDown(fs: FileSystem, unique: bool, root: Path, parts: seq<string>) returns (r: Result<Path>)
    ensures r == Descend(fs, unique, root, parts)
  {
    var target := root;
    assert parts[0..] == parts;
    for i := 0 to |parts|
      invariant Descend(fs, unique, root, parts) == Descend(fs, unique, target, parts[i..])
    {
      var next := ResolveDirectory(fs, unique, target, parts[i]);
      DescendStep(fs, unique, target, parts, i);
      if next.Err? {
        return Err(next.error);
      }
      target := next.value;
    }
    r := Ok(target);
  }

  /** The five-argument constructor: no classifier filter registered, no-op module and
      dependency filters. */
  function NewDeployment(leftName: string, leftDirectory: Path, rightName: string, rightDirectory: Path,
                         version: string): (d: Deployment)
    ensures d.leftName == leftName && d.leftDirectory == leftDirectory
    ensures d.rightName == rightName && d.rightDirectory == rightDirectory && d.version == version
    ensures d.jarMismatchFilters == map[]
    ensures forall k :: !d.moduleMismatchFilter.ignoreInLeft(k) && !d.moduleMismatchFilter.ignoreInRight(k)
    ensures forall k :: !d.pomMismatchFilter.ignoreInLeft(k) && !d.pomMismatchFilter.ignoreInRight(k)
  {
    Deployment(leftName, leftDirectory, rightName, rightDirectory, version, map[], Noop(), Noop())
  }

  /** `Deployment.resolveDirectory`: the first entry of `directory` named `name`; fails when the
      directory cannot be listed, when no entry has that name, and, when `unique` is set, when
      the directory holds anything else. */
  function ResolveDirectory(fs: FileSystem, unique: bool, directory: Path, name: string): (r: Result<Path>)
    ensures r.Ok? <==> (directory in fs.children && name in fs.children[directory]
                        && (unique ==> |fs.children[directory]| == 1))
    ensures r.Ok? ==> r.value == Resolve(directory, name)
    ensures directory in fs.children && name !in fs.children[directory]
            ==> r == Err(DirectoryNotFound(name, directory))
  {
    match fs.ListFilesAndDirectoriesIn(directory)
    case Err(e) => Err(e)
    case Ok(candidates) =>
      match FindWithFileName(candidates, name)
      case None =>
        assert forall i :: 0 <= i < |candidates| ==> FileNames(candidates)[i] != name;
        Err(DirectoryNotFound(name, directory))
      case Some(result) =>
        if unique && |candidates| != 1 then Err(NotUnique(directory, name, candidates))
        else Ok(result)
  }

  /** The directory reached from `directory` by resolving each of `parts` in turn. */
  function Descend(fs: FileSystem, unique: bool, directory: Path, parts: seq<string>): Result<Path>
    decreases parts
  {
    if parts == [] then Ok(directory)
    else match ResolveDirectory(fs, unique, directory, parts[0])
      case Err(e) => Err(e)
      case Ok(next) => Descend(fs, unique, next, parts[1..])
  }

  /** One step of a descent: resolve the next segment, then descend along the rest. */
  lemma DescendStep(fs: FileSystem, unique: bool, directory: Path, parts: seq<string>, i: nat)
    requires i < |parts|
    ensures var next := ResolveDirectory(fs, unique, directory, parts[i]);
      Descend(fs, unique, directory, parts[i..])
      == if next.Err? then Err(next.error) else Descend(fs, unique, next.value, parts[i + 1..])
  {
    assert parts[i..][1..] == parts[i + 1..];
  }

  /** The prefixes of `parts` past its first segment, seen from the first segment's directory. */
  lemma ShiftedPrefixes(directory: Path, parts: seq<string>)
    requires parts != []
    ensures forall i :: 0 <= i < |parts| - 1 ==>
              Resolve(directory, parts[0]) + parts[1..][..i] == directory + parts[..i + 1] && parts[1..][i] == parts[i + 1]
    ensures directory + parts[..0] == directory
    ensures Resolve(directory, parts[0]) + parts[1..] == directory + parts
  {
    forall i | 0 <= i < |parts| - 1
      ensures Resolve(directory, parts[0]) + parts[1..][..i] == directory + parts[..i + 1]
    {
      assert parts[..i + 1] == [parts[0]] + parts[1..][..i];
    }
  }

  /** A descent succeeds exactly when every intermediate directory holds the next segment, and
      then ends at the directory extended by all segments, in order. */
  lemma {:induction false} DescendFacts(fs: FileSystem, unique: bool, directory: Path, parts: seq<string>)
    decreases parts
    ensures Descend(fs, unique, directory, parts).Ok?
            <==> forall i :: 0 <= i < |parts| ==> ResolveDirectory(fs, unique, directory + parts[..i], parts[i]).Ok?
    ensures Descend(fs, unique, directory, parts).Ok? ==> Descend(fs, unique, directory, parts).value == directory + parts
  {
    if parts != [] {
      var next := Resolve(directory, parts[0]);
      DescendFacts(fs, unique, next, parts[1..]);
      ShiftedPrefixes(directory, parts);
      if ResolveDirectory(fs, unique, directory, parts[0]).Ok? {
        forall i | 0 < i < |parts|
          ensures ResolveDirectory(fs, unique, directory + parts[..i], parts[i])
                  == ResolveDirectory(fs, unique, next + parts[1..][..i - 1], parts[1..][i - 1])
        {
        }
      }
    }
  }

  /** `GroupDeployment`: a deployment plus the group id and the directory it leads to on each side. */
  datatype GroupDeployment = GroupDeployment(deployment: Deployment, leftDirectory: Path, rightDirectory: Path, groupId: string)
  {
    /** The deployment's own left root, not the group directory. */
    function LeftRoot(): Path { deployment.leftDirectory }
    function RightRoot(): Path { deployment.rightDirectory }
    function LeftName(): string { deployment.leftName }
    function RightName(): string { deployment.rightName }
    function Version(): string { deployment.version }
  }

  /** A resolved group deployment keeps the deployment's roots and names, and its group
      directories are the roots extended by the group id's segments. */
  lemma GroupDeploymentShape(d: Deployment, fs: FileSystem, unique: bool, groupId: string)
    requires d.GroupDeploymentOf(fs, unique, groupId).Ok?
    ensures var gd := d.GroupDeploymentOf(fs, unique, groupId).value;
      && gd.deployment == d && gd.groupId == groupId
      && gd.LeftRoot() == d.leftDirectory && gd.RightRoot() == d.rightDirectory
      && gd.LeftName() == d.leftName && gd.RightName() == d.rightName && gd.Version() == d.version
      && gd.leftDirectory == d.leftDirectory + Split(groupId, '.')
      && gd.rightDirectory == d.rightDirectory + Split(groupId, '.')
  {
    DescendFacts(fs, unique, d.leftDirectory, Split(groupId, '.'));
    DescendFacts(fs, unique, d.rightDirectory, Split(groupId, '.'));
  }
}
