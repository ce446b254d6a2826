/** The read-only view of the disk the differs work on: directory listings and archive contents.
    Listing a directory, reading an archive's entries and reading its manifest are the I/O the
    source performs; here they are lookups in a snapshot given as input. */
module FileSystems {
  import opened Paths
  import opened Results
  import opened Sequences

  /** A packaged archive: its entry names in archive order and, when its manifest resource can be
      read, the manifest's main attributes. */
  datatype Archive = Archive(entries: seq<string>, manifest: Option<map<string, string>>)

  /** The names each directory lists, in listing order, and the archives stored as files. A path
      is a directory exactly when it has a listing. */
  datatype FileSystem = FileSystem(children: map<Path, seq<string>>, archives: map<Path, Archive>)
  {
    predicate IsDirectory(p: Path)
    {
      p in children
    }

    /** `PathUtils.listFilesAndDirectoriesIn`: every child of `directory`, in listing order; fails
        when `directory` is not an existing directory. */
    function ListFilesAndDirectoriesIn(directory: Path): (r: Result<seq<Path>>)
      ensures r.Err? <==> directory !in children
      ensures r.Err? ==> r.error == NoSuchDirectory(directory)
      ensures r.Ok? ==> FileNames(r.value) == children[directory]
      ensures r.Ok? ==> forall p :: p in r.value ==> p == Resolve(directory, FileName(p))
    {
      if directory in children then
        var names := children[directory];
        Ok(seq(|names|, i requires 0 <= i < |names| => Resolve(directory, names[i])))
      else
        Err(NoSuchDirectory(directory))
    }

    /** `PathUtils.listPaths`: the children of `directory` that `keep` accepts, in listing order. */
    function ListPaths(directory: Path, keep: Path -> bool): (r: Result<seq<Path>>)
      ensures r.Err? <==> directory !in children
      ensures r.Ok? ==> forall p :: p in r.value ==>
                          keep(p) && p == Resolve(directory, FileName(p)) && FileName(p) in children[directory]
      ensures r.Ok? ==> forall i :: 0 <= i < |children[directory]| && keep(Resolve(directory, children[directory][i]))
                                   ==> Resolve(directory, children[directory][i]) in r.value
    {
      match ListFilesAndDirectoriesIn(directory)
      case Err(e) => Err(e)
      case Ok(paths) => Ok(Filter(paths, keep))
    }

    /** `PathUtils.listDirectoriesIn` */
    function ListDirectoriesIn(directory: Path): (r: Result<seq<Path>>)
      ensures r.Err? <==> directory !in children
      ensures r.Ok? ==> forall p :: p in r.value ==>
                          IsDirectory(p) && p == Resolve(directory, FileName(p)) && FileName(p) in children[directory]
      ensures r.Ok? ==> forall i :: 0 <= i < |children[directory]| && IsDirectory(Resolve(directory, children[directory][i]))
                                   ==> Resolve(directory, children[directory][i]) in r.value
    {
      ListPaths(directory, p => IsDirectory(p))
    }

    /** The entry names of an archive (`JarDiffer.entries`, `ZipDiffer.entries`); fails when the
        path is not a readable archive. */
    function Entries(archive: Path): (r: Result<seq<string>>)
      ensures r.Ok? <==> archive in archives
    {
      if archive in archives then Ok(archives[archive].entries) else Err(NotAnArchive(archive))
    }

    /** `JarUtils.readManifest(...).getMainAttributes()`; fails when the path is not an archive or
        its manifest resource cannot be read. */
    function ReadManifest(archive: Path): (r: Result<map<string, string>>)
      ensures r.Ok? <==> archive in archives && archives[archive].manifest.Some?
    {
      if archive !in archives then Err(NotAnArchive(archive))
      else match archives[archive].manifest
        case None => Err(InvalidManifest(archive))
        case Some(attributes) => Ok(attributes)
    }
  }

  /** `DeploymentDiffer.findWithFileName` (and the search in `Deployment.resolveDirectory`): the
      first path whose last segment is `name`, if any. */
  function FindWithFileName(paths: seq<Path>, name: string): (r: Option<Path>)
    ensures r.None? <==> forall i :: 0 <= i < |paths| ==> FileName(paths[i]) != name
    ensures r.Some? ==> exists i :: 0 <= i < |paths| && paths[i] == r.value && FileName(r.value) == name
                                    && forall j :: 0 <= j < i ==> FileName(paths[j]) != name
  {
    if paths == [] then None
    else if FileName(paths[0]) == name then Some(paths[0])
    else
      var r := FindWithFileName(paths[1..], name);
      assert r.Some? ==> exists i :: 1 <= i < |paths| && paths[i] == r.value && FileName(r.value) == name
                                     && forall j :: 0 <= j < i ==> FileName(paths[j]) != name by {
        if r.Some? {
          var i :| 0 <= i < |paths[1..]| && paths[1..][i] == r.value && FileName(r.value) == name
                   && forall j :: 0 <= j < i ==> FileName(paths[1..][j]) != name;
          assert paths[i + 1] == r.value;
          assert forall j :: 0 <= j < i + 1 ==> FileName(paths[j]) != name by {
            forall j | 0 <= j < i + 1 ensures FileName(paths[j]) != name {
              if j > 0 { assert paths[j] == paths[1..][j - 1]; }
            }
          }
        }
      }
      r
  }
}
