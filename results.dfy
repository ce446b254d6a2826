/** Optional values, the failures the system raises, and results that carry them. */
module Results {
  import opened Paths

  datatype Option<+T> = None | Some(value: T)

  /** The exceptions the diff engine raises (or lets through from its collaborators). */
  datatype Error =
    | NoSuchDirectory(directory: Path)                           // Files.list on a missing directory
    | DirectoryNotFound(name: string, directory: Path)           // Deployment.resolveDirectory
    | NotUnique(directory: Path, name: string, candidates: seq<Path>)
    | UnexpectedJar(moduleName: string, fileName: string)       // ModuleDiffer.getJars
    | IndexOutOfBounds(fileName: string, begin: int, end: int)   // String.substring
    | NotAnArchive(path: Path)                                   // the archive cannot be opened
    | InvalidManifest(path: Path)                                // the manifest resource cannot be read
    | UnresolvablePom(groupId: string, artifactId: string, version: string)
    | Usage(argumentCount: nat)                                  // Application.run

  datatype Result<+T> = Ok(value: T) | Err(error: Error)

  /** The level a report is logged at. */
  datatype LogLevel = DebugLevel | InfoLevel | ErrorLevel
}
