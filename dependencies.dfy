/** The dependency records the dependency resolver returns. */
module Dependencies {
  import opened Results

  /** One declared dependency: the artifact's coordinate (group, artifact, version, classifier),
      its scope, and its optional flag, which may be left unset. */
  datatype Dependency = Dependency(
    groupId: string,
    artifactId: string,
    version: string,
    classifier: string,
    scope: string,
    optional: Option<bool>)
  {
    /** `isOptional()`: an unset flag reads as false. */
    predicate IsOptional()
    {
      optional == Some(true)
    }
  }
}
