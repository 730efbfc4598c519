/**
 * One `<dependency>` entry of a project document and the rule that turns it
 * into required coordinates: the scope filter and the parent-version fallback.
 */
module XmlDependency {
  import opened Wrappers
  import opened Exceptions
  import opened ArtifactCoordinates

  /** The scopes whose dependencies are needed to run the artifact. */
  const RequiredScopes: set<string> := {"compile", "runtime"}

  /** The document's `<parent>` element; its `<version>` may be missing. */
  datatype Parent = Parent(version: Option<string>)

  /** A `<dependency>` entry; every child element may be missing. */
  datatype Dependency = Dependency(
    groupId: Option<string>,
    artifactId: Option<string>,
    version: Option<string>,
    scope: Option<string>)

  /** What extracting one entry may throw. */
  datatype DependencyError =
    | Unchecked(exception: RepositoryException)  // the unchecked wrapper around a repository exception
    | NullPointer                                // a non-null check of the coordinates constructor failed

  /** The entry passes the scope filter: no scope, or a required one. */
  predicate IsRequired(d: Dependency)
  {
    d.scope.None? || d.scope.value in RequiredScopes
  }

  /** The parent declares a version. */
  predicate HasParentVersion(parent: Option<Parent>)
  {
    parent.Some? && parent.value.version.Some?
  }

  /**
   * `versionFrom`: the parent's version, or the "Unknown artifact version"
   * failure when there is no parent or it has no version.
   */
  function VersionFrom(parent: Option<Parent>): (r: Result<string, DependencyError>)
    ensures r.Ok? <==> HasParentVersion(parent)
    ensures r.Ok? ==> r.value == parent.value.version.value
    ensures r.Err? ==> r.error == Unchecked(MessageOnly(UnknownVersionMessage))
  {
    match parent
    case None => Err(Unchecked(MessageOnly(UnknownVersionMessage)))
    case Some(p) =>
      match p.version
      case None => Err(Unchecked(MessageOnly(UnknownVersionMessage)))
      case Some(v) => Ok(v)
  }

  /**
   * The version an included entry ends up with: its own, else the parent's.
   * The fallback is consulted only when the entry has no version.
   */
  function EffectiveVersion(d: Dependency, parent: Option<Parent>): Result<string, DependencyError>
  {
    match d.version
    case Some(v) => Ok(v)
    case None => VersionFrom(parent)
  }

  /**
   * `toRequiredDependency`: `Ok(None)` (the source's `null`) for an entry the
   * scope filter drops; otherwise the version is resolved first and the
   * coordinates are built second, so a missing version is reported before a
   * missing group or artifact identifier.
   */
  function ToRequiredDependency(d: Dependency, parent: Option<Parent>): (r: Result<Option<Coordinates>, DependencyError>)
    ensures r == Ok(None) <==> !IsRequired(d)
    ensures r.Ok? && r.value.Some? ==>
      && Some(r.value.value.groupId) == d.groupId
      && Some(r.value.value.artifactId) == d.artifactId
    ensures r.Ok? && r.value.Some? && d.version.Some? ==> r.value.value.version == d.version.value
    ensures r.Ok? && r.value.Some? && d.version.None? ==>
      HasParentVersion(parent) && r.value.value.version == parent.value.version.value
    ensures r.Err? <==>
      IsRequired(d) && ((d.version.None? && !HasParentVersion(parent)) || d.groupId.None? || d.artifactId.None?)
    ensures r.Err? ==>
      r.error == if d.version.None? && !HasParentVersion(parent)
                 then Unchecked(MessageOnly(UnknownVersionMessage)) else NullPointer
  {
    if IsRequired(d) then
      match EffectiveVersion(d, parent)
      case Err(e) => Err(e)
      case Ok(v) =>
        match New(d.groupId, d.artifactId, Some(v))
        case None => Err(NullPointer)
        case Some(c) => Ok(Some(c))
    else Ok(None)
  }

  /** An entry whose group and artifact identifiers are both present. */
  predicate Identified(d: Dependency)
  {
    d.groupId.Some? && d.artifactId.Some?
  }

  /** An excluded entry never fails, whatever its version and parent. */
  lemma ExcludedNeverFails(d: Dependency, parent: Option<Parent>)
    requires d.scope.Some? && d.scope.value !in RequiredScopes
    ensures ToRequiredDependency(d, parent) == Ok(None)
  {
  }

  /** An included, identified entry with its own version yields it verbatim; the parent is ignored. */
  lemma ExplicitVersionVerbatim(d: Dependency, parent: Option<Parent>)
    requires IsRequired(d) && Identified(d) && d.version.Some?
    ensures ToRequiredDependency(d, parent)
         == Ok(Some(Coordinates(d.groupId.value, d.artifactId.value, d.version.value)))
  {
  }

  /** An included, identified entry without a version inherits the parent's version. */
  lemma InheritsParentVersion(d: Dependency, parent: Option<Parent>)
    requires IsRequired(d) && Identified(d) && d.version.None? && HasParentVersion(parent)
    ensures ToRequiredDependency(d, parent)
         == Ok(Some(Coordinates(d.groupId.value, d.artifactId.value, parent.value.version.value)))
  {
  }

  /**
   * An included entry without a version fails with "Unknown artifact version"
   * when the parent is missing and equally when it has no version.
   */
  lemma UnknownVersionWithoutParentVersion(d: Dependency)
    requires IsRequired(d) && d.version.None?
    ensures ToRequiredDependency(d, None) == Err(Unchecked(MessageOnly(UnknownVersionMessage)))
    ensures ToRequiredDependency(d, Some(Parent(None))) == Err(Unchecked(MessageOnly(UnknownVersionMessage)))
  {
  }

  /** The only verdicts the parent can influence concern entries without a version of their own. */
  lemma ParentMattersOnlyWithoutVersion(d: Dependency, p1: Option<Parent>, p2: Option<Parent>)
    requires d.version.Some? || !IsRequired(d)
    ensures ToRequiredDependency(d, p1) == ToRequiredDependency(d, p2)
  {
  }
}
