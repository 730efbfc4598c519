/**
 * The repository: resolving coordinates into an artifact (bundle location and
 * direct dependencies) by reading the project document at the coordinates'
 * `.pom` path. URL resolution, opening the stream and unmarshalling the XML
 * are collaborators handed in as functions.
 */
module ArtifactRepository {
  import opened Wrappers
  import opened Exceptions
  import opened ArtifactCoordinates
  import opened XmlDependency
  import opened XmlProject

  /** The packaging-to-extension table. */
  const ExtensionMap: map<string, string> := map[
    "jar" := "jar",
    "ejb" := "jar",
    "ejb-client" := "jar",
    "war" := "war",
    "ear" := "ear",
    "pom" := "pom"]

  /** The extension of an absent or unknown packaging. */
  const DefaultExtension: string := "jar"

  /** A URL, compared field by field. */
  datatype Url = Url(protocol: string, host: string, port: int, file: string)

  /** A repository is its directory URL. */
  datatype Repository = Repository(directory: Url)

  /** What `equals` may be handed: another repository, or any other kind of object. */
  datatype Object = RepositoryObject(repository: Repository) | NotRepository

  /** A resolved artifact: where to fetch its bundle, and its direct runtime dependencies. */
  datatype Artifact = Artifact(location: Url, dependencies: set<Coordinates>)

  /** An opened stream: the bytes it delivers and how closing it ends. */
  datatype InputStream = InputStream(content: seq<bv8>, closeFailure: Option<IoError>)

  /** What may escape the try block of `get`, before the catch clauses see it. */
  datatype Thrown =
    | JaxbThrown(parse: ParseError)
    | UrlThrown(url: UrlError)
    | UncheckedThrown(exception: RepositoryException)
    | NullPointerThrown
    | IoThrown(io: IoError)

  /** What `get` reports to its caller. */
  datatype GetFailure =
    | RepositoryFailure(exception: RepositoryException)  // the checked repository exception
    | IoFailure(io: IoError)                             // an I/O exception, passed through
    | NullPointerFailure                                 // a runtime exception, not caught

  /** `fromPackaging`: the table's extension, or the default when absent or not in the table. */
  function FromPackaging(packaging: Option<string>): (r: string)
    ensures r in {"jar", "war", "ear", "pom"}
    ensures packaging.None? ==> r == DefaultExtension
  {
    match packaging
    case None => DefaultExtension
    case Some(p) => if p in ExtensionMap then ExtensionMap[p] else DefaultExtension
  }

  /** `file`: the repository directory resolved against a relative path. */
  function File(repo: Repository, relativePath: string, resolve: (Url, string) -> Result<Url, UrlError>): Result<Url, UrlError>
  {
    resolve(repo.directory, relativePath)
  }

  /**
   * The statements inside the try-with-resources, once the stream is open:
   * unmarshal it, then build the bundle location (the first constructor
   * argument) and only then collect the dependencies (the second).
   */
  function ReadArtifact(
    repo: Repository, c: Coordinates, input: InputStream,
    resolve: (Url, string) -> Result<Url, UrlError>,
    unmarshal: seq<bv8> -> Result<Project, ParseError>): (r: Result<Artifact, Thrown>)
    ensures r.Err? ==> !r.error.IoThrown?
    ensures r.Err? && r.error.UncheckedThrown? ==> r.error.exception == MessageOnly(UnknownVersionMessage)
    ensures r.Ok? ==> unmarshal(input.content).Ok? && GetDependencies(unmarshal(input.content).value) == Ok(r.value.dependencies)
  {
    match unmarshal(input.content)
    case Err(pe) => Err(JaxbThrown(pe))
    case Ok(project) =>
      match File(repo, GetPath(c, GetExtension(project, FromPackaging)), resolve)
      case Err(ue) => Err(UrlThrown(ue))
      case Ok(location) =>
        match GetDependencies(project)
        case Err(Unchecked(e)) => Err(UncheckedThrown(e))
        case Err(NullPointer) => Err(NullPointerThrown)
        case Ok(deps) => Ok(Artifact(location, deps))
  }

  /**
   * The try-with-resources: build the document URL, open it, run the body and
   * close the stream. A failure of the body wins over a failure to close.
   */
  function TryBlock(
    repo: Repository, c: Coordinates,
    resolve: (Url, string) -> Result<Url, UrlError>,
    open: Url -> Result<InputStream, IoError>,
    unmarshal: seq<bv8> -> Result<Project, ParseError>): (r: Result<Artifact, Thrown>)
    ensures r.Err? && r.error.UncheckedThrown? ==> r.error.exception == MessageOnly(UnknownVersionMessage)
    ensures r.Ok? ==> var pomUrl := File(repo, GetPath(c, "pom"), resolve);
      pomUrl.Ok? && open(pomUrl.value).Ok? && open(pomUrl.value).value.closeFailure.None?
  {
    match File(repo, GetPath(c, "pom"), resolve)
    case Err(ue) => Err(UrlThrown(ue))
    case Ok(pomUrl) =>
      match open(pomUrl)
      case Err(io) => Err(IoThrown(io))
      case Ok(input) =>
        match ReadArtifact(repo, c, input, resolve, unmarshal)
        case Err(t) => Err(t)
        case Ok(a) =>
          match input.closeFailure
          case Some(io) => Err(IoThrown(io))
          case None => Ok(a)
  }

  /**
   * The catch clauses: parse and URL failures are wrapped as causes, the
   * unchecked wrapper is unwrapped, and everything else passes through.
   */
  function Catch(t: Thrown): (f: GetFailure)
    ensures f.RepositoryFailure? <==> t.JaxbThrown? || t.UrlThrown? || t.UncheckedThrown?
    ensures t.UncheckedThrown? ==> f == RepositoryFailure(t.exception)
    ensures t.IoThrown? ==> f == IoFailure(t.io)
    ensures t.JaxbThrown? ==> f == RepositoryFailure(CauseOnly(JaxbCause(t.parse)))
    ensures t.UrlThrown? ==> f == RepositoryFailure(CauseOnly(UrlCause(t.url)))
    ensures t.NullPointerThrown? ==> f == NullPointerFailure
  {
    match t
    case JaxbThrown(pe) => RepositoryFailure(CauseOnly(JaxbCause(pe)))
    case UrlThrown(ue) => RepositoryFailure(CauseOnly(UrlCause(ue)))
    case UncheckedThrown(e) => RepositoryFailure(e)
    case NullPointerThrown => NullPointerFailure
    case IoThrown(io) => IoFailure(io)
  }

  /**
   * `get`: the artifact, or one of a closed set of failures. A repository
   * failure either carries the message "Unknown artifact version" or wraps a
   * parse or URL cause.
   */
  function Get(
    repo: Repository, c: Coordinates,
    resolve: (Url, string) -> Result<Url, UrlError>,
    open: Url -> Result<InputStream, IoError>,
    unmarshal: seq<bv8> -> Result<Project, ParseError>): (r: Result<Artifact, GetFailure>)
    ensures r.Err? && r.error.RepositoryFailure? ==>
      r.error.exception == MessageOnly(UnknownVersionMessage) || r.error.exception.CauseOnly?
  {
    match TryBlock(repo, c, resolve, open, unmarshal)
    case Ok(a) => Ok(a)
    case Err(t) => Err(Catch(t))
  }

  /** `hashCode`: the hash of the directory, whatever URL hash is used. */
  function HashCode(repo: Repository, urlHash: Url -> int): int
  {
    urlHash(repo.directory)
  }

  /** `equals`: another repository with an equal directory. */
  predicate Equals(repo: Repository, obj: Object)
    ensures Equals(repo, obj) <==> obj == RepositoryObject(repo)
  {
    match obj
    case RepositoryObject(other) => repo.directory == other.directory
    case NotRepository => false
  }

  // ----- packaging -----

  /** The table, entry by entry. */
  lemma FromPackagingTable()
    ensures FromPackaging(Some("jar")) == "jar"
    ensures FromPackaging(Some("ejb")) == "jar"
    ensures FromPackaging(Some("ejb-client")) == "jar"
    ensures FromPackaging(Some("war")) == "war"
    ensures FromPackaging(Some("ear")) == "ear"
    ensures FromPackaging(Some("pom")) == "pom"
  {
  }

  /** Any packaging outside the table, like an absent one, maps to "jar". */
  lemma FromPackagingDefault(packaging: Option<string>)
    requires packaging.None? || packaging.value !in {"jar", "ejb", "ejb-client", "war", "ear", "pom"}
    ensures FromPackaging(packaging) == "jar"
  {
  }

  /** Every extension is its own packaging: mapping twice is mapping once. */
  lemma FromPackagingIdempotent(packaging: Option<string>)
    ensures FromPackaging(Some(FromPackaging(packaging))) == FromPackaging(packaging)
  {
  }

  // ----- get -----

  /** `get` reads no document but the one at the `.pom` path. */
  lemma GetReadsOnlyPom(
    repo: Repository, c: Coordinates,
    resolve: (Url, string) -> Result<Url, UrlError>,
    open1: Url -> Result<InputStream, IoError>,
    open2: Url -> Result<InputStream, IoError>,
    unmarshal: seq<bv8> -> Result<Project, ParseError>)
    requires var pom := resolve(repo.directory, GetPath(c, "pom")); pom.Ok? ==> open1(pom.value) == open2(pom.value)
    ensures Get(repo, c, resolve, open1, unmarshal) == Get(repo, c, resolve, open2, unmarshal)
  {
  }

  /** Failures before the document is parsed: URL failures are wrapped, I/O failures passed through unchanged. */
  lemma GetEarlyFailures(
    repo: Repository, c: Coordinates,
    resolve: (Url, string) -> Result<Url, UrlError>,
    open: Url -> Result<InputStream, IoError>,
    unmarshal: seq<bv8> -> Result<Project, ParseError>)
    ensures var pom := resolve(repo.directory, GetPath(c, "pom"));
      && (pom.Err? ==> Get(repo, c, resolve, open, unmarshal) == Err(RepositoryFailure(CauseOnly(UrlCause(pom.error)))))
      && (pom.Ok? && open(pom.value).Err? ==>
            Get(repo, c, resolve, open, unmarshal) == Err(IoFailure(open(pom.value).error)))
      && (pom.Ok? && open(pom.value).Ok? && unmarshal(open(pom.value).value.content).Err? ==>
            Get(repo, c, resolve, open, unmarshal)
            == Err(RepositoryFailure(CauseOnly(JaxbCause(unmarshal(open(pom.value).value.content).error)))))
  {
  }

  /**
   * Once the document is parsed: `get` succeeds exactly when the bundle URL
   * resolves, the dependencies are collected and the stream closes, and then
   * yields the URL of the path with the packaging's extension and exactly the
   * collected dependencies; otherwise it fails with the first failure met.
   */
  lemma GetAfterParse(
    repo: Repository, c: Coordinates,
    resolve: (Url, string) -> Result<Url, UrlError>,
    open: Url -> Result<InputStream, IoError>,
    unmarshal: seq<bv8> -> Result<Project, ParseError>,
    pomUrl: Url, input: InputStream, project: Project)
    requires resolve(repo.directory, GetPath(c, "pom")) == Ok(pomUrl)
    requires open(pomUrl) == Ok(input)
    requires unmarshal(input.content) == Ok(project)
    ensures var r := Get(repo, c, resolve, open, unmarshal);
      var bundle := resolve(repo.directory, GetPath(c, FromPackaging(project.packaging)));
      var deps := GetDependencies(project);
      && (r.Ok? <==> bundle.Ok? && deps.Ok? && input.closeFailure.None?)
      && (r.Ok? ==> r.value == Artifact(bundle.value, deps.value))
      && (bundle.Err? ==> r == Err(RepositoryFailure(CauseOnly(UrlCause(bundle.error)))))
      && (bundle.Ok? && deps.Err? && deps.error.Unchecked? ==> r == Err(RepositoryFailure(deps.error.exception)))
      && (bundle.Ok? && deps.Err? && deps.error.NullPointer? ==> r == Err(NullPointerFailure))
      && (bundle.Ok? && deps.Ok? && input.closeFailure.Some? ==> r == Err(IoFailure(input.closeFailure.value)))
  {
  }

  /**
   * An I/O failure reaching the caller is the one met opening or closing the
   * document's stream, never anything else.
   */
  lemma GetIoFailureOrigin(
    repo: Repository, c: Coordinates,
    resolve: (Url, string) -> Result<Url, UrlError>,
    open: Url -> Result<InputStream, IoError>,
    unmarshal: seq<bv8> -> Result<Project, ParseError>,
    io: IoError)
    requires Get(repo, c, resolve, open, unmarshal) == Err(IoFailure(io))
    ensures var pom := resolve(repo.directory, GetPath(c, "pom"));
      pom.Ok? && (open(pom.value) == Err(io) || (open(pom.value).Ok? && open(pom.value).value.closeFailure == Some(io)))
  {
  }

  /**
   * A document without a packaging yields the bundle at the `.jar` path
   * beside the document, together with the document's dependencies.
   */
  lemma GetWithoutPackaging(
    repo: Repository, c: Coordinates,
    resolve: (Url, string) -> Result<Url, UrlError>,
    open: Url -> Result<InputStream, IoError>,
    unmarshal: seq<bv8> -> Result<Project, ParseError>,
    pomUrl: Url, input: InputStream, project: Project, jarUrl: Url)
    requires resolve(repo.directory, GetPath(c, "pom")) == Ok(pomUrl)
    requires open(pomUrl) == Ok(input) && input.closeFailure.None?
    requires unmarshal(input.content) == Ok(project) && project.packaging.None?
    requires resolve(repo.directory, GetPath(c, "jar")) == Ok(jarUrl)
    requires GetDependencies(project).Ok?
    ensures Get(repo, c, resolve, open, unmarshal) == Ok(Artifact(jarUrl, GetDependencies(project).value))
    ensures var pom := GetPath(c, "pom");
      |pom| > 3 && GetPath(c, "jar") == pom[..|pom| - 3] + "jar"
  {
    GetAfterParse(repo, c, resolve, open, unmarshal, pomUrl, input, project);
    SiblingPaths(c, "pom", "jar");
  }

  /**
   * One included entry without a version in a document whose parent has no
   * version makes `get` fail with the repository exception carrying the
   * message "Unknown artifact version", and no artifact.
   */
  lemma GetUnknownVersion(
    repo: Repository, c: Coordinates,
    resolve: (Url, string) -> Result<Url, UrlError>,
    open: Url -> Result<InputStream, IoError>,
    unmarshal: seq<bv8> -> Result<Project, ParseError>,
    pomUrl: Url, input: InputStream, project: Project, k: nat)
    requires resolve(repo.directory, GetPath(c, "pom")) == Ok(pomUrl)
    requires open(pomUrl) == Ok(input)
    requires unmarshal(input.content) == Ok(project)
    requires resolve(repo.directory, GetPath(c, FromPackaging(project.packaging))).Ok?
    requires project.dependencies.Some? && k < |project.dependencies.value|
    requires forall d :: d in project.dependencies.value ==> Identified(d)
    requires IsRequired(project.dependencies.value[k]) && project.dependencies.value[k].version.None?
    requires !HasParentVersion(project.parent)
    ensures Get(repo, c, resolve, open, unmarshal) == Err(RepositoryFailure(MessageOnly(UnknownVersionMessage)))
  {
    UnknownVersionAborts(project, k);
    GetAfterParse(repo, c, resolve, open, unmarshal, pomUrl, input, project);
  }

  // ----- equality and hash -----

  /** `equals` holds exactly for repositories with equal directories, and is false for other objects. */
  lemma EqualsIffSameDirectory(r: Repository, s: Repository)
    ensures Equals(r, RepositoryObject(s)) <==> r.directory == s.directory
    ensures Equals(r, RepositoryObject(r))
    ensures !Equals(r, NotRepository)
  {
  }

  /** Equal repositories hash equal: the hash reads the directory only. */
  lemma HashConsistentWithEquals(r: Repository, s: Repository, urlHash: Url -> int)
    requires Equals(r, RepositoryObject(s))
    ensures HashCode(r, urlHash) == HashCode(s, urlHash)
  {
  }
}
