/**
 * The scenarios of the repository's integration tests, stated over the
 * parsed documents they write: scope filtering, parent-version inheritance,
 * the unknown-version failure and the unparseable document.
 */
module ResolverTestCases {
  import opened Wrappers
  import opened Exceptions
  import opened ArtifactCoordinates
  import opened XmlDependency
  import opened XmlProject
  import opened ArtifactRepository

  /** An entry with group, artifact and version given, and the given scope. */
  function Entry(c: Coordinates, scope: Option<string>): Dependency
  {
    Dependency(Some(c.groupId), Some(c.artifactId), Some(c.version), scope)
  }

  /**
   * Entries without scope, with scope `runtime` and with scope `test` yield
   * exactly the first two coordinates.
   */
  lemma ExpectedScopeDependencies(main: Coordinates, runtime: Coordinates, test: Coordinates, p: Project)
    requires p == Project(None, None, Some([Entry(main, None), Entry(runtime, Some("runtime")), Entry(test, Some("test"))]))
    ensures GetDependencies(p) == Ok({main, runtime})
  {
    assert "test" !in RequiredScopes;
    var entries := p.dependencies.value;
    assert ToRequiredDependency(entries[0], None) == Ok(Some(main));
    assert ToRequiredDependency(entries[1], None) == Ok(Some(runtime));
    assert ToRequiredDependency(entries[2], None) == Ok(None);
    assert entries[1..][1..] == [entries[2]] && [entries[2]][1..] == [];
    assert Collect([entries[2]], None) == Ok({});
    assert Collect(entries[1..], None) == Ok({runtime});
    assert Collect(entries, None) == Ok({main} + {runtime});
    assert GetDependencies(p) == Collect(entries, None);
    assert {main} + {runtime} == {main, runtime};
  }

  /**
   * The whole `get` of that document: no packaging, so the bundle is the
   * `.jar` beside the `.pom`, with exactly the two required dependencies.
   */
  lemma ExpectedScopeArtifact(
    repo: Repository, c: Coordinates,
    resolve: (Url, string) -> Result<Url, UrlError>,
    open: Url -> Result<InputStream, IoError>,
    unmarshal: seq<bv8> -> Result<Project, ParseError>,
    pomUrl: Url, input: InputStream, jarUrl: Url,
    main: Coordinates, runtime: Coordinates, test: Coordinates)
    requires resolve(repo.directory, GetPath(c, "pom")) == Ok(pomUrl)
    requires open(pomUrl) == Ok(input) && input.closeFailure.None?
    requires unmarshal(input.content)
          == Ok(Project(None, None, Some([Entry(main, None), Entry(runtime, Some("runtime")), Entry(test, Some("test"))])))
    requires resolve(repo.directory, GetPath(c, "jar")) == Ok(jarUrl)
    ensures Get(repo, c, resolve, open, unmarshal) == Ok(Artifact(jarUrl, {main, runtime}))
  {
    var p := unmarshal(input.content).value;
    ExpectedScopeDependencies(main, runtime, test, p);
    GetWithoutPackaging(repo, c, resolve, open, unmarshal, pomUrl, input, p, jarUrl);
  }

  /** An entry without a version, in a document whose parent declares one, takes the parent's. */
  lemma ParentVersionOnDependency(g: string, a: string, v: string, p: Project)
    requires p == Project(Some(Parent(Some(v))), None, Some([Dependency(Some(g), Some(a), None, None)]))
    ensures GetDependencies(p) == Ok({Coordinates(g, a, v)})
  {
    var entries := p.dependencies.value;
    assert ToRequiredDependency(entries[0], p.parent) == Ok(Some(Coordinates(g, a, v)));
    assert entries[1..] == [];
    assert Collect(entries, p.parent) == Ok({Coordinates(g, a, v)} + {});
    assert GetDependencies(p) == Collect(entries, p.parent);
  }

  /** The same entry under an empty `<parent>` element fails with "Unknown artifact version". */
  lemma DependencyVersionNotKnown(g: string, a: string, p: Project)
    requires p == Project(Some(Parent(None)), None, Some([Dependency(Some(g), Some(a), None, None)]))
    ensures GetDependencies(p) == Err(Unchecked(MessageOnly(UnknownVersionMessage)))
  {
  }

  /** A document the unmarshaller rejects makes `get` fail with a repository exception wrapping the parse error. */
  lemma ProjectFileInvalid(
    repo: Repository, c: Coordinates,
    resolve: (Url, string) -> Result<Url, UrlError>,
    open: Url -> Result<InputStream, IoError>,
    unmarshal: seq<bv8> -> Result<Project, ParseError>,
    pomUrl: Url, input: InputStream, pe: ParseError)
    requires resolve(repo.directory, GetPath(c, "pom")) == Ok(pomUrl)
    requires open(pomUrl) == Ok(input)
    requires unmarshal(input.content) == Err(pe)
    ensures Get(repo, c, resolve, open, unmarshal) == Err(RepositoryFailure(CauseOnly(JaxbCause(pe))))
  {
    GetEarlyFailures(repo, c, resolve, open, unmarshal);
  }
}
