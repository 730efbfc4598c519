# Maven artifact resolution, modelled in Dafny

This project models the resolution core of a small Maven-artifact resolver.
Given a repository directory and an artifact's coordinates (groupId,
artifactId, version), the resolver

1. maps the coordinates to a path in Maven's default repository layout,
   `/g1/g2/.../artifactId/version/artifactId-version.ext`;
2. reads the project document (`.pom`) at that path;
3. maps the document's packaging to the bundle's extension (`jar`, `ejb`,
   `ejb-client` → `jar`; `war`, `ear`, `pom` → themselves; anything else or
   nothing → `jar`) and builds the bundle location beside the document;
4. collects the direct dependencies: entries with no scope or scope
   `compile`/`runtime` are kept, an entry without a version takes the
   parent's, and an included one without either aborts everything with
   "Unknown artifact version";
5. reports failures in three kinds: the repository exception carrying that
   message, the repository exception wrapping a parse or URL failure, and
   I/O failures passed through unchanged.

Everything is pure: datatypes, functions and lemmas. Each core class has a
module (`XMLParent` shares `XmlDependency`, `Artifact` shares
`ArtifactRepository`); `Wrappers`, `Strings` and `Exceptions` are helpers, and
`ResolverTestCases` restates the integration tests' scenarios.

| file | module | models |
|---|---|---|
| `wrappers.dfy` | `Wrappers` | `Option` (for Java's `null`) and `Result` (for exceptions) |
| `strings.dfy` | `Strings` | splitting and joining on one character; Java's `String.split` with a one-character pattern |
| `exceptions.dfy` | `Exceptions` | the repository exception (message or cause) and the parse, URL and I/O failures |
| `coordinates.dfy` | `ArtifactCoordinates` | `ArtifactCoordinates`: constructor, `equals`, `hashCode`, `getPath` |
| `dependency.dfy` | `XmlDependency` | `XMLDependency`, `XMLParent`: scope filter and version fallback |
| `project.dfy` | `XmlProject` | `XMLProject`: `getExtension`, `getDependencies` |
| `repository.dfy` | `ArtifactRepository` | `ArtifactRepository`, `Artifact`: `fromPackaging`, `get`, `equals`, `hashCode` |
| `test_cases.dfy` | `ResolverTestCases` | the integration-test scenarios, over the documents they write |

Collaborators are parameters of `Get`: `resolve` stands for
`new URL(directory, relativePath)` and may fail, `open` for
`URL.openStream` and may fail with an I/O error, and `unmarshal` for the JAXB
unmarshaller and may fail with a parse error. An opened stream is the bytes it
delivers plus an optional failure on closing. String and URL hashes are
parameters too, so the hash properties hold for every hash function.

Facts about the code:

- Repository equality and hash read only the directory URL: `equals` compares
  the directory `Url` values, and the hash is applied to the directory alone.
- Both URLs `get` builds, the document's and the bundle's, come from URL
  reference resolution of a coordinates path against the directory. Under
  that resolution a path starting with "/" replaces the base path, and every
  coordinates path starts with "/". So `get` resolves both from the root of
  the directory's host rather than below the directory. The model leaves
  resolution unconstrained, as the `resolve` parameter.
- A missing groupId or artifactId in an included entry throws from the
  coordinates constructor's non-null check, and `get` does not catch that: the
  model makes it an explicit `NullPointer` outcome. A missing version is
  detected before it, because the version argument is evaluated before the
  constructor runs.

## Model

| member | source | states |
|---|---|---|
| `ArtifactCoordinates.New` | src/main/java/com/github/codeteapot/tools/artifact/ArtifactCoordinates.java:35-39 | construction succeeds iff all three components are present, and keeps them verbatim |
| `ArtifactCoordinates.EqualsIffSameTriple` | src/main/java/com/github/codeteapot/tools/artifact/ArtifactCoordinates.java:80-91 | `equals` on coordinates holds iff groupId, artifactId and version all match |
| `ArtifactCoordinates.EqualsIsEquivalence` | src/main/java/com/github/codeteapot/tools/artifact/ArtifactCoordinates.java:80-91 | `equals` is reflexive, symmetric, transitive, and false for a non-coordinates object |
| `ArtifactCoordinates.Equals` | src/main/java/com/github/codeteapot/tools/artifact/ArtifactCoordinates.java:80-91 | field-by-field `equals` holds exactly when the other object is coordinates with the same triple |
| `ArtifactCoordinates.HashCode` | src/main/java/com/github/codeteapot/tools/artifact/ArtifactCoordinates.java:72-74 | the hash of the artifactId alone; `HashConsistentWithEquals` and `HashIgnoresGroupAndVersion` state its properties |
| `ArtifactCoordinates.HashConsistentWithEquals` | src/main/java/com/github/codeteapot/tools/artifact/ArtifactCoordinates.java:72-74 | equal coordinates hash equal, for every string hash |
| `ArtifactCoordinates.HashIgnoresGroupAndVersion` | src/main/java/com/github/codeteapot/tools/artifact/ArtifactCoordinates.java:72-74 | coordinates sharing an artifactId hash equal, yet are equal only if group and version match too |
| `ArtifactCoordinates.GetPath` | src/main/java/com/github/codeteapot/tools/artifact/ArtifactCoordinates.java:93-97 | the path is non-empty and starts with "/" |
| `ArtifactCoordinates.PathLayout` | src/main/java/com/github/codeteapot/tools/artifact/ArtifactCoordinates.java:93-97 | splitting the path after its leading "/" yields the group's dot-segments, artifactId, version and `artifactId-version.ext`; that is (dots in group) + 4 segments |
| `ArtifactCoordinates.SiblingPaths` | src/main/java/com/github/codeteapot/tools/artifact/ArtifactCoordinates.java:94-97 | paths for two extensions agree on everything before the final extension, which follows a "." |
| `ArtifactCoordinates.PathInjective` | src/main/java/com/github/codeteapot/tools/artifact/ArtifactCoordinates.java:93-97 | for well-formed coordinates, equal paths mean equal coordinates |
| `ArtifactCoordinates.TrailingDotCollision` | src/main/java/com/github/codeteapot/tools/artifact/ArtifactCoordinates.java:95 | a group `g.` and a group `g` (no dots) give the same path, because `split` drops trailing empty pieces |
| `ArtifactCoordinates.PathOfTwoSegmentGroup` | src/main/java/com/github/codeteapot/tools/artifact/ArtifactCoordinates.java:93-97 | a group `g1.g2` lays out as `/g1/g2/artifactId/version/` followed by the file name |
| `ArtifactCoordinates.ExamplePomPath` | src/test/java/com/github/codeteapot/tools/artifact/ArtifactRepositoryTest.java:33-38 | `some.group:some-artifact:some-version` with `pom` gives `/some/group/some-artifact/some-version/some-artifact-some-version.pom` |
| `Strings.DropTrailingEmpty` | src/main/java/com/github/codeteapot/tools/artifact/ArtifactCoordinates.java:95 | the result is a prefix not ending in "", and only empty pieces were removed |
| `Strings.JavaSplit` | src/main/java/com/github/codeteapot/tools/artifact/ArtifactCoordinates.java:95 | without the separator the string is the only piece; otherwise the pieces are a prefix of the plain split, not ending in "", and every piece dropped is "" |
| `Strings.JavaSplitAgrees` | src/main/java/com/github/codeteapot/tools/artifact/ArtifactCoordinates.java:95 | with no empty dot-separated segment, Java's split equals the plain split |
| `XmlDependency.VersionFrom` | src/main/java/com/github/codeteapot/tools/artifact/XMLDependency.java:52-57 | yields the parent's version iff there is a parent with a version; otherwise the unchecked "Unknown artifact version" failure |
| `XmlDependency.ToRequiredDependency` | src/main/java/com/github/codeteapot/tools/artifact/XMLDependency.java:42-50 | `null` iff the scope filter drops the entry; group and artifact come from the entry; version is the entry's, else the parent's; fails iff included and version unresolvable or an identifier missing, with "Unknown artifact version" taking precedence |
| `XmlDependency.ExcludedNeverFails` | src/main/java/com/github/codeteapot/tools/artifact/XMLDependency.java:43-49 | an entry with a scope outside {compile, runtime} yields `null` whatever its version and parent |
| `XmlDependency.ExplicitVersionVerbatim` | src/main/java/com/github/codeteapot/tools/artifact/XMLDependency.java:43-47 | an included entry with a version yields its own triple; the parent is ignored |
| `XmlDependency.InheritsParentVersion` | src/main/java/com/github/codeteapot/tools/artifact/XMLDependency.java:47 | an included entry without a version takes the parent's version |
| `XmlDependency.UnknownVersionWithoutParentVersion` | src/main/java/com/github/codeteapot/tools/artifact/XMLDependency.java:52-56 | without a version, no parent and a parent without a version both fail with "Unknown artifact version" |
| `XmlDependency.ParentMattersOnlyWithoutVersion` | src/main/java/com/github/codeteapot/tools/artifact/XMLDependency.java:43-47 | the parent only affects included entries lacking their own version |
| `XmlProject.GetExtension` | src/main/java/com/github/codeteapot/tools/artifact/XMLProject.java:43-45 | the packaging, absent as `None`, handed to the mapper; `GetAfterParse` fixes its effect in `get`: the bundle is at `GetPath(c, FromPackaging(project.packaging))` |
| `XmlProject.Collect` | src/main/java/com/github/codeteapot/tools/artifact/XMLProject.java:51-53 | the set has at most as many elements as there are entries; every failure is "Unknown artifact version" or a null check |
| `XmlProject.GetDependencies` | src/main/java/com/github/codeteapot/tools/artifact/XMLProject.java:47-54 | an absent list gives the empty set; the set is no larger than the list |
| `XmlProject.CollectOkIff` | src/main/java/com/github/codeteapot/tools/artifact/XMLProject.java:51-53 | the collection succeeds iff no entry fails |
| `XmlProject.CollectMember` | src/main/java/com/github/codeteapot/tools/artifact/XMLProject.java:51-53 | on success, c is collected iff some entry maps to c |
| `XmlProject.CollectFirstError` | src/main/java/com/github/codeteapot/tools/artifact/XMLProject.java:51 | on failure, the error is that of the first failing entry |
| `XmlProject.CollectIgnoresExcluded` | src/main/java/com/github/codeteapot/tools/artifact/XMLProject.java:52 | removing an entry the scope filter drops changes neither the set nor the error |
| `XmlProject.CollectOrderIndependent` | src/main/java/com/github/codeteapot/tools/artifact/XMLProject.java:53 | any reordering of the entries succeeds alike and, on success, gives the same set |
| `XmlProject.CollectCollapsesDuplicates` | src/main/java/com/github/codeteapot/tools/artifact/XMLProject.java:53 | two entries yielding the same triple give a set smaller than the list |
| `XmlProject.CollectUniformError` | src/main/java/com/github/codeteapot/tools/artifact/XMLProject.java:51 | if every failing entry fails with e, so does the collection |
| `XmlProject.GetDependenciesMember` | src/main/java/com/github/codeteapot/tools/artifact/XMLProject.java:47-58 | on success, c is a dependency iff some entry, read with the document's one parent, maps to c |
| `XmlProject.GetDependenciesFails` | src/main/java/com/github/codeteapot/tools/artifact/XMLProject.java:47-58 | the call fails, with no set, iff some entry fails |
| `XmlProject.UnknownVersionAborts` | src/main/java/com/github/codeteapot/tools/artifact/XMLProject.java:51-58 | with identified entries, one included entry lacking any version aborts the call with "Unknown artifact version" |
| `ArtifactRepository.FromPackaging` | src/main/java/com/github/codeteapot/tools/artifact/ArtifactRepository.java:94-96 | the extension is always one of jar, war, ear, pom, and jar when no packaging is declared |
| `ArtifactRepository.FromPackagingTable` | src/main/java/com/github/codeteapot/tools/artifact/ArtifactRepository.java:24-30 | jar, ejb, ejb-client map to jar; war, ear, pom map to themselves |
| `ArtifactRepository.FromPackagingDefault` | src/main/java/com/github/codeteapot/tools/artifact/ArtifactRepository.java:24-32 | an absent packaging or one outside the table maps to jar |
| `ArtifactRepository.FromPackagingIdempotent` | src/main/java/com/github/codeteapot/tools/artifact/ArtifactRepository.java:24-30 | each extension maps to itself, so mapping twice equals mapping once |
| `ArtifactRepository.File` | src/main/java/com/github/codeteapot/tools/artifact/ArtifactRepository.java:98-100 | the directory resolved against the relative path by `resolve`, which may fail; `GetEarlyFailures` and `GetAfterParse` state how its failures are reported |
| `ArtifactRepository.ReadArtifact` | src/main/java/com/github/codeteapot/tools/artifact/ArtifactRepository.java:58-63 | the body never fails with I/O (the content is already delivered); an unchecked failure is "Unknown artifact version"; on success the document parsed and its dependencies are the artifact's |
| `ArtifactRepository.TryBlock` | src/main/java/com/github/codeteapot/tools/artifact/ArtifactRepository.java:57-63 | an unchecked failure is "Unknown artifact version"; success means the document URL resolved, the stream opened and it closed without failure |
| `ArtifactRepository.Catch` | src/main/java/com/github/codeteapot/tools/artifact/ArtifactRepository.java:64-68 | a parse failure becomes the repository exception with that cause, a URL failure likewise; the unchecked wrapper is unwrapped to its repository exception; I/O and null-pointer failures pass unchanged |
| `ArtifactRepository.Get` | src/main/java/com/github/codeteapot/tools/artifact/ArtifactRepository.java:55-69 | a repository failure carries "Unknown artifact version" or wraps a cause, nothing else |
| `ArtifactRepository.GetReadsOnlyPom` | src/main/java/com/github/codeteapot/tools/artifact/ArtifactRepository.java:57 | the result depends on no document but the one at `getPath("pom")` |
| `ArtifactRepository.GetEarlyFailures` | src/main/java/com/github/codeteapot/tools/artifact/ArtifactRepository.java:57-65 | a document URL failure is wrapped, an open failure passes through unchanged, a parse failure is wrapped |
| `ArtifactRepository.GetAfterParse` | src/main/java/com/github/codeteapot/tools/artifact/ArtifactRepository.java:57-68 | after parsing, success iff bundle URL, dependencies and close all succeed, giving the bundle at `getPath(fromPackaging(packaging))` and exactly `getDependencies()`; each other case fails as caught, with no partial artifact |
| `ArtifactRepository.GetIoFailureOrigin` | src/main/java/com/github/codeteapot/tools/artifact/ArtifactRepository.java:55-68 | an I/O failure of `get` is the one from opening or closing the document's stream |
| `ArtifactRepository.GetWithoutPackaging` | src/test/java/com/github/codeteapot/tools/artifact/ArtifactRepositoryTest.java:145-155 | with no packaging the location is the `.jar` path beside the `.pom` |
| `ArtifactRepository.GetUnknownVersion` | src/main/java/com/github/codeteapot/tools/artifact/ArtifactRepository.java:61-68 | an included entry without any resolvable version makes `get` fail with the unwrapped "Unknown artifact version" exception |
| `ArtifactRepository.Equals` | src/main/java/com/github/codeteapot/tools/artifact/ArtifactRepository.java:83-92 | `equals` holds exactly when the other object is a repository with the same directory |
| `ArtifactRepository.HashCode` | src/main/java/com/github/codeteapot/tools/artifact/ArtifactRepository.java:75-77 | the hash of the directory alone; `HashConsistentWithEquals` states its agreement with `equals` |
| `ArtifactRepository.EqualsIffSameDirectory` | src/main/java/com/github/codeteapot/tools/artifact/ArtifactRepository.java:82-92 | `equals` holds iff the directories are equal; it is reflexive and false for a non-repository object |
| `ArtifactRepository.HashConsistentWithEquals` | src/main/java/com/github/codeteapot/tools/artifact/ArtifactRepository.java:74-77 | equal repositories hash equal, for every URL hash |
| `ResolverTestCases.ExpectedScopeDependencies` | src/test/java/com/github/codeteapot/tools/artifact/ArtifactRepositoryTest.java:109-159 | entries with no scope, `runtime` and `test` yield exactly the first two triples |
| `ResolverTestCases.ExpectedScopeArtifact` | src/test/java/com/github/codeteapot/tools/artifact/ArtifactRepositoryTest.java:145-158 | `get` of that document, which declares no packaging, gives the bundle at the `.jar` path beside the `.pom` and exactly the first two triples |
| `ResolverTestCases.ParentVersionOnDependency` | src/test/java/com/github/codeteapot/tools/artifact/ArtifactRepositoryTest.java:161-190 | an entry without a version takes the parent's |
| `ResolverTestCases.DependencyVersionNotKnown` | src/test/java/com/github/codeteapot/tools/artifact/ArtifactRepositoryTest.java:192-223 | under an empty parent element the entry fails with "Unknown artifact version" |
| `ResolverTestCases.ProjectFileInvalid` | src/test/java/com/github/codeteapot/tools/artifact/ArtifactRepositoryTest.java:225-246 | an unparseable document gives a repository failure wrapping the parse error |

## Left out

- XML unmarshalling and namespace binding: a foreign library. The parsed document is the `Project` datatype, and unmarshalling is the `unmarshal` parameter, which may fail with an opaque `ParseError`.
- URL reference resolution (`new URL(directory, relativePath)`): a platform call, kept as the `resolve` parameter, which may fail. No relation between base and result is assumed.
- Opening and closing the stream: I/O, kept as the `open` parameter plus the stream's optional close failure. A failure while reading cannot be expressed, because an opened stream's content is total; in the source such a failure reaches the JAXB unmarshaller, which reports it as a parse failure that `get` wraps. A close failure after a failed body is suppressed, as in try-with-resources; suppressed-exception lists are not modelled.
- Concrete hash values: `String.hashCode` and `URL.hashCode` are platform arithmetic. The hashes are function parameters applied to the one field they read.
- `java.net.URL.equals` can consult host name resolution, also compares the fragment (`ref`), and treats a missing port as the protocol's default port, so `http://h/d/` equals `http://h:80/d/`. The model compares `Url` values (protocol, host, port, file) structurally, with none of these.
- `String.split` in general takes a regular expression. Only the one-character literal pattern used here is modelled, including its dropping of trailing empty pieces.
- The repository constructor's non-null check on the directory, and the artifact constructor's on the location: the datatypes cannot hold an absent URL.
- Serialization, `unmodifiableSet` wrapping, the getters and the `XmlElement` annotations: no behaviour to model.
