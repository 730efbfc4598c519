/**
 * Artifact coordinates: the (groupId, artifactId, version) triple, its equality,
 * its deliberately weak hash, and its path in the default repository layout
 * `/g1/g2/.../artifactId/version/artifactId-version.ext`.
 */
module ArtifactCoordinates {
  import opened Wrappers
  import opened Strings

  /** A coordinate triple; it is never partially populated. */
  datatype Coordinates = Coordinates(groupId: string, artifactId: string, version: string)

  /** What `equals` may be handed: other coordinates, or any other kind of object. */
  datatype Object = CoordinatesObject(coordinates: Coordinates) | NotCoordinates

  /**
   * The constructor: each component goes through a non-null check, so an absent
   * component throws (modelled as `None`) and present ones are kept verbatim.
   */
  function New(groupId: Option<string>, artifactId: Option<string>, version: Option<string>): (r: Option<Coordinates>)
    ensures r.Some? <==> groupId.Some? && artifactId.Some? && version.Some?
    ensures r.Some? ==> r.value.groupId == groupId.value && r.value.artifactId == artifactId.value
                        && r.value.version == version.value
  {
    if groupId.Some? && artifactId.Some? && version.Some? then
      Some(Coordinates(groupId.value, artifactId.value, version.value))
    else None
  }

  /** `equals`: another coordinates object with the same three components, field by field. */
  predicate Equals(c: Coordinates, obj: Object)
    ensures Equals(c, obj) <==> obj == CoordinatesObject(c)
  {
    match obj
    case CoordinatesObject(other) =>
      c.groupId == other.groupId && c.artifactId == other.artifactId && c.version == other.version
    case NotCoordinates => false
  }

  /** `hashCode`: the hash of the artifact identifier alone, whatever string hash is used. */
  function HashCode(c: Coordinates, stringHash: string -> int): int
  {
    stringHash(c.artifactId)
  }

  /** The last path segment: `artifactId-version.extension`. */
  function FileName(c: Coordinates, extension: string): string
  {
    c.artifactId + "-" + c.version + "." + extension
  }

  /** The path segments: the group split at its dots, then artifactId, version and file name. */
  function PathSegments(c: Coordinates, extension: string): seq<string>
  {
    JavaSplit(c.groupId, '.') + [c.artifactId, c.version, FileName(c, extension)]
  }

  /** `getPath`: the segments joined by "/" behind a leading "/". */
  function GetPath(c: Coordinates, extension: string): (r: string)
    ensures |r| > 0 && r[0] == '/'
  {
    "/" + Join(PathSegments(c, extension), '/')
  }

  /**
   * Coordinates that lay out cleanly: no component holds a "/" and the group
   * has no empty dot-separated segment (so it is not empty, and has no leading,
   * trailing or doubled dot).
   */
  predicate WellFormed(c: Coordinates)
  {
    && '/' !in c.groupId && '/' !in c.artifactId && '/' !in c.version
    && NoEmptyPiece(Split(c.groupId, '.'))
  }

  // ----- equality and hash -----

  /** `equals` holds exactly for coordinates with the same triple. */
  lemma EqualsIffSameTriple(c: Coordinates, d: Coordinates)
    ensures Equals(c, CoordinatesObject(d)) <==> c == d
  {
  }

  /** `equals` is reflexive, symmetric and transitive, and false for other objects. */
  lemma EqualsIsEquivalence(c: Coordinates, d: Coordinates, e: Coordinates)
    ensures Equals(c, CoordinatesObject(c))
    ensures Equals(c, CoordinatesObject(d)) ==> Equals(d, CoordinatesObject(c))
    ensures Equals(c, CoordinatesObject(d)) && Equals(d, CoordinatesObject(e)) ==> Equals(c, CoordinatesObject(e))
    ensures !Equals(c, NotCoordinates)
  {
  }

  /** Equal coordinates hash equal, for every string hash. */
  lemma HashConsistentWithEquals(c: Coordinates, d: Coordinates, stringHash: string -> int)
    requires Equals(c, CoordinatesObject(d))
    ensures HashCode(c, stringHash) == HashCode(d, stringHash)
  {
  }

  /** The hash reads the artifact identifier only: coordinates sharing it hash equal even when unequal. */
  lemma HashIgnoresGroupAndVersion(c: Coordinates, d: Coordinates, stringHash: string -> int)
    requires c.artifactId == d.artifactId
    ensures HashCode(c, stringHash) == HashCode(d, stringHash)
    ensures Equals(c, CoordinatesObject(d)) <==> c.groupId == d.groupId && c.version == d.version
  {
  }

  // ----- paths -----

  /**
   * The path is "/" followed by the group's segments, artifactId, version and
   * the file name, all separated by "/": splitting it back at "/" recovers the
   * segments, so there are (number of dots in the group) + 1 + 3 of them.
   */
  lemma {:induction false} PathLayout(c: Coordinates, extension: string)
    requires WellFormed(c) && '/' !in extension
    ensures var p := GetPath(c, extension);
      && Split(p[1..], '/') == Split(c.groupId, '.') + [c.artifactId, c.version, FileName(c, extension)]
      && |Split(p[1..], '/')| == multiset(c.groupId)['.'] + 4
  {
    var parts := PathSegments(c, extension);
    JavaSplitAgrees(c.groupId, '.');
    SplitKeepsAbsent(c.groupId, '.', '/');
    SplitCount(c.groupId, '.');
    var file := FileName(c, extension);
    assert '/' !in file by {
      assert file == c.artifactId + ("-" + c.version + "." + extension);
      assert forall k :: 0 <= k < |file| ==> file[k] != '/' by {
        forall k | 0 <= k < |file| ensures file[k] != '/' {
          if k < |c.artifactId| {
            assert file[k] == c.artifactId[k];
          } else if k < |c.artifactId| + 1 {
          } else if k < |c.artifactId| + 1 + |c.version| {
            assert file[k] == c.version[k - |c.artifactId| - 1];
          } else if k < |c.artifactId| + 2 + |c.version| {
          } else {
            assert file[k] == extension[k - |c.artifactId| - 2 - |c.version|];
          }
        }
      }
    }
    assert SeparatorFree(parts, '/') by {
      forall i | 0 <= i < |parts| ensures '/' !in parts[i] {
        var g := Split(c.groupId, '.');
        if i < |g| {
          assert parts[i] == g[i];
        }
      }
    }
    SplitJoin(parts, '/');
    assert GetPath(c, extension)[1..] == Join(parts, '/');
  }

  /**
   * The bundle sits next to the metadata document: paths for two extensions
   * agree up to the extension, which follows a ".".
   */
  lemma SiblingPaths(c: Coordinates, e1: string, e2: string)
    ensures var p1, p2 := GetPath(c, e1), GetPath(c, e2);
      && |p1| - |e1| == |p2| - |e2| >= 1
      && p1[..|p1| - |e1|] == p2[..|p2| - |e2|]
      && p1[|p1| - |e1| - 1] == '.'
      && p1[|p1| - |e1|..] == e1 && p2[|p2| - |e2|..] == e2
  {
    var dirs := JavaSplit(c.groupId, '.') + [c.artifactId, c.version];
    var stem := "/" + Join(dirs, '/') + "/" + c.artifactId + "-" + c.version + ".";
    forall e | e in {e1, e2} ensures GetPath(c, e) == stem + e {
      JoinSnoc(dirs, FileName(c, e), '/');
      assert PathSegments(c, e) == dirs + [FileName(c, e)];
    }
    assert (stem + e1)[..|stem|] == stem && (stem + e2)[..|stem|] == stem;
  }

  /** Well-formed coordinates have distinct paths: the path determines the triple. */
  lemma PathInjective(c: Coordinates, d: Coordinates, extension: string)
    requires WellFormed(c) && WellFormed(d) && '/' !in extension
    requires GetPath(c, extension) == GetPath(d, extension)
    ensures c == d
  {
    PathLayout(c, extension);
    PathLayout(d, extension);
    var gc, gd := Split(c.groupId, '.'), Split(d.groupId, '.');
    var tc, td := [c.artifactId, c.version, FileName(c, extension)], [d.artifactId, d.version, FileName(d, extension)];
    assert gc + tc == gd + td;
    assert |gc| == |gd|;
    assert gc == (gc + tc)[..|gc|] && gd == (gd + td)[..|gd|];
    assert c.artifactId == (gc + tc)[|gc|] && d.artifactId == (gd + td)[|gd|];
    assert c.version == (gc + tc)[|gc| + 1] && d.version == (gd + td)[|gd| + 1];
    JoinSplit(c.groupId, '.');
    JoinSplit(d.groupId, '.');
  }

  /**
   * Outside well-formed coordinates the layout is lossy: a trailing dot in a
   * single-segment group is dropped by Java's split, so "g." and "g" share paths.
   */
  lemma TrailingDotCollision(g: string, artifactId: string, version: string, extension: string)
    requires g != "" && '.' !in g
    ensures Coordinates(g + ".", artifactId, version) != Coordinates(g, artifactId, version)
    ensures GetPath(Coordinates(g + ".", artifactId, version), extension)
         == GetPath(Coordinates(g, artifactId, version), extension)
  {
    SplitConcat(g, "", '.');
    SplitWithoutSeparator(g, '.');
    assert g + "." == g + ['.'] + "";
    assert '.' in g + ".";
    assert Split(g + ".", '.') == [g, ""];
    assert DropTrailingEmpty([g, ""]) == [g];
  }

  /** A two-segment group lays out as its two segments, then artifactId, version and file name. */
  lemma PathOfTwoSegmentGroup(c: Coordinates, g1: string, g2: string, extension: string)
    requires c.groupId == g1 + "." + g2 && '.' !in g1 && '.' !in g2 && g2 != ""
    ensures GetPath(c, extension)
         == "/" + (g1 + "/" + g2 + "/" + c.artifactId + "/" + c.version) + "/" + FileName(c, extension)
  {
    assert c.groupId == g1 + ['.'] + g2;
    SplitConcat(g1, g2, '.');
    SplitWithoutSeparator(g1, '.');
    SplitWithoutSeparator(g2, '.');
    assert c.groupId[|g1|] == '.';
    assert JavaSplit(c.groupId, '.') == [g1, g2];
    var parts := PathSegments(c, extension);
    JoinFive(parts, '/');
    var dirs := g1 + "/" + g2 + "/" + c.artifactId + "/" + c.version + "/";
    assert "/" + (dirs + FileName(c, extension)) == "/" + dirs + FileName(c, extension);
  }

  /**
   * The layout of the coordinates used by the repository's tests: the
   * document sits in directory `some/group/some-artifact/some-version` under
   * the repository root, with file name `some-artifact-some-version.pom`.
   */
  lemma ExamplePomPath(c: Coordinates, subPath: string, pomFile: string)
    requires c == Coordinates("some.group", "some-artifact", "some-version")
    requires subPath == "some/group/some-artifact/some-version" && pomFile == "some-artifact-some-version.pom"
    ensures GetPath(c, "pom") == "/" + subPath + "/" + pomFile
  {
    ExampleGroup(c.groupId);
    PathOfTwoSegmentGroup(c, "some", "group", "pom");
    ExampleSubPath("some", "group", c.artifactId, c.version);
    ExampleFileName(c.artifactId, c.version);
  }

  lemma JoinFive(parts: seq<string>, sep: char)
    requires |parts| == 5
    ensures Join(parts, sep) == parts[0] + [sep] + parts[1] + [sep] + parts[2] + [sep] + parts[3] + [sep] + parts[4]
  {
    assert parts[1..][1..] == parts[2..] && parts[2..][1..] == parts[3..] && parts[3..][1..] == parts[4..];
    var j3 := parts[3] + [sep] + parts[4];
    assert Join(parts[3..], sep) == j3;
    var j2 := parts[2] + [sep] + j3;
    assert Join(parts[2..], sep) == j2;
    var j1 := parts[1] + [sep] + j2;
    assert Join(parts[1..], sep) == j1;
    assert Join(parts, sep) == parts[0] + [sep] + j1;
  }

  // Literal facts behind the example, each in a proof obligation of its own.

  lemma ExampleGroup(g: string)
    requires g == "some.group"
    ensures g == "some" + "." + "group"
  {
  }

  lemma ExampleSubPath(g1: string, g2: string, a: string, v: string)
    requires g1 == "some" && g2 == "group" && a == "some-artifact" && v == "some-version"
    ensures g1 + "/" + g2 + "/" + a + "/" + v == "some/group/some-artifact/some-version"
  {
    var x := g1 + "/" + g2;
    assert x == "some/group";
    var y := x + "/" + a;
    assert y == "some/group/some-artifact";
  }

  lemma ExampleFileName(a: string, v: string)
    requires a == "some-artifact" && v == "some-version"
    ensures a + "-" + v + "." + "pom" == "some-artifact-some-version.pom"
  {
  }
}
