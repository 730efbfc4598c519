/**
 * The parsed project document and the collection of its direct dependencies:
 * every entry is mapped with the document's parent, dropped entries are
 * filtered out, and the rest are gathered into a set. The entries are
 * processed in order and the first failing one aborts the collection.
 */
module XmlProject {
  import opened Wrappers
  import opened Exceptions
  import opened ArtifactCoordinates
  import opened XmlDependency

  /** The typed view of a project document: each element may be missing. */
  datatype Project = Project(
    parent: Option<Parent>,
    packaging: Option<string>,
    dependencies: Option<seq<Dependency>>)

  /** `getExtension`: the packaging, `None` when absent, handed to the mapper. */
  function GetExtension(p: Project, mapper: Option<string> -> string): string
  {
    mapper(p.packaging)
  }

  /** The two ways extracting an entry can fail. */
  predicate IsExtractionError(e: DependencyError)
  {
    e == Unchecked(MessageOnly(UnknownVersionMessage)) || e == NullPointer
  }

  /** The stream pipeline over a list of entries: map, drop the `null`s, collect into a set. */
  function Collect(entries: seq<Dependency>, parent: Option<Parent>): (r: Result<set<Coordinates>, DependencyError>)
    ensures r.Ok? ==> |r.value| <= |entries|
    ensures r.Err? ==> IsExtractionError(r.error)
    decreases |entries|
  {
    if |entries| == 0 then Ok({})
    else
      match ToRequiredDependency(entries[0], parent)
      case Err(e) => Err(e)
      case Ok(None) => Collect(entries[1..], parent)
      case Ok(Some(c)) =>
        match Collect(entries[1..], parent)
        case Err(e) => Err(e)
        case Ok(rest) => Ok({c} + rest)
  }

  /** `getDependencies`: an absent list collects to the empty set. */
  function GetDependencies(p: Project): (r: Result<set<Coordinates>, DependencyError>)
    ensures p.dependencies.None? ==> r == Ok({})
    ensures r.Ok? && p.dependencies.Some? ==> |r.value| <= |p.dependencies.value|
    ensures r.Err? ==> IsExtractionError(r.error)
  {
    match p.dependencies
    case None => Ok({})
    case Some(entries) => Collect(entries, p.parent)
  }

  // ----- the collection over a list of entries -----

  /** The collection succeeds exactly when no entry fails. */
  lemma {:induction false} CollectOkIff(entries: seq<Dependency>, parent: Option<Parent>)
    ensures Collect(entries, parent).Ok? <==> forall d :: d in entries ==> ToRequiredDependency(d, parent).Ok?
    decreases |entries|
  {
    if |entries| > 0 {
      CollectOkIff(entries[1..], parent);
      assert entries == [entries[0]] + entries[1..];
    }
  }

  /** On success, `c` is collected exactly when some entry maps to it. */
  lemma {:induction false} CollectMember(entries: seq<Dependency>, parent: Option<Parent>, c: Coordinates)
    requires Collect(entries, parent).Ok?
    ensures c in Collect(entries, parent).value <==>
            exists d :: d in entries && ToRequiredDependency(d, parent) == Ok(Some(c))
    decreases |entries|
  {
    if |entries| > 0 {
      CollectMember(entries[1..], parent, c);
      assert entries == [entries[0]] + entries[1..];
      if c in Collect(entries, parent).value && ToRequiredDependency(entries[0], parent) == Ok(Some(c)) {
        assert entries[0] in entries;
      }
    }
  }

  /**
   * On failure, the error is that of the first failing entry: every entry
   * before it was extracted without failing.
   */
  lemma {:induction false} CollectFirstError(entries: seq<Dependency>, parent: Option<Parent>)
    requires Collect(entries, parent).Err?
    ensures exists i :: (0 <= i < |entries|
      && ToRequiredDependency(entries[i], parent) == Err(Collect(entries, parent).error)
      && forall j :: 0 <= j < i ==> ToRequiredDependency(entries[j], parent).Ok?)
    decreases |entries|
  {
    if ToRequiredDependency(entries[0], parent).Ok? {
      CollectFirstError(entries[1..], parent);
      var i :| 0 <= i < |entries[1..]|
        && ToRequiredDependency(entries[1..][i], parent) == Err(Collect(entries[1..], parent).error)
        && forall j :: 0 <= j < i ==> ToRequiredDependency(entries[1..][j], parent).Ok?;
      assert ToRequiredDependency(entries[i + 1], parent) == Err(Collect(entries, parent).error);
      forall j | 0 <= j < i + 1 ensures ToRequiredDependency(entries[j], parent).Ok? {
        if j > 0 { assert entries[j] == entries[1..][j - 1]; }
      }
    } else {
      assert ToRequiredDependency(entries[0], parent) == Err(Collect(entries, parent).error);
    }
  }

  /** Removing an entry that the scope filter drops changes nothing, not even the error. */
  lemma {:induction false} CollectIgnoresExcluded(entries: seq<Dependency>, parent: Option<Parent>, i: nat)
    requires i < |entries| && !IsRequired(entries[i])
    ensures Collect(entries[..i] + entries[i + 1..], parent) == Collect(entries, parent)
    decreases i
  {
    var rest := entries[..i] + entries[i + 1..];
    if i == 0 {
      assert rest == entries[1..];
    } else {
      CollectIgnoresExcluded(entries[1..], parent, i - 1);
      assert rest[0] == entries[0];
      assert rest[1..] == entries[1..][..i - 1] + entries[1..][i..];
    }
  }

  /** Reordering the entries changes neither whether the collection succeeds nor its result. */
  lemma CollectOrderIndependent(e1: seq<Dependency>, e2: seq<Dependency>, parent: Option<Parent>)
    requires multiset(e1) == multiset(e2)
    ensures Collect(e1, parent).Ok? <==> Collect(e2, parent).Ok?
    ensures Collect(e1, parent).Ok? ==> Collect(e1, parent) == Collect(e2, parent)
  {
    assert forall d :: d in e1 <==> d in e2 by {
      forall d ensures d in e1 <==> d in e2 {
        assert d in e1 <==> d in multiset(e1);
        assert d in e2 <==> d in multiset(e2);
      }
    }
    CollectOkIff(e1, parent);
    CollectOkIff(e2, parent);
    if Collect(e1, parent).Ok? {
      forall c ensures c in Collect(e1, parent).value <==> c in Collect(e2, parent).value {
        CollectMember(e1, parent, c);
        CollectMember(e2, parent, c);
      }
      assert Collect(e1, parent).value == Collect(e2, parent).value;
    }
  }

  /** Two entries that map to the same coordinates collapse into one element of the set. */
  lemma CollectCollapsesDuplicates(entries: seq<Dependency>, parent: Option<Parent>, i: nat, j: nat, c: Coordinates)
    requires i < |entries| && j < |entries| && i != j
    requires ToRequiredDependency(entries[i], parent) == Ok(Some(c))
    requires ToRequiredDependency(entries[j], parent) == Ok(Some(c))
    requires Collect(entries, parent).Ok?
    ensures |Collect(entries, parent).value| < |entries|
  {
    var rest := entries[..j] + entries[j + 1..];
    assert forall d :: d in rest ==> d in entries;
    var k := if i < j then i else i - 1;
    assert rest[k] == entries[i];
    CollectOkIff(entries, parent);
    CollectOkIff(rest, parent);
    forall x ensures x in Collect(rest, parent).value <==> x in Collect(entries, parent).value {
      CollectMember(rest, parent, x);
      CollectMember(entries, parent, x);
      if x in Collect(entries, parent).value {
        var d :| d in entries && ToRequiredDependency(d, parent) == Ok(Some(x));
        if d !in rest {
          assert entries == entries[..j] + [entries[j]] + entries[j + 1..];
          assert d == entries[j];
          assert entries[i] in rest;
        }
      }
    }
    assert Collect(rest, parent).value == Collect(entries, parent).value;
  }

  /** When every failing entry fails the same way, so does the collection. */
  lemma {:induction false} CollectUniformError(entries: seq<Dependency>, parent: Option<Parent>, e: DependencyError)
    requires forall d :: d in entries && ToRequiredDependency(d, parent).Err? ==> ToRequiredDependency(d, parent).error == e
    requires Collect(entries, parent).Err?
    ensures Collect(entries, parent).error == e
  {
    CollectFirstError(entries, parent);
    var i :| 0 <= i < |entries| && ToRequiredDependency(entries[i], parent) == Err(Collect(entries, parent).error);
    assert entries[i] in entries;
  }

  // ----- the project document -----

  /** On success, `c` is a dependency exactly when some entry, read with the document's parent, maps to it. */
  lemma GetDependenciesMember(p: Project, c: Coordinates)
    requires GetDependencies(p).Ok?
    ensures c in GetDependencies(p).value <==>
      p.dependencies.Some? && exists d :: d in p.dependencies.value && ToRequiredDependency(d, p.parent) == Ok(Some(c))
  {
    if p.dependencies.Some? {
      CollectMember(p.dependencies.value, p.parent, c);
    }
  }

  /** The collection fails, returning no set at all, exactly when some entry fails. */
  lemma GetDependenciesFails(p: Project)
    ensures GetDependencies(p).Err? <==>
      p.dependencies.Some? && exists d :: d in p.dependencies.value && ToRequiredDependency(d, p.parent).Err?
  {
    if p.dependencies.Some? {
      CollectOkIff(p.dependencies.value, p.parent);
    }
  }

  /**
   * With identified entries, one included entry without a version in a
   * document without a parent version aborts the whole collection with
   * "Unknown artifact version".
   */
  lemma UnknownVersionAborts(p: Project, k: nat)
    requires p.dependencies.Some? && k < |p.dependencies.value|
    requires forall d :: d in p.dependencies.value ==> Identified(d)
    requires IsRequired(p.dependencies.value[k]) && p.dependencies.value[k].version.None?
    requires !HasParentVersion(p.parent)
    ensures GetDependencies(p) == Err(Unchecked(MessageOnly(UnknownVersionMessage)))
  {
    var entries := p.dependencies.value;
    assert entries[k] in entries;
    GetDependenciesFails(p);
    CollectUniformError(entries, p.parent, Unchecked(MessageOnly(UnknownVersionMessage)));
  }
}
