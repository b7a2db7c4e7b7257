/**
 * The deploy-artifact goal: validate the configured coordinate, back-fill a
 * missing version from the project, resolve the artifact to a file, and pick
 * the deploy operation.
 */
module DeployArtifact {
  import opened Optional
  import opened JavaStrings
  import opened DependencyMatching

  /** The errors validate raises (MojoDeploymentException), and a failed resolution. */
  datatype DeployError =
    | MissingGroupId
    | MissingArtifactId
    | VersionNotFound(groupId: JString, artifactId: JString)
    | ResolutionFailed(coordinate: Coordinate)
  {
    /**
     * The exception message; Java renders a null operand of `+` as "null".
     * A failed resolution carries the resolver's own exception, whose message
     * is not modelled: that case gives a fixed placeholder text.
     */
    function Message(): string
    {
      match this
      case MissingGroupId => "deploy-artifact must specify the groupId"
      case MissingArtifactId => "deploy-artifact must specify the artifactId"
      case VersionNotFound(g, a) =>
        "Unable to find artifact version of " + Text(g) + ":" + Text(a)
        + " in either dependency list or in project's dependency management."
      case ResolutionFailed(_) => "the artifact could not be resolved"
    }
  }

  /** How Java's string concatenation renders a possibly-null String. */
  function Text(s: JString): string
  {
    match s
    case None => "null"
    case Some(x) => x
  }

  /** Whether a step returned normally or raised an error. */
  datatype Outcome = Completed | Raised(error: DeployError)

  /** The local file the artifact resolver hands back; its content is not modelled. */
  datatype File = File(path: string)

  /** The two operations of the deployment manager. */
  datatype DeployOperation = Deploy | ForceDeploy

  /**
   * The deployment manager's side of the contract the force flag is about:
   * a plain deploy fails when a deployment of the same name already exists,
   * a forced deploy replaces it.
   */
  function Accepts(op: DeployOperation, nameTaken: bool): bool
  {
    op == ForceDeploy || !nameTaken
  }

  /**
   * What validate computes before resolving: groupId is checked first, then
   * artifactId; a version that is empty is back-filled from the project, and
   * back-fill that finds nothing raises VersionNotFound. On success the
   * result is the coordinate that is handed to the resolver.
   */
  function ValidatedCoordinate(c: Coordinate, p: Project): (r: Result<Coordinate, DeployError>)
    ensures r.Ok? ==> !IsEmpty(c.groupId) && !IsEmpty(c.artifactId)
    ensures r.Ok? && !IsEmpty(c.version) ==> r.value == c
    ensures r.Err? ==> r.error.MissingGroupId? || r.error.MissingArtifactId?
                       || r.error == VersionNotFound(c.groupId, c.artifactId)
  {
    if IsEmpty(c.groupId) then Err(MissingGroupId)
    else if IsEmpty(c.artifactId) then Err(MissingArtifactId)
    else if !IsEmpty(c.version) then Ok(c)
    else
      match Backfill(c, p)
      case None => Err(VersionNotFound(c.groupId, c.artifactId))
      case Some(v) => Ok(c.(version := v))
  }

  /** A missing groupId is reported whatever the other fields and the project hold. */
  lemma MissingGroupIdReportedFirst(c: Coordinate, p: Project)
    requires IsEmpty(c.groupId)
    ensures ValidatedCoordinate(c, p) == Err(MissingGroupId)
  {
  }

  /** With a groupId present, a missing artifactId is reported, whatever the version and the project. */
  lemma MissingArtifactIdReportedSecond(c: Coordinate, p: Project)
    requires !IsEmpty(c.groupId) && IsEmpty(c.artifactId)
    ensures ValidatedCoordinate(c, p) == Err(MissingArtifactId)
  {
  }

  /** A configured version is kept: no back-fill happens and the coordinate is resolved as given. */
  lemma GivenVersionIsKept(c: Coordinate, p: Project)
    requires !IsEmpty(c.groupId) && !IsEmpty(c.artifactId) && !IsEmpty(c.version)
    ensures ValidatedCoordinate(c, p) == Ok(c)
  {
  }

  /**
   * Validation changes nothing but the version, and changes that only when
   * the configured one was empty.
   */
  lemma ValidationChangesOnlyVersion(c: Coordinate, p: Project)
    ensures ValidatedCoordinate(c, p).Ok? ==>
              ValidatedCoordinate(c, p).value == c.(version := ValidatedCoordinate(c, p).value.version)
    ensures ValidatedCoordinate(c, p).Ok? && ValidatedCoordinate(c, p).value.version != c.version ==> IsEmpty(c.version)
  {
  }

  /**
   * Validation fails for want of a version exactly when both ids are present,
   * the version is empty, and no entry of the dependencies or the management
   * list matches on groupId and artifactId.
   */
  lemma VersionNotFoundIff(c: Coordinate, p: Project)
    ensures ValidatedCoordinate(c, p).Err? && ValidatedCoordinate(c, p).error.VersionNotFound?
            <==> !IsEmpty(c.groupId) && !IsEmpty(c.artifactId) && IsEmpty(c.version)
                 && NoMatch(p.dependencies, c, true) && NoMatch(ManagedDependencies(p), c, true)
  {
    BackfillFailsIff(c, p);
  }

  /**
   * Back-fill hands on the version of the entry it matches as it is, even
   * when that version is null or blank, and validate does not check it again:
   * the coordinate is then resolved with that version.
   */
  lemma BackfilledVersionTakenAsIs(c: Coordinate, p: Project, v: JString)
    requires !IsEmpty(c.groupId) && !IsEmpty(c.artifactId) && IsEmpty(c.version)
    requires Backfill(c, p) == Some(v)
    ensures ValidatedCoordinate(c, p) == Ok(c.(version := v))
  {
  }

  /** The deploy-artifact mojo: its configuration fields and the file validate resolves. */
  class DeployArtifactMojo {
    var groupId: JString
    var artifactId: JString
    var version: JString
    var artifactType: JString
    var classifier: JString
    var force: bool
    /** The resolved file; null until validate resolves it. */
    var file: Option<File>
    /** The Maven project the goal runs in. */
    const project: Project

    /** The injected configuration, with the declared defaults: type "jar", no classifier, force on. */
    constructor (groupId: JString, artifactId: JString, version: JString, project: Project,
                 artifactType: JString := Some("jar"), classifier: JString := None, force: bool := true)
      ensures this.groupId == groupId && this.artifactId == artifactId && this.version == version
      ensures this.artifactType == artifactType && this.classifier == classifier && this.force == force
      ensures this.project == project && file == None
    {
      this.groupId := groupId;
      this.artifactId := artifactId;
      this.version := version;
      this.artifactType := artifactType;
      this.classifier := classifier;
      this.force := force;
      this.project := project;
      file := None;
    }

    /** The coordinate the fields currently describe. */
    function Configured(): Coordinate
      reads this
    {
      Coordinate(groupId, artifactId, version, artifactType, classifier)
    }

    /**
     * Scans `dependencies` in order; at the first entry that matches, copies
     * its version into the `version` field and answers true. Answers false,
     * leaving `version` alone, when nothing matches.
     */
    method FindDependencyVersion(dependencies: seq<Dependency>, looseMatch: bool) returns (found: bool)
      modifies this`version
      ensures found <==> FindVersion(dependencies, old(Configured()), looseMatch).Some?
      ensures version == if found then FindVersion(dependencies, old(Configured()), looseMatch).value else old(version)
    {
      for i := 0 to |dependencies|
        invariant version == old(version)
        invariant forall j :: 0 <= j < i ==> !Matches(dependencies[j], Configured(), looseMatch)
      {
        var dependency := dependencies[i];
        if Equals(dependency.artifactId, artifactId)
           && Equals(dependency.groupId, groupId)
           && (looseMatch || Equals(dependency.classifier, classifier))
           && (looseMatch || Equals(dependency.artifactType, artifactType))
        {
          FirstMatchIsUnique(dependencies, Configured(), looseMatch, i);
          version := dependency.version;
          return true;
        }
      }
      return false;
    }

    /**
     * Runs the four searches in priority order, stopping at the first that
     * succeeds; raises VersionNotFound when none does. Only `version` is
     * written, and only by a search that succeeds.
     */
    method FillMissingArtifactVersion() returns (r: Outcome)
      modifies this`version
      ensures Backfill(old(Configured()), project).Some? ==>
                r == Completed && version == Backfill(old(Configured()), project).value
      ensures Backfill(old(Configured()), project).None? ==>
                r == Raised(VersionNotFound(groupId, artifactId)) && version == old(version)
    {
      ghost var c := Configured();
      var dependencies := project.dependencies;
      var managementDependencies := ManagedDependencies(project);
      BackfillPriority(c, project);
      ghost var exactManaged := FindVersion(managementDependencies, c, false);
      ghost var looseManaged := FindVersion(managementDependencies, c, true);
      if project.management.None? {
        assert exactManaged.None? && looseManaged.None?;
      }
      var found := FindDependencyVersion(dependencies, false);
      if !found && project.management.Some? {
        assert Configured() == c;
        found := FindDependencyVersion(managementDependencies, false);
      }
      if !found {
        assert Configured() == c;
        found := FindDependencyVersion(dependencies, true);
      }
      if !found && project.management.Some? {
        assert Configured() == c;
        found := FindDependencyVersion(managementDependencies, true);
      }
      if !found {
        assert Backfill(c, project).None?;
        return Raised(VersionNotFound(groupId, artifactId));
      }
      return Completed;
    }

    /**
     * Checks the coordinate, back-fills an empty version, and resolves the
     * coordinate to a file with `resolve`. The fields end up as
     * ValidatedCoordinate describes; `file` changes only when resolution
     * succeeds. A validation error leaves `version` as configured; a failed
     * resolution keeps the back-filled version.
     */
    method Validate(resolve: Coordinate -> Option<File>) returns (r: Outcome)
      modifies this`version, this`file
      ensures ValidatedCoordinate(old(Configured()), project).Err? ==>
                r == Raised(ValidatedCoordinate(old(Configured()), project).error)
                && version == old(version) && file == old(file)
      ensures ValidatedCoordinate(old(Configured()), project).Ok? ==>
                var c := ValidatedCoordinate(old(Configured()), project).value;
                Configured() == c
                && (resolve(c).None? ==> r == Raised(ResolutionFailed(c)) && file == old(file))
                && (resolve(c).Some? ==> r == Completed && file == resolve(c))
    {
      ghost var configured := Configured();
      ghost var validated := ValidatedCoordinate(configured, project);
      if IsEmpty(groupId) {
        return Raised(MissingGroupId);
      }
      if IsEmpty(artifactId) {
        return Raised(MissingArtifactId);
      }
      if IsEmpty(version) {
        r := FillMissingArtifactVersion();
        if r.Raised? {
          assert Backfill(configured, project).None?;
          assert validated == Err(VersionNotFound(groupId, artifactId));
          return;
        }
        assert validated == Ok(configured.(version := version));
      } else {
        assert validated == Ok(configured);
      }
      assert validated == Ok(Configured());
      r := ResolveFile(resolve);
    }

    /**
     * Resolves the coordinate the fields describe and stores the file; a
     * failed resolution raises and leaves `file` as it was.
     */
    method ResolveFile(resolve: Coordinate -> Option<File>) returns (r: Outcome)
      modifies this`file
      ensures resolve(Configured()).None? ==> r == Raised(ResolutionFailed(Configured())) && file == old(file)
      ensures resolve(Configured()).Some? ==> r == Completed && file == resolve(Configured())
    {
      var resolved := resolve(Configured());
      if resolved.None? {
        return Raised(ResolutionFailed(Configured()));
      }
      file := resolved;
      return Completed;
    }

    /** The operation executeDeployment calls: the replacing one exactly when `force` is set. */
    function ExecuteDeployment(): (op: DeployOperation)
      reads this
      ensures op == ForceDeploy <==> force
      ensures op == Deploy <==> !force
    {
      if force then ForceDeploy else Deploy
    }
  }

  /** With force off, deploying over an existing deployment of the same name fails; with force on it succeeds. */
  lemma ExistingDeploymentReplacedIffForce(m: DeployArtifactMojo)
    ensures Accepts(m.ExecuteDeployment(), true) <==> m.force
    ensures Accepts(m.ExecuteDeployment(), false)
  {
  }
}
