# deploy-artifact goal: coordinate validation and version back-fill

A Dafny model of the `deploy-artifact` goal of the WildFly Maven plugin
(`DeployArtifactMojo`). The goal is configured with a Maven coordinate
(groupId, artifactId, version, type, classifier) and a `force` flag. Before
deploying it validates the coordinate: a missing groupId or artifactId is a
`MojoDeploymentException`; a missing version is back-filled from the Maven
project, by searching the declared dependencies and the dependencyManagement
list in a fixed priority order (exact match in the dependencies, exact match
in the management list, loose match in the dependencies, loose match in the
management list). An exact match compares groupId, artifactId, classifier
and type with null-safe equality; a loose match compares only groupId and
artifactId. Within a list the first matching entry wins. The coordinate is
then resolved to a local file, and the deployment is sent with the replacing
operation (`forceDeploy`) when `force` is set, and with the plain `deploy`
otherwise.

Files:

- `optional.dfy` — `Option` (Java `null` is `None`) and `Result`.
- `java_strings.dfy` — `String.trim`, plexus-utils `StringUtils.isEmpty` and
  `StringUtils.equals`.
- `dependency_matching.dfy` — the matching rule, the first match in a list,
  the search order and the back-filled version, with the priority lemmas.
- `deploy_artifact_mojo.dfy` — the errors, the specification of `validate`
  (`ValidatedCoordinate`) with its lemmas, and the class
  `DeployArtifactMojo` whose methods update the `version` and `file` fields in
  place and are proved against those specifications.

Notes on the model:

- `StringUtils` is plexus-utils' (`org.codehaus.plexus.util.StringUtils`),
  whose `isEmpty` is true for `null` and for a string that is empty once
  trimmed. So a groupId, artifactId or version made only of blanks (any
  character up to U+0020) counts as missing, not only `null` and `""`.
  `IsEmpty` follows that definition.
- Java's field `type` is called `artifactType` here (`type` is a Dafny
  keyword).
- A thrown `MojoDeploymentException` is an `Outcome` of `Raised(error)`; the
  methods that may throw return it.
- Back-fill copies the matched entry's version as it is, including `null`,
  and `validate` does not look at the version again
  (`BackfilledVersionTakenAsIs`).

## Model

| member | source | states |
|---|---|---|
| `JavaStrings.IsEmpty` | plugin/src/main/java/org/wildfly/plugin/deployment/DeployArtifactMojo.java:100-105 | null and `""` are empty; a string whose first character is above U+0020 is not |
| `JavaStrings.IsEmptyIffBlank` | plugin/src/main/java/org/wildfly/plugin/deployment/DeployArtifactMojo.java:100-105 | the emptiness test of validate holds exactly for null and for strings made only of characters up to U+0020, so `""` and blank strings are empty |
| `JavaStrings.Trim` | plugin/src/main/java/org/wildfly/plugin/deployment/DeployArtifactMojo.java:100-105 | trimming leaves a contiguous part of the string with only characters up to U+0020 cut off on either side; nothing is left exactly when every character is at most U+0020, otherwise the rest starts and ends above U+0020 |
| `JavaStrings.Equals` | plugin/src/main/java/org/wildfly/plugin/deployment/DeployArtifactMojo.java:154-157 | the null-safe comparison holds exactly when both are null or both are the same string |
| `DependencyMatching.Matches` | plugin/src/main/java/org/wildfly/plugin/deployment/DeployArtifactMojo.java:154-157 | an entry matches exactly when groupId and artifactId are equal and, unless the match is loose, classifier and type are equal too; null equals only null |
| `DependencyMatching.ExactMatchIsLooseMatch` | plugin/src/main/java/org/wildfly/plugin/deployment/DeployArtifactMojo.java:154-157 | matching is monotone: every entry that matches with looseMatch false also matches with looseMatch true |
| `DependencyMatching.LooseMatchComparesIdsOnly` | plugin/src/main/java/org/wildfly/plugin/deployment/DeployArtifactMojo.java:154-157 | a loose match holds exactly when groupId and artifactId are equal, whatever classifier and type hold |
| `DependencyMatching.FirstIndex` | plugin/src/main/java/org/wildfly/plugin/deployment/DeployArtifactMojo.java:153-164 | the for-loop with early return stops at the first element that satisfies the test, and finds none only when no element does |
| `DependencyMatching.FirstMatch` | plugin/src/main/java/org/wildfly/plugin/deployment/DeployArtifactMojo.java:152-165 | the position found matches and no earlier entry matches; none is found exactly when no entry matches |
| `DependencyMatching.FirstMatchIsUnique` | plugin/src/main/java/org/wildfly/plugin/deployment/DeployArtifactMojo.java:152-165 | whichever position is a first match is the one the search returns |
| `DependencyMatching.FindVersion` | plugin/src/main/java/org/wildfly/plugin/deployment/DeployArtifactMojo.java:152-165 | a search yields a version exactly when some entry matches, and then it is the version of the first matching entry |
| `DependencyMatching.LooseFirstMatchNoLater` | plugin/src/main/java/org/wildfly/plugin/deployment/DeployArtifactMojo.java:154-157 | when a list has an exact match, its loose search also succeeds, at the same entry or an earlier one |
| `DependencyMatching.ManagedDependencies` | plugin/src/main/java/org/wildfly/plugin/deployment/DeployArtifactMojo.java:139-140 | a null dependencyManagement section reads as an empty list; otherwise its own dependency list is searched |
| `DependencyMatching.SearchOrder` | plugin/src/main/java/org/wildfly/plugin/deployment/DeployArtifactMojo.java:138-145 | four searches when the project has a dependencyManagement section, two when it is null (the management searches are skipped) |
| `DependencyMatching.SearchOrderExactBeforeLoose` | plugin/src/main/java/org/wildfly/plugin/deployment/DeployArtifactMojo.java:142-145 | every exact search comes before every loose one, and for each kind the dependencies are searched before the management list |
| `DependencyMatching.Backfill` | plugin/src/main/java/org/wildfly/plugin/deployment/DeployArtifactMojo.java:137-148 | back-fill finds nothing exactly when every search of the search order finds nothing |
| `DependencyMatching.BackfillPriority` | plugin/src/main/java/org/wildfly/plugin/deployment/DeployArtifactMojo.java:142-145 | the back-filled version comes from the first of exact/dependencies, exact/management, loose/dependencies, loose/management that finds a match; later searches have no effect |
| `DependencyMatching.BackfillFailsIff` | plugin/src/main/java/org/wildfly/plugin/deployment/DeployArtifactMojo.java:138-148 | back-fill fails exactly when no entry of the dependencies or of the management list matches on groupId and artifactId |
| `DependencyMatching.BackfillAbsentManagementIsEmpty` | plugin/src/main/java/org/wildfly/plugin/deployment/DeployArtifactMojo.java:139-145 | a null dependencyManagement section back-fills exactly like one that lists no dependencies |
| `DependencyMatching.BackfillPrefersExact` | plugin/src/main/java/org/wildfly/plugin/deployment/DeployArtifactMojo.java:142-145 | when either list holds an exact match, the back-filled version is that of an exactly matching entry; loose matches are not used |
| `DeployArtifact.ValidatedCoordinate` | plugin/src/main/java/org/wildfly/plugin/deployment/DeployArtifactMojo.java:97-113 | validation passes only with groupId and artifactId present, hands on a non-empty configured version unchanged, and raises only the groupId, artifactId or version-not-found error for this coordinate |
| `DeployArtifact.MissingGroupIdReportedFirst` | plugin/src/main/java/org/wildfly/plugin/deployment/DeployArtifactMojo.java:100-101 | an empty groupId raises the groupId error whatever the other fields and the project hold |
| `DeployArtifact.MissingArtifactIdReportedSecond` | plugin/src/main/java/org/wildfly/plugin/deployment/DeployArtifactMojo.java:100-103 | with a groupId present, an empty artifactId raises the artifactId error whatever the version and the project |
| `DeployArtifact.GivenVersionIsKept` | plugin/src/main/java/org/wildfly/plugin/deployment/DeployArtifactMojo.java:104-113 | with both ids and the version present, no back-fill happens and the coordinate is resolved as configured |
| `DeployArtifact.ValidationChangesOnlyVersion` | plugin/src/main/java/org/wildfly/plugin/deployment/DeployArtifactMojo.java:97-115 | validation changes no field but the version, and the version only when it was empty |
| `DeployArtifact.VersionNotFoundIff` | plugin/src/main/java/org/wildfly/plugin/deployment/DeployArtifactMojo.java:104-105 | validation raises the version error exactly when both ids are present, the version is empty and neither list has an entry with the same groupId and artifactId |
| `DeployArtifact.BackfilledVersionTakenAsIs` | plugin/src/main/java/org/wildfly/plugin/deployment/DeployArtifactMojo.java:104-114 | for every coordinate with both ids present and an empty version, whatever version back-fill finds, null or blank included, is the version validation hands on to resolution |
| `DeployArtifact.DeployArtifactMojo.constructor` | plugin/src/main/java/org/wildfly/plugin/deployment/DeployArtifactMojo.java:48-93 | the configuration fields as injected, type defaulting to "jar" and force to true, and no file yet |
| `DeployArtifact.DeployArtifactMojo.FindDependencyVersion` | plugin/src/main/java/org/wildfly/plugin/deployment/DeployArtifactMojo.java:152-165 | answers true exactly when some entry matches; then `version` is the first matching entry's version, otherwise unchanged; no other field is written |
| `DeployArtifact.DeployArtifactMojo.FillMissingArtifactVersion` | plugin/src/main/java/org/wildfly/plugin/deployment/DeployArtifactMojo.java:137-149 | the short-circuited searches leave `version` equal to the back-filled version, or raise the version error with `version` unchanged; only `version` is written |
| `DeployArtifact.DeployArtifactMojo.Validate` | plugin/src/main/java/org/wildfly/plugin/deployment/DeployArtifactMojo.java:96-115 | the errors and the new coordinate are those of the validation specification; `file` is set only by a successful resolution; a validation error leaves `version` as configured, while a failed resolution keeps the back-filled version |
| `DeployArtifact.DeployArtifactMojo.ResolveFile` | plugin/src/main/java/org/wildfly/plugin/deployment/DeployArtifactMojo.java:107-114 | the coordinate the fields describe is resolved; on success `file` is the resolved file, on failure the resolver's error is raised and `file` is unchanged; only `file` is written |
| `DeployArtifact.DeployArtifactMojo.ExecuteDeployment` | plugin/src/main/java/org/wildfly/plugin/deployment/DeployArtifactMojo.java:127-135 | the replacing deploy is chosen exactly when `force` is set, the plain deploy exactly when it is not |
| `DeployArtifact.ExistingDeploymentReplacedIffForce` | plugin/src/main/java/org/wildfly/plugin/deployment/DeployArtifactMojo.java:78-85 | with force off a deployment whose name is already taken fails, with force on it replaces the existing one |

## Left out

- `super.validate(isDomain)`: the parent class `AbstractDeployment` is not part of this model; its checks are treated as passing.
- Building the artifact string (`ArtifactResolver.ArtifactNameSplitter`) and `ArtifactResolver.resolve`: repository and file-system access. The resolver is a function parameter of `Validate` that maps the coordinate to a file or to a failure; the string form of the coordinate is not modelled.
- `DeploymentManager.deploy` and `forceDeploy`: remote management I/O. Only which of the two is called is modelled, plus the documented difference (`Accepts`) between them when the name is taken.
- Maven plumbing: parameter injection and annotations, the `@Inject` of the resolver, reading `project.getDependencies()`. The project is two plain lists, the management list optional; a null dependency list is not modelled.
- `goal()` and `file()`: accessors returning a constant and a field.
- Exception messages are rendered by `DeployError.Message`; no property is stated about their text.
