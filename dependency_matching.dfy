/**
 * How the deploy-artifact goal looks up a missing version among the
 * project's dependencies: the matching rule for one entry, the first match in
 * one list, and the fixed order of the four searches.
 */
module DependencyMatching {
  import opened Optional
  import opened JavaStrings

  /** One entry of a Maven dependency list, reduced to the fields read here. */
  datatype Dependency = Dependency(
    groupId: JString,
    artifactId: JString,
    version: JString,
    artifactType: JString,
    classifier: JString)

  /** The coordinate the goal is configured to deploy. */
  datatype Coordinate = Coordinate(
    groupId: JString,
    artifactId: JString,
    version: JString,
    artifactType: JString,
    classifier: JString)

  /**
   * What the back-fill reads of the Maven project: the declared dependencies,
   * and the dependencies listed by the dependencyManagement section when the
   * project has one (`None` when that section is null).
   */
  datatype Project = Project(dependencies: seq<Dependency>, management: Option<seq<Dependency>>)

  /** The management list the back-fill searches: empty when the section is null. */
  function ManagedDependencies(p: Project): (deps: seq<Dependency>)
    ensures p.management.None? ==> deps == []
    ensures p.management.Some? ==> deps == p.management.value
  {
    match p.management
    case None => []
    case Some(deps) => deps
  }

  /**
   * The test findDependencyVersion applies to each entry: artifactId and
   * groupId always, classifier and type only when the match is not loose,
   * each compared with null-safe equality.
   */
  predicate Matches(d: Dependency, c: Coordinate, loose: bool)
    ensures Matches(d, c, loose) <==>
              d.groupId == c.groupId && d.artifactId == c.artifactId
              && (loose || (d.classifier == c.classifier && d.artifactType == c.artifactType))
  {
    Equals(d.artifactId, c.artifactId)
    && Equals(d.groupId, c.groupId)
    && (loose || Equals(d.classifier, c.classifier))
    && (loose || Equals(d.artifactType, c.artifactType))
  }

  /** No entry of `deps` matches. */
  predicate NoMatch(deps: seq<Dependency>, c: Coordinate, loose: bool)
  {
    forall j :: 0 <= j < |deps| ==> !Matches(deps[j], c, loose)
  }

  /** Every entry that matches exactly also matches loosely. */
  lemma ExactMatchIsLooseMatch(d: Dependency, c: Coordinate)
    ensures Matches(d, c, false) ==> Matches(d, c, true)
  {
  }

  /** A loose match is decided by groupId and artifactId alone. */
  lemma LooseMatchComparesIdsOnly(d: Dependency, c: Coordinate)
    ensures Matches(d, c, true) <==> d.groupId == c.groupId && d.artifactId == c.artifactId
  {
  }

  /** The position of the first element of `s` that satisfies `p`, if any. */
  function FirstIndex<T>(s: seq<T>, p: T -> bool): (r: Option<nat>)
    ensures r.Some? ==> r.value < |s| && p(s[r.value])
    ensures r.Some? ==> forall j :: 0 <= j < r.value ==> !p(s[j])
    ensures r.None? ==> forall j :: 0 <= j < |s| ==> !p(s[j])
  {
    if s == [] then None
    else if p(s[0]) then Some(0)
    else
      match FirstIndex(s[1..], p)
      case None => None
      case Some(i) => Some(i + 1)
  }

  /** `i` is the position of the first entry of `deps` that matches. */
  predicate IsFirstMatch(deps: seq<Dependency>, c: Coordinate, loose: bool, i: nat)
  {
    i < |deps| && Matches(deps[i], c, loose)
    && forall j :: 0 <= j < i ==> !Matches(deps[j], c, loose)
  }

  /** The position of the first entry of `deps` that matches, in list order. */
  function FirstMatch(deps: seq<Dependency>, c: Coordinate, loose: bool): (r: Option<nat>)
    ensures r.Some? ==> IsFirstMatch(deps, c, loose, r.value)
    ensures r.None? <==> NoMatch(deps, c, loose)
  {
    FirstIndex(deps, d => Matches(d, c, loose))
  }

  /** There is only one first match, so FirstMatch finds it wherever it is. */
  lemma FirstMatchIsUnique(deps: seq<Dependency>, c: Coordinate, loose: bool, i: nat)
    requires IsFirstMatch(deps, c, loose, i)
    ensures FirstMatch(deps, c, loose) == Some(i)
  {
  }

  /**
   * The version one search leaves behind: the version of the first matching
   * entry, or None when nothing matches.
   */
  function FindVersion(deps: seq<Dependency>, c: Coordinate, loose: bool): (r: Option<JString>)
    ensures r.None? <==> NoMatch(deps, c, loose)
    ensures r.Some? ==> exists i: nat :: IsFirstMatch(deps, c, loose, i) && r.value == deps[i].version
  {
    match FirstMatch(deps, c, loose)
    case None => None
    case Some(i) => Some(deps[i].version)
  }

  /** The loose search in a list stops no later than the exact search in it. */
  lemma LooseFirstMatchNoLater(deps: seq<Dependency>, c: Coordinate)
    ensures FirstMatch(deps, c, false).Some? ==>
              FirstMatch(deps, c, true).Some? && FirstMatch(deps, c, true).value <= FirstMatch(deps, c, false).value
  {
  }

  /** One search: a list and whether its match is loose. */
  datatype Search = Search(dependencies: seq<Dependency>, loose: bool)

  /**
   * The searches fillMissingArtifactVersion runs, in order: exact in the
   * dependencies, exact in the management list, loose in the dependencies,
   * loose in the management list; the two management searches are skipped
   * when the project has no dependencyManagement section.
   */
  function SearchOrder(p: Project): (order: seq<Search>)
    ensures |order| == if p.management.Some? then 4 else 2
  {
    var deps := p.dependencies;
    var managed := ManagedDependencies(p);
    if p.management.None? then
      [Search(deps, false), Search(deps, true)]
    else
      [Search(deps, false), Search(managed, false), Search(deps, true), Search(managed, true)]
  }

  /**
   * The shape of the search order: every exact search comes before every
   * loose one, and for each kind the dependencies are searched before the
   * management list.
   */
  lemma SearchOrderExactBeforeLoose(p: Project)
    ensures forall k :: 0 <= k < |SearchOrder(p)| ==> (SearchOrder(p)[k].loose <==> |SearchOrder(p)| <= 2 * k)
    ensures forall k :: 0 <= k < |SearchOrder(p)| ==>
              SearchOrder(p)[k].dependencies
              == if p.management.Some? && (k == 1 || k == 3) then p.management.value else p.dependencies
  {
  }

  function SearchVersion(s: Search, c: Coordinate): Option<JString>
  {
    FindVersion(s.dependencies, c, s.loose)
  }

  /**
   * The version back-filled for `c`: what the first search in SearchOrder
   * that finds a match yields; None when none of them does.
   */
  function Backfill(c: Coordinate, p: Project): (r: Option<JString>)
    ensures r.None? <==> forall k :: 0 <= k < |SearchOrder(p)| ==> SearchVersion(SearchOrder(p)[k], c).None?
  {
    var order := SearchOrder(p);
    match FirstIndex(order, s => SearchVersion(s, c).Some?)
    case None => None
    case Some(k) => SearchVersion(order[k], c)
  }

  /**
   * The priority of the searches, written out: the first exact match in the
   * dependencies wins; failing that the first exact match in the management
   * list; then the first loose match in the dependencies; then in the
   * management list. A null management section behaves as an empty list.
   */
  lemma BackfillPriority(c: Coordinate, p: Project)
    ensures Backfill(c, p) ==
      var exactDeps := FindVersion(p.dependencies, c, false);
      var exactManaged := FindVersion(ManagedDependencies(p), c, false);
      var looseDeps := FindVersion(p.dependencies, c, true);
      var looseManaged := FindVersion(ManagedDependencies(p), c, true);
      if exactDeps.Some? then exactDeps
      else if exactManaged.Some? then exactManaged
      else if looseDeps.Some? then looseDeps
      else looseManaged
  {
    var order := SearchOrder(p);
    var hit := FirstIndex(order, s => SearchVersion(s, c).Some?);
    var managed := ManagedDependencies(p);
    if p.management.None? {
      assert managed == [];
      assert FindVersion(managed, c, false).None? && FindVersion(managed, c, true).None?;
      assert SearchVersion(order[0], c) == FindVersion(p.dependencies, c, false);
      assert SearchVersion(order[1], c) == FindVersion(p.dependencies, c, true);
    } else {
      assert SearchVersion(order[0], c) == FindVersion(p.dependencies, c, false);
      assert SearchVersion(order[1], c) == FindVersion(managed, c, false);
      assert SearchVersion(order[2], c) == FindVersion(p.dependencies, c, true);
      assert SearchVersion(order[3], c) == FindVersion(managed, c, true);
    }
  }

  /** Back-fill fails exactly when no entry of either list matches on groupId and artifactId. */
  lemma BackfillFailsIff(c: Coordinate, p: Project)
    ensures Backfill(c, p).None? <==> NoMatch(p.dependencies, c, true) && NoMatch(ManagedDependencies(p), c, true)
  {
    BackfillPriority(c, p);
    forall deps: seq<Dependency> | NoMatch(deps, c, true)
      ensures NoMatch(deps, c, false)
    {
      forall j | 0 <= j < |deps| ensures !Matches(deps[j], c, false) {
        ExactMatchIsLooseMatch(deps[j], c);
      }
    }
  }

  /** A project whose dependencyManagement section is null back-fills like one whose section lists nothing. */
  lemma BackfillAbsentManagementIsEmpty(c: Coordinate, deps: seq<Dependency>)
    ensures Backfill(c, Project(deps, None)) == Backfill(c, Project(deps, Some([])))
  {
    BackfillPriority(c, Project(deps, None));
    BackfillPriority(c, Project(deps, Some([])));
  }

  /** When some entry of either list matches exactly, the back-filled version is that of an exact match. */
  lemma BackfillPrefersExact(c: Coordinate, p: Project)
    requires !NoMatch(p.dependencies, c, false) || !NoMatch(ManagedDependencies(p), c, false)
    ensures exists d :: d in p.dependencies + ManagedDependencies(p) && Matches(d, c, false)
                        && Backfill(c, p) == Some(d.version)
  {
    BackfillPriority(c, p);
    var all := p.dependencies + ManagedDependencies(p);
    match FirstMatch(p.dependencies, c, false)
    case Some(i) =>
      assert all[i] == p.dependencies[i];
    case None =>
      var i := FirstMatch(ManagedDependencies(p), c, false).value;
      assert all[|p.dependencies| + i] == ManagedDependencies(p)[i];
  }
}
