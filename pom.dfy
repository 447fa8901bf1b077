/**
 * The parts of a Maven project model the dependency manipulator reads and writes, the
 * configuration it is driven by, and the collaborators it calls whose code is not part of
 * this model (PropertiesUtils, WildcardMap lookups, the atlas ref parsers).
 */
module Pom {
  import opened Wrappers
  import opened Refs
  import opened LinkedMaps
  import opened OverrideMerge

  /** The mutable part of a dependency: its version text (absent when managed elsewhere) and its exclusions. */
  datatype DepValue = DepValue(version: Option<string>, exclusions: seq<Exclusion>)

  /** A <dependency> element; coordinates other than the version never change here. */
  class Dependency {
    const groupId: string
    const artifactId: string
    const artifactType: string
    const classifier: Option<string>
    var version: Option<string>
    var exclusions: seq<Exclusion>

    constructor (groupId: string, artifactId: string, artifactType: string, classifier: Option<string>, version: Option<string>)
      ensures this.groupId == groupId && this.artifactId == artifactId
      ensures this.artifactType == artifactType && this.classifier == classifier
      ensures this.version == version && exclusions == []
    {
      this.groupId := groupId;
      this.artifactId := artifactId;
      this.artifactType := artifactType;
      this.classifier := classifier;
      this.version := version;
      exclusions := [];
    }

    function Value(): DepValue
      reads this
    {
      DepValue(version, exclusions)
    }
  }

  /** The current values of the dependencies in `objs`. */
  ghost function Heap(objs: set<Dependency>): (h: map<Dependency, DepValue>)
    reads objs
    ensures h.Keys == objs
  {
    map d | d in objs :: d.Value()
  }

  /** A resolved dependency map (Project.getResolved*Dependencies): resolved ref to model element. */
  type Resolved = m: LinkedMap<ArtifactRef, Dependency> | m.Valid() witness Empty()

  /** The <parent> element of a model. */
  class Parent {
    const groupId: string
    const artifactId: string
    var version: string

    constructor (groupId: string, artifactId: string, version: string)
      ensures this.groupId == groupId && this.artifactId == artifactId && this.version == version
    {
      this.groupId := groupId;
      this.artifactId := artifactId;
      this.version := version;
    }
  }

  /**
   * A project of the reactor with its model. The resolved maps are computed before the
   * manipulator runs and are fixed here; the objects they point to are the model's own.
   */
  class Project {
    const groupId: string
    const artifactId: string
    const version: string
    const isInheritanceRoot: bool
    const parent: Parent?
    const managedDependencies: Resolved
    const dependencies: Resolved
    const profileDependencies: seq<Resolved>
    const profileManagedDependencies: seq<Resolved>
    var inheritedList: seq<Project>
    var dependencyManagement: Option<seq<Dependency>>

    constructor (
      groupId: string, artifactId: string, version: string, isInheritanceRoot: bool, parent: Parent?,
      managedDependencies: Resolved, dependencies: Resolved,
      profileDependencies: seq<Resolved>, profileManagedDependencies: seq<Resolved>,
      dependencyManagement: Option<seq<Dependency>>)
      ensures this.groupId == groupId && this.artifactId == artifactId && this.version == version
      ensures this.isInheritanceRoot == isInheritanceRoot && this.parent == parent
      ensures this.managedDependencies == managedDependencies && this.dependencies == dependencies
      ensures this.profileDependencies == profileDependencies
      ensures this.profileManagedDependencies == profileManagedDependencies
      ensures this.dependencyManagement == dependencyManagement
      ensures inheritedList == [this]
    {
      this.groupId := groupId;
      this.artifactId := artifactId;
      this.version := version;
      this.isInheritanceRoot := isInheritanceRoot;
      this.parent := parent;
      this.managedDependencies := managedDependencies;
      this.dependencies := dependencies;
      this.profileDependencies := profileDependencies;
      this.profileManagedDependencies := profileManagedDependencies;
      this.dependencyManagement := dependencyManagement;
      new;
      inheritedList := [this];
    }

    /**
     * The resolved maps in the order validateDependenciesUpdatedProperty visits them: managed,
     * direct, then those of each profile, then the managed ones of each profile.
     */
    const resolvedMaps: seq<Resolved> := [managedDependencies, dependencies] + profileDependencies + profileManagedDependencies

    /** The model elements the resolved maps point to. */
    ghost const elements: set<Dependency> := set i, d | 0 <= i < |resolvedMaps| && d in resolvedMaps[i].entries.Values :: d

    /** The model elements every resolved map points to are among `objs`. */
    ghost predicate DependenciesIn(objs: set<Dependency>) {
      && managedDependencies.entries.Values <= objs
      && dependencies.entries.Values <= objs
      && (forall i | 0 <= i < |profileDependencies| :: profileDependencies[i].entries.Values <= objs)
      && (forall i | 0 <= i < |profileManagedDependencies| :: profileManagedDependencies[i].entries.Values <= objs)
    }
  }

  /** PropertyMapper: a property's original value and the version it is to be updated to. */
  datatype PropertyMapper = PropertyMapper(originalVersion: string, newVersion: string)

  /** One project's property name -> mapper map. */
  type PropertyMap = m: LinkedMap<string, PropertyMapper> | m.Valid() witness Empty()

  /** The manipulator's project -> (property name -> mapper) tables. */
  type PropertyTable = m: LinkedMap<Project, PropertyMap> | m.Valid() witness Empty()

  /** The <properties> of the models, by the project that owns the model. */
  type PropertyValues = map<Project, map<string, string>>

  /** The properties of the model of `p`; a model without an entry has none. */
  function PropertiesOf(values: PropertyValues, p: Project): map<string, string> {
    if p in values then values[p] else map[]
  }

  /** Properties.setProperty on the model of `p`. */
  function SetProperty(values: PropertyValues, p: Project, name: string, value: string): (r: PropertyValues)
    ensures PropertiesOf(r, p) == PropertiesOf(values, p)[name := value]
    ensures r.Keys == values.Keys + {p}
    ensures forall q | q in values && q != p :: r[q] == values[q]
  {
    values[p := PropertiesOf(values, p)[name := value]]
  }

  /** The <properties> sections of all the models of a session. */
  class ModelProperties {
    var values: PropertyValues

    constructor (values: PropertyValues)
      ensures this.values == values
    {
      this.values := values;
    }
  }

  /** What PropertiesUtils.updateProperties reports, and the properties after the updates it made. */
  datatype PropertyUpdate = PropertyUpdate(notFound: bool, values: PropertyValues)

  /** What PropertiesUtils.cacheProperty reports: whether the version is a property it recorded, and the table after. */
  datatype CacheOutcome = CacheOutcome(cached: bool, table: PropertyTable)

  /**
   * WildcardMap as the sequence of its puts; whether it contains or yields a value for a ref
   * (wildcard artifactIds included) is decided by the `wildcardContains` / `wildcardGet` collaborators.
   */
  datatype WildcardMap = WildcardMap(puts: seq<(ProjectRef, string)>) {
    function Put(r: ProjectRef, v: string): WildcardMap {
      WildcardMap(puts + [(r, v)])
    }
  }

  /** The exceptions the modelled code throws (ManipulationException and the runtime ones it lets escape). */
  datatype ManipulationError =
    | InvalidExclusionKey(key: string)
    | InvalidRef(text: string)
    | ExtraBomMissingVersion(bom: string, artifact: string, key: string)
    | ParentStrictViolation(parent: string, replacement: string, original: string)
    | PropertyStrictViolation(dependency: ProjectRef, original: string, resolved: string, replacement: string, target: ProjectRef)
    | VersionStrictViolation(original: string, dependency: ProjectRef, replacement: string)
    | MalformedExclusion(token: string)
    | MissingVersion(ref: ArtifactRef)
    | MissingInheritanceRoot
    | PropertyFailure(message: string)

  /**
   * The code the manipulator calls but that is not part of this model, as functions:
   * SimpleProjectRef.parse / SimpleArtifactRef.parse (None for an InvalidRefException),
   * PropertiesUtils.checkStrictValue, getSuffix, cacheProperty (which updates the table it is
   * given), updateProperties (the properties it changes, and whether it answered NOTFOUND),
   * verifyPropertyMapping (Some error when it throws), extractPropertyName, and
   * WildcardMap.containsKey / get.
   */
  datatype Collaborators = Collaborators(
    parseProjectRef: string -> Option<ProjectRef>,
    parseArtifactRef: string -> Option<ArtifactRef>,
    checkStrictValue: (string, string) -> bool,
    suffix: string,
    cacheProperty: (PropertyTable, Project, string, string, ArtifactRef, bool) -> Result<CacheOutcome, ManipulationError>,
    updateProperties: (PropertyValues, Project, bool, string, string) -> PropertyUpdate,
    verifyPropertyMapping: (PropertyTable, Project, ArtifactRef, string) -> Option<ManipulationError>,
    extractPropertyName: string -> string,
    wildcardContains: (WildcardMap, ProjectRef) -> bool,
    wildcardGet: (WildcardMap, ProjectRef) -> string)
  {
    /** SimpleProjectRef.parse, failing with InvalidRef. */
    function ParseRef(text: string): (r: Result<ProjectRef, ManipulationError>)
      ensures r.Failure? <==> parseProjectRef(text).None?
      ensures r.Failure? ==> r.error == InvalidRef(text)
    {
      match parseProjectRef(text)
      case Some(ref) => Success(ref)
      case None => Failure(InvalidRef(text))
    }

    /**
     * A put into a WildcardMap makes its ref contained and keeps what was contained; a put of a
     * wildcard ref may make further refs contained.
     */
    ghost predicate WildcardLaws() {
      forall m: WildcardMap, r: ProjectRef, v: string, q: ProjectRef ::
        (q == r || wildcardContains(m, q)) ==> wildcardContains(m.Put(r, v), q)
    }
  }

  /**
   * The settings the manipulator reads from the session, CommonState and DependencyState
   * (`enabled` holds when both the session and the dependency state are enabled). The keys of the
   * dependencyExclusion map are visited in `exclusionOrder`, an enumeration of a HashSet.
   */
  datatype Config = Config(
    enabled: bool,
    precedence: Precedence,
    strict: bool,
    failOnStrictViolation: bool,
    strictIgnoreSuffix: bool,
    overrideTransitive: bool,
    overrideDependencies: bool,
    propertyValidationDepth: int,
    dependencyExclusions: map<string, string>,
    exclusionOrder: seq<string>,
    extraBomOverrides: map<string, map<ProjectRef, string>>)
  {
    ghost predicate Valid() {
      Distinct(exclusionOrder) && dependencyExclusions.Keys == set k | k in exclusionOrder
    }
  }
}
