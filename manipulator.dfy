/**
 * DependencyManipulator as an object: it owns the two property tables the override passes
 * fill in, and its methods change the dependency elements, the parent and the models of the
 * projects in place. Every method is proved against the functions of OverrideMerge,
 * ModuleScoping and OverrideApplication over a snapshot of the objects it may change.
 */
module Manipulator {
  import opened Wrappers
  import opened Refs
  import opened LinkedMaps
  import opened JavaStrings
  import opened Pom
  import opened OverrideMerge
  import opened ModuleScoping
  import opened OverrideApplication
  import opened PropertyUpdates

  /** A method's outcome `r` and the state `now` it leaves are the ones `spec` describes. */
  ghost predicate Realizes<T>(r: Result<(), ManipulationError>, spec: Result<T, ManipulationError>, now: T) {
    && r.Success? == spec.Success?
    && (r.Success? ==> spec.value == now)
    && (r.Failure? ==> r.error == spec.error)
  }

  /** The unmatched overrides `r` and the state (`heap`, `table`) a method leaves are the ones `spec` describes. */
  ghost predicate Yields(r: Result<Overrides, ManipulationError>, spec: Result<OverridePass, ManipulationError>, heap: DepHeap, table: PropertyTable) {
    && r.Success? == spec.Success?
    && (r.Success? ==> spec.value == OverridePass(heap, table, r.value))
    && (r.Failure? ==> r.error == spec.error)
  }

  /** `r` reports what `spec` does for the loop over `projects`, `now` being the tables after it. */
  ghost predicate AppliedAll(r: Result<set<Project>, ManipulationError>, spec: Result<(Tables, seq<ProjectEdit>), ManipulationError>, projects: seq<Project>, now: Tables) {
    && r.Success? == spec.Success?
    && (r.Failure? ==> r.error == spec.error)
    && (r.Success? ==> r.value == (set p | p in projects) && spec.value.0 == now)
  }

  /**
   * `r` reports what internalApplyChanges does once its loop has produced `applied`: its failure,
   * or, when the loop left the tables `now`, the failure of validation and write-back `finish` or
   * the projects changed, the properties being `values` after the write-back.
   */
  ghost predicate ChangesReported(
    r: Result<set<Project>, ManipulationError>, applied: Result<(Tables, seq<ProjectEdit>), ManipulationError>, projects: seq<Project>, now: Tables,
    finish: Result<PropertyValues, ManipulationError>, values: PropertyValues)
  {
    && (applied.Failure? ==> r == Failure(applied.error))
    && (applied.Success? ==> applied.value.0 == now && Finished(r, (set p | p in projects), finish, values))
  }

  /** `r` reports the changed projects `changed` when `finish` succeeds with the properties `values`, and its error otherwise. */
  ghost predicate Finished(r: Result<set<Project>, ManipulationError>, changed: set<Project>, finish: Result<PropertyValues, ManipulationError>, values: PropertyValues) {
    && r.Success? == finish.Success?
    && (r.Success? ==> r.value == changed && values == finish.value)
    && (r.Failure? ==> r.error == finish.error)
  }

  /** The rest of applyOverrides' outer loop once the inner loop for one dependency has produced `current`. */
  function ContinueOverrides(
    c: Collaborators, cfg: Config, project: Project, explicit: WildcardMap,
    deps: Resolved, keys: seq<ArtifactRef>, overrides: Overrides, current: Result<OverridePass, ManipulationError>)
    : Result<OverridePass, ManipulationError>
    requires overrides.Valid() && forall k | k in keys :: k in deps.entries
    requires current.Success? ==> Covers(deps, current.value.heap)
  {
    if current.Failure? then Failure(current.error)
    else OverrideDependencies(c, cfg, project, explicit, deps, keys, overrides, current.value)
  }

  // ---------------------------------------------------------------- apply

  /** The dependency values and the two property tables, as apply changes them. */
  datatype Tables = Tables(heap: DepHeap, table: PropertyTable, explicitTable: PropertyTable)

  /** applyOverrides followed by applyExplicitOverrides on one resolved map; also the overrides applyOverrides left unmatched. */
  function MapSteps(
    c: Collaborators, cfg: Config, project: Project, explicit: WildcardMap,
    deps: Resolved, moduleOverrides: Overrides, t: Tables)
    : (r: Result<(Tables, Overrides), ManipulationError>)
    requires Covers(deps, t.heap) && moduleOverrides.Valid()
    ensures r.Success? ==> r.value.0.heap.Keys == t.heap.Keys && Narrower(r.value.1, moduleOverrides)
  {
    ApplyOverridesGuarantees(c, cfg, project, explicit, deps, moduleOverrides, t.heap, t.table);
    var o :- ApplyOverridesSpec(c, cfg, project, explicit, deps, moduleOverrides, t.heap, t.table);
    var x :- ApplyExplicitOverridesSpec(c, project, explicit, deps, o.heap, t.explicitTable);
    Success((Tables(x.heap, o.table, x.table), o.unmatched))
  }

  /** The loop of apply over the resolved maps of the profiles. */
  function ProfileSteps(
    c: Collaborators, cfg: Config, project: Project, explicit: WildcardMap,
    maps: seq<Resolved>, moduleOverrides: Overrides, t: Tables)
    : (r: Result<Tables, ManipulationError>)
    requires moduleOverrides.Valid() && forall m | m in maps :: Covers(m, t.heap)
    ensures r.Success? ==> r.value.heap.Keys == t.heap.Keys
    decreases |maps|
  {
    if maps == [] then Success(t)
    else
      var next :- MapSteps(c, cfg, project, explicit, maps[0], moduleOverrides, t);
      forall m | m in maps[1..]
        ensures Covers(m, next.0.heap)
      {
        assert m in maps && Covers(m, t.heap);
      }
      ProfileSteps(c, cfg, project, explicit, maps[1..], moduleOverrides, next.0)
  }

  /** SimpleArtifactRef.parse of the management key of the dependency simulated from a parent. */
  function ManagementRef(c: Collaborators, groupId: string, artifactId: string): (r: Result<ArtifactRef, ManipulationError>)
    ensures r.Failure? <==> c.parseArtifactRef(groupId + ":" + artifactId + ":jar").None?
    ensures r.Success? ==> c.parseArtifactRef(groupId + ":" + artifactId + ":jar") == Some(r.value)
    ensures r.Failure? ==> r.error == InvalidRef(groupId + ":" + artifactId + ":jar")
  {
    match c.parseArtifactRef(ManagementKey(groupId, artifactId))
    case Some(ref) => Success(ref)
    case None => Failure(InvalidRef(ManagementKey(groupId, artifactId)))
  }

  /** The inheritance root's parent version and the explicit property table, as the parent steps leave them. */
  datatype ParentEdit = ParentEdit(version: string, table: PropertyTable)

  /**
   * The parent steps of apply for an inheritance root with a parent: the override loop over
   * the module overrides, then the explicit overrides applied to a dependency simulated from
   * the parent, whose version becomes the parent's.
   */
  function ParentSteps(
    c: Collaborators, cfg: Config, project: Project, moduleOverrides: Overrides, explicit: WildcardMap,
    version: string, explicitTable: PropertyTable)
    : (r: Result<ParentEdit, ManipulationError>)
    requires project.parent != null && moduleOverrides.Valid()
  {
    var parent := project.parent;
    var aligned :- ParentVersion(c, cfg, GA(parent.groupId, parent.artifactId), version, moduleOverrides.keys, moduleOverrides);
    var key :- ManagementRef(c, parent.groupId, parent.artifactId);
    var x :- ExplicitOnValue(c, project, explicit, key, DepEdit(DepValue(Some(aligned), []), explicitTable));
    Success(ParentEdit(x.value.version.value, x.table))
  }

  /** What apply changes: the values and tables, the parent's version, and the dependencies it adds to dependencyManagement. */
  datatype ProjectEdit = ProjectEdit(tables: Tables, parentVersion: string, injected: seq<(ArtifactRef, string)>)

  /** The steps of apply that depend on whether the project is the inheritance root. */
  function ManagedSteps(
    c: Collaborators, cfg: Config, project: Project, overrides: Overrides, moduleOverrides: Overrides,
    explicit: WildcardMap, e: ProjectEdit)
    : (r: Result<ProjectEdit, ManipulationError>)
    requires project.DependenciesIn(e.tables.heap.Keys) && moduleOverrides.Valid()
    ensures r.Success? ==> r.value.tables.heap.Keys == e.tables.heap.Keys
  {
    if project.isInheritanceRoot then RootSteps(c, cfg, project, overrides, moduleOverrides, explicit, e)
    else if cfg.overrideDependencies then
      var managed :- MapSteps(c, cfg, project, explicit, project.managedDependencies, moduleOverrides, e.tables);
      Success(e.(tables := managed.0))
    else Success(e)
  }

  /**
   * The steps of apply on an inheritance root: its parent is aligned, then its managed
   * dependencies, and the global overrides they left unmatched are injected.
   */
  function RootSteps(
    c: Collaborators, cfg: Config, project: Project, overrides: Overrides, moduleOverrides: Overrides,
    explicit: WildcardMap, e: ProjectEdit)
    : (r: Result<ProjectEdit, ManipulationError>)
    requires project.DependenciesIn(e.tables.heap.Keys) && moduleOverrides.Valid()
    ensures r.Success? ==> r.value.tables.heap.Keys == e.tables.heap.Keys
  {
    var e1 :-
      if project.parent != null then
        var p :- ParentSteps(c, cfg, project, moduleOverrides, explicit, e.parentVersion, e.tables.explicitTable);
        Success(ProjectEdit(e.tables.(explicitTable := p.table), p.version, e.injected))
      else Success(e);
    RootManagedSteps(c, cfg, project, overrides, moduleOverrides, explicit, e1)
  }

  /** The steps of apply on the managed dependencies of an inheritance root, the injection included. */
  function RootManagedSteps(
    c: Collaborators, cfg: Config, project: Project, overrides: Overrides, moduleOverrides: Overrides,
    explicit: WildcardMap, e: ProjectEdit)
    : (r: Result<ProjectEdit, ManipulationError>)
    requires project.DependenciesIn(e.tables.heap.Keys) && moduleOverrides.Valid()
    ensures r.Success? ==> r.value.tables.heap.Keys == e.tables.heap.Keys
  {
    if !cfg.overrideDependencies then Success(e)
    else
      var managed :- MapSteps(c, cfg, project, explicit, project.managedDependencies, moduleOverrides, e.tables);
      var injected := if cfg.overrideTransitive then ExtraDependencies(overrides.keys, managed.1, moduleOverrides) else [];
      Success(ProjectEdit(managed.0, e.parentVersion, injected))
  }

  /**
   * apply(project, model, overrides): the reactor's own artifacts are dropped from the
   * overrides, the exclusion rules scope them to the project, then the managed, direct and
   * profile dependencies are aligned.
   */
  function ApplySpec(c: Collaborators, cfg: Config, project: Project, sessionProjects: seq<Project>, overrides: Overrides, e: ProjectEdit)
    : (r: Result<ProjectEdit, ManipulationError>)
    requires cfg.Valid() && overrides.Valid() && project.DependenciesIn(e.tables.heap.Keys)
    ensures r.Success? ==> r.value.tables.heap.Keys == e.tables.heap.Keys
  {
    var projectGA := GA(project.groupId, project.artifactId);
    var reduced := overrides.RemoveKeys(ReactorRefs(sessionProjects));
    ModuleOverridesNarrow(c, cfg, projectGA, reduced);
    var scope :- ModuleOverrides(c, cfg, projectGA, reduced);
    ScopedSteps(c, cfg, project, overrides, scope.remaining, scope.explicit, e)
  }

  /** The steps of apply once the overrides are scoped to the project. */
  function ScopedSteps(
    c: Collaborators, cfg: Config, project: Project, overrides: Overrides, moduleOverrides: Overrides,
    explicit: WildcardMap, e: ProjectEdit)
    : (r: Result<ProjectEdit, ManipulationError>)
    requires project.DependenciesIn(e.tables.heap.Keys) && moduleOverrides.Valid()
    ensures r.Success? ==> r.value.tables.heap.Keys == e.tables.heap.Keys
  {
    var e1 :- ManagedSteps(c, cfg, project, overrides, moduleOverrides, explicit, e);
    if !cfg.overrideDependencies then Success(e1)
    else
      var t :- DependencySteps(c, cfg, project, explicit, moduleOverrides, e1.tables);
      Success(e1.(tables := t))
  }

  /** The steps of apply on the direct dependencies and on the dependencies of the profiles. */
  function DependencySteps(c: Collaborators, cfg: Config, project: Project, explicit: WildcardMap, moduleOverrides: Overrides, t: Tables)
    : (r: Result<Tables, ManipulationError>)
    requires project.DependenciesIn(t.heap.Keys) && moduleOverrides.Valid()
    ensures r.Success? ==> r.value.heap.Keys == t.heap.Keys
  {
    var direct :- MapSteps(c, cfg, project, explicit, project.dependencies, moduleOverrides, t);
    var t1 :- ProfileSteps(c, cfg, project, explicit, project.profileDependencies, moduleOverrides, direct.0);
    ProfileSteps(c, cfg, project, explicit, project.profileManagedDependencies, moduleOverrides, t1)
  }

  /** Whether internalApplyChanges applies anything: there are overrides or dependency exclusion rules. */
  predicate AppliesAny(cfg: Config, overrides: Overrides) {
    overrides.keys != [] || cfg.dependencyExclusions != map[]
  }

  /** The parent elements of `projects`. */
  function Parents(projects: seq<Project>): set<Parent> {
    set p | p in projects && p.parent != null :: p.parent
  }

  /** The projects among the first `i` of `projects`. */
  function Firsts(projects: seq<Project>, i: nat): set<Project>
    requires i <= |projects|
  {
    set p | p in projects[..i]
  }

  lemma FirstsStep(projects: seq<Project>, i: nat)
    requires i < |projects|
    ensures Firsts(projects, i + 1) == Firsts(projects, i) + {projects[i]}
  {
    assert projects[..i + 1] == projects[..i] + [projects[i]];
  }

  /** The parents of `projects[k..]` have the versions `versions` records for them. */
  ghost predicate ParentsKept(projects: seq<Project>, versions: seq<string>, k: nat)
    reads Parents(projects)
  {
    forall j | k <= j < |projects| && j < |versions| :: ParentVersionOf(projects[j]) == versions[j]
  }

  /**
   * The loop of internalApplyChanges from the `k`-th project on: apply on each project in turn,
   * `versions[i]` being the version the parent of `projects[i]` has before the loop. The result
   * holds the tables after the loop and what apply did to each of `projects[k..]`.
   */
  function ApplyAll(
    c: Collaborators, cfg: Config, projects: seq<Project>, versions: seq<string>, k: nat,
    sessionProjects: seq<Project>, overrides: Overrides, t: Tables)
    : (r: Result<(Tables, seq<ProjectEdit>), ManipulationError>)
    requires cfg.Valid() && overrides.Valid() && |versions| == |projects| && k <= |projects|
    requires forall p | p in projects :: p.DependenciesIn(t.heap.Keys)
    ensures r.Success? ==> r.value.0.heap.Keys == t.heap.Keys && |r.value.1| == |projects| - k
    decreases |projects| - k
  {
    if k == |projects| then Success((t, []))
    else
      var e :- ApplySpec(c, cfg, projects[k], sessionProjects, overrides, ProjectEdit(t, versions[k], []));
      var rest :- ApplyAll(c, cfg, projects, versions, k + 1, sessionProjects, overrides, e.tables);
      Success((rest.0, [e] + rest.1))
  }

  /** The outcome `rest` of the loop from some project on, with the edits `done` of the projects before it in front. */
  function AfterEdits(done: seq<ProjectEdit>, rest: Result<(Tables, seq<ProjectEdit>), ManipulationError>)
    : (r: Result<(Tables, seq<ProjectEdit>), ManipulationError>)
    ensures r.Success? == rest.Success?
    ensures r.Success? ==> r.value.0 == rest.value.0 && r.value.1 == done + rest.value.1
  {
    if rest.Failure? then rest else Success((rest.value.0, done + rest.value.1))
  }

  /** One step of ApplyAll: apply on `projects[k]`, then the rest of the loop from its tables on. */
  lemma ApplyAllStep(
    c: Collaborators, cfg: Config, projects: seq<Project>, versions: seq<string>, k: nat,
    sessionProjects: seq<Project>, overrides: Overrides, t: Tables)
    requires cfg.Valid() && overrides.Valid() && |versions| == |projects| && k < |projects|
    requires forall p | p in projects :: p.DependenciesIn(t.heap.Keys)
    ensures var step := ApplySpec(c, cfg, projects[k], sessionProjects, overrides, ProjectEdit(t, versions[k], []));
      ApplyAll(c, cfg, projects, versions, k, sessionProjects, overrides, t)
        == if step.Failure? then Failure(step.error)
           else AfterEdits([step.value], ApplyAll(c, cfg, projects, versions, k + 1, sessionProjects, overrides, step.value.tables))
  {
  }

  lemma AfterEditsStep(done: seq<ProjectEdit>, e: ProjectEdit, rest: Result<(Tables, seq<ProjectEdit>), ManipulationError>)
    ensures AfterEdits(done, AfterEdits([e], rest)) == AfterEdits(done + [e], rest)
  {
    if rest.Success? {
      assert done + ([e] + rest.value.1) == done + [e] + rest.value.1;
    }
  }

  /** `projects[j]` occurs in `projects` at index `j` only. */
  predicate Once(projects: seq<Project>, j: int) {
    0 <= j < |projects| && forall k | 0 <= k < |projects| && k != j :: projects[k] != projects[j]
  }

  /** The versions of the parents of `projects`. */
  function ParentVersions(projects: seq<Project>): (r: seq<string>)
    reads Parents(projects)
    ensures |r| == |projects|
    ensures forall i | 0 <= i < |projects| :: r[i] == ParentVersionOf(projects[i])
  {
    if projects == [] then []
    else
      assert Parents(projects[1..]) <= Parents(projects);
      [ParentVersionOf(projects[0])] + ParentVersions(projects[1..])
  }

  /** The version of the project's parent, or the empty text when it has none. */
  function ParentVersionOf(project: Project): string
    reads project.parent
  {
    if project.parent != null then project.parent.version else ""
  }

  function Elements(list: Option<seq<Dependency>>): seq<Dependency> {
    if list.Some? then list.value else []
  }

  /**
   * `after` is `before` with `count` elements at its head (a dependencyManagement section being
   * created when there was none), or `before` itself when `count` is zero.
   */
  ghost predicate Prepended(before: Option<seq<Dependency>>, after: Option<seq<Dependency>>, count: nat) {
    if count == 0 then after == before
    else after.Some? && count <= |after.value| && after.value[count..] == Elements(before)
  }

  /** The head elements of `after` are new elements for the injected overrides, in order. */
  ghost predicate InjectedInto(before: Option<seq<Dependency>>, after: Option<seq<Dependency>>, injected: seq<(ArtifactRef, string)>)
    reads if Prepended(before, after, |injected|) then Elements(after)[..|injected|] else []
  {
    && Prepended(before, after, |injected|)
    && Built(Elements(after)[..|injected|], injected)
  }

  /** The first `n` elements of a dependency list, or none when it is shorter. */
  function Head(list: Option<seq<Dependency>>, n: nat): seq<Dependency> {
    if n <= |Elements(list)| then Elements(list)[..n] else []
  }

  /** New elements for the overrides `injected`, in order, head the project's dependencyManagement. */
  twostate predicate Injected(project: Project, new injected: seq<(ArtifactRef, string)>)
    reads project, Head(project.dependencyManagement, |injected|)
  {
    && InjectedInto(old(project.dependencyManagement), project.dependencyManagement, injected)
    && forall d | d in Head(project.dependencyManagement, |injected|) :: fresh(d)
  }

  /** The dependencyManagement sections of `projects`. */
  function Managements(projects: seq<Project>): (r: seq<Option<seq<Dependency>>>)
    reads set p | p in projects
    ensures |r| == |projects|
    ensures forall j | 0 <= j < |projects| :: r[j] == projects[j].dependencyManagement
  {
    if projects == [] then [] else [projects[0].dependencyManagement] + Managements(projects[1..])
  }

  /** Each project from the `i`-th on that is listed once still has the dependencyManagement section `dms` records for it. */
  ghost predicate Untouched(projects: seq<Project>, dms: seq<Option<seq<Dependency>>>, i: nat)
    reads set p | p in projects
  {
    forall j | i <= j < |projects| && j < |dms| && Once(projects, j) :: projects[j].dependencyManagement == dms[j]
  }

  /**
   * For the projects `projects[..|edits|]` the loop of internalApplyChanges has done: the
   * parent of each has the version its edit gives, and each project listed once has, at the
   * head of the section `dms[j]` it had before, elements of `N` for its injected overrides;
   * `N` holds no element of `S`.
   */
  ghost predicate EditsHold(projects: seq<Project>, dms: seq<Option<seq<Dependency>>>, edits: seq<ProjectEdit>, N: set<Dependency>, S: set<Dependency>)
    reads Parents(projects), N, set p | p in projects
  {
    && |edits| <= |projects| == |dms|
    && (forall d | d in N :: d !in S)
    && ParentsEdited(projects, edits)
    && forall j | 0 <= j < |edits| && Once(projects, j) ::
         && (forall d | d in Head(projects[j].dependencyManagement, |edits[j].injected|) :: d in N)
         && InjectedInto(dms[j], projects[j].dependencyManagement, edits[j].injected)
  }

  /** The parent of each of `projects[..|edits|]` has the version its edit gives. */
  ghost predicate ParentsEdited(projects: seq<Project>, edits: seq<ProjectEdit>)
    reads Parents(projects)
  {
    forall j | 0 <= j < |edits| && j < |projects| :: ParentVersionOf(projects[j]) == edits[j].parentVersion
  }

  /** EditsHold extends to the edit `e` of the next project once its parent and its section are as `e` says, with `N'` taking its new elements. */
  lemma EditsExtend(projects: seq<Project>, dms: seq<Option<seq<Dependency>>>, edits: seq<ProjectEdit>, N: set<Dependency>, S: set<Dependency>, e: ProjectEdit, N': set<Dependency>)
    requires EditsHold(projects, dms, edits, N, S) && |edits| < |projects|
    requires ParentVersionOf(projects[|edits|]) == e.parentVersion
    requires Once(projects, |edits|) ==> InjectedInto(dms[|edits|], projects[|edits|].dependencyManagement, e.injected)
    requires N' == N + set d | d in Head(projects[|edits|].dependencyManagement, |e.injected|)
    requires forall d | d in N' :: d !in S
    ensures EditsHold(projects, dms, edits + [e], N', S)
  {
    assert forall j | 0 <= j < |edits| :: (edits + [e])[j] == edits[j];
    assert (edits + [e])[|edits|] == e;
  }

  lemma ExplicitDependenciesStep(c: Collaborators, project: Project, explicit: WildcardMap, deps: Resolved, i: nat, st: Edit)
    requires i < |deps.keys| && Covers(deps, st.heap)
    ensures deps.keys[i] in deps.entries
    ensures var d := deps.entries[deps.keys[i]];
      var step := ExplicitOnValue(c, project, explicit, deps.keys[i], DepEdit(st.heap[d], st.table));
      ExplicitDependencies(c, project, explicit, deps, deps.keys[i..], st)
        == if step.Failure? then Failure(step.error)
           else ExplicitDependencies(c, project, explicit, deps, deps.keys[i + 1..], Edit(st.heap[d := step.value.value], step.value.table))
  {
    assert deps.keys[i..][1..] == deps.keys[i + 1..];
  }

  lemma ExtraDependenciesStep(keys: seq<ArtifactRef>, k: nat, unmatched: Overrides, moduleOverrides: Overrides)
    requires k < |keys| && Narrower(unmatched, moduleOverrides)
    ensures ExtraDependencies(keys[k..], unmatched, moduleOverrides)
      == (if keys[k] in unmatched.entries then [(keys[k], moduleOverrides.entries[keys[k]])] else [])
         + ExtraDependencies(keys[k + 1..], unmatched, moduleOverrides)
  {
    assert keys[k..][1..] == keys[k + 1..];
  }

  lemma BuiltAppend(ds: seq<Dependency>, injected: seq<(ArtifactRef, string)>, d: Dependency, x: (ArtifactRef, string))
    requires Built(ds, injected) && Describes(d, x)
    ensures Built(ds + [d], injected + [x])
  {
    assert forall i | 0 <= i < |ds| :: (ds + [d])[i] == ds[i] && (injected + [x])[i] == injected[i];
  }

  /** Each element of `ds` is a new dependency with the coordinates and version of the matching override. */
  ghost predicate Built(ds: seq<Dependency>, injected: seq<(ArtifactRef, string)>)
    reads ds
  {
    && |ds| == |injected|
    && forall i | 0 <= i < |ds| :: Describes(ds[i], injected[i])
  }

  /** `d` has the coordinates of `x.0`, the version `x.1` and no exclusions. */
  ghost predicate Describes(d: Dependency, x: (ArtifactRef, string))
    reads d
  {
    && d.groupId == x.0.groupId && d.artifactId == x.0.artifactId
    && d.artifactType == x.0.artifactType && d.classifier == x.0.classifier
    && d.version == Some(x.1) && d.exclusions == []
  }

  class DependencyManipulator {
    const c: Collaborators
    const cfg: Config
    /** Properties to update because of the standard overrides, per project. */
    var versionPropertyUpdateMap: PropertyTable
    /** Properties to update because of the explicit (dependencyOverride) overrides, per project. */
    var explicitVersionPropertyUpdateMap: PropertyTable

    constructor (c: Collaborators, cfg: Config)
      ensures this.c == c && this.cfg == cfg
      ensures versionPropertyUpdateMap == Empty() && explicitVersionPropertyUpdateMap == Empty()
    {
      this.c := c;
      this.cfg := cfg;
      versionPropertyUpdateMap := Empty();
      explicitVersionPropertyUpdateMap := Empty();
    }

    // -------------------------------------------------------------- applyOverrides

    /** The inner loop body of applyOverrides: dependency `dependency` (element `d`) against override `entry`. */
    method ApplyOverrideEntry(
      project: Project, explicit: WildcardMap, dependency: ArtifactRef, d: Dependency,
      entry: ArtifactRef, overrideVersion: string, unmatched: Overrides, ghost S: set<Dependency>)
      returns (r: Result<Overrides, ManipulationError>)
      requires d in S
      modifies this`versionPropertyUpdateMap, d`version
      ensures var spec := OverrideEntry(c, cfg, project, explicit, dependency, d, entry, overrideVersion,
          OverridePass(old(Heap(S)), old(versionPropertyUpdateMap), unmatched));
        Yields(r, spec, Heap(S), versionPropertyUpdateMap)
    {
      ghost var h0 := Heap(S);
      var depPr := dependency.AsProjectRef();
      var groupIdArtifactId := entry.AsProjectRef();
      if depPr != groupIdArtifactId {
        return Success(unmatched);
      }
      var oldVersion := d.version;
      var resolvedValue := dependency.version;
      if overrideVersion == "" || oldVersion.None? || oldVersion.value == "" {
        return Success(unmatched);
      }
      var current := oldVersion.value;
      if current == "${project.version}" || (Contains(current, "$") && project.version == resolvedValue) {
        return Success(unmatched);
      } else if c.wildcardContains(explicit, depPr) {
        return Success(unmatched.Remove(entry));
      } else if cfg.strict && Contains(current, "$") && !c.checkStrictValue(resolvedValue, overrideVersion) {
        if cfg.failOnStrictViolation {
          return Failure(PropertyStrictViolation(depPr, current, resolvedValue, entry.version, groupIdArtifactId));
        }
        return Success(unmatched);
      }
      var outcome := c.cacheProperty(versionPropertyUpdateMap, project, current, overrideVersion, entry, false);
      if outcome.Failure? {
        return Failure(outcome.error);
      }
      versionPropertyUpdateMap := outcome.value.table;
      if !outcome.value.cached {
        if cfg.strict && !c.checkStrictValue(resolvedValue, overrideVersion) {
          if cfg.failOnStrictViolation {
            return Failure(VersionStrictViolation(current, groupIdArtifactId, overrideVersion));
          }
        } else {
          var replaceVersion: string;
          if Contains(current, "${") {
            var suffix := c.suffix;
            if cfg.strictIgnoreSuffix && Contains(current, suffix) {
              replaceVersion := SubstringBefore(current, suffix);
              replaceVersion := replaceVersion + suffix + SubstringAfter(overrideVersion, suffix);
            } else {
              replaceVersion := current + RemoveStart(overrideVersion, resolvedValue);
            }
          } else {
            replaceVersion := overrideVersion;
          }
          d.version := Some(replaceVersion);
          assert Heap(S) == h0[d := h0[d].(version := Some(replaceVersion))];
        }
      }
      return Success(unmatched.Remove(entry));
    }

    /** The inner loop of applyOverrides: every override against dependency `dependency` (element `d`). */
    method ApplyOverridesTo(
      project: Project, explicit: WildcardMap, dependency: ArtifactRef, d: Dependency,
      overrides: Overrides, unmatched: Overrides, ghost S: set<Dependency>)
      returns (r: Result<Overrides, ManipulationError>)
      requires d in S && overrides.Valid()
      modifies this`versionPropertyUpdateMap, d`version
      ensures var spec := OverrideEntries(c, cfg, project, explicit, dependency, d, overrides.keys, overrides,
          OverridePass(old(Heap(S)), old(versionPropertyUpdateMap), unmatched));
        Yields(r, spec, Heap(S), versionPropertyUpdateMap)
    {
      var unmatchedVersionOverrides := unmatched;
      ghost var spec := OverrideEntries(c, cfg, project, explicit, dependency, d, overrides.keys, overrides,
        OverridePass(Heap(S), versionPropertyUpdateMap, unmatched));
      var j := 0;
      while j < |overrides.keys|
        invariant 0 <= j <= |overrides.keys|
        invariant OverrideEntries(c, cfg, project, explicit, dependency, d, overrides.keys[j..], overrides,
          OverridePass(Heap(S), versionPropertyUpdateMap, unmatchedVersionOverrides)) == spec
      {
        var entry := overrides.keys[j];
        assert overrides.keys[j..][1..] == overrides.keys[j + 1..];
        var res := ApplyOverrideEntry(project, explicit, dependency, d, entry, overrides.entries[entry], unmatchedVersionOverrides, S);
        if res.Failure? {
          return Failure(res.error);
        }
        unmatchedVersionOverrides := res.value;
        j := j + 1;
      }
      return Success(unmatchedVersionOverrides);
    }

    /** The outer loop body of applyOverrides: every override against the `i`th dependency of `deps`. */
    method ApplyOverridesAt(project: Project, deps: Resolved, explicit: WildcardMap, overrides: Overrides, i: nat, unmatched: Overrides, ghost S: set<Dependency>)
      returns (r: Result<Overrides, ManipulationError>)
      requires deps.entries.Values <= S && overrides.Valid() && i < |deps.keys|
      modifies this`versionPropertyUpdateMap, S`version
      ensures var spec := OverrideDependencies(c, cfg, project, explicit, deps, deps.keys[i..], overrides,
          OverridePass(old(Heap(S)), old(versionPropertyUpdateMap), unmatched));
        if r.Failure? then spec == Failure(r.error)
        else spec == OverrideDependencies(c, cfg, project, explicit, deps, deps.keys[i + 1..], overrides,
          OverridePass(Heap(S), versionPropertyUpdateMap, r.value))
    {
      var dependency := deps.keys[i];
      assert deps.keys[i..][1..] == deps.keys[i + 1..];
      r := ApplyOverridesTo(project, explicit, dependency, deps.entries[dependency], overrides, unmatched, S);
    }

    /**
     * applyOverrides(project, deps, explicit, overrides): applies every override to every
     * dependency with the same group:artifact and returns the overrides that matched none.
     */
    method ApplyOverrides(project: Project, deps: Resolved, explicit: WildcardMap, overrides: Overrides, ghost S: set<Dependency>)
      returns (r: Result<Overrides, ManipulationError>)
      requires deps.entries.Values <= S && overrides.Valid()
      modifies this`versionPropertyUpdateMap, S`version
      ensures var spec := ApplyOverridesSpec(c, cfg, project, explicit, deps, overrides, old(Heap(S)), old(versionPropertyUpdateMap));
        Yields(r, spec, Heap(S), versionPropertyUpdateMap)
    {
      var unmatchedVersionOverrides := overrides;
      ghost var spec := ApplyOverridesSpec(c, cfg, project, explicit, deps, overrides, Heap(S), versionPropertyUpdateMap);
      if |deps.keys| == 0 {
        return Success(unmatchedVersionOverrides);
      }
      var i := 0;
      while i < |deps.keys|
        invariant 0 <= i <= |deps.keys|
        invariant OverrideDependencies(c, cfg, project, explicit, deps, deps.keys[i..], overrides,
          OverridePass(Heap(S), versionPropertyUpdateMap, unmatchedVersionOverrides)) == spec
      {
        var res := ApplyOverridesAt(project, deps, explicit, overrides, i, unmatchedVersionOverrides, S);
        if res.Failure? {
          return Failure(res.error);
        }
        unmatchedVersionOverrides := res.value;
        i := i + 1;
      }
      return Success(unmatchedVersionOverrides);
    }

    // -------------------------------------------------------------- applyExplicitOverrides

    /** One comma-separated target of an explicit override, applied to element `d`. */
    method ApplyExplicitTarget(project: Project, dependency: ArtifactRef, d: Dependency, oldVersion: string, target: string)
      returns (r: Result<(), ManipulationError>)
      modifies this`explicitVersionPropertyUpdateMap, d`version, d`exclusions
      ensures var spec := ExplicitToken(c, project, dependency, oldVersion, target,
          DepEdit(old(d.Value()), old(explicitVersionPropertyUpdateMap)));
        Realizes(r, spec, DepEdit(d.Value(), explicitVersionPropertyUpdateMap))
    {
      if StartsWith(target, "+") {
        var groupParts := Split(target[1..], ':');
        var allParts := Split(target, ':');
        if |groupParts| == 0 || |allParts| < 2 {
          return Failure(MalformedExclusion(target));
        }
        d.exclusions := d.exclusions + [Exclusion(groupParts[0], allParts[1])];
      } else {
        var outcome := c.cacheProperty(explicitVersionPropertyUpdateMap, project, oldVersion, target, dependency, true);
        if outcome.Failure? {
          return Failure(outcome.error);
        }
        explicitVersionPropertyUpdateMap := outcome.value.table;
        if !outcome.value.cached {
          d.version := Some(target);
        }
      }
      return Success(());
    }

    /** The loop body of applyExplicitOverrides for dependency `dependency`, whose element is `d`. */
    method ApplyExplicitToDependency(project: Project, explicit: WildcardMap, dependency: ArtifactRef, d: Dependency, ghost S: set<Dependency>)
      returns (r: Result<(), ManipulationError>)
      requires d in S
      modifies this`explicitVersionPropertyUpdateMap, d`version, d`exclusions
      ensures Heap(S) == old(Heap(S))[d := d.Value()]
      ensures var spec := ExplicitOnValue(c, project, explicit, dependency, DepEdit(old(d.Value()), old(explicitVersionPropertyUpdateMap)));
        Realizes(r, spec, DepEdit(d.Value(), explicitVersionPropertyUpdateMap))
    {
      var groupIdArtifactId := dependency.AsProjectRef();
      if !c.wildcardContains(explicit, groupIdArtifactId) {
        return Success(());
      }
      var overrideVersion := c.wildcardGet(explicit, groupIdArtifactId);
      var oldVersion := d.version;
      if overrideVersion == "" || oldVersion.None? || oldVersion.value == "" {
        return Success(());
      }
      var targets := Split(overrideVersion, ',');
      r := ApplyExplicitTargets(project, dependency, d, oldVersion.value, targets);
    }

    /** The inner loop of applyExplicitOverrides: the comma-separated targets `targets`, in order, on element `d`. */
    method ApplyExplicitTargets(project: Project, dependency: ArtifactRef, d: Dependency, oldVersion: string, targets: seq<string>)
      returns (r: Result<(), ManipulationError>)
      modifies this`explicitVersionPropertyUpdateMap, d`version, d`exclusions
      ensures var spec := ExplicitTokens(c, project, dependency, oldVersion, targets,
          DepEdit(old(d.Value()), old(explicitVersionPropertyUpdateMap)));
        Realizes(r, spec, DepEdit(d.Value(), explicitVersionPropertyUpdateMap))
    {
      ghost var spec := ExplicitTokens(c, project, dependency, oldVersion, targets, DepEdit(d.Value(), explicitVersionPropertyUpdateMap));
      var t := 0;
      while t < |targets|
        invariant 0 <= t <= |targets|
        invariant ExplicitTokens(c, project, dependency, oldVersion, targets[t..],
          DepEdit(d.Value(), explicitVersionPropertyUpdateMap)) == spec
      {
        assert targets[t..][1..] == targets[t + 1..];
        var res := ApplyExplicitTarget(project, dependency, d, oldVersion, targets[t]);
        if res.Failure? {
          return Failure(res.error);
        }
        t := t + 1;
      }
      return Success(());
    }

    /**
     * applyExplicitOverrides(project, deps, explicit, state, explicitVersionPropertyUpdateMap):
     * every dependency with an explicit override gets each of its comma-separated targets, an
     * exclusion or a forced version, in order.
     */
    method ApplyExplicitOverrides(project: Project, deps: Resolved, explicit: WildcardMap, ghost S: set<Dependency>)
      returns (r: Result<(), ManipulationError>)
      requires deps.entries.Values <= S
      modifies this`explicitVersionPropertyUpdateMap, S`version, S`exclusions
      ensures Realizes(r, ApplyExplicitOverridesSpec(c, project, explicit, deps, old(Heap(S)), old(explicitVersionPropertyUpdateMap)),
        Edit(Heap(S), explicitVersionPropertyUpdateMap))
    {
      ghost var spec := ApplyExplicitOverridesSpec(c, project, explicit, deps, Heap(S), explicitVersionPropertyUpdateMap);
      var i := 0;
      while i < |deps.keys|
        invariant 0 <= i <= |deps.keys|
        invariant ExplicitDependencies(c, project, explicit, deps, deps.keys[i..], Edit(Heap(S), explicitVersionPropertyUpdateMap)) == spec
      {
        var res := ApplyExplicitAt(project, deps, explicit, i, S);
        if res.Failure? {
          return res;
        }
        i := i + 1;
      }
      return Success(());
    }

    /** One turn of applyExplicitOverrides' loop: the dependency at position `i` of `deps`. */
    method ApplyExplicitAt(project: Project, deps: Resolved, explicit: WildcardMap, i: nat, ghost S: set<Dependency>)
      returns (r: Result<(), ManipulationError>)
      requires i < |deps.keys| && deps.entries.Values <= S
      modifies this`explicitVersionPropertyUpdateMap, S`version, S`exclusions
      ensures var before := ExplicitDependencies(c, project, explicit, deps, deps.keys[i..], old(Edit(Heap(S), explicitVersionPropertyUpdateMap)));
        && (r.Failure? ==> before == Failure(r.error))
        && (r.Success? ==> before == ExplicitDependencies(c, project, explicit, deps, deps.keys[i + 1..], Edit(Heap(S), explicitVersionPropertyUpdateMap)))
    {
      var dependency := deps.keys[i];
      var d := deps.entries[dependency];
      ExplicitDependenciesStep(c, project, explicit, deps, i, Edit(Heap(S), explicitVersionPropertyUpdateMap));
      r := ApplyExplicitToDependency(project, explicit, dependency, d, S);
    }

    // -------------------------------------------------------------- apply

    /** applyOverrides then applyExplicitOverrides on one resolved map; returns the unmatched overrides. */
    method ApplyToMap(project: Project, deps: Resolved, explicit: WildcardMap, moduleOverrides: Overrides, ghost S: set<Dependency>)
      returns (r: Result<Overrides, ManipulationError>)
      requires deps.entries.Values <= S && moduleOverrides.Valid()
      modifies this, S`version, S`exclusions
      ensures var spec := MapSteps(c, cfg, project, explicit, deps, moduleOverrides,
          Tables(old(Heap(S)), old(versionPropertyUpdateMap), old(explicitVersionPropertyUpdateMap)));
        && r.Success? == spec.Success?
        && (r.Success? ==> spec.value == (Tables(Heap(S), versionPropertyUpdateMap, explicitVersionPropertyUpdateMap), r.value))
        && (r.Failure? ==> r.error == spec.error)
    {
      var unmatched := ApplyOverrides(project, deps, explicit, moduleOverrides, S);
      if unmatched.Failure? {
        return unmatched;
      }
      var done := ApplyExplicitOverrides(project, deps, explicit, S);
      if done.Failure? {
        return Failure(done.error);
      }
      return unmatched;
    }

    /** The loop of apply over the resolved dependency maps of the profiles. */
    method ApplyToProfiles(project: Project, maps: seq<Resolved>, explicit: WildcardMap, moduleOverrides: Overrides, ghost S: set<Dependency>)
      returns (r: Result<(), ManipulationError>)
      requires moduleOverrides.Valid()
      requires forall m | m in maps :: m.entries.Values <= S
      modifies this, S`version, S`exclusions
      ensures var spec := ProfileSteps(c, cfg, project, explicit, maps, moduleOverrides,
          Tables(old(Heap(S)), old(versionPropertyUpdateMap), old(explicitVersionPropertyUpdateMap)));
        Realizes(r, spec, Tables(Heap(S), versionPropertyUpdateMap, explicitVersionPropertyUpdateMap))
    {
      ghost var spec := ProfileSteps(c, cfg, project, explicit, maps, moduleOverrides,
        Tables(Heap(S), versionPropertyUpdateMap, explicitVersionPropertyUpdateMap));
      var i := 0;
      while i < |maps|
        invariant 0 <= i <= |maps|
        invariant ProfileSteps(c, cfg, project, explicit, maps[i..], moduleOverrides,
          Tables(Heap(S), versionPropertyUpdateMap, explicitVersionPropertyUpdateMap)) == spec
      {
        assert maps[i..][1..] == maps[i + 1..];
        var res := ApplyToMap(project, maps[i], explicit, moduleOverrides, S);
        if res.Failure? {
          return Failure(res.error);
        }
        i := i + 1;
      }
      return Success(());
    }

    /** The parent steps of apply for an inheritance root that has a parent. */
    method AlignParent(project: Project, moduleOverrides: Overrides, explicit: WildcardMap)
      returns (r: Result<(), ManipulationError>)
      requires project.parent != null && moduleOverrides.Valid()
      modifies project.parent, this`explicitVersionPropertyUpdateMap
      ensures var spec := ParentSteps(c, cfg, project, moduleOverrides, explicit, old(project.parent.version), old(explicitVersionPropertyUpdateMap));
        Realizes(r, spec, ParentEdit(project.parent.version, explicitVersionPropertyUpdateMap))
    {
      var parent := project.parent;
      var parentGA := GA(parent.groupId, parent.artifactId);
      ghost var aligned := ParentVersion(c, cfg, parentGA, parent.version, moduleOverrides.keys, moduleOverrides);
      var i := 0;
      while i < |moduleOverrides.keys|
        invariant 0 <= i <= |moduleOverrides.keys|
        invariant ParentVersion(c, cfg, parentGA, parent.version, moduleOverrides.keys[i..], moduleOverrides) == aligned
      {
        var key := moduleOverrides.keys[i];
        var oldValue := parent.version;
        var newValue := moduleOverrides.entries[key];
        assert moduleOverrides.keys[i..][1..] == moduleOverrides.keys[i + 1..];
        var parentRef := c.ParseRef(parentGA);
        if parentRef.Failure? {
          return Failure(parentRef.error);
        }
        if key.AsProjectRef() == parentRef.value {
          if cfg.strict && !c.checkStrictValue(oldValue, newValue) {
            if cfg.failOnStrictViolation {
              return Failure(ParentStrictViolation(parentGA, newValue, oldValue));
            }
          } else {
            parent.version := newValue;
            break;
          }
        }
        i := i + 1;
      }
      var d := new Dependency(parent.groupId, parent.artifactId, "jar", None, Some(parent.version));
      var key := ManagementRef(c, parent.groupId, parent.artifactId);
      if key.Failure? {
        return Failure(key.error);
      }
      var done := ApplyExplicitToDependency(project, explicit, key.value, d, {d});
      if done.Failure? {
        return Failure(done.error);
      }
      parent.version := d.version.value;
      return Success(());
    }

    /** A dependency element with the coordinates of `ref` and version `version`. */
    static method NewDependency(ref: ArtifactRef, version: string) returns (d: Dependency)
      ensures fresh(d) && Describes(d, (ref, version))
    {
      d := new Dependency(ref.groupId, ref.artifactId, ref.artifactType, ref.classifier, Some(version));
    }

    /**
     * The loop of the injection step of apply: a new dependency for every global override that
     * the managed dependencies left unmatched, with its version from the module overrides.
     */
    method NewDependencies(overrides: Overrides, nonMatching: Overrides, moduleOverrides: Overrides)
      returns (extraDeps: seq<Dependency>)
      requires Narrower(nonMatching, moduleOverrides)
      ensures Built(extraDeps, ExtraDependencies(overrides.keys, nonMatching, moduleOverrides))
      ensures forall d | d in extraDeps :: fresh(d)
    {
      ghost var all := ExtraDependencies(overrides.keys, nonMatching, moduleOverrides);
      extraDeps := [];
      ghost var extra: seq<(ArtifactRef, string)> := [];
      for k := 0 to |overrides.keys|
        invariant extra + ExtraDependencies(overrides.keys[k..], nonMatching, moduleOverrides) == all
        invariant Built(extraDeps, extra)
        invariant forall d | d in extraDeps :: fresh(d)
      {
        var v := overrides.keys[k];
        ExtraDependenciesStep(overrides.keys, k, nonMatching, moduleOverrides);
        if v in nonMatching.entries {
          var artifactVersion := moduleOverrides.entries[v];
          var newDependency := NewDependency(v, artifactVersion);
          BuiltAppend(extraDeps, extra, newDependency, (v, artifactVersion));
          extraDeps := extraDeps + [newDependency];
          extra := extra + [(v, artifactVersion)];
        }
      }
      assert extra == all;
    }

    /**
     * The injection step of apply: the new dependencies go, in the order of the global
     * overrides, to the head of the model's dependencyManagement, which is created if needed.
     */
    method InjectUnmatched(project: Project, overrides: Overrides, nonMatching: Overrides, moduleOverrides: Overrides)
      requires Narrower(nonMatching, moduleOverrides)
      modifies project`dependencyManagement
      ensures var injected := ExtraDependencies(overrides.keys, nonMatching, moduleOverrides);
        && InjectedInto(old(project.dependencyManagement), project.dependencyManagement, injected)
        && forall d | d in Elements(project.dependencyManagement)[..|injected|] :: fresh(d)
    {
      var extraDeps := NewDependencies(overrides, nonMatching, moduleOverrides);
      if |extraDeps| > 0 {
        var dependencyManagement := project.dependencyManagement;
        if dependencyManagement.None? {
          dependencyManagement := Some([]);
        }
        project.dependencyManagement := Some(extraDeps + dependencyManagement.value);
        assert project.dependencyManagement.value[..|extraDeps|] == extraDeps;
        assert project.dependencyManagement.value[|extraDeps|..] == Elements(old(project.dependencyManagement));
      }
    }

    /**
     * `r` and the state apply leaves for `project` are the ones `spec` describes: the tables, the
     * parent's version, and new elements for the injected overrides at the head of the
     * dependencyManagement section.
     */
    twostate predicate Performed(project: Project, S: set<Dependency>, new r: Result<(), ManipulationError>, new spec: Result<ProjectEdit, ManipulationError>)
      reads this, S, project, project.parent, Elements(project.dependencyManagement)
    {
      && r.Success? == spec.Success?
      && (r.Failure? ==> r.error == spec.error)
      && (r.Success? ==>
           && spec.value.tables == Tables(Heap(S), versionPropertyUpdateMap, explicitVersionPropertyUpdateMap)
           && ParentVersionOf(project) == spec.value.parentVersion
           && InjectedInto(old(project.dependencyManagement), project.dependencyManagement, spec.value.injected)
           && forall d | d in Elements(project.dependencyManagement)[..|spec.value.injected|] :: fresh(d))
    }

    /** The steps of apply on the managed dependencies, and on the parent of an inheritance root. */
    method ApplyManaged(project: Project, overrides: Overrides, moduleOverrides: Overrides, explicit: WildcardMap, ghost S: set<Dependency>)
      returns (r: Result<(), ManipulationError>)
      requires project.DependenciesIn(S) && moduleOverrides.Valid()
      modifies this, S`version, S`exclusions, project`dependencyManagement, project.parent
      ensures var spec := ManagedSteps(c, cfg, project, overrides, moduleOverrides, explicit,
          ProjectEdit(Tables(old(Heap(S)), old(versionPropertyUpdateMap), old(explicitVersionPropertyUpdateMap)), old(ParentVersionOf(project)), []));
        Performed(project, S, r, spec)
    {
      if project.isInheritanceRoot {
        r := ApplyRoot(project, overrides, moduleOverrides, explicit, S);
      } else if cfg.overrideDependencies {
        var nonMatching := ApplyToMap(project, project.managedDependencies, explicit, moduleOverrides, S);
        if nonMatching.Failure? {
          return Failure(nonMatching.error);
        }
        r := Success(());
      } else {
        r := Success(());
      }
    }

    /** The steps of apply on an inheritance root: its parent, its managed dependencies, the injection. */
    method ApplyRoot(project: Project, overrides: Overrides, moduleOverrides: Overrides, explicit: WildcardMap, ghost S: set<Dependency>)
      returns (r: Result<(), ManipulationError>)
      requires project.DependenciesIn(S) && moduleOverrides.Valid()
      modifies this, S`version, S`exclusions, project`dependencyManagement, project.parent
      ensures var spec := RootSteps(c, cfg, project, overrides, moduleOverrides, explicit,
          ProjectEdit(Tables(old(Heap(S)), old(versionPropertyUpdateMap), old(explicitVersionPropertyUpdateMap)), old(ParentVersionOf(project)), []));
        Performed(project, S, r, spec)
    {
      if project.parent != null {
        var aligned := AlignParent(project, moduleOverrides, explicit);
        if aligned.Failure? {
          return Failure(aligned.error);
        }
      }
      r := ApplyRootManaged(project, overrides, moduleOverrides, explicit, S);
    }

    /** The steps of apply on the managed dependencies of an inheritance root, the injection included. */
    method ApplyRootManaged(project: Project, overrides: Overrides, moduleOverrides: Overrides, explicit: WildcardMap, ghost S: set<Dependency>)
      returns (r: Result<(), ManipulationError>)
      requires project.DependenciesIn(S) && moduleOverrides.Valid()
      modifies this, S`version, S`exclusions, project`dependencyManagement
      ensures var spec := RootManagedSteps(c, cfg, project, overrides, moduleOverrides, explicit,
          ProjectEdit(Tables(old(Heap(S)), old(versionPropertyUpdateMap), old(explicitVersionPropertyUpdateMap)), ParentVersionOf(project), []));
        Performed(project, S, r, spec)
    {
      if cfg.overrideDependencies {
        var nonMatching := ApplyToMap(project, project.managedDependencies, explicit, moduleOverrides, S);
        if nonMatching.Failure? {
          return Failure(nonMatching.error);
        }
        if cfg.overrideTransitive {
          InjectUnmatched(project, overrides, nonMatching.value, moduleOverrides);
        }
      }
      return Success(());
    }

    /** The steps of apply on the direct dependencies and on the dependencies of the profiles. */
    method ApplyToDependencies(project: Project, moduleOverrides: Overrides, explicit: WildcardMap, ghost S: set<Dependency>)
      returns (r: Result<(), ManipulationError>)
      requires project.DependenciesIn(S) && moduleOverrides.Valid()
      modifies this, S`version, S`exclusions
      ensures var spec := DependencySteps(c, cfg, project, explicit, moduleOverrides,
          Tables(old(Heap(S)), old(versionPropertyUpdateMap), old(explicitVersionPropertyUpdateMap)));
        Realizes(r, spec, Tables(Heap(S), versionPropertyUpdateMap, explicitVersionPropertyUpdateMap))
    {
      var direct := ApplyToMap(project, project.dependencies, explicit, moduleOverrides, S);
      if direct.Failure? {
        return Failure(direct.error);
      }
      r := ApplyToProfiles(project, project.profileDependencies, explicit, moduleOverrides, S);
      if r.Failure? {
        return r;
      }
      r := ApplyToProfiles(project, project.profileManagedDependencies, explicit, moduleOverrides, S);
    }

    /** ApplyToDependencies, with the dependencies `kept`, which are not among `S`, still built from `injected`. */
    method ApplyBeside(
      project: Project, moduleOverrides: Overrides, explicit: WildcardMap, ghost S: set<Dependency>,
      ghost kept: seq<Dependency>, ghost injected: seq<(ArtifactRef, string)>)
      returns (r: Result<(), ManipulationError>)
      requires project.DependenciesIn(S) && moduleOverrides.Valid()
      requires (forall d | d in kept :: d !in S) && Built(kept, injected)
      modifies this, S`version, S`exclusions
      ensures var spec := DependencySteps(c, cfg, project, explicit, moduleOverrides,
          Tables(old(Heap(S)), old(versionPropertyUpdateMap), old(explicitVersionPropertyUpdateMap)));
        Realizes(r, spec, Tables(Heap(S), versionPropertyUpdateMap, explicitVersionPropertyUpdateMap))
      ensures Built(kept, injected)
    {
      r := ApplyToDependencies(project, moduleOverrides, explicit, S);
    }

    /** apply(project, model, overrides), with `sessionProjects` the projects of the session. */
    method Apply(project: Project, sessionProjects: seq<Project>, overrides: Overrides, ghost S: set<Dependency>)
      returns (r: Result<(), ManipulationError>)
      requires cfg.Valid() && overrides.Valid() && project.DependenciesIn(S)
      modifies this, S`version, S`exclusions, project`dependencyManagement, project.parent
      ensures var spec := ApplySpec(c, cfg, project, sessionProjects, overrides,
          ProjectEdit(Tables(old(Heap(S)), old(versionPropertyUpdateMap), old(explicitVersionPropertyUpdateMap)), old(ParentVersionOf(project)), []));
        Performed(project, S, r, spec)
    {
      var projectGA := GA(project.groupId, project.artifactId);
      var moduleOverrides := RemoveReactorGAs(overrides, sessionProjects);
      ModuleOverridesNarrow(c, cfg, projectGA, moduleOverrides);
      var scoped := ApplyModuleVersionOverrides(c, cfg, projectGA, moduleOverrides);
      if scoped.Failure? {
        return Failure(scoped.error);
      }
      r := ApplyScoped(project, overrides, scoped.value.remaining, scoped.value.explicit, S);
    }

    /** The steps of apply once the overrides are scoped to the project. */
    method ApplyScoped(project: Project, overrides: Overrides, moduleOverrides: Overrides, explicit: WildcardMap, ghost S: set<Dependency>)
      returns (r: Result<(), ManipulationError>)
      requires moduleOverrides.Valid() && project.DependenciesIn(S)
      modifies this, S`version, S`exclusions, project`dependencyManagement, project.parent
      ensures var spec := ScopedSteps(c, cfg, project, overrides, moduleOverrides, explicit,
          ProjectEdit(Tables(old(Heap(S)), old(versionPropertyUpdateMap), old(explicitVersionPropertyUpdateMap)), old(ParentVersionOf(project)), []));
        Performed(project, S, r, spec)
    {
      ghost var e0 := ProjectEdit(Tables(Heap(S), versionPropertyUpdateMap, explicitVersionPropertyUpdateMap), ParentVersionOf(project), []);
      ghost var managed := ManagedSteps(c, cfg, project, overrides, moduleOverrides, explicit, e0);
      r := ApplyManaged(project, overrides, moduleOverrides, explicit, S);
      if r.Failure? || !cfg.overrideDependencies {
        return r;
      }
      ghost var dm := project.dependencyManagement;
      ghost var head := Elements(dm)[..|managed.value.injected|];
      r := ApplyBeside(project, moduleOverrides, explicit, S, head, managed.value.injected);
    }

    // -------------------------------------------------------------- internalApplyChanges

    /** validateDependenciesUpdatedProperty(cState, p, deps), against the standard property table. */
    method ValidateDependenciesUpdatedProperty(p: Project, deps: Resolved) returns (r: Result<(), ManipulationError>)
      ensures r == ValidateKeys(c, versionPropertyUpdateMap, p, deps, deps.keys)
    {
      var i := 0;
      while i < |deps.keys|
        invariant 0 <= i <= |deps.keys|
        invariant ValidateKeys(c, versionPropertyUpdateMap, p, deps, deps.keys[i..])
          == ValidateKeys(c, versionPropertyUpdateMap, p, deps, deps.keys)
      {
        var d := deps.keys[i];
        var versionProperty := deps.entries[d].version;
        assert deps.keys[i..][1..] == deps.keys[i + 1..];
        if versionProperty.None? {
          return Failure(MissingVersion(d));
        }
        if IsPropertyReference(versionProperty.value) {
          var thrown := c.verifyPropertyMapping(versionPropertyUpdateMap, p, d, c.extractPropertyName(versionProperty.value));
          if thrown.Some? {
            return Failure(thrown.value);
          }
        }
        i := i + 1;
      }
      return Success(());
    }

    /** The validation of one project: its managed, direct, profile and profile-managed dependencies. */
    method ValidateProject(p: Project) returns (r: Result<(), ManipulationError>)
      ensures r == ValidateMaps(c, versionPropertyUpdateMap, p, 0)
    {
      var k := 0;
      while k < |p.resolvedMaps|
        invariant 0 <= k <= |p.resolvedMaps|
        invariant ValidateMaps(c, versionPropertyUpdateMap, p, k) == ValidateMaps(c, versionPropertyUpdateMap, p, 0)
      {
        r := ValidateDependenciesUpdatedProperty(p, p.resolvedMaps[k]);
        if r.Failure? {
          return r;
        }
        k := k + 1;
      }
      return Success(());
    }

    /** The validation loop of internalApplyChanges, over the projects of the standard property table. */
    method ValidateAll() returns (r: Result<(), ManipulationError>)
      ensures r == ValidateProjects(c, versionPropertyUpdateMap, 0)
    {
      var projects := versionPropertyUpdateMap.keys;
      var k := 0;
      while k < |projects|
        invariant 0 <= k <= |projects|
        invariant ValidateProjects(c, versionPropertyUpdateMap, k) == ValidateProjects(c, versionPropertyUpdateMap, 0)
      {
        r := ValidateProject(projects[k]);
        if r.Failure? {
          return r;
        }
        k := k + 1;
      }
      return Success(());
    }

    /** The write-back of one project's property map `props` (`explicit` tells updateProperties which table it is). */
    method WriteBackProject(explicit: bool, project: Project, props: PropertyMap, store: ModelProperties)
      returns (r: Result<(), ManipulationError>)
      modifies store
      ensures Realizes(r, WriteProperties(c, explicit, project, props, props.keys, old(store.values)), store.values)
    {
      ghost var spec := WriteProperties(c, explicit, project, props, props.keys, store.values);
      var i := 0;
      while i < |props.keys|
        invariant 0 <= i <= |props.keys|
        invariant WriteProperties(c, explicit, project, props, props.keys[i..], store.values) == spec
      {
        assert props.keys[i..][1..] == props.keys[i + 1..];
        var name := props.keys[i];
        var newVersion := props.entries[name].newVersion;
        var found := c.updateProperties(store.values, project, explicit, name, newVersion);
        store.values := found.values;
        if found.notFound {
          if project.inheritedList == [] {
            return Failure(MissingInheritanceRoot);
          }
          store.values := SetProperty(store.values, project.inheritedList[0], name, newVersion);
        }
        i := i + 1;
      }
      return Success(());
    }

    /** The write-back loop over the projects of a property table. */
    method WriteBack(explicit: bool, table: PropertyTable, store: ModelProperties) returns (r: Result<(), ManipulationError>)
      modifies store
      ensures Realizes(r, WriteTable(c, explicit, table, 0, old(store.values)), store.values)
    {
      ghost var spec := WriteTable(c, explicit, table, 0, store.values);
      var k := 0;
      while k < |table.keys|
        invariant 0 <= k <= |table.keys|
        invariant WriteTable(c, explicit, table, k, store.values) == spec
      {
        var project := table.keys[k];
        r := WriteBackProject(explicit, project, table.entries[project], store);
        if r.Failure? {
          return r;
        }
        k := k + 1;
      }
      return Success(());
    }

    /** The part of internalApplyChanges that runs once some project was changed. */
    method FinishChanges(store: ModelProperties) returns (r: Result<(), ManipulationError>)
      modifies store
      ensures Realizes(r, FinishSpec(c, cfg, versionPropertyUpdateMap, explicitVersionPropertyUpdateMap, old(store.values)), store.values)
    {
      if cfg.propertyValidationDepth > 0 {
        r := ValidateAll();
        if r.Failure? {
          return r;
        }
      }
      r := WriteBackTables(store);
    }

    /** The write-back of the standard property table, then of the explicit one. */
    method WriteBackTables(store: ModelProperties) returns (r: Result<(), ManipulationError>)
      modifies store
      ensures Realizes(r, WriteTables(c, versionPropertyUpdateMap, explicitVersionPropertyUpdateMap, old(store.values)), store.values)
    {
      r := WriteBack(false, versionPropertyUpdateMap, store);
      if r.Failure? {
        return r;
      }
      r := WriteBack(true, explicitVersionPropertyUpdateMap, store);
    }

    /** The dependency values of `S` and the two property tables. */
    ghost function State(S: set<Dependency>): (t: Tables)
      reads this, S
      ensures t.heap.Keys == S
    {
      Tables(Heap(S), versionPropertyUpdateMap, explicitVersionPropertyUpdateMap)
    }

    /**
     * What the loop of internalApplyChanges knows before the `i`-th project: its outcome `spec`
     * is the edits `edits` of the projects before, followed by the rest of the loop from the
     * current tables; those projects are as EditsHold says; the parents and the sections of the
     * projects still to do are as they were before the loop.
     */
    ghost predicate Looping(
      projects: seq<Project>, versions: seq<string>, sessionProjects: seq<Project>, overrides: Overrides, S: set<Dependency>,
      dms: seq<Option<seq<Dependency>>>, edits: seq<ProjectEdit>, N: set<Dependency>, i: nat, spec: Result<(Tables, seq<ProjectEdit>), ManipulationError>)
      reads this, S, N, Parents(projects), set p | p in projects
    {
      && cfg.Valid() && overrides.Valid()
      && i <= |projects| == |versions| == |dms| && |edits| == i
      && (forall p | p in projects :: p.DependenciesIn(S))
      && AfterEdits(edits, ApplyAll(c, cfg, projects, versions, i, sessionProjects, overrides, State(S))) == spec
      && EditsHold(projects, dms, edits, N, S)
      && ParentsKept(projects, versions, i)
      && Untouched(projects, dms, i)
    }

    /**
     * The loop of internalApplyChanges with its test: when there is anything to apply, apply on
     * every project in turn, stopping at the first failure; the result is the set of projects
     * changed. Whether there is anything to apply does not change from one project to the next,
     * so it is evaluated once, before the loop. Each project gets its parent's version and, when it
     * is listed once, the injected overrides its edit records.
     */
    method ApplyEach(projects: seq<Project>, sessionProjects: seq<Project>, overrides: Overrides, ghost P: set<Project>, ghost S: set<Dependency>)
      returns (r: Result<set<Project>, ManipulationError>)
      requires cfg.Valid() && overrides.Valid()
      requires forall p | p in projects :: p in P && p.DependenciesIn(S)
      requires forall i, j | 0 <= i < j < |projects| :: projects[i].parent == null || projects[i].parent != projects[j].parent
      modifies this, S`version, S`exclusions, P`dependencyManagement, Parents(projects)
      ensures !AppliesAny(cfg, overrides) ==>
        r == Success({}) && State(S) == old(State(S)) && ParentVersions(projects) == old(ParentVersions(projects)) && Managements(projects) == old(Managements(projects))
      ensures AppliesAny(cfg, overrides) ==>
        AppliedAll(r, old(ApplyAll(c, cfg, projects, ParentVersions(projects), 0, sessionProjects, overrides, State(S))), projects, State(S))
      ensures AppliesAny(cfg, overrides) && r.Success? ==>
        var edits := old(ApplyAll(c, cfg, projects, ParentVersions(projects), 0, sessionProjects, overrides, State(S))).value.1;
        && ParentsEdited(projects, edits)
        && forall j | 0 <= j < |edits| && Once(projects, j) ::
             InjectedInto(old(projects[j].dependencyManagement), projects[j].dependencyManagement, edits[j].injected)
    {
      if !AppliesAny(cfg, overrides) {
        return Success({});
      }
      ghost var versions := ParentVersions(projects);
      ghost var spec := ApplyAll(c, cfg, projects, versions, 0, sessionProjects, overrides, State(S));
      ghost var edits, N;
      r, edits, N := ApplyProjects(projects, sessionProjects, overrides, P, S, versions, Managements(projects), spec);
    }

    /**
     * The loop of internalApplyChanges over `projects`, whose dependencyManagement sections are
     * `dms` before it: `edits` are the edits of the projects, and `N` the elements it adds.
     */
    method ApplyProjects(
      projects: seq<Project>, sessionProjects: seq<Project>, overrides: Overrides, ghost P: set<Project>, ghost S: set<Dependency>,
      ghost versions: seq<string>, ghost dms: seq<Option<seq<Dependency>>>, ghost spec: Result<(Tables, seq<ProjectEdit>), ManipulationError>)
      returns (r: Result<set<Project>, ManipulationError>, ghost edits: seq<ProjectEdit>, ghost N: set<Dependency>)
      requires cfg.Valid() && overrides.Valid()
      requires forall p | p in projects :: p in P && p.DependenciesIn(S)
      requires forall i, j | 0 <= i < j < |projects| :: projects[i].parent == null || projects[i].parent != projects[j].parent
      requires versions == ParentVersions(projects) && dms == Managements(projects)
      requires spec == ApplyAll(c, cfg, projects, versions, 0, sessionProjects, overrides, State(S))
      modifies this, S`version, S`exclusions, P`dependencyManagement, Parents(projects)
      ensures AppliedAll(r, spec, projects, State(S))
      ensures r.Success? ==> spec == Success((State(S), edits)) && EditsHold(projects, dms, edits, N, S)
    {
      var result: set<Project> := {};
      edits, N := [], {};
      LoopStart(projects, versions, sessionProjects, overrides, S, dms, spec);
      var i := 0;
      while i < |projects|
        invariant 0 <= i <= |projects|
        invariant result == Firsts(projects, i)
        invariant Looping(projects, versions, sessionProjects, overrides, S, dms, edits, N, i, spec)
      {
        var project := projects[i];
        var applied;
        ghost var edits', N';
        applied, edits', N' := ApplyNext(projects, versions, i, sessionProjects, overrides, S, dms, edits, N, spec);
        if applied.Failure? {
          return Failure(applied.error), edits, N;
        }
        edits, N := edits', N';
        FirstsStep(projects, i);
        result := result + {project};
        i := i + 1;
      }
      LoopDone(projects, versions, sessionProjects, overrides, S, dms, edits, N, spec);
      assert projects[..i] == projects;
      return Success(result), edits, N;
    }

    /** Once the loop has done every project, its outcome is the current tables with `edits`, which EditsHold describes. */
    /** Before the loop, nothing is edited yet. */
    lemma LoopStart(
      projects: seq<Project>, versions: seq<string>, sessionProjects: seq<Project>, overrides: Overrides, S: set<Dependency>,
      dms: seq<Option<seq<Dependency>>>, spec: Result<(Tables, seq<ProjectEdit>), ManipulationError>)
      requires cfg.Valid() && overrides.Valid()
      requires forall p | p in projects :: p.DependenciesIn(S)
      requires versions == ParentVersions(projects) && dms == Managements(projects)
      requires spec == ApplyAll(c, cfg, projects, versions, 0, sessionProjects, overrides, State(S))
      ensures Looping(projects, versions, sessionProjects, overrides, S, dms, [], {}, 0, spec)
    {
      assert spec.Success? ==> [] + spec.value.1 == spec.value.1;
    }

    lemma LoopDone(
      projects: seq<Project>, versions: seq<string>, sessionProjects: seq<Project>, overrides: Overrides, S: set<Dependency>,
      dms: seq<Option<seq<Dependency>>>, edits: seq<ProjectEdit>, N: set<Dependency>, spec: Result<(Tables, seq<ProjectEdit>), ManipulationError>)
      requires Looping(projects, versions, sessionProjects, overrides, S, dms, edits, N, |projects|, spec)
      ensures spec == Success((State(S), edits))
      ensures ParentsEdited(projects, edits)
      ensures forall j | 0 <= j < |edits| && Once(projects, j) ::
        && (forall d | d in Head(projects[j].dependencyManagement, |edits[j].injected|) :: d in N)
        && InjectedInto(dms[j], projects[j].dependencyManagement, edits[j].injected)
    {
      assert edits + [] == edits;
    }

    /**
     * ApplyAt, keeping what the loop knows of the projects before the `i`-th: the versions of
     * their parents are the ones `edits` gives, and each project listed once has new elements
     * (among `N`) for its injected overrides at the head of the dependencyManagement section it
     * had before the loop, `dms[j]`.
     */
    method ApplyNext(
      projects: seq<Project>, ghost versions: seq<string>, i: nat, sessionProjects: seq<Project>, overrides: Overrides, ghost S: set<Dependency>,
      ghost dms: seq<Option<seq<Dependency>>>, ghost edits: seq<ProjectEdit>, ghost N: set<Dependency>, ghost spec: Result<(Tables, seq<ProjectEdit>), ManipulationError>)
      returns (r: Result<(), ManipulationError>, ghost edits': seq<ProjectEdit>, ghost N': set<Dependency>)
      requires i < |projects| && Looping(projects, versions, sessionProjects, overrides, S, dms, edits, N, i, spec)
      requires forall j | 0 <= j < |projects| && j != i :: projects[i].parent == null || projects[i].parent != projects[j].parent
      modifies this, S`version, S`exclusions, {projects[i]}`dependencyManagement, projects[i].parent
      ensures r.Failure? ==> spec == Failure(r.error)
      ensures r.Success? ==> Looping(projects, versions, sessionProjects, overrides, S, dms, edits', N', i + 1, spec)
    {
      ApplyAllStep(c, cfg, projects, versions, i, sessionProjects, overrides, State(S));
      ghost var e;
      r, e, N' := ApplyExtended(projects, versions, i, sessionProjects, overrides, S, dms, edits, N,
        ApplySpec(c, cfg, projects[i], sessionProjects, overrides, ProjectEdit(State(S), versions[i], [])));
      edits' := edits + [e];
      if r.Success? {
        AfterEditsStep(edits, e, ApplyAll(c, cfg, projects, versions, i + 1, sessionProjects, overrides, State(S)));
      }
    }

    /**
     * ApplyFramed, with EditsHold extended to the edit `e` of the `i`-th project and `N'` taking
     * its new elements; `step` is what ApplySpec says of the project.
     */
    method ApplyExtended(
      projects: seq<Project>, ghost versions: seq<string>, i: nat, sessionProjects: seq<Project>, overrides: Overrides, ghost S: set<Dependency>,
      ghost dms: seq<Option<seq<Dependency>>>, ghost edits: seq<ProjectEdit>, ghost N: set<Dependency>, ghost step: Result<ProjectEdit, ManipulationError>)
      returns (r: Result<(), ManipulationError>, ghost e: ProjectEdit, ghost N': set<Dependency>)
      requires i < |projects| == |versions| && cfg.Valid() && overrides.Valid()
      requires forall p | p in projects :: p.DependenciesIn(S)
      requires ParentsKept(projects, versions, i) && Untouched(projects, dms, i)
      requires forall j | 0 <= j < |projects| && j != i :: projects[i].parent == null || projects[i].parent != projects[j].parent
      requires |edits| == i && EditsHold(projects, dms, edits, N, S)
      requires step == ApplySpec(c, cfg, projects[i], sessionProjects, overrides, ProjectEdit(State(S), versions[i], []))
      modifies this, S`version, S`exclusions, {projects[i]}`dependencyManagement, projects[i].parent
      ensures r.Success? == step.Success? && (r.Failure? ==> r.error == step.error)
      ensures r.Success? ==> step.value == e && e.tables == State(S)
      ensures ParentsKept(projects, versions, i + 1) && Untouched(projects, dms, i + 1)
      ensures r.Success? ==> EditsHold(projects, dms, edits + [e], N', S)
    {
      r, e := ApplyFramed(projects, versions, i, sessionProjects, overrides, S, dms, edits, N, step);
      ghost var heads := Head(projects[i].dependencyManagement, |e.injected|);
      N' := if r.Success? then N + set d | d in heads else N;
      if r.Success? {
        assert forall d | d in heads :: fresh(d);
        EditsExtend(projects, dms, edits, N, S, e, N');
      }
    }

    /** ApplyAt, keeping EditsHold for the projects before the `i`-th; `step` is what ApplySpec says of the project. */
    method ApplyFramed(
      projects: seq<Project>, ghost versions: seq<string>, i: nat, sessionProjects: seq<Project>, overrides: Overrides, ghost S: set<Dependency>,
      ghost dms: seq<Option<seq<Dependency>>>, ghost edits: seq<ProjectEdit>, ghost N: set<Dependency>, ghost step: Result<ProjectEdit, ManipulationError>)
      returns (r: Result<(), ManipulationError>, ghost e: ProjectEdit)
      requires i < |projects| == |versions| && cfg.Valid() && overrides.Valid()
      requires forall p | p in projects :: p.DependenciesIn(S)
      requires ParentsKept(projects, versions, i)
      requires forall j | 0 <= j < |projects| && j != i :: projects[i].parent == null || projects[i].parent != projects[j].parent
      requires |edits| == i && EditsHold(projects, dms, edits, N, S)
      requires step == ApplySpec(c, cfg, projects[i], sessionProjects, overrides, ProjectEdit(State(S), versions[i], []))
      modifies this, S`version, S`exclusions, {projects[i]}`dependencyManagement, projects[i].parent
      ensures r.Success? == step.Success? && (r.Failure? ==> r.error == step.error)
      ensures r.Success? ==> step.value == e && e.tables == State(S)
      ensures ParentsKept(projects, versions, i + 1)
      ensures EditsHold(projects, dms, edits, N, S)
      ensures r.Success? ==> ParentVersionOf(projects[i]) == e.parentVersion && Injected(projects[i], e.injected)
    {
      r, e := ApplyAt(projects, versions, i, sessionProjects, overrides, S);
      forall j | 0 <= j < i && Once(projects, j)
        ensures InjectedInto(dms[j], projects[j].dependencyManagement, edits[j].injected)
      {
        assert old(InjectedInto(dms[j], projects[j].dependencyManagement, edits[j].injected));
      }
    }

    /** The body of internalApplyChanges' loop for the `i`-th project: apply, whose edit is `e`. */
    method ApplyAt(projects: seq<Project>, ghost versions: seq<string>, i: nat, sessionProjects: seq<Project>, overrides: Overrides, ghost S: set<Dependency>)
      returns (r: Result<(), ManipulationError>, ghost e: ProjectEdit)
      requires i < |projects| == |versions| && cfg.Valid() && overrides.Valid()
      requires forall p | p in projects :: p.DependenciesIn(S)
      requires ParentsKept(projects, versions, i)
      requires forall j | 0 <= j < |projects| && j != i :: projects[i].parent == null || projects[i].parent != projects[j].parent
      modifies this, S`version, S`exclusions, {projects[i]}`dependencyManagement, projects[i].parent
      ensures var spec := old(ApplySpec(c, cfg, projects[i], sessionProjects, overrides, ProjectEdit(State(S), versions[i], [])));
        && r.Success? == spec.Success?
        && (r.Failure? ==> r.error == spec.error)
        && (r.Success? ==> spec.value == e && e.tables == State(S))
      ensures ParentsKept(projects, versions, i + 1)
      ensures forall j | 0 <= j < i :: ParentVersionOf(projects[j]) == old(ParentVersionOf(projects[j]))
      ensures forall j | 0 <= j < i && Once(projects, j) :: projects[j].dependencyManagement == old(projects[j].dependencyManagement)
      ensures r.Success? ==> ParentVersionOf(projects[i]) == e.parentVersion && Injected(projects[i], e.injected)
    {
      ghost var spec := ApplySpec(c, cfg, projects[i], sessionProjects, overrides, ProjectEdit(State(S), versions[i], []));
      r := Apply(projects[i], sessionProjects, overrides, S);
      e := if r.Success? then spec.value else ProjectEdit(State(S), versions[i], []);
    }

    /**
     * internalApplyChanges(projects, overrides): apply on every project when there is anything to
     * apply, then validation and write-back when some project was changed.
     */
    method InternalApplyChanges(
      projects: seq<Project>, sessionProjects: seq<Project>, overrides: Overrides, store: ModelProperties,
      ghost P: set<Project>, ghost S: set<Dependency>)
      returns (r: Result<set<Project>, ManipulationError>)
      requires cfg.Valid() && overrides.Valid()
      requires forall p | p in projects :: p in P && p.DependenciesIn(S)
      requires forall i, j | 0 <= i < j < |projects| :: projects[i].parent == null || projects[i].parent != projects[j].parent
      modifies this, S`version, S`exclusions, P`dependencyManagement, Parents(projects), store
      ensures !(AppliesAny(cfg, overrides) && projects != []) ==>
        && r == Success({}) && State(S) == old(State(S)) && store.values == old(store.values)
        && ParentVersions(projects) == old(ParentVersions(projects)) && Managements(projects) == old(Managements(projects))
      ensures AppliesAny(cfg, overrides) && projects != [] ==>
        ChangesReported(r, old(ApplyAll(c, cfg, projects, ParentVersions(projects), 0, sessionProjects, overrides, State(S))),
          projects, State(S), FinishSpec(c, cfg, versionPropertyUpdateMap, explicitVersionPropertyUpdateMap, old(store.values)), store.values)
    {
      ghost var spec := ApplyAll(c, cfg, projects, ParentVersions(projects), 0, sessionProjects, overrides, State(S));
      r := ApplyEach(projects, sessionProjects, overrides, P, S);
      if r.Failure? {
        return r;
      }
      if projects != [] {
        assert AppliesAny(cfg, overrides) ==> projects[0] in r.value;
      }
      if r.value == {} {
        return r;
      }
      assert AppliesAny(cfg, overrides) && projects != [];
      ghost var now := State(S);
      var finished := FinishChanges(store);
      assert State(S) == now;
      if finished.Failure? {
        return Failure(finished.error);
      }
    }

    /**
     * applyChanges(projects): nothing when the session or the dependency state is disabled;
     * otherwise loadRemoteOverrides merges the overrides of the BOMs `boms` (in the order they
     * are listed) with the other overrides `rest`, and internalApplyChanges applies them.
     */
    method ApplyChanges(
      projects: seq<Project>, sessionProjects: seq<Project>, boms: seq<Overrides>, rest: Overrides, store: ModelProperties,
      ghost P: set<Project>, ghost S: set<Dependency>)
      returns (r: Result<set<Project>, ManipulationError>)
      requires cfg.Valid() && AllValid(boms) && rest.Valid()
      requires forall p | p in projects :: p in P && p.DependenciesIn(S)
      requires forall i, j | 0 <= i < j < |projects| :: projects[i].parent == null || projects[i].parent != projects[j].parent
      modifies this, S`version, S`exclusions, P`dependencyManagement, Parents(projects), store
      ensures var overrides := MergeOverrides(boms, rest, cfg.precedence);
        !(cfg.enabled && AppliesAny(cfg, overrides) && projects != []) ==>
          && r == Success({}) && State(S) == old(State(S)) && store.values == old(store.values)
          && ParentVersions(projects) == old(ParentVersions(projects)) && Managements(projects) == old(Managements(projects))
      ensures var overrides := MergeOverrides(boms, rest, cfg.precedence);
        cfg.enabled && AppliesAny(cfg, overrides) && projects != [] ==>
          ChangesReported(r, old(ApplyAll(c, cfg, projects, ParentVersions(projects), 0, sessionProjects, overrides, State(S))),
            projects, State(S), FinishSpec(c, cfg, versionPropertyUpdateMap, explicitVersionPropertyUpdateMap, old(store.values)), store.values)
    {
      if !cfg.enabled {
        return Success({});
      }
      var overrides := LoadRemoteOverrides(boms, rest, cfg.precedence);
      r := InternalApplyChanges(projects, sessionProjects, overrides, store, P, S);
    }
  }
}
