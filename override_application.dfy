/**
 * What applyOverrides, applyExplicitOverrides and the inheritance-root parent rewrite of
 * DependencyManipulator do to the dependencies of one resolved map, as functions of the
 * dependencies' current values. The values live in a `DepHeap` keyed by the dependency
 * objects themselves, so two resolved keys that share one model element see each other's
 * updates, as they do in the source.
 */
module OverrideApplication {
  import opened Wrappers
  import opened Refs
  import opened LinkedMaps
  import opened JavaStrings
  import opened Pom
  import opened OverrideMerge

  /** The values of the dependency objects. */
  type DepHeap = map<Dependency, DepValue>

  /** Every dependency of `deps` has a value in `heap`. */
  ghost predicate Covers(deps: Resolved, heap: DepHeap) {
    deps.entries.Values <= heap.Keys
  }

  // ---------------------------------------------------------------- applyOverrides

  /**
   * The version a dependency gets when an override is applied directly: a version holding a
   * property keeps its text and gets the override's added qualifier, either after the
   * configured suffix or as whatever the override adds to the resolved version.
   */
  function RewrittenVersion(oldVersion: string, overrideVersion: string, resolvedValue: string, ignoreSuffix: bool, suffix: string): (r: string)
    // a version without a property reference is replaced outright
    ensures !Contains(oldVersion, "${") ==> r == overrideVersion
    // outside the suffix rule, a property version is kept whole at the head of the new one
    ensures Contains(oldVersion, "${") && !(ignoreSuffix && Contains(oldVersion, suffix)) ==> StartsWith(r, oldVersion)
  {
    if Contains(oldVersion, "${") then
      if ignoreSuffix && Contains(oldVersion, suffix) then
        SubstringBefore(oldVersion, suffix) + suffix + SubstringAfter(overrideVersion, suffix)
      else
        oldVersion + RemoveStart(overrideVersion, resolvedValue)
    else overrideVersion
  }

  /** What one applyOverrides call threads through its loops. */
  datatype OverridePass = OverridePass(heap: DepHeap, table: PropertyTable, unmatched: Overrides)

  /** The inner loop body of applyOverrides: dependency `dependency` (model element `d`) against one override entry. */
  function OverrideEntry(
    c: Collaborators, cfg: Config, project: Project, explicit: WildcardMap,
    dependency: ArtifactRef, d: Dependency, entry: ArtifactRef, overrideVersion: string, st: OverridePass)
    : (r: Result<OverridePass, ManipulationError>)
    requires d in st.heap
    ensures r.Success? ==> r.value.heap.Keys == st.heap.Keys
    ensures r.Success? ==> forall x | x in st.heap && x != d :: r.value.heap[x] == st.heap[x]
    ensures r.Success? ==> r.value.heap[d].exclusions == st.heap[d].exclusions
    ensures r.Success? ==> r.value.unmatched == st.unmatched || r.value.unmatched == st.unmatched.Remove(entry)
    ensures r.Success? && r.value.unmatched != st.unmatched ==> dependency.AsProjectRef() == entry.AsProjectRef()
    // an empty override, an unversioned dependency and a reference to the project's own version are skipped
    ensures overrideVersion == "" ==> r == Success(st)
    ensures st.heap[d].version in {None, Some(""), Some("${project.version}")} ==> r == Success(st)
    ensures st.heap[d].version.Some? && Contains(st.heap[d].version.value, "$") && project.version == dependency.version ==> r == Success(st)
    // a strict violation never changes the dependency; only it and cacheProperty abort the run
    ensures cfg.strict && !c.checkStrictValue(dependency.version, overrideVersion) && r.Success? ==> r.value.heap == st.heap
    ensures r.Failure? && !(cfg.strict && cfg.failOnStrictViolation && !c.checkStrictValue(dependency.version, overrideVersion)) ==>
      st.heap[d].version.Some? && c.cacheProperty(st.table, project, st.heap[d].version.value, overrideVersion, entry, false).Failure?
    // an override leaves the unmatched map only through the explicit skip or once cacheProperty has seen it
    ensures r.Success? && r.value.unmatched != st.unmatched ==>
      || c.wildcardContains(explicit, dependency.AsProjectRef())
      || (st.heap[d].version.Some? && c.cacheProperty(st.table, project, st.heap[d].version.value, overrideVersion, entry, false).Success?)
    // an override that applies: a property version is recorded in the table, any other version is rewritten
    ensures var v := st.heap[d].version;
      var outcome := c.cacheProperty(st.table, project, if v.Some? then v.value else "", overrideVersion, entry, false);
      (&& dependency.AsProjectRef() == entry.AsProjectRef() && overrideVersion != ""
       && v.Some? && v.value != "" && v.value != "${project.version}"
       && !(Contains(v.value, "$") && project.version == dependency.version)
       && !c.wildcardContains(explicit, dependency.AsProjectRef())
       && (!cfg.strict || c.checkStrictValue(dependency.version, overrideVersion))
       && outcome.Success?) ==>
        r == Success(OverridePass(
          if outcome.value.cached then st.heap
          else st.heap[d := st.heap[d].(version := Some(RewrittenVersion(v.value, overrideVersion, dependency.version, cfg.strictIgnoreSuffix, c.suffix)))],
          outcome.value.table, st.unmatched.Remove(entry)))
  {
    var depPr := dependency.AsProjectRef();
    if depPr != entry.AsProjectRef() then Success(st)
    else
      var oldVersion := st.heap[d].version;
      var resolvedValue := dependency.version;
      if overrideVersion == "" then Success(st)
      else if oldVersion.None? || oldVersion.value == "" then Success(st)
      else
        var current := oldVersion.value;
        if current == "${project.version}" || (Contains(current, "$") && project.version == resolvedValue) then Success(st)
        else if c.wildcardContains(explicit, depPr) then Success(st.(unmatched := st.unmatched.Remove(entry)))
        else if cfg.strict && Contains(current, "$") && !c.checkStrictValue(resolvedValue, overrideVersion) then
          if cfg.failOnStrictViolation then
            Failure(PropertyStrictViolation(depPr, current, resolvedValue, entry.version, entry.AsProjectRef()))
          else Success(st)
        else
          var outcome :- c.cacheProperty(st.table, project, current, overrideVersion, entry, false);
          var unmatched := st.unmatched.Remove(entry);
          if outcome.cached then Success(OverridePass(st.heap, outcome.table, unmatched))
          else if cfg.strict && !c.checkStrictValue(resolvedValue, overrideVersion) then
            if cfg.failOnStrictViolation then Failure(VersionStrictViolation(current, entry.AsProjectRef(), overrideVersion))
            else Success(OverridePass(st.heap, outcome.table, unmatched))
          else
            var version := RewrittenVersion(current, overrideVersion, resolvedValue, cfg.strictIgnoreSuffix, c.suffix);
            Success(OverridePass(st.heap[d := st.heap[d].(version := Some(version))], outcome.table, unmatched))
  }

  /** The inner loop of applyOverrides over the override entries `keys` (in the order of `overrides`). */
  function OverrideEntries(
    c: Collaborators, cfg: Config, project: Project, explicit: WildcardMap,
    dependency: ArtifactRef, d: Dependency, keys: seq<ArtifactRef>, overrides: Overrides, st: OverridePass)
    : (r: Result<OverridePass, ManipulationError>)
    requires d in st.heap && forall k | k in keys :: k in overrides.entries
    ensures r.Success? ==> r.value.heap.Keys == st.heap.Keys
  {
    if keys == [] then Success(st)
    else
      var next :- OverrideEntry(c, cfg, project, explicit, dependency, d, keys[0], overrides.entries[keys[0]], st);
      OverrideEntries(c, cfg, project, explicit, dependency, d, keys[1..], overrides, next)
  }

  /** The outer loop of applyOverrides over the dependency keys `keys` of `deps`. */
  function OverrideDependencies(
    c: Collaborators, cfg: Config, project: Project, explicit: WildcardMap,
    deps: Resolved, keys: seq<ArtifactRef>, overrides: Overrides, st: OverridePass)
    : (r: Result<OverridePass, ManipulationError>)
    requires Covers(deps, st.heap) && overrides.Valid()
    requires forall k | k in keys :: k in deps.entries
    ensures r.Success? ==> r.value.heap.Keys == st.heap.Keys
  {
    if keys == [] then Success(st)
    else
      var next :- OverrideEntries(c, cfg, project, explicit, keys[0], deps.entries[keys[0]], overrides.keys, overrides, st);
      OverrideDependencies(c, cfg, project, explicit, deps, keys[1..], overrides, next)
  }

  /**
   * applyOverrides(project, deps, explicit, overrides): the dependencies' new values, the
   * property table, and the overrides that matched no dependency.
   */
  function ApplyOverridesSpec(
    c: Collaborators, cfg: Config, project: Project, explicit: WildcardMap,
    deps: Resolved, overrides: Overrides, heap: DepHeap, table: PropertyTable)
    : Result<OverridePass, ManipulationError>
    requires Covers(deps, heap) && overrides.Valid()
  {
    OverrideDependencies(c, cfg, project, explicit, deps, deps.keys, overrides, OverridePass(heap, table, overrides))
  }

  // ---------------------------------------------------------------- applyExplicitOverrides

  /** What one applyExplicitOverrides call threads through its loops. */
  datatype Edit = Edit(heap: DepHeap, table: PropertyTable)

  /** The exclusion a `+group:artifact` token adds, or None when the token has no `:` to split at. */
  function ParseExclusion(target: string): (r: Option<Exclusion>)
    requires StartsWith(target, "+")
    // without a `:` there is no artifact at index 1 of the split
    ensures ':' !in target ==> r.None?
    ensures r.Some? ==> ':' !in r.value.groupId && ':' !in r.value.artifactId
  {
    var groupParts := Split(target[1..], ':');
    var allParts := Split(target, ':');
    if |groupParts| == 0 || |allParts| < 2 then None
    else Some(Exclusion(groupParts[0], allParts[1]))
  }

  /** A dependency's value together with a property table, as one explicit-override step sees them. */
  datatype DepEdit = DepEdit(value: DepValue, table: PropertyTable)

  /** One comma-separated target of an explicit override: an exclusion (`+g:a`) or a forced version. */
  function ExplicitToken(
    c: Collaborators, project: Project, dependency: ArtifactRef, oldVersion: string, target: string, st: DepEdit)
    : (r: Result<DepEdit, ManipulationError>)
    ensures r.Success? && st.value.version.Some? ==> r.value.value.version.Some?
    // an exclusion token appends the exclusion it names, and fails when it names none
    ensures StartsWith(target, "+") ==>
      && (r.Failure? <==> ParseExclusion(target).None?)
      && (r.Success? ==> r.value.value.exclusions == st.value.exclusions + [ParseExclusion(target).value])
    // and leaves the version and the table alone
    ensures StartsWith(target, "+") && r.Success? ==> r.value.value.version == st.value.version && r.value.table == st.table
    // any other token keeps the exclusions and, unless it was cached as a property, forces the version unchecked
    ensures !StartsWith(target, "+") && r.Success? ==> r.value.value.exclusions == st.value.exclusions
    ensures var outcome := c.cacheProperty(st.table, project, oldVersion, target, dependency, true);
      !StartsWith(target, "+") && outcome.Success? && !outcome.value.cached ==> r.Success? && r.value.value.version == Some(target)
  {
    if StartsWith(target, "+") then
      match ParseExclusion(target)
      case None => Failure(MalformedExclusion(target))
      case Some(e) => Success(st.(value := st.value.(exclusions := st.value.exclusions + [e])))
    else
      var outcome :- c.cacheProperty(st.table, project, oldVersion, target, dependency, true);
      if outcome.cached then Success(DepEdit(st.value, outcome.table))
      else Success(DepEdit(st.value.(version := Some(target)), outcome.table))
  }

  function ExplicitTokens(
    c: Collaborators, project: Project, dependency: ArtifactRef, oldVersion: string, targets: seq<string>, st: DepEdit)
    : (r: Result<DepEdit, ManipulationError>)
    ensures r.Success? && st.value.version.Some? ==> r.value.value.version.Some?
  {
    if targets == [] then Success(st)
    else
      var next :- ExplicitToken(c, project, dependency, oldVersion, targets[0], st);
      ExplicitTokens(c, project, dependency, oldVersion, targets[1..], next)
  }

  /** The loop body of applyExplicitOverrides for one dependency key. */
  function ExplicitOnValue(c: Collaborators, project: Project, explicit: WildcardMap, dependency: ArtifactRef, st: DepEdit)
    : (r: Result<DepEdit, ManipulationError>)
    ensures !c.wildcardContains(explicit, dependency.AsProjectRef()) ==> r == Success(st)
    ensures c.wildcardGet(explicit, dependency.AsProjectRef()) == "" || st.value.version in {None, Some("")} ==> r == Success(st)
    ensures r.Success? && st.value.version.Some? ==> r.value.value.version.Some?
  {
    var groupIdArtifactId := dependency.AsProjectRef();
    if !c.wildcardContains(explicit, groupIdArtifactId) then Success(st)
    else
      var overrideVersion := c.wildcardGet(explicit, groupIdArtifactId);
      var oldVersion := st.value.version;
      if overrideVersion == "" || oldVersion.None? || oldVersion.value == "" then Success(st)
      else ExplicitTokens(c, project, dependency, oldVersion.value, Split(overrideVersion, ','), st)
  }

  function ExplicitDependencies(c: Collaborators, project: Project, explicit: WildcardMap, deps: Resolved, keys: seq<ArtifactRef>, st: Edit)
    : (r: Result<Edit, ManipulationError>)
    requires Covers(deps, st.heap)
    requires forall k | k in keys :: k in deps.entries
    ensures r.Success? ==> r.value.heap.Keys == st.heap.Keys
    ensures r.Success? ==> forall x | x in st.heap && x !in deps.entries.Values :: r.value.heap[x] == st.heap[x]
    ensures r.Success? ==> forall x | x in st.heap && st.heap[x].version.Some? :: r.value.heap[x].version.Some?
  {
    if keys == [] then Success(st)
    else
      var d := deps.entries[keys[0]];
      var next :- ExplicitOnValue(c, project, explicit, keys[0], DepEdit(st.heap[d], st.table));
      ExplicitDependencies(c, project, explicit, deps, keys[1..], Edit(st.heap[d := next.value], next.table))
  }

  /** applyExplicitOverrides(project, deps, explicit, state, table). */
  function ApplyExplicitOverridesSpec(c: Collaborators, project: Project, explicit: WildcardMap, deps: Resolved, heap: DepHeap, table: PropertyTable)
    : Result<Edit, ManipulationError>
    requires Covers(deps, heap)
  {
    ExplicitDependencies(c, project, explicit, deps, deps.keys, Edit(heap, table))
  }

  // ---------------------------------------------------------------- parent of the inheritance root

  /**
   * The loop over the module overrides that rewrites the version of the inheritance root's
   * parent: the first override for the parent's group:artifact that passes the strict check
   * gives the new version; a failing strict check either aborts or moves on to the next entry.
   */
  function ParentVersion(c: Collaborators, cfg: Config, parentGA: string, version: string, keys: seq<ArtifactRef>, overrides: Overrides)
    : (r: Result<string, ManipulationError>)
    requires forall k | k in keys :: k in overrides.entries
    // a new version comes from an override for the parent's group:artifact that passes the strict check
    ensures r.Success? && r.value != version ==>
      && c.parseProjectRef(parentGA).Some?
      && (!cfg.strict || c.checkStrictValue(version, r.value))
      && (exists k | k in keys :: k.AsProjectRef() == c.parseProjectRef(parentGA).value && overrides.entries[k] == r.value)
    // it fails only on an unparsable parent ref or on a strict violation that must abort
    ensures r.Failure? ==> c.parseProjectRef(parentGA).None? || (cfg.strict && cfg.failOnStrictViolation)
  {
    if keys == [] then Success(version)
    else
      var newValue := overrides.entries[keys[0]];
      var parentRef :- c.ParseRef(parentGA);
      if keys[0].AsProjectRef() != parentRef then ParentVersion(c, cfg, parentGA, version, keys[1..], overrides)
      else if cfg.strict && !c.checkStrictValue(version, newValue) then
        if cfg.failOnStrictViolation then Failure(ParentStrictViolation(parentGA, newValue, version))
        else ParentVersion(c, cfg, parentGA, version, keys[1..], overrides)
      else Success(newValue)
  }

  /** Dependency.getManagementKey of the dependency built from a parent: group:artifact:type with the default type. */
  function ManagementKey(groupId: string, artifactId: string): string {
    groupId + ":" + artifactId + ":jar"
  }

  // ---------------------------------------------------------------- injection of unmatched overrides

  /**
   * The dependencies added at the head of the inheritance root's dependencyManagement: the
   * keys of the global overrides, in their order, that applyOverrides left unmatched, each
   * with its version from the module's overrides.
   */
  function ExtraDependencies(globalKeys: seq<ArtifactRef>, unmatched: Overrides, moduleOverrides: Overrides)
    : seq<(ArtifactRef, string)>
    requires Narrower(unmatched, moduleOverrides)
  {
    if globalKeys == [] then []
    else
      var rest := ExtraDependencies(globalKeys[1..], unmatched, moduleOverrides);
      if globalKeys[0] in unmatched.entries then [(globalKeys[0], moduleOverrides.entries[globalKeys[0]])] + rest
      else rest
  }

  /**
   * The dependencies injected are exactly the global overrides left unmatched, each once when
   * the global keys are distinct, with the version the module's overrides give them.
   */
  lemma {:induction false} InjectedAreUnmatched(globalKeys: seq<ArtifactRef>, unmatched: Overrides, moduleOverrides: Overrides)
    requires Narrower(unmatched, moduleOverrides)
    ensures forall i | 0 <= i < |ExtraDependencies(globalKeys, unmatched, moduleOverrides)| ::
      var x := ExtraDependencies(globalKeys, unmatched, moduleOverrides)[i];
      x.0 in globalKeys && x.0 in unmatched.entries && x.1 == unmatched.entries[x.0]
    ensures forall k | k in globalKeys && k in unmatched.entries ::
      exists i | 0 <= i < |ExtraDependencies(globalKeys, unmatched, moduleOverrides)| :: ExtraDependencies(globalKeys, unmatched, moduleOverrides)[i].0 == k
  {
    if globalKeys != [] {
      InjectedAreUnmatched(globalKeys[1..], unmatched, moduleOverrides);
      var rest := ExtraDependencies(globalKeys[1..], unmatched, moduleOverrides);
      forall i | 0 <= i < |rest|
        ensures rest[i].0 in globalKeys
      {
        assert rest[i].0 in globalKeys[1..];
      }
      if globalKeys[0] in unmatched.entries {
        var head := [(globalKeys[0], moduleOverrides.entries[globalKeys[0]])];
        assert ExtraDependencies(globalKeys, unmatched, moduleOverrides) == head + rest;
        assert forall i | 1 <= i < |head + rest| :: (head + rest)[i] == rest[i - 1];
        forall k | k in globalKeys && k in unmatched.entries
          ensures exists i | 0 <= i < |head + rest| :: (head + rest)[i].0 == k
        {
          if k == globalKeys[0] {
            assert (head + rest)[0].0 == k;
          } else {
            assert k in globalKeys[1..];
            var i :| 0 <= i < |rest| && rest[i].0 == k;
            assert (head + rest)[i + 1].0 == k;
          }
        }
      } else {
        assert ExtraDependencies(globalKeys, unmatched, moduleOverrides) == rest;
        forall k | k in globalKeys && k in unmatched.entries
          ensures k in globalKeys[1..]
        {
        }
      }
    }
  }

  // ---------------------------------------------------------------- properties

  /** A version holding a property keeps its text and gains exactly what the override adds to the resolved version. */
  lemma PropertyVersionKeepsReference(oldVersion: string, resolvedValue: string, tail: string, ignoreSuffix: bool, suffix: string)
    requires Contains(oldVersion, "${")
    requires !ignoreSuffix || !Contains(oldVersion, suffix)
    ensures RewrittenVersion(oldVersion, resolvedValue + tail, resolvedValue, ignoreSuffix, suffix) == oldVersion + tail
  {
    RemoveStartOfConcat(resolvedValue, tail);
  }

  /**
   * With the suffix rule, a version holding a property keeps its text up to and including the
   * first occurrence of the suffix and takes from the override what follows the suffix there.
   */
  lemma SuffixSpliceKeepsHead(oldVersion: string, overrideVersion: string, resolvedValue: string, suffix: string)
    requires Contains(oldVersion, "${") && suffix != "" && Contains(oldVersion, suffix)
    ensures var head := IndexOf(oldVersion, suffix) + |suffix|;
      && head <= |oldVersion|
      && RewrittenVersion(oldVersion, overrideVersion, resolvedValue, true, suffix) == oldVersion[..head] + SubstringAfter(overrideVersion, suffix)
  {
    var pos := IndexOf(oldVersion, suffix);
    assert OccursAt(oldVersion, suffix, pos);
    assert oldVersion[..pos + |suffix|] == oldVersion[..pos] + suffix;
  }

  /** The group:artifacts of the keys of a resolved map. */
  function KeyGAs(deps: Resolved): set<ProjectRef> {
    set k | k in deps.entries :: k.AsProjectRef()
  }

  /** Every key of `deps` that points to `x` names an artifact with an explicit override. */
  ghost predicate Suppressed(c: Collaborators, explicit: WildcardMap, deps: Resolved, x: Dependency) {
    forall k | k in deps.entries && deps.entries[k] == x :: c.wildcardContains(explicit, k.AsProjectRef())
  }

  /** What every part of applyOverrides keeps true between the state before and the state after. */
  ghost predicate OverrideGuarantees(
    c: Collaborators, explicit: WildcardMap, deps: Resolved, before: OverridePass, after: OverridePass)
  {
    && after.heap.Keys == before.heap.Keys
    && Narrower(after.unmatched, before.unmatched)
    && (before.unmatched.Valid() ==> after.unmatched.Valid())
    && (forall e | e in before.unmatched.entries && e.AsProjectRef() !in KeyGAs(deps) :: e in after.unmatched.entries)
    && (forall x | x in before.heap && x !in deps.entries.Values :: after.heap[x] == before.heap[x])
    && (forall x | x in before.heap :: after.heap[x].exclusions == before.heap[x].exclusions)
    && (forall x | x in before.heap && before.heap[x].version == Some("${project.version}") :: after.heap[x] == before.heap[x])
    && (forall x | x in before.heap && Suppressed(c, explicit, deps, x) :: after.heap[x] == before.heap[x])
  }

  lemma GuaranteesTrans(c: Collaborators, explicit: WildcardMap, deps: Resolved, a: OverridePass, b: OverridePass, d: OverridePass)
    requires OverrideGuarantees(c, explicit, deps, a, b) && OverrideGuarantees(c, explicit, deps, b, d)
    ensures OverrideGuarantees(c, explicit, deps, a, d)
  {
  }

  lemma OverrideEntryGuarantees(
    c: Collaborators, cfg: Config, project: Project, explicit: WildcardMap, deps: Resolved,
    dependency: ArtifactRef, entry: ArtifactRef, overrideVersion: string, st: OverridePass)
    requires Covers(deps, st.heap) && dependency in deps.entries
    ensures var r := OverrideEntry(c, cfg, project, explicit, dependency, deps.entries[dependency], entry, overrideVersion, st);
      r.Success? ==> OverrideGuarantees(c, explicit, deps, st, r.value)
  {
    var d := deps.entries[dependency];
    var r := OverrideEntry(c, cfg, project, explicit, dependency, d, entry, overrideVersion, st);
    if r.Success? {
      assert dependency.AsProjectRef() in KeyGAs(deps);
      forall x | x in st.heap && Suppressed(c, explicit, deps, x)
        ensures r.value.heap[x] == st.heap[x]
      {
        if x == d {
          assert c.wildcardContains(explicit, dependency.AsProjectRef());
        }
      }
    }
  }

  lemma {:induction false} OverrideEntriesGuarantees(
    c: Collaborators, cfg: Config, project: Project, explicit: WildcardMap, deps: Resolved,
    dependency: ArtifactRef, keys: seq<ArtifactRef>, overrides: Overrides, st: OverridePass)
    requires Covers(deps, st.heap) && dependency in deps.entries
    requires forall k | k in keys :: k in overrides.entries
    ensures var r := OverrideEntries(c, cfg, project, explicit, dependency, deps.entries[dependency], keys, overrides, st);
      r.Success? ==> OverrideGuarantees(c, explicit, deps, st, r.value)
  {
    var d := deps.entries[dependency];
    if keys == [] {
      assert st.unmatched.Valid() ==> st.unmatched.Valid();
    } else {
      var next := OverrideEntry(c, cfg, project, explicit, dependency, d, keys[0], overrides.entries[keys[0]], st);
      OverrideEntryGuarantees(c, cfg, project, explicit, deps, dependency, keys[0], overrides.entries[keys[0]], st);
      if next.Success? {
        OverrideEntriesGuarantees(c, cfg, project, explicit, deps, dependency, keys[1..], overrides, next.value);
        var r := OverrideEntries(c, cfg, project, explicit, dependency, d, keys[1..], overrides, next.value);
        if r.Success? {
          GuaranteesTrans(c, explicit, deps, st, next.value, r.value);
        }
      }
    }
  }

  lemma {:induction false} OverrideDependenciesGuarantees(
    c: Collaborators, cfg: Config, project: Project, explicit: WildcardMap,
    deps: Resolved, keys: seq<ArtifactRef>, overrides: Overrides, st: OverridePass)
    requires Covers(deps, st.heap) && overrides.Valid()
    requires forall k | k in keys :: k in deps.entries
    ensures var r := OverrideDependencies(c, cfg, project, explicit, deps, keys, overrides, st);
      r.Success? ==> OverrideGuarantees(c, explicit, deps, st, r.value)
  {
    if keys == [] {
      assert st.unmatched.Valid() ==> st.unmatched.Valid();
    } else {
      var next := OverrideEntries(c, cfg, project, explicit, keys[0], deps.entries[keys[0]], overrides.keys, overrides, st);
      OverrideEntriesGuarantees(c, cfg, project, explicit, deps, keys[0], overrides.keys, overrides, st);
      if next.Success? {
        OverrideDependenciesGuarantees(c, cfg, project, explicit, deps, keys[1..], overrides, next.value);
        var r := OverrideDependencies(c, cfg, project, explicit, deps, keys[1..], overrides, next.value);
        if r.Success? {
          GuaranteesTrans(c, explicit, deps, st, next.value, r.value);
        }
      }
    }
  }

  /**
   * applyOverrides returns a sub-map of the overrides that still holds every override whose
   * group:artifact no dependency key has; it changes only versions, only of the map's own
   * dependencies, never a `${project.version}` reference, and never a dependency whose keys
   * all have an explicit override.
   */
  lemma ApplyOverridesGuarantees(
    c: Collaborators, cfg: Config, project: Project, explicit: WildcardMap,
    deps: Resolved, overrides: Overrides, heap: DepHeap, table: PropertyTable)
    requires Covers(deps, heap) && overrides.Valid()
    ensures var r := ApplyOverridesSpec(c, cfg, project, explicit, deps, overrides, heap, table);
      r.Success? ==>
        && r.value.unmatched.Valid()
        && (forall e | e in r.value.unmatched.entries :: e in overrides.entries && r.value.unmatched.entries[e] == overrides.entries[e])
        && (forall e | e in overrides.entries && e.AsProjectRef() !in KeyGAs(deps) :: e in r.value.unmatched.entries)
        && (forall x | x in heap && x !in deps.entries.Values :: r.value.heap[x] == heap[x])
        && (forall x | x in heap :: r.value.heap[x].exclusions == heap[x].exclusions)
        && (forall x | x in heap && heap[x].version == Some("${project.version}") :: r.value.heap[x] == heap[x])
        && (forall x | x in heap && Suppressed(c, explicit, deps, x) :: r.value.heap[x] == heap[x])
  {
    OverrideDependenciesGuarantees(c, cfg, project, explicit, deps, deps.keys, overrides, OverridePass(heap, table, overrides));
  }

  /**
   * With strict alignment and fail-on-violation, an override that fails the strict check aborts
   * the run once it reaches a check: at once for a version holding a property, after
   * cacheProperty declines it for any other version.
   */
  lemma StrictViolationAborts(
    c: Collaborators, cfg: Config, project: Project, explicit: WildcardMap,
    dependency: ArtifactRef, d: Dependency, entry: ArtifactRef, overrideVersion: string, st: OverridePass)
    requires d in st.heap && st.heap[d].version.Some?
    requires dependency.AsProjectRef() == entry.AsProjectRef() && overrideVersion != ""
    requires var v := st.heap[d].version.value;
      && v != "" && v != "${project.version}"
      && !(Contains(v, "$") && project.version == dependency.version)
      && (Contains(v, "$") || c.cacheProperty(st.table, project, v, overrideVersion, entry, false) == Success(CacheOutcome(false, st.table)))
    requires !c.wildcardContains(explicit, dependency.AsProjectRef())
    requires cfg.strict && cfg.failOnStrictViolation && !c.checkStrictValue(dependency.version, overrideVersion)
    ensures OverrideEntry(c, cfg, project, explicit, dependency, d, entry, overrideVersion, st).Failure?
  {
  }

  /**
   * The same rule for the parent of the inheritance root: when the first override for the
   * parent's group:artifact fails the strict check, fail-on-violation aborts the run.
   */
  lemma {:induction false} ParentStrictViolationAborts(
    c: Collaborators, cfg: Config, parentGA: string, parentRef: ProjectRef, version: string, keys: seq<ArtifactRef>, overrides: Overrides, i: nat)
    requires forall k | k in keys :: k in overrides.entries
    requires c.parseProjectRef(parentGA) == Some(parentRef)
    requires i < |keys| && keys[i].AsProjectRef() == parentRef && forall j | 0 <= j < i :: keys[j].AsProjectRef() != parentRef
    requires cfg.strict && cfg.failOnStrictViolation && !c.checkStrictValue(version, overrides.entries[keys[i]])
    ensures ParentVersion(c, cfg, parentGA, version, keys, overrides) == Failure(ParentStrictViolation(parentGA, overrides.entries[keys[i]], version))
  {
    if i > 0 {
      assert keys[1..][i - 1] == keys[i];
      assert forall j | 0 <= j < i - 1 :: keys[1..][j] == keys[j + 1];
      ParentStrictViolationAborts(c, cfg, parentGA, parentRef, version, keys[1..], overrides, i - 1);
    }
  }

  /** A `+group:artifact` token adds the exclusion of exactly that group and artifact. */
  lemma ExclusionTokenRoundTrip(groupId: string, artifactId: string)
    requires ':' !in groupId && ':' !in artifactId && artifactId != "" && '+' !in groupId
    ensures StartsWith("+" + groupId + ":" + artifactId, "+")
    ensures ParseExclusion("+" + groupId + ":" + artifactId) == Some(Exclusion(groupId, artifactId))
  {
    var target := "+" + groupId + ":" + artifactId;
    assert target[1..] == groupId + [':'] + artifactId;
    SplitAtSingleSeparator(groupId, artifactId, ':');
    assert target == ("+" + groupId) + [':'] + artifactId;
    SplitAtSingleSeparator("+" + groupId, artifactId, ':');
  }

  /** A `+group` token without an artifact has nothing at index 1 after splitting: it aborts the run. */
  lemma ExclusionWithoutArtifactFails(groupId: string)
    requires ':' !in groupId
    ensures StartsWith("+" + groupId, "+") && ParseExclusion("+" + groupId) == None
  {
    assert ':' !in "+" + groupId;
  }

  /** With several comma-separated versions and no property involved, the last version listed is the one kept. */
  lemma {:induction false} LastForcedVersionWins(
    c: Collaborators, project: Project, dependency: ArtifactRef, oldVersion: string, targets: seq<string>, st: DepEdit)
    requires targets != []
    requires forall i | 0 <= i < |targets| :: !StartsWith(targets[i], "+")
    requires forall table: PropertyTable, t | t in targets ::
      && c.cacheProperty(table, project, oldVersion, t, dependency, true).Success?
      && !c.cacheProperty(table, project, oldVersion, t, dependency, true).value.cached
    ensures var r := ExplicitTokens(c, project, dependency, oldVersion, targets, st);
      r.Success? && r.value.value.version == Some(targets[|targets| - 1])
  {
    assert targets[0] in targets && !StartsWith(targets[0], "+");
    assert c.cacheProperty(st.table, project, oldVersion, targets[0], dependency, true).Success?;
    var next := ExplicitToken(c, project, dependency, oldVersion, targets[0], st);
    assert next.Success?;
    if |targets| > 1 {
      LastForcedVersionWins(c, project, dependency, oldVersion, targets[1..], next.value);
    }
  }

  /**
   * Without a strict rule, the parent of the inheritance root takes the version of the first
   * module override for its group:artifact, and keeps its version when there is none.
   */
  lemma {:induction false} ParentTakesFirstMatch(
    c: Collaborators, cfg: Config, parentGA: string, parentRef: ProjectRef, version: string, keys: seq<ArtifactRef>, overrides: Overrides)
    requires forall k | k in keys :: k in overrides.entries
    requires !cfg.strict && c.parseProjectRef(parentGA) == Some(parentRef)
    ensures var r := ParentVersion(c, cfg, parentGA, version, keys, overrides);
      && r.Success?
      && ((forall k | k in keys :: k.AsProjectRef() != parentRef) ==> r.value == version)
      && (forall i | 0 <= i < |keys| && keys[i].AsProjectRef() == parentRef && (forall j | 0 <= j < i :: keys[j].AsProjectRef() != parentRef) ::
            r.value == overrides.entries[keys[i]])
  {
    if keys != [] {
      ParentTakesFirstMatch(c, cfg, parentGA, parentRef, version, keys[1..], overrides);
      if keys[0].AsProjectRef() != parentRef {
        forall i | 0 < i < |keys| && keys[i].AsProjectRef() == parentRef && (forall j | 0 <= j < i :: keys[j].AsProjectRef() != parentRef)
          ensures ParentVersion(c, cfg, parentGA, version, keys, overrides).value == overrides.entries[keys[i]]
        {
          assert keys[1..][i - 1] == keys[i];
          assert forall j | 0 <= j < i - 1 :: keys[1..][j] == keys[j + 1];
        }
      }
    }
  }
}
