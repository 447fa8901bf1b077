/**
 * What DependencyManipulator.internalApplyChanges does after the projects are aligned, as
 * functions: validateDependenciesUpdatedProperty over every resolved map of every project of
 * the standard property table, then the write-back of the standard and of the explicit property
 * tables, where a property PropertiesUtils.updateProperties cannot find is set on the model of
 * the inheritance root instead.
 */
module PropertyUpdates {
  import opened Wrappers
  import opened Refs
  import opened LinkedMaps
  import opened JavaStrings
  import opened Pom

  // ---------------------------------------------------------------- validation

  /** Whether a version text is a property reference, as validateDependenciesUpdatedProperty tests it. */
  predicate IsPropertyReference(version: string) {
    StartsWith(version, "${")
  }

  /**
   * Dependency `d` (resolved as `key`) passes validation: it has a version, and when that
   * version is a property reference, verifyPropertyMapping accepts the property.
   */
  ghost predicate Checked(c: Collaborators, table: PropertyTable, p: Project, key: ArtifactRef, d: Dependency)
    reads d
  {
    && d.version.Some?
    && (IsPropertyReference(d.version.value) ==>
         c.verifyPropertyMapping(table, p, key, c.extractPropertyName(d.version.value)).None?)
  }

  /**
   * The error validation reports for a dependency that is not Checked: a missing version (the
   * NullPointerException getVersion().startsWith raises), or what verifyPropertyMapping throws.
   */
  function CheckError(c: Collaborators, table: PropertyTable, p: Project, key: ArtifactRef, d: Dependency): ManipulationError
    reads d
  {
    if d.version.None? then MissingVersion(key)
    else
      match c.verifyPropertyMapping(table, p, key, c.extractPropertyName(d.version.value))
      case Some(e) => e
      case None => MissingVersion(key)
  }

  /** validateDependenciesUpdatedProperty(cState, p, deps) from key `keys[0]` on. */
  function ValidateKeys(c: Collaborators, table: PropertyTable, p: Project, deps: Resolved, keys: seq<ArtifactRef>)
    : Result<(), ManipulationError>
    requires forall k | k in keys :: k in deps.entries
    reads deps.entries.Values
  {
    if keys == [] then Success(())
    else
      var version := deps.entries[keys[0]].version;
      if version.None? then Failure(MissingVersion(keys[0]))
      else if IsPropertyReference(version.value) then
        match c.verifyPropertyMapping(table, p, keys[0], c.extractPropertyName(version.value))
        case Some(e) => Failure(e)
        case None => ValidateKeys(c, table, p, deps, keys[1..])
      else ValidateKeys(c, table, p, deps, keys[1..])
  }

  /** validateDependenciesUpdatedProperty on each resolved map of `p` from the `k`-th on, stopping at the first error. */
  function ValidateMaps(c: Collaborators, table: PropertyTable, p: Project, k: nat): Result<(), ManipulationError>
    reads p.elements
    decreases |p.resolvedMaps| - k
  {
    if k >= |p.resolvedMaps| then Success(())
    else
      var ok :- ValidateKeys(c, table, p, p.resolvedMaps[k], p.resolvedMaps[k].keys);
      ValidateMaps(c, table, p, k + 1)
  }

  /** The dependency elements of the resolved maps of the projects of `table`. */
  ghost function TableElements(table: PropertyTable): set<Dependency> {
    set i, d | 0 <= i < |table.keys| && d in table.keys[i].elements :: d
  }

  /** The validation loop of internalApplyChanges over the projects of `table`, from the `k`-th on. */
  function ValidateProjects(c: Collaborators, table: PropertyTable, k: nat): Result<(), ManipulationError>
    reads set i, d | 0 <= i < |table.keys| && d in table.keys[i].elements :: d
    decreases |table.keys| - k
  {
    if k >= |table.keys| then Success(())
    else
      assert table.keys[k].elements <= TableElements(table);
      var ok :- ValidateMaps(c, table, table.keys[k], 0);
      ValidateProjects(c, table, k + 1)
  }

  /** Validation of a resolved map succeeds exactly when every one of its dependencies is Checked. */
  lemma {:induction false} ValidationChecksEveryKey(c: Collaborators, table: PropertyTable, p: Project, deps: Resolved, keys: seq<ArtifactRef>)
    requires forall k | k in keys :: k in deps.entries
    ensures ValidateKeys(c, table, p, deps, keys).Success?
      <==> forall i | 0 <= i < |keys| :: Checked(c, table, p, keys[i], deps.entries[keys[i]])
  {
    if keys != [] {
      ValidationChecksEveryKey(c, table, p, deps, keys[1..]);
      assert forall i | 1 <= i < |keys| :: keys[1..][i - 1] == keys[i];
    }
  }

  /** A failed validation reports the error of the first dependency, in key order, that is not Checked. */
  lemma {:induction false} ValidationReportsFirstFailure(c: Collaborators, table: PropertyTable, p: Project, deps: Resolved, keys: seq<ArtifactRef>)
    requires forall k | k in keys :: k in deps.entries
    ensures var r := ValidateKeys(c, table, p, deps, keys);
      r.Failure? ==> exists i | 0 <= i < |keys| ::
        && !Checked(c, table, p, keys[i], deps.entries[keys[i]])
        && (forall j | 0 <= j < i :: Checked(c, table, p, keys[j], deps.entries[keys[j]]))
        && r.error == CheckError(c, table, p, keys[i], deps.entries[keys[i]])
  {
    var r := ValidateKeys(c, table, p, deps, keys);
    if keys != [] && r.Failure? {
      var d := deps.entries[keys[0]];
      if Checked(c, table, p, keys[0], d) {
        ValidationReportsFirstFailure(c, table, p, deps, keys[1..]);
        var i :| 0 <= i < |keys[1..]| && !Checked(c, table, p, keys[1..][i], deps.entries[keys[1..][i]])
          && (forall j | 0 <= j < i :: Checked(c, table, p, keys[1..][j], deps.entries[keys[1..][j]]))
          && r.error == CheckError(c, table, p, keys[1..][i], deps.entries[keys[1..][i]]);
        assert forall j | 1 <= j < i + 1 :: keys[j] == keys[1..][j - 1];
        assert !Checked(c, table, p, keys[i + 1], deps.entries[keys[i + 1]]);
      } else {
        assert !Checked(c, table, p, keys[0], deps.entries[keys[0]]);
      }
    }
  }

  /** A map whose dependencies all carry literal versions, none a property reference, always validates. */
  lemma LiteralVersionsPass(c: Collaborators, table: PropertyTable, p: Project, deps: Resolved)
    requires forall k | k in deps.entries :: deps.entries[k].version.Some? && !IsPropertyReference(deps.entries[k].version.value)
    ensures ValidateKeys(c, table, p, deps, deps.keys).Success?
  {
    ValidationChecksEveryKey(c, table, p, deps, deps.keys);
  }

  /** A project validates exactly when each of its resolved maps does. */
  lemma {:induction false} ValidateMapsEveryMap(c: Collaborators, table: PropertyTable, p: Project, k: nat)
    ensures ValidateMaps(c, table, p, k).Success?
      <==> forall i | k <= i < |p.resolvedMaps| :: ValidateKeys(c, table, p, p.resolvedMaps[i], p.resolvedMaps[i].keys).Success?
    decreases |p.resolvedMaps| - k
  {
    if k < |p.resolvedMaps| {
      ValidateMapsEveryMap(c, table, p, k + 1);
    }
  }

  // ---------------------------------------------------------------- write-back

  /**
   * The write-back loop of internalApplyChanges for one project and its property map, from
   * name `names[0]` on: updateProperties first; when it answers NOTFOUND the property is set
   * on the model of inheritedList[0], which fails (IndexOutOfBoundsException) on an empty list.
   */
  function WriteProperties(
    c: Collaborators, explicit: bool, project: Project, props: PropertyMap, names: seq<string>, values: PropertyValues)
    : (r: Result<PropertyValues, ManipulationError>)
    requires forall n | n in names :: n in props.entries
    reads project
    ensures r.Failure? ==> r.error == MissingInheritanceRoot && project.inheritedList == []
  {
    if names == [] then Success(values)
    else
      var newVersion := props.entries[names[0]].newVersion;
      var update := c.updateProperties(values, project, explicit, names[0], newVersion);
      if !update.notFound then WriteProperties(c, explicit, project, props, names[1..], update.values)
      else if project.inheritedList == [] then Failure(MissingInheritanceRoot)
      else WriteProperties(c, explicit, project, props, names[1..],
        SetProperty(update.values, project.inheritedList[0], names[0], newVersion))
  }

  /** The write-back loop over the projects of a property table, from the `k`-th on. */
  function WriteTable(c: Collaborators, explicit: bool, table: PropertyTable, k: nat, values: PropertyValues)
    : (r: Result<PropertyValues, ManipulationError>)
    reads set p | p in table.keys
    ensures r.Failure? ==> r.error == MissingInheritanceRoot && exists i | k <= i < |table.keys| :: table.keys[i].inheritedList == []
    decreases |table.keys| - k
  {
    if k >= |table.keys| then Success(values)
    else
      var props := table.entries[table.keys[k]];
      var next :- WriteProperties(c, explicit, table.keys[k], props, props.keys, values);
      WriteTable(c, explicit, table, k + 1, next)
  }

  /** The new versions the property map `props` holds for the names `names`. */
  function NewVersions(props: PropertyMap, names: seq<string>): map<string, string>
    requires forall n | n in names :: n in props.entries
  {
    map n | n in names :: props.entries[n].newVersion
  }

  lemma NewVersionsCons(props: PropertyMap, names: seq<string>)
    requires names != [] && forall n | n in names :: n in props.entries
    ensures NewVersions(props, names) == NewVersions(props, names[1..])[names[0] := props.entries[names[0]].newVersion]
  {
  }

  lemma SetThenMerge(base: map<string, string>, later: map<string, string>, name: string, value: string)
    requires name in later ==> later[name] == value
    ensures base[name := value] + later == base + later[name := value]
  {
  }

  /**
   * When updateProperties finds none of the properties `names` anywhere (answers NOTFOUND and
   * changes nothing, whatever the values), every property of the map ends up on the inheritance root with its new version,
   * and the models of the other projects keep their properties.
   */
  lemma {:induction false} UnfoundPropertiesGoToRoot(
    c: Collaborators, explicit: bool, project: Project, props: PropertyMap, names: seq<string>, values: PropertyValues)
    requires forall n | n in names :: n in props.entries
    requires project.inheritedList != []
    requires forall v: PropertyValues, n | n in names ::
      c.updateProperties(v, project, explicit, n, props.entries[n].newVersion) == PropertyUpdate(true, v)
    ensures var r := WriteProperties(c, explicit, project, props, names, values);
      var root := project.inheritedList[0];
      && r.Success?
      && PropertiesOf(r.value, root) == PropertiesOf(values, root) + NewVersions(props, names)
      && forall q | q in values && q != root :: q in r.value && r.value[q] == values[q]
  {
    if names != [] {
      var root := project.inheritedList[0];
      var newVersion := props.entries[names[0]].newVersion;
      var next := SetProperty(values, root, names[0], newVersion);
      assert c.updateProperties(values, project, explicit, names[0], newVersion) == PropertyUpdate(true, values);
      assert WriteProperties(c, explicit, project, props, names, values)
        == WriteProperties(c, explicit, project, props, names[1..], next);
      UnfoundPropertiesGoToRoot(c, explicit, project, props, names[1..], next);
      NewVersionsCons(props, names);
      SetThenMerge(PropertiesOf(values, root), NewVersions(props, names[1..]), names[0], newVersion);
    }
  }

  // ---------------------------------------------------------------- internalApplyChanges' tail

  /**
   * What internalApplyChanges does once some project was changed: validation when the
   * strict property validation depth is positive, then the standard and the explicit write-back.
   */
  function FinishSpec(c: Collaborators, cfg: Config, table: PropertyTable, explicitTable: PropertyTable, values: PropertyValues)
    : (r: Result<PropertyValues, ManipulationError>)
    reads set i, d | 0 <= i < |table.keys| && d in table.keys[i].elements :: d
    reads set p | p in table.keys, set p | p in explicitTable.keys
  {
    var ok :- if cfg.propertyValidationDepth > 0 then ValidateProjects(c, table, 0) else Success(());
    WriteTables(c, table, explicitTable, values)
  }

  /** The write-back of the standard property table, then of the explicit one. */
  function WriteTables(c: Collaborators, table: PropertyTable, explicitTable: PropertyTable, values: PropertyValues)
    : (r: Result<PropertyValues, ManipulationError>)
    reads set p | p in table.keys, set p | p in explicitTable.keys
  {
    var standard :- WriteTable(c, false, table, 0, values);
    WriteTable(c, true, explicitTable, 0, standard)
  }
}
