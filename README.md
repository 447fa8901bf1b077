# Dependency alignment and repository stripping, modelled in Dafny

This project models two manipulators of the POM Manipulation Extension.

- **DependencyManipulator** aligns the dependency versions of a Maven reactor to a set of
  override maps. It proceeds in these steps:
  - It merges the overrides of the remote BOMs with those of the REST service, under one of
    four precedences. With several BOMs, the first BOM listed wins.
  - For each project, it drops the overrides that name a project of the reactor.
  - It scopes the overrides to the project with the `dependencyExclusion` rules
    (`group:artifact@module`). Rules for a named module or a module group run first, then the
    rules for every module (`@*`). A rule with a value becomes an explicit override; a rule
    with an empty value removes overrides.
  - It rewrites the versions of the managed, direct and profile dependencies. Versions that hold
    a property are recorded in a property table instead of being rewritten.
  - On the inheritance root, it rewrites the parent version. With override-transitive on, it
    adds the global overrides that matched nothing to the head of dependencyManagement.
  - Finally, it validates the property references and writes the recorded properties back.
    A property that cannot be found is set on the inheritance root.
- **RepoAndReportingRemovalManipulator** clears `<repositories>`, `<pluginRepositories>` and
  `<reporting>` from every model and from every profile of every model. It returns the projects
  whose model had any of them.

The project has these modules:

- **`OverrideMerge`** (`override_merge.dfy`): loadRemoteOverrides after the fetches, and
  removeDuplicateArtifacts.
- **`ModuleScoping`** (`module_scoping.dfy`): removeReactorGAs, applyModuleVersionOverrides and
  removeGA.
- **`OverrideApplication`** (`override_application.dfy`): functions that say what
  applyOverrides, applyExplicitOverrides and the parent rewrite do to a snapshot of the
  dependency values.
- **`PropertyUpdates`** (`property_updates.dfy`): validateDependenciesUpdatedProperty and the
  property write-back.
- **`Manipulator`** (`manipulator.dfy`): the class `DependencyManipulator`. It holds the two
  property tables as fields. Its methods change the dependency objects, the parent and
  dependencyManagement in place, and each method is proved against the functions above.
- **`RepoReportingRemoval`** (`repo_reporting_removal.dfy`): the second manipulator, over
  `Model` and `Profile` classes.
- **Support modules**:
  - `Pom`: the Maven entities, configuration, errors and collaborators;
  - `Refs`: project and artifact refs;
  - `LinkedMaps`: LinkedHashMap as a key order plus a map;
  - `JavaStrings`: java.lang.String and commons-lang StringUtils operations;
  - `Wrappers`: Option and Result.

The code the manipulators call but that is not modelled here is not guessed at. This covers
PropertiesUtils (cacheProperty, checkStrictValue, getSuffix, updateProperties,
verifyPropertyMapping, extractPropertyName), WildcardMap's containsKey and get, and
SimpleProjectRef/SimpleArtifactRef.parse. Each is a function-typed field of the
`Pom.Collaborators` value and is left uninterpreted. A thrown `ManipulationException`, or a
runtime exception the code lets escape, is a `Failure` carrying a `ManipulationError`.

Two behaviours of loadRemoteOverrides, as the code has them:

- **Mixed precedences.** Under `RESTBOM` the code starts from the BOM map, removes the
  group:artifacts the REST map has, then puts the REST map over it
  (`DependencyManipulator.java:188-194`). REST entries win. `BOMREST` is the mirror image
  (lines 195-200), and BOM entries win.
- **Duplicate group:artifacts.** removeDuplicateArtifacts drops only the keys of one source
  whose group:artifact occurs among the keys of the other source. Two keys with the same
  group:artifact from the same source both stay in the merged map, for example two BOM entries
  for `junit:junit` with different versions. The model keeps them and makes no claim of
  uniqueness.

## Model

Source paths are relative to the repository root. `DependencyManipulator.java` is
`core/src/main/java/org/commonjava/maven/ext/core/impl/DependencyManipulator.java`.

| member | source | states |
|---|---|---|
| OverrideMerge.LoadRemoteOverrides | core/src/main/java/org/commonjava/maven/ext/core/impl/DependencyManipulator.java:131-205 | The merged map is `MergeOverrides` of the BOM maps, the REST map and the precedence: the BOM maps put last to first, then BOM only, REST only, or the loser pruned of the winner's group:artifacts with the winner put over it |
| OverrideMerge.BomOverrides | core/src/main/java/org/commonjava/maven/ext/core/impl/DependencyManipulator.java:148-161 | The BOM maps put last to first: the result is a valid linked map, the first BOM listed overrides every later one, and every key comes from some BOM |
| OverrideMerge.ClashesDropped | core/src/main/java/org/commonjava/maven/ext/core/impl/DependencyManipulator.java:208-226 | What removeDuplicateArtifacts leaves of a well-formed map is well-formed: a key goes iff some key of the target has its group:artifact, and the keys that stay keep their values |
| OverrideMerge.RemoveDuplicateArtifacts | core/src/main/java/org/commonjava/maven/ext/core/impl/DependencyManipulator.java:208-226 | The result is the merged map without exactly those keys whose group:artifact equals that of some key of the target map. The order and values of the other keys are kept |
| OverrideMerge.ClashesWith | core/src/main/java/org/commonjava/maven/ext/core/impl/DependencyManipulator.java:216-224 | The inner loop answers true iff some key of the target has the given group:artifact |
| OverrideMerge.FirstListedBomWins | core/src/main/java/org/commonjava/maven/ext/core/impl/DependencyManipulator.java:148-161 | A ref is in the merged BOM map iff some BOM defines it, and its version is the one of the first BOM in the list that defines it |
| OverrideMerge.HigherPrecedenceWins | core/src/main/java/org/commonjava/maven/ext/core/impl/DependencyManipulator.java:188-200 | Pruning the lower map and putting the higher one over it keeps every entry of the higher map with its value. An entry of the lower map stays, with its value, exactly when the higher map has no key with the same group:artifact |
| OverrideMerge.RestBomPrefersRest | core/src/main/java/org/commonjava/maven/ext/core/impl/DependencyManipulator.java:188-194 | Under RESTBOM every REST entry is present with the REST version. A BOM entry survives iff no REST key has its group:artifact |
| OverrideMerge.BomRestPrefersBom | core/src/main/java/org/commonjava/maven/ext/core/impl/DependencyManipulator.java:195-200 | Under BOMREST every BOM entry is present with the BOM version. A REST entry survives iff no BOM key has its group:artifact |
| OverrideMerge.DisjointSourcesCommute | core/src/main/java/org/commonjava/maven/ext/core/impl/DependencyManipulator.java:188-200 | When the two sources share no group:artifact, RESTBOM and BOMREST give the same entries: the union of both maps |
| ModuleScoping.RemoveReactorGAs | core/src/main/java/org/commonjava/maven/ext/core/impl/DependencyManipulator.java:754-762 | A key is kept iff it is not the pom-typed, classifier-less ref of a reactor project. The kept entries keep their order and values |
| ModuleScoping.RemoveGA | core/src/main/java/org/commonjava/maven/ext/core/impl/DependencyManipulator.java:923-944 | The iterator loop removes exactly the keys `RemovedBy` the ref, and nothing else changes |
| ModuleScoping.RemoveGAMatchesPattern | core/src/main/java/org/commonjava/maven/ext/core/impl/DependencyManipulator.java:931-942 | A key survives removeGA iff its groupId or its artifactId fails to match the ref's, `*` matching anything. Survivors keep their values and the map stays well formed |
| ModuleScoping.SelectsModule | core/src/main/java/org/commonjava/maven/ext/core/impl/DependencyManipulator.java:836-841 | A module ref whose text is the project's group:artifact selects it. Otherwise a module ref whose artifactId is not `*` does not. A module group `group:*` fails when the project's group:artifact does not parse, and otherwise selects the project iff the groupIds are equal |
| ModuleScoping.Replace | core/src/main/java/org/commonjava/maven/ext/core/impl/DependencyManipulator.java:894-916 | A valued rule fails iff the artifact ref does not parse, or the value names an extra BOM without that artifact; the latter is reported as ExtraBomMissingVersion. Otherwise it puts the value, or the extra BOM's version, as the artifact's explicit override and leaves the overrides in force alone |
| ModuleScoping.RuleStep | core/src/main/java/org/commonjava/maven/ext/core/impl/DependencyManipulator.java:798-917 | Every branch of the rule loop body. A key without `@` changes nothing. The module-specific pass skips `@*` keys. It fails with InvalidExclusionKey on a key that does not split into artifact@module, and with InvalidRef on a module that does not parse. It skips a module that does not select the project, and otherwise forces the artifact (a value) or removes its group:artifact from the overrides (no value). The wildcard pass skips other keys, fails on an artifact that does not parse, skips an artifact already forced, and otherwise forces or removes it |
| ModuleScoping.RulesPass | core/src/main/java/org/commonjava/maven/ext/core/impl/DependencyManipulator.java:798-918 | One pass over the rule keys. Only a rule the pass reads can make it fail: in the module-specific pass a key with `@` not ending in `@*`, in the wildcard pass a key ending in `@*` |
| ModuleScoping.EmptyModuleRuleSuppresses | core/src/main/java/org/commonjava/maven/ext/core/impl/DependencyManipulator.java:825-854 | A valueless rule for a module that selects the project succeeds and keeps the explicit overrides. It removes from the overrides exactly the keys its group:artifact pattern matches, and the others keep their values |
| ModuleScoping.EmptyWildcardRuleSuppresses | core/src/main/java/org/commonjava/maven/ext/core/impl/DependencyManipulator.java:867-891 | A valueless `@*` rule whose artifact is not already forced succeeds and keeps the explicit overrides. It removes from the overrides exactly the keys its group:artifact pattern matches, and the others keep their values |
| ModuleScoping.ApplyRule | core/src/main/java/org/commonjava/maven/ext/core/impl/DependencyManipulator.java:800-916 | The loop body for one key in one pass computes exactly `RuleStep` |
| ModuleScoping.ApplyModuleVersionOverrides | core/src/main/java/org/commonjava/maven/ext/core/impl/DependencyManipulator.java:777-921 | The two passes over the rule keys, each stopping at the first failure, compute exactly `ModuleOverrides`: the module-specific pass, then the wildcard pass |
| ModuleScoping.OnlyModuleRulesCount | core/src/main/java/org/commonjava/maven/ext/core/impl/DependencyManipulator.java:804-808 | Dropping the keys without `@` from a pass does not change its outcome |
| ModuleScoping.MalformedKeyFailsPass | core/src/main/java/org/commonjava/maven/ext/core/impl/DependencyManipulator.java:825-829 | A malformed module-specific key anywhere in the order makes the module-specific pass fail |
| ModuleScoping.MalformedKeyAborts | core/src/main/java/org/commonjava/maven/ext/core/impl/DependencyManipulator.java:825-829 | A malformed module-specific rule makes applyModuleVersionOverrides fail, whatever the order of the rule keys |
| ModuleScoping.RuleStepShape | core/src/main/java/org/commonjava/maven/ext/core/impl/DependencyManipulator.java:843-916 | One rule only removes overrides in force, keeping their values, and only appends explicit overrides. In the wildcard pass, an appended override is for a ref not yet contained |
| ModuleScoping.RulesPassShape | core/src/main/java/org/commonjava/maven/ext/core/impl/DependencyManipulator.java:796-918 | A whole pass only narrows the overrides in force and only appends explicit overrides. In the wildcard pass, each appended override is for a ref not contained when it was put |
| ModuleScoping.ModuleOverridesNarrow | core/src/main/java/org/commonjava/maven/ext/core/impl/DependencyManipulator.java:777-921 | Scoping returns a well-formed sub-map of the original overrides, with the original values |
| ModuleScoping.ModuleSpecificRulesWin | core/src/main/java/org/commonjava/maven/ext/core/impl/DependencyManipulator.java:871-876 | Assuming only that a WildcardMap put makes its ref contained and keeps what was contained: when both passes succeed, the module-specific pass succeeded, the overrides only narrow, the module-specific explicit overrides are a prefix of the final ones, and the wildcard pass never puts a ref one of them set |
| OverrideApplication.OverrideEntry | core/src/main/java/org/commonjava/maven/ext/core/impl/DependencyManipulator.java:633-740 | One dependency against one override. These change nothing: a different group:artifact, an empty override, an unversioned dependency, `${project.version}`, or a `$` version resolving to the project version. Only the dependency's version can change. An override leaves the unmatched map only when the group:artifacts match. A strict violation never changes the dependency. Only a strict violation under fail-on-violation, or a cacheProperty failure, aborts. When an override applies (same group:artifact, a non-empty override, a versioned dependency that is not the project version, not explicitly overridden, the strict check passed, cacheProperty succeeding), a property version is recorded in the table, any other version becomes RewrittenVersion, and the override leaves the unmatched map |
| OverrideApplication.RewrittenVersion | core/src/main/java/org/commonjava/maven/ext/core/impl/DependencyManipulator.java:711-735 | A version without `${` is replaced by the override outright. Outside the strict ignore-suffix case, a version with a property reference is kept whole at the head of the new version |
| OverrideApplication.StrictViolationAborts | core/src/main/java/org/commonjava/maven/ext/core/impl/DependencyManipulator.java:670-698 | With strict on and fail-on-violation on, a failed strict check aborts. For a property version this happens at once; for a literal version, after cacheProperty declines it |
| OverrideApplication.ApplyOverridesGuarantees | core/src/main/java/org/commonjava/maven/ext/core/impl/DependencyManipulator.java:608-745 | The returned unmatched map is a well-formed sub-map of the overrides. It keeps every override whose group:artifact no dependency key has. Only versions of the map's own dependencies change. A `${project.version}` dependency never changes, nor does a dependency whose keys all have an explicit override |
| OverrideApplication.PropertyVersionKeepsReference | core/src/main/java/org/commonjava/maven/ext/core/impl/DependencyManipulator.java:711-724 | A version holding `${`, outside the suffix rule, keeps its text and gains exactly what the override adds to the resolved version |
| OverrideApplication.SuffixSpliceKeepsHead | core/src/main/java/org/commonjava/maven/ext/core/impl/DependencyManipulator.java:716-720 | Under the suffix rule, the version keeps its text through the first occurrence of the suffix and takes from the override what follows the suffix |
| OverrideApplication.ExplicitToken | core/src/main/java/org/commonjava/maven/ext/core/impl/DependencyManipulator.java:564-591 | A `+` token fails iff it names no artifact. Otherwise it appends the exclusion it names and keeps the version and the table. Any other token keeps the exclusions, and forces the version with no strict check when cacheProperty declines to cache it |
| OverrideApplication.ParseExclusion | core/src/main/java/org/commonjava/maven/ext/core/impl/DependencyManipulator.java:569-572 | A `+` token without `:` has no artifactId at index 1 of its split and gives no exclusion. A parsed exclusion has no `:` in its groupId or artifactId |
| OverrideApplication.ExplicitOnValue | core/src/main/java/org/commonjava/maven/ext/core/impl/DependencyManipulator.java:543-594 | A dependency is left untouched when it has no explicit override, when the override is empty, or when its own version is empty |
| OverrideApplication.ExplicitDependencies | core/src/main/java/org/commonjava/maven/ext/core/impl/DependencyManipulator.java:541-595 | Only the dependencies of the map change, and a present version stays present |
| OverrideApplication.ExclusionTokenRoundTrip | core/src/main/java/org/commonjava/maven/ext/core/impl/DependencyManipulator.java:566-574 | The token `+g:a` adds exactly the exclusion of group g and artifact a |
| OverrideApplication.ExclusionWithoutArtifactFails | core/src/main/java/org/commonjava/maven/ext/core/impl/DependencyManipulator.java:571-572 | A `+g` token without an artifact has nothing at index 1 after the split, and so aborts |
| OverrideApplication.LastForcedVersionWins | core/src/main/java/org/commonjava/maven/ext/core/impl/DependencyManipulator.java:564-591 | When no token is an exclusion and none is cached as a property, the last token listed is the version kept |
| OverrideApplication.ParentVersion | core/src/main/java/org/commonjava/maven/ext/core/impl/DependencyManipulator.java:368-401 | The parent only takes a version given by an override for its group:artifact that passes the strict check. The loop fails only on an unparsable parent ref, or on a strict violation with fail-on-violation |
| OverrideApplication.ParentTakesFirstMatch | core/src/main/java/org/commonjava/maven/ext/core/impl/DependencyManipulator.java:368-401 | Without strict alignment, the parent takes the version of the first override for its group:artifact, and keeps its version when there is none |
| OverrideApplication.ParentStrictViolationAborts | core/src/main/java/org/commonjava/maven/ext/core/impl/DependencyManipulator.java:375-384 | When the first override for the parent fails the strict check under fail-on-violation, the run aborts with ParentStrictViolation |
| OverrideApplication.InjectedAreUnmatched | core/src/main/java/org/commonjava/maven/ext/core/impl/DependencyManipulator.java:435-454 | Every injected dependency is a key of the global overrides that is left unmatched, with its unmatched version. Every unmatched key of the global overrides is injected |
| PropertyUpdates.ValidationChecksEveryKey | core/src/main/java/org/commonjava/maven/ext/core/impl/DependencyManipulator.java:946-958 | Validating a resolved map succeeds iff every dependency has a version, and verifyPropertyMapping accepts each version that starts with `${` |
| PropertyUpdates.ValidationReportsFirstFailure | core/src/main/java/org/commonjava/maven/ext/core/impl/DependencyManipulator.java:949-957 | A failed validation reports the error of the first dependency, in key order, that does not pass |
| PropertyUpdates.LiteralVersionsPass | core/src/main/java/org/commonjava/maven/ext/core/impl/DependencyManipulator.java:951-956 | A map whose versions are all literal always validates |
| PropertyUpdates.ValidateMapsEveryMap | core/src/main/java/org/commonjava/maven/ext/core/impl/DependencyManipulator.java:261-270 | A project validates iff each of its managed, direct, profile and profile-managed maps does |
| PropertyUpdates.WriteProperties | core/src/main/java/org/commonjava/maven/ext/core/impl/DependencyManipulator.java:278-298 | The write-back of one project can fail only with MissingInheritanceRoot, and only for a project whose inherited list is empty |
| PropertyUpdates.WriteTable | core/src/main/java/org/commonjava/maven/ext/core/impl/DependencyManipulator.java:275-299 | The write-back of a table can fail only with MissingInheritanceRoot, and only when some project of the table has an empty inherited list |
| PropertyUpdates.UnfoundPropertiesGoToRoot | core/src/main/java/org/commonjava/maven/ext/core/impl/DependencyManipulator.java:284-297 | When updateProperties finds none of the listed properties (whatever the values), every property of the map is set, with its new version, on the inheritance root. Every other model keeps its properties |
| Manipulator.MapSteps | core/src/main/java/org/commonjava/maven/ext/core/impl/DependencyManipulator.java:500-501 | applyOverrides then applyExplicitOverrides on one map keep the set of tracked dependency objects. They return as unmatched a well-formed sub-map of the module overrides, with the same values |
| Manipulator.ManagementRef | core/src/main/java/org/commonjava/maven/ext/core/impl/DependencyManipulator.java:405-410 | The parent, made a dependency, is keyed by its management key `group:artifact:jar`. The key fails with InvalidRef exactly when it does not parse, and is the parsed ref otherwise |
| Manipulator.DependencyManipulator.ApplyOverrideEntry | core/src/main/java/org/commonjava/maven/ext/core/impl/DependencyManipulator.java:633-740 | The inner loop body leaves the dependency values, the property table and the unmatched map that `OverrideEntry` gives, or fails with its error |
| Manipulator.DependencyManipulator.ApplyOverridesTo | core/src/main/java/org/commonjava/maven/ext/core/impl/DependencyManipulator.java:633-741 | The inner loop over all overrides for one dependency realizes `OverrideEntries` |
| Manipulator.DependencyManipulator.ApplyOverridesAt | core/src/main/java/org/commonjava/maven/ext/core/impl/DependencyManipulator.java:624-742 | One turn of the outer loop performs the first step of `OverrideDependencies` on the remaining keys |
| Manipulator.DependencyManipulator.ApplyOverrides | core/src/main/java/org/commonjava/maven/ext/core/impl/DependencyManipulator.java:608-745 | applyOverrides changes the dependency objects and the property table, and returns the unmatched overrides, all as `ApplyOverridesSpec` says. The properties of that function are ApplyOverridesGuarantees |
| Manipulator.DependencyManipulator.ApplyExplicitTarget | core/src/main/java/org/commonjava/maven/ext/core/impl/DependencyManipulator.java:564-591 | One token on the dependency object realizes `ExplicitToken` |
| Manipulator.DependencyManipulator.ApplyExplicitTargets | core/src/main/java/org/commonjava/maven/ext/core/impl/DependencyManipulator.java:564-592 | The token loop realizes `ExplicitTokens` |
| Manipulator.DependencyManipulator.ApplyExplicitToDependency | core/src/main/java/org/commonjava/maven/ext/core/impl/DependencyManipulator.java:543-594 | The loop body for one key realizes `ExplicitOnValue`. It changes only that dependency |
| Manipulator.DependencyManipulator.ApplyExplicitAt | core/src/main/java/org/commonjava/maven/ext/core/impl/DependencyManipulator.java:541-595 | One turn of the loop performs the first step of `ExplicitDependencies` on the remaining keys |
| Manipulator.DependencyManipulator.ApplyExplicitOverrides | core/src/main/java/org/commonjava/maven/ext/core/impl/DependencyManipulator.java:535-596 | applyExplicitOverrides changes the dependency objects and the explicit property table as `ApplyExplicitOverridesSpec` says |
| Manipulator.DependencyManipulator.ApplyToMap | core/src/main/java/org/commonjava/maven/ext/core/impl/DependencyManipulator.java:500-501 | applyOverrides then applyExplicitOverrides on one resolved map realize `MapSteps` |
| Manipulator.DependencyManipulator.ApplyToProfiles | core/src/main/java/org/commonjava/maven/ext/core/impl/DependencyManipulator.java:506-515 | The loop over the profile maps realizes `ProfileSteps` |
| Manipulator.DependencyManipulator.AlignParent | core/src/main/java/org/commonjava/maven/ext/core/impl/DependencyManipulator.java:366-413 | The parent steps realize `ParentSteps`. First the override loop gives `ParentVersion`. Then the explicit overrides on the simulated dependency, whose version the parent takes |
| Manipulator.DependencyManipulator.NewDependency | core/src/main/java/org/commonjava/maven/ext/core/impl/DependencyManipulator.java:443-450 | The new dependency has the ref's coordinates, the given version and no exclusions |
| Manipulator.DependencyManipulator.NewDependencies | core/src/main/java/org/commonjava/maven/ext/core/impl/DependencyManipulator.java:432-454 | The extra dependencies are new objects built, in order, from `ExtraDependencies`: the global overrides left unmatched, with their module versions |
| Manipulator.DependencyManipulator.InjectUnmatched | core/src/main/java/org/commonjava/maven/ext/core/impl/DependencyManipulator.java:456-467 | dependencyManagement becomes the new dependencies followed by its old content. It is created when absent, and untouched when nothing is injected |
| Manipulator.DependencyManipulator.ApplyRootManaged | core/src/main/java/org/commonjava/maven/ext/core/impl/DependencyManipulator.java:415-477 | The managed-dependency steps of the inheritance root realize `RootManagedSteps`, the injection included |
| Manipulator.DependencyManipulator.ApplyRoot | core/src/main/java/org/commonjava/maven/ext/core/impl/DependencyManipulator.java:363-478 | The inheritance-root branch of apply realizes `RootSteps`: parent, managed dependencies, injection |
| Manipulator.DependencyManipulator.ApplyManaged | core/src/main/java/org/commonjava/maven/ext/core/impl/DependencyManipulator.java:363-494 | The branch on isInheritanceRoot realizes `ManagedSteps` |
| Manipulator.DependencyManipulator.ApplyToDependencies | core/src/main/java/org/commonjava/maven/ext/core/impl/DependencyManipulator.java:496-516 | The direct and profile steps realize `DependencySteps` |
| Manipulator.DependencyManipulator.ApplyBeside | core/src/main/java/org/commonjava/maven/ext/core/impl/DependencyManipulator.java:496-516 | The same as ApplyToDependencies, and the dependencies just injected keep what they were built with |
| Manipulator.DependencyManipulator.ApplyScoped | core/src/main/java/org/commonjava/maven/ext/core/impl/DependencyManipulator.java:363-520 | apply after scoping realizes `ScopedSteps` |
| Manipulator.DependencyManipulator.Apply | core/src/main/java/org/commonjava/maven/ext/core/impl/DependencyManipulator.java:334-521 | apply realizes `ApplySpec`, covering the dependency values, both property tables, the parent version and the injected dependencies. The steps are reactor removal, scoping, the managed dependencies, and the direct and profile dependencies |
| Manipulator.DependencyManipulator.ValidateDependenciesUpdatedProperty | core/src/main/java/org/commonjava/maven/ext/core/impl/DependencyManipulator.java:946-958 | The loop computes `ValidateKeys` over the keys in order. ValidationChecksEveryKey and ValidationReportsFirstFailure characterize it |
| Manipulator.DependencyManipulator.ValidateProject | core/src/main/java/org/commonjava/maven/ext/core/impl/DependencyManipulator.java:261-270 | The validation of one project computes `ValidateMaps` over its resolved maps |
| Manipulator.DependencyManipulator.ValidateAll | core/src/main/java/org/commonjava/maven/ext/core/impl/DependencyManipulator.java:256-272 | The validation loop computes `ValidateProjects` over the projects of the standard table |
| Manipulator.DependencyManipulator.WriteBackProject | core/src/main/java/org/commonjava/maven/ext/core/impl/DependencyManipulator.java:278-298 | The write-back of one project leaves the properties `WriteProperties` gives, or fails with its error |
| Manipulator.DependencyManipulator.WriteBack | core/src/main/java/org/commonjava/maven/ext/core/impl/DependencyManipulator.java:275-299 | The write-back of one table realizes `WriteTable` |
| Manipulator.DependencyManipulator.WriteBackTables | core/src/main/java/org/commonjava/maven/ext/core/impl/DependencyManipulator.java:274-326 | The standard table is written back, then the explicit one (`WriteTables`) |
| Manipulator.DependencyManipulator.FinishChanges | core/src/main/java/org/commonjava/maven/ext/core/impl/DependencyManipulator.java:256-326 | Validation when the depth is positive, then both write-backs (`FinishSpec`) |
| Manipulator.DependencyManipulator.ApplyAt | core/src/main/java/org/commonjava/maven/ext/core/impl/DependencyManipulator.java:241-251 | One turn of the project loop performs the first step of `ApplyAll`. On success the project's parent has its edit's version, and the edit's injected dependencies are new objects at the head of its dependencyManagement. The parents of the other projects keep their versions, and the dependencyManagement of each earlier project listed once is unchanged |
| Manipulator.DependencyManipulator.ApplyEach | core/src/main/java/org/commonjava/maven/ext/core/impl/DependencyManipulator.java:239-251 | The test for anything to apply (line 245) does not change across the loop and is made once. With no overrides and no exclusion rules, the result is empty and nothing changes: no dependency, no property table, no parent version, no dependencyManagement. Otherwise apply runs on every project in order as `ApplyAll` says, and the result is all the projects, or the first failure. On success every parent has the version of its project's edit, and each project listed once has its edit's injected dependencies at the head of its former dependencyManagement |
| Manipulator.DependencyManipulator.ApplyProjects | core/src/main/java/org/commonjava/maven/ext/core/impl/DependencyManipulator.java:241-251 | The loop itself, with the invariant `Looping`: the outcome is `ApplyAll`'s, and on success the edits are `ApplyAll`'s and the injected entries of every project listed once survive the later turns |
| Manipulator.DependencyManipulator.ApplyNext | core/src/main/java/org/commonjava/maven/ext/core/impl/DependencyManipulator.java:244-249 | One turn keeps `Looping` for the next project, or returns the failure `ApplyAll` reports |
| Manipulator.DependencyManipulator.InternalApplyChanges | core/src/main/java/org/commonjava/maven/ext/core/impl/DependencyManipulator.java:234-329 | With nothing to apply or no projects, the result is empty and nothing changes: no dependency, no property table, no parent version, no dependencyManagement, no stored property value. Otherwise the outcome is that of `ApplyAll`, then (lines 253-328, only when some project was changed) of `FinishSpec`, and the result is the set of all the projects |
| Manipulator.DependencyManipulator.ApplyChanges | core/src/main/java/org/commonjava/maven/ext/core/impl/DependencyManipulator.java:111-122 | When disabled, or with nothing to apply, or with no projects, the result is empty and nothing changes, in the same sense as for InternalApplyChanges. Otherwise internalApplyChanges runs on the overrides `MergeOverrides` gives |
| RepoReportingRemoval.ClearList | core/src/main/java/org/commonjava/maven/ext/manip/impl/RepoAndReportingRemovalManipulator.java:91-103 | After the strip, a model list is null or empty. It changes iff it was non-null and non-empty |
| RepoReportingRemoval.Strip | core/src/main/java/org/commonjava/maven/ext/manip/impl/RepoAndReportingRemovalManipulator.java:91-137 | After the strip: null-or-empty top-level lists, null reporting, and every profile with empty lists and no reporting. Nothing is left to strip |
| RepoReportingRemoval.StripChangesIffContent | core/src/main/java/org/commonjava/maven/ext/manip/impl/RepoAndReportingRemovalManipulator.java:83-141 | The strip changes a model iff one of the six sections, top-level or in a profile, was present |
| RepoReportingRemoval.StripIdempotent | core/src/main/java/org/commonjava/maven/ext/manip/impl/RepoAndReportingRemovalManipulator.java:91-137 | Stripping twice is stripping once, and a stripped model has nothing to strip |
| RepoReportingRemoval.StripProfile | core/src/main/java/org/commonjava/maven/ext/manip/impl/RepoAndReportingRemovalManipulator.java:118-134 | A profile ends with empty lists and no reporting. The answer is whether it had any of them |
| RepoReportingRemoval.StripProfiles | core/src/main/java/org/commonjava/maven/ext/manip/impl/RepoAndReportingRemovalManipulator.java:114-137 | Every profile is stripped. The answer is whether any profile had content |
| RepoReportingRemoval.StripModel | core/src/main/java/org/commonjava/maven/ext/manip/impl/RepoAndReportingRemovalManipulator.java:89-137 | The model's sections become `Strip` of what they were. The answer is `HasContent` of the old sections |
| RepoReportingRemoval.StripProject | core/src/main/java/org/commonjava/maven/ext/manip/impl/RepoAndReportingRemovalManipulator.java:85-139 | One project is stripped, and the models of all other projects keep their sections |
| RepoReportingRemoval.ApplyChanges | core/src/main/java/org/commonjava/maven/ext/manip/impl/RepoAndReportingRemovalManipulator.java:73-142 | When disabled, the result is empty and no model changes. Otherwise every model becomes `Strip` of what it was, and the result is exactly the projects whose model had content |

## Left out

- **I/O.** The remote fetches are not modelled
  (`effectiveModelBuilder.getRemoteDependencyVersionOverrides*`). The BOM maps and the REST map
  are inputs. The extra BOMs that loadRemoteOverrides loads into the dependency state are taken
  as already present in `Config.extraBomOverrides`. Logging and warnings are also left out.
- **The REST map is not mutated.** Under `BOMREST` (and `REST`), loadRemoteOverrides works on
  the dependency state's own REST map, so removeDuplicateArtifacts and putAll change the
  session's map in place. The model computes the merged map as a value. It does not model that
  change to the state.
- **Collaborators are uninterpreted.** This covers PropertiesUtils, WildcardMap's containsKey
  and get, the atlas ref parsers, and ref equality beyond the coordinates.
- **Iteration orders are fixed inputs.** The HashSet order of the rule keys is the input
  `Config.exclusionOrder`, and the properties of the two passes hold for every such order. The
  profile keys of the resolved profile maps are a fixed sequence of maps. The order of the
  returned HashSets does not matter, since they are sets.
- **Resolved maps are constant.** The resolved dependency maps are computed before the
  manipulator runs and are fixed fields of `Pom.Project`. `Project.getVersion` and the
  resolved version string of a key are likewise constant.
- **Session projects are an input.** The projects of the session (`session.getProjects()`)
  are the parameter `sessionProjects`.
- **Model properties are a map.** They are a map from project to name/value map, held by one
  `ModelProperties` object; updateProperties is a collaborator over it.
- **Multi-version overrides are unspecified.** When several overrides share a group:artifact in
  non-strict mode, the outcome is undefined in the source, and no winner is claimed.
- ModuleScoping.ModuleSpecificRulesWin: assumes only a one-way law of WildcardMap: after a put,
  the ref is contained and what was contained stays contained. A put of a wildcard ref may make
  further refs contained, and nothing more is assumed about containsKey.
- Manipulator.DependencyManipulator.ApplyEach: requires that no two projects of the list share
  one parent object. The contract does not cover a parent shared across models.
- Manipulator.DependencyManipulator.ApplyEach: states the injected dependencies by their values
  at the head of each dependencyManagement. That they are objects the run creates is stated
  per project by ApplyAt, not across the loop. A project listed twice is not covered by that
  clause.
- Manipulator.DependencyManipulator.InternalApplyChanges: states the outcome and the final
  dependency values and tables. When something is applied, it does not restate, project by
  project, the parent versions and injected dependencies that ApplyEach's contract gives.
- Manipulator.DependencyManipulator.ApplyChanges: has the same limit as InternalApplyChanges,
  and the same requirement on parent objects as ApplyEach.
- **No contract after a failure.** For Manipulator.DependencyManipulator.Apply and the other
  DependencyManipulator methods, nothing is said about the state left behind when a failure is
  returned. The source leaves the changes made before the exception in place.
- RepoReportingRemoval.ApplyChanges: requires that no two projects share a model and that no
  profile object occurs twice. Aliased models are not covered.
- The `RepoReportingRemoval.Model` class holds only the sections the manipulator clears and its profiles,
  so "nothing else in a model changes" holds by construction. It is not a proved property of a
  full Maven model.
