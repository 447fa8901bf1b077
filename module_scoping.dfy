/**
 * How the global override map is narrowed to one module: overrides naming reactor projects
 * are dropped (removeReactorGAs), then the dependencyExclusion rules keyed
 * `group:artifact@module` are applied in two passes (applyModuleVersionOverrides): first the
 * rules for a named module or a module group (`group:*`), then the rules for every module
 * (`@*`). A rule with a value becomes an explicit override; a rule with an empty value
 * removes the matching artifacts from the overrides (removeGA).
 */
module ModuleScoping {
  import opened Wrappers
  import opened Refs
  import opened LinkedMaps
  import opened JavaStrings
  import opened Pom
  import opened OverrideMerge

  // ---------------------------------------------------------------- removeReactorGAs

  /** The ref removeReactorGAs builds for a reactor project: its coordinates with type pom and no classifier. */
  function ReactorRef(p: Project): ArtifactRef {
    ArtifactRef(p.groupId, p.artifactId, p.version, "pom", None)
  }

  function ReactorRefs(projects: seq<Project>): set<ArtifactRef> {
    set p | p in projects :: ReactorRef(p)
  }

  /**
   * removeReactorGAs: a copy of the overrides without the pom refs of the reactor projects.
   * Exactly the keys that are a reactor project's pom ref disappear; order and values of
   * the others are kept.
   */
  method RemoveReactorGAs(versionOverrides: Overrides, projects: seq<Project>) returns (reduced: Overrides)
    ensures reduced == versionOverrides.RemoveKeys(ReactorRefs(projects))
    ensures forall k :: k in reduced.entries <==>
      k in versionOverrides.entries
      && !(k.artifactType == "pom" && k.classifier == None
           && exists p | p in projects :: p.groupId == k.groupId && p.artifactId == k.artifactId && p.version == k.version)
  {
    reduced := versionOverrides;
    WithoutAbsent(versionOverrides.keys, {});
    assert ReactorRefs(projects[..0]) == {};
    var i := 0;
    while i < |projects|
      invariant 0 <= i <= |projects|
      invariant reduced == versionOverrides.RemoveKeys(ReactorRefs(projects[..i]))
    {
      assert projects[..i + 1] == projects[..i] + [projects[i]];
      assert ReactorRefs(projects[..i + 1]) == ReactorRefs(projects[..i]) + {ReactorRef(projects[i])};
      RemoveKeysTwice(versionOverrides, ReactorRefs(projects[..i]), {ReactorRef(projects[i])});
      reduced := reduced.Remove(ReactorRef(projects[i]));
      i := i + 1;
    }
    assert projects[..i] == projects;
  }

  // ---------------------------------------------------------------- removeGA

  /** The condition under which removeGA drops the key `a` for the ref `ref`. */
  predicate RemovedBy(a: ArtifactRef, ref: ProjectRef) {
    || a.AsProjectRef() == ref
    || (ref.artifactId == Wildcard && a.groupId == ref.groupId)
    || (ref.groupId == Wildcard && a.artifactId == ref.artifactId)
    || (ref.artifactId == Wildcard && ref.groupId == Wildcard)
  }

  function RemovedKeys(keys: seq<ArtifactRef>, ref: ProjectRef): set<ArtifactRef> {
    set k | k in keys && RemovedBy(k, ref)
  }

  /** The overrides after removeGA(overrides, ref). */
  function WithoutGA(overrides: Overrides, ref: ProjectRef): Overrides {
    overrides.RemoveKeys(RemovedKeys(overrides.keys, ref))
  }

  /** removeGA: removes, through the key iterator, every key the ref matches. */
  method RemoveGA(overrides: Overrides, ref: ProjectRef) returns (r: Overrides)
    ensures r == WithoutGA(overrides, ref)
  {
    r := overrides;
    WithoutAbsent(overrides.keys, {});
    assert RemovedKeys(overrides.keys[..0], ref) == {};
    var i := 0;
    while i < |overrides.keys|
      invariant 0 <= i <= |overrides.keys|
      invariant r == overrides.RemoveKeys(RemovedKeys(overrides.keys[..i], ref))
    {
      var a := overrides.keys[i];
      RemoveGAStep(overrides, i, ref);
      if || a.AsProjectRef() == ref
         || (ref.artifactId == "*" && a.groupId == ref.groupId)
         || (ref.groupId == "*" && a.artifactId == ref.artifactId)
      {
        r := r.Remove(a);
      } else if ref.artifactId == "*" && ref.groupId == "*" {
        r := r.Remove(a);
      }
      i := i + 1;
    }
    assert overrides.keys[..i] == overrides.keys;
  }

  /** One turn of removeGA's loop: the key at position `i` goes when the ref matches it. */
  lemma RemoveGAStep(overrides: Overrides, i: nat, ref: ProjectRef)
    requires i < |overrides.keys|
    ensures var before := overrides.RemoveKeys(RemovedKeys(overrides.keys[..i], ref));
      overrides.RemoveKeys(RemovedKeys(overrides.keys[..i + 1], ref))
        == if RemovedBy(overrides.keys[i], ref) then before.Remove(overrides.keys[i]) else before
  {
    var keys := overrides.keys;
    assert keys[..i + 1] == keys[..i] + [keys[i]];
    if RemovedBy(keys[i], ref) {
      assert RemovedKeys(keys[..i + 1], ref) == RemovedKeys(keys[..i], ref) + {keys[i]};
      RemoveKeysTwice(overrides, RemovedKeys(keys[..i], ref), {keys[i]});
    } else {
      assert RemovedKeys(keys[..i + 1], ref) == RemovedKeys(keys[..i], ref);
    }
  }

  /** A coordinate of a rule matches a coordinate of an artifact when it is the wildcard or equal to it. */
  predicate FieldMatches(pattern: string, value: string) {
    pattern == Wildcard || pattern == value
  }

  /**
   * removeGA reads the ref as a pattern, coordinate by coordinate: a key survives exactly when
   * its groupId or its artifactId fails to match the ref's.
   */
  lemma {:induction false} RemoveGAMatchesPattern(overrides: Overrides, ref: ProjectRef)
    requires overrides.Valid()
    ensures var r := WithoutGA(overrides, ref);
      && r.Valid()
      && (forall k :: k in r.entries <==>
            k in overrides.entries && !(FieldMatches(ref.groupId, k.groupId) && FieldMatches(ref.artifactId, k.artifactId)))
      && (forall k | k in r.entries :: r.entries[k] == overrides.entries[k])
  {
    forall k | k in overrides.entries
      ensures k in RemovedKeys(overrides.keys, ref) <==> FieldMatches(ref.groupId, k.groupId) && FieldMatches(ref.artifactId, k.artifactId)
    {
      assert k in overrides.keys;
    }
  }

  // ---------------------------------------------------------------- applyModuleVersionOverrides

  /** What the two passes build: the overrides still in force and the explicit (forced) overrides. */
  datatype ScopeState = ScopeState(remaining: Overrides, explicit: WildcardMap)

  /**
   * Whether a module-specific rule's module ref selects the current project: its text is the
   * project's group:artifact, or it names the project's group with a wildcard artifactId.
   */
  function SelectsModule(c: Collaborators, moduleGA: ProjectRef, projectGA: string): (r: Result<bool, ManipulationError>)
    ensures GA(moduleGA.groupId, moduleGA.artifactId) == projectGA ==> r == Success(true)
    ensures moduleGA.artifactId != Wildcard && GA(moduleGA.groupId, moduleGA.artifactId) != projectGA ==> r == Success(false)
    // a module group (`group:*`) selects every project of that group; the project's own ref must parse
    ensures moduleGA.artifactId == Wildcard && GA(moduleGA.groupId, moduleGA.artifactId) != projectGA ==>
      && (r.Failure? <==> c.parseProjectRef(projectGA).None?)
      && (r.Success? ==> r.value == (c.parseProjectRef(projectGA).value.groupId == moduleGA.groupId))
  {
    if GA(moduleGA.groupId, moduleGA.artifactId) == projectGA then Success(true)
    else if moduleGA.artifactId != Wildcard then Success(false)
    else
      var project :- c.ParseRef(projectGA);
      Success(project.groupId == moduleGA.groupId)
  }

  /**
   * A rule with a non-empty value: the value, or the version the extra BOM of that name gives
   * the artifact, becomes the artifact's explicit override.
   */
  function Replace(c: Collaborators, cfg: Config, key: string, artifactGA: string, value: string, st: ScopeState)
    : (r: Result<ScopeState, ManipulationError>)
    ensures r.Failure? <==>
      c.parseProjectRef(artifactGA).None?
      || (value in cfg.extraBomOverrides && c.parseProjectRef(artifactGA).value !in cfg.extraBomOverrides[value])
    ensures r.Success? ==> r.value.remaining == st.remaining
    ensures r.Failure? && c.parseProjectRef(artifactGA).Some? ==> r.error == ExtraBomMissingVersion(value, artifactGA, key)
    ensures r.Success? && value in cfg.extraBomOverrides ==>
      var ref := c.parseProjectRef(artifactGA).value;
      r.value.explicit == st.explicit.Put(ref, cfg.extraBomOverrides[value][ref])
    ensures r.Success? && value !in cfg.extraBomOverrides ==> r.value.explicit == st.explicit.Put(c.parseProjectRef(artifactGA).value, value)
  {
    var projectRef :- c.ParseRef(artifactGA);
    if value in cfg.extraBomOverrides then
      var extraBom := cfg.extraBomOverrides[value];
      if projectRef !in extraBom then Failure(ExtraBomMissingVersion(value, artifactGA, key))
      else Success(st.(explicit := st.explicit.Put(projectRef, extraBom[projectRef])))
    else Success(st.(explicit := st.explicit.Put(projectRef, value)))
  }

  /** A key that the module-specific pass rejects: it names a module but does not split into artifact@module. */
  predicate Malformed(key: string) {
    '@' in key && !EndsWith(key, "@*") && |Split(key, '@')| != 2
  }

  /** One rule of one pass. */
  function RuleStep(c: Collaborators, cfg: Config, projectGA: string, wildcardMode: bool, key: string, st: ScopeState)
    : (r: Result<ScopeState, ManipulationError>)
    requires key in cfg.dependencyExclusions
    ensures '@' !in key ==> r == Success(st)
    // the module-specific pass skips `@*` rules and rejects a key that does not split into artifact@module
    ensures !wildcardMode && EndsWith(key, "@*") ==> r == Success(st)
    ensures !wildcardMode && Malformed(key) ==> r == Failure(InvalidExclusionKey(key))
    // a rule for another module is skipped; one for this module forces the artifact (a value) or drops its overrides (no value)
    ensures var parts := Split(key, '@');
      !wildcardMode && !EndsWith(key, "@*") && |parts| == 2 ==>
        var moduleGA := c.parseProjectRef(parts[1]);
        var selected := if moduleGA.Some? then SelectsModule(c, moduleGA.value, projectGA) else Success(false);
        && (moduleGA.None? ==> r == Failure(InvalidRef(parts[1])))
        && (moduleGA.Some? && selected.Failure? ==> r == Failure(selected.error))
        && (moduleGA.Some? && selected == Success(false) ==> r == Success(st))
        && (moduleGA.Some? && selected == Success(true) && cfg.dependencyExclusions[key] != "" ==>
              r == Replace(c, cfg, key, parts[0], cfg.dependencyExclusions[key], st))
        && (moduleGA.Some? && selected == Success(true) && cfg.dependencyExclusions[key] == "" ==>
              r == (if c.parseProjectRef(parts[0]).None? then Failure(InvalidRef(parts[0]))
                    else Success(st.(remaining := WithoutGA(st.remaining, c.parseProjectRef(parts[0]).value)))))
    // the wildcard pass only reads `@*` rules, and leaves alone an artifact a module-specific rule already forced
    ensures wildcardMode && !EndsWith(key, "@*") ==> r == Success(st)
    ensures wildcardMode && EndsWith(key, "@*") ==>
      var artifactGA := key[..|key| - 2];
      var ref := c.parseProjectRef(artifactGA);
      && (ref.None? ==> r == Failure(InvalidRef(artifactGA)))
      && (ref.Some? && c.wildcardContains(st.explicit, ref.value) ==> r == Success(st))
      && (ref.Some? && !c.wildcardContains(st.explicit, ref.value) && cfg.dependencyExclusions[key] != "" ==>
            r == Replace(c, cfg, key, artifactGA, cfg.dependencyExclusions[key], st))
      && (ref.Some? && !c.wildcardContains(st.explicit, ref.value) && cfg.dependencyExclusions[key] == "" ==>
            r == Success(st.(remaining := WithoutGA(st.remaining, ref.value))))
  {
    var value := cfg.dependencyExclusions[key];
    assert EndsWith(key, "@*") ==> key[|key| - 2] == '@' && key[|key| - 2] in key;
    if '@' !in key then Success(st)
    else
      var isModuleWildcard := EndsWith(key, "@*");
      if !wildcardMode then
        if isModuleWildcard then Success(st)
        else
          var artifactAndModule := Split(key, '@');
          if |artifactAndModule| != 2 then Failure(InvalidExclusionKey(key))
          else
            var artifactGA := artifactAndModule[0];
            var moduleGA :- c.ParseRef(artifactAndModule[1]);
            var selected :- SelectsModule(c, moduleGA, projectGA);
            if !selected then Success(st)
            else if value != "" then Replace(c, cfg, key, artifactGA, value, st)
            else
              var ref :- c.ParseRef(artifactGA);
              Success(st.(remaining := WithoutGA(st.remaining, ref)))
      else
        if !isModuleWildcard then Success(st)
        else
          var artifactGA := key[..|key| - 2];
          var ref :- c.ParseRef(artifactGA);
          if c.wildcardContains(st.explicit, ref) then Success(st)
          else if value != "" then Replace(c, cfg, key, artifactGA, value, st)
          else Success(st.(remaining := WithoutGA(st.remaining, ref)))
  }

  /** One pass over the rule keys in `order`, stopping at the first failure. */
  function RulesPass(c: Collaborators, cfg: Config, projectGA: string, wildcardMode: bool, order: seq<string>, st: ScopeState)
    : (r: Result<ScopeState, ManipulationError>)
    requires forall k | k in order :: k in cfg.dependencyExclusions
    // only a rule the pass reads can abort it: a module-specific one, or an `@*` one in the wildcard pass
    ensures !wildcardMode && r.Failure? ==> exists i | 0 <= i < |order| :: '@' in order[i] && !EndsWith(order[i], "@*")
    ensures wildcardMode && r.Failure? ==> exists i | 0 <= i < |order| :: EndsWith(order[i], "@*")
  {
    if order == [] then Success(st)
    else
      var next :- RuleStep(c, cfg, projectGA, wildcardMode, order[0], st);
      RulesPass(c, cfg, projectGA, wildcardMode, order[1..], next)
  }

  /** The result of applyModuleVersionOverrides: the module-specific pass, then the wildcard pass. */
  function ModuleOverrides(c: Collaborators, cfg: Config, projectGA: string, original: Overrides)
    : Result<ScopeState, ManipulationError>
    requires cfg.Valid()
  {
    var afterModules :- RulesPass(c, cfg, projectGA, false, cfg.exclusionOrder, ScopeState(original, WildcardMap([])));
    RulesPass(c, cfg, projectGA, true, cfg.exclusionOrder, afterModules)
  }

  /** The loop body of applyModuleVersionOverrides for one key in one pass. */
  method ApplyRule(c: Collaborators, cfg: Config, projectGA: string, wildcardMode: bool, currentKey: string, st: ScopeState)
    returns (r: Result<ScopeState, ManipulationError>)
    requires currentKey in cfg.dependencyExclusions
    ensures r == RuleStep(c, cfg, projectGA, wildcardMode, currentKey, st)
  {
    var currentValue := cfg.dependencyExclusions[currentKey];
    if '@' !in currentKey {
      return Success(st);
    }
    var isModuleWildcard := EndsWith(currentKey, "@*");
    var artifactGA := "";
    var replace := false;
    var remaining := st.remaining;
    if !wildcardMode {
      if isModuleWildcard {
        return Success(st);
      }
      var artifactAndModule := Split(currentKey, '@');
      if |artifactAndModule| != 2 {
        return Failure(InvalidExclusionKey(currentKey));
      }
      artifactGA := artifactAndModule[0];
      var moduleGA :- c.ParseRef(artifactAndModule[1]);
      var selected :- SelectsModule(c, moduleGA, projectGA);
      if selected {
        if currentValue != "" {
          replace := true;
        } else {
          var ref :- c.ParseRef(artifactGA);
          remaining := RemoveGA(remaining, ref);
        }
      }
    } else {
      if !isModuleWildcard {
        return Success(st);
      }
      artifactGA := currentKey[..|currentKey| - 2];
      var ref :- c.ParseRef(artifactGA);
      if c.wildcardContains(st.explicit, ref) {
        return Success(st);
      }
      if currentValue != "" {
        replace := true;
      } else {
        remaining := RemoveGA(remaining, ref);
      }
    }
    if replace {
      r := Replace(c, cfg, currentKey, artifactGA, currentValue, st);
    } else {
      r := Success(st.(remaining := remaining));
    }
  }

  /** What is left of a pass started on `rest` and of the passes after it. */
  function ThenPasses(c: Collaborators, cfg: Config, projectGA: string, current: Result<ScopeState, ManipulationError>, wildcardPassFollows: bool)
    : Result<ScopeState, ManipulationError>
    requires cfg.Valid()
  {
    if current.Failure? || !wildcardPassFollows then current
    else RulesPass(c, cfg, projectGA, true, cfg.exclusionOrder, current.value)
  }

  /**
   * applyModuleVersionOverrides: the overrides that apply to the project `projectGA`, and the
   * explicit overrides its rules produce (the WildcardMap the caller passes in empty).
   */
  method ApplyModuleVersionOverrides(c: Collaborators, cfg: Config, projectGA: string, originalOverrides: Overrides)
    returns (r: Result<ScopeState, ManipulationError>)
    requires cfg.Valid()
    ensures r == ModuleOverrides(c, cfg, projectGA, originalOverrides)
  {
    var st := ScopeState(originalOverrides, WildcardMap([]));
    var wildcardModes := [false, true];
    var order := cfg.exclusionOrder;
    for m := 0 to 2
      invariant m < 2 ==> ThenPasses(c, cfg, projectGA, RulesPass(c, cfg, projectGA, m == 1, order, st), m == 0)
                          == ModuleOverrides(c, cfg, projectGA, originalOverrides)
      invariant m == 2 ==> Success(st) == ModuleOverrides(c, cfg, projectGA, originalOverrides)
    {
      var aWildcardMode := wildcardModes[m];
      assert aWildcardMode == (m == 1);
      assert order[0..] == order;
      var i := 0;
      while i < |order|
        invariant 0 <= i <= |order|
        invariant ThenPasses(c, cfg, projectGA, RulesPass(c, cfg, projectGA, aWildcardMode, order[i..], st), m == 0)
               == ModuleOverrides(c, cfg, projectGA, originalOverrides)
      {
        assert order[i..][1..] == order[i + 1..];
        var next := ApplyRule(c, cfg, projectGA, aWildcardMode, order[i], st);
        if next.Failure? {
          return next;
        }
        st := next.value;
        i := i + 1;
      }
      assert order[i..] == [];
    }
    return Success(st);
  }

  // ---------------------------------------------------------------- properties of the two passes

  /**
   * An `@*` rule without a value, in the wildcard pass, suppresses every override its artifact
   * pattern matches and keeps the others, unless a module-specific rule already forced the artifact.
   */
  lemma EmptyWildcardRuleSuppresses(c: Collaborators, cfg: Config, projectGA: string, key: string, ref: ProjectRef, st: ScopeState)
    requires key in cfg.dependencyExclusions && cfg.dependencyExclusions[key] == "" && EndsWith(key, "@*")
    requires c.parseProjectRef(key[..|key| - 2]) == Some(ref) && !c.wildcardContains(st.explicit, ref)
    requires st.remaining.Valid()
    ensures var r := RuleStep(c, cfg, projectGA, true, key, st);
      && r.Success? && r.value.explicit == st.explicit && r.value.remaining.Valid()
      && (forall k :: k in r.value.remaining.entries <==>
            k in st.remaining.entries && !(FieldMatches(ref.groupId, k.groupId) && FieldMatches(ref.artifactId, k.artifactId)))
      && (forall k | k in r.value.remaining.entries :: r.value.remaining.entries[k] == st.remaining.entries[k])
  {
    RemoveGAMatchesPattern(st.remaining, ref);
  }

  /**
   * A module-specific rule without a value, for a module that selects the project, suppresses
   * every override its artifact pattern matches and keeps the others.
   */
  lemma EmptyModuleRuleSuppresses(c: Collaborators, cfg: Config, projectGA: string, key: string, moduleGA: ProjectRef, ref: ProjectRef, st: ScopeState)
    requires key in cfg.dependencyExclusions && cfg.dependencyExclusions[key] == "" && !EndsWith(key, "@*")
    requires |Split(key, '@')| == 2
    requires c.parseProjectRef(Split(key, '@')[1]) == Some(moduleGA) && SelectsModule(c, moduleGA, projectGA) == Success(true)
    requires c.parseProjectRef(Split(key, '@')[0]) == Some(ref)
    requires st.remaining.Valid()
    ensures var r := RuleStep(c, cfg, projectGA, false, key, st);
      && r.Success? && r.value.explicit == st.explicit && r.value.remaining.Valid()
      && (forall k :: k in r.value.remaining.entries <==>
            k in st.remaining.entries && !(FieldMatches(ref.groupId, k.groupId) && FieldMatches(ref.artifactId, k.artifactId)))
      && (forall k | k in r.value.remaining.entries :: r.value.remaining.entries[k] == st.remaining.entries[k])
  {
    RemoveGAMatchesPattern(st.remaining, ref);
  }

  /** The keys of `order` that name a module at all. */
  function ModuleRules(order: seq<string>): (r: seq<string>)
    ensures forall k | k in r :: k in order
  {
    if order == [] then []
    else (if '@' in order[0] then [order[0]] else []) + ModuleRules(order[1..])
  }

  /** dependencyExclusion keys without '@' are not rules for this pass: dropping them changes nothing. */
  lemma {:induction false} OnlyModuleRulesCount(c: Collaborators, cfg: Config, projectGA: string, wildcardMode: bool, order: seq<string>, st: ScopeState)
    requires forall k | k in order :: k in cfg.dependencyExclusions
    ensures RulesPass(c, cfg, projectGA, wildcardMode, order, st) == RulesPass(c, cfg, projectGA, wildcardMode, ModuleRules(order), st)
  {
    if order != [] {
      var step := RuleStep(c, cfg, projectGA, wildcardMode, order[0], st);
      if step.Success? {
        OnlyModuleRulesCount(c, cfg, projectGA, wildcardMode, order[1..], step.value);
      }
      if '@' in order[0] {
        assert ModuleRules(order) == [order[0]] + ModuleRules(order[1..]);
        assert ModuleRules(order)[1..] == ModuleRules(order[1..]);
      } else {
        assert ([] + ModuleRules(order[1..])) == ModuleRules(order[1..]);
        assert ModuleRules(order) == ModuleRules(order[1..]);
        assert RulesPass(c, cfg, projectGA, wildcardMode, order, st) == RulesPass(c, cfg, projectGA, wildcardMode, order[1..], st);
      }
    }
  }

  /** A malformed module-specific key makes the module-specific pass, and so the whole scoping, fail. */
  lemma {:induction false} MalformedKeyFailsPass(c: Collaborators, cfg: Config, projectGA: string, order: seq<string>, st: ScopeState, key: string)
    requires forall k | k in order :: k in cfg.dependencyExclusions
    requires key in order && Malformed(key)
    ensures RulesPass(c, cfg, projectGA, false, order, st).Failure?
  {
    var step := RuleStep(c, cfg, projectGA, false, order[0], st);
    if order[0] != key && step.Success? {
      MalformedKeyFailsPass(c, cfg, projectGA, order[1..], step.value, key);
    }
  }

  lemma MalformedKeyAborts(c: Collaborators, cfg: Config, projectGA: string, original: Overrides, key: string)
    requires cfg.Valid()
    requires key in cfg.dependencyExclusions && Malformed(key)
    ensures ModuleOverrides(c, cfg, projectGA, original).Failure?
  {
    assert key in cfg.exclusionOrder;
    MalformedKeyFailsPass(c, cfg, projectGA, cfg.exclusionOrder, ScopeState(original, WildcardMap([])), key);
  }

  /**
   * `after` is `before` with puts appended; when `unseen`, each appended put is for a ref the
   * map did not contain at the moment of the put.
   */
  ghost predicate Extends(c: Collaborators, before: WildcardMap, after: WildcardMap, unseen: bool) {
    && |before.puts| <= |after.puts|
    && after.puts[..|before.puts|] == before.puts
    && (unseen ==> forall j | |before.puts| <= j < |after.puts| :: !c.wildcardContains(WildcardMap(after.puts[..j]), after.puts[j].0))
  }

  lemma ExtendsTrans(c: Collaborators, a: WildcardMap, b: WildcardMap, d: WildcardMap, unseen: bool)
    requires Extends(c, a, b, unseen) && Extends(c, b, d, unseen)
    ensures Extends(c, a, d, unseen)
  {
    assert d.puts[..|a.puts|] == d.puts[..|b.puts|][..|a.puts|];
    if unseen {
      forall j | |a.puts| <= j < |b.puts|
        ensures !c.wildcardContains(WildcardMap(d.puts[..j]), d.puts[j].0)
      {
        assert d.puts[..j] == b.puts[..j];
        assert d.puts[j] == d.puts[..|b.puts|][j];
      }
    }
  }

  /**
   * One rule either keeps the explicit overrides or adds one put; in the wildcard pass that
   * put is for a ref not yet present. The overrides in force only lose entries.
   */
  lemma RuleStepShape(c: Collaborators, cfg: Config, projectGA: string, wildcardMode: bool, key: string, st: ScopeState)
    requires key in cfg.dependencyExclusions
    ensures var r := RuleStep(c, cfg, projectGA, wildcardMode, key, st);
      r.Success? ==> Narrower(r.value.remaining, st.remaining) && Extends(c, st.explicit, r.value.explicit, wildcardMode)
  {
    var r := RuleStep(c, cfg, projectGA, wildcardMode, key, st);
    if r.Success? && r.value.explicit != st.explicit {
      var ref :| ref == r.value.explicit.puts[|st.explicit.puts|].0;
      assert r.value.explicit.puts[..|st.explicit.puts|] == st.explicit.puts;
    }
  }

  lemma {:induction false} RulesPassShape(c: Collaborators, cfg: Config, projectGA: string, wildcardMode: bool, order: seq<string>, st: ScopeState)
    requires forall k | k in order :: k in cfg.dependencyExclusions
    ensures var r := RulesPass(c, cfg, projectGA, wildcardMode, order, st);
      r.Success? ==> Narrower(r.value.remaining, st.remaining) && Extends(c, st.explicit, r.value.explicit, wildcardMode)
  {
    if order == [] {
      assert st.explicit.puts[..|st.explicit.puts|] == st.explicit.puts;
    } else {
      var step := RuleStep(c, cfg, projectGA, wildcardMode, order[0], st);
      RuleStepShape(c, cfg, projectGA, wildcardMode, order[0], st);
      if step.Success? {
        RulesPassShape(c, cfg, projectGA, wildcardMode, order[1..], step.value);
        var r := RulesPass(c, cfg, projectGA, wildcardMode, order[1..], step.value);
        if r.Success? {
          ExtendsTrans(c, st.explicit, step.value.explicit, r.value.explicit, wildcardMode);
        }
      }
    }
  }

  /** Under the WildcardMap laws, every ref that was put is contained. */
  lemma {:induction false} PutRefsContained(c: Collaborators, m: WildcardMap)
    requires c.WildcardLaws()
    ensures forall i | 0 <= i < |m.puts| :: c.wildcardContains(m, m.puts[i].0)
    decreases |m.puts|
  {
    if m.puts != [] {
      var prefix := WildcardMap(m.puts[..|m.puts| - 1]);
      PutRefsContained(c, prefix);
      assert m == prefix.Put(m.puts[|m.puts| - 1].0, m.puts[|m.puts| - 1].1);
    }
  }

  /** Scoping only ever drops overrides: what it leaves is a well-formed part of the original map. */
  lemma ModuleOverridesNarrow(c: Collaborators, cfg: Config, projectGA: string, original: Overrides)
    requires cfg.Valid()
    ensures var r := ModuleOverrides(c, cfg, projectGA, original);
      r.Success? ==> Narrower(r.value.remaining, original)
  {
    var st0 := ScopeState(original, WildcardMap([]));
    RulesPassShape(c, cfg, projectGA, false, cfg.exclusionOrder, st0);
    var one := RulesPass(c, cfg, projectGA, false, cfg.exclusionOrder, st0);
    if one.Success? {
      RulesPassShape(c, cfg, projectGA, true, cfg.exclusionOrder, one.value);
    }
  }

  /**
   * Scoping only narrows the global overrides, and a rule for every module (`@*`) never sets
   * an explicit override for an artifact that a rule for this module already set: the puts of
   * the wildcard pass come after those of the module-specific pass and name other refs.
   */
  lemma ModuleSpecificRulesWin(c: Collaborators, cfg: Config, projectGA: string, original: Overrides)
    requires cfg.Valid() && c.WildcardLaws()
    ensures var one := RulesPass(c, cfg, projectGA, false, cfg.exclusionOrder, ScopeState(original, WildcardMap([])));
      var r := ModuleOverrides(c, cfg, projectGA, original);
      r.Success? ==>
        && one.Success?
        && Narrower(r.value.remaining, original)
        && |one.value.explicit.puts| <= |r.value.explicit.puts|
        && r.value.explicit.puts[..|one.value.explicit.puts|] == one.value.explicit.puts
        && forall i, j | 0 <= i < |one.value.explicit.puts| <= j < |r.value.explicit.puts| ::
             r.value.explicit.puts[j].0 != one.value.explicit.puts[i].0
  {
    var st0 := ScopeState(original, WildcardMap([]));
    var one := RulesPass(c, cfg, projectGA, false, cfg.exclusionOrder, st0);
    RulesPassShape(c, cfg, projectGA, false, cfg.exclusionOrder, st0);
    if one.Success? {
      var r := RulesPass(c, cfg, projectGA, true, cfg.exclusionOrder, one.value);
      RulesPassShape(c, cfg, projectGA, true, cfg.exclusionOrder, one.value);
      if r.Success? {
        var puts := r.value.explicit.puts;
        var n := |one.value.explicit.puts|;
        forall i, j | 0 <= i < n <= j < |puts|
          ensures puts[j].0 != one.value.explicit.puts[i].0
        {
          var before := WildcardMap(puts[..j]);
          PutRefsContained(c, before);
          assert before.puts[i] == one.value.explicit.puts[i];
        }
      }
    }
  }
}
