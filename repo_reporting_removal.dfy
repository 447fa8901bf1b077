/**
 * RepoAndReportingRemovalManipulator: strips the <repositories>, <pluginRepositories> and
 * <reporting> sections from every model of the reactor and from every profile of those models,
 * and reports the projects whose model had any of them.
 */
module RepoReportingRemoval {
  import opened Wrappers

  /** A <repository> or <pluginRepository> entry; its content is never inspected. */
  datatype Repository = Repository(id: string, url: string)

  /** A <reporting> section; its content is never inspected. */
  datatype Reporting = Reporting(outputDirectory: string, plugins: seq<string>)

  /** A <profile> of a model. Its lists are never null here: the code reads them without a null test. */
  class Profile {
    const id: string
    var repositories: seq<Repository>
    var pluginRepositories: seq<Repository>
    var reporting: Option<Reporting>

    constructor (id: string, repositories: seq<Repository>, pluginRepositories: seq<Repository>, reporting: Option<Reporting>)
      ensures this.id == id && this.repositories == repositories
      ensures this.pluginRepositories == pluginRepositories && this.reporting == reporting
    {
      this.id := id;
      this.repositories := repositories;
      this.pluginRepositories := pluginRepositories;
      this.reporting := reporting;
    }
  }

  /** A Maven model: the three sections this manipulator clears (the lists may be null) and its profiles. */
  class Model {
    var repositories: Option<seq<Repository>>
    var pluginRepositories: Option<seq<Repository>>
    var reporting: Option<Reporting>
    const profiles: seq<Profile>

    constructor (
      repositories: Option<seq<Repository>>, pluginRepositories: Option<seq<Repository>>,
      reporting: Option<Reporting>, profiles: seq<Profile>)
      ensures this.repositories == repositories && this.pluginRepositories == pluginRepositories
      ensures this.reporting == reporting && this.profiles == profiles
    {
      this.repositories := repositories;
      this.pluginRepositories := pluginRepositories;
      this.reporting := reporting;
      this.profiles := profiles;
    }
  }

  /** A project of the reactor and the model it owns. */
  class Project {
    const groupId: string
    const artifactId: string
    const model: Model

    constructor (groupId: string, artifactId: string, model: Model)
      ensures this.groupId == groupId && this.artifactId == artifactId && this.model == model
    {
      this.groupId := groupId;
      this.artifactId := artifactId;
      this.model := model;
    }
  }

  // ---------------------------------------------------------------- the sections as values

  datatype ProfileSections = ProfileSections(repositories: seq<Repository>, pluginRepositories: seq<Repository>, reporting: Option<Reporting>)

  datatype ModelSections = ModelSections(
    repositories: Option<seq<Repository>>, pluginRepositories: Option<seq<Repository>>,
    reporting: Option<Reporting>, profiles: seq<ProfileSections>)

  ghost function ProfileSectionsOf(p: Profile): ProfileSections
    reads p
  {
    ProfileSections(p.repositories, p.pluginRepositories, p.reporting)
  }

  /** The sections of each of `ps`, in order. */
  ghost function ProfilesSectionsOf(ps: seq<Profile>): (r: seq<ProfileSections>)
    reads set k | 0 <= k < |ps| :: ps[k]
    ensures |r| == |ps| && forall k | 0 <= k < |ps| :: r[k] == ProfileSectionsOf(ps[k])
  {
    if ps == [] then []
    else [ProfileSectionsOf(ps[0])] + ProfilesSectionsOf(ps[1..])
  }

  /** The repository, plugin repository and reporting sections of `m` and of its profiles. */
  ghost function SectionsOf(m: Model): ModelSections
    reads m, set k | 0 <= k < |m.profiles| :: m.profiles[k]
  {
    ModelSections(m.repositories, m.pluginRepositories, m.reporting, ProfilesSectionsOf(m.profiles))
  }

  /** A non-null, non-empty repository list. */
  predicate Present(l: Option<seq<Repository>>) {
    l.Some? && l.value != []
  }

  predicate ProfileHasContent(s: ProfileSections) {
    s.repositories != [] || s.pluginRepositories != [] || s.reporting.Some?
  }

  /** What applyChanges looks for: any of the six sections, at the top level or in a profile, is there. */
  predicate HasContent(s: ModelSections) {
    || Present(s.repositories)
    || Present(s.pluginRepositories)
    || s.reporting.Some?
    || exists k | 0 <= k < |s.profiles| :: ProfileHasContent(s.profiles[k])
  }

  /** A profile after the strip: both lists empty, no reporting. */
  const StrippedProfile := ProfileSections([], [], None)

  /** A model list after the strip: a present list is replaced by the empty list; a null or empty one is left as it is. */
  function ClearList(l: Option<seq<Repository>>): (r: Option<seq<Repository>>)
    ensures !Present(r)
    ensures Present(l) <==> r != l
  {
    if Present(l) then Some([]) else l
  }

  /**
   * The sections of a model after applyChanges: the top-level lists are null or empty, reporting
   * is null, and every profile has empty lists and no reporting.
   */
  function Strip(s: ModelSections): (r: ModelSections)
    ensures r.repositories == None || r.repositories == Some([])
    ensures r.pluginRepositories == None || r.pluginRepositories == Some([])
    ensures r.reporting == None
    ensures |r.profiles| == |s.profiles| && forall k | 0 <= k < |r.profiles| :: r.profiles[k] == ProfileSections([], [], None)
    ensures !HasContent(r)
  {
    ModelSections(ClearList(s.repositories), ClearList(s.pluginRepositories), None,
      seq(|s.profiles|, k => StrippedProfile))
  }

  // ---------------------------------------------------------------- properties of the strip

  /** The strip changes a model exactly when the model has one of the sections. */
  lemma StripChangesIffContent(s: ModelSections)
    ensures Strip(s) != s <==> HasContent(s)
  {
    if !HasContent(s) {
      assert forall k | 0 <= k < |s.profiles| :: s.profiles[k] == StrippedProfile;
      assert Strip(s).profiles == s.profiles;
    } else if !(Present(s.repositories) || Present(s.pluginRepositories) || s.reporting.Some?) {
      var k :| 0 <= k < |s.profiles| && ProfileHasContent(s.profiles[k]);
      assert Strip(s).profiles[k] != s.profiles[k];
    }
  }

  /** A second strip changes nothing and finds nothing. */
  lemma StripIdempotent(s: ModelSections)
    ensures Strip(Strip(s)) == Strip(s)
    ensures !HasContent(Strip(s))
  {
    StripChangesIffContent(Strip(s));
  }

  /** A model whose lists are cleared and whose profiles are all stripped is the strip of what it was. */
  lemma StripResult(before: ModelSections, now: ModelSections)
    requires now.repositories == ClearList(before.repositories)
    requires now.pluginRepositories == ClearList(before.pluginRepositories)
    requires now.reporting == None && |now.profiles| == |before.profiles|
    requires forall j | 0 <= j < |now.profiles| :: now.profiles[j] == StrippedProfile
    ensures now == Strip(before)
  {
  }

  // ---------------------------------------------------------------- applyChanges

  /** The models of `projects`. */
  function Models(projects: seq<Project>): set<Model> {
    set p | p in projects :: p.model
  }

  /** The profiles of the models of `projects`. */
  function Profiles(projects: seq<Project>): set<Profile> {
    set i, k | 0 <= i < |projects| && 0 <= k < |projects[i].model.profiles| :: projects[i].model.profiles[k]
  }

  /** The sections of the models of `projects`, in order. */
  ghost function ModelsSectionsOf(projects: seq<Project>): (r: seq<ModelSections>)
    reads Models(projects), Profiles(projects)
    ensures |r| == |projects| && forall j | 0 <= j < |projects| :: r[j] == SectionsOf(projects[j].model)
  {
    if projects == [] then []
    else
      assert Models(projects[1..]) <= Models(projects);
      assert forall i, k | 0 <= i < |projects[1..]| && 0 <= k < |projects[1..][i].model.profiles| ::
        projects[1..][i].model.profiles[k] == projects[i + 1].model.profiles[k];
      [SectionsOf(projects[0].model)] + ModelsSectionsOf(projects[1..])
  }

  /** The projects among the first `i` of `projects` whose sections in `before` have something to strip. */
  ghost function ChangedAmong(projects: seq<Project>, before: seq<ModelSections>, i: nat): set<Project>
    requires i <= |projects| == |before|
  {
    set j | 0 <= j < i && HasContent(before[j]) :: projects[j]
  }

  lemma ChangedAmongStep(projects: seq<Project>, before: seq<ModelSections>, i: nat)
    requires i < |projects| == |before|
    ensures ChangedAmong(projects, before, i + 1) ==
      ChangedAmong(projects, before, i) + (if HasContent(before[i]) then {projects[i]} else {})
  {
    var next := ChangedAmong(projects, before, i + 1);
    var prev := ChangedAmong(projects, before, i);
    forall p | p in next ensures p in prev + (if HasContent(before[i]) then {projects[i]} else {}) {
      var j :| 0 <= j < i + 1 && HasContent(before[j]) && p == projects[j];
    }
  }

  /**
   * Every project owns its model and every model its profiles: no model belongs to two projects
   * and no profile occurs twice among the profiles of the models.
   */
  ghost predicate Separate(projects: seq<Project>) {
    && (forall i, j | 0 <= i < j < |projects| :: projects[i].model != projects[j].model)
    && (forall i, k, j, l | 0 <= i < |projects| && 0 <= k < |projects[i].model.profiles|
          && 0 <= j < |projects| && 0 <= l < |projects[j].model.profiles| && (i, k) != (j, l) ::
          projects[i].model.profiles[k] != projects[j].model.profiles[l])
  }

  /** The body of applyChanges' loop over the profiles of a model: whether anything was removed. */
  method StripProfile(profile: Profile) returns (changed: bool)
    modifies profile
    ensures changed == ProfileHasContent(old(ProfileSectionsOf(profile)))
    ensures ProfileSectionsOf(profile) == StrippedProfile
  {
    changed := false;
    if profile.repositories != [] {
      profile.repositories := [];
      changed := true;
    }
    if profile.pluginRepositories != [] {
      profile.pluginRepositories := [];
      changed := true;
    }
    if profile.reporting.Some? {
      profile.reporting := None;
      changed := true;
    }
  }

  /** applyChanges' loop over the profiles of a model: whether anything was removed. */
  method StripProfiles(profiles: seq<Profile>) returns (changed: bool)
    requires forall k, l | 0 <= k < l < |profiles| :: profiles[k] != profiles[l]
    modifies set k | 0 <= k < |profiles| :: profiles[k]
    ensures changed == exists j | 0 <= j < |profiles| :: ProfileHasContent(old(ProfileSectionsOf(profiles[j])))
    ensures forall j | 0 <= j < |profiles| :: ProfileSectionsOf(profiles[j]) == StrippedProfile
  {
    ghost var before := ProfilesSectionsOf(profiles);
    changed := false;
    var k := 0;
    while k < |profiles|
      invariant 0 <= k <= |profiles|
      invariant forall j | 0 <= j < k :: ProfileSectionsOf(profiles[j]) == StrippedProfile
      invariant forall j | k <= j < |profiles| :: ProfileSectionsOf(profiles[j]) == before[j]
      invariant changed == exists j | 0 <= j < k :: ProfileHasContent(before[j])
    {
      label visit:
      var found := StripProfile(profiles[k]);
      forall j | 0 <= j < |profiles| && j != k
        ensures ProfileSectionsOf(profiles[j]) == old@visit(ProfileSectionsOf(profiles[j]))
      {
        assert profiles[j] != profiles[k];
      }
      changed := changed || found;
      k := k + 1;
    }
  }

  /** The body of applyChanges' loop for one model: whether anything was removed. */
  method StripModel(m: Model) returns (changed: bool)
    requires forall k, l | 0 <= k < l < |m.profiles| :: m.profiles[k] != m.profiles[l]
    modifies m, set k | 0 <= k < |m.profiles| :: m.profiles[k]
    ensures changed == HasContent(old(SectionsOf(m)))
    ensures SectionsOf(m) == Strip(old(SectionsOf(m)))
  {
    ghost var before := SectionsOf(m);
    changed := false;
    if m.repositories.Some? && m.repositories.value != [] {
      m.repositories := Some([]);
      changed := true;
    }
    if m.pluginRepositories.Some? && m.pluginRepositories.value != [] {
      m.pluginRepositories := Some([]);
      changed := true;
    }
    if m.reporting.Some? {
      m.reporting := None;
      changed := true;
    }
    ghost var after := Strip(before);
    assert m.repositories == after.repositories && m.pluginRepositories == after.pluginRepositories;
    var profiles := m.profiles;
    if |profiles| > 0 {
      var found := StripProfiles(profiles);
      changed := changed || found;
    }
    StripResult(before, SectionsOf(m));
  }

  /** The body of applyChanges' loop for the `i`-th project; the models of the other projects keep their sections. */
  method StripProject(projects: seq<Project>, i: nat) returns (changed: bool)
    requires i < |projects| && Separate(projects)
    modifies projects[i].model, set k | 0 <= k < |projects[i].model.profiles| :: projects[i].model.profiles[k]
    ensures changed == HasContent(old(SectionsOf(projects[i].model)))
    ensures SectionsOf(projects[i].model) == Strip(old(SectionsOf(projects[i].model)))
    ensures forall j | 0 <= j < |projects| && j != i :: SectionsOf(projects[j].model) == old(SectionsOf(projects[j].model))
  {
    var model := projects[i].model;
    changed := StripModel(model);
    forall j | 0 <= j < |projects| && j != i
      ensures SectionsOf(projects[j].model) == old(SectionsOf(projects[j].model))
    {
      var other := projects[j].model;
      assert other != model;
      forall l | 0 <= l < |other.profiles|
        ensures unchanged(other.profiles[l])
      {
        assert forall k | 0 <= k < |model.profiles| :: other.profiles[l] != model.profiles[k];
      }
    }
  }

  /**
   * applyChanges(projects, session): nothing when the session or the RepoReportingState is
   * disabled (`enabled` is both); otherwise every model and profile is stripped and the projects
   * whose model had something to strip are returned.
   */
  method ApplyChanges(projects: seq<Project>, enabled: bool) returns (changed: set<Project>)
    requires Separate(projects)
    modifies Models(projects), Profiles(projects)
    ensures !enabled ==> changed == {} && forall p | p in projects :: SectionsOf(p.model) == old(SectionsOf(p.model))
    ensures enabled ==> changed == set p | p in projects && HasContent(old(SectionsOf(p.model)))
    ensures enabled ==> forall p | p in projects :: SectionsOf(p.model) == Strip(old(SectionsOf(p.model)))
  {
    if !enabled {
      return {};
    }
    ghost var before := ModelsSectionsOf(projects);
    changed := {};
    var i := 0;
    while i < |projects|
      invariant 0 <= i <= |projects|
      invariant changed == ChangedAmong(projects, before, i)
      invariant forall j | 0 <= j < i :: SectionsOf(projects[j].model) == Strip(before[j])
      invariant forall j | i <= j < |projects| :: SectionsOf(projects[j].model) == before[j]
    {
      var project := projects[i];
      ChangedAmongStep(projects, before, i);
      var modelChanged := StripProject(projects, i);
      if modelChanged {
        changed := changed + {project};
      }
      i := i + 1;
    }
  }
}
