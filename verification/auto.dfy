/** `AutoCommand` (src/commands/auto.ts): applying a repository's associated
    profile to its local git configuration, and `gitx auto` turning the
    association on or off. The store and git's configuration are passed in
    and the changed ones returned; `git rev-parse` arrives as a
    `RepoContext`. */
module Auto {
  import opened Types
  import ConfigStore
  import GitConfig
  import Strings

  /** The local identity already is the profile's: the email and the name
      both read back as the profile's (an unset key never equals one). */
  predicate AlreadyApplied(g: GitState, p: GitProfile) {
    var cur := GitConfig.GetCurrentConfig(g, Local);
    cur.email == Some(p.email) && cur.name == Some(p.name)
  }

  /** The profile `applyProfile` would apply in `repo`: the one associated
      with the repository root, when it is stored. */
  function AssociatedProfile(repo: RepoContext, c: GitXConfig): (r: Option<GitProfile>)
    ensures r.Some? ==> repo.isRepo && Truthy(repo.root)
    ensures r.Some? ==> exists n :: ConfigStore.GetFolderProfile(c, repo.root.value) == Some(n) && n != ""
                                    && ConfigStore.GetProfile(c, n) == r
    ensures repo.isRepo && Truthy(repo.root) && Truthy(ConfigStore.GetFolderProfile(c, repo.root.value)) ==>
              r == ConfigStore.GetProfile(c, ConfigStore.GetFolderProfile(c, repo.root.value).value)
  {
    if !repo.isRepo || !Truthy(repo.root) then None
    else
      var name := ConfigStore.GetFolderProfile(c, repo.root.value);
      if !Truthy(name) then None else ConfigStore.GetProfile(c, name.value)
  }

  datatype ApplyResult = ApplyResult(applied: bool, git: GitState)

  /** `applyProfile()`: writes the associated profile to the local scope and
      reports true, unless there is none to apply or it is already applied;
      then nothing is written and the result is false. */
  function ApplyProfile(repo: RepoContext, c: GitXConfig, g: GitState): (r: ApplyResult)
    ensures !r.applied ==> r.git == g
    ensures r.applied <==> AssociatedProfile(repo, c).Some? && !AlreadyApplied(g, AssociatedProfile(repo, c).value)
    ensures r.applied ==>
              var p := AssociatedProfile(repo, c).value;
              var m := GitConfig.Values(r.git, Local);
              && GitConfig.UserName in m && m[GitConfig.UserName] == p.name
              && GitConfig.UserEmail in m && m[GitConfig.UserEmail] == p.email
              && GitConfig.Values(r.git, Global) == g.global
    ensures r.applied ==> r.git == GitConfig.SetConfig(g, AssociatedProfile(repo, c).value, Local)
  {
    var profile := AssociatedProfile(repo, c);
    if profile.None? then ApplyResult(false, g)
    else if AlreadyApplied(g, profile.value) then ApplyResult(false, g)
    else ApplyResult(true, GitConfig.SetConfig(g, profile.value, Local))
  }

  /** A profile whose name and email are non-empty and carry no surrounding
      white space reads back as written, so a second apply writes nothing. */
  lemma ApplyIdempotent(repo: RepoContext, c: GitXConfig, g: GitState)
    requires AssociatedProfile(repo, c).Some?
    requires var p := AssociatedProfile(repo, c).value;
             p.name != "" && Strings.Trim(p.name) == p.name && p.email != "" && Strings.Trim(p.email) == p.email
    ensures var once := ApplyProfile(repo, c, g);
            var twice := ApplyProfile(repo, c, once.git);
            !twice.applied && twice.git == once.git
  {
    var once := ApplyProfile(repo, c, g);
    if once.applied {
      GitConfig.ReadAfterSet(g, AssociatedProfile(repo, c).value, Local);
    }
  }

  /** Entry `i` is the first, in stored order, whose email is `email`: the
      one the `for ... of Object.entries(profiles)` loop stops at. */
  predicate FirstMatch(ps: ProfileMap, email: string, i: int) {
    && 0 <= i < |ps| && ps[i].profile.email == email
    && forall j :: 0 <= j < i ==> ps[j].profile.email != email
  }

  /** At most one entry is the first match. */
  lemma FirstMatchUnique(ps: ProfileMap, email: string, i: int, j: int)
    requires FirstMatch(ps, email, i) && FirstMatch(ps, email, j)
    ensures i == j
  {
  }

  /** The first profile, in stored order, whose email is `email`. */
  function FirstWithEmail(ps: ProfileMap, email: string): (r: Option<string>)
    ensures r.None? <==> forall i :: 0 <= i < |ps| ==> ps[i].profile.email != email
    ensures r.Some? ==> exists i :: FirstMatch(ps, email, i) && ps[i].key == r.value
  {
    if |ps| == 0 then None
    else if ps[0].profile.email == email then Some(ps[0].key)
    else
      var rest: ProfileMap := ps[1..];
      assert forall i :: 0 <= i < |rest| ==> rest[i] == ps[i + 1];
      FirstWithEmail(rest, email)
  }

  datatype AutoOutcome =
    | AutoNotARepo
    | AutoNoRoot
    | AutoDisabled(store: GitXConfig)
    | NoProfileFound
    | AutoResolved(profileName: string, store: GitXConfig)

  /** The profile `execute` settles on: the one associated with the root, or
      else the key of the first stored profile whose email is the local
      email. It is usable (non-empty) exactly when the association is, or
      when that first match has a non-empty key. */
  function DetectProfile(root: string, c: GitXConfig, g: GitState): (r: Option<string>)
    ensures Truthy(ConfigStore.GetFolderProfile(c, root)) ==> r == ConfigStore.GetFolderProfile(c, root)
    ensures !Truthy(ConfigStore.GetFolderProfile(c, root)) ==>
              var email := GitConfig.GetCurrentConfig(g, Local).email;
              && (email.None? ==> !Truthy(r))
              && (email.Some? ==>
                    && (r.None? <==> forall i :: 0 <= i < |c.profiles| ==> c.profiles[i].profile.email != email.value)
                    && (r.Some? ==> exists i :: FirstMatch(c.profiles, email.value, i) && c.profiles[i].key == r.value))
    ensures var email := GitConfig.GetCurrentConfig(g, Local).email;
            Truthy(r) <==>
              || Truthy(ConfigStore.GetFolderProfile(c, root))
              || (email.Some? && exists i :: FirstMatch(c.profiles, email.value, i) && c.profiles[i].key != "")
  {
    var associated := ConfigStore.GetFolderProfile(c, root);
    if Truthy(associated) then associated
    else
      var email := GitConfig.GetCurrentConfig(g, Local).email;
      if email.Some? then FirstWithEmail(c.profiles, email.value) else associated
  }

  /** `execute({enable, disable})`: `--disable` drops the root's own
      association; otherwise the detected profile is recorded for the root
      unless `enable` is explicitly false. */
  function Execute(repo: RepoContext, c: GitXConfig, g: GitState, enable: Option<bool>, disable: bool)
    : (r: AutoOutcome)
    ensures r == AutoNotARepo <==> !repo.isRepo
    ensures r == AutoNoRoot <==> repo.isRepo && !Truthy(repo.root)
    ensures r.AutoDisabled? <==> repo.isRepo && Truthy(repo.root) && disable
    ensures r.AutoDisabled? ==>
              && (forall fp :: fp in r.store.folderProfiles <==>
                                 fp in c.folderProfiles && fp.path != repo.root.value)
              && r.store.profiles == c.profiles && r.store.defaultProfile == c.defaultProfile
    ensures r == NoProfileFound <==>
              repo.isRepo && Truthy(repo.root) && !disable && !Truthy(DetectProfile(repo.root.value, c, g))
    ensures r.AutoResolved? ==>
              && Some(r.profileName) == DetectProfile(repo.root.value, c, g) && r.profileName != ""
              && (enable == Some(false) ==> r.store == c)
              && (enable != Some(false) ==>
                    && ConfigStore.GetFolderProfile(r.store, repo.root.value) == Some(r.profileName)
                    && ConfigStore.Reassociates(c.folderProfiles, r.store.folderProfiles, repo.root.value, r.profileName)
                    && r.store.profiles == c.profiles && r.store.defaultProfile == c.defaultProfile)
  {
    if !repo.isRepo then AutoNotARepo
    else if !Truthy(repo.root) then AutoNoRoot
    else
      var root := repo.root.value;
      if disable then AutoDisabled(ConfigStore.RemoveFolderProfile(c, root))
      else
        var found := DetectProfile(root, c, g);
        if !Truthy(found) then NoProfileFound
        else if enable == Some(false) then AutoResolved(found.value, c)
        else
          var s := ConfigStore.SetFolderProfile(c, root, found.value);
          ConfigStore.SetThenResolve(c, root, found.value);
          ConfigStore.SetFolderProfileReassociates(c, root, found.value);
          AutoResolved(found.value, s)
  }

  /** Disabling removes the root's own association only: a repository
      inside an associated parent folder still resolves afterwards. */
  lemma DisableKeepsParent(repo: RepoContext, c: GitXConfig, g: GitState, enable: Option<bool>,
                           parent: FolderProfile)
    requires repo.isRepo && Truthy(repo.root)
    requires parent in c.folderProfiles && ConfigStore.Applies(parent, repo.root.value)
    requires parent.path != repo.root.value
    ensures var r := Execute(repo, c, g, enable, true);
            r.AutoDisabled? && ConfigStore.GetFolderProfile(r.store, repo.root.value).Some?
  {
    ConfigStore.RemoveKeepsInherited(c, repo.root.value, parent);
  }

  /** Once `gitx auto` has recorded a stored profile, applying the profile
      to the repository leaves its local identity set to that profile. */
  lemma EnableThenApply(repo: RepoContext, c: GitXConfig, g: GitState)
    requires Execute(repo, c, g, None, false).AutoResolved?
    requires var r := Execute(repo, c, g, None, false);
             var p := ConfigStore.GetProfile(r.store, r.profileName);
             p.Some? && p.value.name != "" && Strings.Trim(p.value.name) == p.value.name
             && p.value.email != "" && Strings.Trim(p.value.email) == p.value.email
    ensures var r := Execute(repo, c, g, None, false);
            var p := ConfigStore.GetProfile(r.store, r.profileName).value;
            var after := ApplyProfile(repo, r.store, g).git;
            AlreadyApplied(after, p)
  {
    var r := Execute(repo, c, g, None, false);
    var p := ConfigStore.GetProfile(r.store, r.profileName).value;
    assert AssociatedProfile(repo, r.store) == Some(p);
    var a := ApplyProfile(repo, r.store, g);
    if a.applied {
      GitConfig.ReadAfterSet(g, p, Local);
    }
  }

  /** With no association for the root, `gitx auto` records for the root the
      key of the first stored profile whose email is the local email. */
  lemma ExecuteRecordsFirstMatch(repo: RepoContext, c: GitXConfig, g: GitState, i: int)
    requires repo.isRepo && Truthy(repo.root)
    requires !Truthy(ConfigStore.GetFolderProfile(c, repo.root.value))
    requires var email := GitConfig.GetCurrentConfig(g, Local).email;
             email.Some? && FirstMatch(c.profiles, email.value, i) && c.profiles[i].key != ""
    ensures var r := Execute(repo, c, g, None, false);
            && r == AutoResolved(c.profiles[i].key, r.store)
            && ConfigStore.GetFolderProfile(r.store, repo.root.value) == Some(c.profiles[i].key)
  {
    var email := GitConfig.GetCurrentConfig(g, Local).email.value;
    var found := DetectProfile(repo.root.value, c, g);
    var j :| FirstMatch(c.profiles, email, j) && c.profiles[j].key == found.value;
    FirstMatchUnique(c.profiles, email, i, j);
  }
}
