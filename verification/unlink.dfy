/** `UnlinkCommand` (src/commands/unlink.ts): clearing the identity from
    the local or global git configuration and dropping the repository's
    folder association. The confirmation prompt is the `confirm` input;
    `force` skips it. */
module Unlink {
  import opened Types
  import ConfigStore
  import GitConfig

  datatype UnlinkOutcome =
    | UnlinkNotARepo
    | UnlinkNoRoot
    | AlreadyClean
    | UnlinkCancelled
    | Unlinked(store: GitXConfig, git: GitState)

  /** The scope has a name or an email to clear. */
  predicate HasIdentity(g: GitState, scope: Scope) {
    var cur := GitConfig.GetCurrentConfig(g, scope);
    cur.name.Some? || cur.email.Some?
  }

  /** `unlinkLocal(path, force)`: clears the local identity when there is
      one and the root's association when one resolves, after confirmation
      unless forced. */
  function UnlinkLocal(repo: RepoContext, c: GitXConfig, g: GitState, force: bool, confirm: bool)
    : (r: UnlinkOutcome)
    ensures r == UnlinkNoRoot <==> !Truthy(repo.root)
    ensures r == AlreadyClean <==>
              Truthy(repo.root) && !HasIdentity(g, Local)
              && !Truthy(ConfigStore.GetFolderProfile(c, repo.root.value))
    ensures r == UnlinkCancelled <==> Truthy(repo.root) && r != AlreadyClean && !force && !confirm
    ensures r.Unlinked? ==>
              var root := repo.root.value;
              var resolved := Truthy(ConfigStore.GetFolderProfile(c, root));
              && GitConfig.Values(r.git, Global) == g.global
              && (HasIdentity(g, Local) ==> r.git == GitConfig.UnsetConfig(g, Local))
              && (!HasIdentity(g, Local) ==> r.git == g)
              && (forall fp :: fp in r.store.folderProfiles <==>
                                 fp in c.folderProfiles && (fp.path != root || !resolved))
              && r.store.profiles == c.profiles && r.store.defaultProfile == c.defaultProfile
  {
    if !Truthy(repo.root) then UnlinkNoRoot
    else
      var root := repo.root.value;
      var folderProfile := ConfigStore.GetFolderProfile(c, root);
      if !HasIdentity(g, Local) && !Truthy(folderProfile) then AlreadyClean
      else if !force && !confirm then UnlinkCancelled
      else
        var g' := if HasIdentity(g, Local) then GitConfig.UnsetConfig(g, Local) else g;
        var c' := if Truthy(folderProfile) then ConfigStore.RemoveFolderProfile(c, root) else c;
        UnlinkedStore(c, root);
        Unlinked(c', g')
  }

  /** The store after a local unlink: the root's own association is gone
      when it had one, and nothing else changes. */
  lemma UnlinkedStore(c: GitXConfig, root: string)
    ensures var resolved := Truthy(ConfigStore.GetFolderProfile(c, root));
            var c' := if resolved then ConfigStore.RemoveFolderProfile(c, root) else c;
            && (forall fp :: fp in c'.folderProfiles <==> fp in c.folderProfiles && (fp.path != root || !resolved))
            && c'.profiles == c.profiles && c'.defaultProfile == c.defaultProfile
  {
  }

  /** `unlinkGlobal(force)`: clears the global identity when there is one,
      after confirmation unless forced; the store is never touched. */
  function UnlinkGlobal(c: GitXConfig, g: GitState, force: bool, confirm: bool): (r: UnlinkOutcome)
    ensures r == AlreadyClean <==> !HasIdentity(g, Global)
    ensures r == UnlinkCancelled <==> HasIdentity(g, Global) && !force && !confirm
    ensures r.Unlinked? ==>
              && r.store == c
              && r.git == GitConfig.UnsetConfig(g, Global)
              && GitConfig.Values(r.git, Local) == g.local
              && forall k :: GitConfig.IsIdentityKey(k) ==> k !in GitConfig.Values(r.git, Global)
    ensures r.Unlinked? || r == AlreadyClean || r == UnlinkCancelled
  {
    if !HasIdentity(g, Global) then AlreadyClean
    else if !force && !confirm then UnlinkCancelled
    else Unlinked(c, GitConfig.UnsetConfig(g, Global))
  }

  /** `execute({force, global})`: outside a repository only `--global` may
      proceed. */
  function Execute(repo: RepoContext, c: GitXConfig, g: GitState, force: bool, global: bool, confirm: bool)
    : (r: UnlinkOutcome)
    ensures r == UnlinkNotARepo <==> !repo.isRepo && !global
    ensures global ==> r == UnlinkGlobal(c, g, force, confirm)
    ensures repo.isRepo && !global ==> r == UnlinkLocal(repo, c, g, force, confirm)
  {
    if !repo.isRepo && !global then UnlinkNotARepo
    else if global then UnlinkGlobal(c, g, force, confirm)
    else UnlinkLocal(repo, c, g, force, confirm)
  }

  /** After a local unlink, the repository reads as having no identity, and
      the root has no association of its own. */
  lemma LocalUnlinkClears(repo: RepoContext, c: GitXConfig, g: GitState, force: bool, confirm: bool)
    requires UnlinkLocal(repo, c, g, force, confirm).Unlinked?
    ensures var r := UnlinkLocal(repo, c, g, force, confirm);
            var cur := GitConfig.GetCurrentConfig(r.git, Local);
            && cur.name.None? && cur.email.None?
            && (Truthy(ConfigStore.GetFolderProfile(c, repo.root.value)) ==>
                  forall fp :: fp in r.store.folderProfiles ==> fp.path != repo.root.value)
  {
    if HasIdentity(g, Local) {
      GitConfig.ReadAfterUnset(g, Local);
    }
  }

  /** The association is removed by exact path, so a repository inside an
      associated parent folder still resolves to a profile after unlinking. */
  lemma LocalUnlinkKeepsParent(repo: RepoContext, c: GitXConfig, g: GitState, force: bool, confirm: bool,
                               parent: FolderProfile)
    requires UnlinkLocal(repo, c, g, force, confirm).Unlinked?
    requires parent in c.folderProfiles && ConfigStore.Applies(parent, repo.root.value)
    requires parent.path != repo.root.value
    ensures ConfigStore.GetFolderProfile(UnlinkLocal(repo, c, g, force, confirm).store, repo.root.value).Some?
  {
    var r := UnlinkLocal(repo, c, g, force, confirm);
    assert parent in r.store.folderProfiles;
  }

  /** Unlinking again right after a local unlink finds nothing to clear
      whenever no parent association covers the repository. */
  lemma LocalUnlinkThenClean(repo: RepoContext, c: GitXConfig, g: GitState, force: bool, confirm: bool,
                             force2: bool, confirm2: bool)
    requires UnlinkLocal(repo, c, g, force, confirm).Unlinked?
    requires forall fp :: fp in c.folderProfiles && ConfigStore.Applies(fp, repo.root.value)
                          ==> fp.path == repo.root.value
    ensures var r := UnlinkLocal(repo, c, g, force, confirm);
            UnlinkLocal(repo, r.store, r.git, force2, confirm2) == AlreadyClean
  {
    var r := UnlinkLocal(repo, c, g, force, confirm);
    LocalUnlinkClears(repo, c, g, force, confirm);
    var root := repo.root.value;
    if Truthy(ConfigStore.GetFolderProfile(c, root)) {
      assert forall fp :: fp in r.store.folderProfiles ==> !ConfigStore.Applies(fp, root);
    } else {
      assert forall fp :: fp in c.folderProfiles ==> !ConfigStore.Applies(fp, root) || fp.path == root;
    }
  }

  /** After a global unlink the global scope reads no identity, so a second
      global unlink finds nothing to clear. */
  lemma GlobalUnlinkThenClean(c: GitXConfig, g: GitState, force: bool, confirm: bool, force2: bool, confirm2: bool)
    requires UnlinkGlobal(c, g, force, confirm).Unlinked?
    ensures var r := UnlinkGlobal(c, g, force, confirm);
            && GitConfig.GetCurrentConfig(r.git, Global) == GitConfig.CurrentConfig(None, None, None)
            && UnlinkGlobal(r.store, r.git, force2, confirm2) == AlreadyClean
  {
    GitConfig.ReadAfterUnset(g, Global);
  }
}
