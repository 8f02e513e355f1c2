/** `ProfileCommands` (src/commands/profile.ts): the input validators, the
    per-profile folder listing, and what `switch` and `remove` do to the
    store and to git's configuration. Prompts are inputs; an `inquirer`
    `validate` callback becomes a precondition on the answer. */
module ProfileCommands {
  import opened Types
  import opened Strings
  import ConfigStore
  import GitConfig
  import Auto
  import Remote
  import Seqs

  // ---------------------------------------------------------------------
  // validators

  /** A character of the class `[a-zA-Z0-9_-]`. */
  predicate IsNameChar(c: char) {
    IsWordChar(c) || c == '-'
  }

  /** `/^[a-zA-Z0-9_-]+$/.test(s)`. */
  predicate MatchesNamePattern(s: string) {
    |s| > 0 && forall k :: 0 <= k < |s| ==> IsNameChar(s[k])
  }

  /** The profile-name `validate` callback: a blank answer is refused, then
      one outside the pattern. The blank test is subsumed: a name is valid
      exactly when it matches the pattern. */
  predicate ValidProfileName(s: string)
    ensures ValidProfileName(s) <==> MatchesNamePattern(s)
  {
    PatternNotBlank(s);
    !IsBlank(s) && MatchesNamePattern(s)
  }

  /** A string matching the name pattern is not blank. */
  lemma PatternNotBlank(s: string)
    ensures MatchesNamePattern(s) ==> !IsBlank(s)
  {
    BlankIffAllSpace(s);
    if MatchesNamePattern(s) {
      assert !IsSpace(s[0]);
    }
  }

  /** Every valid profile name is one `fix` retargets stably: a second pass
      over a transformed URL changes nothing. */
  lemma ValidNamesRetargetStably(url: string, profileName: string)
    requires ValidProfileName(profileName)
    ensures Remote.TransformUrl(Remote.TransformUrl(url, profileName), profileName)
            == Remote.TransformUrl(url, profileName)
  {
    assert Remote.ClassName(profileName, Remote.WordCharsAndHyphen);
  }

  /** A character of the class `[^\s@]`. */
  predicate IsEmailChar(c: char) {
    !IsSpace(c) && c != '@'
  }

  /** A non-empty run of `[^\s@]`. */
  predicate IsEmailPart(s: string) {
    |s| > 0 && forall k :: 0 <= k < |s| ==> IsEmailChar(s[k])
  }

  /** `/^[^\s@]+@[^\s@]+\.[^\s@]+$/` matches `s`: some way of cutting it
      into the pattern's pieces. */
  ghost predicate EmailShape(s: string) {
    exists i: nat, k: nat ::
      && i < k < |s|
      && s[i] == '@' && s[k] == '.'
      && IsEmailPart(s[..i]) && IsEmailPart(s[i + 1..k]) && IsEmailPart(s[k + 1..])
  }

  /** The email `validate` callback: it accepts exactly the strings the
      pattern matches. */
  predicate ValidEmail(s: string)
    ensures ValidEmail(s) <==> EmailShape(s)
  {
    AcceptsEmailIffShape(s);
    AcceptsEmail(s)
  }

  /** The pattern test computed without backtracking: not blank, exactly one
      `@` with something before it, and after it a `.` that is neither its
      first nor its last character. */
  predicate AcceptsEmail(s: string) {
    && !IsBlank(s)
    && var i := IndexOfChar(s, '@');
       && i > 0
       && IsEmailPart(s[..i])
       && IsEmailPart(s[i + 1..])
       && exists k :: i + 1 < k < |s| - 1 && s[k] == '.'
  }

  /** The backtracking-free test agrees with the pattern on every string. */
  lemma AcceptsEmailIffShape(s: string)
    ensures AcceptsEmail(s) <==> EmailShape(s)
  {
    BlankIffAllSpace(s);
    if AcceptsEmail(s) {
      var i := IndexOfChar(s, '@');
      var k :| i + 1 < k < |s| - 1 && s[k] == '.';
      assert IsEmailPart(s[..i]);
      assert s[i + 1..k] == s[i + 1..][..k - i - 1];
      assert s[k + 1..] == s[i + 1..][k - i..];
      assert IsEmailPart(s[i + 1..k]) && IsEmailPart(s[k + 1..]);
    }
    if EmailShape(s) {
      var i: nat, k: nat :|
        && i < k < |s| && s[i] == '@' && s[k] == '.'
        && IsEmailPart(s[..i]) && IsEmailPart(s[i + 1..k]) && IsEmailPart(s[k + 1..]);
      EmailShapeParts(s, i, k);
    }
  }

  /** A cut that matches the pattern puts the one `@` at `i` and leaves no
      white space anywhere. */
  lemma EmailShapeParts(s: string, i: nat, k: nat)
    requires i < k < |s| && s[i] == '@' && s[k] == '.'
    requires IsEmailPart(s[..i]) && IsEmailPart(s[i + 1..k]) && IsEmailPart(s[k + 1..])
    ensures AcceptsEmail(s)
  {
    assert s[..i] == s[..i];
    IndexOfCharAt(s, '@', i);
    assert s[i + 1..] == s[i + 1..k] + "." + s[k + 1..];
    EmailPartsJoin(s[i + 1..k], s[k + 1..]);
    assert !IsBlank(s) by {
      BlankIffAllSpace(s);
    }
    assert i + 1 < k < |s| - 1;
  }

  /** Two runs of `[^\s@]` joined by a `.` form one run. */
  lemma EmailPartsJoin(a: string, b: string)
    requires IsEmailPart(a) && IsEmailPart(b)
    ensures IsEmailPart(a + "." + b)
  {
    var t := a + "." + b;
    forall m | 0 <= m < |t|
      ensures IsEmailChar(t[m])
    {
      if m < |a| {
        assert t[m] == a[m];
      } else if m > |a| {
        assert t[m] == b[m - |a| - 1];
      }
    }
  }

  // ---------------------------------------------------------------------
  // list

  /** The folders `list` shows under profile `name`: the paths of its
      associations, in stored order. */
  function FoldersOf(fps: seq<FolderProfile>, name: string): (r: seq<string>)
    ensures |r| <= |fps|
    ensures forall p :: p in r <==> FolderProfile(p, name) in fps
    ensures (forall j :: 0 <= j < |fps| ==> fps[j].profile != name) ==> r == []
  {
    if |fps| == 0 then []
    else
      var rest := FoldersOf(fps[1..], name);
      assert forall fp :: fp in fps <==> fp == fps[0] || fp in fps[1..];
      if fps[0].profile == name then [fps[0].path] + rest else rest
  }

  /** The listing follows the stored order: an association appended last is
      listed last. */
  lemma {:induction false} FoldersOfAppend(fps: seq<FolderProfile>, fp: FolderProfile, name: string)
    ensures FoldersOf(fps + [fp], name)
            == FoldersOf(fps, name) + if fp.profile == name then [fp.path] else []
  {
    if |fps| > 0 {
      assert (fps + [fp])[1..] == fps[1..] + [fp];
      FoldersOfAppend(fps[1..], fp, name);
    }
  }

  /** After `setFolderProfile(p, n)`, `p` is the last folder listed for `n`
      and is listed under no other profile. */
  lemma SetFolderProfileListing(c: GitXConfig, p: string, n: string, other: string)
    requires other != n
    ensures var fps := ConfigStore.SetFolderProfile(c, p, n).folderProfiles;
            var listed := FoldersOf(fps, n);
            && |listed| > 0 && listed[|listed| - 1] == p
            && p !in FoldersOf(fps, other)
  {
    var fps := ConfigStore.SetFolderProfile(c, p, n).folderProfiles;
    var init := fps[..|fps| - 1];
    assert fps == init + [FolderProfile(p, n)];
    FoldersOfAppend(init, FolderProfile(p, n), n);
  }

  // ---------------------------------------------------------------------
  // switch

  datatype SwitchOutcome =
    | SwitchNotFound
    | SwitchNotARepo
    | Switched(store: GitXConfig, git: GitState)

  /** `switch(profileName, {global})`. With `--global` the profile is written
      to the global scope and becomes the default; otherwise, inside a
      repository, it is written to the local scope and, when `enableAuto` is
      confirmed, the root gets an association of its own. */
  function Switch(c: GitXConfig, g: GitState, profileName: string, global: bool, repo: RepoContext,
                  enableAuto: bool): (r: SwitchOutcome)
    ensures r == SwitchNotFound <==> ConfigStore.GetProfile(c, profileName).None?
    ensures r == SwitchNotARepo <==> ConfigStore.GetProfile(c, profileName).Some? && !global && !repo.isRepo
    ensures r.Switched? && global ==>
              && r.git == GitConfig.SetConfig(g, ConfigStore.GetProfile(c, profileName).value, Global)
              && r.store.defaultProfile == Some(profileName)
              && r.store.profiles == c.profiles && r.store.folderProfiles == c.folderProfiles
    ensures r.Switched? && !global ==>
              && r.git == GitConfig.SetConfig(g, ConfigStore.GetProfile(c, profileName).value, Local)
              && r.store.profiles == c.profiles && r.store.defaultProfile == c.defaultProfile
              && (enableAuto && Truthy(repo.root) ==>
                    && ConfigStore.GetFolderProfile(r.store, repo.root.value) == Some(profileName)
                    && ConfigStore.Reassociates(c.folderProfiles, r.store.folderProfiles, repo.root.value, profileName))
              && (!(enableAuto && Truthy(repo.root)) ==> r.store == c)
  {
    var profile := ConfigStore.GetProfile(c, profileName);
    if profile.None? then SwitchNotFound
    else if global then
      Switched(ConfigStore.SetDefaultProfile(c, profileName), GitConfig.SetConfig(g, profile.value, Global))
    else if !repo.isRepo then SwitchNotARepo
    else
      var g' := GitConfig.SetConfig(g, profile.value, Local);
      if enableAuto && Truthy(repo.root) then
        ConfigStore.SetThenResolve(c, repo.root.value, profileName);
        ConfigStore.SetFolderProfileReassociates(c, repo.root.value, profileName);
        Switched(ConfigStore.SetFolderProfile(c, repo.root.value, profileName), g')
      else Switched(c, g')
  }

  /** After a local switch with auto mode enabled, applying the associated
      profile finds it already applied (for a profile whose name and email
      carry no surrounding white space): `switch` and `applyProfile` agree. */
  lemma SwitchThenApplyIsNoop(c: GitXConfig, g: GitState, profileName: string, repo: RepoContext)
    requires profileName != "" && repo.isRepo && Truthy(repo.root)
    requires var p := ConfigStore.GetProfile(c, profileName);
             p.Some? && p.value.name != "" && Trim(p.value.name) == p.value.name
             && p.value.email != "" && Trim(p.value.email) == p.value.email
    ensures var r := Switch(c, g, profileName, false, repo, true);
            r.Switched? && !Auto.ApplyProfile(repo, r.store, r.git).applied
  {
    var p := ConfigStore.GetProfile(c, profileName).value;
    var s := ConfigStore.SetFolderProfile(c, repo.root.value, profileName);
    var g' := GitConfig.SetConfig(g, p, Local);
    assert Switch(c, g, profileName, false, repo, true) == Switched(s, g');
    ConfigStore.SetThenResolve(c, repo.root.value, profileName);
    assert ConfigStore.GetProfile(s, profileName) == Some(p);
    assert Auto.AssociatedProfile(repo, s) == Some(p);
    GitConfig.ReadAfterSet(g, p, Local);
    assert Auto.AlreadyApplied(g', p);
  }

  // ---------------------------------------------------------------------
  // remove

  datatype RemoveOutcome = RemoveNotFound | RemoveCancelled | Removed(store: GitXConfig)

  /** `remove(profileName)`: a missing profile is an error; otherwise the
      profile, its associations and, if it was the default, the default are
      dropped once the user confirms. */
  function Remove(c: GitXConfig, profileName: string, confirm: bool): (r: RemoveOutcome)
    ensures r == RemoveNotFound <==> ConfigStore.GetProfile(c, profileName).None?
    ensures r == RemoveCancelled <==> ConfigStore.GetProfile(c, profileName).Some? && !confirm
    ensures r.Removed? ==>
              && ConfigStore.GetProfile(r.store, profileName).None?
              && (forall m :: m != profileName ==> ConfigStore.GetProfile(r.store, m) == ConfigStore.GetProfile(c, m))
              && (forall fp :: fp in r.store.folderProfiles <==> fp in c.folderProfiles && fp.profile != profileName)
              && r.store.defaultProfile == if c.defaultProfile == Some(profileName) then None else c.defaultProfile
  {
    if ConfigStore.GetProfile(c, profileName).None? then RemoveNotFound
    else if !confirm then RemoveCancelled
    else Removed(ConfigStore.RemoveProfile(c, profileName))
  }

  /** After a removal the listing shows no folder for the removed profile,
      and every other profile keeps its folders in order. */
  lemma RemoveClearsListing(c: GitXConfig, profileName: string, other: string)
    requires Remove(c, profileName, true).Removed?
    requires other != profileName
    ensures var s := Remove(c, profileName, true).store;
            FoldersOf(s.folderProfiles, profileName) == []
            && FoldersOf(s.folderProfiles, other) == FoldersOf(c.folderProfiles, other)
  {
    var s := Remove(c, profileName, true).store;
    assert forall j :: 0 <= j < |s.folderProfiles| ==> s.folderProfiles[j] in s.folderProfiles;
    FoldersOfFilter(c.folderProfiles, (fp: FolderProfile) => fp.profile != profileName, other);
  }

  /** Dropping associations of other profiles does not change what is
      listed for `name`. */
  lemma {:induction false} FoldersOfFilter(fps: seq<FolderProfile>, keep: FolderProfile -> bool, name: string)
    requires forall fp: FolderProfile :: fp.profile == name ==> keep(fp)
    ensures FoldersOf(Seqs.Filter(fps, keep), name) == FoldersOf(fps, name)
  {
    if |fps| > 0 {
      FoldersOfFilter(fps[1..], keep, name);
      var rest := Seqs.Filter(fps[1..], keep);
      if keep(fps[0]) {
        assert Seqs.Filter(fps, keep) == [fps[0]] + rest;
        assert ([fps[0]] + rest)[1..] == rest;
      } else {
        assert Seqs.Filter(fps, keep) == rest;
      }
    }
  }
}
