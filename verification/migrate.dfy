/** `MigrateCommand` (src/commands/migrate.ts): importing the global git
    identity as a gitx profile. Prompt answers are inputs; the SSH set-up
    step (key generation, agent, config file, probes) is I/O, and only the
    key path it yields is an input. */
module Migrate {
  import opened Types
  import opened Strings
  import ConfigStore
  import GitConfig
  import ProfileCommands

  /** A character of a domain label: neither `@` nor `.`. */
  predicate IsDomainChar(c: char) {
    c != '@' && c != '.'
  }

  /** What `split('@')` and `split('.')` pick out of an email: the text
      before the first `@`, and the first dot-label after it. */
  lemma EmailPieces(email: string)
    ensures var parts := Split(email, '@');
            var i := IndexOfChar(email, '@');
            && (i < 0 ==> parts == [email])
            && (i >= 0 ==> |parts| >= 2 && parts[0] == email[..i]
                           && Split(parts[1], '.')[0] == email[i + 1..Span(email, i + 1, IsDomainChar)])
  {
    if IndexOfChar(email, '@') >= 0 {
      AtPieces(email);
    } else {
      SplitRest(email, '@');
    }
  }

  /** With an `@`, the pieces are the text before the first one and the
      `@`-pieces of the text after it. */
  lemma AtPieces(email: string)
    requires IndexOfChar(email, '@') >= 0
    ensures var parts := Split(email, '@');
            var i := IndexOfChar(email, '@');
            && |parts| >= 2 && parts[0] == email[..i]
            && Split(parts[1], '.')[0] == email[i + 1..Span(email, i + 1, IsDomainChar)]
  {
    var i := IndexOfChar(email, '@');
    var parts, rest := Split(email, '@'), Split(email[i + 1..], '@');
    assert parts == [email[..i]] + rest by { SplitRest(email, '@'); }
    assert |parts| >= 2 && parts[0] == email[..i] && parts[1] == rest[0] by {
      ConsParts(email[..i], rest, parts);
    }
    assert Split(rest[0], '.')[0] == email[i + 1..Span(email, i + 1, IsDomainChar)] by {
      DomainLabel(email, i + 1);
    }
  }

  /** The first dot-label of the first `@`-piece of the text from `k` on is
      the run of domain characters at `k`. */
  lemma DomainLabel(email: string, k: nat)
    requires k <= |email|
    ensures Split(Split(email[k..], '@')[0], '.')[0] == email[k..Span(email, k, IsDomainChar)]
  {
    var rest := email[k..];
    var q := Split(rest, '@')[0];
    var d := Split(q, '.')[0];
    FirstPieceMaximal(rest, '@');
    FirstPieceMaximal(q, '.');
    assert email[k..k + |q|] == rest[..|q|];
    assert k + |q| < |email| ==> email[k + |q|] == rest[|q|];
    LabelIsSpan(email, k, q, d);
  }

  /** A separator-free prefix `d` of the `@`-free piece `q` at `k`, ending at
      a `.` or at the end of `q`, is the run of domain characters at `k`. */
  lemma LabelIsSpan(email: string, k: nat, q: string, d: string)
    requires k + |q| <= |email| && email[k..k + |q|] == q && '@' !in q
    requires k + |q| == |email| || email[k + |q|] == '@'
    requires |d| <= |q| && q[..|d|] == d && '.' !in d
    requires |d| == |q| || q[|d|] == '.'
    ensures email[k..Span(email, k, IsDomainChar)] == d
  {
    assert email[k..k + |d|] == d;
    assert '@' !in d by {
      assert forall m :: 0 <= m < |d| ==> d[m] == q[m];
    }
    if |d| < |q| {
      assert email[k + |d|] == q[|d|];
    }
    RunIsSpan(email, k, d);
  }

  /** A run of domain characters at `k` that the text does not continue is
      the span there. */
  lemma RunIsSpan(email: string, k: nat, d: string)
    requires k + |d| <= |email| && email[k..k + |d|] == d
    requires '@' !in d && '.' !in d
    requires k + |d| == |email| || !IsDomainChar(email[k + |d|])
    ensures Span(email, k, IsDomainChar) == k + |d|
  {
    forall m | k <= m < k + |d|
      ensures IsDomainChar(email[m])
    {
      assert email[m] == d[m - k];
    }
    SpanUnique(email, k, k + |d|, IsDomainChar);
  }

  /** `email.split('@')[0]`: the text before the first `@`, or the whole
      email when there is none. */
  function Username(email: string): (u: string)
    ensures var i := IndexOfChar(email, '@');
            (i < 0 ==> u == email) && (i >= 0 ==> u == email[..i])
  {
    EmailPieces(email);
    Split(email, '@')[0]
  }

  /** `email.split('@')[1]?.split('.')[0]`: undefined without an `@`,
      otherwise the run of domain characters right after the first `@`. */
  function Domain(email: string): (d: Option<string>)
    ensures d.None? <==> IndexOfChar(email, '@') < 0
    ensures d.Some? ==>
              var i := IndexOfChar(email, '@');
              0 <= i && d.value == email[i + 1..Span(email, i + 1, IsDomainChar)]
  {
    var parts := Split(email, '@');
    EmailPieces(email);
    if |parts| >= 2 then Some(Split(parts[1], '.')[0]) else None
  }

  /** `suggestProfileName(email)`: the domain's first label when it is
      non-empty and shorter than 10 characters (`work` and `company`, named
      separately, are that short), else the text before the `@`, which is
      the whole email when there is no `@`. */
  function SuggestProfileName(email: string): (r: string)
    ensures var i := IndexOfChar(email, '@');
            i < 0 ==> r == email
    ensures var i := IndexOfChar(email, '@');
            i >= 0 ==>
              var domain := email[i + 1..Span(email, i + 1, IsDomainChar)];
              r == if 0 < |domain| < 10 then domain else email[..i]
  {
    var username := Username(email);
    var domain := Domain(email);
    assert |"work"| < 10 && |"company"| < 10;
    if Truthy(domain) && (domain.value == "work" || domain.value == "company" || |domain.value| < 10)
    then domain.value
    else username
  }

  /** For `user@dom.tld`: the suggestion is `dom` when it is shorter than
      10 characters, else `user`. */
  lemma SuggestForAddress(user: string, dom: string, tld: string)
    requires '@' !in user && |dom| > 0 && '@' !in dom && '.' !in dom
    ensures SuggestProfileName(user + "@" + dom + "." + tld) == if |dom| < 10 then dom else user
  {
    var email := user + "@" + dom + "." + tld;
    var i := |user|;
    assert email[..i] == user;
    IndexOfCharAt(email, '@', i);
    forall m | i + 1 <= m < i + 1 + |dom|
      ensures IsDomainChar(email[m])
    {
      assert email[m] == dom[m - i - 1];
    }
    assert email[i + 1 + |dom|] == '.';
    SpanUnique(email, i + 1, i + 1 + |dom|, IsDomainChar);
    assert email[i + 1..i + 1 + |dom|] == dom;
  }

  datatype MigrateOutcome =
    | NoGlobalIdentity
    | MigrateCancelled
    | Migrated(store: GitXConfig)

  /** The profile `migrate` saves: the global name, email and signing key,
      with the SSH key the set-up step produced or the user picked. */
  function ImportedProfile(cur: GitConfig.CurrentConfig, sshKey: Option<string>): (r: GitProfile)
    requires cur.name.Some? && cur.email.Some?
    ensures r.name == cur.name.value && r.email == cur.email.value && r.signingKey == cur.signingKey
    ensures r.sshKey.Some? <==> Truthy(sshKey)
    ensures r.sshKey.Some? ==> r.sshKey == sshKey
  {
    GitProfile(cur.name.value, cur.email.value, if Truthy(sshKey) then sshKey else None, cur.signingKey)
  }

  /** `execute()`. `profileName` is the validated answer, `overwrite` the
      answer when that profile exists, `sshKey` the key path of the SSH
      step, `setDefault` and `enableAuto` the last two answers. */
  function Execute(c: GitXConfig, g: GitState, profileName: string, overwrite: bool, sshKey: Option<string>,
                   setDefault: bool, repo: RepoContext, enableAuto: bool): (r: MigrateOutcome)
    requires ProfileCommands.ValidProfileName(profileName)
    ensures var cur := GitConfig.GetCurrentConfig(g, Global);
            r == NoGlobalIdentity <==> cur.name.None? || cur.email.None?
    ensures r == MigrateCancelled <==>
              var cur := GitConfig.GetCurrentConfig(g, Global);
              cur.name.Some? && cur.email.Some? && ConfigStore.GetProfile(c, profileName).Some? && !overwrite
    ensures r.Migrated? ==>
              var cur := GitConfig.GetCurrentConfig(g, Global);
              && cur.name.Some? && cur.email.Some?
              && ConfigStore.GetProfile(r.store, profileName) == Some(ImportedProfile(cur, sshKey))
              && (forall m :: m != profileName ==> ConfigStore.GetProfile(r.store, m) == ConfigStore.GetProfile(c, m))
              && r.store.defaultProfile == (if setDefault then Some(profileName) else c.defaultProfile)
              && (repo.isRepo && enableAuto && Truthy(repo.root) ==>
                    && ConfigStore.GetFolderProfile(r.store, repo.root.value) == Some(profileName)
                    && ConfigStore.Reassociates(c.folderProfiles, r.store.folderProfiles, repo.root.value, profileName))
              && (!(repo.isRepo && enableAuto && Truthy(repo.root)) ==>
                    r.store.folderProfiles == c.folderProfiles)
  {
    var cur := GitConfig.GetCurrentConfig(g, Global);
    if cur.name.None? || cur.email.None? then NoGlobalIdentity
    else if ConfigStore.GetProfile(c, profileName).Some? && !overwrite then MigrateCancelled
    else
      var s1 := ConfigStore.AddProfile(c, profileName, ImportedProfile(cur, sshKey));
      var s2 := if setDefault then ConfigStore.SetDefaultProfile(s1, profileName) else s1;
      if repo.isRepo && enableAuto && Truthy(repo.root) then
        ConfigStore.SetThenResolve(s2, repo.root.value, profileName);
        ConfigStore.SetFolderProfileReassociates(s2, repo.root.value, profileName);
        Migrated(ConfigStore.SetFolderProfile(s2, repo.root.value, profileName))
      else Migrated(s2)
  }

  /** The imported profile reproduces the global identity it came from:
      switching the global scope to it reads back the same name and email. */
  lemma ImportRoundTrip(g: GitState, sshKey: Option<string>)
    requires var cur := GitConfig.GetCurrentConfig(g, Global); cur.name.Some? && cur.email.Some?
    ensures var cur := GitConfig.GetCurrentConfig(g, Global);
            var after := GitConfig.GetCurrentConfig(GitConfig.SetConfig(g, ImportedProfile(cur, sshKey), Global), Global);
            after.name == cur.name && after.email == cur.email
  {
    var cur := GitConfig.GetCurrentConfig(g, Global);
    TrimIdempotent(GitConfig.Values(g, Global)[GitConfig.UserName]);
    TrimIdempotent(GitConfig.Values(g, Global)[GitConfig.UserEmail]);
    GitConfig.ReadAfterSet(g, ImportedProfile(cur, sshKey), Global);
  }
}
