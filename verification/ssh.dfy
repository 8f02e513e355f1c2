/** `SSHManager` (src/ssh.ts): key file naming, the `~/.ssh/config` text
    edit that declares the per-profile host aliases, the alias `ssh -T`
    probes, and how a probe's output is judged. Key generation, the agent and
    file access are I/O and are left out; the config file's text is a
    parameter and the edit's result is returned. */
module Ssh {
  import opened Types
  import opened Strings
  import GitConfig

  /** `join(sshDir, 'id_ed25519_' + profileName)`; `sshDir` is `~/.ssh`,
      taken to be a normalised POSIX path without a trailing `/`, so the
      join is a plain concatenation with one `/`. */
  function KeyPath(sshDir: string, profileName: string): (r: string)
    ensures |r| == |sshDir| + 12 + |profileName|
    ensures r[..|sshDir| + 12] == sshDir + "/id_ed25519_"
    ensures r[|sshDir| + 12..] == profileName
  {
    sshDir + "/id_ed25519_" + profileName
  }

  function PublicKeyPath(sshDir: string, profileName: string): (r: string)
    ensures |r| == |KeyPath(sshDir, profileName)| + 4
    ensures r[..|r| - 4] == KeyPath(sshDir, profileName) && r[|r| - 4..] == ".pub"
  {
    KeyPath(sshDir, profileName) + ".pub"
  }

  /** Different profiles get different key files. */
  lemma KeyPathInjective(sshDir: string, p: string, q: string)
    requires KeyPath(sshDir, p) == KeyPath(sshDir, q)
    ensures p == q
  {
    assert p == KeyPath(sshDir, p)[|sshDir| + 12..];
  }

  /** A public key file is never another profile's private key file as long
      as profile names have no '.' (the name validators rule it out). */
  lemma PublicKeyNotPrivate(sshDir: string, p: string, q: string)
    requires '.' !in q
    ensures PublicKeyPath(sshDir, p) != KeyPath(sshDir, q)
  {
    var pub := PublicKeyPath(sshDir, p);
    var k := KeyPath(sshDir, q);
    if |pub| == |k| {
      assert k[|k| - 4] == q[|q| - 4];
      assert pub[|pub| - 4] == '.';
    }
  }

  // ---------------------------------------------------------------------
  // ~/.ssh/config

  /** The host alias the tool declares for a profile on GitHub or GitLab. */
  function GithubAlias(profileName: string): string {
    "github.com-" + profileName
  }

  function GitlabAlias(profileName: string): string {
    "gitlab.com-" + profileName
  }

  function HostDecl(alias: string): string {
    "Host " + alias
  }

  /** The text whose presence makes `configureSSHConfig` skip a profile. */
  function SkipMarker(profileName: string): string {
    HostDecl(GithubAlias(profileName))
  }

  /** The `Host` line of a stanza, with the line breaks around it. */
  function HostLine(alias: string): string {
    "\n" + HostDecl(alias) + "\n"
  }

  /** A `Host` stanza routing `alias` to `hostName` as user git with one key. */
  function Stanza(alias: string, hostName: string, keyPath: string): string {
    HostLine(alias) + StanzaBody(hostName, keyPath)
  }

  function StanzaBody(hostName: string, keyPath: string): string {
    "  HostName " + hostName + "\n  User git\n  IdentityFile " + keyPath + "\n"
  }

  /** The GitHub block: a comment line, then the stanza routing the GitHub
      alias to github.com with the profile's key. */
  function GithubBlock(profileName: string, keyPath: string): (r: string)
    ensures Contains(r, Stanza(GithubAlias(profileName), "github.com", keyPath))
  {
    var head, stanza, tail := "\n# " + profileName + " - GitHub",
                              Stanza(GithubAlias(profileName), "github.com", keyPath), "  IdentitiesOnly yes\n\n";
    OccursInMiddle(head, stanza, tail);
    head + stanza + tail
  }

  /** The GitLab block, the same for the GitLab alias and gitlab.com. */
  function GitlabBlock(profileName: string, keyPath: string): (r: string)
    ensures Contains(r, Stanza(GitlabAlias(profileName), "gitlab.com", keyPath))
  {
    var head, stanza, tail := "# " + profileName + " - GitLab",
                              Stanza(GitlabAlias(profileName), "gitlab.com", keyPath), "  IdentitiesOnly yes\n\n";
    OccursInMiddle(head, stanza, tail);
    head + stanza + tail
  }

  /** What `configureSSHConfig` does to the file: nothing, or write new text. */
  datatype ConfigEdit = NoWrite | Write(text: string)

  /** The config text as read: an unreadable or missing file reads as ''. */
  function ConfigText(existing: Option<string>): string {
    if existing.Some? then existing.value else ""
  }

  function TextAfter(existing: Option<string>, e: ConfigEdit): string {
    if e.Write? then e.text else ConfigText(existing)
  }

  /** `configureSSHConfig(profileName, keyPath)`: skipped when the text
      already contains `Host github.com-<profile>` anywhere; otherwise the
      prior text is kept and the GitHub and GitLab blocks are appended. */
  function ConfigureSshConfig(existing: Option<string>, profileName: string, keyPath: string)
    : (r: ConfigEdit)
    ensures r.NoWrite? <==> Contains(ConfigText(existing), SkipMarker(profileName))
    ensures r.Write? ==> ConfigText(existing) < r.text
  {
    var prior := ConfigText(existing);
    if Contains(prior, SkipMarker(profileName)) then NoWrite
    else Write(prior + GithubBlock(profileName, keyPath) + GitlabBlock(profileName, keyPath))
  }

  /** `Host <alias>` stands on a line of its own in the text. */
  predicate DeclaresHost(text: string, alias: string) {
    Contains(text, HostLine(alias))
  }

  /** After a write, the file holds a stanza for each alias that routes it
      to the real host with the profile's key. */
  lemma ConfiguredAliases(existing: Option<string>, profileName: string, keyPath: string)
    requires ConfigureSshConfig(existing, profileName, keyPath).Write?
    ensures var text := ConfigureSshConfig(existing, profileName, keyPath).text;
            && Contains(text, Stanza(GithubAlias(profileName), "github.com", keyPath))
            && Contains(text, Stanza(GitlabAlias(profileName), "gitlab.com", keyPath))
            && DeclaresHost(text, GithubAlias(profileName))
            && DeclaresHost(text, GitlabAlias(profileName))
  {
    var text := ConfigureSshConfig(existing, profileName, keyPath).text;
    var prior := ConfigText(existing);
    var gb := GithubBlock(profileName, keyPath);
    var lb := GitlabBlock(profileName, keyPath);
    var gh := Stanza(GithubAlias(profileName), "github.com", keyPath);
    var gl := Stanza(GitlabAlias(profileName), "gitlab.com", keyPath);
    assert text == prior + gb + lb;
    assert Contains(text, gh) by {
      ContainsInConcat(prior, gb, lb, gh);
    }
    assert Contains(text, gl) by {
      ContainsInConcat(prior + gb, lb, "", gl);
      assert prior + gb + lb + "" == text;
    }
    assert DeclaresHost(text, GithubAlias(profileName)) by {
      ContainsPrefixOfMatch(text, HostLine(GithubAlias(profileName)), StanzaBody("github.com", keyPath));
    }
    assert DeclaresHost(text, GitlabAlias(profileName)) by {
      ContainsPrefixOfMatch(text, HostLine(GitlabAlias(profileName)), StanzaBody("gitlab.com", keyPath));
    }
  }

  /** Configuring the same profile twice writes once: the second call finds
      the marker the first one wrote. */
  lemma ConfigureIdempotent(existing: Option<string>, profileName: string, keyPath: string, keyPath2: string)
    ensures var e := ConfigureSshConfig(existing, profileName, keyPath);
            ConfigureSshConfig(Some(TextAfter(existing, e)), profileName, keyPath2).NoWrite?
  {
    var e := ConfigureSshConfig(existing, profileName, keyPath);
    var m := SkipMarker(profileName);
    if e.Write? {
      ConfiguredAliases(existing, profileName, keyPath);
      assert Contains(e.text, m) by {
        ContainsPrefixOfMatch(e.text, "\n" + m, "\n");
        ContainsSuffixOfMatch(e.text, "\n", m);
      }
    }
  }

  /** The skip test is a substring test: a config whose only alias is for a
      longer profile name, such as `work2`, makes the tool skip `work`, though
      no `work` alias is declared. */
  lemma SkipMarkerIsSubstring(profileName: string, extra: string)
    requires |extra| > 0 && '\n' !in profileName + extra
    ensures var existing := SkipMarker(profileName) + extra;
            && ConfigureSshConfig(Some(existing), profileName, "/k").NoWrite?
            && !DeclaresHost(existing, GithubAlias(profileName))
  {
    var existing := SkipMarker(profileName) + extra;
    assert Contains(existing, SkipMarker(profileName)) by {
      OccursInMiddle([], SkipMarker(profileName), extra);
      assert [] + SkipMarker(profileName) + extra == existing;
    }
    assert !DeclaresHost(existing, GithubAlias(profileName)) by {
      assert '\n' !in existing by {
        assert existing == "Host github.com-" + (profileName + extra);
      }
      MissingCharNotContained(existing, HostLine(GithubAlias(profileName)), '\n');
    }
  }

  // ---------------------------------------------------------------------
  // connection probe

  /** The host `testConnection` probes: for a host containing `.com`, the
      text before its first `.com`, then `.com-`, then the profile name. */
  function TestAlias(host: string, profileName: string): (r: string)
    ensures !Contains(host, ".com") ==> r == host
    ensures Contains(host, ".com") ==>
              && |r| >= |profileName| + 5
              && r[|r| - |profileName| - 5..] == ".com-" + profileName
              && var pre := r[..|r| - |profileName| - 5];
                 OccursAt(host, ".com", |pre|) && host[..|pre|] == pre
                 && forall j: nat :: j < |pre| ==> !OccursAt(host, ".com", j)
  {
    var i := IndexOf(host, ".com");
    if i < 0 then host
    else
      var r := host[..i] + ".com-" + profileName;
      assert r[..|r| - |profileName| - 5] == host[..i];
      r
  }

  /** For the two supported hosts the probe uses exactly the aliases the
      config declares. */
  lemma TestAliasMatchesConfig(profileName: string)
    ensures TestAlias("github.com", profileName) == GithubAlias(profileName)
    ensures TestAlias("gitlab.com", profileName) == GitlabAlias(profileName)
  {
    assert "github" + ".com" == "github.com" && "github" + ".com-" == "github.com-";
    assert "gitlab" + ".com" == "gitlab.com" && "gitlab" + ".com-" == "gitlab.com-";
    TestAliasOf("github", profileName);
    TestAliasOf("gitlab", profileName);
  }

  /** For a host `<name>.com` with no `.` in the name, the probed alias is
      the host followed by `-` and the profile name. */
  lemma TestAliasOf(name: string, profileName: string)
    requires name == "github" || name == "gitlab"
    ensures TestAlias(name + ".com", profileName) == name + ".com-" + profileName
  {
    var host := name + ".com";
    assert name + ".com" + "" == host;
    FirstOccurrenceAfter(name, ".com", "");
    assert host[..|name|] == name;
    assert name + ".com-" + profileName == host[..|name|] + ".com-" + profileName;
  }

  /** `testConnection`'s verdict: on a zero exit the banner may be on either
      stream; on a failing exit only stderr is inspected. */
  function TestConnection(probe: ProbeOutcome): (r: bool)
    ensures r ==> Contains(probe.stdout, AuthBanner) || Contains(probe.stderr, AuthBanner)
    ensures Contains(probe.stderr, AuthBanner) ==> r
    ensures probe.exitedOk && Contains(probe.stdout, AuthBanner) ==> r
    ensures !probe.exitedOk && !Contains(probe.stderr, AuthBanner) ==> !r
  {
    if probe.exitedOk then Contains(probe.stdout, AuthBanner) || Contains(probe.stderr, AuthBanner)
    else Contains(probe.stderr, AuthBanner)
  }

  /** `testConnection` is stricter than `checkSSHConnection` in git.ts: every
      probe it accepts the other accepts, but a zero exit without the banner
      only the other accepts. */
  lemma TestConnectionStricter(probe: ProbeOutcome)
    ensures TestConnection(probe) ==> GitConfig.CheckSshConnection(probe)
    ensures probe.exitedOk && !Contains(probe.stdout, AuthBanner) && !Contains(probe.stderr, AuthBanner)
            ==> !TestConnection(probe) && GitConfig.CheckSshConnection(probe)
  {
  }

  // ---------------------------------------------------------------------
  // `ssh-add -l`

  /** The key name `listKeys` takes from one line: the last piece of its
      split on spaces. */
  function KeyOfLine(line: string): (r: string)
    ensures IsEndPiece(line, ' ', r)
  {
    var parts := Split(line, ' ');
    LastPieceIsPop(line, ' ');
    LastPieceIsSuffix(line, ' ');
    parts[|parts| - 1]
  }

  /** `listKeys`: the key name of each non-blank line of `ssh-add -l`; no
      keys when the command fails. */
  function ListKeys(out: Option<string>): (r: seq<string>)
    ensures out.None? ==> r == []
    ensures out.Some? ==> |r| == |GitConfig.NonBlankLines(out.value)|
    ensures out.Some? ==> forall i :: 0 <= i < |r| ==> IsEndPiece(GitConfig.NonBlankLines(out.value)[i], ' ', r[i])
  {
    match out
    case None => []
    case Some(text) =>
      var lines := GitConfig.NonBlankLines(text);
      seq(|lines|, i requires 0 <= i < |lines| => KeyOfLine(lines[i]))
  }

  /** `listKeys` and `listSSHKeys` in git.ts parse the agent's listing the
      same way. */
  lemma ListKeysAgrees(out: Option<string>)
    ensures ListKeys(out) == GitConfig.ListSshKeys(out)
  {
    if out.Some? {
      var lines := GitConfig.NonBlankLines(out.value);
      var a, b := ListKeys(out), GitConfig.ListSshKeys(out);
      forall i | 0 <= i < |lines|
        ensures a[i] == b[i]
      {
        EndPieceUnique(lines[i], ' ', a[i], b[i]);
      }
    }
  }
}
