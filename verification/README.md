# gitx in Dafny

gitx is a command-line tool that keeps several git identities apart. Each
identity is a *profile*: a name, an email, and optionally an SSH key and a
signing key. The tool keeps the profiles in a store, together with
*folder associations*. A folder association binds a directory prefix to a
profile, so repositories under that directory get that identity. Remote
URLs are routed through per-profile SSH host aliases such as
`github.com-work`.

This project models the tool's core as pure functions over immutable
values:

- **`ConfigStore`** (`src/config.ts`): the profile and association store.
  The profiles are an ordered association list with distinct keys. It
  covers `load`, `addProfile`, `removeProfile`, `setFolderProfile`,
  `removeFolderProfile` and `setDefaultProfile`. It also covers folder
  resolution in `getFolderProfile`: the longest association path that is a
  character prefix of the query wins, and ties go to the earliest entry.
- **`GitConfig`** (`src/git.ts`): git's configuration as one key/value map
  per scope, local and global. It covers `getCurrentConfig` (trimmed
  reads, with blank values read as absent), `setConfig`, `unsetConfig`,
  and the output parsing of `listSSHKeys` and `checkSSHConnection`.
- **`Ssh`** (`src/ssh.ts`): key file naming, the `~/.ssh/config` text that
  `configureSSHConfig` writes, the host that `testConnection` probes and
  its success test, and `listKeys`.
- **`Remote`** (`src/commands/remote.ts`): `transformURL`, the
  `git remote -v` push-line parser, the set of remotes `fix` rewrites,
  and the decisions behind `add` and `clone`.
- **`Auto`**, **`Unlink`**, **`ProfileCommands`**, **`Migrate`**
  (`src/commands/*.ts`): the command flows. Each is a function from the
  store, the git configuration and the answers to prompts to an outcome.
  The outcome carries the new store and git state.
- **`Strings`**, **`Seqs`**, **`Types`**: the JavaScript string and array
  operations the source relies on, and the records of `src/types.ts`.

The two defects listed under "## Findings" are modelled both ways. The
command flows of `Remote` (`fix`, `add`, `clone`) take a `Variant`.
`AsWritten` runs the code as it stands: the suffix regex uses `\w+`, and
`clone` strips the first `.git` anywhere in the last URL piece. `Corrected`
runs the evidently intended program. Every contract of these flows holds
for both variants, and the lemmas say where the two differ.

Where the tool's documented URL rules and the code differ, the model
follows the code. The documentation describes the https rule as applying
to `https://github.com/<rest>`. The code applies it to any `https://` URL
that mentions `github.com` anywhere. Such a URL keeps its whole text as the
path when the literal `https://github.com/` is absent
(`Remote.HttpsGithubElsewhere`).

## Model

| member | source | states |
|---|---|---|
| ConfigStore.Load | src/config.ts:20-34 | the cached document when there is one; otherwise the parsed file; a missing or unparseable file gives the document with no profiles, no associations and no default |
| ConfigStore.Lookup | src/config.ts:58-61 | `profiles[name]` is present exactly when `name` is a stored key, and then holds that key's profile |
| ConfigStore.GetProfile | src/config.ts:58-61 | `getProfile` returns a profile exactly when the name is a stored key, and then the one stored under it |
| ConfigStore.Put | src/config.ts:44 | after `profiles[name] = p` the entries are the new one plus every old entry under another key |
| ConfigStore.PutKeepsNames | src/config.ts:44 | replacing a profile keeps the key order; a new name is appended last |
| ConfigStore.PutLookup | src/config.ts:44 | after the assignment `name` maps to `p` and every other name maps to what it did before |
| ConfigStore.FilterKeepsDistinct | src/config.ts:51 | keeping some entries of the profile map keeps its keys distinct |
| ConfigStore.Delete | src/config.ts:50 | `delete profiles[name]` keeps exactly the entries under other keys |
| ConfigStore.DeleteLookup | src/config.ts:50 | after the delete `name` is absent and every other name is unchanged |
| ConfigStore.DeleteKeepsOrder | src/config.ts:50 | the remaining profiles keep their relative order |
| ConfigStore.AddProfile | src/config.ts:42-46 | `addProfile` stores the profile under its name; the other profiles, the associations and the default are unchanged |
| ConfigStore.RemoveProfile | src/config.ts:48-56 | the profile is gone, the other profiles are unchanged, exactly the associations naming it are dropped, and the default is cleared exactly when it was that name |
| ConfigStore.RemoveProfileKeepsOrder | src/config.ts:51 | the associations that `removeProfile` keeps stay in their relative order |
| ConfigStore.ScanFrom | src/config.ts:86-91 | the resolution loop keeps, as its invariant, the best match among the entries scanned so far |
| ConfigStore.BestMatch | src/config.ts:83-93 | no match exactly when no association applies; otherwise the entry with the longest applying path, the earliest among equals (strict `>`) |
| ConfigStore.BestMatchUnique | src/config.ts:86-91 | at most one entry satisfies the resolution rule |
| ConfigStore.GetFolderProfile | src/config.ts:79-94 | `getFolderProfile` is undefined exactly when no non-empty association path is a prefix of the query; otherwise it is the profile of the best match |
| ConfigStore.WithoutPath | src/config.ts:72 | the filter keeps exactly the associations whose path differs from `p` |
| ConfigStore.SetFolderProfile | src/config.ts:68-77 | exactly one association has path `p`: it is the last one and holds `n`; before it come exactly the old associations for other paths; profiles and default are unchanged |
| ConfigStore.SetFolderProfileKeepsOrder | src/config.ts:72 | the old associations kept by `setFolderProfile` keep their relative order |
| ConfigStore.SetFolderProfileReassociates | src/config.ts:68-77 | after `setFolderProfile(p, n)` the associations are exactly the old ones for other paths plus `p` with `n` |
| ConfigStore.SetThenResolve | src/config.ts:68-93 | for a non-empty path, resolving the path just set gives the profile just set |
| ConfigStore.SetFolderProfileTwice | src/config.ts:68-77 | setting the same path twice leaves one association for it, the last one, holding the later profile |
| ConfigStore.RemoveFolderProfile | src/config.ts:96-100 | only the associations whose path equals `p` exactly are dropped; profiles and default are unchanged |
| ConfigStore.RemoveKeepsInherited | src/config.ts:96-100 | removal is by exact path, so a folder under an associated parent still resolves to a profile afterwards |
| ConfigStore.SetDefaultProfile | src/config.ts:102-111 | the default becomes `n`, with no check that such a profile exists; profiles and associations are unchanged |
| ConfigStore.ResolvesToBest | src/config.ts:86-93 | the entry that the resolution rule picks is the one `getFolderProfile` returns |
| ConfigStore.PrefixNotSegment | src/config.ts:87 | resolution compares character prefixes, not path segments: `/a/work` also claims `/a/work2` |
| ConfigStore.NestedDeep | src/config.ts:86-93 | with `/r` and `/r/sub` associated, `/r/sub/deep` resolves to the deeper association |
| ConfigStore.NestedSibling | src/config.ts:86-93 | with `/r` and `/r/sub` associated, `/r/other` resolves to the shallower one, since `/r/sub` is not a prefix of it |
| ConfigStore.NestedOutside | src/config.ts:86-93 | with `/r` and `/r/sub` associated, `/x` resolves to neither |
| GitConfig.WithValues | src/git.ts:9 | writing one scope's map leaves the other scope alone |
| GitConfig.ReadValue | src/git.ts:17-19 | a missing or white-space-only value reads as undefined; any other value reads trimmed and non-empty |
| GitConfig.CurrentConfigReads | src/git.ts:12-20 | `getCurrentConfig` reads the name, the email and the signing key of the scope this way: trimmed, and undefined when missing or blank |
| GitConfig.SetConfig | src/git.ts:26-36 | name and email are always written; the signing key and `commit.gpgsign = true` are written only for a truthy signing key, so otherwise a stale key survives; no other key and not the other scope changes |
| GitConfig.UnsetConfig | src/git.ts:38-56 | all four identity keys are absent afterwards, whether or not they were present; nothing else changes |
| GitConfig.UnsetIdempotent | src/git.ts:38-56 | unsetting twice is unsetting once |
| GitConfig.ReadAfterUnset | src/git.ts:38-56 | after an unset the scope reads as having no name, email or signing key |
| GitConfig.ReadAfterSet | src/git.ts:16-19 | after a write, a non-empty, already trimmed name and email read back unchanged |
| GitConfig.NonBlankLines | src/git.ts:90-91 | the kept lines are exactly the non-blank lines of the output, each as often as it occurs there and in the same order; none contains a line break |
| Strings.EndPieceUnique | src/git.ts:92 | a line has only one separator-free piece that ends it and is the whole line or follows a separator |
| GitConfig.ListSshKeys | src/git.ts:87-96 | one entry per non-blank line of `ssh-add -l`, namely that line's last space-separated token; no entries when the command fails |
| GitConfig.LastTokens | src/git.ts:92 | each line maps to its last token, in order |
| GitConfig.CheckSshConnection | src/git.ts:76-85 | a zero exit counts as connected; a failing exit counts only when stdout or stderr reports a successful authentication |
| Ssh.KeyPath | src/ssh.ts:37 | the key path is `<sshDir>/id_ed25519_<profile>` |
| Ssh.PublicKeyPath | src/ssh.ts:38 | the public key path is the key path followed by `.pub` |
| Ssh.KeyPathInjective | src/ssh.ts:37 | different profiles get different key files |
| Ssh.PublicKeyNotPrivate | src/ssh.ts:37-38 | a public key file is never another profile's private key file when the profile name has no dot |
| Ssh.ConfigureSshConfig | src/ssh.ts:121-169 | the file is left alone exactly when its text contains `Host github.com-<profile>`; otherwise the old text is a proper prefix of the new one |
| Ssh.GithubBlock | src/ssh.ts:141-149 | the GitHub block holds the stanza routing `github.com-<profile>` to github.com as user git with the profile's key |
| Ssh.GitlabBlock | src/ssh.ts:152-159 | the GitLab block holds the stanza routing `gitlab.com-<profile>` to gitlab.com as user git with the profile's key |
| Ssh.ConfiguredAliases | src/ssh.ts:141-162 | after a write, the file holds both stanzas and declares both aliases on lines of their own |
| Ssh.ConfigureIdempotent | src/ssh.ts:135-162 | configuring the same profile twice writes once: the second call finds the marker the first one wrote |
| Ssh.SkipMarkerIsSubstring | src/ssh.ts:135 | the skip test is a substring test: an alias for a longer name such as `work2` suppresses configuration for `work`, though no `work` alias is declared |
| Ssh.TestAlias | src/ssh.ts:196 | for a host containing `.com`, the probed host is the text before the first `.com`, then `.com-`, then the profile name; any other host is probed as given |
| Ssh.TestAliasMatchesConfig | src/ssh.ts:196 | for github.com and gitlab.com the probe uses exactly the aliases the SSH configuration declares |
| Ssh.TestConnection | src/ssh.ts:192-216 | success requires the authentication banner; on a zero exit it may be in either stream, on a failing exit only in stderr |
| Ssh.TestConnectionStricter | src/ssh.ts:199-210 | every probe `testConnection` accepts, `checkSSHConnection` accepts too, but a silent zero exit is accepted only by the latter |
| Ssh.KeyOfLine | src/ssh.ts:224-225 | the key taken from a line is its last space-separated token |
| Ssh.ListKeys | src/ssh.ts:218-230 | one key per non-blank line, in order, each the last space-separated token of its line; none when `ssh-add -l` fails |
| Ssh.ListKeysAgrees | src/ssh.ts:218-230 | `listKeys` and `listSSHKeys` parse the agent's listing identically |
| Strings.IndexOf | src/ssh.ts:196 | `indexOf`: -1 when there is no occurrence, otherwise the first occurrence |
| Strings.IndexOfChar | src/commands/migrate.ts:203-204 | the first index of the character, or -1 when it does not occur |
| Strings.ReplaceFirst | src/commands/remote.ts:247 | `replace` with a string pattern changes nothing when the pattern is absent; otherwise it replaces the first occurrence with the replacement and keeps the text before and after it |
| Strings.ReplacePrefix | src/commands/remote.ts:237 | replacing a pattern the string starts with rewrites exactly that prefix |
| Strings.Span | src/commands/remote.ts:100 | the end of the maximal run of characters of one class, as a greedy regex quantifier consumes it |
| Strings.Trim | src/git.ts:17-19 | `trim()` removes the leading and trailing white space and nothing else |
| Strings.TrimIdempotent | src/git.ts:17-19 | trimming twice is trimming once |
| Strings.BlankIffAllSpace | src/git.ts:91 | `!s.trim()` holds exactly when every character is white space |
| Strings.Split | src/commands/migrate.ts:203-204 | `split` on one character gives separator-free pieces that join back to the input |
| Strings.SplitPieces | src/commands/migrate.ts:203-204 | the pieces of a split contain no separator and, joined with it, give the input back |
| Strings.SplitJoin | src/commands/migrate.ts:203-204 | splitting a join of separator-free pieces gives the pieces back |
| Strings.SplitFirst | src/commands/migrate.ts:203 | the first piece is the text before the first separator, or the whole string |
| Strings.LastPieceIsPop | src/commands/remote.ts:215 | the text after the last separator is the element `pop()` takes from the split |
| Strings.LastPieceIsSuffix | src/commands/remote.ts:215 | `split('/').pop()` is a separator-free suffix that is the whole string or follows a separator |
| Strings.LastPieceAfterSep | src/commands/remote.ts:215 | the last piece of `p/n`, for `n` without a separator, is `n` |
| Seqs.Filter | src/config.ts:51 | `filter` keeps exactly the elements satisfying the predicate, and never more elements than it was given |
| Seqs.FilterCounts | src/config.ts:51 | each kept value occurs as often as in the input; each dropped value not at all |
| Seqs.FilterInOrder | src/config.ts:51 | the kept elements are a subsequence of the input |
| Seqs.FilterKeepsOrder | src/config.ts:51 | the kept elements stay in their original relative order |
| Remote.FirstMatchFrom | src/commands/remote.ts:258 | the leftmost position at which the suffix regex matches, or -1 when it matches nowhere |
| Remote.ReplaceSuffixSpec | src/commands/remote.ts:258 | the suffix rewrite replaces the maximal class run after the leftmost `<host>.com-` with the profile name and keeps the rest |
| Remote.TransformWith | src/commands/remote.ts:232-263 | rules are tried in order: SSH GitHub, SSH GitLab, https mentioning github.com (alias head plus the URL with its first `https://github.com/` removed), https mentioning gitlab.com but not github.com (the same with `https://gitlab.com/`), then the suffix rewrite when no earlier rule applies, and an unchanged URL when nothing matches |
| Remote.HttpsGithub | src/commands/remote.ts:246-248 | an `https://github.com/` URL becomes the GitHub alias head followed by the path |
| Remote.HttpsGithubElsewhere | src/commands/remote.ts:246-248 | an https URL mentioning github.com elsewhere is kept whole as the path after the alias head |
| Remote.HttpsGitlab | src/commands/remote.ts:250-253 | an `https://gitlab.com/` URL that does not mention github.com becomes the GitLab alias head followed by the path |
| Remote.AliasRetarget | src/commands/remote.ts:257-259 | on an aliased URL the old profile suffix is replaced by the new one and nothing else changes |
| Remote.AliasFixed | src/commands/remote.ts:257-259 | an aliased URL for a profile is left alone by the transform for the same profile |
| Remote.SuffixRuleFixed | src/commands/remote.ts:257-259 | what the suffix rule produced, the suffix rule reproduces |
| Remote.TransformIdempotent | src/commands/remote.ts:232-263 | transforming twice is transforming once, for a profile name the suffix class covers |
| Remote.HyphenatedSuffixGrows | src/commands/remote.ts:258 | with `\w+`, a second pass on `github.com-a-b` yields `github.com-a-b-b`, so the URL never settles |
| Remote.RunStopsAtHyphen | src/commands/remote.ts:258 | with `\w+`, the run after `github.com-` stops at the first hyphen |
| Remote.TransformUrlAsWritten | src/commands/remote.ts:232-263 | `transformURL` as written leaves its own output alone for a profile name of word characters only |
| Remote.TransformUrl | src/commands/remote.ts:232-263 | the corrected transform leaves its own output alone for every name of word characters and hyphens |
| Remote.AliasesAgreeWithSshConfig | src/commands/remote.ts:237-241 | the URLs produced go through exactly the host aliases the SSH configuration declares |
| Remote.UnknownHostUnchanged | src/commands/remote.ts:262 | a URL that is not an SSH URL and mentions neither host is returned unchanged |
| Remote.GithubSshRule | src/commands/remote.ts:236-238 | a `git@github.com:` URL becomes the GitHub alias head for the profile followed by the same path |
| Remote.SshExample | src/commands/remote.ts:236-238 | for any path such as `acme/repo.git`, `git@github.com:<path>` becomes `git@github.com-work:<path>` for profile `work` |
| Remote.ParsePushLine | src/commands/remote.ts:100-103 | an accepted line yields a non-empty remote name and a non-empty URL |
| Remote.ParsePushLineSound | src/commands/remote.ts:100-103 | every line the parser accepts has the shape name, white space, URL, white space, `(push)` |
| Remote.ParsePushLineComplete | src/commands/remote.ts:100-103 | every line of that shape is parsed into its own name and URL |
| Remote.PushLines | src/commands/remote.ts:90 | the lines kept are exactly the output lines containing `(push)`, each as often as it occurs in the output, in their original order |
| Remote.ParseAll | src/commands/remote.ts:97-104 | the remotes collected are exactly the parses of the lines that match, and never more than there are lines |
| Remote.ParseAllAppend | src/commands/remote.ts:99-104 | the remotes of two runs of lines are those of the first followed by those of the second |
| Remote.ParseAllLine | src/commands/remote.ts:100-103 | one line adds its own parsed remote when it matches, and nothing otherwise |
| Remote.Retargeted | src/commands/remote.ts:109-110 | a retargeted remote keeps its name; a remote that needs no update is unchanged; when the suffix class covers the profile name, the result needs no further update |
| Remote.Updates | src/commands/remote.ts:139-145 | in either variant, `set-url` is issued exactly for the remotes whose transformed URL differs, with the transformed URL |
| Remote.UpdatesAppend | src/commands/remote.ts:139-145 | the commands for two runs of remotes are those for the first followed by those for the second, so they follow the listing order |
| Remote.UpdatesOne | src/commands/remote.ts:140-144 | one remote yields one command with its retargeted URL when it needs an update, and none otherwise |
| Remote.UpdatesEmptyIff | src/commands/remote.ts:108-110 | in either variant, nothing is issued exactly when every remote is already routed |
| Remote.AfterUpdates | src/commands/remote.ts:139-145 | after the updates every remote keeps its name and position, and has its transformed URL exactly when it needed an update |
| Remote.FixConverges | src/commands/remote.ts:139-145 | a second `fix` for the same profile has nothing left to do whenever the variant's suffix class covers the name: as written for names without hyphens, corrected for every valid name |
| Remote.FixRewritesOwnAlias | src/commands/remote.ts:139-145 | as written, `fix` for a hyphenated profile rewrites a remote already routed through that profile's alias; corrected, it leaves it alone |
| Remote.Fix | src/commands/remote.ts:62-154 | `set-url` commands are issued exactly in a repository with a root and a resolving profile, a successful `git remote -v` with push lines, and confirmation; they are the update sequence of the parsed push lines, in order, and a refused command ends the run after itself |
| Remote.Add | src/commands/remote.ts:19-60 | `git remote add` is issued exactly in a repository with a root, under the given name or `origin`; its URL is the variant's transform for the resolving profile, or unchanged when none resolves; the outcome is a failure exactly when git refuses the command |
| Remote.AddedRemoteNeedsNoFix | src/commands/remote.ts:46 | a remote added under a profile that the variant's suffix class covers is one `fix` leaves alone |
| Remote.CloneDirName | src/commands/remote.ts:215 | the corrected directory name: the last `/`-piece minus a trailing `.git`, and never containing `/` |
| Remote.CloneDirNameOfRepo | src/commands/remote.ts:215 | the corrected name is the repository name with or without the `.git` suffix |
| Remote.CloneDirNameAsWritten | src/commands/remote.ts:215 | the name as written is the last `/`-piece with its first `.git` removed, or the whole piece when it has none |
| Remote.CloneDirNameAsWrittenMangles | src/commands/remote.ts:215 | the name as written drops the first `.git` wherever it occurs in the last piece |
| Remote.CloneDirNameAgrees | src/commands/remote.ts:215 | the two names agree when the only `.git` is the suffix |
| Remote.GitSuffixFirst | src/commands/remote.ts:215 | in a name without `.git`, the appended suffix is the first `.git` |
| Remote.GithubPagesAsWritten | src/commands/remote.ts:215 | as written, `.../my.github.io.git` is recorded as `myhub.io.git` |
| Remote.GithubPagesCorrected | src/commands/remote.ts:215 | corrected, `.../my.github.io.git` is recorded as `my.github.io`, the directory git creates |
| Remote.ClonePagesAsWritten | src/commands/remote.ts:215-220 | as written, cloning `.../my.github.io.git` associates `<cwd>/myhub.io.git`, a folder git never creates |
| Remote.ClonePagesCorrected | src/commands/remote.ts:215-220 | corrected, the same clone associates `<cwd>/my.github.io` |
| Remote.ClonePath | src/commands/remote.ts:215-216 | without a directory argument, a successful clone records `<cwd>/<the variant's directory name>` |
| Remote.Clone | src/commands/remote.ts:156-230 | with no default and no profiles the URL is cloned as given, into the given directory or `''`; otherwise the variant's transform for the default or selected profile is cloned; on success the new path is associated with that profile, the associations for other paths are kept, and profiles and default are unchanged |
| Remote.ClonedRepoNeedsNoFix | src/commands/remote.ts:219-224 | a freshly cloned repository resolves to its profile, and `fix` leaves its origin alone whenever the variant's suffix class covers the profile name |
| Auto.AssociatedProfile | src/commands/auto.ts:73-83 | there is a profile to apply exactly in a repository with a root whose association resolves to a non-empty name of a stored profile, and then it is that profile |
| Auto.ApplyProfile | src/commands/auto.ts:72-98 | the associated profile is written to the local scope, and the result is true, exactly when one resolves and is not already applied; otherwise nothing is written |
| Auto.ApplyIdempotent | src/commands/auto.ts:86-92 | for a trimmed, non-empty name and email, a second apply writes nothing |
| Auto.FirstWithEmail | src/commands/auto.ts:48-53 | the key of the first stored profile, in order, whose email matches, or none when none matches |
| Auto.FirstMatchUnique | src/commands/auto.ts:48-53 | the loop stops at one entry only: at most one entry is the first match |
| Auto.DetectProfile | src/commands/auto.ts:39-54 | the resolved association when it is non-empty; otherwise, with a local email, the key of the first profile with that email; the result is usable exactly when the association is, or when that first match has a non-empty key |
| Auto.Execute | src/commands/auto.ts:15-70 | `--disable` drops only the root's exact association; otherwise a detected profile is recorded for the root unless `enable` is false, keeping every association for another path and the profiles and default; with none, the store is unchanged |
| Auto.ExecuteRecordsFirstMatch | src/commands/auto.ts:42-65 | with no association for the root, `auto` records the key of the first stored profile whose email is the local email |
| Auto.DisableKeepsParent | src/commands/auto.ts:32-36 | after disabling, a repository under an associated parent still resolves |
| Auto.EnableThenApply | src/commands/auto.ts:64-65 | once `auto` has recorded a profile, applying leaves the local identity equal to that profile |
| Unlink.UnlinkLocal | src/commands/unlink.ts:33-96 | nothing changes without a root, when already clean, or when not confirmed; otherwise the local identity is unset only if present and the root's association only if one resolves; the global scope is untouched |
| Unlink.UnlinkGlobal | src/commands/unlink.ts:98-140 | the store is never touched; the global identity is cleared, by unsetting exactly the four identity keys, only if present and confirmed or forced; the local scope is untouched |
| Unlink.Execute | src/commands/unlink.ts:15-31 | outside a repository only `--global` proceeds |
| Unlink.LocalUnlinkClears | src/commands/unlink.ts:83-92 | after a local unlink the repository reads as having no identity and the root has no association of its own |
| Unlink.LocalUnlinkKeepsParent | src/commands/unlink.ts:89-92 | a repository under an associated parent still resolves after unlinking |
| Unlink.LocalUnlinkThenClean | src/commands/unlink.ts:60-63 | with no parent association, a second unlink finds the repository clean |
| Unlink.GlobalUnlinkThenClean | src/commands/unlink.ts:103-135 | after a global unlink the global scope reads no identity, so a second global unlink finds it clean |
| ProfileCommands.ValidProfileName | src/commands/profile.ts:26-32 | the name validator accepts exactly the strings matching `^[a-zA-Z0-9_-]+$`; its blank test never rejects one of them |
| ProfileCommands.ValidNamesRetargetStably | src/commands/profile.ts:28 | every valid profile name is one for which the corrected transform is idempotent |
| ProfileCommands.ValidEmail | src/commands/profile.ts:44-50 | the email validator accepts exactly the strings matching `^[^\s@]+@[^\s@]+\.[^\s@]+$` |
| ProfileCommands.AcceptsEmailIffShape | src/commands/profile.ts:46 | the check without backtracking agrees with the regex on every string |
| ProfileCommands.EmailShapeParts | src/commands/profile.ts:46 | any cut matching the pattern makes the validator accept |
| ProfileCommands.EmailPartsJoin | src/commands/profile.ts:46 | two runs of `[^\s@]` joined by a dot form one run |
| ProfileCommands.FoldersOf | src/commands/profile.ts:139-141 | the folders listed for a profile are exactly the paths of its associations |
| ProfileCommands.FoldersOfAppend | src/commands/profile.ts:139-141 | the listing follows the stored order |
| ProfileCommands.SetFolderProfileListing | src/commands/profile.ts:139-141 | after `setFolderProfile(p, n)`, `p` is the last folder listed for `n` and is listed under no other profile |
| ProfileCommands.Switch | src/commands/profile.ts:155-200 | a missing profile changes nothing; `--global` writes the global scope and sets the default; locally it needs a repository, writes the local scope, and associates the root only when confirmed, keeping every association for another path |
| ProfileCommands.SwitchThenApplyIsNoop | src/commands/profile.ts:177-195 | after a local switch with auto mode enabled, applying the profile finds it already applied |
| ProfileCommands.Remove | src/commands/profile.ts:202-226 | a missing name changes nothing; otherwise, only once confirmed, the profile and its associations are dropped, and the default is cleared if it was that name and kept otherwise |
| ProfileCommands.RemoveClearsListing | src/commands/profile.ts:224 | after a removal no folder is listed for the removed profile and every other profile's listing is unchanged |
| ProfileCommands.FoldersOfFilter | src/commands/profile.ts:139-141 | dropping other profiles' associations leaves a profile's listing unchanged |
| Migrate.EmailPieces | src/commands/migrate.ts:203-204 | the username is the text before the first `@`; the domain is the first dot-label after it |
| Migrate.Username | src/commands/migrate.ts:203 | `split('@')[0]` is the text before the first `@`, or the whole email without one |
| Migrate.Domain | src/commands/migrate.ts:204 | the domain is undefined exactly when there is no `@`; otherwise it is the run of characters other than `@` and `.` right after the first `@` |
| Migrate.SuggestProfileName | src/commands/migrate.ts:201-211 | the domain's first label when it is non-empty and shorter than 10 characters; otherwise the text before the `@`, which is the whole email when there is no `@` |
| Migrate.SuggestForAddress | src/commands/migrate.ts:201-211 | for `user@dom.tld` the suggestion is `dom` when it is shorter than 10 characters, else `user` |
| Migrate.ImportedProfile | src/commands/migrate.ts:144-149 | the saved profile carries the global name, email and signing key as read, and the SSH key only when one was produced or picked |
| Migrate.Execute | src/commands/migrate.ts:18-199 | nothing is stored without a global name and email, or when an existing profile is not overwritten; otherwise the global identity is saved, the default changes only if confirmed, and the root is associated only if confirmed inside a repository, keeping every association for another path |
| Migrate.ImportRoundTrip | src/commands/migrate.ts:144-149 | switching the global scope to the imported profile reads back the same name and email |

## Left out

- Process spawning and its details are not modelled: `exec`, shell quoting, timeouts and `ssh-agent` start-up. Git's configuration is an abstract map per scope. Command outcomes such as `git remote -v` output, `git clone`'s exit and the SSH probe are inputs.
- File I/O and JSON are not modelled: `fs.readFile`, `JSON.parse`, `save` and `ensureConfigDir`. `load` takes the cache and the parse outcome as inputs, and the commands take the current document.
- Interactive prompts are inputs: booleans for confirmations, strings for answers. Console output is not modelled.
- JavaScript's ordering of integer-like object keys is not modelled. The profile map is an ordered association list with distinct keys, in insertion order.
- `$` patterns in replacement strings are not modelled. No replacement in the core uses one with a string pattern, and profile names cannot contain `$`.
- The `path` option of `auto` and `unlink`, versus the current directory that git reads, is not modelled. The model has one current repository, given as a `RepoContext`.
- `isGitRepo` and `getRepoRoot` are not modelled: they only run git. Their results arrive as the `RepoContext` input.
- `generateKey`, `addKeyToAgent`, `isKeyInAgent`, `getPublicKey`, `displayPublicKey`, `setupSSHForProfile` and `ensureSSHDir` are not modelled. They are file-system and `ssh-keygen`/`ssh-add` I/O; their only pure part, the key path naming, is `Ssh.KeyPath`.
- `profile add`, `list`'s console layout and `current` are not modelled. Only their validators and the per-profile folder listing are.
- The SSH branch of `migrate` is an input: the key path it produced, or none.
- Git command failures inside `setConfig` are not modelled. A failed clone with a profile is the `cloneOk = false` input; the plain `git clone` of the no-profile branch is the command issued, and its failure is not modelled. A refused `git remote add` is the `addOk = false` input and a refused `git remote set-url` the `failAt` input. Both end the command with an error: in `add`'s no-profile branch the rejection is not caught, so it surfaces as an unhandled error instead of the printed message, and the model does not tell the two apart.
- ConfigStore.Lookup: `profiles[name]` is modelled on an object without a prototype. In JavaScript a name such as `constructor` or `toString` reads an inherited function, which is truthy, so `switch constructor` goes on to `setConfig` with it. The model reports such a name as absent. The name validator accepts these names.
- ConfigStore.Put: `profiles[name] = p` is modelled as an ordinary entry. In JavaScript, assigning to `__proto__` replaces the object's prototype and stores no entry. The model stores one.
- Migrate.SuggestProfileName: the bound of 10 counts characters (Unicode scalar values). JavaScript's `.length` counts UTF-16 code units, so a label with characters outside the Basic Multilingual Plane can be under the bound here and over it in JavaScript. Lone surrogates cannot occur in a Dafny string.
- Ssh.KeyPath: `path.join` normalises its result (collapsing `//`, resolving `..`, using `\` on Windows). The model joins with one `/`. The two agree when `sshDir` is a normalised POSIX path without a trailing separator, which is what `join(homedir(), '.ssh')` gives on POSIX systems.
- Seqs.Filter: its own contract states membership and length only. How often each value is kept is stated by Seqs.FilterCounts, and the order by Seqs.FilterInOrder. This keeps the many callers of `Filter` from carrying the multiset facts.
- GitConfig.GetCurrentConfig carries no contract of its own; what it reads is stated by GitConfig.CurrentConfigReads.
- `src/commands/doctor.ts`, `src/cli.ts`, `src/platform.ts`, `src/index.ts`, the VS Code extension and the install scripts are not part of this model. The extension's resolver duplicates `getFolderProfile`.

## Findings

| source | as written | input that shows it | evidently intended | confidence | as-written member | corrected member |
|---|---|---|---|---|---|---|
| src/commands/remote.ts:258 | the suffix regex repeats `\w` after `.com-`, and `\w` excludes `-`, although the name validator at src/commands/profile.ts:28 accepts `-` | profile `my-work`, URL `git@github.com-my-work:o/r.git`: a second pass gives `git@github.com-my-work-work:o/r.git`, so `fix` keeps rewriting the remote | the class `[\w-]` after `.com-`, so the transform leaves its own output alone | high (not executed) | Remote.TransformUrlAsWritten, shown by Remote.HyphenatedSuffixGrows and Remote.FixRewritesOwnAlias | Remote.TransformUrl, proved by Remote.FixConverges with `Corrected` and ProfileCommands.ValidNamesRetargetStably |
| src/commands/remote.ts:215 | `replace('.git', '')` removes the first `.git` anywhere in the last URL piece | `https://github.com/u/my.github.io.git` is recorded as `<cwd>/myhub.io.git`, while git clones into `my.github.io` | remove only a trailing `.git` | high (not executed) | Remote.CloneDirNameAsWritten, shown by Remote.GithubPagesAsWritten, Remote.ClonePagesAsWritten and Remote.CloneDirNameAsWrittenMangles | Remote.CloneDirName, proved by Remote.CloneDirNameOfRepo, Remote.GithubPagesCorrected and Remote.ClonePagesCorrected |
