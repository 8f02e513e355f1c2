/** `GitManager` (src/git.ts) over an abstract git configuration: each scope
    is a key/value map, a `git config` read returns the trimmed value, a
    write sets one key, an `--unset` removes one. Process spawning is left
    out; `git rev-parse` results arrive as a `RepoContext`, command output as
    strings. */
module GitConfig {
  import opened Types
  import opened Strings
  import opened Seqs

  const UserName := "user.name"
  const UserEmail := "user.email"
  const UserSigningKey := "user.signingkey"
  const CommitGpgSign := "commit.gpgsign"

  /** The four keys the tool writes and clears. */
  predicate IsIdentityKey(k: string) {
    k == UserName || k == UserEmail || k == UserSigningKey || k == CommitGpgSign
  }

  function Other(scope: Scope): Scope {
    if scope == Local then Global else Local
  }

  function Values(g: GitState, scope: Scope): map<string, string> {
    if scope == Local then g.local else g.global
  }

  function WithValues(g: GitState, scope: Scope, m: map<string, string>): (r: GitState)
    ensures Values(r, scope) == m
    ensures Values(r, Other(scope)) == Values(g, Other(scope))
  {
    if scope == Local then g.(local := m) else g.(global := m)
  }

  /** Key `k` is present in both maps with the same value, or in neither. */
  predicate SameAt(m1: map<string, string>, m2: map<string, string>, k: string) {
    (k in m1 <==> k in m2) && (k in m1 ==> m1[k] == m2[k])
  }

  /** `Partial<GitProfile>` as `getCurrentConfig` returns it. */
  datatype CurrentConfig = CurrentConfig(
    name: Option<string>,
    email: Option<string>,
    signingKey: Option<string>)

  /** What a read of `key` gives: undefined for a missing or white-space-only
      value, otherwise the trimmed value, which is then non-empty. */
  predicate ReadsAs(m: map<string, string>, key: string, v: Option<string>) {
    && (v.None? <==> key !in m || AllSpace(m[key]))
    && (v.Some? ==> key in m && v.value == Trim(m[key]) && v.value != "")
  }

  /** One `git config <scope> <key>` read as `getCurrentConfig` does it: a
      failing command (unset key) reads as '', and `x.trim() || undefined`
      turns a blank value into undefined. */
  function ReadValue(m: map<string, string>, key: string): (r: Option<string>)
    ensures ReadsAs(m, key, r)
  {
    if key in m then
      BlankIffAllSpace(m[key]);
      if IsBlank(m[key]) then None else Some(Trim(m[key]))
    else None
  }

  /** `getCurrentConfig(scope)`. */
  function GetCurrentConfig(g: GitState, scope: Scope): CurrentConfig {
    var m := Values(g, scope);
    CurrentConfig(ReadValue(m, UserName), ReadValue(m, UserEmail), ReadValue(m, UserSigningKey))
  }

  /** Each field of `getCurrentConfig` is its key's read in that scope. */
  lemma CurrentConfigReads(g: GitState, scope: Scope)
    ensures var m := Values(g, scope);
            var cur := GetCurrentConfig(g, scope);
            ReadsAs(m, UserName, cur.name) && ReadsAs(m, UserEmail, cur.email)
            && ReadsAs(m, UserSigningKey, cur.signingKey)
  {
  }

  /** `setConfig(profile, scope)`: name and email are always written; the
      signing key and `commit.gpgsign = true` only when the profile has a
      non-empty signing key, so an earlier key otherwise stays in place. */
  function SetConfig(g: GitState, p: GitProfile, scope: Scope): (r: GitState)
    ensures Values(r, Other(scope)) == Values(g, Other(scope))
    ensures var m := Values(r, scope);
            UserName in m && m[UserName] == p.name && UserEmail in m && m[UserEmail] == p.email
    ensures Truthy(p.signingKey) ==>
              var m := Values(r, scope);
              UserSigningKey in m && m[UserSigningKey] == p.signingKey.value
              && CommitGpgSign in m && m[CommitGpgSign] == "true"
    ensures !Truthy(p.signingKey) ==>
              SameAt(Values(r, scope), Values(g, scope), UserSigningKey)
              && SameAt(Values(r, scope), Values(g, scope), CommitGpgSign)
    ensures forall k :: !IsIdentityKey(k) ==> SameAt(Values(r, scope), Values(g, scope), k)
  {
    var m := Values(g, scope)[UserName := p.name][UserEmail := p.email];
    var m' := if Truthy(p.signingKey)
              then m[UserSigningKey := p.signingKey.value][CommitGpgSign := "true"]
              else m;
    WithValues(g, scope, m')
  }

  /** `unsetConfig(scope)`: each of the four keys is removed on its own, an
      already absent key being no error; nothing else changes. */
  function UnsetConfig(g: GitState, scope: Scope): (r: GitState)
    ensures Values(r, Other(scope)) == Values(g, Other(scope))
    ensures forall k :: IsIdentityKey(k) ==> k !in Values(r, scope)
    ensures forall k :: !IsIdentityKey(k) ==> SameAt(Values(r, scope), Values(g, scope), k)
  {
    var m := Values(g, scope) - {UserName} - {UserEmail} - {UserSigningKey} - {CommitGpgSign};
    WithValues(g, scope, m)
  }

  /** Unsetting twice is unsetting once. */
  lemma UnsetIdempotent(g: GitState, scope: Scope)
    ensures UnsetConfig(UnsetConfig(g, scope), scope) == UnsetConfig(g, scope)
  {
    var once := UnsetConfig(g, scope);
    var twice := UnsetConfig(once, scope);
    assert Values(twice, scope) == Values(once, scope);
    assert Values(twice, Other(scope)) == Values(once, Other(scope));
  }

  /** After an unset, the scope reads as having no identity at all. */
  lemma ReadAfterUnset(g: GitState, scope: Scope)
    ensures GetCurrentConfig(UnsetConfig(g, scope), scope) == CurrentConfig(None, None, None)
  {
    assert IsIdentityKey(UserName) && IsIdentityKey(UserEmail) && IsIdentityKey(UserSigningKey);
  }

  /** After a write, the scope reads back the trimmed name and email; a name
      or email that is already trimmed and non-empty reads back unchanged. */
  lemma ReadAfterSet(g: GitState, p: GitProfile, scope: Scope)
    requires p.name != "" && Trim(p.name) == p.name
    requires p.email != "" && Trim(p.email) == p.email
    ensures var cur := GetCurrentConfig(SetConfig(g, p, scope), scope);
            cur.name == Some(p.name) && cur.email == Some(p.email)
  {
    var m := Values(SetConfig(g, p, scope), scope);
    BlankIffAllSpace(p.name);
    BlankIffAllSpace(p.email);
  }

  // ---------------------------------------------------------------------
  // `ssh-add -l` output and the connection probe

  /** The lines of command output that are not blank, in order. */
  function NonBlankLines(out: string): (r: seq<string>)
    ensures forall i :: 0 <= i < |r| ==> !IsBlank(r[i]) && '\n' !in r[i]
    ensures forall l :: multiset(r)[l] == if IsBlank(l) then 0 else multiset(Split(out, '\n'))[l]
    ensures IsSubsequence(r, Split(out, '\n'))
  {
    NonBlankPieces(out);
    Filter(Split(out, '\n'), NotBlank)
  }

  predicate NotBlank(l: string) {
    !IsBlank(l)
  }

  /** The kept lines are non-blank and hold no line break. */
  lemma NonBlankPieces(out: string)
    ensures var r := Filter(Split(out, '\n'), NotBlank);
            && (forall i :: 0 <= i < |r| ==> !IsBlank(r[i]) && '\n' !in r[i])
            && (forall l :: multiset(r)[l] == if IsBlank(l) then 0 else multiset(Split(out, '\n'))[l])
            && IsSubsequence(r, Split(out, '\n'))
  {
    var lines := Split(out, '\n');
    var r := Filter(lines, NotBlank);
    SplitPieces(out, '\n');
    assert forall i :: 0 <= i < |r| ==> r[i] in r;
    FilterCounts(lines, NotBlank);
    FilterInOrder(lines, NotBlank);
  }

  /** `listSSHKeys`: for every non-blank line of `ssh-add -l`, the text after
      its last space; no keys when the command fails (`out` is None). */
  function ListSshKeys(out: Option<string>): (r: seq<string>)
    ensures out.None? ==> r == []
    ensures out.Some? ==> |r| == |NonBlankLines(out.value)|
    ensures out.Some? ==> forall i :: 0 <= i < |r| ==> IsEndPiece(NonBlankLines(out.value)[i], ' ', r[i])
  {
    match out
    case None => []
    case Some(text) => LastTokens(NonBlankLines(text))
  }

  function LastTokens(lines: seq<string>): (r: seq<string>)
    ensures |r| == |lines|
    ensures forall i :: 0 <= i < |r| ==> IsEndPiece(lines[i], ' ', r[i])
  {
    if |lines| == 0 then []
    else
      var rest := LastTokens(lines[1..]);
      LastPieceIsSuffix(lines[0], ' ');
      ConsEndPieces(lines, LastPiece(lines[0], ' '), rest);
      [LastPiece(lines[0], ' ')] + rest
  }

  lemma ConsEndPieces(lines: seq<string>, first: string, rest: seq<string>)
    requires |lines| >= 1 && |rest| == |lines| - 1
    requires IsEndPiece(lines[0], ' ', first)
    requires forall i :: 0 <= i < |rest| ==> IsEndPiece(lines[1..][i], ' ', rest[i])
    ensures var r := [first] + rest;
            forall i :: 0 <= i < |r| ==> IsEndPiece(lines[i], ' ', r[i])
  {
    var r := [first] + rest;
    forall i | 0 <= i < |r|
      ensures IsEndPiece(lines[i], ' ', r[i])
    {
      if i > 0 {
        assert lines[1..][i - 1] == lines[i] && r[i] == rest[i - 1];
      }
    }
  }

  /** `checkSSHConnection`: a zero exit counts as connected; a failing one
      only when its output reports a successful authentication. */
  function CheckSshConnection(probe: ProbeOutcome): (r: bool)
    ensures probe.exitedOk ==> r
    ensures !probe.exitedOk ==>
              (r <==> Contains(probe.stderr, AuthBanner) || Contains(probe.stdout, AuthBanner))
  {
    probe.exitedOk || Contains(probe.stderr, AuthBanner) || Contains(probe.stdout, AuthBanner)
  }
}
