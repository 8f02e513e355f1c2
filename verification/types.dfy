/** The tool's data model: identity profiles, folder associations, the
    configuration document, and the abstract state of git's configuration. */
module Types {

  datatype Option<T> = None | Some(value: T)

  /** JavaScript truthiness of an optional string: present and not empty.
      The source tests names, paths and keys with `if (x)` / `!x`, so an
      empty string behaves like an absent one. */
  predicate Truthy(o: Option<string>) {
    o.Some? && o.value != ""
  }

  /** An identity; `sshKey` and `signingKey` are optional properties. */
  datatype GitProfile = GitProfile(
    name: string,
    email: string,
    sshKey: Option<string>,
    signingKey: Option<string>)

  /** A folder association: repositories under `path` use `profile`. */
  datatype FolderProfile = FolderProfile(path: string, profile: string)

  datatype ProfileEntry = ProfileEntry(key: string, profile: GitProfile)

  predicate DistinctKeys(ps: seq<ProfileEntry>) {
    forall i, j :: 0 <= i < j < |ps| ==> ps[i].key != ps[j].key
  }

  /** The `profiles` record: a JSON object, so each name occurs once; kept in
      insertion order, the order `Object.keys`/`Object.entries` report. */
  type ProfileMap = ps: seq<ProfileEntry> | DistinctKeys(ps)

  /** The persisted configuration document. */
  datatype GitXConfig = GitXConfig(
    profiles: ProfileMap,
    folderProfiles: seq<FolderProfile>,
    defaultProfile: Option<string>)

  /** The two git configuration files the tool reads and writes. */
  datatype Scope = Local | Global

  /** git's configuration, abstracted to one key/value map per scope; the
      local map is the one of the repository the command runs in. */
  datatype GitState = GitState(local: map<string, string>, global: map<string, string>)

  /** What `git rev-parse` reports about the working directory: whether it is
      inside a work tree, and the trimmed top-level path (None when the
      command fails). */
  datatype RepoContext = RepoContext(isRepo: bool, root: Option<string>)

  /** The result of running `ssh -T git@<host>`: whether it exited with
      status 0, and what it wrote to each stream. A timeout counts as a
      failing exit with whatever output arrived. */
  datatype ProbeOutcome = ProbeOutcome(exitedOk: bool, stdout: string, stderr: string)

  /** The phrase GitHub and GitLab print after a successful `ssh -T`. */
  const AuthBanner := "successfully authenticated"
}
