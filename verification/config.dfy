/** `ConfigManager` (src/config.ts): the profile and folder-association store,
    as pure transformations of the configuration document. The JSON file and
    the in-process cache are abstracted: `Load` is given the cache and what
    reading the file produced, and every other operation maps the current
    document to the document it saves. */
module ConfigStore {
  import opened Types
  import opened Seqs

  /** The document `load` falls back to. */
  const Empty: GitXConfig := GitXConfig([], [], None)

  /** The outcome of reading and parsing the configuration file. */
  datatype StoredFile = Missing | Unparseable | Parsed(doc: GitXConfig)

  /** `load`: the cached document if there is one; otherwise the parsed file,
      or the empty document when the file is missing or does not parse. */
  function Load(cache: Option<GitXConfig>, file: StoredFile): (r: GitXConfig)
    ensures cache.Some? ==> r == cache.value
    ensures cache.None? && file.Parsed? ==> r == file.doc
    ensures cache.None? && !file.Parsed? ==>
              r.profiles == [] && r.folderProfiles == [] && r.defaultProfile.None?
  {
    match cache
    case Some(doc) => doc
    case None => if file.Parsed? then file.doc else Empty
  }

  // ---------------------------------------------------------------------
  // the `profiles` record

  /** `Object.keys(profiles)`, in insertion order. */
  function Names(ps: seq<ProfileEntry>): (r: seq<string>)
    ensures |r| == |ps|
    ensures forall i :: 0 <= i < |ps| ==> r[i] == ps[i].key
  {
    if |ps| == 0 then [] else [ps[0].key] + Names(ps[1..])
  }

  /** `profiles[name]`: the profile stored under `name`, if any. */
  function Lookup(ps: ProfileMap, name: string): (r: Option<GitProfile>)
    ensures r.Some? <==> name in Names(ps)
    ensures r.Some? ==> ProfileEntry(name, r.value) in ps
    ensures forall v :: ProfileEntry(name, v) in ps ==> r == Some(v)
  {
    if |ps| == 0 then None
    else if ps[0].key == name then
      assert name !in Names(ps[1..]);
      Some(ps[0].profile)
    else Lookup(ps[1..], name)
  }

  /** `profiles[name] = p`: an existing entry is replaced where it stands, a
      new one is appended. */
  function Put(ps: ProfileMap, name: string, p: GitProfile): (r: ProfileMap)
    ensures forall e :: e in r <==> e == ProfileEntry(name, p) || (e in ps && e.key != name)
  {
    if |ps| == 0 then [ProfileEntry(name, p)]
    else if ps[0].key == name then
      assert name !in Names(ps[1..]);
      [ProfileEntry(name, p)] + ps[1..]
    else
      var rest := Put(ps[1..], name, p);
      assert forall j :: 0 <= j < |rest| ==> rest[j] in rest;
      assert forall e :: e in ps[1..] ==> e.key != ps[0].key;
      [ps[0]] + rest
  }

  /** `Object.keys` after `profiles[name] = p`: unchanged when the name was
      there, the name appended otherwise. */
  lemma {:induction false} PutKeepsNames(ps: ProfileMap, name: string, p: GitProfile)
    ensures Names(Put(ps, name, p)) == if name in Names(ps) then Names(ps) else Names(ps) + [name]
    decreases |ps|
  {
    if |ps| > 0 && ps[0].key != name {
      PutKeepsNames(ps[1..], name, p);
      assert Names(ps) == [ps[0].key] + Names(ps[1..]);
    }
  }

  /** After `profiles[name] = p`, `name` maps to `p` and every other name to
      what it mapped to before. */
  lemma PutLookup(ps: ProfileMap, name: string, p: GitProfile)
    ensures Lookup(Put(ps, name, p), name) == Some(p)
    ensures forall m :: m != name ==> Lookup(Put(ps, name, p), m) == Lookup(ps, m)
  {
    var r := Put(ps, name, p);
    forall m | m != name
      ensures Lookup(r, m) == Lookup(ps, m)
    {
      if Lookup(ps, m).Some? {
        assert ProfileEntry(m, Lookup(ps, m).value) in r;
      }
    }
  }

  /** Keeping some entries of a map in order keeps the names distinct. */
  lemma FilterKeepsDistinct(ps: ProfileMap, keep: ProfileEntry -> bool)
    ensures DistinctKeys(Filter(ps, keep))
  {
    var r := Filter(ps, keep);
    var idx := FilterKeepsOrder(ps, keep);
    forall i, j | 0 <= i < j < |r|
      ensures r[i].key != r[j].key
    {
      assert r[i] == ps[idx[i]] && r[j] == ps[idx[j]] && idx[i] < idx[j];
    }
  }

  /** `delete profiles[name]`: the other entries stay, in their order. */
  function Delete(ps: ProfileMap, name: string): (r: ProfileMap)
    ensures forall e :: e in r <==> e in ps && e.key != name
  {
    FilterKeepsDistinct(ps, (e: ProfileEntry) => e.key != name);
    Filter(ps, (e: ProfileEntry) => e.key != name)
  }

  /** After `delete profiles[name]`, `name` is absent and every other name
      maps to what it mapped to before. */
  lemma DeleteLookup(ps: ProfileMap, name: string)
    ensures Lookup(Delete(ps, name), name) == None
    ensures forall m :: m != name ==> Lookup(Delete(ps, name), m) == Lookup(ps, m)
  {
    var r := Delete(ps, name);
    forall m | m != name
      ensures Lookup(r, m) == Lookup(ps, m)
    {
      if Lookup(ps, m).Some? {
        assert ProfileEntry(m, Lookup(ps, m).value) in r;
      }
    }
  }

  lemma DeleteKeepsOrder(ps: ProfileMap, name: string)
    ensures IsSubsequence(Delete(ps, name), ps)
  {
    var _ := FilterKeepsOrder(ps, (e: ProfileEntry) => e.key != name);
  }

  /** `getProfile`: the profile stored under the name, if there is one. */
  function GetProfile(c: GitXConfig, name: string): (r: Option<GitProfile>)
    ensures r.Some? <==> name in Names(c.profiles)
    ensures r.Some? ==> ProfileEntry(name, r.value) in c.profiles
  {
    Lookup(c.profiles, name)
  }

  /** `addProfile`: sets one profile and leaves everything else alone. */
  function AddProfile(c: GitXConfig, name: string, p: GitProfile): (r: GitXConfig)
    ensures GetProfile(r, name) == Some(p)
    ensures forall m :: m != name ==> GetProfile(r, m) == GetProfile(c, m)
    ensures r.folderProfiles == c.folderProfiles && r.defaultProfile == c.defaultProfile
  {
    PutLookup(c.profiles, name, p);
    c.(profiles := Put(c.profiles, name, p))
  }

  /** `removeProfile`: the profile, every association naming it, and the
      default if it was that profile, all go in one update. */
  function RemoveProfile(c: GitXConfig, name: string): (r: GitXConfig)
    ensures GetProfile(r, name).None?
    ensures forall m :: m != name ==> GetProfile(r, m) == GetProfile(c, m)
    ensures forall fp :: fp in r.folderProfiles <==> fp in c.folderProfiles && fp.profile != name
    ensures r.defaultProfile == if c.defaultProfile == Some(name) then None else c.defaultProfile
  {
    DeleteLookup(c.profiles, name);
    GitXConfig(
      Delete(c.profiles, name),
      Filter(c.folderProfiles, (fp: FolderProfile) => fp.profile != name),
      if c.defaultProfile == Some(name) then None else c.defaultProfile)
  }

  /** The associations left by `removeProfile` keep their relative order. */
  lemma RemoveProfileKeepsOrder(c: GitXConfig, name: string)
    ensures IsSubsequence(RemoveProfile(c, name).folderProfiles, c.folderProfiles)
  {
    var _ := FilterKeepsOrder(c.folderProfiles, (fp: FolderProfile) => fp.profile != name);
  }

  // ---------------------------------------------------------------------
  // folder associations

  /** An association applies to a query path when its path is a non-empty
      character prefix of it (not a path-segment prefix). */
  predicate Applies(fp: FolderProfile, q: string) {
    |fp.path| > 0 && fp.path <= q
  }

  /** Entry `b` is the one resolution must choose: it applies, no applying
      entry is longer, and every earlier applying entry is strictly shorter. */
  ghost predicate IsBestMatch(fps: seq<FolderProfile>, q: string, b: int) {
    && 0 <= b < |fps|
    && Applies(fps[b], q)
    && (forall j :: 0 <= j < |fps| && Applies(fps[j], q) ==> |fps[j].path| <= |fps[b].path|)
    && (forall j :: 0 <= j < b && Applies(fps[j], q) ==> |fps[j].path| < |fps[b].path|)
  }

  /** `best` is the best match among the first `n` entries. */
  ghost predicate BestAmongFirst(fps: seq<FolderProfile>, q: string, n: nat, best: Option<nat>)
    requires n <= |fps|
  {
    match best
    case None => forall j :: 0 <= j < n ==> !Applies(fps[j], q)
    case Some(b) =>
      && b < n
      && Applies(fps[b], q)
      && (forall j :: 0 <= j < n && Applies(fps[j], q) ==> |fps[j].path| <= |fps[b].path|)
      && (forall j :: 0 <= j < b && Applies(fps[j], q) ==> |fps[j].path| < |fps[b].path|)
  }

  /** The loop of `getFolderProfile` from entry `i` on, `best` holding the
      entry chosen so far: an entry replaces it only when it is a prefix of
      the query and strictly longer (the best length starts at 0). */
  function ScanFrom(fps: seq<FolderProfile>, q: string, i: nat, best: Option<nat>): (r: Option<nat>)
    requires i <= |fps|
    requires BestAmongFirst(fps, q, i, best)
    ensures BestAmongFirst(fps, q, |fps|, r)
    decreases |fps| - i
  {
    if i == |fps| then best
    else
      var bestLength := if best.Some? then |fps[best.value].path| else 0;
      if fps[i].path <= q && |fps[i].path| > bestLength then ScanFrom(fps, q, i + 1, Some(i))
      else ScanFrom(fps, q, i + 1, best)
  }

  /** The index of the association `getFolderProfile` picks. */
  function BestMatch(fps: seq<FolderProfile>, q: string): (r: Option<nat>)
    ensures r.None? <==> forall j :: 0 <= j < |fps| ==> !Applies(fps[j], q)
    ensures r.Some? ==> IsBestMatch(fps, q, r.value)
  {
    ScanFrom(fps, q, 0, None)
  }

  /** At most one entry satisfies the resolution rule, so the rule fixes the
      answer: longest prefix, earliest among equally long ones. */
  lemma BestMatchUnique(fps: seq<FolderProfile>, q: string, a: int, b: int)
    requires IsBestMatch(fps, q, a) && IsBestMatch(fps, q, b)
    ensures a == b
  {
  }

  /** `getFolderProfile`: the profile of the longest association path that is
      a prefix of `q`, the earliest one on a tie; none if no path applies. */
  function GetFolderProfile(c: GitXConfig, q: string): (r: Option<string>)
    ensures r.None? <==> forall fp :: fp in c.folderProfiles ==> !Applies(fp, q)
    ensures r.Some? ==> exists b :: IsBestMatch(c.folderProfiles, q, b)
                                    && r.value == c.folderProfiles[b].profile
  {
    var fps := c.folderProfiles;
    match BestMatch(fps, q)
    case None => None
    case Some(b) => Some(fps[b].profile)
  }

  /** Removes every association whose path is exactly `p`. */
  function WithoutPath(fps: seq<FolderProfile>, p: string): (r: seq<FolderProfile>)
    ensures forall fp :: fp in r <==> fp in fps && fp.path != p
  {
    Filter(fps, (fp: FolderProfile) => fp.path != p)
  }

  /** `setFolderProfile`: the association for `p` is replaced by one for `n`,
      moved to the end; the other entries keep their order. */
  function SetFolderProfile(c: GitXConfig, p: string, n: string): (r: GitXConfig)
    ensures var fps := r.folderProfiles;
            && |fps| > 0
            && fps[|fps| - 1] == FolderProfile(p, n)
            && (forall j :: 0 <= j < |fps| - 1 ==> fps[j].path != p)
            && (forall fp :: fp in fps[..|fps| - 1] <==> fp in c.folderProfiles && fp.path != p)
    ensures r.profiles == c.profiles && r.defaultProfile == c.defaultProfile
  {
    var kept := WithoutPath(c.folderProfiles, p);
    assert forall j :: 0 <= j < |kept| ==> kept[j] in kept;
    var fps := kept + [FolderProfile(p, n)];
    assert fps[..|fps| - 1] == kept;
    c.(folderProfiles := fps)
  }

  /** `after` holds the associations of `before` for other paths, plus
      `FolderProfile(p, n)`, and nothing else. */
  ghost predicate Reassociates(before: seq<FolderProfile>, after: seq<FolderProfile>, p: string, n: string) {
    forall fp :: fp in after <==> (fp in before && fp.path != p) || fp == FolderProfile(p, n)
  }

  /** `setFolderProfile` keeps every association for another path. */
  lemma SetFolderProfileReassociates(c: GitXConfig, p: string, n: string)
    ensures Reassociates(c.folderProfiles, SetFolderProfile(c, p, n).folderProfiles, p, n)
  {
    var fps := SetFolderProfile(c, p, n).folderProfiles;
    assert fps == fps[..|fps| - 1] + [fps[|fps| - 1]];
  }

  lemma SetFolderProfileKeepsOrder(c: GitXConfig, p: string, n: string)
    ensures var fps := SetFolderProfile(c, p, n).folderProfiles;
            IsSubsequence(fps[..|fps| - 1], c.folderProfiles)
  {
    var fps := SetFolderProfile(c, p, n).folderProfiles;
    assert fps[..|fps| - 1] == Filter(c.folderProfiles, (fp: FolderProfile) => fp.path != p);
    var _ := FilterKeepsOrder(c.folderProfiles, (fp: FolderProfile) => fp.path != p);
  }

  /** Setting a folder and resolving that same folder gives the profile just
      set: the new entry is as long as the query, and any earlier entry of
      that length would have the same path and was removed. */
  lemma {:induction false} SetThenResolve(c: GitXConfig, p: string, n: string)
    requires p != ""
    ensures GetFolderProfile(SetFolderProfile(c, p, n), p) == Some(n)
  {
    var r := SetFolderProfile(c, p, n);
    var fps := r.folderProfiles;
    var last := |fps| - 1;
    assert IsBestMatch(fps, p, last) by {
      forall j | 0 <= j < |fps| && Applies(fps[j], p)
        ensures |fps[j].path| <= |fps[last].path|
      {
        assert fps[j].path <= p;
      }
      forall j | 0 <= j < last && Applies(fps[j], p)
        ensures |fps[j].path| < |fps[last].path|
      {
        assert fps[j].path <= p && fps[j].path != p;
      }
    }
    var b := BestMatch(fps, p);
    BestMatchUnique(fps, p, b.value, last);
  }

  /** Setting the same path twice leaves a single association for it, holding
      the later profile. */
  lemma SetFolderProfileTwice(c: GitXConfig, p: string, n1: string, n2: string)
    ensures var fps := SetFolderProfile(SetFolderProfile(c, p, n1), p, n2).folderProfiles;
            forall j :: 0 <= j < |fps| && fps[j].path == p ==> j == |fps| - 1 && fps[j].profile == n2
  {
  }

  /** `removeFolderProfile`: drops only the entries whose path equals `p`. */
  function RemoveFolderProfile(c: GitXConfig, p: string): (r: GitXConfig)
    ensures forall fp :: fp in r.folderProfiles <==> fp in c.folderProfiles && fp.path != p
    ensures r.profiles == c.profiles && r.defaultProfile == c.defaultProfile
  {
    c.(folderProfiles := WithoutPath(c.folderProfiles, p))
  }

  /** Removal is by exact path, so a folder inside an associated parent still
      resolves after its own association is removed. */
  lemma RemoveKeepsInherited(c: GitXConfig, p: string, parent: FolderProfile)
    requires parent in c.folderProfiles && Applies(parent, p) && parent.path != p
    ensures GetFolderProfile(RemoveFolderProfile(c, p), p).Some?
  {
    assert parent in RemoveFolderProfile(c, p).folderProfiles;
  }

  /** `setDefaultProfile`: records the name without checking that a profile
      of that name exists. */
  function SetDefaultProfile(c: GitXConfig, n: string): (r: GitXConfig)
    ensures r.defaultProfile == Some(n)
    ensures r.profiles == c.profiles && r.folderProfiles == c.folderProfiles
  {
    c.(defaultProfile := Some(n))
  }

  /** The resolution rule determines `getFolderProfile`'s answer. */
  lemma ResolvesToBest(c: GitXConfig, q: string, b: int)
    requires IsBestMatch(c.folderProfiles, q, b)
    ensures GetFolderProfile(c, q) == Some(c.folderProfiles[b].profile)
  {
    var m := BestMatch(c.folderProfiles, q);
    assert Applies(c.folderProfiles[b], q);
    BestMatchUnique(c.folderProfiles, q, m.value, b);
  }

  /** Resolution is by character prefix: `/a/work` also claims `/a/work2`. */
  lemma PrefixNotSegment()
    ensures GetFolderProfile(GitXConfig([], [FolderProfile("/a/work", "w")], None), "/a/work2") == Some("w")
  {
    var c := GitXConfig([], [FolderProfile("/a/work", "w")], None);
    assert "/a/work" <= "/a/work2";
    ResolvesToBest(c, "/a/work2", 0);
  }

  /** With `/r` and `/r/sub` associated, the nested association wins
      inside its folder ... */
  lemma NestedDeep()
    ensures GetFolderProfile(GitXConfig([], [FolderProfile("/r", "p1"), FolderProfile("/r/sub", "p2")], None),
                             "/r/sub/deep") == Some("p2")
  {
    var c := GitXConfig([], [FolderProfile("/r", "p1"), FolderProfile("/r/sub", "p2")], None);
    assert "/r" <= "/r/sub/deep" && "/r/sub" <= "/r/sub/deep";
    ResolvesToBest(c, "/r/sub/deep", 1);
  }

  /** ... the parent association covers the parent's other folders ... */
  lemma NestedSibling()
    ensures GetFolderProfile(GitXConfig([], [FolderProfile("/r", "p1"), FolderProfile("/r/sub", "p2")], None),
                             "/r/other") == Some("p1")
  {
    var c := GitXConfig([], [FolderProfile("/r", "p1"), FolderProfile("/r/sub", "p2")], None);
    assert "/r" <= "/r/other";
    assert "/r/sub"[3] != "/r/other"[3];
    ResolvesToBest(c, "/r/other", 0);
  }

  /** ... and neither covers a folder outside both. */
  lemma NestedOutside()
    ensures GetFolderProfile(GitXConfig([], [FolderProfile("/r", "p1"), FolderProfile("/r/sub", "p2")], None),
                             "/x") == None
  {
    assert "/r"[1] != "/x"[1] && "/r/sub"[1] != "/x"[1];
  }
}
