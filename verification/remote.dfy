/** `RemoteCommand` (src/commands/remote.ts): the URL rewriting that routes
    a remote through a profile's SSH host alias, the `git remote -v` parser
    and the `add`, `fix` and `clone` decisions built on them. */
module Remote {
  import opened Types
  import opened Strings
  import opened Seqs
  import ConfigStore
  import Ssh

  const GithubSsh := "git@github.com:"
  const GitlabSsh := "git@gitlab.com:"
  const HttpsScheme := "https://"

  /** `git@<host>.com-<profile>:`, the head of a URL routed through an alias. */
  function AliasHead(host: string, profileName: string): string {
    "git@" + host + ".com-" + profileName + ":"
  }

  // ---------------------------------------------------------------------
  // the suffix regex `(github|gitlab)\.com-\w+`

  /** The character class repeated after `.com-`: `\w` as the source has it,
      or `[\w-]`, which also covers the hyphens profile names may contain. */
  datatype SuffixClass = WordChars | WordCharsAndHyphen

  predicate InClass(c: char, cls: SuffixClass) {
    IsWordChar(c) || (cls == WordCharsAndHyphen && c == '-')
  }

  /** A profile name all of whose characters the class covers. */
  predicate ClassName(profileName: string, cls: SuffixClass) {
    |profileName| > 0 && forall k :: 0 <= k < |profileName| ==> InClass(profileName[k], cls)
  }

  predicate HostAt(s: string, j: nat) {
    OccursAt(s, "github.com-", j) || OccursAt(s, "gitlab.com-", j)
  }

  /** The regex matches at `j`: a suffixed host followed by at least one
      character of the class. */
  predicate MatchAt(s: string, j: nat, cls: SuffixClass) {
    HostAt(s, j) && j + 11 < |s| && InClass(s[j + 11], cls)
  }

  /** The leftmost match at or after `from`, or -1. */
  function FirstMatchFrom(s: string, cls: SuffixClass, from: nat): (r: int)
    ensures r == -1 || (from <= r && MatchAt(s, r, cls))
    ensures forall j: nat :: from <= j && (r == -1 || j < r) ==> !MatchAt(s, j, cls)
    decreases |s| - from
  {
    if from + 11 >= |s| then -1
    else if MatchAt(s, from, cls) then from
    else FirstMatchFrom(s, cls, from + 1)
  }

  /** Where the greedy class run starting at `k` ends. */
  function SuffixEnd(s: string, k: nat, cls: SuffixClass): (e: nat)
    requires k <= |s|
    ensures k <= e <= |s|
    ensures forall m :: k <= m < e ==> InClass(s[m], cls)
    ensures e == |s| || !InClass(s[e], cls)
  {
    Span(s, k, (c: char) => InClass(c, cls))
  }

  /** `url.replace(/(github|gitlab)\.com-<cls>+/, '$1.com-' + profileName)`:
      the first match only; `$1.com-` re-emits the eleven matched host
      characters, so the run after them is what gets replaced. */
  function ReplaceSuffix(url: string, profileName: string, cls: SuffixClass): string {
    var i := FirstMatchFrom(url, cls, 0);
    if i < 0 then url else url[..i + 11] + profileName + url[SuffixEnd(url, i + 11, cls)..]
  }

  /** The replacement in terms of the regex's meaning: the leftmost match,
      and the maximal run after it. */
  lemma ReplaceSuffixSpec(url: string, profileName: string, cls: SuffixClass, i: nat, e: nat)
    requires MatchAt(url, i, cls) && forall j: nat :: j < i ==> !MatchAt(url, j, cls)
    requires i + 11 <= e <= |url| && forall m :: i + 11 <= m < e ==> InClass(url[m], cls)
    requires e == |url| || !InClass(url[e], cls)
    ensures ReplaceSuffix(url, profileName, cls) == url[..i + 11] + profileName + url[e..]
  {
    SpanUnique(url, i + 11, e, (c: char) => InClass(c, cls));
  }

  // ---------------------------------------------------------------------
  // transformURL

  /** The rules before the suffix rewrite: an SSH URL of either host, or an
      https URL mentioning either host. */
  predicate EarlierRule(url: string) {
    || GithubSsh <= url
    || GitlabSsh <= url
    || (HttpsScheme <= url && (Contains(url, "github.com") || Contains(url, "gitlab.com")))
  }

  /** `transformURL(url, profileName)`, with the class of the suffix regex a
      parameter. Rules are tried in order; the first that applies wins. */
  function TransformWith(url: string, profileName: string, cls: SuffixClass): (r: string)
    ensures GithubSsh <= url ==> r == AliasHead("github", profileName) + url[|GithubSsh|..]
    ensures !(GithubSsh <= url) && GitlabSsh <= url ==>
              r == AliasHead("gitlab", profileName) + url[|GitlabSsh|..]
    ensures !(GithubSsh <= url) && !(GitlabSsh <= url) && HttpsScheme <= url && Contains(url, "github.com") ==>
              r == AliasHead("github", profileName) + ReplaceFirst(url, "https://github.com/", "")
    ensures !(GithubSsh <= url) && !(GitlabSsh <= url) && HttpsScheme <= url
            && !Contains(url, "github.com") && Contains(url, "gitlab.com") ==>
              r == AliasHead("gitlab", profileName) + ReplaceFirst(url, "https://gitlab.com/", "")
    ensures !EarlierRule(url) ==> r == ReplaceSuffix(url, profileName, cls)
    ensures !EarlierRule(url) && (forall j: nat :: !MatchAt(url, j, cls)) ==> r == url
  {
    if GithubSsh <= url then
      ReplacePrefix(url, GithubSsh, AliasHead("github", profileName));
      ReplaceFirst(url, GithubSsh, AliasHead("github", profileName))
    else if GitlabSsh <= url then
      ReplacePrefix(url, GitlabSsh, AliasHead("gitlab", profileName));
      ReplaceFirst(url, GitlabSsh, AliasHead("gitlab", profileName))
    else if Contains(url, "github.com") && HttpsScheme <= url then
      AliasHead("github", profileName) + ReplaceFirst(url, "https://github.com/", "")
    else if Contains(url, "gitlab.com") && HttpsScheme <= url then
      AliasHead("gitlab", profileName) + ReplaceFirst(url, "https://gitlab.com/", "")
    else if Contains(url, "github.com-") || Contains(url, "gitlab.com-") then
      ReplaceSuffix(url, profileName, cls)
    else
      url
  }

  /** Rule 3, an https URL mentioning github.com, as the transform applies it. */
  lemma HttpsGithubRule(url: string, profileName: string, cls: SuffixClass)
    requires HttpsScheme <= url && !(GithubSsh <= url) && !(GitlabSsh <= url) && Contains(url, "github.com")
    ensures TransformWith(url, profileName, cls)
            == AliasHead("github", profileName) + ReplaceFirst(url, "https://github.com/", "")
  {
  }

  /** Rule 4, an https URL mentioning gitlab.com but not github.com. */
  lemma HttpsGitlabRule(url: string, profileName: string, cls: SuffixClass)
    requires HttpsScheme <= url && !(GithubSsh <= url) && !(GitlabSsh <= url)
    requires !Contains(url, "github.com") && Contains(url, "gitlab.com")
    ensures TransformWith(url, profileName, cls)
            == AliasHead("gitlab", profileName) + ReplaceFirst(url, "https://gitlab.com/", "")
  {
  }

  /** An https URL starts with neither SSH prefix. */
  lemma HttpsNotSsh(url: string)
    requires HttpsScheme <= url
    ensures !(GithubSsh <= url) && !(GitlabSsh <= url)
  {
    assert url[0] == 'h';
  }

  /** What a URL under `https://<host>/` satisfies of rules 3 and 4, for a
      ten-character host such as github.com or gitlab.com. */
  lemma HttpsHostFacts(url: string, host: string, prefix: string)
    requires |host| == 10 && prefix == HttpsScheme + host + "/" && prefix <= url
    ensures HttpsScheme <= url && Contains(url, host)
    ensures ReplaceFirst(url, prefix, "") == url[19..]
  {
    assert url[..8] == prefix[..8] == "https://";
    assert url[8..18] == prefix[8..18] == host;
    OccurrenceFound(url, host, 8);
    ReplacePrefix(url, prefix, "");
  }

  /** The two https prefixes the rules strip. */
  lemma HostPrefixes()
    ensures "https://github.com/" == HttpsScheme + "github.com" + "/"
    ensures "https://gitlab.com/" == HttpsScheme + "gitlab.com" + "/"
  {
  }

  /** A URL under `https://github.com/` keeps the path after it. */
  lemma HttpsGithub(url: string, profileName: string, cls: SuffixClass)
    requires "https://github.com/" <= url
    ensures TransformWith(url, profileName, cls) == AliasHead("github", profileName) + url[19..]
  {
    HostPrefixes();
    HttpsHostFacts(url, "github.com", "https://github.com/");
    HttpsNotSsh(url);
    HttpsGithubRule(url, profileName, cls);
  }

  /** An https URL that mentions github.com anywhere but not right after the
      scheme is kept whole as the path. */
  lemma HttpsGithubElsewhere(url: string, profileName: string, cls: SuffixClass)
    requires HttpsScheme <= url && Contains(url, "github.com") && !Contains(url, "https://github.com/")
    ensures TransformWith(url, profileName, cls) == AliasHead("github", profileName) + url
  {
    HttpsNotSsh(url);
    HttpsGithubRule(url, profileName, cls);
  }

  /** gitlab.com is consulted only when github.com is not mentioned. */
  lemma HttpsGitlab(url: string, profileName: string, cls: SuffixClass)
    requires "https://gitlab.com/" <= url && !Contains(url, "github.com")
    ensures TransformWith(url, profileName, cls) == AliasHead("gitlab", profileName) + url[19..]
  {
    HostPrefixes();
    HttpsHostFacts(url, "gitlab.com", "https://gitlab.com/");
    HttpsNotSsh(url);
    HttpsGitlabRule(url, profileName, cls);
  }

  // ---------------------------------------------------------------------
  // fixed points

  /** A string with a suffixed host within its first four characters does
      not start with `git@`, so neither SSH rule applies to it. */
  lemma EarlyHostNotSsh(s: string, i: nat)
    requires HostAt(s, i) && i < 4
    ensures !(GithubSsh <= s) && !(GitlabSsh <= s)
  {
    var h := s[i..i + 11];
    assert h[0] == 'g' && (h[3] == 'h' || h[3] == 'l');
    if i == 0 {
      assert s[3] != '@';
    } else {
      assert s[i] != "git@"[i];
    }
  }

  /** `s` starts with `git@<host>.com-`, the head of an aliased URL. */
  predicate AliasPrefixed(s: string, host: string) {
    (host == "github" || host == "gitlab") && "git@" + host + ".com-" <= s
  }

  /** No rule before the suffix rewrite applies to an aliased URL. */
  lemma AliasNotEarlier(s: string, host: string)
    requires AliasPrefixed(s, host)
    ensures !EarlierRule(s)
  {
    assert s[14] == '-';
    assert s[0] == 'g';
  }

  /** In an aliased URL with a class character after the dash, the suffix
      regex first matches at the host, right after `git@`. */
  lemma AliasFirstMatch(s: string, host: string, cls: SuffixClass)
    requires AliasPrefixed(s, host) && |s| > 15 && InClass(s[15], cls)
    ensures MatchAt(s, 4, cls)
    ensures forall j: nat :: j < 4 ==> !MatchAt(s, j, cls)
  {
    assert s[..4] == "git@" && s[4..15] == host + ".com-";
    assert HostAt(s, 4) by {
      assert s[4..15] == "github.com-" || s[4..15] == "gitlab.com-";
    }
    NoHostInGitAt(s);
  }

  /** No suffixed host starts inside a leading `git@`. */
  lemma NoHostInGitAt(s: string)
    requires |s| >= 4 && s[..4] == "git@"
    ensures forall j: nat :: j < 4 ==> !HostAt(s, j)
  {
    forall j: nat | j < 4
      ensures !HostAt(s, j)
    {
      if j == 0 {
        assert |s| < 11 || s[j..j + 11][3] == '@';
      } else {
        assert |s| < j + 11 || s[j..j + 11][0] != 'g';
      }
    }
  }

  /** On an aliased URL the transform replaces the class run after the dash,
      which ends at `e`, with the profile name. */
  lemma AliasRewrite(s: string, host: string, profileName: string, cls: SuffixClass, e: nat)
    requires AliasPrefixed(s, host)
    requires 15 < e <= |s| && forall m :: 15 <= m < e ==> InClass(s[m], cls)
    requires e == |s| || !InClass(s[e], cls)
    ensures TransformWith(s, profileName, cls) == s[..15] + profileName + s[e..]
  {
    AliasNotEarlier(s, host);
    AliasFirstMatch(s, host, cls);
    SuffixRuleApplies(s, profileName, cls, 4, e);
  }

  /** Rule 5 on the transform's own output: the old profile suffix is
      replaced by the new one and nothing else changes. */
  lemma AliasRetarget(host: string, previous: string, profileName: string, rest: string, cls: SuffixClass)
    requires host == "github" || host == "gitlab"
    requires ClassName(previous, cls)
    ensures TransformWith(AliasHead(host, previous) + rest, profileName, cls)
            == AliasHead(host, profileName) + rest
  {
    var s := AliasHead(host, previous) + rest;
    AliasShape(host, previous, rest, cls);
    AliasRewrite(s, host, profileName, cls, 15 + |previous|);
    AliasRejoin(host, previous, profileName, rest);
  }

  /** An aliased URL: the host prefix, then the profile name as a class run
      that the `:` ends. */
  lemma AliasShape(host: string, previous: string, rest: string, cls: SuffixClass)
    requires host == "github" || host == "gitlab"
    requires ClassName(previous, cls)
    ensures var s := AliasHead(host, previous) + rest;
            var n := |previous|;
            && AliasPrefixed(s, host)
            && 15 < 15 + n < |s| && (forall m :: 15 <= m < 15 + n ==> InClass(s[m], cls))
            && !InClass(s[15 + n], cls)
  {
    var s := AliasHead(host, previous) + rest;
    var n := |previous|;
    assert s[..15] == "git@" + host + ".com-";
    assert s[15..15 + n] == previous && s[15 + n] == ':';
    forall m | 15 <= m < 15 + n
      ensures InClass(s[m], cls)
    {
      assert s[m] == previous[m - 15];
    }
  }

  /** Putting a new profile name between the host prefix and the rest of an
      aliased URL gives the alias for the new name. */
  lemma AliasRejoin(host: string, previous: string, profileName: string, rest: string)
    requires host == "github" || host == "gitlab"
    ensures var s := AliasHead(host, previous) + rest;
            15 + |previous| <= |s|
            && s[..15] + profileName + s[15 + |previous|..] == AliasHead(host, profileName) + rest
  {
    var s := AliasHead(host, previous) + rest;
    assert s[..15] == "git@" + host + ".com-";
    assert s[15 + |previous|..] == ":" + rest;
  }

  /** An aliased URL the transform produced is left alone by the transform
      for the same profile. */
  lemma AliasFixed(host: string, profileName: string, rest: string, cls: SuffixClass)
    requires host == "github" || host == "gitlab"
    requires ClassName(profileName, cls)
    ensures TransformWith(AliasHead(host, profileName) + rest, profileName, cls)
            == AliasHead(host, profileName) + rest
  {
    AliasRetarget(host, profileName, profileName, rest, cls);
  }

  /** The result of the suffix rule keeps the URL's first `i + 11`
      characters, so no earlier rule applies to it either, and its leftmost
      match is still at `i`. */
  lemma SuffixResultShape(url: string, r: string, i: nat, cls: SuffixClass)
    requires !EarlierRule(url) && MatchAt(url, i, cls)
    requires forall j: nat :: j < i ==> !MatchAt(url, j, cls)
    requires i + 11 < |r| && r[..i + 11] == url[..i + 11] && InClass(r[i + 11], cls)
    ensures !EarlierRule(r) && MatchAt(r, i, cls)
    ensures forall j: nat :: j < i ==> !MatchAt(r, j, cls)
  {
    assert HostAt(r, i) by {
      assert r[i..i + 11] == url[i..i + 11];
    }
    HostNotHttps(url, i);
    assert !(HttpsScheme <= r) by {
      assert r[..8] == url[..8];
    }
    SamePrefixNotSsh(url, r, i);
    SamePrefixNoEarlierMatch(url, r, i, cls);
  }

  /** A URL with a suffixed host mentions the host, so an https URL with
      one would have been taken by rule 3 or 4. */
  lemma HostNotHttps(url: string, i: nat)
    requires !EarlierRule(url) && HostAt(url, i)
    ensures !(HttpsScheme <= url)
  {
    var h := url[i..i + 11];
    if h == "github.com-" {
      assert url[i..i + 10] == h[..10] == "github.com";
      OccurrenceFound(url, "github.com", i);
    } else {
      assert url[i..i + 10] == h[..10] == "gitlab.com";
      OccurrenceFound(url, "gitlab.com", i);
    }
  }

  /** Neither SSH prefix appears at the start of a string that shares the
      first `i + 11` characters, host included, with one that has none. */
  lemma SamePrefixNotSsh(url: string, r: string, i: nat)
    requires i + 11 <= |r| && i + 11 <= |url| && r[..i + 11] == url[..i + 11] && HostAt(r, i)
    requires !(GithubSsh <= url) && !(GitlabSsh <= url)
    ensures !(GithubSsh <= r) && !(GitlabSsh <= r)
  {
    if i < 4 {
      EarlyHostNotSsh(r, i);
    } else {
      assert r[..15] == url[..15];
    }
  }

  /** No match starts before `i` in a string sharing the first `i + 11`
      characters with one that has none there. */
  lemma SamePrefixNoEarlierMatch(url: string, r: string, i: nat, cls: SuffixClass)
    requires i + 11 <= |r| && i + 11 <= |url| && r[..i + 11] == url[..i + 11]
    requires forall j: nat :: j < i ==> !MatchAt(url, j, cls)
    ensures forall j: nat :: j < i ==> !MatchAt(r, j, cls)
  {
    forall j: nat | j < i
      ensures !MatchAt(r, j, cls)
    {
      assert r[j..j + 11] == url[j..j + 11];
      assert r[j + 11] == url[j + 11];
      assert !MatchAt(url, j, cls);
    }
  }

  /** What the suffix rule produced, the suffix rule reproduces: the match
      stays the leftmost one and the new run ends where the profile name
      ends, because the character after the old run was not in the class. */
  lemma SuffixRuleFixed(url: string, profileName: string, cls: SuffixClass)
    requires !EarlierRule(url) && FirstMatchFrom(url, cls, 0) >= 0
    requires ClassName(profileName, cls)
    ensures var r := TransformWith(url, profileName, cls);
            TransformWith(r, profileName, cls) == r
  {
    var i: nat := FirstMatchFrom(url, cls, 0);
    var e := SuffixEnd(url, i + 11, cls);
    var r := url[..i + 11] + profileName + url[e..];
    SuffixRuleApplies(url, profileName, cls, i, e);
    NameRun(url, profileName, cls, i, e, r);
    SuffixResultShape(url, r, i, cls);
    SuffixRuleApplies(r, profileName, cls, i, i + 11 + |profileName|);
    assert r[..i + 11] + profileName + r[i + 11 + |profileName|..] == r;
  }

  /** The suffix rule in terms of the regex's meaning: when no earlier rule
      applies, the leftmost match is at `i` and the run after it ends at
      `e`, the run is replaced by the profile name. */
  lemma SuffixRuleApplies(url: string, profileName: string, cls: SuffixClass, i: nat, e: nat)
    requires !EarlierRule(url)
    requires MatchAt(url, i, cls) && forall j: nat :: j < i ==> !MatchAt(url, j, cls)
    requires i + 11 <= e <= |url| && forall m :: i + 11 <= m < e ==> InClass(url[m], cls)
    requires e == |url| || !InClass(url[e], cls)
    ensures TransformWith(url, profileName, cls) == url[..i + 11] + profileName + url[e..]
  {
    ReplaceSuffixSpec(url, profileName, cls, i, e);
  }

  /** After the rewrite, the run after the host is exactly the profile name. */
  lemma NameRun(url: string, profileName: string, cls: SuffixClass, i: nat, e: nat, r: string)
    requires i + 11 <= e <= |url| && (e == |url| || !InClass(url[e], cls))
    requires ClassName(profileName, cls)
    requires r == url[..i + 11] + profileName + url[e..]
    ensures i + 11 < |r| && r[..i + 11] == url[..i + 11] && InClass(r[i + 11], cls)
    ensures i + 11 + |profileName| <= |r|
    ensures forall m :: i + 11 <= m < i + 11 + |profileName| ==> InClass(r[m], cls)
    ensures i + 11 + |profileName| == |r| || !InClass(r[i + 11 + |profileName|], cls)
  {
    var n := |profileName|;
    assert r[..i + 11] == url[..i + 11];
    forall m | i + 11 <= m < i + 11 + n
      ensures InClass(r[m], cls)
    {
      assert r[m] == profileName[m - i - 11];
    }
    if e < |url| {
      assert r[i + 11 + n] == url[e];
    }
  }

  /** Transforming twice is transforming once, for a profile name the
      suffix class covers. */
  lemma TransformIdempotent(url: string, profileName: string, cls: SuffixClass)
    requires ClassName(profileName, cls)
    ensures var r := TransformWith(url, profileName, cls);
            TransformWith(r, profileName, cls) == r
  {
    if GithubSsh <= url {
      AliasFixed("github", profileName, url[15..], cls);
    } else if GitlabSsh <= url {
      AliasFixed("gitlab", profileName, url[15..], cls);
    } else if Contains(url, "github.com") && HttpsScheme <= url {
      AliasFixed("github", profileName, ReplaceFirst(url, "https://github.com/", ""), cls);
    } else if Contains(url, "gitlab.com") && HttpsScheme <= url {
      AliasFixed("gitlab", profileName, ReplaceFirst(url, "https://gitlab.com/", ""), cls);
    } else if FirstMatchFrom(url, cls, 0) >= 0 {
      SuffixRuleFixed(url, profileName, cls);
    }
  }

  // ---------------------------------------------------------------------
  // the source's regex and the corrected one

  /** `transformURL` exactly as written: the suffix regex uses `\w+`, and
      the result is left alone by a second pass only for profile names
      without hyphens. */
  function TransformUrlAsWritten(url: string, profileName: string): (r: string)
    ensures ClassName(profileName, WordChars) ==> TransformWith(r, profileName, WordChars) == r
  {
    if ClassName(profileName, WordChars) then
      TransformIdempotent(url, profileName, WordChars);
      TransformWith(url, profileName, WordChars)
    else TransformWith(url, profileName, WordChars)
  }

  /** `transformURL` with the suffix regex `(github|gitlab)\.com-[\w-]+`,
      which covers every profile name the validators accept, so a second
      pass leaves every result alone. */
  function TransformUrl(url: string, profileName: string): (r: string)
    ensures ClassName(profileName, WordCharsAndHyphen) ==> TransformWith(r, profileName, WordCharsAndHyphen) == r
  {
    if ClassName(profileName, WordCharsAndHyphen) then
      TransformIdempotent(url, profileName, WordCharsAndHyphen);
      TransformWith(url, profileName, WordCharsAndHyphen)
    else TransformWith(url, profileName, WordCharsAndHyphen)
  }

  /** The program the commands run: the source as written, or corrected in
      two places: the suffix regex matches the class `[\w-]+` instead of
      `\w+`, so a hyphenated profile name is recognised as the suffix it
      wrote; and the clone directory drops only a trailing `.git` instead of
      the first `.git` anywhere in the last piece of the URL. */
  datatype Variant = AsWritten | Corrected

  function SuffixOf(v: Variant): SuffixClass {
    if v == AsWritten then WordChars else WordCharsAndHyphen
  }

  /** With `\w+`, a hyphenated profile name is not recognised as the suffix
      it wrote: a second pass replaces only the part before the first hyphen
      and so repeats the rest, and every further pass grows the URL again. */
  lemma HyphenatedSuffixGrows(head: string, tail: string, rest: string)
    requires |head| > 0 && forall k :: 0 <= k < |head| ==> IsWordChar(head[k])
    ensures var profileName := head + "-" + tail;
            var once := TransformUrlAsWritten(GithubSsh + rest, profileName);
            && once == AliasHead("github", profileName) + rest
            && TransformUrlAsWritten(once, profileName) == AliasHead("github", profileName + "-" + tail) + rest
            && TransformUrlAsWritten(once, profileName) != once
  {
    var profileName := head + "-" + tail;
    GithubSshRule(rest, profileName, WordChars);
    HyphenSecondPass(head, tail, rest);
  }

  /** Appending to the profile name of a GitHub aliased URL. */
  lemma GithubAliasAppend(profileName: string, more: string, rest: string)
    ensures AliasHead("github", profileName + more) + rest
            == "git@github.com-" + profileName + (more + ":" + rest)
  {
    assert "git@" + "github" + ".com-" == "git@github.com-";
  }

  /** With `\w+`, the run after `github.com-` stops at a hyphen. */
  lemma RunStopsAtHyphen(head: string, after: string, profileName: string)
    requires |head| > 0 && forall k :: 0 <= k < |head| ==> IsWordChar(head[k])
    requires |after| > 0 && after[0] == '-'
    ensures TransformUrlAsWritten("git@github.com-" + head + after, profileName)
            == "git@github.com-" + profileName + after
  {
    var pre := "git@github.com-";
    var s := pre + head + after;
    var e := 15 + |head|;
    assert s[..15] == pre && s[e..] == after;
    assert "git@" + "github" + ".com-" == pre;
    forall m | 15 <= m < e
      ensures InClass(s[m], WordChars)
    {
      assert s[m] == head[m - 15];
    }
    AliasRewrite(s, "github", profileName, WordChars, e);
  }

  /** The second pass of `HyphenatedSuffixGrows`. */
  lemma HyphenSecondPass(head: string, tail: string, rest: string)
    requires |head| > 0 && forall k :: 0 <= k < |head| ==> IsWordChar(head[k])
    ensures var profileName := head + "-" + tail;
            TransformUrlAsWritten(AliasHead("github", profileName) + rest, profileName)
            == AliasHead("github", profileName + "-" + tail) + rest
  {
    var profileName := head + "-" + tail;
    assert profileName == head + ("-" + tail);
    assert profileName + "-" + tail == profileName + ("-" + tail);
    GithubAliasAppend(head, "-" + tail, rest);
    RunStopsAtHyphen(head, "-" + tail + ":" + rest, profileName);
    GithubAliasAppend(profileName, "-" + tail, rest);
  }

  /** The URLs produced for either host go through exactly the aliases that
      the SSH configuration declares. */
  lemma AliasesAgreeWithSshConfig(profileName: string)
    ensures AliasHead("github", profileName) == "git@" + Ssh.GithubAlias(profileName) + ":"
    ensures AliasHead("gitlab", profileName) == "git@" + Ssh.GitlabAlias(profileName) + ":"
  {
  }

  /** Rule 6: a URL that is not an SSH URL and mentions neither host is
      returned unchanged. */
  lemma UnknownHostUnchanged(url: string, profileName: string, cls: SuffixClass)
    requires !(GithubSsh <= url) && !(GitlabSsh <= url)
    requires !Contains(url, "github.com") && !Contains(url, "gitlab.com")
    ensures TransformWith(url, profileName, cls) == url
  {
    if Contains(url, "github.com-") {
      assert "github.com" + "-" == "github.com-";
      ContainsPrefixOfMatch(url, "github.com", "-");
    }
    if Contains(url, "gitlab.com-") {
      assert "gitlab.com" + "-" == "gitlab.com-";
      ContainsPrefixOfMatch(url, "gitlab.com", "-");
    }
  }

  /** Rule 1: a GitHub SSH URL is routed through the alias, path kept. */
  lemma GithubSshRule(rest: string, profileName: string, cls: SuffixClass)
    ensures TransformWith(GithubSsh + rest, profileName, cls) == AliasHead("github", profileName) + rest
  {
    assert (GithubSsh + rest)[|GithubSsh|..] == rest;
  }

  /** The documented example of an SSH URL, for any path such as
      `acme/repo.git`: `git@github.com:<path>` becomes
      `git@github.com-work:<path>` for the profile `work`. */
  lemma SshExample(path: string)
    ensures TransformUrl("git@github.com:" + path, "work") == "git@github.com-work:" + path
  {
    GithubSshRule(path, "work", WordCharsAndHyphen);
    WorkAlias();
  }

  /** The GitHub alias head of the profile `work`. */
  lemma WorkAlias()
    ensures AliasHead("github", "work") == "git@github.com-work:"
  {
  }

  // ---------------------------------------------------------------------
  // `git remote -v`

  predicate NonSpace(c: char) {
    !IsSpace(c)
  }

  datatype RemoteEntry = RemoteEntry(name: string, url: string)

  /** `line.match(/^(\S+)\s+(\S+)\s+\(push\)/)`. Each quantifier is greedy
      and meets the complementary class or `(` next, so backtracking never
      yields another match: the groups are the maximal runs. */
  function ParsePushLine(line: string): (r: Option<RemoteEntry>)
    ensures r.Some? ==> r.value.name != "" && r.value.url != ""
  {
    var a := Span(line, 0, NonSpace);
    var b := Span(line, a, IsSpace);
    var c := Span(line, b, NonSpace);
    var d := Span(line, c, IsSpace);
    if 0 < a < b < c < d && "(push)" <= line[d..] then Some(RemoteEntry(line[..a], line[b..c]))
    else None
  }

  /** The line starts with a name, white space, a URL, white space and
      `(push)`. */
  predicate PushLineShape(line: string, name: string, gap1: string, url: string, gap2: string) {
    && |name| > 0 && NoSpace(name) && |gap1| > 0 && AllSpace(gap1)
    && |url| > 0 && NoSpace(url) && |gap2| > 0 && AllSpace(gap2)
    && name + gap1 + url + gap2 + "(push)" <= line
  }

  /** What the parser accepts has the shape the pattern describes. */
  lemma ParsePushLineSound(line: string)
    requires ParsePushLine(line).Some?
    ensures var e := ParsePushLine(line).value;
            exists gap1, gap2 :: PushLineShape(line, e.name, gap1, e.url, gap2)
  {
    var a := Span(line, 0, NonSpace);
    var b := Span(line, a, IsSpace);
    var c := Span(line, b, NonSpace);
    var d := Span(line, c, IsSpace);
    var name, gap1, url, gap2 := line[..a], line[a..b], line[b..c], line[c..d];
    RunSlice(line, 0, a, NonSpace);
    RunSlice(line, a, b, IsSpace);
    RunSlice(line, b, c, NonSpace);
    RunSlice(line, c, d, IsSpace);
    SlicesPrefix(line, a, b, c, d);
    assert PushLineShape(line, name, gap1, url, gap2);
  }

  /** The slice over a run of `p`-characters has only `p`-characters. */
  lemma RunSlice(line: string, k: nat, e: nat, p: char -> bool)
    requires k <= e <= |line| && forall m :: k <= m < e ==> p(line[m])
    ensures forall m :: 0 <= m < |line[k..e]| ==> p(line[k..e][m])
    ensures k == 0 ==> forall m :: 0 <= m < |line[..e]| ==> p(line[..e][m])
  {
    assert forall m :: 0 <= m < e - k ==> line[k..e][m] == line[k + m];
    assert forall m :: 0 <= m < e ==> line[..e][m] == line[m];
  }

  /** Four consecutive slices followed by `(push)` are a prefix of the line. */
  lemma SlicesPrefix(line: string, a: nat, b: nat, c: nat, d: nat)
    requires a <= b <= c <= d <= |line| && "(push)" <= line[d..]
    ensures line[..a] + line[a..b] + line[b..c] + line[c..d] + "(push)" <= line
  {
    assert line[..d + 6] == line[..a] + line[a..b] + line[b..c] + line[c..d] + "(push)";
  }

  /** A run of `p`-characters at `k` followed by one that is not: the span
      from `k` ends right after the run. */
  lemma SpanOverRun(line: string, k: nat, run: string, p: char -> bool)
    requires k + |run| < |line| && line[k..k + |run|] == run
    requires forall m :: 0 <= m < |run| ==> p(run[m])
    requires !p(line[k + |run|])
    ensures Span(line, k, p) == k + |run|
  {
    forall m | k <= m < k + |run| ensures p(line[m]) {
      assert line[m] == run[m - k];
    }
    SpanUnique(line, k, k + |run|, p);
  }

  /** Where the four pieces of a push line sit. */
  lemma ShapeSlices(line: string, name: string, gap1: string, url: string, gap2: string)
    requires PushLineShape(line, name, gap1, url, gap2)
    ensures var a, b := |name|, |name| + |gap1|;
            var c := b + |url|;
            var d := c + |gap2|;
            && d + 6 <= |line|
            && line[..a] == name && line[a..b] == gap1 && line[b..c] == url && line[c..d] == gap2
            && line[d..d + 6] == "(push)"
            && line[a] == gap1[0] && line[b] == url[0] && line[c] == gap2[0] && line[d] == '('
  {
    var whole := name + gap1 + url + gap2 + "(push)";
    assert line[..|whole|] == whole;
  }

  /** Every line of that shape is parsed into its name and URL. */
  lemma ParsePushLineComplete(line: string, name: string, gap1: string, url: string, gap2: string)
    requires PushLineShape(line, name, gap1, url, gap2)
    ensures ParsePushLine(line) == Some(RemoteEntry(name, url))
  {
    var a, b := |name|, |name| + |gap1|;
    var c := b + |url|;
    var d := c + |gap2|;
    ShapeSlices(line, name, gap1, url, gap2);
    ShapeSpans(line, name, gap1, url, gap2);
    assert "(push)" <= line[d..];
    ParseAtSpans(line, a, b, c, d, name, url);
  }

  /** The parser's decision once the four spans are known. */
  lemma ParseAtSpans(line: string, a: nat, b: nat, c: nat, d: nat, name: string, url: string)
    requires Span(line, 0, NonSpace) == a && Span(line, a, IsSpace) == b
    requires Span(line, b, NonSpace) == c && Span(line, c, IsSpace) == d
    requires 0 < a < b < c < d <= |line| && "(push)" <= line[d..]
    requires line[..a] == name && line[b..c] == url
    ensures ParsePushLine(line) == Some(RemoteEntry(name, url))
  {
  }

  /** The four runs of a push line's shape are the spans the parser finds. */
  lemma ShapeSpans(line: string, name: string, gap1: string, url: string, gap2: string)
    requires PushLineShape(line, name, gap1, url, gap2)
    ensures var a, b := |name|, |name| + |gap1|;
            var c := b + |url|;
            && Span(line, 0, NonSpace) == a && Span(line, a, IsSpace) == b
            && Span(line, b, NonSpace) == c && Span(line, c, IsSpace) == c + |gap2|
  {
    var a, b := |name|, |name| + |gap1|;
    var c := b + |url|;
    ShapeSlices(line, name, gap1, url, gap2);
    SpanOverRun(line, 0, name, NonSpace);
    SpanOverRun(line, a, gap1, IsSpace);
    SpanOverRun(line, b, url, NonSpace);
    SpanOverRun(line, c, gap2, IsSpace);
  }

  /** The lines of `git remote -v` that mention `(push)`. */
  function PushLines(out: string): (r: seq<string>)
    ensures forall l :: l in r <==> l in Split(out, '\n') && IsPushLine(l)
    ensures forall l :: multiset(r)[l] == if IsPushLine(l) then multiset(Split(out, '\n'))[l] else 0
    ensures IsSubsequence(r, Split(out, '\n'))
  {
    FilterCounts(Split(out, '\n'), IsPushLine);
    FilterInOrder(Split(out, '\n'), IsPushLine);
    Filter(Split(out, '\n'), IsPushLine)
  }

  /** A line of `git remote -v` that names a push URL. */
  predicate IsPushLine(l: string) {
    Contains(l, "(push)")
  }

  /** The remotes of the lines that parse, in order. */
  function ParseAll(lines: seq<string>): (r: seq<RemoteEntry>)
    ensures |r| <= |lines|
    ensures forall x :: x in r <==> exists l :: l in lines && ParsePushLine(l) == Some(x)
  {
    if |lines| == 0 then []
    else
      var rest := ParseAll(lines[1..]);
      assert forall l :: l in lines <==> l == lines[0] || l in lines[1..];
      match ParsePushLine(lines[0])
      case Some(x) => [x] + rest
      case None => rest
  }

  /** Collecting distributes over concatenation: the remotes of `a + b` are
      those of `a` followed by those of `b`. With ParseAllLine this fixes the
      result completely: one remote per parsing line, in line order. */
  lemma {:induction false} ParseAllAppend(a: seq<string>, b: seq<string>)
    ensures ParseAll(a + b) == ParseAll(a) + ParseAll(b)
    decreases |a|
  {
    if |a| == 0 {
      assert a + b == b;
    } else {
      assert (a + b)[0] == a[0];
      assert (a + b)[1..] == a[1..] + b;
      ParseAllAppend(a[1..], b);
    }
  }

  /** A single line contributes its own remote when it parses, else none. */
  lemma ParseAllLine(l: string)
    ensures ParseAll([l]) == if ParsePushLine(l).Some? then [ParsePushLine(l).value] else []
  {
  }

  // ---------------------------------------------------------------------
  // fix

  /** The remote with its URL routed through the profile's alias; a second
      routing changes nothing when the class covers the profile name. */
  function Retargeted(x: RemoteEntry, profileName: string, v: Variant): (r: RemoteEntry)
    ensures r.name == x.name
    ensures !NeedsUpdate(x, profileName, v) ==> r == x
    ensures ClassName(profileName, SuffixOf(v)) ==> !NeedsUpdate(r, profileName, v)
  {
    if ClassName(profileName, SuffixOf(v)) then
      TransformIdempotent(x.url, profileName, SuffixOf(v));
      RemoteEntry(x.name, TransformWith(x.url, profileName, SuffixOf(v)))
    else RemoteEntry(x.name, TransformWith(x.url, profileName, SuffixOf(v)))
  }

  /** `transformURL(remote.url, profileName) !== remote.url`. */
  predicate NeedsUpdate(x: RemoteEntry, profileName: string, v: Variant) {
    TransformWith(x.url, profileName, SuffixOf(v)) != x.url
  }

  /** The `git remote set-url` commands `fix` issues: one per remote whose
      transformed URL differs, in order. */
  function Updates(remotes: seq<RemoteEntry>, profileName: string, v: Variant): (r: seq<RemoteEntry>)
    ensures |r| <= |remotes|
    ensures forall u :: u in r <==>
              exists x :: x in remotes && NeedsUpdate(x, profileName, v) && u == Retargeted(x, profileName, v)
  {
    if |remotes| == 0 then []
    else
      var rest := Updates(remotes[1..], profileName, v);
      assert forall x :: x in remotes <==> x == remotes[0] || x in remotes[1..];
      if NeedsUpdate(remotes[0], profileName, v) then [Retargeted(remotes[0], profileName, v)] + rest
      else rest
  }

  /** The commands for `a + b` are those for `a` followed by those for `b`.
      With UpdatesOne this fixes the sequence completely: one `set-url` per
      remote that needs one, in the order the remotes were listed, so when a
      remote is listed twice the command for its later line is issued last. */
  lemma {:induction false} UpdatesAppend(a: seq<RemoteEntry>, b: seq<RemoteEntry>, profileName: string, v: Variant)
    ensures Updates(a + b, profileName, v) == Updates(a, profileName, v) + Updates(b, profileName, v)
    decreases |a|
  {
    if |a| == 0 {
      assert a + b == b;
    } else {
      assert (a + b)[0] == a[0];
      assert (a + b)[1..] == a[1..] + b;
      UpdatesAppend(a[1..], b, profileName, v);
    }
  }

  /** A single remote yields its retargeted self when it needs an update,
      else nothing. */
  lemma UpdatesOne(x: RemoteEntry, profileName: string, v: Variant)
    ensures Updates([x], profileName, v)
            == if NeedsUpdate(x, profileName, v) then [Retargeted(x, profileName, v)] else []
  {
  }

  /** `fix` issues nothing exactly when every remote is already routed. */
  lemma UpdatesEmptyIff(remotes: seq<RemoteEntry>, profileName: string, v: Variant)
    ensures Updates(remotes, profileName, v) == [] <==> forall x :: x in remotes ==> !NeedsUpdate(x, profileName, v)
  {
    var r := Updates(remotes, profileName, v);
    if r != [] {
      assert r[0] in r;
    }
    if exists x :: x in remotes && NeedsUpdate(x, profileName, v) {
      var x :| x in remotes && NeedsUpdate(x, profileName, v);
      assert Retargeted(x, profileName, v) in r;
    }
  }

  /** The remotes after the updates: each keeps its name, and its URL is
      the transformed one exactly when it was updated. */
  function AfterUpdates(remotes: seq<RemoteEntry>, profileName: string, v: Variant): (r: seq<RemoteEntry>)
    ensures |r| == |remotes|
    ensures forall i :: 0 <= i < |r| ==> r[i].name == remotes[i].name
    ensures forall i :: 0 <= i < |r| ==>
              r[i].url == if NeedsUpdate(remotes[i], profileName, v)
                          then TransformWith(remotes[i].url, profileName, SuffixOf(v))
                          else remotes[i].url
  {
    seq(|remotes|, i requires 0 <= i < |remotes| => Retargeted(remotes[i], profileName, v))
  }

  /** A second `fix` for the same profile has nothing left to do, for a
      profile name the variant's suffix class covers: as written, a name
      without hyphens; corrected, every valid name. */
  lemma FixConverges(remotes: seq<RemoteEntry>, profileName: string, v: Variant)
    requires ClassName(profileName, SuffixOf(v))
    ensures Updates(AfterUpdates(remotes, profileName, v), profileName, v) == []
  {
    var after := AfterUpdates(remotes, profileName, v);
    forall i | 0 <= i < |after|
      ensures !NeedsUpdate(after[i], profileName, v)
    {
      assert after[i] == Retargeted(remotes[i], profileName, v);
    }
    UpdatesEmptyIff(after, profileName, v);
  }

  /** As written, `fix` for a hyphenated profile rewrites a remote that
      already routes through that profile's alias; the corrected program
      leaves it alone. */
  lemma FixRewritesOwnAlias(head: string, tail: string, rest: string, name: string)
    requires ClassName(head, WordChars) && forall k :: 0 <= k < |tail| ==> InClass(tail[k], WordCharsAndHyphen)
    ensures var profileName := head + "-" + tail;
            var x := RemoteEntry(name, AliasHead("github", profileName) + rest);
            && Updates([x], profileName, AsWritten)
               == [RemoteEntry(name, AliasHead("github", profileName + "-" + tail) + rest)]
            && Updates([x], profileName, Corrected) == []
  {
    var profileName := head + "-" + tail;
    var x := RemoteEntry(name, AliasHead("github", profileName) + rest);
    HyphenSecondPass(head, tail, rest);
    assert ClassName(profileName, WordCharsAndHyphen) by {
      forall k | 0 <= k < |profileName|
        ensures InClass(profileName[k], WordCharsAndHyphen)
      {
        if k < |head| {
          assert profileName[k] == head[k];
        } else if k > |head| {
          assert profileName[k] == tail[k - |head| - 1];
        }
      }
    }
    AliasFixed("github", profileName, rest, WordCharsAndHyphen);
    assert Updates([x], profileName, Corrected) == Updates([], profileName, Corrected);
  }

  datatype FixOutcome =
    | FixNotARepo
    | FixNoRoot
    | FixNoProfile
    | RemoteListFailed
    | NoPushRemotes
    | FixCancelled
    | SetUrls(updates: seq<RemoteEntry>)
    | SetUrlFailed(issued: seq<RemoteEntry>)

  /** `fix()`: `remoteOut` is the output of `git remote -v` (None when the
      command fails), `confirm` the answer to the update prompt, and
      `failAt` the position, among the `set-url` commands in the order they
      are issued, of the first one git refuses (None when none is refused).
      A refused command ends the run: the ones after it are not issued. */
  function Fix(v: Variant, repo: RepoContext, c: GitXConfig, remoteOut: Option<string>, confirm: bool,
               failAt: Option<nat>)
    : (r: FixOutcome)
    ensures r.SetUrls? || r.SetUrlFailed? <==>
              && repo.isRepo && Truthy(repo.root)
              && Truthy(ConfigStore.GetFolderProfile(c, repo.root.value))
              && remoteOut.Some? && |PushLines(remoteOut.value)| > 0 && confirm
    ensures r.SetUrls? || r.SetUrlFailed? ==>
              var profileName := ConfigStore.GetFolderProfile(c, repo.root.value).value;
              var updates := Updates(ParseAll(PushLines(remoteOut.value)), profileName, v);
              && (r.SetUrlFailed? <==> failAt.Some? && failAt.value < |updates|)
              && (r.SetUrls? ==> r.updates == updates)
              && (r.SetUrlFailed? ==> r.issued == updates[..failAt.value + 1])
    ensures r.SetUrls? ==>
              var profileName := ConfigStore.GetFolderProfile(c, repo.root.value).value;
              var remotes := ParseAll(PushLines(remoteOut.value));
              forall u :: u in r.updates <==>
                exists x :: x in remotes && NeedsUpdate(x, profileName, v) && u == Retargeted(x, profileName, v)
  {
    if !repo.isRepo then FixNotARepo
    else if !Truthy(repo.root) then FixNoRoot
    else
      var profile := ConfigStore.GetFolderProfile(c, repo.root.value);
      if !Truthy(profile) then FixNoProfile
      else if remoteOut.None? then RemoteListFailed
      else
        var lines := PushLines(remoteOut.value);
        if |lines| == 0 then NoPushRemotes
        else if !confirm then FixCancelled
        else
          var updates := Updates(ParseAll(lines), profile.value, v);
          if failAt.Some? && failAt.value < |updates| then SetUrlFailed(updates[..failAt.value + 1])
          else SetUrls(updates)
  }

  // ---------------------------------------------------------------------
  // add

  datatype AddOutcome =
    | AddNotARepo
    | AddNoRoot
    | RemoteAdded(name: string, url: string)
    | AddFailed(name: string, url: string)

  /** `add(url, {name})`: `git remote add` is issued under the given name,
      or `origin`, with the URL transformed only when a folder profile
      resolves for the repository root. `addOk` is its exit status: git
      refuses, for one, a name that is already a remote. */
  function Add(v: Variant, repo: RepoContext, c: GitXConfig, url: string, name: Option<string>, addOk: bool)
    : (r: AddOutcome)
    ensures r.RemoteAdded? || r.AddFailed? <==> repo.isRepo && Truthy(repo.root)
    ensures r.AddFailed? <==> repo.isRepo && Truthy(repo.root) && !addOk
    ensures r.RemoteAdded? || r.AddFailed? ==> r.name == if Truthy(name) then name.value else "origin"
    ensures r.RemoteAdded? || r.AddFailed? ==>
              var profile := ConfigStore.GetFolderProfile(c, repo.root.value);
              && (!Truthy(profile) ==> r.url == url)
              && (Truthy(profile) ==> r.url == TransformWith(url, profile.value, SuffixOf(v)))
  {
    var remoteName := if Truthy(name) then name.value else "origin";
    if !repo.isRepo then AddNotARepo
    else if !Truthy(repo.root) then AddNoRoot
    else
      var profile := ConfigStore.GetFolderProfile(c, repo.root.value);
      var target := if !Truthy(profile) then url else TransformWith(url, profile.value, SuffixOf(v));
      if addOk then RemoteAdded(remoteName, target) else AddFailed(remoteName, target)
  }

  /** A remote added under a profile is one `fix` leaves alone, for a
      profile name the variant's suffix class covers. */
  lemma AddedRemoteNeedsNoFix(v: Variant, repo: RepoContext, c: GitXConfig, url: string, name: Option<string>,
                               addOk: bool)
    requires Add(v, repo, c, url, name, addOk).RemoteAdded?
    requires var p := ConfigStore.GetFolderProfile(c, repo.root.value);
             p.Some? && ClassName(p.value, SuffixOf(v))
    ensures var r := Add(v, repo, c, url, name, addOk);
            !NeedsUpdate(RemoteEntry(r.name, r.url), ConfigStore.GetFolderProfile(c, repo.root.value).value, v)
  {
    var p := ConfigStore.GetFolderProfile(c, repo.root.value).value;
    var r := Add(v, repo, c, url, name, addOk);
    assert Retargeted(RemoteEntry(r.name, url), p, v) == RemoteEntry(r.name, r.url);
  }

  // ---------------------------------------------------------------------
  // clone

  /** The directory name `clone` records for a URL as the source computes
      it: the last `/`-separated piece with its FIRST `.git` removed,
      wherever it occurs. */
  function CloneDirNameAsWritten(url: string): (r: string)
    ensures var last := LastPiece(url, '/');
            && (!Contains(last, ".git") ==> r == last)
            && (Contains(last, ".git") ==>
                  var i := IndexOf(last, ".git");
                  r == last[..i] + last[i + 4..])
  {
    var last := LastPiece(url, '/');
    var r := ReplaceFirst(last, ".git", "");
    if Contains(last, ".git") then
      var i := IndexOf(last, ".git");
      assert r == r[..i] + r[i..];
      r
    else r
  }

  /** The directory `git clone` creates: the last piece with a trailing
      `.git` removed. */
  function CloneDirName(url: string): (r: string)
    ensures '/' !in r
    ensures var last := LastPiece(url, '/');
            (r + ".git" == last) || (r == last && !(|last| >= 4 && last[|last| - 4..] == ".git"))
  {
    var last := LastPiece(url, '/');
    LastPieceIsSuffix(url, '/');
    if |last| >= 4 && last[|last| - 4..] == ".git" then
      assert last[..|last| - 4] + ".git" == last;
      last[..|last| - 4]
    else last
  }

  /** The corrected name is the repository name whether or not the URL
      carries the `.git` suffix. */
  lemma CloneDirNameOfRepo(prefix: string, name: string)
    requires '/' !in name
    ensures CloneDirName(prefix + "/" + name + ".git") == name
    ensures !(|name| >= 4 && name[|name| - 4..] == ".git") ==> CloneDirName(prefix + "/" + name) == name
  {
    assert '/' !in name + ".git";
    assert prefix + "/" + name + ".git" == prefix + ['/'] + (name + ".git");
    LastPieceAfterSep(prefix, name + ".git", '/');
    assert (name + ".git")[|name|..] == ".git";
    LastPieceAfterSep(prefix, name, '/');
  }

  /** The source's name loses the first `.git` in the middle of a name:
      `.../my.github.io.git` is recorded as `myhub.io.git`, though git
      clones it into `my.github.io`. */
  lemma CloneDirNameAsWrittenMangles(prefix: string, head: string, tail: string)
    requires '/' !in head + tail && '.' !in head
    ensures CloneDirNameAsWritten(prefix + "/" + head + ".git" + tail) == head + tail
  {
    var last := head + ".git" + tail;
    assert '/' !in last;
    assert prefix + "/" + head + ".git" + tail == prefix + ['/'] + last;
    LastPieceAfterSep(prefix, head + ".git" + tail, '/');
    FirstOccurrenceAfter(head, ".git", tail);
    assert last[..|head|] == head && last[|head| + 4..] == tail;
  }

  /** The two agree when the only `.git` in the last piece is its suffix. */
  lemma CloneDirNameAgrees(prefix: string, name: string)
    requires '/' !in name && !Contains(name, ".git")
    ensures CloneDirNameAsWritten(prefix + "/" + name + ".git") == CloneDirName(prefix + "/" + name + ".git")
  {
    CloneDirNameOfRepo(prefix, name);
    assert '/' !in name + ".git";
    assert prefix + "/" + name + ".git" == prefix + ['/'] + (name + ".git");
    LastPieceAfterSep(prefix, name + ".git", '/');
    GitSuffixFirst(name);
  }

  /** In a name without `.git`, the appended suffix is the first `.git`: an
      occurrence straddling the join would put its `.` at an offset where
      `.git` has a letter. */
  lemma GitSuffixFirst(name: string)
    requires !Contains(name, ".git")
    ensures IndexOf(name + ".git", ".git") == |name|
  {
    var s := name + ".git";
    OccursInMiddle(name, ".git", "");
    assert name + ".git" + "" == s;
    forall j: nat | j < |name|
      ensures !OccursAt(s, ".git", j)
    {
      GitNotBefore(name, j);
    }
  }

  lemma GitNotBefore(name: string, j: nat)
    requires !Contains(name, ".git") && j < |name|
    ensures !OccursAt(name + ".git", ".git", j)
  {
    var s := name + ".git";
    if j + 4 <= |name| {
      assert s[j..j + 4] == name[j..j + 4];
      assert !OccursAt(name, ".git", j);
    } else if j + 4 <= |s| {
      assert s[|name|] == '.';
      assert s[j..j + 4][|name| - j] == s[|name|];
    }
  }

  /** The last piece of a GitHub Pages repository URL. */
  lemma PagesLastPiece(prefix: string)
    ensures LastPiece(prefix + "/my.github.io.git", '/') == "my.github.io.git"
  {
    var n := "my.github.io.git";
    assert prefix + "/my.github.io.git" == prefix + ['/'] + n;
    assert '/' !in n;
    LastPieceAfterSep(prefix, n, '/');
  }

  /** The first `.git` of `my.github.io.git` is the one inside the name. */
  lemma PagesReplace()
    ensures ReplaceFirst("my.github.io.git", ".git", "") == "myhub.io.git"
  {
    var s := "my.github.io.git";
    assert "my" + ".git" + "hub.io.git" == s;
    FirstOccurrenceAfter("my", ".git", "hub.io.git");
    assert s[..2] == "my" && s[6..] == "hub.io.git";
    assert "my" + "" + "hub.io.git" == "myhub.io.git";
  }

  /** The discrepancy on a GitHub Pages repository, under any owner prefix
      such as `https://github.com/u`: the source records `myhub.io.git` ... */
  lemma GithubPagesAsWritten(prefix: string)
    ensures CloneDirNameAsWritten(prefix + "/my.github.io.git") == "myhub.io.git"
  {
    PagesLastPiece(prefix);
    PagesReplace();
  }

  /** ... where git creates, and the corrected name records, `my.github.io`. */
  lemma GithubPagesCorrected(prefix: string)
    ensures CloneDirName(prefix + "/my.github.io.git") == "my.github.io"
  {
    var last := "my.github.io.git";
    PagesLastPiece(prefix);
    assert last[|last| - 4..] == ".git" && last[..|last| - 4] == "my.github.io";
  }

  datatype CloneOutcome =
    | ClonedWithoutProfile(cloneUrl: string, directory: string)
    | CloneFailed(cloneUrl: string)
    | Cloned(cloneUrl: string, repoPath: string, config: GitXConfig)

  /** The directory name `clone` records when none is given. */
  function DirName(v: Variant, url: string): string {
    if v == AsWritten then CloneDirNameAsWritten(url) else CloneDirName(url)
  }

  /** The profile `clone` uses: the default when one is set, otherwise the
      one picked at the prompt. */
  function CloneProfile(c: GitXConfig, selected: string): string {
    if Truthy(c.defaultProfile) then c.defaultProfile.value else selected
  }

  /** `clone(url, {directory})`. The default profile is used when one is
      set; otherwise, with no profiles at all, the URL is cloned as given;
      otherwise `selected` is the profile picked at the prompt. `cloneOk`
      is the exit status of `git clone`, `cwd` the working directory. On
      success the new repository's path is associated with the profile. */
  function Clone(v: Variant, c: GitXConfig, url: string, directory: Option<string>, selected: string,
                 cloneOk: bool, cwd: string): (r: CloneOutcome)
    requires !Truthy(c.defaultProfile) && |c.profiles| > 0 ==> selected in ConfigStore.Names(c.profiles)
    ensures r.ClonedWithoutProfile? <==> !Truthy(c.defaultProfile) && |c.profiles| == 0
    ensures r.ClonedWithoutProfile? ==> r.cloneUrl == url
    ensures r.ClonedWithoutProfile? ==> r.directory == if Truthy(directory) then directory.value else ""
    ensures !r.ClonedWithoutProfile? ==>
              var profileName := CloneProfile(c, selected);
              && (r.CloneFailed? <==> !cloneOk)
              && r.cloneUrl == TransformWith(url, profileName, SuffixOf(v))
              && (Truthy(c.defaultProfile) || profileName in ConfigStore.Names(c.profiles))
    ensures r.Cloned? ==>
              var profileName := CloneProfile(c, selected);
              && r.repoPath == cwd + "/" + (if Truthy(directory) then directory.value else DirName(v, url))
              && ConfigStore.GetFolderProfile(r.config, r.repoPath) == Some(profileName)
              && ConfigStore.Reassociates(c.folderProfiles, r.config.folderProfiles, r.repoPath, profileName)
              && r.config.profiles == c.profiles && r.config.defaultProfile == c.defaultProfile
  {
    var dir := if Truthy(directory) then directory.value else "";
    if !Truthy(c.defaultProfile) && |c.profiles| == 0 then ClonedWithoutProfile(url, dir)
    else
      var profileName := CloneProfile(c, selected);
      var target := TransformWith(url, profileName, SuffixOf(v));
      if !cloneOk then CloneFailed(target)
      else
        var repoName := if dir != "" then dir else DirName(v, url);
        var repoPath := cwd + "/" + repoName;
        ConfigStore.SetThenResolve(c, repoPath, profileName);
        ConfigStore.SetFolderProfileReassociates(c, repoPath, profileName);
        Cloned(target, repoPath, ConfigStore.SetFolderProfile(c, repoPath, profileName))
  }

  /** The freshly cloned repository resolves to its profile, and its
      `origin` is one `fix` leaves alone, for a profile name the variant's
      suffix class covers. */
  lemma ClonedRepoNeedsNoFix(v: Variant, c: GitXConfig, url: string, directory: Option<string>, selected: string,
                             cwd: string)
    requires !Truthy(c.defaultProfile) && |c.profiles| > 0 ==> selected in ConfigStore.Names(c.profiles)
    requires Clone(v, c, url, directory, selected, true, cwd).Cloned?
    requires ClassName(CloneProfile(c, selected), SuffixOf(v))
    ensures var r := Clone(v, c, url, directory, selected, true, cwd);
            && ConfigStore.GetFolderProfile(r.config, r.repoPath) == Some(CloneProfile(c, selected))
            && !NeedsUpdate(RemoteEntry("origin", r.cloneUrl), CloneProfile(c, selected), v)
  {
    var profileName := CloneProfile(c, selected);
    var r := Clone(v, c, url, directory, selected, true, cwd);
    assert Retargeted(RemoteEntry("origin", url), profileName, v) == RemoteEntry("origin", r.cloneUrl);
  }

  /** Cloning a GitHub Pages repository without a directory: as written the
      association is recorded for `<cwd>/myhub.io.git`, a folder git never
      creates, ... */
  lemma ClonePagesAsWritten(c: GitXConfig, prefix: string, selected: string, cwd: string)
    requires !Truthy(c.defaultProfile) && |c.profiles| > 0 ==> selected in ConfigStore.Names(c.profiles)
    requires Truthy(c.defaultProfile) || |c.profiles| > 0
    ensures Clone(AsWritten, c, prefix + "/my.github.io.git", None, selected, true, cwd).repoPath
            == cwd + "/" + "myhub.io.git"
  {
    GithubPagesAsWritten(prefix);
    ClonePath(AsWritten, c, prefix + "/my.github.io.git", selected, cwd, "myhub.io.git");
  }

  /** ... while the corrected program records `<cwd>/my.github.io`, the
      folder git creates. */
  lemma ClonePagesCorrected(c: GitXConfig, prefix: string, selected: string, cwd: string)
    requires !Truthy(c.defaultProfile) && |c.profiles| > 0 ==> selected in ConfigStore.Names(c.profiles)
    requires Truthy(c.defaultProfile) || |c.profiles| > 0
    ensures Clone(Corrected, c, prefix + "/my.github.io.git", None, selected, true, cwd).repoPath
            == cwd + "/" + "my.github.io"
  {
    GithubPagesCorrected(prefix);
    ClonePath(Corrected, c, prefix + "/my.github.io.git", selected, cwd, "my.github.io");
  }

  /** Without a directory, a successful clone records `<cwd>/<name>`. */
  lemma ClonePath(v: Variant, c: GitXConfig, url: string, selected: string, cwd: string, name: string)
    requires !Truthy(c.defaultProfile) && |c.profiles| > 0 ==> selected in ConfigStore.Names(c.profiles)
    requires Truthy(c.defaultProfile) || |c.profiles| > 0
    requires DirName(v, url) == name
    ensures Clone(v, c, url, None, selected, true, cwd).repoPath == cwd + "/" + name
  {
  }
}
