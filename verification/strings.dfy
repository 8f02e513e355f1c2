/** The JavaScript string operations the tool relies on (indexOf, includes,
    replace with a string pattern, split on one character, trim, the `\s` and
    `\w` regex classes), each given the meaning it has in JavaScript. */
module Strings {

  /** JavaScript WhiteSpace and LineTerminator code points: the characters
      `String.prototype.trim` strips and the regex class `\s` matches. */
  predicate IsSpace(c: char) {
    || c == ' ' || c == '\t' || c == '\n' || c == '\r'
    || c == '\U{000B}' || c == '\U{000C}' || c == '\U{00A0}' || c == '\U{1680}'
    || ('\U{2000}' <= c <= '\U{200A}')
    || c == '\U{2028}' || c == '\U{2029}' || c == '\U{202F}' || c == '\U{205F}'
    || c == '\U{3000}' || c == '\U{FEFF}'
  }

  /** The regex class `\w`. */
  predicate IsWordChar(c: char) {
    ('a' <= c <= 'z') || ('A' <= c <= 'Z') || ('0' <= c <= '9') || c == '_'
  }

  predicate NoSpace(s: string) {
    forall k :: 0 <= k < |s| ==> !IsSpace(s[k])
  }

  predicate AllSpace(s: string) {
    forall k :: 0 <= k < |s| ==> IsSpace(s[k])
  }

  /** `t` occurs in `s` starting at index `i`. */
  predicate OccursAt(s: string, t: string, i: nat) {
    i + |t| <= |s| && s[i..i + |t|] == t
  }

  /** `s.indexOf(t, from)`: the first index at or after `from` where `t`
      occurs, or -1. */
  function IndexOfFrom(s: string, t: string, from: nat): (r: int)
    ensures r == -1 || (from <= r && OccursAt(s, t, r))
    ensures forall j: nat :: from <= j && (r == -1 || j < r) ==> !OccursAt(s, t, j)
    decreases |s| - from
  {
    if from + |t| > |s| then -1
    else if s[from..from + |t|] == t then from
    else IndexOfFrom(s, t, from + 1)
  }

  function IndexOf(s: string, t: string): (r: int)
    ensures r == -1 || (0 <= r && OccursAt(s, t, r))
    ensures forall j: nat :: (r == -1 || j < r) ==> !OccursAt(s, t, j)
  {
    IndexOfFrom(s, t, 0)
  }

  /** `s.indexOf(c)` for a single character. */
  function IndexOfChar(s: string, c: char): (r: int)
    ensures r == -1 ==> c !in s
    ensures r != -1 ==> 0 <= r < |s| && s[r] == c && c !in s[..r]
  {
    if |s| == 0 then -1
    else if s[0] == c then 0
    else
      var k := IndexOfChar(s[1..], c);
      if k == -1 then -1 else k + 1
  }

  /** The first occurrence of `c` is at `i` when `s[i]` is `c` and no
      earlier character is. */
  lemma {:induction false} IndexOfCharAt(s: string, c: char, i: nat)
    requires i < |s| && s[i] == c && c !in s[..i]
    ensures IndexOfChar(s, c) == i
  {
    if i > 0 {
      assert s[0] == s[..i][0];
      assert s[1..][..i - 1] == s[..i][1..];
      IndexOfCharAt(s[1..], c, i - 1);
    }
  }

  /** `s.includes(t)`. */
  predicate Contains(s: string, t: string) {
    IndexOf(s, t) >= 0
  }

  /** One occurrence is enough for `includes`, and the first one comes no later. */
  lemma OccurrenceFound(s: string, t: string, i: nat)
    requires OccursAt(s, t, i)
    ensures Contains(s, t)
    ensures 0 <= IndexOf(s, t) <= i
  {
  }

  lemma ContainsIffOccurs(s: string, t: string)
    ensures Contains(s, t) <==> exists i: nat :: OccursAt(s, t, i)
  {
    if Contains(s, t) {
      var i: nat := IndexOf(s, t);
      assert OccursAt(s, t, i);
    }
  }

  /** A prefix is found at index 0. */
  lemma PrefixFoundAtStart(s: string, t: string)
    requires t <= s
    ensures IndexOf(s, t) == 0
  {
    assert s[0..|t|] == t;
    OccurrenceFound(s, t, 0);
  }

  /** `t` placed between two strings occurs right after the first. */
  lemma OccursInMiddle(a: string, t: string, b: string)
    ensures OccursAt(a + t + b, t, |a|)
    ensures Contains(a + t + b, t)
  {
    assert (a + t + b)[|a|..|a| + |t|] == t;
    OccurrenceFound(a + t + b, t, |a|);
  }

  /** What a string contains, any extension of it contains. */
  lemma ContainsInConcat(a: string, b: string, c: string, t: string)
    requires Contains(b, t)
    ensures Contains(a + b + c, t)
  {
    var i: nat := IndexOf(b, t);
    assert (a + b + c)[|a| + i..|a| + i + |t|] == b[i..i + |t|];
    OccurrenceFound(a + b + c, t, |a| + i);
  }

  /** Where `t + u` occurs, `t` occurs. */
  lemma ContainsPrefixOfMatch(s: string, t: string, u: string)
    requires Contains(s, t + u)
    ensures Contains(s, t)
  {
    var i: nat := IndexOf(s, t + u);
    assert s[i..i + |t|] == (t + u)[..|t|];
    OccurrenceFound(s, t, i);
  }

  /** Where `t + u` occurs, `u` occurs. */
  lemma ContainsSuffixOfMatch(s: string, t: string, u: string)
    requires Contains(s, t + u)
    ensures Contains(s, u)
  {
    var i: nat := IndexOf(s, t + u);
    assert s[i + |t|..i + |t| + |u|] == (t + u)[|t|..];
    OccurrenceFound(s, u, i + |t|);
  }

  /** A string lacking one of `t`'s characters does not contain `t`. */
  lemma MissingCharNotContained(s: string, t: string, c: char)
    requires c in t && c !in s
    ensures !Contains(s, t)
  {
  }

  /** When the first character of `t` does not occur in `h`, the first
      occurrence of `t` in `h + t + b` is right after `h`. */
  lemma FirstOccurrenceAfter(h: string, t: string, b: string)
    requires |t| > 0 && t[0] !in h
    ensures IndexOf(h + t + b, t) == |h|
  {
    var s := h + t + b;
    OccursInMiddle(h, t, b);
  }

  /** `s.replace(pat, rep)` with a string pattern: only the first occurrence
      is replaced. */
  function ReplaceFirst(s: string, pat: string, rep: string): (r: string)
    ensures !Contains(s, pat) ==> r == s
    ensures Contains(s, pat) ==>
              var i := IndexOf(s, pat);
              && |r| == |s| - |pat| + |rep|
              && r[..i] == s[..i] && r[i..i + |rep|] == rep && r[i + |rep|..] == s[i + |pat|..]
  {
    var i := IndexOf(s, pat);
    if i < 0 then s else s[..i] + rep + s[i + |pat|..]
  }

  /** Replacing a pattern that the string starts with rewrites exactly that prefix. */
  lemma ReplacePrefix(s: string, pat: string, rep: string)
    requires pat <= s
    ensures ReplaceFirst(s, pat, rep) == rep + s[|pat|..]
  {
    PrefixFoundAtStart(s, pat);
  }

  // ---------------------------------------------------------------------
  // maximal runs, as greedy regex quantifiers take them

  /** The end of the maximal run of characters satisfying `p` that starts at
      `k`: where a greedy `[...]*` starting at `k` stops. */
  function Span(s: string, k: nat, p: char -> bool): (e: nat)
    requires k <= |s|
    ensures k <= e <= |s|
    ensures forall m :: k <= m < e ==> p(s[m])
    ensures e == |s| || !p(s[e])
    decreases |s| - k
  {
    if k < |s| && p(s[k]) then Span(s, k + 1, p) else k
  }

  /** A run that cannot be extended is the maximal run. */
  lemma SpanUnique(s: string, k: nat, e: nat, p: char -> bool)
    requires k <= e <= |s|
    requires forall m :: k <= m < e ==> p(s[m])
    requires e == |s| || !p(s[e])
    ensures Span(s, k, p) == e
  {
  }

  // ---------------------------------------------------------------------
  // trim

  /** Where the run of `p`-characters that ends at `e` starts, reaching no
      further back than `lo`. */
  function SpanBack(s: string, lo: nat, e: nat, p: char -> bool): (b: nat)
    requires lo <= e <= |s|
    ensures lo <= b <= e
    ensures forall m :: b <= m < e ==> p(s[m])
    ensures b == lo || !p(s[b - 1])
    decreases e
  {
    if lo < e && p(s[e - 1]) then SpanBack(s, lo, e - 1, p) else e
  }

  /** `s.trim()`: `s` with its leading and trailing white space removed. */
  function Trim(s: string): (r: string)
    ensures r == [] || (!IsSpace(r[0]) && !IsSpace(r[|r| - 1]))
    ensures var i := Span(s, 0, IsSpace);
            i + |r| <= |s| && s[i..i + |r|] == r && AllSpace(s[..i]) && AllSpace(s[i + |r|..])
  {
    var i := Span(s, 0, IsSpace);
    var j := SpanBack(s, i, |s|, IsSpace);
    TrimSlice(s, i, j);
    s[i..j]
  }

  /** The slice between a white-space prefix and a white-space suffix, each
      maximal, neither starts nor ends with white space. */
  lemma TrimSlice(s: string, i: nat, j: nat)
    requires i <= j <= |s|
    requires forall m :: 0 <= m < i ==> IsSpace(s[m])
    requires i == |s| || !IsSpace(s[i])
    requires forall m :: j <= m < |s| ==> IsSpace(s[m])
    requires j == i || !IsSpace(s[j - 1])
    ensures s[i..j] == [] || (!IsSpace(s[i..j][0]) && !IsSpace(s[i..j][j - i - 1]))
    ensures AllSpace(s[..i]) && AllSpace(s[j..])
  {
    assert forall m :: 0 <= m < i ==> s[..i][m] == s[m];
    assert forall m :: 0 <= m < |s| - j ==> s[j..][m] == s[j + m];
  }

  /** A string that neither starts nor ends with white space is its own trim. */
  lemma TrimOfTrimmed(s: string)
    requires s == [] || (!IsSpace(s[0]) && !IsSpace(s[|s| - 1]))
    ensures Trim(s) == s
  {
  }

  lemma TrimIdempotent(s: string)
    ensures Trim(Trim(s)) == Trim(s)
  {
    TrimOfTrimmed(Trim(s));
  }

  /** `!s.trim()`: the string is empty or all white space. */
  predicate IsBlank(s: string) {
    Trim(s) == []
  }

  lemma BlankIffAllSpace(s: string)
    ensures IsBlank(s) <==> AllSpace(s)
  {
    if !AllSpace(s) {
      var k :| 0 <= k < |s| && !IsSpace(s[k]);
      var r := Trim(s);
      var i := Span(s, 0, IsSpace);
    }
  }

  // ---------------------------------------------------------------------
  // split and join on one separator character

  /** `parts.join(sep)`. */
  function Join(parts: seq<string>, sep: char): string
    requires |parts| >= 1
  {
    if |parts| == 1 then parts[0] else parts[0] + [sep] + Join(parts[1..], sep)
  }

  /** `s.split(sep)` for a one-character separator: the maximal separator-free
      pieces, one more than there are separators. */
  function Split(s: string, sep: char): (r: seq<string>)
    ensures |r| >= 1
    decreases |s|
  {
    var i := IndexOfChar(s, sep);
    if i < 0 then [s] else [s[..i]] + Split(s[i + 1..], sep)
  }

  /** The pieces of a split are separator-free and joining them with the
      separator gives the string back. */
  lemma {:induction false} SplitPieces(s: string, sep: char)
    ensures var r := Split(s, sep);
            (forall k :: 0 <= k < |r| ==> sep !in r[k]) && Join(r, sep) == s
    decreases |s|
  {
    var i := IndexOfChar(s, sep);
    var all := Split(s, sep);
    SplitRest(s, sep);
    if i < 0 {
      assert all == [s] && Join(all, sep) == s;
    } else {
      var t := s[i + 1..];
      var rest := Split(t, sep);
      SplitPieces(t, sep);
      assert all == [s[..i]] + rest;
      ConsPieces(s[..i], rest, sep);
      assert s == s[..i] + [sep] + t;
    }
  }

  /** Prepending a separator-free piece keeps the pieces separator-free and
      joins with one more separator. */
  lemma ConsPieces(p: string, rest: seq<string>, sep: char)
    requires |rest| >= 1 && sep !in p
    requires forall k :: 0 <= k < |rest| ==> sep !in rest[k]
    ensures var r := [p] + rest;
            (forall k :: 0 <= k < |r| ==> sep !in r[k]) && Join(r, sep) == p + [sep] + Join(rest, sep)
  {
    var r := [p] + rest;
    assert r[1..] == rest;
  }

  /** Splitting a join of separator-free pieces gives the pieces back. */
  lemma {:induction false} SplitJoin(parts: seq<string>, sep: char)
    requires |parts| >= 1
    requires forall k :: 0 <= k < |parts| ==> sep !in parts[k]
    ensures Split(Join(parts, sep), sep) == parts
    decreases |parts|
  {
    if |parts| == 1 {
      assert sep !in parts[0];
      SplitJoinOne(parts, sep);
    } else {
      PiecesTail(parts, sep);
      SplitJoin(parts[1..], sep);
      SplitJoinCons(parts, sep);
    }
  }

  /** The base case of `SplitJoin`. */
  lemma SplitJoinOne(parts: seq<string>, sep: char)
    requires |parts| == 1 && sep !in parts[0]
    ensures Split(Join(parts, sep), sep) == parts
  {
    var p := parts[0];
    assert Join(parts, sep) == p && IndexOfChar(p, sep) == -1;
    SplitRest(p, sep);
    assert parts == [p];
  }

  /** The pieces after the first are separator-free too. */
  lemma PiecesTail(parts: seq<string>, sep: char)
    requires |parts| >= 2
    requires forall k :: 0 <= k < |parts| ==> sep !in parts[k]
    ensures sep !in parts[0]
    ensures forall k :: 0 <= k < |parts[1..]| ==> sep !in parts[1..][k]
  {
    assert forall k :: 0 <= k < |parts[1..]| ==> parts[1..][k] == parts[k + 1];
  }

  /** One more separator-free piece in front of a join that splits back
      into its pieces still splits back. */
  lemma SplitJoinCons(parts: seq<string>, sep: char)
    requires |parts| >= 2 && sep !in parts[0]
    requires Split(Join(parts[1..], sep), sep) == parts[1..]
    ensures Split(Join(parts, sep), sep) == parts
  {
    var p := parts[0];
    var rest := parts[1..];
    var u := Join(rest, sep);
    var s := Join(parts, sep);
    assert s == p + [sep] + u;
    FirstSeparator(p, u, sep);
    SplitRest(s, sep);
    assert Split(s, sep) == [p] + rest;
    assert [p] + rest == parts;
  }

  /** In `p + [sep] + u` with `p` separator-free, the first separator is the
      one right after `p`. */
  lemma FirstSeparator(p: string, u: string, sep: char)
    requires sep !in p
    ensures var s := p + [sep] + u;
            IndexOfChar(s, sep) == |p| && s[..|p|] == p && s[|p| + 1..] == u
  {
    var s := p + [sep] + u;
    assert s[..|p|] == p;
    IndexOfCharAt(s, sep, |p|);
    assert s[|p| + 1..] == u;
  }

  /** The first piece of a split is the text before the first separator, or
      the whole string when there is none. */
  lemma SplitFirst(s: string, sep: char)
    ensures var i := IndexOfChar(s, sep);
            Split(s, sep)[0] == if i < 0 then s else s[..i]
  {
  }

  /** The first piece of a split is the longest separator-free prefix. */
  lemma FirstPieceMaximal(s: string, sep: char)
    ensures var f := Split(s, sep)[0];
            |f| <= |s| && s[..|f|] == f && sep !in f && (|f| == |s| || s[|f|] == sep)
  {
    SplitFirst(s, sep);
  }

  /** The pieces after the first are the split of the text after the first
      separator; without a separator there is one piece. */
  lemma SplitRest(s: string, sep: char)
    ensures var i := IndexOfChar(s, sep);
            && (i < 0 ==> Split(s, sep) == [s])
            && (i >= 0 ==> Split(s, sep) == [s[..i]] + Split(s[i + 1..], sep))
  {
  }

  /** The text after the last separator, or the whole string when there is
      none; `LastPieceIsPop` shows it is `s.split(sep).pop()`. */
  function LastPiece(s: string, sep: char): string
    decreases |s|
  {
    var i := IndexOfChar(s, sep);
    if i < 0 then s else LastPiece(s[i + 1..], sep)
  }

  /** The last piece is the last element of the split. */
  lemma {:induction false} LastPieceIsPop(s: string, sep: char)
    ensures var parts := Split(s, sep);
            LastPiece(s, sep) == parts[|parts| - 1]
    decreases |s|
  {
    var i := IndexOfChar(s, sep);
    if i < 0 {
      PopNoSep(s, sep);
    } else {
      LastPieceIsPop(s[i + 1..], sep);
      PopAfterSep(s, sep);
    }
  }

  /** The base case of `LastPieceIsPop`. */
  lemma PopNoSep(s: string, sep: char)
    requires IndexOfChar(s, sep) < 0
    ensures var all := Split(s, sep);
            LastPiece(s, sep) == all[|all| - 1]
  {
    SplitRest(s, sep);
  }

  /** The induction step of `LastPieceIsPop`. */
  lemma PopAfterSep(s: string, sep: char)
    requires IndexOfChar(s, sep) >= 0
    requires var t := s[IndexOfChar(s, sep) + 1..];
             var rest := Split(t, sep);
             LastPiece(t, sep) == rest[|rest| - 1]
    ensures var all := Split(s, sep);
            LastPiece(s, sep) == all[|all| - 1]
  {
    var i := IndexOfChar(s, sep);
    var t := s[i + 1..];
    var rest := Split(t, sep);
    var all := Split(s, sep);
    SplitRest(s, sep);
    ConsParts(s[..i], rest, all);
    assert LastPiece(s, sep) == LastPiece(t, sep);
  }

  /** Where a non-empty sequence gets one element in front. */
  lemma ConsParts<T>(x: T, rest: seq<T>, all: seq<T>)
    requires |rest| > 0 && all == [x] + rest
    ensures |all| >= 2 && all[0] == x && all[1] == rest[0] && all[|all| - 1] == rest[|rest| - 1]
  {
  }

  /** `l` is a separator-free suffix of `s` that is either all of `s` or
      preceded by a separator: what `split(sep).pop()` can return. */
  predicate IsEndPiece(s: string, sep: char, l: string) {
    && sep !in l
    && |l| <= |s| && s[|s| - |l|..] == l
    && (|l| == |s| || s[|s| - |l| - 1] == sep)
  }

  /** A string has only one end piece. */
  lemma EndPieceUnique(s: string, sep: char, a: string, b: string)
    requires IsEndPiece(s, sep, a) && IsEndPiece(s, sep, b)
    ensures a == b
  {
  }

  /** The last piece is the end piece. */
  lemma {:induction false} LastPieceIsSuffix(s: string, sep: char)
    ensures IsEndPiece(s, sep, LastPiece(s, sep))
    decreases |s|
  {
    var i := IndexOfChar(s, sep);
    var l := LastPiece(s, sep);
    if i < 0 {
      assert l == s && sep !in s;
      assert s[0..] == s;
    } else {
      var t := s[i + 1..];
      LastPieceIsSuffix(t, sep);
      assert l == LastPiece(t, sep);
      SuffixAfterSep(s, i, t, l, sep);
    }
  }

  /** An end piece of the text after a separator is an end piece of the
      whole text. */
  lemma SuffixAfterSep(s: string, i: nat, t: string, l: string, sep: char)
    requires i < |s| && s[i] == sep && t == s[i + 1..]
    requires IsEndPiece(t, sep, l)
    ensures IsEndPiece(s, sep, l)
  {
    var j := |t| - |l|;
    assert |s| - |l| == i + 1 + j;
    assert s[i + 1 + j..] == t[j..];
    if 0 < j {
      assert s[i + j] == t[j - 1];
    }
  }

  /** The last piece of a string that ends in a separator and a
      separator-free tail is that tail. */
  lemma LastPieceAfterSep(p: string, n: string, sep: char)
    requires sep !in n
    ensures LastPiece(p + [sep] + n, sep) == n
  {
    var s := p + [sep] + n;
    LastPieceIsSuffix(s, sep);
    assert s[|s| - |n|..] == n && s[|s| - |n| - 1] == sep;
    EndPieceUnique(s, sep, LastPiece(s, sep), n);
  }
}
