/** The JavaScript string operations the theme generator uses (`startsWith`,
    `includes`, `trim`, `split`, `join`, global `replace`), over `string`. */
module Strings {
  import opened Seqs

  /** A JavaScript line terminator: the characters `.` in a regular
      expression does not match. */
  predicate IsLineTerminator(c: char) {
    c == '\n' || c == '\r' || c == '\U{2028}' || c == '\U{2029}'
  }

  /** JavaScript white space: the `\s` class, and what `trim` removes. */
  predicate IsSpace(c: char) {
    || IsLineTerminator(c)
    || c == ' ' || c == '\t' || c == '\U{000B}' || c == '\U{000C}'
    || c == '\U{00A0}' || c == '\U{1680}' || ('\U{2000}' <= c <= '\U{200A}')
    || c == '\U{202F}' || c == '\U{205F}' || c == '\U{3000}' || c == '\U{FEFF}'
  }

  predicate IsQuote(c: char) {
    c == '\'' || c == '"'
  }

  predicate NotQuote(c: char) {
    !IsQuote(c)
  }

  /** `s.startsWith(p)` */
  predicate StartsWith(s: string, p: string) {
    |p| <= |s| && s[..|p|] == p
  }

  /** `s.includes(p)`: `p` occurs in `s` at some position. */
  predicate Contains(s: string, p: string)
    decreases |s|
  {
    StartsWith(s, p) || (|s| > 0 && Contains(s[1..], p))
  }

  /** Whatever is written out in full occurs in the concatenation. */
  lemma {:induction false} ContainsMiddle(a: string, x: string, b: string)
    ensures Contains(a + x + b, x)
    decreases |a|
  {
    if |a| > 0 {
      assert (a + x + b)[1..] == a[1..] + x + b;
      ContainsMiddle(a[1..], x, b);
    } else {
      assert a + x + b == x + b;
    }
  }

  /** Every character of an occurring text is a character of the text it
      occurs in. */
  lemma {:induction false} ContainsKeepsChars(s: string, p: string, k: int)
    requires Contains(s, p) && 0 <= k < |p|
    ensures p[k] in s
    decreases |s|
  {
    if StartsWith(s, p) {
      assert s[k] == p[k];
    } else {
      ContainsKeepsChars(s[1..], p, k);
      assert p[k] in s[1..];
    }
  }

  /** `s.trimStart()` */
  function TrimStart(s: string): (r: string)
    ensures |r| <= |s| && r == s[|s| - |r|..]
    ensures forall i :: 0 <= i < |s| - |r| ==> IsSpace(s[i])
    ensures |r| > 0 ==> !IsSpace(r[0])
    decreases |s|
  {
    if |s| > 0 && IsSpace(s[0]) then TrimStart(s[1..]) else s
  }

  /** `s.trimEnd()` */
  function TrimEnd(s: string): (r: string)
    ensures |r| <= |s| && r == s[..|r|]
    ensures forall i :: |r| <= i < |s| ==> IsSpace(s[i])
    ensures |r| > 0 ==> !IsSpace(r[|r| - 1])
    decreases |s|
  {
    if |s| > 0 && IsSpace(s[|s| - 1]) then TrimEnd(s[..|s| - 1]) else s
  }

  /** `s.trim()`: the middle of `s` once the white space at both ends is gone. */
  function Trim(s: string): (r: string)
    ensures |r| > 0 ==> !IsSpace(r[0]) && !IsSpace(r[|r| - 1])
    ensures exists i :: TrimmedAt(s, r, i)
  {
    var t := TrimStart(s);
    var r := TrimEnd(t);
    assert TrimmedAt(s, r, |s| - |t|);
    r
  }

  /** `r` is `s` without its first `i` characters and without what follows
      `r`, and everything removed is white space. */
  predicate TrimmedAt(s: string, r: string, i: int) {
    && 0 <= i <= |s| - |r|
    && r == s[i..i + |r|]
    && (forall k :: 0 <= k < i ==> IsSpace(s[k]))
    && (forall k :: i + |r| <= k < |s| ==> IsSpace(s[k]))
  }

  /** `s.replace(/['"]+/g, '')`: every quote character removed. */
  function RemoveQuotes(s: string): (r: string)
    ensures forall i :: 0 <= i < |r| ==> !IsQuote(r[i])
    ensures (forall i :: 0 <= i < |s| ==> !IsQuote(s[i])) ==> r == s
    ensures |r| <= |s|
    ensures r == Filter(NotQuote, s)
    decreases |s|
  {
    if |s| == 0 then ""
    else if IsQuote(s[0]) then RemoveQuotes(s[1..])
    else [s[0]] + RemoveQuotes(s[1..])
  }

  /** `parts.join(sep)` */
  function Join(parts: seq<string>, sep: string): string
    decreases |parts|
  {
    if |parts| == 0 then ""
    else if |parts| == 1 then parts[0]
    else parts[0] + sep + Join(parts[1..], sep)
  }

  /** Growing the first part of a join grows the joined text at its front. */
  lemma {:induction false} JoinGrowFirst(c: char, parts: seq<string>, sep: string)
    requires |parts| > 0
    ensures Join([[c] + parts[0]] + parts[1..], sep) == [c] + Join(parts, sep)
  {
  }

  /** `s.split(sep)` for a non-empty literal separator: the text between
      the occurrences of `sep`, found left to right without overlap. */
  function Split(s: string, sep: string): (parts: seq<string>)
    requires |sep| > 0
    ensures |parts| > 0
    ensures StartsWith(s, parts[0])
    decreases |s|
  {
    if StartsWith(s, sep) then [""] + Split(s[|sep|..], sep)
    else if |s| == 0 then [""]
    else
      var rest := Split(s[1..], sep);
      [[s[0]] + rest[0]] + rest[1..]
  }

  /** Joining the parts of a split with the separator gives back the text. */
  lemma {:induction false} SplitJoin(s: string, sep: string)
    requires |sep| > 0
    ensures Join(Split(s, sep), sep) == s
    decreases |s|
  {
    if StartsWith(s, sep) {
      SplitJoin(s[|sep|..], sep);
      assert s == sep + s[|sep|..];
    } else if |s| > 0 {
      SplitJoin(s[1..], sep);
      JoinGrowFirst(s[0], Split(s[1..], sep), sep);
      assert s == [s[0]] + s[1..];
    }
  }

  /** No part of a split contains the separator: every occurrence was cut. */
  lemma {:induction false} SplitPartsAvoidSep(s: string, sep: string)
    requires |sep| > 0
    ensures forall i :: 0 <= i < |Split(s, sep)| ==> !Contains(Split(s, sep)[i], sep)
    decreases |s|
  {
    var parts := Split(s, sep);
    if StartsWith(s, sep) {
      SplitPartsAvoidSep(s[|sep|..], sep);
      assert forall i :: 1 <= i < |parts| ==> parts[i] == Split(s[|sep|..], sep)[i - 1];
    } else if |s| > 0 {
      var rest := Split(s[1..], sep);
      SplitPartsAvoidSep(s[1..], sep);
      assert forall i :: 1 <= i < |parts| ==> parts[i] == rest[i];
      assert !Contains(parts[0], sep) by {
        assert parts[0][1..] == rest[0];
      }
    }
  }

  /** `s.replace(new RegExp(pat, 'g'), rep)` for a pattern without
      metacharacters: every occurrence, left to right and without overlap,
      becomes `rep`; the empty pattern matches at every position. */
  function ReplaceAll(s: string, pat: string, rep: string): string
    decreases |s|
  {
    if |pat| == 0 then
      if |s| == 0 then rep else rep + [s[0]] + ReplaceAll(s[1..], pat, rep)
    else if StartsWith(s, pat) then
      rep + ReplaceAll(s[|pat|..], pat, rep)
    else if |s| == 0 then ""
    else [s[0]] + ReplaceAll(s[1..], pat, rep)
  }

  /** Text in which a non-empty pattern does not occur is returned as it is. */
  lemma {:induction false} ReplaceAllAbsent(s: string, pat: string, rep: string)
    requires |pat| > 0 && !Contains(s, pat)
    ensures ReplaceAll(s, pat, rep) == s
    decreases |s|
  {
    if |s| > 0 {
      ReplaceAllAbsent(s[1..], pat, rep);
    }
  }

  /** A non-empty pattern: the text is cut at every occurrence and the
      pieces are joined with the replacement. */
  lemma {:induction false} ReplaceAllIsSplitJoin(s: string, pat: string, rep: string)
    requires |pat| > 0
    ensures ReplaceAll(s, pat, rep) == Join(Split(s, pat), rep)
    decreases |s|
  {
    if StartsWith(s, pat) {
      ReplaceAllIsSplitJoin(s[|pat|..], pat, rep);
    } else if |s| > 0 {
      ReplaceAllIsSplitJoin(s[1..], pat, rep);
      JoinGrowFirst(s[0], Split(s[1..], pat), rep);
    }
  }

  /** Nothing longer than a text occurs in it. */
  lemma {:induction false} ShortNotContains(s: string, p: string)
    requires |s| < |p|
    ensures !Contains(s, p)
    decreases |s|
  {
    if |s| > 0 {
      ShortNotContains(s[1..], p);
    }
  }

  /** A single occurrence, preceded by text that cannot start one and
      followed by text too short to hold one, is the only replacement. */
  lemma {:induction false} ReplaceAllOnce(a: string, pat: string, b: string, rep: string)
    requires |pat| > 0 && |b| < |pat| && pat[0] !in a
    ensures ReplaceAll(a + pat + b, pat, rep) == a + rep + b
  {
    ReplaceAllPrefix(a, pat + b, pat, rep);
    assert a + pat + b == a + (pat + b);
    ReplaceAllTail(pat, b, rep);
  }

  /** Text none of whose characters can start an occurrence is copied. */
  lemma {:induction false} ReplaceAllPrefix(a: string, t: string, pat: string, rep: string)
    requires |pat| > 0 && pat[0] !in a
    ensures ReplaceAll(a + t, pat, rep) == a + ReplaceAll(t, pat, rep)
    decreases |a|
  {
    if |a| == 0 {
      assert a + t == t;
    } else {
      ReplaceAllPrefix(a[1..], t, pat, rep);
      ReplaceAllPrefixStep(a, t, pat, rep);
    }
  }

  /** One character that cannot start an occurrence is copied. */
  lemma {:induction false} ReplaceAllPrefixStep(a: string, t: string, pat: string, rep: string)
    requires |pat| > 0 && |a| > 0 && a[0] != pat[0]
    requires ReplaceAll(a[1..] + t, pat, rep) == a[1..] + ReplaceAll(t, pat, rep)
    ensures ReplaceAll(a + t, pat, rep) == a + ReplaceAll(t, pat, rep)
  {
    var c, rest := a[0], a[1..] + t;
    assert a + t == [c] + rest;
    ReplaceAllCons(c, rest, pat, rep);
    assert a == [c] + a[1..];
  }

  /** An occurrence at the start, followed by too little for another. */
  lemma {:induction false} ReplaceAllTail(pat: string, b: string, rep: string)
    requires |pat| > 0 && |b| < |pat|
    ensures ReplaceAll(pat + b, pat, rep) == rep + b
  {
    ReplaceAllAtStart(pat + b, pat, rep);
    assert (pat + b)[|pat|..] == b;
    ShortNotContains(b, pat);
    ReplaceAllAbsent(b, pat, rep);
  }

  lemma {:induction false} ReplaceAllAtStart(s: string, pat: string, rep: string)
    requires |pat| > 0 && StartsWith(s, pat)
    ensures ReplaceAll(s, pat, rep) == rep + ReplaceAll(s[|pat|..], pat, rep)
  {
  }

  lemma {:induction false} ReplaceAllCons(c: char, rest: string, pat: string, rep: string)
    requires |pat| > 0 && c != pat[0]
    ensures ReplaceAll([c] + rest, pat, rep) == [c] + ReplaceAll(rest, pat, rep)
  {
  }

  /** An occurrence of `p` that starts inside a prefix of `t` is an
      occurrence in `t`. */
  lemma {:induction false} ContainsInPrefix(a: string, t: string, p: string)
    requires StartsWith(t, a) && Contains(a, p)
    ensures Contains(t, p)
    decreases |a|
  {
    if !StartsWith(a, p) {
      ContainsInPrefix(a[1..], t[1..], p);
    }
  }

  /** Every occurrence in a suffix of `s` is an occurrence in `s`. */
  lemma {:induction false} ContainsInSuffix(s: string, k: nat, p: string)
    requires k <= |s| && Contains(s[k..], p)
    ensures Contains(s, p)
    decreases k
  {
    if k > 0 {
      assert s[1..][k - 1..] == s[k..];
      ContainsInSuffix(s[1..], k - 1, p);
    }
  }

  /** Text none of whose characters occurs in `p` cannot hold part of an
      occurrence: an occurrence after it lies in what follows. */
  lemma {:induction false} ContainsSkipsForeign(n: string, b: string, p: string)
    requires |p| > 0 && (forall k :: 0 <= k < |n| ==> n[k] !in p) && Contains(n + b, p)
    ensures Contains(b, p)
    decreases |n|
  {
    if |n| == 0 {
      assert n + b == b;
    } else {
      assert (n + b)[0] == n[0];
      assert !StartsWith(n + b, p);
      assert (n + b)[1..] == n[1..] + b;
      ContainsSkipsForeign(n[1..], b, p);
    }
  }

  /** An occurrence in `a + n + b`, where `n` is non-empty and shares no
      character with `p`, lies wholly in `a` or wholly in `b`. */
  lemma {:induction false} ContainsAroundForeign(a: string, n: string, b: string, p: string)
    requires |p| > 0 && |n| > 0 && (forall k :: 0 <= k < |n| ==> n[k] !in p)
    requires Contains(a + n + b, p)
    ensures Contains(a, p) || Contains(b, p)
    decreases |a|
  {
    if |a| == 0 {
      assert a + n + b == n + b;
      ContainsSkipsForeign(n, b, p);
    } else if StartsWith(a + n + b, p) {
      assert (a + n + b)[|a|] == n[0];
      if |p| <= |a| {
        assert a[..|p|] == (a + n + b)[..|p|];
      }
    } else {
      assert (a + n + b)[1..] == a[1..] + n + b;
      ContainsAroundForeign(a[1..], n, b, p);
    }
  }

  /** Joining pieces free of `p` with a non-empty text that shares no
      character with `p` gives a text free of `p`. */
  lemma {:induction false} JoinAvoids(parts: seq<string>, n: string, p: string)
    requires |p| > 0 && |n| > 0 && (forall k :: 0 <= k < |n| ==> n[k] !in p)
    requires forall i :: 0 <= i < |parts| ==> !Contains(parts[i], p)
    ensures !Contains(Join(parts, n), p)
    decreases |parts|
  {
    if |parts| == 0 {
      assert !StartsWith("", p);
    } else if |parts| > 1 {
      JoinAvoids(parts[1..], n, p);
      if Contains(parts[0] + n + Join(parts[1..], n), p) {
        ContainsAroundForeign(parts[0], n, Join(parts[1..], n), p);
      }
    }
  }

  /** The pieces of a split of a text free of `p` are free of `p`. */
  lemma {:induction false} SplitPartsAvoid(s: string, sep: string, p: string)
    requires |sep| > 0 && !Contains(s, p)
    ensures forall i :: 0 <= i < |Split(s, sep)| ==> !Contains(Split(s, sep)[i], p)
    decreases |s|
  {
    var parts := Split(s, sep);
    if StartsWith(s, sep) {
      if Contains(s[|sep|..], p) { ContainsInSuffix(s, |sep|, p); }
      SplitPartsAvoid(s[|sep|..], sep, p);
      assert forall i :: 1 <= i < |parts| ==> parts[i] == Split(s[|sep|..], sep)[i - 1];
      assert !Contains("", p) by {
        if Contains("", p) { ContainsInPrefix("", s, p); }
      }
    } else if |s| > 0 {
      var rest := Split(s[1..], sep);
      SplitPartsAvoid(s[1..], sep, p);
      assert forall i :: 1 <= i < |parts| ==> parts[i] == rest[i];
      assert StartsWith(s, parts[0]) && parts[0] == [s[0]] + rest[0];
      if Contains(parts[0], p) { ContainsInPrefix(parts[0], s, p); }
    }
  }

  /** `s.split(/:\s*\/)`: cut at every colon, dropping the white space that
      follows it. */
  function SplitColon(s: string): (parts: seq<string>)
    ensures |parts| > 0
    ensures forall i :: 0 <= i < |parts| ==> ':' !in parts[i]
    ensures StartsWith(s, parts[0]) && (|parts[0]| == |s| || s[|parts[0]|] == ':')
    decreases |s|
  {
    if |s| == 0 then [""]
    else if s[0] == ':' then [""] + SplitColon(TrimStart(s[1..]))
    else
      var rest := SplitColon(s[1..]);
      assert forall i :: 1 <= i < |rest| ==> ([[s[0]] + rest[0]] + rest[1..])[i] == rest[i];
      [[s[0]] + rest[0]] + rest[1..]
  }

  /** Where no colon is followed by white space, nothing is dropped: the
      pieces joined with colons give the text back. */
  lemma {:induction false} SplitColonJoin(s: string)
    requires NoSpaceAfterColon(s)
    ensures Join(SplitColon(s), ":") == s
    decreases |s|
  {
    if |s| > 0 {
      if s[0] == ':' {
        assert TrimStart(s[1..]) == s[1..];
        SplitColonJoin(s[1..]);
      } else {
        var rest := SplitColon(s[1..]);
        SplitColonJoin(s[1..]);
        JoinGrowFirst(s[0], rest, ":");
        assert s == [s[0]] + s[1..];
      }
    }
  }

  /** In general the pieces joined with colons give the text with every
      run of white space that directly follows a colon taken out. */
  lemma {:induction false} SplitColonDropsSpace(s: string)
    ensures Join(SplitColon(s), ":") == DropSpaceAfterColons(s, false)
    decreases |s|
  {
    if |s| > 0 {
      if s[0] == ':' {
        var t := TrimStart(s[1..]);
        SplitColonDropsSpace(t);
        SkipSpaceAfterColon(s[1..]);
      } else {
        var rest := SplitColon(s[1..]);
        SplitColonDropsSpace(s[1..]);
        JoinGrowFirst(s[0], rest, ":");
      }
    }
  }

  /** `s` read left to right, leaving out white space while `afterColon`
      holds: it holds after a colon and through the white space after it. */
  function DropSpaceAfterColons(s: string, afterColon: bool): string
    decreases |s|
  {
    if |s| == 0 then ""
    else if afterColon && IsSpace(s[0]) then DropSpaceAfterColons(s[1..], true)
    else [s[0]] + DropSpaceAfterColons(s[1..], s[0] == ':')
  }

  /** Skipping the white space after a colon is trimming it off first. */
  lemma {:induction false} SkipSpaceAfterColon(s: string)
    ensures DropSpaceAfterColons(s, true) == DropSpaceAfterColons(TrimStart(s), false)
    decreases |s|
  {
    if |s| > 0 && IsSpace(s[0]) {
      SkipSpaceAfterColon(s[1..]);
    }
  }

  /** No colon of `s` is directly followed by white space. */
  predicate NoSpaceAfterColon(s: string) {
    forall i :: 0 <= i < |s| - 1 && s[i] == ':' ==> !IsSpace(s[i + 1])
  }
}
