/** The variable parser `getLessVars`: every `@name: value` declaration of
    a LESS source, as an ordered table from name to raw value. */
module LessVars {
  import opened Wrappers
  import opened Strings
  import opened Assoc
  import opened Seqs

  /** The first line terminator at or after `from`, or the end of `s`. */
  function LineEnd(s: string, from: nat): (e: nat)
    requires from <= |s|
    ensures from <= e <= |s|
    ensures forall k :: from <= k < e ==> !IsLineTerminator(s[k])
    ensures e < |s| ==> IsLineTerminator(s[e])
    decreases |s| - from
  {
    if from == |s| || IsLineTerminator(s[from]) then from else LineEnd(s, from + 1)
  }

  /** The first `;` at or after `from`, or the end of `s`. */
  function NextSemicolon(s: string, from: nat): (e: nat)
    requires from <= |s|
    ensures from <= e <= |s|
    ensures forall k :: from <= k < e ==> s[k] != ';'
    ensures e < |s| ==> s[e] == ';'
    decreases |s| - from
  {
    if from == |s| || s[from] == ';' then from else NextSemicolon(s, from + 1)
  }

  /** The last `:` in `s[lo..hi]`, if there is one. */
  function LastColon(s: string, lo: int, hi: int): (r: Option<int>)
    requires 0 <= lo <= hi <= |s|
    ensures r.Some? ==> lo <= r.value < hi && s[r.value] == ':'
                        && (forall k :: r.value < k < hi ==> s[k] != ':')
    ensures r.None? ==> (forall k :: lo <= k < hi ==> s[k] != ':')
    decreases hi - lo
  {
    if lo == hi then None
    else if s[hi - 1] == ':' then Some(hi - 1)
    else LastColon(s, lo, hi - 1)
  }

  /** One attempt of `/@(.*:[^;]*)/` at position `p`: an `@`, then (greedy
      `.*` backing off to a colon) the line up to its last colon, then
      everything up to the next `;`. The result is where the match ends. */
  function MatchAt(s: string, p: int): (r: Option<int>)
    requires 0 <= p < |s|
    ensures r.Some? ==> p < r.value <= |s| && Segment(s[p..r.value])
    ensures r.Some? ==> exists k :: MatchShape(s, p, k, r.value)
    ensures r.None? ==> s[p] != '@' || (forall k :: p < k < LineEnd(s, p + 1) ==> s[k] != ':')
  {
    if s[p] != '@' then None
    else
      match LastColon(s, p + 1, LineEnd(s, p + 1))
      case None => None
      case Some(k) =>
        var e := NextSemicolon(s, k + 1);
        assert ColonAt(s[p..e], k - p);
        assert MatchShape(s, p, k, e);
        Some(e)
  }

  /** Where a match starting at `p` ends: `k` is the last colon on the
      line of the `@` at `p`, and the match runs on to the first `;` after
      it, or to the end of the text, which is `e`. */
  predicate MatchShape(s: string, p: int, k: int, e: int) {
    && 0 <= p < k < e <= |s|
    && s[p] == '@' && s[k] == ':' && k < LineEnd(s, p + 1)
    && (forall j :: k < j < LineEnd(s, p + 1) ==> s[j] != ':')
    && (forall j :: k < j < e ==> s[j] != ';')
    && (e == |s| || s[e] == ';')
  }

  /** The shape of every match: an `@`, then a colon before the end of
      the line the `@` is on, after which no `;` follows. */
  ghost predicate Segment(seg: string) {
    |seg| > 1 && seg[0] == '@' && exists k :: ColonAt(seg, k)
  }

  predicate ColonAt(seg: string, k: int) {
    && 0 < k < |seg| && seg[k] == ':'
    && (forall j :: 0 < j < k ==> !IsLineTerminator(seg[j]))
    && (forall j :: k < j < |seg| ==> seg[j] != ';')
  }

  /** All matches of the global scan from position `p` on: after a match the
      search resumes where it ended, after a failed attempt one further on. */
  function ScanFrom(s: string, p: nat): (segs: seq<string>)
    requires p <= |s|
    ensures forall i :: 0 <= i < |segs| ==> Segment(segs[i])
    ensures (forall k :: p <= k < |s| ==> s[k] != '@') ==> segs == []
    decreases |s| - p
  {
    if p == |s| then []
    else
      match MatchAt(s, p)
      case Some(e) => [s[p..e]] + ScanFrom(s, e)
      case None => ScanFrom(s, p + 1)
  }

  /** `sheet.match(/@(.*:[^;]*)/g) || []` */
  function Scan(sheet: string): (segs: seq<string>)
    ensures forall i :: 0 <= i < |segs| ==> Segment(segs[i])
    ensures '@' !in sheet ==> segs == []
  {
    ScanFrom(sheet, 0)
  }

  /** The text of `s` before its first colon. */
  function BeforeColon(s: string): string
    decreases |s|
  {
    if |s| == 0 || s[0] == ':' then "" else [s[0]] + BeforeColon(s[1..])
  }

  /** One declaration: split on `:\s*`, the name is the first piece with
      its quotes removed and trimmed, the value the other pieces joined
      by `:`. */
  function ParseVar(seg: string): (d: (string, string))
    ensures d.0 == Trim(RemoveQuotes(BeforeColon(seg)))
  {
    var pieces := SplitColon(seg);
    FirstPieceIsBeforeColon(seg);
    (Trim(RemoveQuotes(pieces[0])), Join(pieces[1..], ":"))
  }

  lemma {:induction false} FirstPieceIsBeforeColon(s: string)
    ensures SplitColon(s)[0] == BeforeColon(s)
    decreases |s|
  {
    if |s| > 0 && s[0] != ':' {
      FirstPieceIsBeforeColon(s[1..]);
    }
  }

  /** The value of `name: rest` is `rest` from its first non-blank
      character on, with the blanks after each later colon removed and the
      colons kept. */
  lemma {:induction false} ParseVarValue(name: string, rest: string)
    requires ':' !in name
    ensures ParseVar(name + ":" + rest).1 == Join(SplitColon(TrimStart(rest)), ":")
    ensures NoSpaceAfterColon(TrimStart(rest)) ==> ParseVar(name + ":" + rest).1 == TrimStart(rest)
  {
    SplitColonAfterName(name, rest);
    if NoSpaceAfterColon(TrimStart(rest)) {
      SplitColonJoin(TrimStart(rest));
    }
  }

  lemma {:induction false} SplitColonAfterName(name: string, rest: string)
    requires ':' !in name
    ensures SplitColon(name + ":" + rest)[1..] == SplitColon(TrimStart(rest))
    decreases |name|
  {
    var s := name + ":" + rest;
    if |name| == 0 {
      assert s[1..] == rest;
    } else {
      assert s[1..] == name[1..] + ":" + rest;
      SplitColonAfterName(name[1..], rest);
    }
  }

  /** Every segment, parsed. */
  function ParseAll(segs: seq<string>): (ds: seq<(string, string)>)
    ensures |ds| == |segs|
    ensures forall i :: 0 <= i < |segs| ==> ds[i] == ParseVar(segs[i])
    decreases |segs|
  {
    if |segs| == 0 then [] else [ParseVar(segs[0])] + ParseAll(segs[1..])
  }

  /** `getLessVars` on the text of a LESS file. */
  function GetLessVars(sheet: string): (vars: Table)
    ensures DistinctKeys(vars)
    ensures '@' !in sheet ==> vars == []
    ensures forall n :: HasKey(vars, n) <==> n in Keys(ParseAll(Scan(sheet)))
    ensures InFirstOrder(vars, Keys(ParseAll(Scan(sheet))))
  {
    FromPairs(ParseAll(Scan(sheet)))
  }

  /** A declaration `@n:v;` at the start of the sheet, with no colon later
      on its line, is the first match, and the scan resumes at its `;`. */
  lemma {:induction false} ScanDeclaration(n: string, v: string, rest: string)
    requires ';' !in n && ';' !in v && ':' !in v
    requires forall j :: 0 <= j < |n| ==> !IsLineTerminator(n[j])
    requires forall j :: 0 <= j < LineEnd(rest, 0) ==> rest[j] != ':'
    ensures var d := "@" + n + ":" + v;
            && Scan(d + ";" + rest) == [d] + ScanFrom(d + ";" + rest, |d|)
  {
    var d := "@" + n + ":" + v;
    var s := d + ";" + rest;
    DeclarationLayout(s, d, n, v, rest);
    DeclarationMatch(s, n, v, rest);
    PrefixOf(d, ";", rest);
    assert ScanFrom(s, 0) == [d] + ScanFrom(s, |d|);
  }

  /** A sheet holding one such declaration and no further `@` declares
      exactly that variable. */
  lemma {:induction false} GetLessVarsOneDeclaration(n: string, v: string, rest: string)
    requires ';' !in n && ':' !in n && ';' !in v && ':' !in v
    requires forall j :: 0 <= j < |n| ==> !IsLineTerminator(n[j])
    requires forall j :: 0 <= j < LineEnd(rest, 0) ==> rest[j] != ':'
    requires '@' !in rest
    ensures GetLessVars("@" + n + ":" + v + ";" + rest) == [(Trim(RemoveQuotes("@" + n)), TrimStart(v))]
  {
    var d := "@" + n + ":" + v;
    ScanDeclaration(n, v, rest);
    NothingAfter(d + ";" + rest, d, rest);
    DeclarationParses(n, v);
    assert Scan(d + ";" + rest) == [d];
    assert ParseAll([d]) == [ParseVar(d)];
    FromPairsSingle(ParseVar(d));
  }

  lemma {:induction false} PrefixOf(a: string, b: string, c: string)
    ensures (a + b + c)[0..|a|] == a
  {
  }

  /** Where each part of `@n:v;rest` sits. */
  lemma {:induction false} DeclarationLayout(s: string, d: string, n: string, v: string, rest: string)
    requires d == "@" + n + ":" + v && s == d + ";" + rest
    ensures |s| == |n| + |v| + 3 + |rest| && |d| == |n| + |v| + 2
    ensures s[0] == '@' && s[|n| + 1] == ':' && s[|d|] == ';'
    ensures forall j :: 1 <= j <= |n| ==> s[j] == n[j - 1]
    ensures forall j :: |n| + 1 < j < |d| ==> s[j] == v[j - |n| - 2]
    ensures forall j :: |d| < j < |s| ==> s[j] == rest[j - |d| - 1]
  {
  }

  /** The first match of `@n:v;rest` ends at its `;`. */
  lemma {:induction false} DeclarationMatch(s: string, n: string, v: string, rest: string)
    requires ';' !in n && ';' !in v && ':' !in v
    requires forall j :: 0 <= j < |n| ==> !IsLineTerminator(n[j])
    requires forall j :: 0 <= j < LineEnd(rest, 0) ==> rest[j] != ':'
    requires |s| == |n| + |v| + 3 + |rest|
    requires s[0] == '@' && s[|n| + 1] == ':' && s[|n| + |v| + 2] == ';'
    requires forall j :: 1 <= j <= |n| ==> s[j] == n[j - 1]
    requires forall j :: |n| + 1 < j < |n| + |v| + 2 ==> s[j] == v[j - |n| - 2]
    requires forall j :: |n| + |v| + 2 < j < |s| ==> s[j] == rest[j - |n| - |v| - 3]
    ensures ScanFrom(s, 0) == [s[0..|n| + |v| + 2]] + ScanFrom(s, |n| + |v| + 2)
  {
    var c, e, off := |n| + 1, |n| + |v| + 2, |n| + |v| + 3;
    var le := LineEnd(s, 1);
    forall j | 1 <= j < c
      ensures !IsLineTerminator(s[j])
    {
      assert s[j] == n[j - 1];
    }
    LineEndPast(s, 1, c);
    forall j | c < j < le
      ensures s[j] != ':'
    {
      if j < e {
        assert s[j] == v[j - c - 1];
      } else if j >= off {
        forall t | 0 <= t <= j - off
          ensures !IsLineTerminator(rest[t])
        {
          assert s[off + t] == rest[t];
        }
        LineEndPast(rest, 0, j - off);
      }
    }
    forall j | c < j < e
      ensures s[j] != ';'
    {
      assert s[j] == v[j - c - 1];
    }
    assert MatchShape(s, 0, c, e);
    var m := MatchAt(s, 0);
    var k :| MatchShape(s, 0, k, m.value);
    assert k == c;
  }

  /** A line runs on past every position up to which no line terminator occurs. */
  lemma {:induction false} LineEndPast(s: string, from: nat, c: nat)
    requires from <= c < |s| && forall j :: from <= j <= c ==> !IsLineTerminator(s[j])
    ensures c < LineEnd(s, from)
  {
  }

  /** Without a later `@` the scan after the declaration finds nothing. */
  lemma {:induction false} NothingAfter(s: string, d: string, rest: string)
    requires s == d + ";" + rest && '@' !in rest
    ensures ScanFrom(s, |d|) == []
  {
    forall j | |d| <= j < |s|
      ensures s[j] != '@'
    {
      if j > |d| { assert s[j] == rest[j - |d| - 1]; }
    }
  }

  /** `@n:v` with no further colon parses to the name `@n` (unquoted,
      trimmed) and the value `v` from its first non-blank character on. */
  lemma {:induction false} DeclarationParses(n: string, v: string)
    requires ':' !in n && ':' !in v
    ensures ParseVar("@" + n + ":" + v) == (Trim(RemoveQuotes("@" + n)), TrimStart(v))
  {
    var name := "@" + n;
    assert ':' !in name;
    BeforeColonOfName(name, v);
    ParseVarValue(name, v);
    assert "@" + n + ":" + v == name + ":" + v;
  }

  lemma {:induction false} BeforeColonOfName(name: string, rest: string)
    requires ':' !in name
    ensures BeforeColon(name + ":" + rest) == name
    decreases |name|
  {
    if |name| > 0 {
      assert (name + ":" + rest)[1..] == name[1..] + ":" + rest;
      BeforeColonOfName(name[1..], rest);
    }
  }

  /** A name's value is that of its last declaration: a later duplicate
      overrides an earlier one. */
  lemma {:induction false} GetLessVarsLastWins(sheet: string, name: string, value: string)
    ensures Get(GetLessVars(sheet), name) == Some(value) <==> LastDeclared(Scan(sheet), name, value)
  {
    ParsedLastWins(Scan(sheet), name, value);
  }

  lemma {:induction false} ParsedLastWins(segs: seq<string>, name: string, value: string)
    ensures Get(FromPairs(ParseAll(segs)), name) == Some(value) <==> LastDeclared(segs, name, value)
  {
    var ds := ParseAll(segs);
    FromPairsLastWins(ds, name, value);
    if LastAssignment(ds, name, value) {
      var i :| LastAt(ds, name, value, i);
      LastAtIsLastDeclaration(segs, ds, name, value, i);
    }
    if LastDeclared(segs, name, value) {
      var i :| LastDeclaration(segs, name, value, i);
      LastAtIsLastDeclaration(segs, ds, name, value, i);
    }
  }

  lemma {:induction false} LastAtIsLastDeclaration(segs: seq<string>, ds: seq<(string, string)>,
                                                   name: string, value: string, i: int)
    requires |ds| == |segs| && forall k :: 0 <= k < |segs| ==> ds[k] == ParseVar(segs[k])
    ensures LastAt(ds, name, value, i) <==> LastDeclaration(segs, name, value, i)
  {
  }

  /** Segment `i` declares `name` with `value`, and no later one declares `name`. */
  predicate LastDeclaration(segs: seq<string>, name: string, value: string, i: int) {
    && 0 <= i < |segs|
    && ParseVar(segs[i]) == (name, value)
    && forall j :: i < j < |segs| ==> ParseVar(segs[j]).0 != name
  }

  ghost predicate LastDeclared(segs: seq<string>, name: string, value: string) {
    exists i :: LastDeclaration(segs, name, value, i)
  }
}
