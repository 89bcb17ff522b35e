/** The colour-table builder `generateColorMappings`: reads antd's raw
    colour table and its default theme, and builds the two linked tables
    literal → variable name (`cTn`) and variable name → literal (`nTc`). */
module ColorMappings {
  import opened Wrappers
  import opened Strings
  import opened Seqs
  import opened Assoc

  /** The two tables, as the fold's accumulator `{ cTn, nTc }` holds them. */
  datatype ColorGraph = ColorGraph(cTn: Table, nTc: Table)

  const Empty: ColorGraph := ColorGraph([], [])

  /** The declaration-line regular expression: the variable name and the
      value of a line, or `None` where the expression finds no match. */
  type Scanner = string -> Option<(string, string)>

  /** The lines both folds look at: they start with `@` and hold a colon. */
  predicate IsDeclLine(line: string) {
    StartsWith(line, "@") && Contains(line, ":")
  }

  function DeclLines(text: string): seq<string> {
    Filter(IsDeclLine, Split(text, "\n"))
  }

  /** Every line scanned, or `None` as soon as one fails to match. */
  function ScanAll(lines: seq<string>, scan: Scanner): (r: Option<seq<(string, string)>>)
    ensures r.None? <==> exists i :: 0 <= i < |lines| && scan(lines[i]).None?
    ensures r.Some? ==> |r.value| == |lines|
                        && forall i :: 0 <= i < |lines| ==> scan(lines[i]) == Some(r.value[i])
    decreases |lines|
  {
    if |lines| == 0 then Some([])
    else
      match scan(lines[0])
      case None => None
      case Some(d) =>
        match ScanAll(lines[1..], scan)
        case None => None
        case Some(ds) => Some([d] + ds)
  }

  /** The raw colour table `colors.nTc`: each name with the value of its
      last declaration. The fold has no guard, so one line that does not
      match aborts the whole run; that is `None` here. */
  function RawColors(colorsText: string, scan: Scanner): (r: Option<Table>)
    ensures r.None? <==> exists l :: l in DeclLines(colorsText) && scan(l).None?
    ensures r.Some? ==> DistinctKeys(r.value)
    ensures r.Some? ==> ScanAll(DeclLines(colorsText), scan).Some?
                        && forall n, v :: Get(r.value, n) == Some(v)
                                          <==> LastAssignment(ScanAll(DeclLines(colorsText), scan).value, n, v)
  {
    var lines := DeclLines(colorsText);
    match ScanAll(lines, scan)
    case None => None
    case Some(ds) =>
      FromPairsLastWinsAll(ds);
      Some(FromPairs(ds))
  }

  /** A name the theme fold keeps: a requested variable or one of the
      primary-colour family. */
  predicate Interesting(name: string, variables: Table) {
    HasKey(variables, name) || Contains(name, "@primary")
  }

  /** A value that names a raw colour becomes that colour's value. */
  function RawLiteral(value: string, raw: Table): (r: string)
    ensures HasKey(raw, value) ==> Get(raw, value) == Some(r)
    ensures !HasKey(raw, value) ==> r == value
  {
    Get(raw, value).GetOr(value)
  }

  /** One alias hop: a reference to a variable already in `nTc` with a
      non-empty (truthy) value becomes that value; anything else is kept. */
  function OneHop(c: string, nTc: Table): (r: string)
    ensures !StartsWith(c, "@") ==> r == c
    ensures StartsWith(c, "@") && Get(nTc, c).Some? && Get(nTc, c).value != "" ==> r == Get(nTc, c).value
    ensures r == c || Get(nTc, c) == Some(r)
    ensures StartsWith(c, "@") && (Get(nTc, c).None? || Get(nTc, c).value == "") ==> r == c
  {
    if StartsWith(c, "@") && Get(nTc, c).Some? && Get(nTc, c).value != "" then Get(nTc, c).value else c
  }

  /** The colour a theme entry stands for: its raw colour if it names
      one, then one hop through the theme entries built so far. */
  function Resolve(value: string, raw: Table, nTc: Table): string {
    OneHop(RawLiteral(value, raw), nTc)
  }

  /** Both tables agree: every name's colour is owned by that name, and
      every owner of a colour has an entry of its own. */
  ghost predicate Consistent(g: ColorGraph) {
    && DistinctKeys(g.cTn) && DistinctKeys(g.nTc)
    && (forall n :: HasKey(g.nTc, n) ==> Get(g.cTn, Get(g.nTc, n).value) == Some(n))
    && (forall c :: HasKey(g.cTn, c) ==> HasKey(g.nTc, Get(g.cTn, c).value))
  }

  /** Every name in the tables is one the theme fold keeps. */
  ghost predicate OnlyInteresting(g: ColorGraph, variables: Table) {
    forall n :: HasKey(g.nTc, n) ==> Interesting(n, variables)
  }

  /** One step of the theme fold. A line the scanner cannot match is
      skipped (the `catch`), so is a name of no interest, and so is a colour
      that already has an owner (first writer wins); otherwise the colour
      and the name are entered in both tables. */
  function ThemeStep(g: ColorGraph, line: string, raw: Table, variables: Table, scan: Scanner): (r: ColorGraph)
    ensures scan(line).None? ==> r == g
    ensures scan(line).Some? && !Interesting(scan(line).value.0, variables) ==> r == g
    ensures forall c :: HasKey(g.cTn, c) ==> Get(r.cTn, c) == Get(g.cTn, c)
    ensures scan(line).Some? && Interesting(scan(line).value.0, variables) ==>
              var name := scan(line).value.0;
              var c := Resolve(scan(line).value.1, raw, g.nTc);
              && (HasKey(g.cTn, c) ==> r == g)
              && (!HasKey(g.cTn, c) ==> Get(r.cTn, c) == Some(name) && Get(r.nTc, name) == Some(c))
              && (forall k :: k != c ==> Get(r.cTn, k) == Get(g.cTn, k))
              && (forall k :: k != name ==> Get(r.nTc, k) == Get(g.nTc, k))
    ensures Consistent(g) ==> Consistent(r)
    ensures OnlyInteresting(g, variables) ==> OnlyInteresting(r, variables)
  {
    match scan(line)
    case None => g
    case Some((name, value)) =>
      if !Interesting(name, variables) then g
      else
        var color := Resolve(value, raw, g.nTc);
        if HasKey(g.cTn, color) then g
        else
          var r := ColorGraph(Put(g.cTn, color, name), Put(g.nTc, name, color));
          assert Consistent(g) ==> Consistent(r) by {
            if Consistent(g) { InsertKeepsConsistent(g, color, name); }
          }
          r
  }

  /** Entering a colour nobody owns yet keeps the tables consistent. */
  lemma {:induction false} InsertKeepsConsistent(g: ColorGraph, color: string, name: string)
    requires Consistent(g) && !HasKey(g.cTn, color)
    ensures Consistent(ColorGraph(Put(g.cTn, color, name), Put(g.nTc, name, color)))
  {
    var r := ColorGraph(Put(g.cTn, color, name), Put(g.nTc, name, color));
    forall n | HasKey(r.nTc, n)
      ensures Get(r.cTn, Get(r.nTc, n).value) == Some(n)
    {
      if n != name {
        var c := Get(g.nTc, n).value;
        assert HasKey(g.cTn, c);
      }
    }
    forall c | HasKey(r.cTn, c)
      ensures HasKey(r.nTc, Get(r.cTn, c).value)
    {
      if c != color {
        var n := Get(g.cTn, c).value;
        assert HasKey(g.nTc, n);
        assert Get(r.nTc, n).Some?;
      } else {
        assert Get(r.nTc, name).Some?;
      }
    }
  }

  /** The theme fold over its lines, in order. */
  function ThemeFold(g: ColorGraph, lines: seq<string>, raw: Table, variables: Table, scan: Scanner): (r: ColorGraph)
    ensures forall c :: HasKey(g.cTn, c) ==> Get(r.cTn, c) == Get(g.cTn, c)
    ensures Consistent(g) ==> Consistent(r)
    ensures OnlyInteresting(g, variables) ==> OnlyInteresting(r, variables)
    decreases |lines|
  {
    if |lines| == 0 then g
    else
      var prev := ThemeFold(g, lines[..|lines| - 1], raw, variables, scan);
      ThemeStep(prev, lines[|lines| - 1], raw, variables, scan)
  }

  /** `generateColorMappings`: the raw colour table first, then the theme
      fold over the default theme, starting from empty tables. */
  function GenerateColorMappings(colorsText: string, defaultText: string, variables: Table, scan: Scanner)
    : (r: Option<ColorGraph>)
    ensures r.Some? <==> RawColors(colorsText, scan).Some?
    ensures r.Some? ==> Consistent(r.value) && OnlyInteresting(r.value, variables)
  {
    match RawColors(colorsText, scan)
    case None => None
    case Some(raw) => Some(ThemeFold(Empty, DeclLines(defaultText), raw, variables, scan))
  }

  /** Folding over two runs of lines is folding over the second from where
      the first left off. */
  lemma {:induction false} ThemeFoldAppend(g: ColorGraph, a: seq<string>, b: seq<string>, raw: Table, variables: Table, scan: Scanner)
    ensures ThemeFold(g, a + b, raw, variables, scan)
         == ThemeFold(ThemeFold(g, a, raw, variables, scan), b, raw, variables, scan)
    decreases |b|
  {
    if |b| == 0 {
      assert a + b == a;
    } else {
      assert (a + b)[..|a + b| - 1] == a + b[..|b| - 1];
      ThemeFoldAppend(g, a, b[..|b| - 1], raw, variables, scan);
    }
  }

  /** A line the scanner cannot match changes nothing: the fold over the
      lines around it is the fold without it. */
  lemma {:induction false} UnmatchedLineIgnored(g: ColorGraph, a: seq<string>, bad: string, b: seq<string>,
                             raw: Table, variables: Table, scan: Scanner)
    requires scan(bad).None?
    ensures ThemeFold(g, a + [bad] + b, raw, variables, scan) == ThemeFold(g, a + b, raw, variables, scan)
  {
    ThemeFoldAppend(g, a + [bad], b, raw, variables, scan);
    ThemeFoldAppend(g, a, b, raw, variables, scan);
    assert (a + [bad])[..|a + [bad]| - 1] == a;
  }

  /** First writer wins: once two lines resolve to the same colour, the
      colour keeps the name of the earlier one, whatever follows. */
  lemma {:induction false} FirstWriterWins(g: ColorGraph, a: seq<string>, line: string, b: seq<string>,
                        raw: Table, variables: Table, scan: Scanner, name: string, value: string)
    requires scan(line) == Some((name, value)) && Interesting(name, variables)
    requires !HasKey(ThemeFold(g, a, raw, variables, scan).cTn,
                     Resolve(value, raw, ThemeFold(g, a, raw, variables, scan).nTc))
    ensures Get(ThemeFold(g, a + [line] + b, raw, variables, scan).cTn,
                Resolve(value, raw, ThemeFold(g, a, raw, variables, scan).nTc)) == Some(name)
  {
    var mid := ThemeFold(g, a, raw, variables, scan);
    var color := Resolve(value, raw, mid.nTc);
    ThemeFoldAppend(g, a + [line], b, raw, variables, scan);
    assert (a + [line])[..|a + [line]| - 1] == a;
    assert Get(ThemeFold(g, a + [line], raw, variables, scan).cTn, color) == Some(name);
  }
  /** The alias hop never yields a colour without an owner: in consistent
      tables, the colour a referenced name stands for is already owned by
      that name, so a line whose value is such a reference is skipped. */
  lemma {:induction false} AliasHopAddsNothing(g: ColorGraph, line: string, raw: Table, variables: Table, scan: Scanner,
                            name: string, value: string)
    requires Consistent(g)
    requires scan(line) == Some((name, value))
    requires StartsWith(RawLiteral(value, raw), "@")
    requires Get(g.nTc, RawLiteral(value, raw)).Some? && Get(g.nTc, RawLiteral(value, raw)).value != ""
    ensures ThemeStep(g, line, raw, variables, scan) == g
  {
    var target := RawLiteral(value, raw);
    assert HasKey(g.nTc, target);
    assert HasKey(g.cTn, Resolve(value, raw, g.nTc));
  }

  /** A reference to a name the fold has not entered is not resolved: the
      reference text itself becomes a key of `cTn`, owned by the line's
      name. */
  lemma {:induction false} UnresolvedAliasKept(g: ColorGraph, line: string, raw: Table, variables: Table, scan: Scanner,
                            name: string, ref: string)
    requires scan(line) == Some((name, ref)) && Interesting(name, variables)
    requires StartsWith(ref, "@") && !HasKey(raw, ref) && !HasKey(g.nTc, ref) && !HasKey(g.cTn, ref)
    ensures Get(ThemeStep(g, line, raw, variables, scan).cTn, ref) == Some(name)
    ensures Get(ThemeStep(g, line, raw, variables, scan).nTc, name) == Some(ref)
  {
  }
}
